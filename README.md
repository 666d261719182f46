# computorV1 in Dafny

This project models the computation in `computorV1.py`, a solver for polynomial equations of
degree at most 2 in one variable, such as `5 * X^0 + 4 * X^1 - 9.3 * X^2 = 1 * X^0`.
`solve` runs three steps in sequence:

1. It lower-cases the text and removes its spaces.
2. `get_coeffs` scans the text with one regular expression of four alternatives.
   It rejects the text with a message, or builds a dictionary from power to coefficient.
   The dictionary always holds the keys 0, 1 and 2 and is sorted by key.
3. `print_reduced_form` renders that dictionary as `... = 0`. `solve` then takes the degree
   as the largest key and, at degree 2 or less, computes the roots. It uses the incomplete
   path when one of a = m[2], b = m[1], c = m[0] is zero, and the discriminant path
   otherwise.

The modules follow these steps:

- `PyNum` (pynum.dfy): Python `int` and decimal `float` values as `Num`. A float is kept
  exactly as units / 10^places. The module also covers `str()`, `int()`, `float()`,
  addition, `abs` and `x * pow(-1, k)`.
- `Scanner` (scanner.dfy): the regular expression of `get_coeffs` as an explicit matcher.
  `Next` tries WRONG_EQUALS, EXPR_COEFF, EXPR_VAR and MISMATCH in that order, with Python's
  ordered, backtracking alternation. `Tokenize` is the `re.finditer` loop, up to the first
  token that makes `get_coeffs` give up.
- `Coefficients` (coefficients.dfy): `get_number`, and `get_coeffs` as the method
  `GetCoeffs`. `GetCoeffs` is proved equal to the function `Parse`. `AccumulateTotals` ties
  the loop's dictionary to an independent definition of each key's sum (`Total`).
- `Reduced` (reduced.dfy): `print_reduced_form` as the method `PrintReducedForm`, proved to
  return `ReducedForm`. Lemmas state the rendering rules.
- `Solver` (solver.dfy): normalisation, `get_discriminant`, `get_incomplete_roots`,
  `get_roots`, and `solve` as the method `Solve`, proved equal to the function `Solution`.
  Roots are proved to solve a·x² + b·x + c = 0, and the model shows which roots are missed.

The model follows `computorV1.py` as written. Behaviours of the code a reader may not expect:

- The degree is the largest key, not the largest key with a nonzero coefficient.
- D = 0 and D < 0 both give no roots.
- Linear equations give no roots.
- After '=', only terms past the first one are negated. "x^2=5" puts +5 under key 0.
- A '-' sign in front of a term never negates it, as it does in "5-3x".

A root is `Root(base, scale, radicand)`, meaning base + scale·√radicand. The square root is
left symbolic: every property of a root holds for every y ≥ 0 with y·y = radicand.

## Model

| member | source | states |
|---|---|---|
| PyNum.Add | computorV1.py:81 | `+=` on a coefficient: the value is the sum, and the result is a float iff either operand is |
| PyNum.TimesPowMinusOne | computorV1.py:81-83 | `number * pow(-1, k)` negates exactly when k is odd and keeps int/float |
| PyNum.Abs | computorV1.py:14 | `abs` gives the magnitude and keeps int/float |
| PyNum.Truthy | computorV1.py:68 | a number is true exactly when its value is nonzero |
| PyNum.IntText | computorV1.py:19 | `str` of a power is all digits and reads back as that power |
| PyNum.Str | computorV1.py:14 | `str` of a number starts with '-' iff it is negative, and otherwise holds only digits and '.', with '.' iff it is a float |
| PyNum.FloatOf | computorV1.py:29 | `float(line)` on text with a point gives a float |
| PyNum.StrRoundTrip | computorV1.py:25-31 | `str` then `int`/`float` gives the number back: the same int, or a float of equal value |
| Scanner.NumberEnd | computorV1.py:47 | the group `-?[0-9]+(\.[0-9]+)?` matches exactly when a digit, or '-' and a digit, follows; its text is a number; the match is greedy: no digit follows it, and without a '.' of its own no '.' and digit follow it |
| Scanner.VarEnd | computorV1.py:47 | the group `\*?x` matches exactly when "x" or "*x" follows, and spans that text |
| Scanner.PowerSpan | computorV1.py:47 | the exponent `(\^|\*\*)?[0-9]+` matches exactly when a digit, '^' and a digit, or "**" and a digit follows, and its digits run until no digit follows |
| Scanner.SignEnds | computorV1.py:47 | the sign alternatives `^`, `-`, `+`, `=`, `=-` are tried in order: the ends strictly increase, each spans a sign text, and every sign text at the index is among them |
| Scanner.SignTextSpells | computorV1.py:47 | a sign at i spells one of "", "-", "+", "=", "=-", and the empty one only at index 0 |
| Scanner.CoeffAt | computorV1.py:47 | an EXPR_COEFF match exists exactly when a number can be read after the sign; it captures that sign and the whole number, and its groups spell out the text it spans |
| Scanner.CoeffTail | computorV1.py:47 | an EXPR_COEFF match ends its number where the number group ends, then takes `\*?x` whenever it matches and the exponent whenever it matches after it |
| Scanner.VarAt | computorV1.py:51 | an EXPR_VAR match exists exactly when "x" or "*x" follows the sign directly or after a number; it holds that whole number iff one can be read before a variable |
| Scanner.VarTail | computorV1.py:51 | an EXPR_VAR match takes the variable right after its number, and the exponent whenever it matches after it |
| Scanner.Next | computorV1.py:43-55 | WRONG_EQUALS fires iff its pattern (`WrongEqualsAt`: '=' at the start, '=' ending the text or its last line, "=+", "=*") matches at i; a term spans text its groups spell out; MISMATCH names s[i]; a newline matches nothing |
| Scanner.FirstCoeffPicks | computorV1.py:47 | over the sign alternatives in order, EXPR_COEFF takes the first sign after which a number can be read, and fails when there is none |
| Scanner.FirstVarPicks | computorV1.py:51 | over the sign alternatives in order, EXPR_VAR takes the first sign after which "x" or "*x" follows, directly or after a number, and fails when there is none |
| Scanner.NextPicks | computorV1.py:43-55 | a term the scan yields is the EXPR_COEFF match at the first sign after which a number can be read; only when there is no such sign is it the EXPR_VAR match at the first sign after which a variable can be read |
| Scanner.NextNumber | computorV1.py:47-51 | a term has an empty number iff no number can be read after any sign alternative |
| Scanner.NextComplete | computorV1.py:43-55 | MISMATCH is reported only where no term pattern matches: wherever a well-formed term can start, the scan yields a term or WRONG_EQUALS |
| Scanner.TermOpens | computorV1.py:47-51 | right after the sign of a well-formed term, a number or the variable can be read |
| Scanner.FirstCoeffFinds | computorV1.py:47 | if a number can be read after any sign alternative, the ordered alternation finds an EXPR_COEFF match |
| Scanner.FirstVarFinds | computorV1.py:51 | if "x" or "*x" can be read after any sign alternative, the ordered alternation finds an EXPR_VAR match |
| Scanner.Tokenize | computorV1.py:56-62 | a scan that gives up does so at a WRONG_EQUALS or MISMATCH token found at or after where it started |
| Scanner.TokenizeStops | computorV1.py:56-62 | a scan that gives up does so at the first token that is not a term: everything before it is covered by terms and skipped newlines |
| Scanner.TokenizeTiles | computorV1.py:56-58 | a scan that reaches the end covers the text with its terms, in order, skipping only newlines |
| Scanner.TilesWellFormed | computorV1.py:56-58 | every term the scan yields is well formed in the text |
| Scanner.NoEqualsInside | computorV1.py:47 | no '=' appears inside a term after its first character |
| Scanner.EqualsPlusStops | computorV1.py:44 | any "=+" or "=*" that the scan reaches stops it at or before that '=' |
| Scanner.LeadingMinusJoinsNumber | computorV1.py:47 | at index 0 a leading '-' belongs to the number and the sign is empty |
| Scanner.MinusIsSignAfterStart | computorV1.py:47 | after index 0, "-5" captures sign '-' and number 5 |
| Scanner.EqualsThenNumber | computorV1.py:47 | '=' before a number is captured as sign "=", and a following '-' stays in the number |
| Scanner.EqualsMinusSign | computorV1.py:47 | sign "=-" is captured only when no digit follows the '-' |
| Coefficients.Count | computorV1.py:39 | `code.count(c)` is zero exactly when c is absent |
| Coefficients.CountAppend | computorV1.py:39 | `count` adds up over a concatenation |
| Coefficients.Repr | computorV1.py:86 | `repr` of one character: quoted, printable ASCII as itself, and escapes for control characters, U+007F-U+00A0, U+00AD and backslash |
| Coefficients.Message | computorV1.py:86 | the "Unexpected value: " message ends with the character's `repr` |
| Coefficients.GetNumber | computorV1.py:25-31 | an empty number is 1, and the result is a float iff the text has a point |
| Coefficients.GetNumberOfStr | computorV1.py:25-31 | `get_number(str(x))` has x's value and type |
| Coefficients.PowerOf | computorV1.py:72-78 | the power is 0 without x, 1 without exponent digits, and `int()` of the exponent digits otherwise |
| Coefficients.Multiplier | computorV1.py:69-71 | `sign_multiplicator` is at most 2, and odd (a negation) exactly when right_side is set and the term does not itself open the right-hand side |
| Coefficients.MultiplierSign | computorV1.py:64-71 | `number * pow(-1, sign_multiplicator)` equals the term's number, negated exactly when it lies past the term that opened the right-hand side |
| Coefficients.StepKey | computorV1.py:64-83 | one loop pass adds the contribution to the key's sum, creates a key only for a nonzero number, and sets right_side on '=' or '=-' even when the number is 0 |
| Coefficients.AccumulateTotals | computorV1.py:56-83 | after the loop, right_side records whether a term opened the right-hand side, the keys are exactly the powers of nonzero-number terms, and each value is its key's sum |
| Coefficients.FillUpTo | computorV1.py:89-92 | the fill loop adds keys 0, 1 and 2 and no others |
| Coefficients.FillKeepsValues | computorV1.py:90-92 | the fill loop keeps every nonzero value and every key above 2, and stores int 0 where a value is zero or missing |
| Coefficients.MinKey | computorV1.py:94 | `sorted` takes the least remaining key first |
| Coefficients.SortedItems | computorV1.py:94 | the items are in strictly increasing key order, each holding the dictionary's value, one per key |
| Coefficients.SortedLookup | computorV1.py:94 | `get` on the sorted dictionary finds what the unsorted one held |
| Coefficients.Lookup | computorV1.py:104 | `coeffs.get(k)` finds a value iff some item has key k |
| Coefficients.GetCoeffs | computorV1.py:34-94 | the loop over the scan and the fill loop compute `Parse` |
| Coefficients.ScanStep | computorV1.py:56-87 | one pass over a match either ends the parse with the error `Parse` gives, or moves the scan strictly forward while keeping the dictionary equal to the accumulation of the terms so far |
| Coefficients.AddTerm | computorV1.py:63-83 | the loop body for one term updates right_side and the dictionary exactly as one `Step` of the accumulation |
| Coefficients.FillMissing | computorV1.py:89-92 | the fill loop computes `FillUpTo(m, 3)` |
| Coefficients.AfterNoMatch | computorV1.py:56 | a newline that nothing matches is skipped and the scan resumes one character later |
| Coefficients.AfterMatched | computorV1.py:56-58 | after a matched term the scan resumes where the term ends |
| Coefficients.StoppedAt | computorV1.py:60-62 | a WRONG_EQUALS or MISMATCH token ends the result with its error |
| Coefficients.Finished | computorV1.py:89-94 | a scan that reaches the end gives the filled, sorted dictionary |
| Coefficients.ParseEqualsCount | computorV1.py:39-41 | the '=' count error is returned iff the text does not hold exactly one '=' |
| Coefficients.ParseEqualsAtEdge | computorV1.py:44 | with one '=' and no newline, a text that starts or ends with '=' fails with "Syntax error near '='" |
| Coefficients.ParseEqualsThenOperator | computorV1.py:44 | with one '=' followed by '+' or '*', the scan stops at or before that '=', and parsing fails with "Syntax error near '='" unless a MISMATCH before it gives "Unexpected value" |
| Coefficients.ParseUnexpected | computorV1.py:85-87 | an "Unexpected value" error names the one character at which the scan met MISMATCH |
| Coefficients.ParseSuccess | computorV1.py:89-94 | a result is sorted and holds keys 0, 1 and 2; another key is present iff some nonzero-number term has that power; each value is the key's sum, and keys summing to 0 are not pruned |
| Coefficients.NumberInside | computorV1.py:67 | a term's number is text of the equation |
| Coefficients.AccumulateIntegers | computorV1.py:67-83 | with only int numbers, the loop stores only ints |
| Coefficients.ParseIntegers | computorV1.py:25-31 | a text without '.' gives a dictionary of ints |
| Reduced.NonZero | computorV1.py:11 | the filter keeps exactly the items with a nonzero value |
| Reduced.NonZeroKeepsOrder | computorV1.py:11 | the filter keeps the key order |
| Reduced.TermSign | computorV1.py:13-16 | the first term starts with "-" iff it is negative; a later one starts with " + " or " - " by its sign |
| Reduced.TermVariable | computorV1.py:17-19 | "X" appears once iff the power is not 0, and "^" iff the power is above 1 |
| Reduced.TermPower | computorV1.py:17-19 | a term with a nonzero power ends in "X", followed by "^" and `str(power)` when the power is above 1 |
| Reduced.TermTimes | computorV1.py:18 | " * " appears iff the magnitude exceeds 1 and the power is not 0 |
| Reduced.TermMagnitude | computorV1.py:14 | the magnitude follows the sign iff it exceeds 1 or the power is 0, and "X" follows otherwise |
| Reduced.PrintReducedForm | computorV1.py:8-22 | the loop builds `ReducedForm` |
| Reduced.ReducedFormEnds | computorV1.py:21 | the text ends in " = 0", and an all-zero dictionary renders as " = 0" |
| Reduced.ReducedFormVariables | computorV1.py:11-21 | "X" appears once per nonzero coefficient with a nonzero power |
| Reduced.JoinedStep | computorV1.py:20 | each pass adds one "X" iff its power is not 0 |
| Reduced.ReducedFormFirstSign | computorV1.py:15-16 | the text starts with "-" iff the first nonzero coefficient is negative |
| Reduced.LaterNotFirst | computorV1.py:15-16 | in a key-ordered list no later item equals the first, so `coeff == coeffs[0]` holds only on the first pass |
| Reduced.JoinedListed | computorV1.py:13-20 | on key-ordered items, rendering by the `coeff == coeffs[0]` test equals rendering the first item as the first term and every later one as a follower |
| Reduced.ReducedFormListed | computorV1.py:8-22 | on a sorted dictionary the reduced form is the first nonzero term rendered as the first, each later one as a follower, then " = 0" |
| Solver.Lower | computorV1.py:127 | `lower()` keeps the length, keeps every character or lowers a capital A-Z by 32 code points, leaves no capital A-Z, and moves neither spaces nor '=' |
| Solver.Strip | computorV1.py:127 | `replace(" ", "")` removes exactly the spaces and adds no character |
| Solver.StripAppend | computorV1.py:127 | removing spaces from a concatenation removes them from each part and keeps the parts in order |
| Solver.StripChar | computorV1.py:127 | removing spaces drops a one-character space and keeps any other character; with StripAppend this fixes the text exactly |
| Solver.Normalise | computorV1.py:127 | the normalised text holds no space and no capital |
| Solver.NormaliseKeepsEquals | computorV1.py:127 | normalising keeps the count of '=' |
| Solver.NormaliseIdempotent | computorV1.py:127 | normalising twice is normalising once |
| Solver.CompletedSquare | computorV1.py:97-99 | 4a·(ax² + bx + c) = (2ax + b)² − D for D = b² − 4ac (`Discriminant`), which ties the discriminant to the equation |
| Solver.GetDiscriminant | computorV1.py:97-101 | the discriminant exists iff keys 0, 1 and 2 are present |
| Solver.IncompleteRoots | computorV1.py:104-115 | at most two roots, with no negative radicand |
| Solver.IncompleteRootsDistinct | computorV1.py:104-115 | when the incomplete path returns two roots they share one radicand and differ, so it never returns [0, 0] |
| Solver.Roots | computorV1.py:118-123 | two roots with radicand D when D > 0, and none otherwise |
| Solver.IncompleteRootsSolve | computorV1.py:104-115 | when a, b or c is zero, every root the incomplete path returns solves ax² + bx + c = 0 |
| Solver.IncompleteRootsComplete | computorV1.py:104-115 | when a, b or c is zero and a is not, every solution is among the returned roots |
| Solver.LinearRootMissed | computorV1.py:104-115 | for a = 0 and b ≠ 0 the incomplete path returns [] although −c/b solves bx + c = 0 |
| Solver.IdentityGivesZero | computorV1.py:106-107 | for a = b = c = 0 the incomplete path returns [0] although every x solves the equation |
| Solver.RootsSolve | computorV1.py:118-121 | with a ≠ 0, both roots (−b ± √D)/(2a) solve the equation, and they differ |
| Solver.RootsComplete | computorV1.py:118-123 | with a ≠ 0 and D ≠ 0, every solution is among the returned roots |
| Solver.DoubleRootMissed | computorV1.py:118-123 | with a ≠ 0 and D = 0, get_roots returns [] although −b/(2a) solves the equation |
| Solver.Degree | computorV1.py:134 | `max(coeffs.keys())` is a key and no key exceeds it |
| Solver.ParsedDegree | computorV1.py:134 | on a parsed dictionary the degree is at least 2 and the discriminant always exists; the degree exceeds 2 iff a nonzero-number term has a power above 2, even when those terms cancel |
| Solver.Solve | computorV1.py:126-152 | the method computes `Solution` by calling `GetCoeffs` and `PrintReducedForm` |
| Solver.SolutionShape | computorV1.py:126-139 | solve rejects exactly what the parser rejects, with its error; otherwise it reports the reduced form and the largest key as degree, which is at least 2, and no roots above degree 2 |
| Solver.SolvedPath | computorV1.py:142-150 | the incomplete path is taken iff a, b or c is zero, and the discriminant path otherwise |
| Solver.SolvedRootsSolve | computorV1.py:142-152 | every root solve reports solves ax² + bx + c = 0 for the parsed a, b, c |
| Solver.SolvedRootsComplete | computorV1.py:142-152 | with a ≠ 0, solve misses no solution, except the double root when D = 0 and b, c ≠ 0 |

## Left out

- The command line (`argparse`, the `__main__` block) and the unused `VERBOSE` flag: these are program plumbing, not computation.
- Printing: each printed outcome is returned as a value instead. `Solve` returns an `Outcome` that holds the parse error, the reduced-form text, the degree and the roots. The fixed texts "Syntax Error!", "Polynomial degree: …" and the degree-too-high notice are not built.
- Python's binary floats are replaced by exact decimals, so rounding in float sums and in `float(line)` is not modelled.
- PyNum.Str: every float is written positionally. Python switches to exponent notation at 1e16 and below 1e-4, and it prints the shortest text that rounds to the binary value.
- Solver.IncompleteRoots, Solver.Roots: `** (1 / 2)` stays symbolic. The properties hold for every exact square root, not for the rounded float one.
- Solver.GetDiscriminant: the `quit()` on a missing key becomes None. `ParsedDegree` shows that this never happens after a successful parse.
- Solver.Roots: requires a nonzero a and present keys when D > 0. Otherwise the source raises ZeroDivisionError or TypeError, and `solve` never calls it that way.
- Solver.Lower: only ASCII A-Z are lowered. Python also lowers other letters, which the scanner rejects either way. The only possible difference is which character an "Unexpected value" message names.
- Coefficients.Repr: characters above U+00AD are shown as themselves. Python escapes the ones it considers unprintable, such as U+2028.
- Coefficients.ParseEqualsAtEdge: stated for texts without a newline. With a newline, `.*=$` fires only where the final '=' can be reached on the same line, which `Scanner.WrongEqualsAt` models.
- The test files are not modelled: they call functions this revision of `computorV1.py` does not have.
