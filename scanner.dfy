/** The token pattern of get_coeffs (computorV1.py:43-55) and the `re.finditer` loop over it,
    as an explicit matcher. At one index the four alternatives WRONG_EQUALS, EXPR_COEFF,
    EXPR_VAR and MISMATCH are tried in that order, and inside a term pattern the sign
    alternatives `^`, `-`, `+`, `=`, `=-` are tried in that order with greedy, backtracking
    quantifiers, exactly as Python's regular expression engine does. As in Python,
    `.` matches any character but a newline and `$` matches at the end of the string or just
    before a final newline. */
module Scanner {
  import opened PyNum

  /** A match of EXPR_COEFF or EXPR_VAR, with the text of each group: the sign, the number
      (empty when absent), the variable ("", "x" or "*x"), the exponent marker ("", "^" or
      "**") and the exponent digits (empty when absent). It spans s[start..end]. */
  datatype Term = Term(start: nat, sign: string, number: string, variable: string, marker: string,
                       power: string, end: nat)

  /** What the combined pattern matches at one index; at a newline nothing matches and the
      search moves on to the next index. */
  datatype Token = WrongEquals | Matched(term: Term) | Mismatch(c: char) | NoMatch

  datatype Option<T> = None | Some(value: T)

  lemma SliceJoin(s: string, a: nat, b: nat, c: nat)
    requires a <= b <= c <= |s|
    ensures s[a..b] + s[b..c] == s[a..c]
  {
  }

  // ----- the pieces of the term patterns -----

  /** `[0-9]*` from j, greedy: the end of the run of digits that starts at j. */
  function DigitsEnd(s: string, j: nat): (e: nat)
    requires j <= |s|
    ensures j <= e <= |s| && AllDigits(s[j..e])
    ensures e < |s| ==> !IsDigit(s[e])
    decreases |s| - j
  {
    if j < |s| && IsDigit(s[j]) then
      var e := DigitsEnd(s, j + 1);
      assert s[j..e] == [s[j]] + s[j + 1..e];
      e
    else j
  }

  /** `\-?[0-9]+(\.[0-9]+)?` at j: where the number ends, if it matches. The `-` is taken
      only when a digit follows (otherwise `[0-9]+` fails either way), and the fraction
      only when a digit follows the point. */
  function NumberEnd(s: string, j: nat): (n: Option<nat>)
    requires j <= |s|
    ensures n.Some? ==> j < n.value <= |s| && IsNumberText(s[j..n.value])
    ensures n.Some? <==> (j < |s| && IsDigit(s[j])) || (j + 1 < |s| && s[j] == '-' && IsDigit(s[j + 1]))
    ensures n.Some? ==> n.value == |s| || !IsDigit(s[n.value])
    ensures n.Some? && '.' !in s[j..n.value] ==>
      !(n.value + 1 < |s| && s[n.value] == '.' && IsDigit(s[n.value + 1]))
  {
    var d := if j < |s| && s[j] == '-' then j + 1 else j;
    if d < |s| && IsDigit(s[d]) then
      var e := DigitsEnd(s, d);
      if e + 1 < |s| && s[e] == '.' && IsDigit(s[e + 1]) then
        var n := DigitsEnd(s, e + 1);
        FloatSpan(s, j, d, e, n);
        Some(n)
      else
        IntSpan(s, j, d, e);
        Some(e)
    else None
  }

  /** An optional '-', digits and no point read as an int text. */
  lemma IntSpan(s: string, j: nat, d: nat, e: nat)
    requires j <= d <= j + 1 && d < e <= |s| && (d == j + 1 ==> s[j] == '-')
    requires AllDigits(s[d..e])
    ensures IsNumberText(s[j..e])
  {
    var sg: string := if d == j + 1 then "-" else "";
    assert s[j..d] == sg;
    assert s[j..e] == sg + s[d..e];
    IntTextParts(d == j + 1, s[d..e], s[j..e]);
  }

  /** An optional '-', digits, a point and digits read as a float text. */
  lemma FloatSpan(s: string, j: nat, d: nat, e: nat, n: nat)
    requires j <= d <= j + 1 && d < e && e + 1 < n <= |s| && (d == j + 1 ==> s[j] == '-')
    requires AllDigits(s[d..e]) && s[e] == '.' && AllDigits(s[e + 1..n])
    ensures IsNumberText(s[j..n])
  {
    var sg: string := if d == j + 1 then "-" else "";
    assert s[j..d] == sg;
    assert s[j..n] == sg + s[d..e] + "." + s[e + 1..n];
    FloatTextParts(d == j + 1, s[d..e], s[e + 1..n], s[j..n]);
  }

  /** `\*?x` at j: where the variable ends, if it matches. */
  function VarEnd(s: string, j: nat): (v: Option<nat>)
    requires j <= |s|
    ensures v.Some? ==> j < v.value <= |s| && s[j..v.value] in {"x", "*x"}
    ensures v.Some? <==> (j < |s| && s[j] == 'x') || (j + 1 < |s| && s[j] == '*' && s[j + 1] == 'x')
  {
    if j + 1 < |s| && s[j] == '*' && s[j + 1] == 'x' then
      assert s[j..j + 2] == "*x";
      Some(j + 2)
    else if j < |s| && s[j] == 'x' then
      assert s[j..j + 1] == "x";
      Some(j + 1)
    else None
  }

  /** `(\^|\*\*)?[0-9]+` at k: where the marker ends and where the exponent digits end,
      if it matches. */
  function PowerSpan(s: string, k: nat): (r: Option<(nat, nat)>)
    requires k <= |s|
    ensures r.Some? ==> k <= r.value.0 < r.value.1 <= |s|
    ensures r.Some? ==> s[k..r.value.0] in {"", "^", "**"} && AllDigits(s[r.value.0..r.value.1])
    ensures r.Some? <==> || (k < |s| && IsDigit(s[k]))
                         || (k + 1 < |s| && s[k] == '^' && IsDigit(s[k + 1]))
                         || (k + 2 < |s| && s[k] == '*' && s[k + 1] == '*' && IsDigit(s[k + 2]))
    ensures r.Some? ==> r.value.1 == |s| || !IsDigit(s[r.value.1])
  {
    if k + 1 < |s| && s[k] == '^' && IsDigit(s[k + 1]) then
      assert s[k..k + 1] == "^";
      Some((k + 1, DigitsEnd(s, k + 1)))
    else if k + 2 < |s| && s[k] == '*' && s[k + 1] == '*' && IsDigit(s[k + 2]) then
      assert s[k..k + 2] == "**";
      Some((k + 2, DigitsEnd(s, k + 2)))
    else if k < |s| && IsDigit(s[k]) then
      assert s[k..k] == "";
      Some((k, DigitsEnd(s, k)))
    else None
  }

  /** s[i..j] is text one of the sign alternatives matches at i: nothing (only at index 0),
      one of '-', '+', '=', or "=-". */
  predicate SignText(s: string, i: nat, j: nat)
    requires i <= j <= |s|
  {
    || (j == i && i == 0)
    || (j == i + 1 && (s[i] == '-' || s[i] == '+' || s[i] == '='))
    || (j == i + 2 && s[i] == '=' && s[i + 1] == '-')
  }

  /** The sign alternatives `^|\-|\+|\=|\=\-` match at i exactly the texts SignText lists. */
  lemma SignTextSpells(s: string, i: nat, j: nat)
    requires i <= j <= |s|
    ensures SignText(s, i, j) <==> s[i..j] in {"", "-", "+", "=", "=-"} && (j == i ==> i == 0)
  {
    var w := s[i..j];
    if |w| > 0 {
      assert w[0] == s[i];
    }
    if |w| > 1 {
      assert w[1] == s[i + 1];
    }
    if |w| == 1 {
      assert w == [s[i]];
    }
    if |w| == 2 {
      assert w == [s[i], s[i + 1]];
    }
  }

  /** A term whose sign is s[i..j], number s[j..n] and variable s[n..v], followed by the
      optional exponent. */
  function WithVar(s: string, i: nat, j: nat, n: nat, v: nat): (t: Term)
    requires i <= j <= n <= |s| && VarEnd(s, n) == Some(v)
    requires SignText(s, i, j) && (n == j || IsNumberText(s[j..n]))
    ensures t.start == i && WellFormed(s, t)
    ensures t.sign == s[i..j] && t.number == s[j..n]
    ensures TailTaken(s, t, n)
  {
    SignTextSpells(s, i, j);
    match PowerSpan(s, v)
    case Some((m, e)) =>
      Spelled(s, i, j, n, v, m, e);
      Term(i, s[i..j], s[j..n], s[n..v], s[v..m], s[m..e], e)
    case None =>
      Spelled(s, i, j, n, v, v, v);
      Term(i, s[i..j], s[j..n], s[n..v], "", "", v)
  }

  /** After the number, which ends at n, the optional `\*?x` is taken whenever it matches,
      and after it the optional exponent whenever `(\^|\*\*)?[0-9]+` matches; the exponent
      then ends where PowerSpan's digits end, at the last digit of the run. */
  ghost predicate TailTaken(s: string, t: Term, n: nat)
    requires n <= |s|
  {
    && (t.variable != "" <==> VarEnd(s, n).Some?)
    && (VarEnd(s, n).Some? ==>
          var v := VarEnd(s, n).value;
          && (t.power != "" <==> PowerSpan(s, v).Some?)
          && (PowerSpan(s, v).Some? ==> t.end == PowerSpan(s, v).value.1))
  }

  /** The groups of a term, cut at j, n, v and m, spell out the text from i to e. */
  lemma Spelled(s: string, i: nat, j: nat, n: nat, v: nat, m: nat, e: nat)
    requires i <= j <= n <= v <= m <= e <= |s|
    ensures s[i..e] == s[i..j] + s[j..n] + s[n..v] + s[v..m] + s[m..e]
    ensures s[v..v] == ""
  {
    SliceJoin(s, i, j, n);
    SliceJoin(s, i, n, v);
    SliceJoin(s, i, v, m);
    SliceJoin(s, i, m, e);
  }

  /** EXPR_COEFF once its sign s[i..j] has matched: a mandatory number, then optionally the
      variable and exponent. */
  function CoeffAt(s: string, i: nat, j: nat): (t: Option<Term>)
    requires i <= j <= |s| && SignText(s, i, j)
    ensures t.Some? ==> t.value.start == i && WellFormed(s, t.value)
    ensures t.Some? <==> NumberEnd(s, j).Some?
    ensures t.Some? ==> t.value.sign == s[i..j] && t.value.number == s[j..NumberEnd(s, j).value]
  {
    match NumberEnd(s, j)
    case None => None
    case Some(n) =>
      match VarEnd(s, n)
      case Some(v) => Some(WithVar(s, i, j, n, v))
      case None =>
        SliceJoin(s, i, j, n);
        SignTextSpells(s, i, j);
        Some(Term(i, s[i..j], s[j..n], "", "", "", n))
  }

  /** `\-?[0-9]+(\.[0-9]+)?` then `\*?x` at j, or `\*?x` alone: where EXPR_VAR can match once
      its sign has. */
  predicate VarFollows(s: string, j: nat)
    requires j <= |s|
  {
    VarEnd(s, j).Some? || (NumberEnd(s, j).Some? && VarEnd(s, NumberEnd(s, j).value).Some?)
  }

  /** EXPR_VAR once its sign s[i..j] has matched: an optional number, then a mandatory
      variable and optionally an exponent. When the greedy number is followed by no
      variable, backtracking drops the number and retries the variable at j. */
  function VarAt(s: string, i: nat, j: nat): (t: Option<Term>)
    requires i <= j <= |s| && SignText(s, i, j)
    ensures t.Some? ==> t.value.start == i && WellFormed(s, t.value)
    ensures t.Some? ==> j < |s| && t.value.sign == s[i..j]
    ensures t.Some? <==> VarFollows(s, j)
    ensures t.Some? ==>
      (t.value.number != "" <==> NumberEnd(s, j).Some? && VarEnd(s, NumberEnd(s, j).value).Some?)
    ensures t.Some? && t.value.number != "" ==> t.value.number == s[j..NumberEnd(s, j).value]
  {
    var n := NumberEnd(s, j);
    if n.Some? && VarEnd(s, n.value).Some? then Some(WithVar(s, i, j, n.value, VarEnd(s, n.value).value))
    else match VarEnd(s, j)
      case Some(v) => Some(WithVar(s, i, j, j, v))
      case None => None
  }

  /** The ends of the sign alternatives `^|\-|\+|\=|\=\-` that match at i, in the order they
      are tried: `^` (empty, only at index 0), one of '-', '+', '=', and last "=-". */
  function SignEnds(s: string, i: nat): (r: seq<nat>)
    requires i < |s|
    ensures forall k :: 0 <= k < |r| ==> i <= r[k] <= |s| && SignText(s, i, r[k])
    ensures forall a, b :: 0 <= a < b < |r| ==> r[a] < r[b]
    ensures forall j :: i <= j <= |s| && SignText(s, i, j) ==> j in r
  {
    (if i == 0 then [i] else []) +
    (if s[i] == '-' || s[i] == '+' || s[i] == '=' then [i + 1] else []) +
    (if i + 1 < |s| && s[i] == '=' && s[i + 1] == '-' then [i + 2] else [])
  }

  /** The first sign alternative (in order) after which the rest of EXPR_COEFF (`coeff`) or
      of EXPR_VAR matches. */
  function FirstTerm(s: string, i: nat, ends: seq<nat>, coeff: bool): (t: Option<Term>)
    requires forall k :: 0 <= k < |ends| ==> i <= ends[k] <= |s| && SignText(s, i, ends[k])
    ensures t.Some? ==> t.value.start == i && WellFormed(s, t.value)
  {
    if ends == [] then None
    else
      var t := if coeff then CoeffAt(s, i, ends[0]) else VarAt(s, i, ends[0]);
      if t.Some? then t else FirstTerm(s, i, ends[1..], coeff)
  }

  /** `.` matches every character of s[a..b]. */
  predicate Line(s: string, a: nat, b: nat)
    requires a <= b <= |s|
  {
    '\n' !in s[a..b]
  }

  /** WRONG_EQUALS, `^=.*|.*=$|=\+|=\*|=\*\*`, at index i. `.*=$` matches wherever the '='
      that ends the string (or precedes its final newline) is reachable without crossing a
      newline. */
  predicate WrongEqualsAt(s: string, i: nat)
    requires i < |s|
  {
    || (i == 0 && s[0] == '=')
    || (s[|s| - 1] == '=' && Line(s, i, |s| - 1))
    || (i + 2 <= |s| && s[|s| - 1] == '\n' && s[|s| - 2] == '=' && Line(s, i, |s| - 2))
    || (i + 1 < |s| && s[i] == '=' && (s[i + 1] == '+' || s[i + 1] == '*'))
  }

  /** Each group of a term holds text its sub-pattern can match. */
  predicate Shaped(t: Term)
  {
    && t.sign in {"", "-", "+", "=", "=-"}
    && (t.number == "" || IsNumberText(t.number))
    && t.variable in {"", "x", "*x"}
    && t.marker in {"", "^", "**"}
    && AllDigits(t.power)
    && (t.number != "" || t.variable != "")
    && (t.variable == "" ==> t.marker == "" && t.power == "")
    && (t.marker != "" ==> t.power != "")
  }

  /** A term is well formed in s: its groups spell out exactly the text it spans. */
  ghost predicate WellFormed(s: string, t: Term)
  {
    && t.start < t.end <= |s|
    && s[t.start..t.end] == t.sign + t.number + t.variable + t.marker + t.power
    && (t.sign == "" ==> t.start == 0)
    && Shaped(t)
  }

  /** The combined pattern at index i: the first of its four alternatives that matches. */
  function Next(s: string, i: nat): (tok: Token)
    requires i < |s|
    ensures tok.WrongEquals? <==> WrongEqualsAt(s, i)
    ensures tok.Matched? ==> tok.term.start == i && WellFormed(s, tok.term)
    ensures tok.Mismatch? ==> tok.c == s[i] && s[i] != '\n'
    ensures tok.NoMatch? ==> s[i] == '\n'
  {
    if WrongEqualsAt(s, i) then WrongEquals
    else
      var ends := SignEnds(s, i);
      var coeff := FirstTerm(s, i, ends, true);
      if coeff.Some? then Matched(coeff.value)
      else
        var term := FirstTerm(s, i, ends, false);
        if term.Some? then Matched(term.value)
        else if s[i] == '\n' then NoMatch
        else Mismatch(s[i])
  }


  // ----- re.finditer over the whole string -----

  /** How scanning from an index ends: the terms that cover the rest of the string, or the
      first token that makes get_coeffs give up, found at index `at`. */
  datatype Scan = Terms(terms: seq<Term>) | Stopped(at: nat, token: Token)

  /** Only newlines lie in s[a..b]. */
  predicate Skipped(s: string, a: nat, b: nat)
    requires a <= b <= |s|
  {
    forall p :: a <= p < b ==> s[p] == '\n'
  }

  /** The terms are well formed and, in order, cover every character of s[i..e] that is not
      a newline. */
  ghost predicate Tiles(s: string, ts: seq<Term>, i: nat, e: nat)
    decreases |ts|
  {
    if ts == [] then i <= e <= |s| && Skipped(s, i, e)
    else
      && i <= ts[0].start
      && WellFormed(s, ts[0])
      && Skipped(s, i, ts[0].start)
      && Tiles(s, ts[1..], ts[0].end, e)
  }

  /** The matches `re.finditer` yields from index i on. No alternative matches the empty
      string, so each match starts where the previous one ended, or one past a newline that
      nothing matched; the scan stops at the first WRONG_EQUALS or MISMATCH. */
  function Tokenize(s: string, i: nat): (r: Scan)
    requires i <= |s|
    ensures r.Stopped? ==> i <= r.at < |s| && r.token == Next(s, r.at)
    ensures r.Stopped? ==> r.token.WrongEquals? || r.token.Mismatch?
    decreases |s| - i
  {
    if i == |s| then Terms([])
    else
      var tok := Next(s, i);
      if tok.Matched? then
        var rest := Tokenize(s, tok.term.end);
        if rest.Terms? then Terms([tok.term] + rest.terms) else rest
      else if tok.NoMatch? then Tokenize(s, i + 1)
      else Stopped(i, tok)
  }

  /** A scan that reaches the end covers s from i with its terms, skipping only newlines. */
  lemma {:induction false} TokenizeTiles(s: string, i: nat)
    requires i <= |s|
    ensures Tokenize(s, i).Terms? ==> Tiles(s, Tokenize(s, i).terms, i, |s|)
    decreases |s| - i
  {
    if i == |s| {
      assert Tiles(s, [], i, |s|);
    } else {
      var tok := Next(s, i);
      if tok.Matched? {
        var rest := Tokenize(s, tok.term.end);
        TokenizeTiles(s, tok.term.end);
        if rest.Terms? {
          TilesCons(s, i, tok.term, rest.terms, |s|);
        }
      } else if tok.NoMatch? {
        TokenizeTiles(s, i + 1);
        if Tokenize(s, i + 1).Terms? {
          TilesSkip(s, i, Tokenize(s, i + 1).terms, |s|);
        }
      }
    }
  }

  /** A scan that stops has covered everything before the stop with terms and newlines, so
      the stop is the first WRONG_EQUALS or MISMATCH it meets; `ts` are the terms before it. */
  lemma {:induction false} TokenizeStops(s: string, i: nat) returns (ts: seq<Term>)
    requires i <= |s| && Tokenize(s, i).Stopped?
    ensures Tiles(s, ts, i, Tokenize(s, i).at)
    decreases |s| - i
  {
    var tok := Next(s, i);
    if tok.Matched? {
      var t := tok.term;
      var rest := Tokenize(s, t.end);
      assert rest.Stopped? && Tokenize(s, i) == rest;
      var more := TokenizeStops(s, t.end);
      TilesCons(s, i, t, more, rest.at);
      ts := [t] + more;
    } else if tok.NoMatch? {
      assert Tokenize(s, i) == Tokenize(s, i + 1);
      ts := TokenizeStops(s, i + 1);
      TilesSkip(s, i, ts, Tokenize(s, i).at);
    } else {
      assert Tokenize(s, i) == Stopped(i, tok);
      ts := [];
    }
  }

  /** A term matched at i, followed by terms from its end, covers s from i. */
  lemma TilesCons(s: string, i: nat, t: Term, ts: seq<Term>, e: nat)
    requires t.start == i && WellFormed(s, t) && Tiles(s, ts, t.end, e)
    ensures Tiles(s, [t] + ts, i, e)
  {
    assert ([t] + ts)[1..] == ts;
  }

  /** A newline at i can be skipped. */
  lemma TilesSkip(s: string, i: nat, ts: seq<Term>, e: nat)
    requires i < |s| && s[i] == '\n' && Tiles(s, ts, i + 1, e)
    ensures Tiles(s, ts, i, e)
  {
  }

  lemma {:induction false} TilesWellFormed(s: string, ts: seq<Term>, i: nat, e: nat)
    requires Tiles(s, ts, i, e)
    ensures forall k :: 0 <= k < |ts| ==> WellFormed(s, ts[k])
    decreases |ts|
  {
    if ts != [] {
      TilesWellFormed(s, ts[1..], ts[0].end, e);
      assert forall k :: 1 <= k < |ts| ==> ts[k] == ts[1..][k - 1];
    }
  }

  // ----- what the scan does with '=' and with signs -----

  /** Inside a term, '=' can only be its first character. */
  lemma NoEqualsInside(s: string, t: Term, p: nat)
    requires WellFormed(s, t) && t.start < p < t.end
    ensures s[p] != '='
  {
    var text := s[t.start..t.end];
    RestNoEquals(t.number, t.variable, t.marker, t.power);
    TermTextTail(t.sign, t.number, t.variable, t.marker, t.power);
    assert s[p] == text[1..][p - t.start - 1];
  }

  lemma TermTextTail(sign: string, number: string, variable: string, marker: string, power: string)
    requires |sign| <= 2 && (|sign| == 2 ==> sign[1] != '=')
    requires '=' !in number + variable + marker + power && |number + variable| > 0
    ensures '=' !in (sign + number + variable + marker + power)[1..]
  {
    var rest := number + variable + marker + power;
    assert sign + number + variable + marker + power == sign + rest;
    TailNoEquals(sign, rest);
  }

  lemma RestNoEquals(number: string, variable: string, marker: string, power: string)
    requires number == "" || IsNumberText(number)
    requires variable in {"", "x", "*x"} && marker in {"", "^", "**"} && AllDigits(power)
    ensures '=' !in number + variable + marker + power
  {
    NumberTextChars(number);
  }

  lemma TailNoEquals(sign: string, rest: string)
    requires |sign| <= 2 && (|sign| == 2 ==> sign[1] != '=') && '=' !in rest && |sign + rest| > 0
    ensures '=' !in (sign + rest)[1..]
  {
    if sign == "" {
      assert (sign + rest)[1..] == rest[1..];
    } else {
      assert (sign + rest)[1..] == sign[1..] + rest;
    }
  }

  /** A number's text holds no '='. */
  lemma NumberTextChars(t: string)
    requires t == "" || IsNumberText(t)
    ensures '=' !in t
  {
    if t != "" {
      var d := DotIndex(t);
      assert t == t[..d] + t[d..];
      assert forall k :: 0 <= k < |t| ==> IsDigit(t[k]) || t[k] == '-' || t[k] == '.';
    }
  }

  /** An '=' followed by '+' or '*' stops the scan at or before it: no term can cover it,
      and at its own index WRONG_EQUALS matches. */
  lemma {:induction false} EqualsPlusStops(s: string, i: nat, p: nat)
    requires i <= p && p + 1 < |s| && s[p] == '=' && (s[p + 1] == '+' || s[p + 1] == '*')
    ensures Tokenize(s, i).Stopped? && Tokenize(s, i).at <= p
    decreases |s| - i
  {
    if i == p {
      assert WrongEqualsAt(s, i);
    } else {
      var tok := Next(s, i);
      if tok.Matched? {
        if p < tok.term.end {
          NoEqualsInside(s, tok.term, p);
          assert false;
        }
        EqualsPlusStops(s, tok.term.end, p);
      } else if tok.NoMatch? {
        EqualsPlusStops(s, i + 1, p);
      }
    }
  }

  /** At index 0 a '-' followed by a digit is part of the number: the empty sign `^` is
      tried first and the number pattern absorbs the '-'. */
  lemma LeadingMinusJoinsNumber(s: string)
    requires |s| >= 2 && s[0] == '-' && IsDigit(s[1]) && !WrongEqualsAt(s, 0)
    ensures Next(s, 0).Matched? && Next(s, 0).term.sign == "" && Next(s, 0).term.number[0] == '-'
  {
    var ends := SignEnds(s, 0);
    assert ends[0] == 0;
    var n := NumberEnd(s, 0);
    assert n.Some?;
    assert FirstTerm(s, 0, ends, true) == CoeffAt(s, 0, ends[0]);
    assert s[0..n.value][0] == '-';
  }

  /** After index 0 a '-' followed by a digit is the sign, and the number is unsigned. */
  lemma MinusIsSignAfterStart(s: string, i: nat)
    requires 0 < i && i + 1 < |s| && s[i] == '-' && IsDigit(s[i + 1]) && !WrongEqualsAt(s, i)
    ensures Next(s, i).Matched? && Next(s, i).term.sign == "-" && IsDigit(Next(s, i).term.number[0])
  {
    var ends := SignEnds(s, i);
    assert ends == [i + 1];
    var n := NumberEnd(s, i + 1);
    assert n.Some?;
    assert FirstTerm(s, i, ends, true) == CoeffAt(s, i, ends[0]);
    assert s[i..i + 1] == "-";
    assert s[i + 1..n.value][0] == s[i + 1];
  }

  /** After '=' a signed number keeps its own '-': the sign "=" is tried before "=-". */
  lemma EqualsThenNumber(s: string, i: nat)
    requires 0 < i && i + 2 < |s| && s[i] == '=' && !WrongEqualsAt(s, i)
    requires IsDigit(s[i + 1]) || (s[i + 1] == '-' && IsDigit(s[i + 2]))
    ensures Next(s, i).Matched? && Next(s, i).term.sign == "="
    ensures s[i + 1] == '-' ==> Next(s, i).term.number[0] == '-'
  {
    var ends := SignEnds(s, i);
    assert ends[0] == i + 1;
    var n := NumberEnd(s, i + 1);
    assert n.Some?;
    assert FirstTerm(s, i, ends, true) == CoeffAt(s, i, ends[0]);
    assert s[i..i + 1] == "=";
    assert s[i + 1..n.value][0] == s[i + 1];
  }

  /** A well-formed term's text starts with its sign, and something follows the sign. */
  lemma SignLeads(s: string, t: Term)
    requires WellFormed(s, t)
    ensures t.start + |t.sign| < t.end && s[t.start..t.start + |t.sign|] == t.sign
  {
    JoinPrefix(s[t.start..t.end], t.sign, t.number, t.variable, t.marker, t.power);
    assert s[t.start..t.start + |t.sign|] == s[t.start..t.end][..|t.sign|];
  }

  /** The first of five joined pieces is a prefix of the whole. */
  lemma JoinPrefix(text: string, a: string, b: string, c: string, d: string, e: string)
    requires text == a + b + c + d + e
    ensures |text| == |a| + |b| + |c| + |d| + |e| && text[..|a|] == a
  {
    assert text == a + (b + c + d + e);
  }

  /** The number and the variable of a well-formed term stand right after its sign. */
  lemma AfterSign(s: string, t: Term)
    requires t.start <= t.end <= |s|
    requires s[t.start..t.end] == t.sign + t.number + t.variable + t.marker + t.power
    ensures var j := t.start + |t.sign|;
      && j + |t.number| + |t.variable| <= t.end
      && s[j..j + |t.number|] == t.number
      && s[j + |t.number|..j + |t.number| + |t.variable|] == t.variable
  {
    var text := s[t.start..t.end];
    var a, b, c := |t.sign|, |t.number|, |t.variable|;
    JoinParts(text, t.sign, t.number, t.variable, t.marker, t.power);
    SliceOfSlice(s, t.start, t.end, a, a + b);
    SliceOfSlice(s, t.start, t.end, a + b, a + b + c);
    assert s[t.start + a..t.start + a + b] == text[a..a + b] == t.number;
    assert s[t.start + a + b..t.start + a + b + c] == text[a + b..a + b + c] == t.variable;
  }

  /** The second and third of five joined pieces stand where their lengths put them. */
  lemma JoinParts(text: string, a: string, b: string, c: string, d: string, e: string)
    requires text == a + b + c + d + e
    ensures |a| + |b| + |c| <= |text|
    ensures text[|a|..|a| + |b|] == b && text[|a| + |b|..|a| + |b| + |c|] == c
  {
    var front := a + b + c;
    assert text == front + (d + e);
    assert text[..|front|] == front;
    assert front[|a|..|a| + |b|] == b;
    assert front[|a| + |b|..] == c;
  }

  lemma SliceOfSlice(s: string, x: nat, y: nat, p: nat, q: nat)
    requires x <= y <= |s| && p <= q <= y - x
    ensures s[x..y][p..q] == s[x + p..x + q]
  {
    assert forall k :: 0 <= k < q - p ==> s[x..y][p..q][k] == s[x + p + k];
  }

  /** A number text starts with a digit, or with '-' and a digit. */
  lemma NumberTextStart(t: string)
    requires IsNumberText(t)
    ensures IsDigit(t[0]) || (|t| > 1 && t[0] == '-' && IsDigit(t[1]))
  {
    var d := DotIndex(t);
    var w := t[..d];
    assert w[0] == t[0];
    if w[0] == '-' {
      assert w[1..][0] == t[1];
    }
  }

  /** A number that can be read after one of the listed sign ends makes the coefficient
      pattern match. */
  lemma FirstCoeffFinds(s: string, i: nat, ends: seq<nat>, k: nat)
    requires forall q :: 0 <= q < |ends| ==> i <= ends[q] <= |s| && SignText(s, i, ends[q])
    requires k < |ends| && NumberEnd(s, ends[k]).Some?
    ensures FirstTerm(s, i, ends, true).Some?
  {
    FirstCoeffPicks(s, i, ends);
    assert FirstNumberFollows(s, ends) <= k;
  }

  /** A variable that can be read after one of the listed sign ends makes the variable
      pattern match. */
  lemma FirstVarFinds(s: string, i: nat, ends: seq<nat>, k: nat)
    requires forall q :: 0 <= q < |ends| ==> i <= ends[q] <= |s| && SignText(s, i, ends[q])
    requires k < |ends| && VarEnd(s, ends[k]).Some?
    ensures FirstTerm(s, i, ends, false).Some?
  {
    FirstVarPicks(s, i, ends);
    assert VarFollows(s, ends[k]);
    assert FirstVarFollows(s, ends) <= k;
  }

  /** Where in `ends` a number can first be read: the index of the first sign end followed
      by a number, or |ends| when there is none. */
  function FirstNumberFollows(s: string, ends: seq<nat>): (k: nat)
    requires forall q :: 0 <= q < |ends| ==> ends[q] <= |s|
    ensures k <= |ends|
    ensures forall q :: 0 <= q < k ==> NumberEnd(s, ends[q]).None?
    ensures k < |ends| ==> NumberEnd(s, ends[k]).Some?
  {
    if ends == [] then 0
    else if NumberEnd(s, ends[0]).Some? then 0
    else 1 + FirstNumberFollows(s, ends[1..])
  }

  /** Where in `ends` EXPR_VAR can first match: the index of the first sign end followed by
      `\*?x`, directly or after a number, or |ends| when there is none. */
  function FirstVarFollows(s: string, ends: seq<nat>): (k: nat)
    requires forall q :: 0 <= q < |ends| ==> ends[q] <= |s|
    ensures k <= |ends|
    ensures forall q :: 0 <= q < k ==> !VarFollows(s, ends[q])
    ensures k < |ends| ==> VarFollows(s, ends[k])
  {
    if ends == [] then 0
    else if VarFollows(s, ends[0]) then 0
    else 1 + FirstVarFollows(s, ends[1..])
  }

  /** The coefficient pattern is tried after each sign end in turn, so it matches after the
      first sign end a number follows, and not at all when there is none. */
  lemma {:induction false} FirstCoeffPicks(s: string, i: nat, ends: seq<nat>)
    requires forall q :: 0 <= q < |ends| ==> i <= ends[q] <= |s| && SignText(s, i, ends[q])
    ensures var k := FirstNumberFollows(s, ends);
      FirstTerm(s, i, ends, true) == if k < |ends| then CoeffAt(s, i, ends[k]) else None
    decreases |ends|
  {
    if ends != [] && NumberEnd(s, ends[0]).None? {
      var rest := ends[1..];
      FirstCoeffPicks(s, i, rest);
      assert FirstTerm(s, i, ends, true) == FirstTerm(s, i, rest, true);
      var later := FirstNumberFollows(s, rest);
      assert FirstNumberFollows(s, ends) == later + 1;
      if later < |rest| {
        assert ends[later + 1] == rest[later];
      }
    }
  }

  /** The variable pattern is tried after each sign end in turn, so it matches after the
      first sign end it can match at, and not at all when there is none. */
  lemma {:induction false} FirstVarPicks(s: string, i: nat, ends: seq<nat>)
    requires forall q :: 0 <= q < |ends| ==> i <= ends[q] <= |s| && SignText(s, i, ends[q])
    ensures var k := FirstVarFollows(s, ends);
      FirstTerm(s, i, ends, false) == if k < |ends| then VarAt(s, i, ends[k]) else None
    decreases |ends|
  {
    if ends != [] && !VarFollows(s, ends[0]) {
      var rest := ends[1..];
      FirstVarPicks(s, i, rest);
      assert FirstTerm(s, i, ends, false) == FirstTerm(s, i, rest, false);
      var later := FirstVarFollows(s, rest);
      assert FirstVarFollows(s, ends) == later + 1;
      if later < |rest| {
        assert ends[later + 1] == rest[later];
      }
    }
  }

  /** The term `Next` matches is the one the ordered alternation picks: EXPR_COEFF after the
      first sign end where a number can be read; only when there is none, EXPR_VAR after the
      first sign end where that matches. */
  lemma NextPicks(s: string, i: nat) returns (k: nat)
    requires i < |s| && Next(s, i).Matched?
    ensures var ends := SignEnds(s, i); var t := Next(s, i).term;
      && k < |ends|
      && (|| (k == FirstNumberFollows(s, ends) && CoeffAt(s, i, ends[k]) == Some(t))
          || (&& FirstNumberFollows(s, ends) == |ends|
              && k == FirstVarFollows(s, ends)
              && VarAt(s, i, ends[k]) == Some(t)))
  {
    var ends := SignEnds(s, i);
    FirstCoeffPicks(s, i, ends);
    if FirstNumberFollows(s, ends) < |ends| {
      k := FirstNumberFollows(s, ends);
    } else {
      FirstVarPicks(s, i, ends);
      k := FirstVarFollows(s, ends);
    }
  }

  /** An EXPR_COEFF match takes its tail greedily: after the number, the optional `\*?x`
      and exponent are taken whenever they match. */
  lemma CoeffTail(s: string, i: nat, j: nat, t: Term)
    requires i <= j <= |s| && SignText(s, i, j) && CoeffAt(s, i, j) == Some(t)
    ensures i + |t.sign| + |t.number| == NumberEnd(s, j).value
    ensures TailTaken(s, t, i + |t.sign| + |t.number|)
  {
    var n := NumberEnd(s, j).value;
    if VarEnd(s, n).Some? {
      assert t == WithVar(s, i, j, n, VarEnd(s, n).value);
    } else {
      assert t.variable == "" && t.number == s[j..n];
    }
  }

  /** An EXPR_VAR match takes its tail greedily: after its number, or after its sign when it
      has none, the exponent is taken whenever it matches. */
  lemma VarTail(s: string, i: nat, j: nat, t: Term)
    requires i <= j <= |s| && SignText(s, i, j) && VarAt(s, i, j) == Some(t)
    ensures i + |t.sign| + |t.number| <= |s| && TailTaken(s, t, i + |t.sign| + |t.number|)
  {
    var n := NumberEnd(s, j);
    if n.Some? && VarEnd(s, n.value).Some? {
      assert t == WithVar(s, i, j, n.value, VarEnd(s, n.value).value);
    } else {
      assert t == WithVar(s, i, j, j, VarEnd(s, j).value);
    }
  }

  /** A matched term holds a number exactly when a number can be read after one of the
      signs that match at i. */
  lemma NextNumber(s: string, i: nat)
    requires i < |s| && Next(s, i).Matched?
    ensures var ends := SignEnds(s, i);
      Next(s, i).term.number == "" <==> forall q :: 0 <= q < |ends| ==> NumberEnd(s, ends[q]).None?
  {
    var ends := SignEnds(s, i);
    var t := Next(s, i).term;
    var k := NextPicks(s, i);
    var j := ends[k];
    if k == FirstNumberFollows(s, ends) && CoeffAt(s, i, j) == Some(t) {
      assert t.number == s[j..NumberEnd(s, j).value];
      assert |t.number| > 0;
    } else {
      assert NumberEnd(s, j).None?;
      assert t.number == "";
    }
  }

  /** MISMATCH is reported only where no term pattern matches: wherever a well-formed term
      could start, the scan matches a term there, unless WRONG_EQUALS fires first. */
  lemma NextComplete(s: string, i: nat, t: Term)
    requires i < |s| && WellFormed(s, t) && t.start == i
    ensures Next(s, i).Matched? || Next(s, i).WrongEquals?
  {
    if !WrongEqualsAt(s, i) {
      var j := TermOpens(s, t);
      var ends := SignEnds(s, i);
      assert j in ends;
      var k :| 0 <= k < |ends| && ends[k] == j;
      if t.number != "" {
        FirstCoeffFinds(s, i, ends, k);
      } else {
        FirstVarFinds(s, i, ends, k);
      }
    }
  }

  /** Right after the sign of a well-formed term, a number or the variable begins. */
  lemma TermOpens(s: string, t: Term) returns (j: nat)
    requires WellFormed(s, t)
    ensures j == t.start + |t.sign| && t.start <= j < |s| && SignText(s, t.start, j)
    ensures t.number != "" ==> NumberEnd(s, j).Some?
    ensures t.number == "" ==> VarEnd(s, j).Some?
  {
    SignLeads(s, t);
    AfterSign(s, t);
    j := t.start + |t.sign|;
    if t.number != "" {
      NumberTextStart(t.number);
      assert s[j] == t.number[0];
      assert |t.number| > 1 ==> s[j + 1] == t.number[1];
    } else {
      assert s[j..j + |t.variable|] == t.variable;
      assert t.variable == "x" || t.variable == "*x";
      assert s[j] == t.variable[0];
      assert |t.variable| > 1 ==> s[j + 1] == t.variable[1];
    }
  }

  /** The sign "=-" is captured only when the '-' cannot start a number. */
  lemma EqualsMinusSign(s: string, i: nat)
    requires i < |s| && Next(s, i).Matched? && Next(s, i).term.sign == "=-"
    ensures i + 2 < |s| && s[i] == '=' && s[i + 1] == '-' && !IsDigit(s[i + 2])
  {
    var ends := SignEnds(s, i);
    var t := Next(s, i).term;
    SignLeads(s, t);
    assert s[i] == '=' && s[i + 1] == '-';
    assert ends[0] == i + 1;
    var first := CoeffAt(s, i, ends[0]);
    var whole := FirstTerm(s, i, ends, true);
    assert whole.Some? ==> t == whole.value;
    assert first.None? || whole == first;
    assert NumberEnd(s, i + 1).None?;
  }
}
