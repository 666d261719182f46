// The dispatch of `solve`: normalise the text, read the coefficients, render the reduced
// form, take the degree, and classify the roots of a·x² + b·x + c = 0 where a, b and c
// are the coefficients of x², x and 1.

module Solver {
  import opened PyNum
  import opened Scanner
  import opened Coefficients
  import opened Reduced

  // ----- normalisation -----

  /** str.lower on one ASCII character. */
  function LowerChar(c: char): char
  {
    if 'A' <= c <= 'Z' then (c as int + 32) as char else c
  }

  /** raw.lower(), character by character. */
  function Lower(raw: string): (r: string)
    ensures |r| == |raw|
    ensures forall i :: 0 <= i < |r| ==> !('A' <= r[i] <= 'Z')
    ensures forall i :: 0 <= i < |r| ==> r[i] == raw[i] || ('A' <= raw[i] <= 'Z' && r[i] as int == raw[i] as int + 32)
    ensures forall i :: 0 <= i < |r| ==> (r[i] == ' ' <==> raw[i] == ' ')
    ensures forall i :: 0 <= i < |r| ==> (r[i] == '=' <==> raw[i] == '=')
  {
    seq(|raw|, i requires 0 <= i < |raw| => LowerChar(raw[i]))
  }

  /** s.replace(" ", ""). */
  function Strip(s: string): (r: string)
    ensures |r| == |s| - Count(s, ' ')
    ensures ' ' !in r
    ensures forall i :: 0 <= i < |r| ==> r[i] in s
  {
    if s == [] then []
    else
      var last := s[|s| - 1];
      var rest := Strip(s[..|s| - 1]);
      rest + (if last == ' ' then [] else [last])
  }

  /** Removing the spaces of a concatenation removes them from each part. */
  lemma {:induction false} StripAppend(a: string, b: string)
    ensures Strip(a + b) == Strip(a) + Strip(b)
    decreases |b|
  {
    if b == [] {
      assert a + b == a;
    } else {
      var init, last := LastApart(a, b);
      StripAppend(a, init);
      StripSnoc(a + init, last);
      StripSnoc(init, last);
      Assoc(Strip(a), Strip(init), if last == ' ' then [] else [last]);
    }
  }

  /** A nonempty b split before its last character, inside a + b as well. */
  lemma LastApart(a: string, b: string) returns (init: string, last: char)
    requires b != []
    ensures |init| < |b| && b == init + [last] && a + b == (a + init) + [last]
  {
    init, last := b[..|b| - 1], b[|b| - 1];
    assert b == init + [last];
  }

  /** Removing the spaces of a text with one more character at the end. */
  lemma StripSnoc(s: string, c: char)
    ensures Strip(s + [c]) == Strip(s) + if c == ' ' then [] else [c]
  {
    assert (s + [c])[..|s|] == s;
  }

  lemma Assoc(x: string, y: string, z: string)
    ensures (x + y) + z == x + (y + z)
  {
  }

  /** One character: a space is removed, anything else is kept. */
  lemma StripChar(c: char)
    ensures Strip([c]) == if c == ' ' then [] else [c]
  {
    assert [c][..0] == [];
  }

  /** The text the parser sees: lower case, with the spaces removed. */
  function Normalise(raw: string): (code: string)
    ensures ' ' !in code
    ensures forall i :: 0 <= i < |code| ==> !('A' <= code[i] <= 'Z')
  {
    Strip(Lower(raw))
  }

  /** Stripping keeps every character but the spaces, so it keeps the '=' count. */
  lemma {:induction false} StripKeepsCount(s: string, c: char)
    requires c != ' '
    ensures Count(Strip(s), c) == Count(s, c)
  {
    if s != [] {
      var last := s[|s| - 1];
      var init := s[..|s| - 1];
      StripKeepsCount(init, c);
      var tail: string := if last == ' ' then [] else [last];
      CountAppend(Strip(init), tail, c);
      assert Strip(s) == Strip(init) + tail;
    }
  }

  /** Lowering keeps the '=' count. */
  lemma {:induction false} LowerKeepsEquals(raw: string)
    ensures Count(Lower(raw), '=') == Count(raw, '=')
    decreases |raw|
  {
    if raw != [] {
      var init := raw[..|raw| - 1];
      LowerKeepsEquals(init);
      assert Lower(raw)[..|raw| - 1] == Lower(init);
    }
  }

  /** Normalising neither adds nor removes an '=', so the equals-count check sees the
      text as it was typed. */
  lemma NormaliseKeepsEquals(raw: string)
    ensures Count(Normalise(raw), '=') == Count(raw, '=')
  {
    LowerKeepsEquals(raw);
    StripKeepsCount(Lower(raw), '=');
  }

  /** Text without spaces or capitals is its own normal form, so normalising twice is
      normalising once. */
  lemma {:induction false} NormalFixed(s: string)
    requires ' ' !in s && forall i :: 0 <= i < |s| ==> !('A' <= s[i] <= 'Z')
    ensures Normalise(s) == s
  {
    assert Lower(s) == s;
    StripFixed(s);
  }

  lemma {:induction false} StripFixed(s: string)
    requires ' ' !in s
    ensures Strip(s) == s
  {
    if s != [] {
      var init, last := s[..|s| - 1], s[|s| - 1];
      assert s == init + [last];
      assert ' ' !in init && last != ' ';
      StripFixed(init);
      assert Strip(s) == Strip(init) + [last];
    }
  }

  lemma NormaliseIdempotent(raw: string)
    ensures Normalise(Normalise(raw)) == Normalise(raw)
  {
    NormalFixed(Normalise(raw));
  }

  // ----- roots -----

  /** A root as the source computes it, base + scale · √radicand. The square root is kept
      symbolic: a root stands for its value at every y >= 0 with y · y == radicand. */
  datatype Root = Root(base: real, scale: real, radicand: real)

  /** A root with no square root in it. */
  function Exact(v: real): Root
  {
    Root(v, 0.0, 0.0)
  }

  /** y is the square root of v. */
  predicate IsSqrt(y: real, v: real)
  {
    y >= 0.0 && y * y == v
  }

  /** The value of a root once its square root is y. */
  function At(r: Root, y: real): real
  {
    r.base + r.scale * y
  }

  /** The left side of a·x² + b·x + c = 0 at x. */
  function Poly(a: real, b: real, c: real, x: real): real
  {
    a * x * x + b * x + c
  }

  /** Every root in the list solves the equation, whichever value its square root takes. */
  ghost predicate AllSolve(roots: seq<Root>, a: real, b: real, c: real)
  {
    forall r, y :: r in roots && IsSqrt(y, r.radicand) ==> Poly(a, b, c, At(r, y)) == 0.0
  }

  /** Some root in the list is x, whichever value its square root takes. */
  ghost predicate Finds(roots: seq<Root>, x: real)
  {
    exists r :: r in roots && forall y :: IsSqrt(y, r.radicand) ==> At(r, y) == x
  }

  /** Two reals with the same square are equal or opposite. */
  lemma SameSquare(y: real, z: real)
    requires y * y == z * z
    ensures y == z || y == -z
  {
    assert (y - z) * (y + z) == 0.0;
  }

  /** The root of a square that stands for a nonnegative z is z itself. */
  lemma SqrtOfSquare(y: real, z: real)
    requires z >= 0.0 && IsSqrt(y, z * z)
    ensures y == z
  {
    SameSquare(y, z);
  }

  /** get_discriminant's formula. */
  function Discriminant(a: real, b: real, c: real): real
  {
    b * b - 4.0 * a * c
  }

  /** Completing the square: 4a · (ax² + bx + c) == (2ax + b)² − (b² − 4ac). */
  lemma CompletedSquare(a: real, b: real, c: real, x: real)
    ensures 4.0 * a * Poly(a, b, c, x) == (2.0 * a * x + b) * (2.0 * a * x + b) - Discriminant(a, b, c)
  {
  }

  /** coeffs.get(k): the value stored under k, or None. */
  function Get(coeffs: Items, k: nat): Option<real>
  {
    match Lookup(coeffs, k)
    case None => None
    case Some(x) => Some(Val(x))
  }

  /** Python's `not v` on what get returned: None and zero are both false. */
  predicate Falsy(v: Option<real>)
  {
    v.None? || v.value == 0.0
  }

  /** get_discriminant: b² − 4ac from the values under keys 1, 2 and 0. Where a key is
      missing the source exits; here the result is None. */
  function GetDiscriminant(coeffs: Items): (r: Option<real>)
    ensures r.Some? <==> forall k: nat :: k <= 2 ==> Lookup(coeffs, k).Some?
  {
    match (Get(coeffs, 2), Get(coeffs, 1), Get(coeffs, 0))
    case (Some(a), Some(b), Some(c)) => Some(Discriminant(a, b, c))
    case _ =>
      assert exists k: nat :: k <= 2 && Lookup(coeffs, k).None?;
      None
  }

  /** get_incomplete_roots, given coeffs.get(2), coeffs.get(1) and coeffs.get(0). */
  function IncompleteRoots(a: Option<real>, b: Option<real>, c: Option<real>): (r: seq<Root>)
    ensures |r| <= 2
    ensures forall j :: 0 <= j < |r| ==> r[j].radicand >= 0.0
  {
    if Falsy(b) && Falsy(c) then [Exact(0.0)]
    else if Falsy(b) && !Falsy(c) && !Falsy(a) then
      if -(c.value / a.value) > 0.0 then
        var q := -c.value / a.value;
        [Root(0.0, 1.0, q), Root(0.0, -1.0, q)]
      else []
    else if !Falsy(b) && !Falsy(a) && Falsy(c) then [Exact(0.0), Exact(-b.value / a.value)]
    else []
  }

  /** get_roots, given the discriminant, coeffs.get(2) and coeffs.get(1). The source
      divides by 2a and so needs a nonzero when the discriminant is positive. */
  function Roots(d: real, a: Option<real>, b: Option<real>): (r: seq<Root>)
    requires d > 0.0 ==> a.Some? && b.Some? && a.value != 0.0
    ensures |r| == if d > 0.0 then 2 else 0
    ensures forall j :: 0 <= j < |r| ==> r[j].radicand == d
  {
    if d > 0.0 then
      var twoA := 2.0 * a.value;
      [Root(-b.value / twoA, 1.0 / twoA, d), Root(-b.value / twoA, -1.0 / twoA, d)]
    else []
  }

  /** With a zero among a, b and c, every root the incomplete path returns solves the
      equation. */
  lemma IncompleteRootsSolve(a: real, b: real, c: real)
    requires a == 0.0 || b == 0.0 || c == 0.0
    ensures AllSolve(IncompleteRoots(Some(a), Some(b), Some(c)), a, b, c)
  {
    var roots := IncompleteRoots(Some(a), Some(b), Some(c));
    forall r, y | r in roots && IsSqrt(y, r.radicand)
      ensures Poly(a, b, c, At(r, y)) == 0.0
    {
      if r.radicand == 0.0 {
        assert y == 0.0 by { SameSquare(y, 0.0); }
      } else {
        var q := -c / a;
        assert r.scale * r.scale == 1.0 && r.base == 0.0 && b == 0.0;
        assert At(r, y) * At(r, y) == q;
        assert a * q == -c;
      }
    }
  }

  /** With a nonzero, the incomplete path misses no root: every x that solves the
      equation is in the list. */
  lemma IncompleteRootsComplete(a: real, b: real, c: real, x: real)
    requires a == 0.0 || b == 0.0 || c == 0.0
    requires a != 0.0 && Poly(a, b, c, x) == 0.0
    ensures Finds(IncompleteRoots(Some(a), Some(b), Some(c)), x)
  {
    var roots := IncompleteRoots(Some(a), Some(b), Some(c));
    if b == 0.0 && c == 0.0 {
      assert a * (x * x) == 0.0;
      assert x * x == 0.0 * 0.0;
      SameSquare(x, 0.0);
      ExactFound(roots, 0.0);
    } else if b == 0.0 {
      var q := -c / a;
      assert a * (x * x) == -c;
      assert x * x == q;
      assert x != 0.0;
      assert q > 0.0;
      var r := if x > 0.0 then Root(0.0, 1.0, q) else Root(0.0, -1.0, q);
      assert r in roots;
      forall y | IsSqrt(y, r.radicand)
        ensures At(r, y) == x
      {
        var z := if x > 0.0 then x else -x;
        assert z * z == q;
        SqrtOfSquare(y, z);
      }
    } else {
      assert x * (a * x + b) == 0.0;
      if x == 0.0 {
        ExactFound(roots, 0.0);
      } else {
        assert a * x + b == 0.0;
        assert x == -b / a;
        ExactFound(roots, -b / a);
      }
    }
  }

  /** The incomplete path lists no value twice: when it returns two roots, they differ for
      every value of their square root. */
  lemma IncompleteRootsDistinct(a: real, b: real, c: real)
    ensures var roots := IncompleteRoots(Some(a), Some(b), Some(c));
      forall y :: |roots| == 2 && IsSqrt(y, roots[0].radicand) ==>
        roots[1].radicand == roots[0].radicand && At(roots[0], y) != At(roots[1], y)
  {
    var roots := IncompleteRoots(Some(a), Some(b), Some(c));
    forall y | |roots| == 2 && IsSqrt(y, roots[0].radicand)
      ensures roots[1].radicand == roots[0].radicand && At(roots[0], y) != At(roots[1], y)
    {
      if roots[0].radicand == 0.0 {
        assert a != 0.0 && b != 0.0;
        assert y == 0.0 by { SameSquare(y, 0.0); }
        assert -b / a != 0.0;
      } else {
        assert y * y > 0.0;
        assert y > 0.0;
      }
    }
  }

  /** An exact root in the list finds its value. */
  lemma ExactFound(roots: seq<Root>, v: real)
    requires Exact(v) in roots
    ensures Finds(roots, v)
  {
    forall y | IsSqrt(y, 0.0)
      ensures At(Exact(v), y) == v
    {
    }
  }

  /** The incomplete path finds nothing for a linear equation b·x + c = 0, although
      −c/b solves it. */
  lemma LinearRootMissed(b: real, c: real)
    requires b != 0.0
    ensures IncompleteRoots(Some(0.0), Some(b), Some(c)) == []
    ensures Poly(0.0, b, c, -c / b) == 0.0
  {
  }

  /** With a = b = c = 0 every x solves the equation; the incomplete path names only 0. */
  lemma IdentityGivesZero(x: real)
    ensures IncompleteRoots(Some(0.0), Some(0.0), Some(0.0)) == [Exact(0.0)]
    ensures Poly(0.0, 0.0, 0.0, x) == 0.0
  {
  }

  /** With a nonzero, both roots of the discriminant path solve the equation, and with a
      positive discriminant they are distinct. */
  lemma RootsSolve(a: real, b: real, c: real)
    requires a != 0.0
    ensures AllSolve(Roots(Discriminant(a, b, c), Some(a), Some(b)), a, b, c)
    ensures var roots := Roots(Discriminant(a, b, c), Some(a), Some(b));
      forall y :: |roots| == 2 && IsSqrt(y, roots[0].radicand) ==> At(roots[0], y) != At(roots[1], y)
  {
    var d := Discriminant(a, b, c);
    var roots := Roots(d, Some(a), Some(b));
    forall r, y | r in roots && IsSqrt(y, r.radicand)
      ensures Poly(a, b, c, At(r, y)) == 0.0
    {
      var x := At(r, y);
      var s := if r == roots[0] then 1.0 else -1.0;
      assert x == (-b + s * y) / (2.0 * a);
      assert 2.0 * a * x + b == s * y;
      CompletedSquare(a, b, c, x);
      assert (s * y) * (s * y) == y * y;
      assert 4.0 * a * Poly(a, b, c, x) == 0.0;
    }
    forall y | |roots| == 2 && IsSqrt(y, roots[0].radicand)
      ensures At(roots[0], y) != At(roots[1], y)
    {
      assert y != 0.0;
      assert At(roots[0], y) - At(roots[1], y) == 2.0 * y / (2.0 * a);
    }
  }

  /** With a nonzero and a nonzero discriminant the discriminant path misses no root. */
  lemma RootsComplete(a: real, b: real, c: real, x: real)
    requires a != 0.0 && Discriminant(a, b, c) != 0.0 && Poly(a, b, c, x) == 0.0
    ensures Finds(Roots(Discriminant(a, b, c), Some(a), Some(b)), x)
  {
    var d := Discriminant(a, b, c);
    var z := 2.0 * a * x + b;
    CompletedSquare(a, b, c, x);
    assert z * z == d;
    var twoA := 2.0 * a;
    var roots := Roots(d, Some(a), Some(b));
    assert roots == [Root(-b / twoA, 1.0 / twoA, d), Root(-b / twoA, -1.0 / twoA, d)];
    Vertex(a, b, z, x);
    if z >= 0.0 {
      forall y | IsSqrt(y, d)
        ensures At(roots[0], y) == x
      {
        SqrtOfSquare(y, z);
      }
      assert roots[0] in roots;
    } else {
      forall y | IsSqrt(y, d)
        ensures At(roots[1], y) == x
      {
        assert (-z) * (-z) == d;
        SqrtOfSquare(y, -z);
      }
      assert roots[1] in roots;
    }
  }

  /** x is the vertex −b/(2a) moved by w/(2a), where w = 2ax + b. */
  lemma Vertex(a: real, b: real, w: real, x: real)
    requires a != 0.0 && w == 2.0 * a * x + b
    ensures -b / (2.0 * a) + (1.0 / (2.0 * a)) * w == x
    ensures -b / (2.0 * a) + (-1.0 / (2.0 * a)) * -w == x
  {
    var twoA := 2.0 * a;
    assert (1.0 / twoA) * w == w / twoA;
    assert (-1.0 / twoA) * -w == w / twoA;
    assert -b / twoA + w / twoA == (w - b) / twoA;
    assert w - b == twoA * x;
  }

  /** A double root: with a zero discriminant the discriminant path returns nothing,
      although −b/(2a) solves the equation. */
  lemma DoubleRootMissed(a: real, b: real, c: real)
    requires a != 0.0 && Discriminant(a, b, c) == 0.0
    ensures Roots(Discriminant(a, b, c), Some(a), Some(b)) == []
    ensures Poly(a, b, c, -b / (2.0 * a)) == 0.0
  {
    var x := -b / (2.0 * a);
    CompletedSquare(a, b, c, x);
    assert 2.0 * a * x + b == 0.0;
  }

  // ----- solve -----

  /** max(coeffs.keys()). */
  function Degree(coeffs: Items): (d: nat)
    requires coeffs != []
    ensures exists j :: 0 <= j < |coeffs| && coeffs[j].0 == d
    ensures forall j :: 0 <= j < |coeffs| ==> coeffs[j].0 <= d
  {
    if |coeffs| == 1 then coeffs[0].0
    else
      var rest := Degree(coeffs[1..]);
      assert forall j :: 1 <= j < |coeffs| ==> coeffs[j] == coeffs[1..][j - 1];
      if coeffs[0].0 > rest then coeffs[0].0 else rest
  }

  /** What solve ends with: the text rejected with an error; the reduced form and a degree
      above 2; or the reduced form, the degree and the roots. */
  datatype Outcome =
    | Rejected(error: ParseError)
    | Unsolvable(reduced: string, degree: nat)
    | Solved(reduced: string, degree: nat, roots: seq<Root>)

  /** The outcome of solve on the typed text. */
  function Solution(raw: string): Outcome
  {
    var code := Normalise(raw);
    match Parse(code)
    case Failure(e) => Rejected(e)
    case Success(coeffs) =>
      ParseSuccess(code);
      var reduced := ReducedForm(coeffs);
      var degree := Degree(coeffs);
      if degree > 2 then Unsolvable(reduced, degree)
      else
        var a, b, c := Get(coeffs, 2), Get(coeffs, 1), Get(coeffs, 0);
        if Falsy(c) || Falsy(b) || Falsy(a) then Solved(reduced, degree, IncompleteRoots(a, b, c))
        else Solved(reduced, degree, Roots(GetDiscriminant(coeffs).value, a, b))
  }

  /** solve: the text is normalised and parsed, the reduced form rendered, the degree
      checked, and the roots found by whichever path the zero coefficients select. */
  method Solve(raw: string) returns (r: Outcome)
    ensures r == Solution(raw)
  {
    var code := Normalise(raw);
    var coeffs := GetCoeffs(code);
    if coeffs.Failure? {
      return Rejected(coeffs.error);
    }
    ParseSuccess(code);
    var reduced := PrintReducedForm(coeffs.value);
    var degree := Degree(coeffs.value);
    if degree > 2 {
      return Unsolvable(reduced, degree);
    }
    var roots: seq<Root> := [];
    var a, b, c := Get(coeffs.value, 2), Get(coeffs.value, 1), Get(coeffs.value, 0);
    if Falsy(c) || Falsy(b) || Falsy(a) {
      roots := IncompleteRoots(a, b, c);
    } else {
      var discriminant := GetDiscriminant(coeffs.value);
      roots := Roots(discriminant.value, a, b);
    }
    return Solved(reduced, degree, roots);
  }

  /** The value under k of what the parser read, 0 when there is none. */
  function Coeff(coeffs: Items, k: nat): real
  {
    match Lookup(coeffs, k)
    case None => 0.0
    case Some(x) => Val(x)
  }

  /** Parsed coefficients hold keys 0, 1 and 2, so the degree is at least 2, the
      discriminant always exists (the exit in get_discriminant is never reached), and the
      degree exceeds 2 exactly when some term with a nonzero number has a power above 2. */
  lemma ParsedDegree(code: string)
    requires Parse(code).Success?
    ensures Tokenize(code, 0).Terms? && AllShaped(Tokenize(code, 0).terms)
    ensures Parse(code).value != []
    ensures Degree(Parse(code).value) >= 2
    ensures GetDiscriminant(Parse(code).value).Some?
    ensures Degree(Parse(code).value) > 2 <==> exists k: nat :: k > 2 && Touches(Tokenize(code, 0).terms, k)
  {
    var coeffs := Parse(code).value;
    var ts := Tokenize(code, 0).terms;
    ParseSuccess(code);
    assert Lookup(coeffs, 2).Some?;
    var d := Degree(coeffs);
    if d > 2 {
      assert Lookup(coeffs, d).Some?;
      assert Touches(ts, d);
    }
    if exists k: nat :: k > 2 && Touches(ts, k) {
      var k: nat :| k > 2 && Touches(ts, k);
      assert Lookup(coeffs, k).Some?;
    }
  }

  /** solve rejects exactly the texts the parser rejects, with the parser's error, and
      otherwise reports the rendered reduced form and the largest key as the degree; it
      finds no roots above degree 2. */
  lemma SolutionShape(raw: string)
    ensures var code := Normalise(raw);
      && (Solution(raw).Rejected? <==> Parse(code).Failure?)
      && (Solution(raw).Rejected? ==> Solution(raw).error == Parse(code).error)
      && (Parse(code).Success? ==>
            && Solution(raw).reduced == ReducedForm(Parse(code).value)
            && Solution(raw).degree == Degree(Parse(code).value)
            && Solution(raw).degree >= 2
            && (Solution(raw).Unsolvable? <==> Solution(raw).degree > 2))
  {
    var code := Normalise(raw);
    match Parse(code)
    case Failure(e) =>
      assert Solution(raw) == Rejected(e);
    case Success(coeffs) =>
      ParsedDegree(code);
      var degree := Degree(coeffs);
      if degree > 2 {
        assert Solution(raw) == Unsolvable(ReducedForm(coeffs), degree);
      } else {
        var out := Solution(raw);
        assert out.Solved? && out.reduced == ReducedForm(coeffs) && out.degree == degree;
      }
  }

  /** On the parsed coefficients a = m[2], b = m[1], c = m[0], every root solve reports
      solves a·x² + b·x + c = 0. */
  lemma SolvedRootsSolve(raw: string)
    requires Solution(raw).Solved?
    ensures var coeffs := Parse(Normalise(raw)).value;
      AllSolve(Solution(raw).roots, Coeff(coeffs, 2), Coeff(coeffs, 1), Coeff(coeffs, 0))
  {
    var code := Normalise(raw);
    var coeffs := Parse(code).value;
    ParseSuccess(code);
    var a, b, c := Coeff(coeffs, 2), Coeff(coeffs, 1), Coeff(coeffs, 0);
    assert Get(coeffs, 2) == Some(a) && Get(coeffs, 1) == Some(b) && Get(coeffs, 0) == Some(c);
    if a == 0.0 || b == 0.0 || c == 0.0 {
      IncompleteRootsSolve(a, b, c);
    } else {
      assert GetDiscriminant(coeffs) == Some(Discriminant(a, b, c));
      RootsSolve(a, b, c);
    }
  }

  /** solve misses no root when the x² coefficient is nonzero, except the double root of a
      zero discriminant on the full path (see DoubleRootMissed). */
  lemma SolvedRootsComplete(raw: string, x: real)
    requires Solution(raw).Solved?
    requires var coeffs := Parse(Normalise(raw)).value;
      var a, b, c := Coeff(coeffs, 2), Coeff(coeffs, 1), Coeff(coeffs, 0);
      a != 0.0 && (b == 0.0 || c == 0.0 || Discriminant(a, b, c) != 0.0) && Poly(a, b, c, x) == 0.0
    ensures Finds(Solution(raw).roots, x)
  {
    var code := Normalise(raw);
    var coeffs := Parse(code).value;
    ParseSuccess(code);
    var a, b, c := Coeff(coeffs, 2), Coeff(coeffs, 1), Coeff(coeffs, 0);
    assert Get(coeffs, 2) == Some(a) && Get(coeffs, 1) == Some(b) && Get(coeffs, 0) == Some(c);
    if b == 0.0 || c == 0.0 {
      IncompleteRootsComplete(a, b, c, x);
    } else {
      assert GetDiscriminant(coeffs) == Some(Discriminant(a, b, c));
      RootsComplete(a, b, c, x);
    }
  }

  /** Of degree at most 2, the incomplete path is taken exactly when one of a, b and c is
      zero, and the discriminant path otherwise. */
  lemma SolvedPath(raw: string)
    requires Solution(raw).Solved?
    ensures var coeffs := Parse(Normalise(raw)).value;
      var a, b, c := Coeff(coeffs, 2), Coeff(coeffs, 1), Coeff(coeffs, 0);
      if a == 0.0 || b == 0.0 || c == 0.0 then Solution(raw).roots == IncompleteRoots(Some(a), Some(b), Some(c))
      else Solution(raw).roots == Roots(Discriminant(a, b, c), Some(a), Some(b))
  {
    var code := Normalise(raw);
    var coeffs := Parse(code).value;
    ParseSuccess(code);
    var a, b, c := Coeff(coeffs, 2), Coeff(coeffs, 1), Coeff(coeffs, 0);
    assert Get(coeffs, 2) == Some(a) && Get(coeffs, 1) == Some(b) && Get(coeffs, 0) == Some(c);
  }
}
