/** Python's numbers as computorV1.py uses them: an `int`, or a `float` that came from a
    decimal literal, and the text forms `str(x)`, `int(s)` and `float(s)` of those numbers.
    A float is kept exactly, as the decimal fraction units / 10^places. */
module PyNum {

  datatype Num = Int(i: int) | Float(units: int, places: nat)

  function Pow10(n: nat): (r: nat)
    ensures r >= 1
  {
    if n == 0 then 1 else 10 * Pow10(n - 1)
  }

  lemma {:induction false} Pow10Add(m: nat, n: nat)
    ensures Pow10(m + n) == Pow10(m) * Pow10(n)
  {
    if n > 0 {
      Pow10Add(m, n - 1);
      assert Pow10(m + n) == 10 * Pow10(m + n - 1);
    }
  }

  /** The mathematical value of a number. */
  function Val(x: Num): real
  {
    match x
    case Int(i) => i as real
    case Float(u, p) => u as real / Pow10(p) as real
  }

  lemma FloatSign(u: int, p: nat)
    ensures Val(Float(u, p)) < 0.0 <==> u < 0
    ensures Val(Float(u, p)) == 0.0 <==> u == 0
  {
    var P := Pow10(p) as real;
    var q := u as real / P;
    assert q * P == u as real;
  }

  /** Python truthiness: `if x:` */
  predicate Truthy(x: Num)
    ensures Truthy(x) <==> Val(x) != 0.0
  {
    match x
    case Int(i) => i != 0
    case Float(u, p) => u != 0
  }

  lemma ScaleVal(u: int, p: nat, k: nat)
    ensures Val(Float(u * Pow10(k), p + k)) == Val(Float(u, p))
  {
    Pow10Add(p, k);
    CastMul(u, Pow10(k));
    CastMul(Pow10(p), Pow10(k));
    RealScale(u as real, Pow10(p) as real, Pow10(k) as real);
  }

  lemma CastMul(a: int, b: int)
    ensures (a * b) as real == a as real * b as real
  {
  }

  lemma RealScale(x: real, d: real, k: real)
    requires d > 0.0 && k > 0.0
    ensures (x * k) / (d * k) == x / d
  {
    var q := x / d;
    assert q * d == x;
    assert x * k == q * (d * k);
  }

  lemma AddSamePlaces(u: int, v: int, p: nat)
    ensures Val(Float(u + v, p)) == Val(Float(u, p)) + Val(Float(v, p))
  {
  }

  /** `x + y`: an int when both operands are ints, a float otherwise. */
  function Add(x: Num, y: Num): (r: Num)
    ensures Val(r) == Val(x) + Val(y)
    ensures r.Float? <==> x.Float? || y.Float?
  {
    match (x, y)
    case (Int(i), Int(j)) => Int(i + j)
    case (Int(i), Float(v, q)) =>
      AlignedSum(i, 0, v, q);
      Float(i * Pow10(q) + v, q)
    case (Float(u, p), Int(j)) =>
      AlignedSum(j, 0, u, p);
      Float(u + j * Pow10(p), p)
    case (Float(u, p), Float(v, q)) =>
      if p <= q then
        AlignedSum(u, p, v, q);
        Float(u * Pow10(q - p) + v, q)
      else
        AlignedSum(v, q, u, p);
        Float(u + v * Pow10(p - q), p)
  }

  /** Two decimals summed once the one with fewer places is scaled to the other's. */
  lemma AlignedSum(u: int, p: nat, v: int, q: nat)
    requires p <= q
    ensures Val(Float(u * Pow10(q - p) + v, q)) == Val(Float(u, p)) + Val(Float(v, q))
    ensures Val(Float(v + u * Pow10(q - p), q)) == Val(Float(u, p)) + Val(Float(v, q))
    ensures p == 0 ==> Val(Float(u, p)) == u as real
  {
    ScaleVal(u, p, q - p);
    AddSamePlaces(u * Pow10(q - p), v, q);
    assert v + u * Pow10(q - p) == u * Pow10(q - p) + v;
  }

  /** `x * pow(-1, k)`: the same kind of number, negated when k is odd. */
  function TimesPowMinusOne(x: Num, k: nat): (r: Num)
    ensures Val(r) == if k % 2 == 0 then Val(x) else -Val(x)
    ensures r.Float? <==> x.Float?
  {
    if k % 2 == 0 then x
    else match x
      case Int(i) => Int(-i)
      case Float(u, p) => Float(-u, p)
  }

  /** `abs(x)` */
  function Abs(x: Num): (r: Num)
    ensures Val(r) == if Val(x) < 0.0 then -Val(x) else Val(x)
    ensures r.Float? <==> x.Float?
  {
    match x
    case Int(i) => Int(if i < 0 then -i else i)
    case Float(u, p) => Float(if u < 0 then -u else u, p)
  }

  // ----- decimal digits -----

  predicate IsDigit(c: char) { '0' <= c <= '9' }

  predicate AllDigits(s: string)
  {
    forall k :: 0 <= k < |s| ==> IsDigit(s[k])
  }

  function DigitValue(c: char): nat
    requires IsDigit(c)
  {
    c as int - '0' as int
  }

  function DigitChar(d: nat): (c: char)
    requires d < 10
    ensures IsDigit(c) && DigitValue(c) == d
  {
    ('0' as int + d) as char
  }

  /** `int(s)` for a non-empty string of decimal digits. */
  function DigitsValue(s: string): nat
    requires AllDigits(s)
    decreases |s|
  {
    if s == [] then 0 else 10 * DigitsValue(s[..|s| - 1]) + DigitValue(s[|s| - 1])
  }

  lemma AllDigitsAppend(a: string, b: string)
    requires AllDigits(a) && AllDigits(b)
    ensures AllDigits(a + b)
  {
    forall k | 0 <= k < |a + b| ensures IsDigit((a + b)[k]) {
      if k >= |a| { assert (a + b)[k] == b[k - |a|]; }
    }
  }

  /** Reading the digits of a + b gives a shifted past |b| digits, plus b. */
  lemma {:induction false} DigitsValueAppend(a: string, b: string)
    requires AllDigits(a) && AllDigits(b)
    ensures AllDigits(a + b)
    ensures DigitsValue(a + b) == DigitsValue(a) * Pow10(|b|) + DigitsValue(b)
    decreases |b|
  {
    AllDigitsAppend(a, b);
    if b == [] {
      assert a + b == a;
    } else {
      var b' := b[..|b| - 1];
      assert AllDigits(b');
      var last := DigitValue(b[|b| - 1]);
      assert (a + b)[..|a + b| - 1] == a + b';
      DigitsValueAppend(a, b');
      assert DigitsValue(a + b) == 10 * DigitsValue(a + b') + last;
      assert DigitsValue(b) == 10 * DigitsValue(b') + last;
      assert Pow10(|b|) == 10 * Pow10(|b'|);
      ShiftDigit(DigitsValue(a), DigitsValue(b'), Pow10(|b'|), last);
    }
  }

  lemma ShiftDigit(x: nat, y: nat, z: nat, d: nat)
    ensures 10 * (x * z + y) + d == x * (10 * z) + (10 * y + d)
  {
  }

  /** `str(n)` for a natural number: its decimal digits, without leading zeros; reading
      them back with `int()` gives `n` again. */
  function IntText(n: nat): (r: string)
    ensures |r| > 0 && AllDigits(r)
    ensures DigitsValue(r) == n
    ensures r[0] == '0' ==> n == 0
    ensures n < Pow10(|r|)
  {
    if n < 10 then [DigitChar(n)]
    else
      var r := IntText(n / 10) + [DigitChar(n % 10)];
      assert r[..|r| - 1] == IntText(n / 10);
      r
  }

  lemma {:induction false} IntTextFits(n: nat, q: nat)
    requires 0 < q && n < Pow10(q)
    ensures |IntText(n)| <= q
  {
    if n >= 10 {
      assert q > 1;
      assert n / 10 < Pow10(q - 1);
      IntTextFits(n / 10, q - 1);
    }
  }

  function Zeros(n: nat): (r: string)
    ensures |r| == n && AllDigits(r) && DigitsValue(r) == 0
  {
    if n == 0 then "" else
      var r := Zeros(n - 1) + "0";
      assert r[..|r| - 1] == Zeros(n - 1);
      r
  }

  /** The digits of `n` left-padded with zeros to `q` places: the fractional part of a float. */
  function Fraction(n: nat, q: nat): (r: string)
    requires 0 < q && n < Pow10(q)
    ensures |r| == q && AllDigits(r) && DigitsValue(r) == n
  {
    IntTextFits(n, q);
    var t := IntText(n);
    DigitsValueAppend(Zeros(q - |t|), t);
    Zeros(q - |t|) + t
  }

  /** Strips trailing zeros of the fraction of units / 10^places. */
  function Trim(u: nat, p: nat): (r: (nat, nat))
    ensures r.1 <= p
  {
    if p > 0 && u % 10 == 0 then Trim(u / 10, p - 1) else (u, p)
  }

  lemma {:induction false} TrimKeepsValue(u: nat, p: nat)
    ensures Val(Float(Trim(u, p).0, Trim(u, p).1)) == Val(Float(u, p))
  {
    if p > 0 && u % 10 == 0 {
      TrimKeepsValue(u / 10, p - 1);
      ScaleVal(u / 10, p - 1, 1);
      assert u / 10 * Pow10(1) == u;
    }
  }

  lemma DivMod(w: nat, d: nat)
    requires d > 0
    ensures w / d >= 0 && 0 <= w % d < d && w == (w / d) * d + w % d
  {
  }

  /** Digits, a point and digits: the shape of a float's text. */
  lemma PointedText(a: string, b: string)
    requires |a| > 0 && AllDigits(a) && AllDigits(b)
    ensures var r := a + "." + b; IsDigit(r[0]) && forall k :: 0 <= k < |r| ==> IsDigit(r[k]) || r[k] == '.'
  {
    var r := a + "." + b;
    forall k | 0 <= k < |r| ensures IsDigit(r[k]) || r[k] == '.' {
      if k < |a| { assert r[k] == a[k]; }
      else if k > |a| { assert r[k] == b[k - |a| - 1]; }
    }
  }

  /** The text of a non-negative float in the way `str()` writes one with a fixed point:
      the shortest fraction, and ".0" for a whole number. */
  function FloatText(u: nat, p: nat): (r: string)
    ensures |r| > 0 && IsDigit(r[0])
    ensures forall k :: 0 <= k < |r| ==> IsDigit(r[k]) || r[k] == '.'
    ensures '.' in r
  {
    var w, q := Trim(u, p).0, Trim(u, p).1;
    if q == 0 then
      Pointed(IntText(w), "0")
    else
      DivMod(w, Pow10(q));
      Pointed(IntText(w / Pow10(q)), Fraction(w % Pow10(q), q))
  }

  /** `a + "." + b` for digit strings a (non-empty) and b. */
  function Pointed(a: string, b: string): (r: string)
    requires |a| > 0 && AllDigits(a) && AllDigits(b)
    ensures r == a + "." + b
    ensures IsDigit(r[0]) && '.' in r
    ensures forall k :: 0 <= k < |r| ==> IsDigit(r[k]) || r[k] == '.'
  {
    PointedText(a, b);
    assert (a + "." + b)[|a|] == '.';
    a + "." + b
  }

  /** `str(x)` */
  function Str(x: Num): (r: string)
    ensures |r| > 0
    ensures r[0] == '-' <==> Val(x) < 0.0
    ensures r[0] == '-' || IsDigit(r[0])
    ensures forall k :: 0 < k < |r| ==> IsDigit(r[k]) || r[k] == '.'
    ensures '.' in r <==> x.Float?
  {
    match x
    case Int(i) =>
      var t := IntText(if i < 0 then -i else i);
      assert '.' !in t by { assert forall k :: 0 <= k < |t| ==> IsDigit(t[k]); }
      if i < 0 then "-" + t else t
    case Float(u, p) =>
      var t := FloatText(if u < 0 then -u else u, p);
      FloatSign(u, p);
      if u < 0 then "-" + t else t
  }

  // ----- int() and float() of the number texts the scanner accepts -----

  /** Index of the first '.', or |t| when there is none. */
  function DotIndex(t: string): (d: nat)
    ensures d <= |t|
    ensures d < |t| ==> t[d] == '.'
    ensures forall k :: 0 <= k < d ==> t[k] != '.'
  {
    if t == [] then 0
    else if t[0] == '.' then 0
    else 1 + DotIndex(t[1..])
  }

  /** `-?[0-9]+` */
  predicate IsIntText(t: string)
  {
    if |t| > 0 && t[0] == '-' then |t| > 1 && AllDigits(t[1..]) else |t| > 0 && AllDigits(t)
  }

  /** `-?[0-9]+(\.[0-9]+)?` */
  predicate IsNumberText(t: string)
  {
    var d := DotIndex(t);
    IsIntText(t[..d]) && (d == |t| || (d + 1 < |t| && AllDigits(t[d + 1..])))
  }

  /** `int(t)` */
  function IntOf(t: string): int
    requires IsIntText(t)
  {
    if t[0] == '-' then -(DigitsValue(t[1..]) as int) else DigitsValue(t)
  }

  /** `float(t)` for a text with a decimal point, kept exactly. */
  function FloatOf(t: string): (r: Num)
    requires IsNumberText(t) && DotIndex(t) < |t|
    ensures r.Float?
  {
    var d := DotIndex(t);
    var digits := t[..d] + t[d + 1..];
    assert IsIntText(digits) by {
      if t[0] == '-' {
        assert digits[1..] == t[1..d] + t[d + 1..];
        DigitsValueAppend(t[1..d], t[d + 1..]);
      } else {
        DigitsValueAppend(t[..d], t[d + 1..]);
      }
    }
    Float(IntOf(digits), |t| - d - 1)
  }

  /** The text "-"? + w, with w a non-empty digit string, reads back as +-w. */
  lemma IntTextParts(neg: bool, w: string, t: string)
    requires |w| > 0 && AllDigits(w)
    requires t == (if neg then "-" else "") + w
    ensures IsIntText(t) && IsNumberText(t) && DotIndex(t) == |t|
    ensures IntOf(t) == if neg then -(DigitsValue(w) as int) else DigitsValue(w)
  {
    NoDot(neg, w, t);
    assert t[..|t|] == t;
    if neg {
      assert t[0] == '-' && t[1..] == w;
    } else {
      assert t == w && IsDigit(t[0]);
    }
  }

  /** A signed digit string holds no point. */
  lemma NoDot(neg: bool, w: string, t: string)
    requires AllDigits(w)
    requires t == (if neg then "-" else "") + w
    ensures DotIndex(t) == |t|
  {
    var sg: string := if neg then "-" else "";
    forall k | 0 <= k < |t| ensures t[k] != '.' {
      if k >= |sg| { assert t[k] == w[k - |sg|]; }
    }
  }

  /** The text "-"? + w + "." + f, with w and f non-empty digit strings, reads back as the
      float +-(w f) / 10^|f|. */
  lemma FloatTextParts(neg: bool, w: string, f: string, t: string)
    requires |w| > 0 && AllDigits(w) && |f| > 0 && AllDigits(f)
    requires t == (if neg then "-" else "") + w + "." + f
    ensures IsNumberText(t) && DotIndex(t) < |t|
    ensures FloatOf(t) == Float(if neg then -(DigitsValue(w + f) as int) else DigitsValue(w + f), |f|)
  {
    var sg: string := if neg then "-" else "";
    var head := sg + w;
    IntTextParts(neg, w, head);
    var d := DotSplit(head, f, t);
    DigitsValueAppend(w, f);
    var digits := Unpointed(sg, w, f, t, d);
    IntTextParts(neg, w + f, digits);
    FloatOfDigits(t, digits);
  }

  /** Dropping the point from sg + w + "." + f leaves sg + (w + f). */
  lemma Unpointed(sg: string, w: string, f: string, t: string, d: nat) returns (digits: string)
    requires t == sg + w + "." + f && d == |sg + w|
    ensures d < |t| && digits == t[..d] + t[d + 1..] && digits == sg + (w + f)
  {
    digits := t[..d] + t[d + 1..];
    assert t[..d] == sg + w;
    assert t[d + 1..] == f;
  }

  lemma FloatOfDigits(t: string, digits: string)
    requires IsNumberText(t) && DotIndex(t) < |t|
    requires digits == t[..DotIndex(t)] + t[DotIndex(t) + 1..]
    ensures IsIntText(digits) && FloatOf(t) == Float(IntOf(digits), |t| - DotIndex(t) - 1)
  {
  }

  /** The text head + "." + f, with head a signed digit string, has its point at |head|. */
  lemma DotSplit(head: string, f: string, t: string) returns (d: nat)
    requires IsIntText(head) && DotIndex(head) == |head| && |f| > 0 && AllDigits(f)
    requires t == head + "." + f
    ensures d == |head| && DotIndex(t) == d && t[..d] == head && t[d + 1..] == f
    ensures IsNumberText(t)
  {
    d := |head|;
    assert t[..d] == head;
    assert t[d + 1..] == f;
    assert t[d] == '.';
    forall k | 0 <= k < d ensures t[k] != '.' {
      assert t[k] == head[k];
    }
  }

  /** `str` followed by `int` (for an int) or `float` (for a float) gives the number back. */
  lemma StrRoundTrip(x: Num)
    ensures IsNumberText(Str(x))
    ensures x.Int? ==> DotIndex(Str(x)) == |Str(x)| && IntOf(Str(x)) == x.i
    ensures x.Float? ==> DotIndex(Str(x)) < |Str(x)| && Val(FloatOf(Str(x))) == Val(x)
  {
    match x
    case Int(i) =>
      var m: nat := if i < 0 then -i else i;
      IntTextParts(i < 0, IntText(m), Str(x));
    case Float(u, p) =>
      FloatStrRoundTrip(u, p, Str(x));
  }

  lemma FloatStrRoundTrip(u: int, p: nat, t: string)
    requires t == Str(Float(u, p))
    ensures IsNumberText(t) && DotIndex(t) < |t|
    ensures Val(FloatOf(t)) == Val(Float(u, p))
  {
    var m: nat := if u < 0 then -u else u;
    var w, f := FloatTextShape(m, p);
    var sg: string := if u < 0 then "-" else "";
    StrOfFloat(u, p);
    Regroup(sg, w, f);
    FloatTextParts(u < 0, w, f, t);
    var n: int := DigitsValue(w + f);
    var mi: int := m;
    SignedFloatVal(u < 0, n, |f|, mi, p);
    var signedM: int := if u < 0 then -mi else mi;
    assert signedM == u;
    assert FloatOf(t) == Float(if u < 0 then -n else n, |f|);
  }

  lemma StrOfFloat(u: int, p: nat)
    ensures Str(Float(u, p)) == (if u < 0 then "-" else "") + FloatText(if u < 0 then -u else u, p)
  {
    if u >= 0 {
      assert "" + FloatText(u, p) == FloatText(u, p);
    }
  }

  lemma SignedFloatVal(neg: bool, n: int, k: nat, m: int, p: nat)
    requires Val(Float(n, k)) == Val(Float(m, p))
    ensures Val(Float(if neg then -n else n, k)) == Val(Float(if neg then -m else m, p))
  {
    if neg {
      NegVal(n, k);
      NegVal(m, p);
    }
  }

  lemma Regroup(a: string, b: string, c: string)
    ensures a + (b + "." + c) == a + b + "." + c
  {
  }

  /** The text of a non-negative float is digits, a point and digits, and those digits
      without the point, over 10 to the number of fraction digits, are its value. */
  lemma FloatTextShape(m: nat, p: nat) returns (w: string, f: string)
    ensures |w| > 0 && AllDigits(w) && |f| > 0 && AllDigits(f)
    ensures FloatText(m, p) == w + "." + f
    ensures AllDigits(w + f) && Val(Float(DigitsValue(w + f), |f|)) == Val(Float(m, p))
  {
    var n, q := Trim(m, p).0, Trim(m, p).1;
    TrimKeepsValue(m, p);
    if q == 0 {
      w, f := IntText(n), "0";
      DigitsValueAppend(w, f);
      ScaleVal(n, 0, 1);
    } else {
      DivMod(n, Pow10(q));
      w, f := IntText(n / Pow10(q)), Fraction(n % Pow10(q), q);
      DigitsValueAppend(w, f);
    }
  }

  lemma NegVal(u: int, p: nat)
    ensures Val(Float(-u, p)) == -Val(Float(u, p))
  {
  }
}
