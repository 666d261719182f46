/** get_number and get_coeffs (computorV1.py:25-94): the coefficient dictionary built from an
    equation whose spaces have been removed and whose letters are lower case. */
module Coefficients {
  import opened PyNum
  import opened Scanner

  /** Why get_coeffs gives up; it prints the message and returns None. */
  datatype ParseError = EqualsCount | NearEquals | UnexpectedValue(c: char)

  datatype Result<T> = Success(value: T) | Failure(error: ParseError)

  /** A dictionary with int keys, as its items in iteration order. */
  type Items = seq<(nat, Num)>

  // ----- messages -----

  /** The line get_coeffs prints when it gives up. */
  function Message(e: ParseError): (m: string)
    ensures e.UnexpectedValue? ==> |m| == 18 + |Repr(e.c)| && m[18..] == Repr(e.c)
  {
    match e
    case EqualsCount => "Unexpected number of '='."
    case NearEquals => "Syntax error near '='."
    case UnexpectedValue(c) => "Unexpected value: " + Repr(c)
  }

  function HexDigit(d: nat): (c: char)
    requires d < 16
  {
    if d < 10 then DigitChar(d) else ('a' as int + d - 10) as char
  }

  /** `{value!r}` for a one-character string: quoted with single quotes, or with double
      quotes for the single quote itself; backslash, tab, newline and carriage return are
      escaped by name and other non-printable characters as two hexadecimal digits. */
  function Repr(c: char): (r: string)
    ensures |r| >= 3 && r[0] == r[|r| - 1] && (r[0] == '\'' || r[0] == '"')
    ensures r[0] == '"' <==> c == '\''
    ensures ' ' <= c <= '~' && c != '\\' ==> r[1..|r| - 1] == [c]
    ensures r[1] == '\\' <==> c < ' ' || '~' < c <= '\U{00A0}' || c == '\U{00AD}' || c == '\\'
  {
    if c == '\'' then "\"'\""
    else if c == '\\' then "'\\\\'"
    else if c == '\t' then "'\\t'"
    else if c == '\n' then "'\\n'"
    else if c == '\r' then "'\\r'"
    else if c < ' ' || '~' < c <= '\U{00A0}' || c == '\U{00AD}' then
      "'\\x" + [HexDigit(c as int / 16), HexDigit(c as int % 16)] + "'"
    else "'" + [c] + "'"
  }

  /** `str.count` adds up over a concatenation. */
  lemma {:induction false} CountAppend(a: string, b: string, c: char)
    ensures Count(a + b, c) == Count(a, c) + Count(b, c)
    decreases |b|
  {
    if b == [] {
      assert a + b == a;
    } else {
      var b' := b[..|b| - 1];
      CountAppend(a, b', c);
      assert (a + b)[..|a + b| - 1] == a + b';
    }
  }

  // ----- get_number -----

  /** `code.count(c)` */
  function Count(s: string, c: char): (n: nat)
    ensures n <= |s|
    ensures n == 0 <==> c !in s
  {
    if s == [] then 0
    else
      assert s == s[..|s| - 1] + [s[|s| - 1]];
      Count(s[..|s| - 1], c) + (if s[|s| - 1] == c then 1 else 0)
  }

  /** get_number: a missing number counts as 1; text with a point becomes a float, any
      other text an int. */
  function GetNumber(text: string): (r: Num)
    requires text == "" || IsNumberText(text)
    ensures text == "" ==> r == Int(1)
    ensures r.Float? <==> '.' in text
  {
    if text == "" then Int(1)
    else if '.' in text then
      FloatOf(text)
    else
      assert text[..DotIndex(text)] == text;
      Int(IntOf(text))
  }

  /** Reading back the text `str()` prints gives the same number, of the same type. */
  lemma GetNumberOfStr(x: Num)
    ensures IsNumberText(Str(x))
    ensures GetNumber(Str(x)).Float? == x.Float?
    ensures Val(GetNumber(Str(x))) == Val(x)
    ensures x.Int? ==> GetNumber(Str(x)) == x
  {
    StrRoundTrip(x);
    if x.Int? {
      assert Str(x)[..DotIndex(Str(x))] == Str(x);
    }
  }

  // ----- one term -----

  /** The captured sign is "=" or "=-": the term opens the right-hand side. */
  predicate OnRight(t: Term)
  {
    t.sign == "=" || t.sign == "=-"
  }

  /** The key a term adds to: 0 without the variable, 1 without exponent digits, otherwise
      the exponent. */
  function PowerOf(t: Term): (k: nat)
    requires Shaped(t)
    ensures t.variable == "" ==> k == 0
    ensures t.variable != "" && t.power == "" ==> k == 1
    ensures t.variable != "" && t.power != "" ==> IsIntText(t.power) && k == IntOf(t.power)
  {
    if t.variable == "" then 0
    else if t.power == "" then 1
    else DigitsValue(t.power)
  }

  /** `sign_multiplicator`: the term's own "=" or "=-", plus the right_side flag once the
      term has updated it. */
  function Multiplier(t: Term, rightSide: bool): (k: nat)
    ensures k <= 2
    ensures k % 2 == 1 <==> rightSide && !OnRight(t)
  {
    (if OnRight(t) then 1 else 0) + (if rightSide || OnRight(t) then 1 else 0)
  }

  /** The loop's state: the right_side flag and the coeffs dictionary. */
  datatype Acc = Acc(rightSide: bool, coeffs: map<nat, Num>)

  /** One pass of the loop body for a matched term. */
  function Step(acc: Acc, t: Term): Acc
    requires Shaped(t)
  {
    var rightSide := acc.rightSide || OnRight(t);
    var number := GetNumber(t.number);
    if !Truthy(number) then Acc(rightSide, acc.coeffs)
    else
      var contribution := TimesPowMinusOne(number, Multiplier(t, acc.rightSide));
      var power := PowerOf(t);
      if power in acc.coeffs && Truthy(acc.coeffs[power]) then
        Acc(rightSide, acc.coeffs[power := Add(acc.coeffs[power], contribution)])
      else
        Acc(rightSide, acc.coeffs[power := contribution])
  }

  predicate AllShaped(ts: seq<Term>)
  {
    forall k :: 0 <= k < |ts| ==> Shaped(ts[k])
  }

  /** The state after the loop has run over the terms, in order. */
  function Accumulate(ts: seq<Term>): Acc
    requires AllShaped(ts)
  {
    if ts == [] then Acc(false, map[])
    else Step(Accumulate(ts[..|ts| - 1]), ts[|ts| - 1])
  }

  // ----- a reference definition of the sums -----

  /** Some term before index j opens the right-hand side. */
  predicate RightBefore(ts: seq<Term>, j: nat)
    requires j <= |ts|
  {
    exists i :: 0 <= i < j && OnRight(ts[i])
  }

  /** The value a term adds: its number, negated exactly when it lies past the term that
      opened the right-hand side. The term that carries the "=" itself keeps its sign. */
  function Signed(ts: seq<Term>, j: nat): real
    requires j < |ts| && Shaped(ts[j])
  {
    var v := Val(GetNumber(ts[j].number));
    if RightBefore(ts, j) && !OnRight(ts[j]) then -v else v
  }

  /** The sum of what the terms add to key k. */
  function Total(ts: seq<Term>, k: nat): real
    requires AllShaped(ts)
  {
    if ts == [] then 0.0
    else
      var j := |ts| - 1;
      Total(ts[..j], k) + (if PowerOf(ts[j]) == k then Signed(ts, j) else 0.0)
  }

  /** Some term adds a nonzero number to key k. */
  predicate Touches(ts: seq<Term>, k: nat)
    requires AllShaped(ts)
  {
    exists j :: 0 <= j < |ts| && PowerOf(ts[j]) == k && Truthy(GetNumber(ts[j].number))
  }

  /** The loop computes the sums: each key it creates holds the sum of what the terms add
      to it, the keys are exactly those some term adds a nonzero number to, and right_side
      records whether a term opened the right-hand side. */
  lemma {:induction false} AccumulateTotals(ts: seq<Term>)
    requires AllShaped(ts)
    ensures Accumulate(ts).rightSide == RightBefore(ts, |ts|)
    ensures forall k :: k in Accumulate(ts).coeffs <==> Touches(ts, k)
    ensures forall k :: k in Accumulate(ts).coeffs ==> Val(Accumulate(ts).coeffs[k]) == Total(ts, k)
    ensures forall k :: k !in Accumulate(ts).coeffs ==> Total(ts, k) == 0.0
  {
    if ts != [] {
      var j := |ts| - 1;
      var init := ts[..j];
      var t := ts[j];
      AccumulateTotals(init);
      assert forall i :: 0 <= i < j ==> init[i] == ts[i];
      assert RightBefore(ts, j) == RightBefore(init, j);
      var before := Accumulate(init);
      var after := Step(before, t);
      assert Accumulate(ts) == after;
      MultiplierSign(ts, j, before.rightSide);
      forall k: nat
        ensures k in after.coeffs <==> Touches(ts, k)
        ensures k in after.coeffs ==> Val(after.coeffs[k]) == Total(ts, k)
        ensures k !in after.coeffs ==> Total(ts, k) == 0.0
      {
        assert Total(ts, k) == Total(init, k) + (if PowerOf(t) == k then Signed(ts, j) else 0.0);
        StepKey(before, t, k, Total(init, k), Signed(ts, j));
        TouchesSnoc(ts, k);
      }
    }
  }

  /** `number * pow(-1, sign_multiplicator)` is the signed value of the reference sum. */
  lemma MultiplierSign(ts: seq<Term>, j: nat, rightSide: bool)
    requires j < |ts| && Shaped(ts[j]) && rightSide == RightBefore(ts, j)
    ensures Val(TimesPowMinusOne(GetNumber(ts[j].number), Multiplier(ts[j], rightSide))) == Signed(ts, j)
  {
  }

  lemma TouchesSnoc(ts: seq<Term>, k: nat)
    requires ts != [] && AllShaped(ts)
    ensures AllShaped(ts[..|ts| - 1])
    ensures Touches(ts, k) <==>
      Touches(ts[..|ts| - 1], k) || (PowerOf(ts[|ts| - 1]) == k && Truthy(GetNumber(ts[|ts| - 1].number)))
  {
    var init := ts[..|ts| - 1];
    assert forall i :: 0 <= i < |init| ==> init[i] == ts[i];
    if Touches(ts, k) {
      var i :| 0 <= i < |ts| && PowerOf(ts[i]) == k && Truthy(GetNumber(ts[i].number));
      if i < |init| {
        assert PowerOf(init[i]) == k && Truthy(GetNumber(init[i].number));
      }
    }
  }

  /** One step keeps, for key k, "the value is the running sum, and a missing key has sum
      zero"; it creates k exactly when the term adds a nonzero number to it. */
  lemma StepKey(acc: Acc, t: Term, k: nat, total: real, add: real)
    requires Shaped(t)
    requires k in acc.coeffs ==> Val(acc.coeffs[k]) == total
    requires k !in acc.coeffs ==> total == 0.0
    requires add == Val(TimesPowMinusOne(GetNumber(t.number), Multiplier(t, acc.rightSide)))
    ensures var sum := total + (if PowerOf(t) == k then add else 0.0);
      && (k in Step(acc, t).coeffs ==> Val(Step(acc, t).coeffs[k]) == sum)
      && (k !in Step(acc, t).coeffs ==> sum == 0.0)
    ensures k in Step(acc, t).coeffs <==> k in acc.coeffs || (PowerOf(t) == k && Truthy(GetNumber(t.number)))
    ensures Step(acc, t).rightSide == (acc.rightSide || OnRight(t))
  {
  }

  // ----- filling in 0, 1 and 2 -----

  /** The fill loop run over keys 0 to n - 1: a key that is missing or holds zero becomes
      the int 0. */
  function FillUpTo(m: map<nat, Num>, n: nat): (r: map<nat, Num>)
    ensures forall k :: 0 <= k < n ==> k in r
    ensures forall k: nat :: k in r <==> k in m || k < n
  {
    if n == 0 then m
    else
      var f := FillUpTo(m, n - 1);
      var x := n - 1;
      if x in f && Truthy(f[x]) then f else f[x := Int(0)]
  }

  /** Filling keeps every value (a zero may become the int 0) and keeps a nonzero value
      as it is. */
  lemma {:induction false} FillKeepsValues(m: map<nat, Num>, n: nat)
    ensures forall k :: k in m ==> Val(FillUpTo(m, n)[k]) == Val(m[k])
    ensures forall k :: k in m && Truthy(m[k]) ==> FillUpTo(m, n)[k] == m[k]
    ensures forall k :: k in FillUpTo(m, n) ==>
      FillUpTo(m, n)[k] == if k in m && (k >= n || Truthy(m[k])) then m[k] else Int(0)
  {
    if n > 0 {
      FillKeepsValues(m, n - 1);
    }
  }

  // ----- dict(sorted(coeffs.items())) -----

  predicate IsMin(k: nat, ks: set<nat>)
  {
    k in ks && forall j :: j in ks ==> k <= j
  }

  lemma {:induction false} MinExists(ks: set<nat>)
    requires ks != {}
    ensures exists k :: IsMin(k, ks)
    decreases |ks|
  {
    var x :| x in ks;
    if ks == {x} {
      assert IsMin(x, ks);
    } else {
      var rest := ks - {x};
      MinExists(rest);
      var k :| IsMin(k, rest);
      assert forall j :: j in ks ==> j == x || j in rest;
      if x < k {
        assert IsMin(x, ks);
      } else {
        assert IsMin(k, ks);
      }
    }
  }

  function MinKey(ks: set<nat>): (k: nat)
    requires ks != {}
    ensures IsMin(k, ks)
  {
    MinExists(ks);
    var k :| IsMin(k, ks);
    k
  }

  /** `coeffs.get(k)` */
  function Lookup(items: Items, k: nat): (r: Option<Num>)
    ensures r.Some? <==> exists j :: 0 <= j < |items| && items[j].0 == k
  {
    if items == [] then None
    else if items[0].0 == k then Some(items[0].1)
    else
      var r := Lookup(items[1..], k);
      assert forall j :: 1 <= j < |items| ==> items[j] == items[1..][j - 1];
      r
  }

  /** Keys strictly increase along the items. */
  predicate Increasing(items: Items)
  {
    forall i, j :: 0 <= i < j < |items| ==> items[i].0 < items[j].0
  }

  /** The items of m in increasing key order. */
  function SortedItems(m: map<nat, Num>): (r: Items)
    ensures Increasing(r)
    ensures forall j :: 0 <= j < |r| ==> r[j].0 in m && r[j].1 == m[r[j].0]
    ensures |r| == |m.Keys|
    decreases |m.Keys|
  {
    if m.Keys == {} then []
    else
      var k := MinKey(m.Keys);
      var rest := SortedItems(m - {k});
      var r := [(k, m[k])] + rest;
      assert forall j :: 1 <= j < |r| ==> r[j] == rest[j - 1];
      r
  }

  /** Looking a key up among the sorted items finds what the dictionary holds for it. */
  lemma {:induction false} SortedLookup(m: map<nat, Num>, k: nat)
    ensures Lookup(SortedItems(m), k) == if k in m then Some(m[k]) else None
    decreases |m.Keys|
  {
    if m.Keys != {} {
      var k0 := MinKey(m.Keys);
      SortedLookup(m - {k0}, k);
      assert SortedItems(m)[1..] == SortedItems(m - {k0});
    }
  }

  // ----- get_coeffs -----

  /** What get_coeffs returns for `code`: an error, or the items of the dictionary in key
      order. */
  function Parse(code: string): Result<Items>
  {
    if Count(code, '=') != 1 then Failure(EqualsCount)
    else
      match Tokenize(code, 0)
      case Stopped(_, tok) =>
        if tok.WrongEquals? then Failure(NearEquals) else Failure(UnexpectedValue(tok.c))
      case Terms(ts) =>
        TokenizeTiles(code, 0);
        TilesWellFormed(code, ts, 0, |code|);
        Success(SortedItems(FillUpTo(Accumulate(ts).coeffs, 3)))
  }

  /** The terms of a scan that reached the end, prefixed by the ones already consumed. */
  function After(done: seq<Term>, rest: Scan): Scan
  {
    if rest.Terms? then Terms(done + rest.terms) else rest
  }

  /** The scan from the start consists of the terms done and then the scan from i. */
  ghost predicate Resumes(code: string, done: seq<Term>, i: nat)
  {
    i <= |code| && Tokenize(code, 0) == After(done, Tokenize(code, i))
  }

  /** Consuming a matched term moves it from the rest of the scan to the terms done. */
  lemma AfterMatched(code: string, i: nat, done: seq<Term>, t: Term)
    requires i < |code| && Next(code, i) == Matched(t)
    requires Resumes(code, done, i)
    ensures i < t.end <= |code|
    ensures Resumes(code, done + [t], t.end)
  {
    var rest := Tokenize(code, t.end);
    if rest.Terms? {
      assert done + ([t] + rest.terms) == done + [t] + rest.terms;
    }
  }

  /** At a newline nothing matches and the scan moves on to the next index. */
  lemma AfterNoMatch(code: string, i: nat, done: seq<Term>)
    requires i < |code| && Next(code, i) == NoMatch
    requires Resumes(code, done, i)
    ensures Resumes(code, done, i + 1)
  {
  }

  /** The scan stops at index i: get_coeffs returns the error of the token there. */
  lemma StoppedAt(code: string, i: nat, done: seq<Term>)
    requires Count(code, '=') == 1 && i < |code|
    requires Resumes(code, done, i)
    requires Next(code, i).WrongEquals? || Next(code, i).Mismatch?
    ensures Parse(code) == if Next(code, i).WrongEquals? then Failure(NearEquals) else Failure(UnexpectedValue(Next(code, i).c))
  {
    assert Tokenize(code, i) == Stopped(i, Next(code, i));
  }

  /** The scan reached the end: get_coeffs fills and sorts what the loop built. */
  lemma Finished(code: string, done: seq<Term>)
    requires Count(code, '=') == 1 && AllShaped(done)
    requires Resumes(code, done, |code|)
    ensures Parse(code) == Success(SortedItems(FillUpTo(Accumulate(done).coeffs, 3)))
  {
    assert done + [] == done;
  }

  /** One pass of the loop body for a matched term: set right_side on '=' or '=-', and
      add a nonzero number, signed, into the key of its power. */
  method AddTerm(rightSide: bool, coeffs: map<nat, Num>, t: Term) returns (rightSide': bool, coeffs': map<nat, Num>)
    requires Shaped(t)
    ensures Acc(rightSide', coeffs') == Step(Acc(rightSide, coeffs), t)
  {
    rightSide' := rightSide;
    coeffs' := coeffs;
    if t.sign == "=" || t.sign == "=-" {
      rightSide' := true;
    }
    var number := GetNumber(t.number);
    if Truthy(number) {
      var signMultiplicator := (if t.sign == "=" || t.sign == "=-" then 1 else 0) + (if rightSide' then 1 else 0);
      var power := 0;
      if t.variable != "" {
        power := if t.power == "" then 1 else DigitsValue(t.power);
      }
      assert power == PowerOf(t) && signMultiplicator == Multiplier(t, rightSide);
      var contribution := TimesPowMinusOne(number, signMultiplicator);
      if power in coeffs' && Truthy(coeffs'[power]) {
        coeffs' := coeffs'[power := Add(coeffs'[power], contribution)];
      } else {
        coeffs' := coeffs'[power := contribution];
      }
    }
  }

  /** The loop after the scan: keys 0, 1 and 2 that are missing or hold zero get int 0. */
  method FillMissing(m: map<nat, Num>) returns (coeffs: map<nat, Num>)
    ensures coeffs == FillUpTo(m, 3)
  {
    coeffs := m;
    for x := 0 to 3
      invariant coeffs == FillUpTo(m, x)
    {
      ghost var next := FillUpTo(m, x + 1);
      if !(x in coeffs && Truthy(coeffs[x])) {
        coeffs := coeffs[x := Int(0)];
      }
      assert coeffs == next;
    }
  }

  /** One pass of get_coeffs' loop over the regex matches: a bad match ends the parse with
      its error, no match skips one character, a term is folded into right_side and coeffs. */
  method ScanStep(code: string, i: nat, ghost done: seq<Term>, rightSide: bool, coeffs: map<nat, Num>)
    returns (stop: Option<ParseError>, i': nat, ghost done': seq<Term>, rightSide': bool, coeffs': map<nat, Num>)
    requires Count(code, '=') == 1 && i < |code|
    requires AllShaped(done) && Resumes(code, done, i)
    requires Acc(rightSide, coeffs) == Accumulate(done)
    ensures stop.Some? ==> Parse(code) == Failure(stop.value)
    ensures stop.None? ==> i < i' <= |code| && AllShaped(done') && Resumes(code, done', i')
    ensures stop.None? ==> Acc(rightSide', coeffs') == Accumulate(done')
  {
    stop, i', done', rightSide', coeffs' := None, i, done, rightSide, coeffs;
    var tok := Next(code, i);
    match tok
    case WrongEquals =>
      StoppedAt(code, i, done);
      stop := Some(NearEquals);
    case Mismatch(c) =>
      StoppedAt(code, i, done);
      stop := Some(UnexpectedValue(c));
    case NoMatch =>
      AfterNoMatch(code, i, done);
      i' := i + 1;
    case Matched(t) =>
      rightSide', coeffs' := AddTerm(rightSide, coeffs, t);
      AccumulateSnoc(done, t);
      AfterMatched(code, i, done, t);
      done' := done + [t];
      i' := t.end;
  }

  /** get_coeffs: counts the '=' signs, then folds each match into right_side and coeffs,
      then fills in keys 0 to 2 and sorts. */
  method GetCoeffs(code: string) returns (r: Result<Items>)
    ensures r == Parse(code)
  {
    var rightSide := false;
    var coeffs: map<nat, Num> := map[];
    if Count(code, '=') != 1 {
      return Failure(EqualsCount);
    }
    var i := 0;
    ghost var done: seq<Term> := [];
    while i < |code|
      invariant i <= |code|
      invariant AllShaped(done)
      invariant Resumes(code, done, i)
      invariant Acc(rightSide, coeffs) == Accumulate(done)
      decreases |code| - i
    {
      var stop;
      stop, i, done, rightSide, coeffs := ScanStep(code, i, done, rightSide, coeffs);
      if stop.Some? {
        return Failure(stop.value);
      }
    }
    coeffs := FillMissing(coeffs);
    Finished(code, done);
    r := Success(SortedItems(coeffs));
  }

  lemma AccumulateSnoc(done: seq<Term>, t: Term)
    requires AllShaped(done) && Shaped(t)
    ensures AllShaped(done + [t]) && Accumulate(done + [t]) == Step(Accumulate(done), t)
  {
    assert (done + [t])[..|done|] == done;
  }

  // ----- what get_coeffs promises -----

  /** get_coeffs refuses with "Unexpected number of '='." exactly the equations that do not
      hold exactly one '='. */
  lemma ParseEqualsCount(code: string)
    ensures Parse(code) == Failure(EqualsCount) <==> Count(code, '=') != 1
  {
  }

  /** An equation of one line that starts or ends with its '=' is refused near '='. */
  lemma ParseEqualsAtEdge(code: string)
    requires Count(code, '=') == 1 && '\n' !in code
    requires code[0] == '=' || code[|code| - 1] == '='
    ensures Parse(code) == Failure(NearEquals)
  {
    if code[0] != '=' {
      assert code[0..|code| - 1] <= code;
      assert Line(code, 0, |code| - 1);
    }
    assert Tokenize(code, 0) == Stopped(0, WrongEquals);
  }

  /** An '=' followed by '+' or '*' makes get_coeffs give up, at that '=' or earlier. */
  lemma ParseEqualsThenOperator(code: string, p: nat)
    requires Count(code, '=') == 1 && p + 1 < |code| && code[p] == '='
    requires code[p + 1] == '+' || code[p + 1] == '*'
    ensures Tokenize(code, 0).Stopped? && Tokenize(code, 0).at <= p
    ensures Parse(code) == Failure(NearEquals) ||
      (Parse(code).Failure? && Parse(code).error.UnexpectedValue? && Tokenize(code, 0).at < p)
  {
    EqualsPlusStops(code, 0, p);
    var scan := Tokenize(code, 0);
    if scan.at == p {
      assert WrongEqualsAt(code, p);
      assert scan.token.WrongEquals?;
    }
    assert Parse(code) == if scan.token.WrongEquals? then Failure(NearEquals) else Failure(UnexpectedValue(scan.token.c));
  }

  /** "Unexpected value" names a character of the equation, other than a newline, where
      no alternative but MISMATCH matches. */
  lemma ParseUnexpected(code: string, c: char)
    requires Parse(code) == Failure(UnexpectedValue(c))
    ensures exists p :: 0 <= p < |code| && code[p] == c && c != '\n' && Next(code, p) == Mismatch(c)
  {
    var p := Tokenize(code, 0).at;
    assert code[p] == c;
  }

  /** What a successful get_coeffs returns: keys in increasing order; 0, 1 and 2 always
      present; any other key present exactly when some term adds a nonzero number to it;
      and every value the sum of what the terms add to its key. */
  lemma ParseSuccess(code: string)
    requires Parse(code).Success?
    ensures Tokenize(code, 0).Terms? && AllShaped(Tokenize(code, 0).terms)
    ensures Increasing(Parse(code).value)
    ensures forall k: nat :: k <= 2 ==> Lookup(Parse(code).value, k).Some?
    ensures forall k: nat :: k > 2 ==> (Lookup(Parse(code).value, k).Some? <==> Touches(Tokenize(code, 0).terms, k))
    ensures forall k: nat :: Lookup(Parse(code).value, k).Some? ==>
      Val(Lookup(Parse(code).value, k).value) == Total(Tokenize(code, 0).terms, k)
  {
    var ts := Tokenize(code, 0).terms;
    TokenizeTiles(code, 0);
    TilesWellFormed(code, ts, 0, |code|);
    var acc := Accumulate(ts);
    var filled := FillUpTo(acc.coeffs, 3);
    AccumulateTotals(ts);
    FillKeepsValues(acc.coeffs, 3);
    forall k: nat ensures Lookup(Parse(code).value, k) == if k in filled then Some(filled[k]) else None {
      SortedLookup(filled, k);
    }
  }

  /** A term whose number is an int adds an int. */
  predicate IntNumbers(ts: seq<Term>)
  {
    forall j :: 0 <= j < |ts| ==> '.' !in ts[j].number
  }

  /** Without a decimal point in the equation every coefficient is an int, so the reduced
      form prints no ".0". */
  lemma ParseIntegers(code: string)
    requires '.' !in code && Parse(code).Success?
    ensures forall j :: 0 <= j < |Parse(code).value| ==> Parse(code).value[j].1.Int?
  {
    var ts := Tokenize(code, 0).terms;
    TokenizeTiles(code, 0);
    TilesWellFormed(code, ts, 0, |code|);
    forall j | 0 <= j < |ts| ensures '.' !in ts[j].number {
      NumberInside(code, ts[j]);
    }
    AccumulateIntegers(ts);
    var m := Accumulate(ts).coeffs;
    FillKeepsValues(m, 3);
    var filled := FillUpTo(m, 3);
    assert forall k :: k in filled ==> filled[k].Int?;
  }

  /** The number group is text of the equation. */
  lemma NumberInside(code: string, t: Term)
    requires WellFormed(code, t)
    ensures forall c :: c in t.number ==> c in code
  {
    var text := t.sign + t.number + t.variable + t.marker + t.power;
    assert text == t.sign + t.number + (t.variable + t.marker + t.power);
    assert forall c :: c in t.number ==> c in text;
    assert forall c :: c in code[t.start..t.end] ==> c in code;
  }

  lemma {:induction false} AccumulateIntegers(ts: seq<Term>)
    requires AllShaped(ts) && IntNumbers(ts)
    ensures forall k :: k in Accumulate(ts).coeffs ==> Accumulate(ts).coeffs[k].Int?
  {
    if ts != [] {
      var init := ts[..|ts| - 1];
      assert forall j :: 0 <= j < |init| ==> init[j] == ts[j];
      AccumulateIntegers(init);
    }
  }
}
