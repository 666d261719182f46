/** print_reduced_form (computorV1.py:8-22): the reduced equation, built term by term from
    the nonzero coefficients in the dictionary's order and ended by " = 0". The text is
    returned instead of printed. */
module Reduced {
  import opened PyNum
  import opened Coefficients

  /** `item[1] != 0` */
  predicate NonZeroItem(item: (nat, Num))
  {
    Truthy(item.1)
  }

  /** `[item for item in coeffs_all.items() if item[1] != 0]` */
  function NonZero(items: Items): (r: Items)
    ensures |r| <= |items|
    ensures forall j :: 0 <= j < |r| ==> NonZeroItem(r[j])
    ensures forall p :: p in r <==> p in items && NonZeroItem(p)
  {
    if items == [] then []
    else
      var rest := NonZero(items[1..]);
      assert forall p :: p in items <==> p == items[0] || p in items[1..];
      if NonZeroItem(items[0]) then [items[0]] + rest else rest
  }

  /** Filtering keeps the dictionary's key order. */
  lemma {:induction false} NonZeroKeepsOrder(items: Items)
    requires Increasing(items)
    ensures Increasing(NonZero(items))
  {
    if items != [] {
      var tail := items[1..];
      assert Increasing(tail);
      NonZeroKeepsOrder(tail);
      if NonZeroItem(items[0]) {
        HeadBelow(items);
        ConsIncreasing(items[0], NonZero(tail));
      }
    }
  }

  /** An item below every key of an increasing list can go in front of it. */
  lemma ConsIncreasing(x: (nat, Num), rest: Items)
    requires Increasing(rest) && forall j :: 0 <= j < |rest| ==> x.0 < rest[j].0
    ensures Increasing([x] + rest)
  {
    var r := [x] + rest;
    assert forall j :: 0 < j < |r| ==> r[j] == rest[j - 1];
  }

  /** In an increasing list the first key is below every key kept from the rest. */
  lemma HeadBelow(items: Items)
    requires items != [] && Increasing(items)
    ensures forall j :: 0 <= j < |NonZero(items[1..])| ==> items[0].0 < NonZero(items[1..])[j].0
  {
    var tail := items[1..];
    var rest := NonZero(tail);
    forall j | 0 <= j < |rest|
      ensures items[0].0 < rest[j].0
    {
      assert rest[j] in tail;
      var i :| 0 <= i < |tail| && tail[i] == rest[j];
      assert items[i + 1] == rest[j];
    }
  }

  /** Python's `==` on two items: same key and numerically equal values. */
  predicate SameItem(a: (nat, Num), b: (nat, Num))
  {
    a.0 == b.0 && Val(a.1) == Val(b.1)
  }

  /** The characters `str()` uses for a magnitude or an exponent. */
  predicate Plain(s: string)
  {
    forall j :: 0 <= j < |s| ==> IsDigit(s[j]) || s[j] == '.'
  }

  /** The text one loop pass appends for the term c * X^k; `first` says whether the item
      is the first of the filtered list (`coeffs.index(coeff) == 0`). */
  function TermText(k: nat, c: Num, first: bool): string
  {
    var sign := if first then (if Val(c) < 0.0 then "-" else "") else (if Val(c) > 0.0 then " + " else " - ");
    var number := if Val(Abs(c)) > 1.0 || k == 0 then Str(Abs(c)) else "";
    var variable := if k != 0 then "X" else "";
    var times := if Val(Abs(c)) > 1.0 && variable != "" then " * " else "";
    var power := if k > 1 then "^" + IntText(k) else "";
    sign + number + times + variable + power
  }

  /** The pieces TermText joins, for the properties below. */
  lemma TermPieces(k: nat, c: Num, first: bool) returns (sign: string, number: string, times: string, variable: string, power: string)
    requires Truthy(c)
    ensures TermText(k, c, first) == sign + number + times + variable + power
    ensures sign == if first then (if Val(c) < 0.0 then "-" else "") else (if Val(c) > 0.0 then " + " else " - ")
    ensures number == if Val(Abs(c)) > 1.0 || k == 0 then Str(Abs(c)) else ""
    ensures variable == if k != 0 then "X" else ""
    ensures times == if Val(Abs(c)) > 1.0 && k != 0 then " * " else ""
    ensures power == if k > 1 then "^" + IntText(k) else ""
    ensures power == "" <==> k <= 1
    ensures power == "" || (power[0] == '^' && AllDigits(power[1..]))
    ensures number == "" || (IsDigit(number[0]) && Plain(number))
  {
    var big := Val(Abs(c)) > 1.0;
    sign := if first then (if Val(c) < 0.0 then "-" else "") else (if Val(c) > 0.0 then " + " else " - ");
    number := if big || k == 0 then Str(Abs(c)) else "";
    variable := if k != 0 then "X" else "";
    times := if big && variable != "" then " * " else "";
    power := if k > 1 then "^" + IntText(k) else "";
    PlainStr(Abs(c));
  }

  /** The sign of one nonzero term: the first term starts with "-" exactly when it is
      negative, and a later one with " + " or " - " by its sign. */
  lemma TermSign(k: nat, c: Num, first: bool)
    requires Truthy(c)
    ensures var r := TermText(k, c, first);
      && (first ==> |r| > 0 && (r[0] == '-' <==> Val(c) < 0.0))
      && (!first ==> |r| >= 3 && r[..3] == if Val(c) > 0.0 then " + " else " - ")
  {
    var sign, number, times, variable, power := TermPieces(k, c, first);
    TermHead(sign, number, times, variable, power);
  }

  /** The variable of one nonzero term: "X" appears once exactly when the power is not 0,
      and "^" exactly when the power exceeds 1. */
  lemma TermVariable(k: nat, c: Num, first: bool)
    requires Truthy(c)
    ensures var r := TermText(k, c, first);
      && Count(r, 'X') == (if k != 0 then 1 else 0)
      && ('^' in r <==> k > 1)
  {
    var sign, number, times, variable, power := TermPieces(k, c, first);
    var r := sign + number + times + variable + power;
    PiecesMarks(number, times, variable, power);
    TermX(sign, number, times, variable, power);
    assert '^' in r <==> power != "";
  }

  /** A nonzero term with a nonzero power ends in "X", followed by "^" and `str` of the
      power when the power exceeds 1. */
  lemma TermPower(k: nat, c: Num, first: bool)
    requires Truthy(c) && k != 0
    ensures var r := TermText(k, c, first); var tail := "X" + (if k > 1 then "^" + IntText(k) else "");
      |tail| <= |r| && r[|r| - |tail|..] == tail
  {
    var sign, number, times, variable, power := TermPieces(k, c, first);
    EndsWith(sign, number, times, variable, power);
    assert variable + power == "X" + (if k > 1 then "^" + IntText(k) else "");
  }

  /** The last two of five joined pieces end the whole. */
  lemma EndsWith(a: string, b: string, c: string, d: string, e: string)
    ensures var w := a + b + c + d + e; |d + e| <= |w| && w[|w| - |d + e|..] == d + e
  {
    assert a + b + c + d + e == (a + b + c) + (d + e);
  }

  /** " * " appears exactly when the magnitude exceeds 1 and the power is not 0. */
  lemma TermTimes(k: nat, c: Num, first: bool)
    requires Truthy(c)
    ensures '*' in TermText(k, c, first) <==> Val(Abs(c)) > 1.0 && k != 0
  {
    var sign, number, times, variable, power := TermPieces(k, c, first);
    var r := sign + number + times + variable + power;
    PiecesMarks(number, times, variable, power);
    assert '*' in r <==> times != "";
  }

  /** The magnitude of one nonzero term: right after the sign comes the magnitude as
      `str()` prints it when it exceeds 1 or the power is 0, and "X" otherwise. */
  lemma TermMagnitude(k: nat, c: Num, first: bool)
    requires Truthy(c)
    ensures var r := TermText(k, c, first);
      var p := if first then (if Val(c) < 0.0 then 1 else 0) else 3;
      && p < |r|
      && (IsDigit(r[p]) <==> Val(Abs(c)) > 1.0 || k == 0)
      && (Val(Abs(c)) > 1.0 || k == 0 ==> p + |Str(Abs(c))| <= |r| && r[p..p + |Str(Abs(c))|] == Str(Abs(c)))
      && (Val(Abs(c)) <= 1.0 && k != 0 ==> r[p] == 'X')
  {
    var sign, number, times, variable, power := TermPieces(k, c, first);
    TermHead(sign, number, times, variable, power);
  }

  lemma PiecesMarks(number: string, times: string, variable: string, power: string)
    requires number == "" || Plain(number)
    requires times in {"", " * "} && variable in {"", "X"}
    requires power == "" || (power[0] == '^' && AllDigits(power[1..]))
    ensures '*' !in number && '^' !in number && 'X' !in number
    ensures 'X' !in power && '*' !in power && ('^' in power <==> power != "")
    ensures var r := number + times + variable + power;
      && ('*' in r <==> times != "")
      && ('^' in r <==> power != "")
  {
    if power != "" {
      assert power == [power[0]] + power[1..];
      assert '*' !in power[1..] && 'X' !in power[1..] && '^' !in power[1..];
    }
  }

  /** The printed magnitude uses only digits and a point. */
  lemma PlainStr(x: Num)
    requires Val(x) >= 0.0
    ensures Plain(Str(x)) && |Str(x)| > 0
  {
  }

  lemma TermX(sign: string, number: string, times: string, variable: string, power: string)
    requires 'X' !in sign && 'X' !in number && 'X' !in times && 'X' !in power
    requires variable in {"", "X"}
    ensures Count(sign + number + times + variable + power, 'X') == if variable == "X" then 1 else 0
  {
    CountAppend(sign, number, 'X');
    CountAppend(sign + number, times, 'X');
    CountAppend(sign + number + times, variable, 'X');
    CountAppend(sign + number + times + variable, power, 'X');
    NoCount(sign, 'X');
    NoCount(number, 'X');
    NoCount(times, 'X');
    NoCount(power, 'X');
  }

  lemma TermHead(sign: string, number: string, times: string, variable: string, power: string)
    requires sign in {"", "-", " + ", " - "} && (number == "" || (IsDigit(number[0]) && Plain(number)))
    requires variable in {"", "X"}
    requires variable == "" ==> number != ""
    requires times != "" ==> number != ""
    ensures var r := sign + number + times + variable + power;
      && |sign| < |r| && r[..|sign|] == sign
      && (IsDigit(r[|sign|]) <==> number != "")
      && (number != "" ==> |sign| + |number| <= |r| && r[|sign|..|sign| + |number|] == number)
      && (number == "" ==> r[|sign|] == 'X')
  {
    var rest := times + variable + power;
    var tail := number + rest;
    Reassoc(sign, number, times, variable, power);
    if number == "" {
      assert tail == rest && times == "" && variable == "X";
      assert rest[0] == 'X';
    } else {
      assert tail[..|number|] == number && tail[0] == number[0];
    }
  }

  lemma Reassoc(sign: string, number: string, times: string, variable: string, power: string)
    ensures sign + number + times + variable + power == sign + (number + (times + variable + power))
  {
  }

  lemma NoCount(s: string, c: char)
    requires c !in s
    ensures Count(s, c) == 0
  {
  }

  /** The text after the first n passes of the loop over the filtered items. */
  function Joined(coeffs: Items, n: nat): string
    requires n <= |coeffs| && forall j :: 0 <= j < |coeffs| ==> NonZeroItem(coeffs[j])
  {
    if n == 0 then ""
    else Joined(coeffs, n - 1) + TermText(coeffs[n - 1].0, coeffs[n - 1].1, SameItem(coeffs[0], coeffs[n - 1]))
  }

  /** The passes as their positions say: the first item rendered as the first term, every
      later one as a term that follows. */
  function Listed(coeffs: Items, n: nat): string
    requires n <= |coeffs| && forall j :: 0 <= j < |coeffs| ==> NonZeroItem(coeffs[j])
  {
    if n == 0 then ""
    else Listed(coeffs, n - 1) + TermText(coeffs[n - 1].0, coeffs[n - 1].1, n == 1)
  }

  /** The reduced form print_reduced_form prints for a dictionary. */
  function ReducedForm(items: Items): string
  {
    var coeffs := NonZero(items);
    Joined(coeffs, |coeffs|) + " = 0"
  }

  /** print_reduced_form: one pass per nonzero item, then " = 0". */
  method PrintReducedForm(coeffsAll: Items) returns (reduced: string)
    ensures reduced == ReducedForm(coeffsAll)
  {
    reduced := "";
    var coeffs := NonZero(coeffsAll);
    for j := 0 to |coeffs|
      invariant reduced == Joined(coeffs, j)
    {
      var coeff := coeffs[j];
      var sign := if Val(coeff.1) > 0.0 then " + " else " - ";
      var number := if Val(Abs(coeff.1)) > 1.0 || coeff.0 == 0 then Str(Abs(coeff.1)) else "";
      if SameItem(coeffs[0], coeff) {
        sign := if Val(coeff.1) < 0.0 then "-" else "";
      }
      var variable := if coeff.0 != 0 then "X" else "";
      var multiplicator := if Val(Abs(coeff.1)) > 1.0 && variable != "" then " * " else "";
      var power := if coeff.0 > 1 then "^" + IntText(coeff.0) else "";
      assert sign + number + multiplicator + variable + power == TermText(coeff.0, coeff.1, SameItem(coeffs[0], coeff));
      reduced := reduced + (sign + number + multiplicator + variable + power);
    }
    reduced := reduced + " = 0";
  }

  // ----- the whole reduced form -----

  /** The string always ends in " = 0", and an all-zero dictionary renders as just that. */
  lemma ReducedFormEnds(items: Items)
    ensures var r := ReducedForm(items);
      |r| >= 4 && r[|r| - 4..] == " = 0"
    ensures NonZero(items) == [] ==> ReducedForm(items) == " = 0"
  {
  }

  /** How many of the items have a nonzero key. */
  function VarItems(coeffs: Items): nat
  {
    if coeffs == [] then 0
    else VarItems(coeffs[..|coeffs| - 1]) + if coeffs[|coeffs| - 1].0 != 0 then 1 else 0
  }

  /** "X" appears once for each nonzero coefficient whose power is not 0. */
  lemma ReducedFormVariables(items: Items)
    ensures Count(ReducedForm(items), 'X') == VarItems(NonZero(items))
  {
    var coeffs := NonZero(items);
    JoinedVariables(coeffs, |coeffs|);
    assert coeffs[..|coeffs|] == coeffs;
    CountAppend(Joined(coeffs, |coeffs|), " = 0", 'X');
    NoCount(" = 0", 'X');
  }

  lemma {:induction false} JoinedVariables(coeffs: Items, n: nat)
    requires n <= |coeffs| && forall j :: 0 <= j < |coeffs| ==> NonZeroItem(coeffs[j])
    ensures Count(Joined(coeffs, n), 'X') == VarItems(coeffs[..n])
  {
    if n > 0 {
      JoinedVariables(coeffs, n - 1);
      JoinedStep(coeffs, n);
      assert coeffs[..n][..n - 1] == coeffs[..n - 1];
    }
  }

  /** One more pass adds one "X" exactly when its key is not 0. */
  lemma JoinedStep(coeffs: Items, n: nat)
    requires 0 < n <= |coeffs| && forall j :: 0 <= j < |coeffs| ==> NonZeroItem(coeffs[j])
    ensures Count(Joined(coeffs, n), 'X') == Count(Joined(coeffs, n - 1), 'X') + if coeffs[n - 1].0 != 0 then 1 else 0
  {
    var c := coeffs[n - 1];
    var first := SameItem(coeffs[0], c);
    var prev := Joined(coeffs, n - 1);
    var t := TermText(c.0, c.1, first);
    assert Joined(coeffs, n) == prev + t;
    TermVariable(c.0, c.1, first);
    CountAppend(prev, t, 'X');
  }

  /** With increasing keys no later item equals the first, so `coeffs.index(coeff) == 0`
      holds on the first pass only. */
  lemma LaterNotFirst(coeffs: Items, j: nat)
    requires Increasing(coeffs) && 0 < j < |coeffs|
    ensures !SameItem(coeffs[0], coeffs[j])
  {
  }

  /** With increasing keys each pass renders its item as first exactly when it is the
      first pass. */
  lemma {:induction false} JoinedListed(coeffs: Items, n: nat)
    requires n <= |coeffs| && forall j :: 0 <= j < |coeffs| ==> NonZeroItem(coeffs[j])
    requires Increasing(coeffs)
    ensures Joined(coeffs, n) == Listed(coeffs, n)
  {
    if n > 0 {
      JoinedListed(coeffs, n - 1);
      if n > 1 {
        LaterNotFirst(coeffs, n - 1);
      } else {
        assert SameItem(coeffs[0], coeffs[0]);
      }
    }
  }

  /** On a dictionary with increasing keys, as get_coeffs returns, the reduced form is the
      first nonzero item rendered as the first term, every later one rendered with " + " or
      " - " (see TermSign), and " = 0". */
  lemma ReducedFormListed(items: Items)
    requires Increasing(items)
    ensures ReducedForm(items) == Listed(NonZero(items), |NonZero(items)|) + " = 0"
  {
    NonZeroKeepsOrder(items);
    JoinedListed(NonZero(items), |NonZero(items)|);
  }

  /** The reduced form starts with "-" exactly when the first nonzero coefficient is
      negative. */
  lemma ReducedFormFirstSign(items: Items)
    requires NonZero(items) != []
    ensures ReducedForm(items)[0] == '-' <==> Val(NonZero(items)[0].1) < 0.0
  {
    var coeffs := NonZero(items);
    JoinedHead(coeffs, |coeffs|);
  }

  lemma {:induction false} JoinedHead(coeffs: Items, n: nat)
    requires 0 < n <= |coeffs| && forall j :: 0 <= j < |coeffs| ==> NonZeroItem(coeffs[j])
    ensures |Joined(coeffs, n)| > 0
    ensures Joined(coeffs, n)[0] == '-' <==> Val(coeffs[0].1) < 0.0
  {
    if n == 1 {
      TermSign(coeffs[0].0, coeffs[0].1, true);
      assert SameItem(coeffs[0], coeffs[0]);
    } else {
      JoinedHead(coeffs, n - 1);
    }
  }
}
