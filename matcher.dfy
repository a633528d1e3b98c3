/** The cron-style matcher: one token against one field (`matchElement`). */
module Matcher {
  import opened Fields
  import opened Strings

  /** A token free of the wildcards `*` and `?`. */
  predicate Tame(value: string)
  {
    '*' !in value && '?' !in value
  }

  /** Whether `value` admits the reading `current` of `field`. The rules are
      tried in order: empty, `*`, `?` (day and weekday only), comma list,
      step `a/n`, range `a-b`, plain number. A token without wildcards only
      ever admits readings from 0 up to the field's maximum. */
  function MatchElement(value: string, field: Field, current: int): (r: bool)
    ensures r && value != "" && Tame(value) ==> 0 <= current <= Hi(field)
    decreases |value|, if ',' in value then 2 else 0, 1
  {
    if value == "" then field == Year
    else if value == "*" then true
    else if (field == Day || field == Weekday) && value == "?" then true
    else MatchList(value, field, current)
  }

  /** The rules after the wildcards: a comma list, or one number rule. */
  function MatchList(value: string, field: Field, current: int): (r: bool)
    ensures r && Tame(value) ==> 0 <= current <= Hi(field)
    decreases |value|, if ',' in value then 2 else 0, 0
  {
    if ',' in value then AnyPartMatches(value, field, current)
    else MatchNumber(value, field, current)
  }

  /** The rules after the comma list: step `a/n`, range `a-b`, plain number.
      They admit no reading below 0 or above the field's maximum. A step
      whose interval does not read as a positive number admits nothing. */
  function MatchNumber(value: string, field: Field, current: int): (r: bool)
    ensures r ==> 0 <= current <= Hi(field)
  {
    if '/' in value then
      // The start, value[..i], is clamped by the source and then never used.
      var i := IndexOf(value, '/');
      var interval := ToInt(value[i + 1..]);
      interval > 0 && StepReaches(0, interval, Hi(field), current)
    else if '-' in value then
      var i := IndexOf(value, '-');
      Clamp(ToInt(value[..i]), field) <= current <= Clamp(ToInt(value[i + 1..]), field)
    else
      Clamp(ToInt(value), field) == current
  }

  /** The comma loop: read parts from a stream holding `rest` until a part is
      empty, and succeed on the first part that matches. */
  function AnyPartMatches(rest: string, field: Field, current: int): (r: bool)
    ensures r && Tame(rest) ==> 0 <= current <= Hi(field)
    decreases |rest|, 1, 0
  {
    var r := ReadUntil(rest, ',');
    if r.0 == "" then false
    else MatchElement(r.0, field, current) || AnyPartMatches(r.1, field, current)
  }

  /** The step loop `for (i = ...; i <= hi; i += interval) if (i == current) ...`
      for a positive interval: it only reaches values from i up to hi. */
  function StepReaches(i: int, interval: int, hi: int, current: int): (r: bool)
    requires interval > 0
    ensures r ==> i <= current <= hi
    decreases hi - i
  {
    if i > hi then false
    else i == current || StepReaches(i + interval, interval, hi, current)
  }

  /** What the step loop has done after at most `fuel` increments. */
  datatype Outcome = Returned(matched: bool) | Running

  /** The step loop exactly as written, for any interval, run for at most
      `fuel` increments of the counter. A return only happens inside the
      range, and a `true` only at the reading itself. */
  function StepLoop(i: int, interval: int, hi: int, current: int, fuel: nat): (o: Outcome)
    ensures o == Returned(true) ==> current <= hi
    decreases fuel
  {
    if i > hi then Returned(false)
    else if i == current then Returned(true)
    else if fuel == 0 then Running
    else StepLoop(i + interval, interval, hi, current, fuel - 1)
  }

  /** With an interval of 0 or less the counter never climbs past the
      maximum, so a reading above the counter is never met and the loop
      never returns, however many increments it is given. */
  lemma {:induction false} StepLoopHangs(i: int, interval: int, hi: int, current: int, fuel: nat)
    requires interval <= 0 && i <= hi && i < current
    ensures StepLoop(i, interval, hi, current, fuel) == Running
    decreases fuel
  {
    if fuel > 0 {
      StepLoopHangs(i + interval, interval, hi, current, fuel - 1);
    }
  }

  /** With a positive interval the loop as written returns within
      `hi - i + 1` increments, with the answer of `StepReaches`. */
  lemma {:induction false} StepLoopAgrees(i: int, interval: int, hi: int, current: int, fuel: nat)
    requires interval > 0 && hi - i + 1 <= fuel
    ensures StepLoop(i, interval, hi, current, fuel) == Returned(StepReaches(i, interval, hi, current))
    decreases fuel
  {
    if i <= hi && i != current {
      StepLoopAgrees(i + interval, interval, hi, current, fuel - 1);
    }
  }

  /** The step loop visits exactly the values i, i + n, i + 2n, ... up to hi. */
  lemma {:induction false} StepReachesIff(i: int, n: int, hi: int, current: int)
    requires n > 0
    ensures StepReaches(i, n, hi, current) <==> i <= current <= hi && (current - i) % n == 0
    decreases hi - i
  {
    if i <= hi {
      StepReachesIff(i + n, n, hi, current);
      StepArith(i, n, current);
    }
  }

  /** One step of the loop, in arithmetic: i reaches current in steps of n
      iff current is i itself or i + n reaches it. */
  lemma StepArith(i: int, n: int, current: int)
    requires n > 0
    ensures (i <= current && (current - i) % n == 0) <==>
      (current == i || (i + n <= current && (current - (i + n)) % n == 0))
  {
    if current != i && i <= current && (current - i) % n == 0 {
      MultipleStep(current - i, n);
    }
    if i + n <= current {
      ModShift(current - (i + n), n);
    }
  }

  lemma MulAtLeast(d: int, n: int)
    requires d >= 1 && n > 0
    ensures d * n >= n
  {
  }

  /** Euclidean division has one quotient and remainder. */
  lemma DivModUnique(a: int, n: int, q: int, r: int)
    requires n > 0 && 0 <= r < n && a == q * n + r
    ensures a % n == r && a / n == q
  {
    var q', r' := a / n, a % n;
    assert a == q' * n + r';
    assert (q - q') * n == r' - r;
    if q - q' >= 1 {
      MulAtLeast(q - q', n);
    } else if q' - q >= 1 {
      MulAtLeast(q' - q, n);
    }
  }

  lemma ModShift(x: int, n: int)
    requires n > 0
    ensures (x + n) % n == x % n
  {
    var q, r := x / n, x % n;
    assert x == q * n + r;
    assert x + n == (q + 1) * n + r;
    DivModUnique(x + n, n, q + 1, r);
  }

  /** A positive multiple of n is at least n. */
  lemma MultipleStep(x: int, n: int)
    requires n > 0 && x > 0 && x % n == 0
    ensures x >= n && (x - n) % n == 0
  {
    var q := x / n;
    assert x == q * n;
    MulAtLeast(q, n);
    ModShift(x - n, n);
  }

  /** The comma loop against a reference: the parts of the split up to the
      first empty one, and no further, are tried. */
  lemma {:induction false} AnyPartMatchesSplit(rest: string, field: Field, current: int)
    ensures var parts := TakeNonEmpty(Split(rest, ','));
      AnyPartMatches(rest, field, current) <==> SomePartMatches(parts, field, current)
    decreases |rest|
  {
    var r := ReadUntil(rest, ',');
    var parts := TakeNonEmpty(Split(rest, ','));
    SplitReadUntil(rest, ',');
    if r.0 == "" {
      assert Split(rest, ',')[0] == "";
      assert parts == [];
    } else {
      var tail := TakeNonEmpty(Split(r.1, ','));
      AnyPartMatchesSplit(r.1, field, current);
      assert parts == [r.0] + tail by {
        if ',' !in rest {
          assert Split(rest, ',') == [r.0];
          assert r.1 == "" && tail == [];
        }
      }
      SomePartMatchesCons(r.0, tail, field, current);
    }
  }

  /** Some part of the list matches. */
  predicate SomePartMatches(parts: seq<string>, field: Field, current: int)
  {
    exists k :: 0 <= k < |parts| && MatchElement(parts[k], field, current)
  }

  lemma SomePartMatchesCons(head: string, tail: seq<string>, field: Field, current: int)
    ensures SomePartMatches([head] + tail, field, current) <==>
      MatchElement(head, field, current) || SomePartMatches(tail, field, current)
  {
    var parts := [head] + tail;
    if MatchElement(head, field, current) {
      assert parts[0] == head;
    }
    if SomePartMatches(tail, field, current) {
      var k :| 0 <= k < |tail| && MatchElement(tail[k], field, current);
      assert parts[k + 1] == tail[k];
    }
    if SomePartMatches(parts, field, current) {
      var k :| 0 <= k < |parts| && MatchElement(parts[k], field, current);
      if k > 0 {
        assert tail[k - 1] == parts[k];
        assert SomePartMatches(tail, field, current);
      } else {
        assert MatchElement(head, field, current);
      }
    }
  }

  /** A token holding a comma matches iff one of its parts before the first
      empty part matches; a leading or doubled comma ends the list. */
  lemma CommaRule(value: string, field: Field, current: int)
    requires ',' in value
    ensures var parts := TakeNonEmpty(Split(value, ','));
      MatchElement(value, field, current) <==> SomePartMatches(parts, field, current)
  {
    assert value != "*" && value != "?" && value != "" by {
      assert ',' !in "*" && ',' !in "?";
    }
    AnyPartMatchesSplit(value, field, current);
  }

  /** "a,b" matches iff a or b does. */
  lemma CommaPair(a: string, b: string, field: Field, current: int)
    requires a != "" && b != "" && ',' !in a && ',' !in b
    ensures MatchElement(a + "," + b, field, current) <==>
      MatchElement(a, field, current) || MatchElement(b, field, current)
  {
    var v := a + "," + b;
    assert v == a + [','] + b;
    ReadUntilUnique(a, ',', b);
    SplitReadUntil(v, ',');
    SplitReadUntil(b, ',');
    assert TakeNonEmpty(Split(v, ',')) == [a, b];
    CommaRule(v, field, current);
  }

  /** A list that starts with a comma never matches. */
  lemma LeadingComma(rest: string, field: Field, current: int)
    ensures !MatchElement("," + rest, field, current)
  {
    var v := "," + rest;
    ReadUntilUnique("", ',', rest);
    assert v == [] + [','] + rest;
    assert v != "*" && v != "?" && ',' in v;
    assert MatchList(v, field, current) == AnyPartMatches(v, field, current);
  }

  /** A token that is neither empty, `*`, `?` nor a list is judged by the
      number rules. */
  lemma NumberToken(value: string, field: Field, current: int)
    requires value != "" && value != "*" && value != "?" && ',' !in value
    ensures MatchElement(value, field, current) == MatchNumber(value, field, current)
  {
  }

  /** A rendered number holds none of the characters the rules look for. */
  lemma DigitsHaveNoMarks(d: string)
    requires forall k :: 0 <= k < |d| ==> IsDigit(d[k])
    ensures ',' !in d && '/' !in d && '-' !in d && ' ' !in d
  {
  }

  /** A step token a/n with n > 0 matches exactly the multiples of n in
      0 .. max of the field, whatever its start a is. */
  lemma StepRule(start: string, n: nat, field: Field, current: int)
    requires ',' !in start && '/' !in start && n > 0
    ensures MatchElement(start + "/" + Decimal(n), field, current) <==>
      0 <= current <= Hi(field) && current % n == 0
  {
    var d := Decimal(n);
    var v := start + "/" + d;
    DigitsHaveNoMarks(d);
    StepShape(start, d);
    NumberToken(v, field, current);
    ToIntDecimal(n);
    StepNumber(v, |start|, n, field, current);
  }

  /** The shape of a step token: a start free of `,` and `/`, then `/`,
      then an interval text free of `,`. */
  lemma StepShape(start: string, d: string)
    requires ',' !in start && '/' !in start && ',' !in d
    ensures var v := start + "/" + d;
      v != "" && v != "*" && v != "?" && ',' !in v && '/' in v &&
      IndexOf(v, '/') == |start| && v[|start| + 1..] == d
  {
    var v := start + "/" + d;
    assert v == start + ['/'] + d;
    assert v != "*" && v != "?" by {
      assert '/' !in "*" && '/' !in "?";
    }
    ReadUntilUnique(start, '/', d);
    assert v[|start| + 1..] == d;
  }

  /** A step token whose interval text does not read as a positive number
      (`0`, nothing at all, or `x` after the slash) matches no reading: the
      rule gives up rather than run the loop (`StepLoopHangs` shows the loop
      as written). */
  lemma MalformedStep(start: string, interval: string, field: Field, current: int)
    requires ',' !in start && '/' !in start && ',' !in interval
    requires ToInt(interval) <= 0
    ensures !MatchElement(start + "/" + interval, field, current)
  {
    var v := start + "/" + interval;
    StepShape(start, interval);
    NumberToken(v, field, current);
  }

  /** The step rule once the interval is read: the loop from 0 in steps of
      n up to the field's maximum reaches exactly the multiples of n. */
  lemma StepNumber(v: string, i: nat, n: nat, field: Field, current: int)
    requires '/' in v && IndexOf(v, '/') == i && ToInt(v[i + 1..]) == n && n > 0
    ensures MatchNumber(v, field, current) <==> 0 <= current <= Hi(field) && current % n == 0
  {
    StepBranch(v, n, field, current);
    StepFromZero(n, Hi(field), current);
  }

  /** With the interval read as n > 0, the step rule is the loop from 0. */
  lemma StepBranch(v: string, n: nat, field: Field, current: int)
    requires '/' in v && ToInt(v[IndexOf(v, '/') + 1..]) == n && n > 0
    ensures MatchNumber(v, field, current) == StepReaches(0, n, Hi(field), current)
  {
  }

  lemma StepFromZero(n: int, hi: int, current: int)
    requires n > 0
    ensures StepReaches(0, n, hi, current) <==> 0 <= current <= hi && current % n == 0
  {
    StepReachesIff(0, n, hi, current);
    assert current - 0 == current;
  }

  /** A range token a-b matches iff clamp(a) <= current <= clamp(b); there is
      no wrap-around, so a range whose clamped start exceeds its clamped end
      matches nothing. */
  lemma RangeRule(a: nat, b: nat, field: Field, current: int)
    ensures MatchElement(Decimal(a) + "-" + Decimal(b), field, current) <==>
      Clamp(a, field) <= current <= Clamp(b, field)
  {
    var da, db := Decimal(a), Decimal(b);
    var v := da + "-" + db;
    assert v == da + ['-'] + db;
    DigitsHaveNoMarks(da);
    DigitsHaveNoMarks(db);
    assert '-' in v && ',' !in v && '/' !in v;
    assert v != "*" && v != "?" by {
      assert '-' !in "*" && '-' !in "?";
    }
    NumberToken(v, field, current);
    ReadUntilUnique(da, '-', db);
    assert v[..|da|] == da && v[|da| + 1..] == db;
    ToIntDecimal(a);
    ToIntDecimal(b);
  }

  /** A negative number is read as a range from 0: "-5" means "0-5". */
  lemma NegativeLiteral(b: nat, field: Field, current: int)
    ensures MatchElement("-" + Decimal(b), field, current) <==>
      Clamp(0, field) <= current <= Clamp(b, field)
  {
    var db := Decimal(b);
    var v := "-" + db;
    assert v == [] + ['-'] + db;
    DigitsHaveNoMarks(db);
    assert '-' in v && ',' !in v && '/' !in v;
    assert v != "*" && v != "?" by {
      assert '-' !in "*" && '-' !in "?";
    }
    NumberToken(v, field, current);
    ReadUntilUnique([], '-', db);
    assert v[1..] == db && v[..0] == "";
    ToIntDecimal(b);
    ToIntNoNumber("");
  }

  /** A number matches iff its clamped value is the current reading. */
  lemma LiteralRule(a: nat, field: Field, current: int)
    ensures MatchElement(Decimal(a), field, current) <==> Clamp(a, field) == current
  {
    var d := Decimal(a);
    DigitsHaveNoMarks(d);
    assert d != "*" && d != "?" by {
      assert !IsDigit('*') && !IsDigit('?');
      assert IsDigit(d[0]);
    }
    NumberToken(d, field, current);
    ToIntDecimal(a);
  }

  /** A token that is not a number is not rejected: it reads as 0, clamped. */
  lemma MalformedLiteral(value: string, field: Field, current: int)
    requires value != "" && value != "*" && !((field == Day || field == Weekday) && value == "?")
    requires ',' !in value && '/' !in value && '-' !in value
    requires !(IsSpace(value[0]) || IsDigit(value[0]) || value[0] == '+')
    ensures MatchElement(value, field, current) <==> Clamp(0, field) == current
  {
    ToIntNoNumber(value);
  }

  /** The empty token matches only the year; `*` matches everything; `?` is a
      wildcard for day and weekday, and elsewhere falls through to the number
      rule, where it reads as 0. */
  lemma SpecialTokens(field: Field, current: int)
    ensures MatchElement("", field, current) <==> field == Year
    ensures MatchElement("*", field, current)
    ensures MatchElement("?", field, current) <==>
      field == Day || field == Weekday || Clamp(0, field) == current
  {
    if !(field == Day || field == Weekday) {
      MalformedLiteral("?", field, current);
    }
  }
}
