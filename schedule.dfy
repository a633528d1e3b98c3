/** One alarm against the clock: the field loop inside `check`, which reads
    the alarm's space-separated tokens one by one and matches each against
    minute, hour, day, month, weekday and year in turn. */
module Schedule {
  import opened Fields
  import opened Strings
  import opened Matcher

  /** The first n parts, padded with empty tokens once the parts run out:
      what n successive reads from the stream return. */
  function Fill(parts: seq<string>, n: nat): (ts: seq<string>)
    ensures |ts| == n
  {
    if n == 0 then []
    else if parts == [] then [""] + Fill([], n - 1)
    else [parts[0]] + Fill(parts[1..], n - 1)
  }

  /** The k-th read returns the k-th part, or an empty token past the last. */
  lemma {:induction false} FillAt(parts: seq<string>, n: nat, k: nat)
    requires k < n
    ensures Fill(parts, n)[k] == if k < |parts| then parts[k] else ""
    decreases n
  {
    if k > 0 {
      if parts == [] {
        FillAt([], n - 1, k - 1);
      } else {
        FillAt(parts[1..], n - 1, k - 1);
      }
    }
  }

  /** Every read, at once. */
  lemma FillEvery(parts: seq<string>, n: nat)
    ensures forall k :: 0 <= k < n ==> Fill(parts, n)[k] == (if k < |parts| then parts[k] else "")
  {
    forall k | 0 <= k < n
      ensures Fill(parts, n)[k] == (if k < |parts| then parts[k] else "")
    {
      FillAt(parts, n, k);
    }
  }

  /** The six tokens an alarm is matched by: its space-separated parts, the
      missing ones empty, those past the sixth ignored. */
  function Tokens(alarm: string): (ts: seq<string>)
    ensures |ts| == LAST - MINUTE
    ensures forall k :: 0 <= k < |ts| ==>
      ts[k] == (if k < |Split(alarm, ' ')| then Split(alarm, ' ')[k] else "")
  {
    var parts := Split(alarm, ' ');
    FillEvery(parts, LAST - MINUTE);
    Fill(parts, LAST - MINUTE)
  }

  /** Whether the alarm pattern fires at `now`: each of its six tokens
      matches its field, minute, hour, day, month, weekday and year in turn.
      An alarm missing one of its first five tokens never fires. */
  predicate AlarmMatches(alarm: string, now: Now): (fires: bool)
    ensures fires ==> |Split(alarm, ' ')| >= 5
  {
    var n := |Split(alarm, ' ')|;
    assert n < 5 ==> Tokens(alarm)[n] == "" && FieldAt(MINUTE + n) != Year;
    forall k :: 0 <= k < LAST - MINUTE ==>
      MatchElement(Tokens(alarm)[k], FieldAt(MINUTE + k), ValueFor(FieldAt(MINUTE + k), now))
  }

  /** Every token matches the field it stands for, the first one field
      ordinal `first`. */
  function AllFrom(tokens: seq<string>, first: nat, now: Now): bool
    requires first + |tokens| <= LAST
    decreases |tokens|
  {
    tokens == [] ||
    (MatchElement(tokens[0], FieldAt(first), ValueFor(FieldAt(first), now)) &&
     AllFrom(tokens[1..], first + 1, now))
  }

  /** The token read first is the first part; the rest come from what the
      stream holds after that read. */
  lemma FillStep(rest: string, n: nat)
    requires n > 0
    ensures Fill(Split(rest, ' '), n) ==
      [ReadUntil(rest, ' ').0] + Fill(Split(ReadUntil(rest, ' ').1, ' '), n - 1)
  {
    var r := ReadUntil(rest, ' ');
    SplitReadUntil(rest, ' ');
    if ' ' in rest {
      var p := Split(rest, ' ');
      assert p[1..] == Split(r.1, ' ');
    } else {
      assert Split("", ' ') == [""];
      assert Fill([""], n - 1) == Fill([], n - 1);
    }
  }

  lemma AllFromCons(t: string, ts: seq<string>, first: nat, now: Now)
    requires first + 1 + |ts| <= LAST
    ensures AllFrom([t] + ts, first, now) ==
      (MatchElement(t, FieldAt(first), ValueFor(FieldAt(first), now)) && AllFrom(ts, first + 1, now))
  {
    assert ([t] + ts)[1..] == ts;
  }

  /** The tokens n successive reads take from a stream that holds `rest`. */
  function Reads(rest: string, n: nat): (ts: seq<string>)
    ensures |ts| == n
    decreases n
  {
    if n == 0 then []
    else
      var r := ReadUntil(rest, ' ');
      [r.0] + Reads(r.1, n - 1)
  }

  /** Reading token by token gives the padded parts of the whole string. */
  lemma {:induction false} ReadsFill(rest: string, n: nat)
    ensures Reads(rest, n) == Fill(Split(rest, ' '), n)
    decreases n
  {
    if n > 0 {
      ReadsFill(ReadUntil(rest, ' ').1, n - 1);
      FillStep(rest, n);
    }
  }

  /** One turn of the field loop of `check`: the token read from the
      stream is matched against field `element`, and the remaining fields
      are checked against what the stream holds afterwards. */
  lemma ReadsStep(rest: string, element: nat, now: Now)
    requires MINUTE <= element < LAST
    ensures var r := ReadUntil(rest, ' '); var f := FieldAt(element);
      AllFrom(Reads(rest, LAST - element), element, now) ==
      (MatchElement(r.0, f, ValueFor(f, now)) && AllFrom(Reads(r.1, LAST - (element + 1)), element + 1, now))
  {
    var r := ReadUntil(rest, ' ');
    assert Reads(rest, LAST - element) == [r.0] + Reads(r.1, LAST - (element + 1));
    AllFromCons(r.0, Reads(r.1, LAST - (element + 1)), element, now);
  }

  /** The recursive form and the quantified form of "every token matches". */
  lemma {:induction false} AllFromEvery(tokens: seq<string>, first: nat, now: Now)
    requires first + |tokens| <= LAST
    ensures AllFrom(tokens, first, now) <==>
      forall k :: 0 <= k < |tokens| ==> MatchElement(tokens[k], FieldAt(first + k), ValueFor(FieldAt(first + k), now))
    decreases |tokens|
  {
    if tokens != [] {
      var next := first + 1;
      var tail := tokens[1..];
      AllFromEvery(tail, next, now);
      if AllFrom(tokens, first, now) {
        forall k | 0 <= k < |tokens|
          ensures MatchElement(tokens[k], FieldAt(first + k), ValueFor(FieldAt(first + k), now))
        {
          if k > 0 {
            assert tokens[k] == tail[k - 1] && first + k == next + (k - 1);
          }
        }
      } else if MatchElement(tokens[0], FieldAt(first), ValueFor(FieldAt(first), now)) {
        var k :| 0 <= k < |tail| && !MatchElement(tail[k], FieldAt(next + k), ValueFor(FieldAt(next + k), now));
        assert tokens[k + 1] == tail[k] && first + (k + 1) == next + k;
      } else {
        assert tokens[0] == tokens[0] && first + 0 == first;
      }
    }
  }

  /** Reading the six tokens one by one from a stream over the alarm and
      matching each against its field decides exactly whether the alarm
      fires. */
  lemma AlarmTokens(alarm: string, now: Now)
    ensures AllFrom(Reads(alarm, LAST - MINUTE), MINUTE, now) <==> AlarmMatches(alarm, now)
  {
    var ts := Tokens(alarm);
    ReadsFill(alarm, LAST - MINUTE);
    assert Reads(alarm, LAST - MINUTE) == ts;
    AllFromEvery(ts, MINUTE, now);
  }

  /** An alarm of five tokens has no year token, and the year is not
      checked: it fires when its five tokens match. */
  lemma MissingYearMatches(alarm: string, now: Now)
    requires |Split(alarm, ' ')| == 5
    ensures AlarmMatches(alarm, now) <==>
      forall k :: 0 <= k < 5 ==>
        MatchElement(Split(alarm, ' ')[k], FieldAt(MINUTE + k), ValueFor(FieldAt(MINUTE + k), now))
  {
    var ts := Tokens(alarm);
    assert ts[5] == "" && FieldAt(MINUTE + 5) == Year;
    assert MatchElement(ts[5], Year, ValueFor(Year, now));
  }
}
