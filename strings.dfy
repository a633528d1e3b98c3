/** The pieces of Arduino's `String` and of a `StringStream` that the alarm
    code relies on: `indexOf`, `readStringUntil`, `toInt`, over byte strings. */
module Strings {

  /** A byte, written as the 8-bit character it holds (an Arduino `char`). */
  type Byte = c: char | c as int < 256 witness '\0'

  /** The text of an Arduino `String`. */
  type Text = seq<Byte>

  /** `s.indexOf(c)`: the first position of c in s, or -1. */
  function IndexOf(s: string, c: char): (i: int)
    ensures -1 <= i < |s|
    ensures i == -1 <==> c !in s
    ensures i >= 0 ==> s[i] == c && c !in s[..i]
  {
    if |s| == 0 then -1
    else if s[0] == c then 0
    else
      var j := IndexOf(s[1..], c);
      assert j >= 0 ==> s[..j + 1] == [s[0]] + s[1..][..j];
      if j < 0 then -1 else j + 1
  }

  /** One `readStringUntil(terminator)` on a stream holding s: the characters
      before the first terminator (all of s if there is none), and what the
      stream holds afterwards, the terminator consumed. */
  function ReadUntil(s: string, terminator: char): (r: (string, string))
    ensures terminator !in r.0
    ensures terminator in s ==> s == r.0 + [terminator] + r.1
    ensures terminator !in s ==> r == (s, "")
  {
    var i := IndexOf(s, terminator);
    if i < 0 then (s, "") else (s[..i], s[i + 1..])
  }

  /** The parts of s between separators, as a reference for the stream reads:
      "a,,b" splits into ["a", "", "b"], "" into [""]. */
  function Split(s: string, sep: char): (parts: seq<string>)
    ensures |parts| >= 1
    decreases |s|
  {
    if s == [] then [""]
    else
      var rest := Split(s[1..], sep);
      if s[0] == sep then [""] + rest else [[s[0]] + rest[0]] + rest[1..]
  }

  /** The parts before the first empty one. */
  function TakeNonEmpty(parts: seq<string>): (r: seq<string>)
    ensures |r| <= |parts| && r == parts[..|r|]
    ensures forall k :: 0 <= k < |r| ==> r[k] != ""
    ensures |r| < |parts| ==> parts[|r|] == ""
  {
    if parts == [] || parts[0] == "" then []
    else [parts[0]] + TakeNonEmpty(parts[1..])
  }

  /** A read from the stream yields the first part of the split, and the
      stream is left holding the remaining parts. */
  lemma {:induction false} SplitReadUntil(s: string, sep: char)
    ensures sep in s ==> Split(s, sep) == [ReadUntil(s, sep).0] + Split(ReadUntil(s, sep).1, sep)
    ensures sep !in s ==> Split(s, sep) == [s]
    decreases |s|
  {
    if s != [] {
      var t := s[1..];
      assert s == [s[0]] + t;
      SplitReadUntil(t, sep);
      if s[0] == sep {
        assert IndexOf(s, sep) == 0;
      } else {
        ReadUntilCons(s[0], t, sep);
      }
    }
  }

  /** A stream that is exhausted, or whose next character is the
      terminator, yields an empty read. */
  lemma ReadUntilEmpty(s: string, terminator: char)
    ensures s == [] || s[0] == terminator ==> ReadUntil(s, terminator).0 == []
  {
    if s != [] && s[0] == terminator {
      assert IndexOf(s, terminator) == 0;
    }
  }

  /** A character other than the terminator is simply part of what is read. */
  lemma ReadUntilCons(c: char, t: string, sep: char)
    requires c != sep
    ensures ReadUntil([c] + t, sep) == ([c] + ReadUntil(t, sep).0, ReadUntil(t, sep).1)
  {
    var s := [c] + t;
    assert s[1..] == t;
    var j := IndexOf(t, sep);
    if j >= 0 {
      assert s[..j + 1] == [c] + t[..j];
      assert s[j + 2..] == t[j + 1..];
    }
  }

  /** A read stops at the first terminator, whatever follows it. */
  lemma {:induction false} ReadUntilUnique(head: string, sep: char, tail: string)
    requires sep !in head
    ensures ReadUntil(head + [sep] + tail, sep) == (head, tail)
    ensures IndexOf(head + [sep] + tail, sep) == |head|
    decreases |head|
  {
    var s := head + [sep] + tail;
    if head == [] {
      assert s == [sep] + tail;
      assert IndexOf(s, sep) == 0;
    } else {
      ReadUntilUnique(head[1..], sep, tail);
      var rest := head[1..] + [sep] + tail;
      assert s == [head[0]] + rest;
      assert s[0] == head[0] != sep && s[1..] == rest;
      ReadUntilCons(head[0], rest, sep);
      assert [head[0]] + head[1..] == head;
    }
  }

  predicate IsDigit(c: char) { '0' <= c <= '9' }

  /** The characters C's `isspace` accepts: space, and tab through carriage return. */
  predicate IsSpace(c: char) { c == ' ' || 9 <= c as int <= 13 }

  function DigitValue(c: char): (v: int)
    ensures IsDigit(c) ==> 0 <= v <= 9
  {
    c as int - '0' as int
  }

  /** The input without its leading white space. */
  function SkipSpace(s: string): (t: string)
    ensures |t| <= |s| && t == s[|s| - |t|..]
    ensures t == [] || !IsSpace(t[0])
  {
    if s != [] && IsSpace(s[0]) then SkipSpace(s[1..]) else s
  }

  /** The longest prefix of s made of decimal digits. */
  function DigitPrefix(s: string): (d: string)
    ensures |d| <= |s| && d == s[..|d|]
    ensures forall k :: 0 <= k < |d| ==> IsDigit(d[k])
    ensures |d| < |s| ==> !IsDigit(s[|d|])
  {
    if s != [] && IsDigit(s[0]) then [s[0]] + DigitPrefix(s[1..]) else []
  }

  /** The number a string of decimal digits denotes. */
  function DigitsValue(d: string): nat
    requires forall k :: 0 <= k < |d| ==> IsDigit(d[k])
  {
    if d == [] then 0
    else
      assert IsDigit(d[|d| - 1]);
      DigitsValue(d[..|d| - 1]) * 10 + DigitValue(d[|d| - 1])
  }

  /** `String::toInt`, that is C's `atol`: leading white space, an optional
      sign, then the longest run of decimal digits; 0 when there are none.
      A text without digits reads as 0, and only a minus sign makes the
      number negative. */
  function ToInt(s: string): (n: int)
    ensures n < 0 ==> '-' in s
  {
    var t := SkipSpace(s);
    assert t != [] ==> t[0] == s[|s| - |t|];
    assert |t| > 1 ==> t[1] == s[|s| - |t| + 1];
    if t != [] && t[0] == '-' then 0 - DigitsValue(DigitPrefix(t[1..]))
    else if t != [] && t[0] == '+' then DigitsValue(DigitPrefix(t[1..]))
    else DigitsValue(DigitPrefix(t))
  }

  /** The decimal rendering of n, without sign or leading zeros. */
  function Decimal(n: nat): (d: string)
    ensures d != []
    ensures forall k :: 0 <= k < |d| ==> IsDigit(d[k])
  {
    var last := ['0' + (n % 10) as char];
    if n < 10 then last else Decimal(n / 10) + last
  }

  /** A text that starts with neither white space, a sign nor a digit holds
      no number, and reads as 0. */
  lemma ToIntNoNumber(s: string)
    requires s == [] || !(IsSpace(s[0]) || IsDigit(s[0]) || s[0] == '-' || s[0] == '+')
    ensures ToInt(s) == 0
  {
  }

  /** Reading the rendering of n gives n back. */
  lemma {:induction false} ToIntDecimal(n: nat)
    ensures ToInt(Decimal(n)) == n
  {
    var d := Decimal(n);
    assert SkipSpace(d) == d;
    AllDigitsPrefix(d);
    DecimalValue(n);
  }

  lemma {:induction false} DecimalValue(n: nat)
    ensures DigitsValue(Decimal(n)) == n
  {
    var d := Decimal(n);
    if n >= 10 {
      DecimalValue(n / 10);
      assert d[..|d| - 1] == Decimal(n / 10);
    }
  }

  lemma {:induction false} AllDigitsPrefix(d: string)
    requires forall k :: 0 <= k < |d| ==> IsDigit(d[k])
    ensures DigitPrefix(d) == d
  {
    if d != [] {
      AllDigitsPrefix(d[1..]);
    }
  }
}
