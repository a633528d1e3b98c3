/** The byte layout of the alarm table in the store: a table delimiter, the
    records separated by record delimiters, a closing table delimiter; the
    scan that reads it back; and what writing that layout does to the store. */
module Codec {
  import opened Strings

  /** The records laid end to end, `sep` between neighbours: their bytes
      and one separator between each two. */
  function Join(rs: seq<Text>, sep: Byte): (t: Text)
    ensures |t| == SumLengths(rs) + (if |rs| > 0 then |rs| - 1 else 0)
  {
    if rs == [] then []
    else if |rs| == 1 then rs[0]
    else rs[0] + [sep] + Join(rs[1..], sep)
  }

  /** The bytes `save` writes from address 0 on. */
  function Image(rs: seq<Text>, td: Byte, rd: Byte): (t: Text)
    ensures |t| == Length(rs)
  {
    [td] + Join(rs, rd) + [td]
  }

  /** The image of the empty list: the two table delimiters. */
  lemma EmptyImage(td: Byte, rd: Byte)
    ensures Image([], td, rd) == [td] + [td]
  {
  }

  function SumLengths(rs: seq<Text>): nat
  {
    if rs == [] then 0 else |rs[0]| + SumLengths(rs[1..])
  }

  /** `length()`: two table delimiters, one record delimiter between each
      two records, and the bytes of the records; that is, the joined records
      and two more bytes, whatever the record delimiter is. */
  function Length(rs: seq<Text>): (n: nat)
    ensures forall sep: Byte :: n == |Join(rs, sep)| + 2
  {
    2 + (if |rs| > 0 then |rs| - 1 else 0) + SumLengths(rs)
  }

  /** A record the layout can carry: not empty, and free of both delimiters. */
  predicate Storable(r: Text, td: Byte, rd: Byte)
  {
    r != [] && td !in r && rd !in r
  }

  predicate AllStorable(rs: seq<Text>, td: Byte, rd: Byte)
  {
    forall k :: 0 <= k < |rs| ==> Storable(rs[k], td, rd)
  }

  /** What `load` collects: the records, and whether the closing table
      delimiter was found before the end of the store. */
  datatype ScanResult = ScanResult(records: seq<Text>, terminated: bool)

  /** A finished record is kept only when it is not empty. */
  function Keep(pending: Text): (r: seq<Text>)
  {
    if pending == [] then [] else [pending]
  }

  /** The loop of `load` from address i on, with the record read so far in
      `pending`, over the cells below `limit`. */
  function ScanTable(s: seq<Byte>, i: nat, limit: nat, pending: Text, td: Byte, rd: Byte): (r: ScanResult)
    requires limit <= |s|
    ensures |r.records| <= (if i < limit then limit - i else 0) + (if pending == [] then 0 else 1)
    decreases limit - i
  {
    if i >= limit then ScanResult([], false)
    else if s[i] == rd then
      var rest := ScanTable(s, i + 1, limit, [], td, rd);
      ScanResult(Keep(pending) + rest.records, rest.terminated)
    else if s[i] == td then ScanResult(Keep(pending), true)
    else ScanTable(s, i + 1, limit, pending + [s[i]], td, rd)
  }

  /** The store after the bytes `written` were put at addresses 0, 1, ...:
      the same size, the written bytes read back from address 0 on, and
      every cell that changed lies among them. */
  function Overlay(before: seq<Byte>, written: seq<Byte>): (after: seq<Byte>)
    requires |written| <= |before|
    ensures |after| == |before| && after[..|written|] == written
    ensures forall k :: 0 <= k < |before| && after[k] != before[k] ==> k < |written|
  {
    written + before[|written|..]
  }

  /** The write count of every cell after `written` was put over `before`
      through the write-if-changed helper: a cell is worn only when its
      byte changes. */
  function Worn(wear: seq<nat>, before: seq<Byte>, written: seq<Byte>): (w: seq<nat>)
    requires |written| <= |before| == |wear|
    ensures |w| == |wear|
    ensures forall k :: 0 <= k < |wear| ==> wear[k] <= w[k] <= wear[k] + 1
    ensures forall k :: |written| <= k < |wear| ==> w[k] == wear[k]
  {
    seq(|wear|, k requires 0 <= k < |wear| =>
      if k < |written| && before[k] != written[k] then wear[k] + 1 else wear[k])
  }

  // ---------------------------------------------------------------------
  // length() predicts what save() writes

  /** Appending one record: the joined text grows by a separator and the record. */
  lemma {:induction false} JoinSnoc(rs: seq<Text>, r: Text, sep: Byte)
    requires rs != []
    ensures Join(rs + [r], sep) == Join(rs, sep) + [sep] + r
  {
    if |rs| == 1 {
      assert rs + [r] == [rs[0], r];
    } else {
      assert (rs + [r])[1..] == rs[1..] + [r];
      JoinSnoc(rs[1..], r, sep);
    }
  }

  lemma {:induction false} SumLengthsAppend(a: seq<Text>, b: seq<Text>)
    ensures SumLengths(a + b) == SumLengths(a) + SumLengths(b)
  {
    if a != [] {
      assert (a + b)[1..] == a[1..] + b;
      SumLengthsAppend(a[1..], b);
    } else {
      assert a + b == b;
    }
  }

  /** The records before position k take no more room than all of them. */
  lemma JoinPrefixLength(rs: seq<Text>, k: nat, sep: Byte)
    requires 1 <= k <= |rs|
    ensures |Join(rs[..k], sep)| <= |Join(rs, sep)|
  {
    assert rs == rs[..k] + rs[k..];
    SumLengthsAppend(rs[..k], rs[k..]);
  }

  /** `save` writes record i after the table delimiter and records before
      it, preceded by a record delimiter unless it is the first, and the
      closing table delimiter is still to come. */
  lemma ImageStep(rs: seq<Text>, i: nat, td: Byte, rd: Byte)
    requires i < |rs|
    ensures [td] + Join(rs[..i + 1], rd) ==
      [td] + Join(rs[..i], rd) + (if i != 0 then [rd] else []) + rs[i]
    ensures |[td] + Join(rs[..i + 1], rd)| < |Image(rs, td, rd)|
  {
    JoinPrefixLength(rs, i + 1, rd);
    assert rs[..i + 1] == rs[..i] + [rs[i]];
    if i != 0 {
      JoinSnoc(rs[..i], rs[i], rd);
    } else {
      assert rs[..1] == [rs[0]];
    }
  }

  /** After the last record only the closing table delimiter remains. */
  lemma ImageDone(rs: seq<Text>, td: Byte, rd: Byte)
    ensures [td] + Join(rs[..|rs|], rd) + [td] == Image(rs, td, rd)
  {
    assert rs[..|rs|] == rs;
  }

  /** The capacity test of `add`: for a non-empty list, the new length is
      exactly the old length plus the record and one delimiter; for an empty
      list the test reserves one byte the layout does not use. */
  lemma AddLength(rs: seq<Text>, v: Text)
    ensures rs != [] ==> Length(rs + [v]) == Length(rs) + |v| + 1
    ensures rs == [] ==> Length(rs + [v]) == Length(rs) + |v|
  {
    SumLengthsAppend(rs, [v]);
    assert SumLengths([v]) == |v|;
  }

  /** Removing a record never makes the table longer. */
  lemma LengthRemove(rs: seq<Text>, k: nat)
    requires k < |rs|
    ensures Length(rs[..k] + rs[k + 1..]) <= Length(rs)
  {
    assert rs == rs[..k] + [rs[k]] + rs[k + 1..];
    SumLengthsAppend(rs[..k], [rs[k]]);
    SumLengthsAppend(rs[..k] + [rs[k]], rs[k + 1..]);
    SumLengthsAppend(rs[..k], rs[k + 1..]);
  }

  // ---------------------------------------------------------------------
  // load() reads back what save() wrote

  /** The bytes of a record are collected one by one. */
  lemma {:induction false} ScanRecord(s: seq<Byte>, i: nat, limit: nat, pending: Text, r: Text, td: Byte, rd: Byte)
    requires td !in r && rd !in r
    requires i + |r| <= limit <= |s| && s[i..i + |r|] == r
    ensures ScanTable(s, i, limit, pending, td, rd) == ScanTable(s, i + |r|, limit, pending + r, td, rd)
    decreases |r|
  {
    if r != [] {
      assert s[i] == r[0];
      assert s[i + 1..i + |r|] == r[1..];
      ScanRecord(s, i + 1, limit, pending + [r[0]], r[1..], td, rd);
      assert pending + [r[0]] + r[1..] == pending + r;
    } else {
      assert pending + r == pending;
    }
  }

  /** The records stored from address i on: each followed by a record
      delimiter, the last one by the table delimiter. */
  predicate Laid(s: seq<Byte>, i: nat, rs: seq<Text>, td: Byte, rd: Byte)
    decreases |rs|
  {
    rs != [] && i + |rs[0]| < |s| && s[i..i + |rs[0]|] == rs[0] &&
    if |rs| == 1 then s[i + |rs[0]|] == td
    else s[i + |rs[0]|] == rd && Laid(s, i + |rs[0]| + 1, rs[1..], td, rd)
  }

  /** Scanning storable records laid out that way yields them, terminated. */
  lemma {:induction false} ScanJoin(s: seq<Byte>, i: nat, limit: nat, rs: seq<Text>, td: Byte, rd: Byte)
    requires td != rd && AllStorable(rs, td, rd) && limit <= |s|
    requires Laid(s, i, rs, td, rd) && i + SumLengths(rs) + |rs| <= limit
    ensures ScanTable(s, i, limit, [], td, rd) == ScanResult(rs, true)
    decreases |rs|
  {
    var r := rs[0];
    assert Storable(r, td, rd);
    if |rs| == 1 {
      ScanLast(s, i, limit, r, td, rd);
    } else {
      var tail := rs[1..];
      StorableTail(rs, td, rd);
      ScanJoin(s, i + |r| + 1, limit, tail, td, rd);
      ScanNext(s, i, limit, r, tail, td, rd);
      assert [r] + tail == rs;
    }
  }

  /** Where the joined records and a closing table delimiter are stored,
      the records are laid out one after the other. */
  lemma JoinLaid(s: seq<Byte>, i: nat, rs: seq<Text>, td: Byte, rd: Byte)
    requires rs != []
    requires i + |Join(rs, rd)| + 1 <= |s| && s[i..i + |Join(rs, rd)| + 1] == Join(rs, rd) + [td]
    ensures Laid(s, i, rs, td, rd)
  {
    JoinLaidSelf(rs, td, rd);
    LaidTransfer(Join(rs, rd) + [td], s, i, 0, i, rs, td, rd);
  }

  /** The joined records followed by a table delimiter are laid out from 0. */
  lemma {:induction false} JoinLaidSelf(rs: seq<Text>, td: Byte, rd: Byte)
    requires rs != []
    ensures Laid(Join(rs, rd) + [td], 0, rs, td, rd)
    decreases |rs|
  {
    var r := rs[0];
    var x := Join(rs, rd) + [td];
    if |rs| == 1 {
      assert x == r + [td];
      assert x[..|r|] == r;
    } else {
      var y := Join(rs[1..], rd) + [td];
      JoinFirst(rs, td, rd);
      assert x == (r + [rd]) + y;
      JoinLaidSelf(rs[1..], td, rd);
      var e := |r| + 1;
      LaidTransfer(y, x, e, 0, e, rs[1..], td, rd);
      assert x[..|r|] == r;
      LaidCons(x, 0, e, rs, td, rd);
    }
  }

  /** A layout found in a copy of part of the store is found in the store. */
  lemma {:induction false} LaidTransfer(x: seq<Byte>, s: seq<Byte>, i: nat, j: nat, k: nat, rs: seq<Text>, td: Byte, rd: Byte)
    requires i + |x| <= |s| && s[i..i + |x|] == x && k == i + j
    requires Laid(x, j, rs, td, rd)
    ensures Laid(s, k, rs, td, rd)
    decreases |rs|
  {
    var r := rs[0];
    assert j + |r| < |x| && x[j..j + |r|] == r;
    SliceOfSlice(s, i, i + |x|, j, j + |r|);
    assert s[i..i + |x|][j + |r|] == s[k + |r|];
    if |rs| > 1 {
      LaidTransfer(x, s, i, j + |r| + 1, k + |r| + 1, rs[1..], td, rd);
      LaidCons(s, k, k + |r| + 1, rs, td, rd);
    }
  }

  /** One more record in front, closed by a record delimiter. */
  lemma LaidCons(s: seq<Byte>, i: nat, e: nat, rs: seq<Text>, td: Byte, rd: Byte)
    requires |rs| > 1 && i + |rs[0]| < |s| && e == i + |rs[0]| + 1
    requires s[i..i + |rs[0]|] == rs[0] && s[i + |rs[0]|] == rd
    requires Laid(s, e, rs[1..], td, rd)
    ensures Laid(s, i, rs, td, rd)
  {
  }

  /** The joined text of two or more records starts with the first record
      and a separator. */
  lemma JoinFirst(rs: seq<Text>, td: Byte, rd: Byte)
    requires |rs| > 1
    ensures Join(rs, rd) + [td] == rs[0] + [rd] + (Join(rs[1..], rd) + [td])
    ensures |Join(rs, rd)| + 1 == |rs[0]| + |[rd]| + |Join(rs[1..], rd) + [td]|
  {
  }

  lemma StorableTail(rs: seq<Text>, td: Byte, rd: Byte)
    requires rs != [] && AllStorable(rs, td, rd)
    ensures AllStorable(rs[1..], td, rd)
  {
    forall k | 0 <= k < |rs| - 1 ensures Storable(rs[1..][k], td, rd) {
      assert rs[1..][k] == rs[k + 1];
    }
  }

  /** The last record, closed by the table delimiter. */
  lemma ScanLast(s: seq<Byte>, i: nat, limit: nat, r: Text, td: Byte, rd: Byte)
    requires td != rd && Storable(r, td, rd)
    requires i + |r| < limit <= |s| && s[i..i + |r|] == r && s[i + |r|] == td
    ensures ScanTable(s, i, limit, [], td, rd) == ScanResult([r], true)
  {
    ScanRecord(s, i, limit, [], r, td, rd);
    assert [] + r == r;
  }

  /** A record closed by the record delimiter, followed by the others. */
  lemma ScanNext(s: seq<Byte>, i: nat, limit: nat, r: Text, tail: seq<Text>, td: Byte, rd: Byte)
    requires td != rd && Storable(r, td, rd)
    requires i + |r| < limit <= |s| && s[i..i + |r|] == r && s[i + |r|] == rd
    requires ScanTable(s, i + |r| + 1, limit, [], td, rd) == ScanResult(tail, true)
    ensures ScanTable(s, i, limit, [], td, rd) == ScanResult([r] + tail, true)
  {
    ScanRecord(s, i, limit, [], r, td, rd);
    assert [] + r == r;
  }

  /** A slice of a slice is a slice. */
  lemma SliceOfSlice(s: seq<Byte>, a: nat, b: nat, c: nat, d: nat)
    requires a <= b <= |s| && c <= d <= b - a
    ensures s[a..b][c..d] == s[a + c..a + d]
  {
    forall k | 0 <= k < d - c
      ensures s[a..b][c..d][k] == s[a + c..a + d][k]
    {
    }
  }

  /** The round trip: a store that begins with the image of storable records
      that fit reads back as exactly those records, in order, and the scan
      ends at the closing delimiter. */
  lemma RoundTrip(s: seq<Byte>, rs: seq<Text>, limit: nat, td: Byte, rd: Byte)
    requires td != rd && AllStorable(rs, td, rd)
    requires Length(rs) <= limit <= |s|
    requires s[..Length(rs)] == Image(rs, td, rd)
    ensures s[0] == td
    ensures ScanTable(s, 1, limit, [], td, rd) == ScanResult(rs, true)
  {
    var img := Image(rs, td, rd);
    assert s[0] == img[0];
    if rs == [] {
      assert s[1] == img[1] == td;
    } else {
      var j := Join(rs, rd);
      assert s[1..1 + |j| + 1] == img[1..] == j + [td];
      JoinLaid(s, 1, rs, td, rd);
      ScanJoin(s, 1, limit, rs, td, rd);
    }
  }

  /** What `load` appends always fits: the records found in the cells below
      `limit`, with their delimiters, never need more than those cells. */
  lemma {:induction false} ScanCost(s: seq<Byte>, i: nat, limit: nat, pending: Text, td: Byte, rd: Byte)
    requires limit <= |s|
    ensures var r := ScanTable(s, i, limit, pending, td, rd);
      SumLengths(r.records) + |r.records| <= |pending| + (if i < limit then limit - i else 0)
    decreases limit - i
  {
    if i < limit {
      if s[i] == rd {
        var rest := ScanTable(s, i + 1, limit, [], td, rd);
        ScanCost(s, i + 1, limit, [], td, rd);
        SumLengthsAppend(Keep(pending), rest.records);
      } else if s[i] == td {
      } else {
        ScanCost(s, i + 1, limit, pending + [s[i]], td, rd);
      }
    }
  }

  /** The scan finds the end of the table iff a table delimiter lies in the
      cells it reads; record delimiters never stop it. */
  lemma {:induction false} ScanTerminated(s: seq<Byte>, i: nat, limit: nat, pending: Text, td: Byte, rd: Byte)
    requires td != rd && limit <= |s|
    ensures ScanTable(s, i, limit, pending, td, rd).terminated <==> exists k :: i <= k < limit && s[k] == td
    decreases limit - i
  {
    if i < limit && s[i] != td {
      ScanTerminated(s, i + 1, limit, if s[i] == rd then [] else pending + [s[i]], td, rd);
      if exists k :: i <= k < limit && s[k] == td {
        var k :| i <= k < limit && s[k] == td;
        assert i + 1 <= k;
      }
    }
  }

  /** The records `load` reads fit the capacity they were read from. */
  lemma ScanFits(s: seq<Byte>, limit: nat, td: Byte, rd: Byte)
    requires 2 <= limit <= |s|
    ensures Length(ScanTable(s, 1, limit, [], td, rd).records) <= limit
  {
    ScanCost(s, 1, limit, [], td, rd);
  }

  /** The records `load` reads are storable: delimiters end records and
      empty records are dropped. */
  lemma {:induction false} ScanStorable(s: seq<Byte>, i: nat, limit: nat, pending: Text, td: Byte, rd: Byte)
    requires limit <= |s| && td !in pending && rd !in pending
    ensures AllStorable(ScanTable(s, i, limit, pending, td, rd).records, td, rd)
    decreases limit - i
  {
    if i < limit {
      if s[i] == rd {
        ScanStorable(s, i + 1, limit, [], td, rd);
      } else if s[i] != td {
        ScanStorable(s, i + 1, limit, pending + [s[i]], td, rd);
      }
    }
  }

  /** Appending what `load` reads keeps a list of storable records
      storable, and an empty list ends up fitting the capacity. */
  lemma LoadedRecords(before: seq<Text>, s: seq<Byte>, limit: nat, td: Byte, rd: Byte)
    requires 2 <= limit <= |s|
    ensures var records := ScanTable(s, 1, limit, [], td, rd).records;
      (AllStorable(before, td, rd) ==> AllStorable(before + records, td, rd)) &&
      (before == [] ==> Length(before + records) <= limit)
  {
    var records := ScanTable(s, 1, limit, [], td, rd).records;
    ScanFits(s, limit, td, rd);
    ScanStorable(s, 1, limit, [], td, rd);
    assert [] + records == records;
  }

  /** An empty record is written as a bare delimiter and is lost on reading:
      a table holding only "" reads back as no records. */
  lemma EmptyRecordLost(s: seq<Byte>, limit: nat, td: Byte, rd: Byte)
    requires td != rd && Length([[]]) <= limit <= |s|
    requires s[..Length([[]])] == Image([[]], td, rd)
    ensures ScanTable(s, 1, limit, [], td, rd) == ScanResult([], true)
  {
    assert Image([[]], td, rd) == [td, td];
    assert s[1] == td;
  }

  // ---------------------------------------------------------------------
  // the write-if-changed helper

  /** The image opens with a table delimiter at address 0, closes with one
      at address `length() - 1`, and holds the joined records between. */
  lemma ImageShape(rs: seq<Text>, td: Byte, rd: Byte)
    ensures var t := Image(rs, td, rd);
      t[0] == td && t[Length(rs) - 1] == td && t[1..Length(rs) - 1] == Join(rs, rd)
  {
  }

  /** Writing the same image again changes nothing and wears no cell. */
  lemma RewriteNoWear(wear: seq<nat>, before: seq<Byte>, written: seq<Byte>)
    requires |written| <= |before| == |wear|
    ensures Overlay(Overlay(before, written), written) == Overlay(before, written)
    ensures Worn(wear, Overlay(before, written), written) == wear
  {
  }

  /** The physical writes counted over all cells. */
  function Total(w: seq<nat>): nat
  {
    if w == [] then 0 else w[0] + Total(w[1..])
  }

  /** Writing `written` costs at most one physical write per byte written:
      the total wear never falls and grows by at most `|written|`, so a save
      wears the store by at most `length()` writes. */
  lemma SaveWear(wear: seq<nat>, before: seq<Byte>, written: seq<Byte>)
    requires |written| <= |before| == |wear|
    ensures Total(wear) <= Total(Worn(wear, before, written)) <= Total(wear) + |written|
  {
    TotalBound(wear, Worn(wear, before, written), |written|);
  }

  /** Cell by cell growth of at most one in the first n cells, and none
      elsewhere, bounds the growth of the total by n. */
  lemma {:induction false} TotalBound(a: seq<nat>, b: seq<nat>, n: nat)
    requires |a| == |b|
    requires forall k :: 0 <= k < |a| ==> a[k] <= b[k] <= a[k] + (if k < n then 1 else 0)
    ensures Total(a) <= Total(b) <= Total(a) + n
    decreases |a|
  {
    if a != [] {
      var m := if n > 0 then n - 1 else 0;
      forall k | 0 <= k < |a| - 1
        ensures a[1..][k] <= b[1..][k] <= a[1..][k] + (if k < m then 1 else 0)
      {
        assert a[1..][k] == a[k + 1] && b[1..][k] == b[k + 1];
      }
      TotalBound(a[1..], b[1..], m);
    }
  }

  /** One more byte written: the overlay grows by one cell. */
  lemma OverlayStep(before: seq<Byte>, written: seq<Byte>, b: Byte)
    requires |written| < |before|
    ensures Overlay(before, written)[|written| := b] == Overlay(before, written + [b])
    ensures Overlay(before, written)[|written|] == before[|written|]
  {
  }

  /** One more byte written: the wear of that cell moves when its byte changes. */
  lemma WornStep(wear: seq<nat>, before: seq<Byte>, written: seq<Byte>, b: Byte)
    requires |written| < |before| == |wear|
    ensures var n := |written|; var w := Worn(wear, before, written);
      (if before[n] != b then w[n := w[n] + 1] else w) == Worn(wear, before, written + [b])
  {
  }
}
