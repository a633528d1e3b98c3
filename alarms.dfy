/** The alarm manager: an ordered list of alarm patterns, persisted in a
    byte store of fixed capacity, and the scan that tells whether one of
    them fires now. */
module Alarms {
  import opened Strings
  import opened Fields
  import opened Matcher
  import opened Schedule
  import opened Codec

  /** No pattern occurs twice in the list. */
  predicate NoDuplicates(rs: seq<Text>)
  {
    forall i, j :: 0 <= i < j < |rs| ==> rs[i] != rs[j]
  }

  /** Removing one entry keeps a list free of duplicates, and removes the
      value for good. */
  lemma RemoveNoDuplicates(rs: seq<Text>, k: nat)
    requires k < |rs| && NoDuplicates(rs)
    ensures NoDuplicates(rs[..k] + rs[k + 1..])
    ensures rs[k] !in rs[..k] + rs[k + 1..]
  {
    var t := rs[..k] + rs[k + 1..];
    forall i, j | 0 <= i < j < |t| ensures t[i] != t[j] {
      var i' := if i < k then i else i + 1;
      var j' := if j < k then j else j + 1;
      assert t[i] == rs[i'] && t[j] == rs[j'];
    }
  }

  /** The field loop of `check` for one alarm: read the tokens one by one
      from a stream over the alarm, and stop at the first that does not
      match its field; the alarm fires when every field was matched. */
  method AlarmFires(alarm: string, now: Now) returns (fires: bool)
    ensures fires == AlarmMatches(alarm, now)
  {
    ghost var goal := AlarmMatches(alarm, now);
    var element := MINUTE;
    var stream := alarm;
    AlarmTokens(alarm, now);
    while element != LAST
      invariant MINUTE <= element <= LAST
      invariant goal == AllFrom(Reads(stream, LAST - element), element, now)
    {
      var r := ReadUntil(stream, ' ');
      ReadsStep(stream, element, now);
      stream := r.1;
      if !MatchElement(r.0, FieldAt(element), ValueFor(FieldAt(element), now)) {
        break;
      }
      element := element + 1;
    }
    fires := element == LAST;
  }

  class AlarmManager {
    /** The byte that opens and closes the table. */
    const tableDelimiter: Byte
    /** The byte that separates two records. */
    const recordDelimiter: Byte
    /** The number of store cells the table may use. */
    const maxLength: nat
    /** The non-volatile store, one byte per address. */
    const store: array<Byte>

    /** The alarm patterns, in the order they were added or loaded. */
    var alarms: seq<Text>
    /** How many times each store cell has been written. */
    ghost var wear: seq<nat>

    ghost predicate Valid()
      reads this
    {
      tableDelimiter != recordDelimiter &&
      2 <= maxLength <= store.Length &&
      |wear| == store.Length
    }

    /** The list fits the capacity of the store. */
    predicate Fits()
      reads this`alarms
    {
      Length(alarms) <= maxLength
    }

    constructor (store: array<Byte>, tableDelimiter: Byte, recordDelimiter: Byte, maxLength: nat)
      requires tableDelimiter != recordDelimiter && 2 <= maxLength <= store.Length
      ensures Valid() && Fits()
      ensures this.store == store && this.tableDelimiter == tableDelimiter
      ensures this.recordDelimiter == recordDelimiter && this.maxLength == maxLength
      ensures alarms == []
      ensures forall k :: 0 <= k < |wear| ==> wear[k] == 0
    {
      this.store := store;
      this.tableDelimiter := tableDelimiter;
      this.recordDelimiter := recordDelimiter;
      this.maxLength := maxLength;
      alarms := [];
      wear := seq(store.Length, _ => 0);
    }

    /** `write`: store a byte, touching the cell only when it changes. */
    method Write(index: nat, value: Byte)
      requires Valid() && index < store.Length
      modifies this`wear, store
      ensures Valid()
      ensures store[..] == old(store[..])[index := value]
      ensures wear == if old(store[index]) != value then old(wear)[index := old(wear)[index] + 1] else old(wear)
    {
      if store[index] != value {
        store[index] := value;
        wear := wear[index := wear[index] + 1];
      }
    }

    /** The store holds `written` from address 0 on, over what it held
        before (`before`), and each cell's wear moved with it. */
    ghost predicate Holds(before: seq<Byte>, wearBefore: seq<nat>, written: Text)
      reads this, store
    {
      |before| == |wearBefore| == store.Length && |written| <= store.Length &&
      store[..] == Overlay(before, written) && wear == Worn(wearBefore, before, written)
    }

    /** One `write(++index, b)` of `save`: the byte after `written`. */
    method Put(index: nat, b: Byte, ghost before: seq<Byte>, ghost wearBefore: seq<nat>, ghost written: Text)
      requires Valid() && Holds(before, wearBefore, written) && index == |written| < store.Length
      modifies this`wear, store
      ensures Valid() && Holds(before, wearBefore, written + [b])
    {
      OverlayStep(before, written, b);
      WornStep(wearBefore, before, written, b);
      Write(index, b);
    }

    /** The inner loop of `save`: the bytes of one record, at the addresses
        after `index`, which is where `written` ends. */
    method WriteRecord(index: nat, value: Text, ghost before: seq<Byte>, ghost wearBefore: seq<nat>, ghost written: Text)
      returns (last: nat)
      requires Valid() && Holds(before, wearBefore, written)
      requires index + 1 == |written| && |written| + |value| <= store.Length
      modifies this`wear, store
      ensures Valid() && Holds(before, wearBefore, written + value) && last == index + |value|
    {
      last := index;
      var j := 0;
      while j < |value|
        invariant Valid() && 0 <= j <= |value| && last == index + j
        invariant Holds(before, wearBefore, written + value[..j])
      {
        last := last + 1;
        Put(last, value[j], before, wearBefore, written + value[..j]);
        assert written + value[..j] + [value[j]] == written + value[..j + 1];
        j := j + 1;
      }
      assert value[..j] == value;
    }

    /** `save`: write the table from address 0 on. Only the cells of the
        image are written, and a cell wears only when its byte changes. */
    method Save()
      requires Valid() && Fits()
      modifies this`wear, store
      ensures Valid()
      ensures store[..] == Overlay(old(store[..]), Image(alarms, tableDelimiter, recordDelimiter))
      ensures wear == Worn(old(wear), old(store[..]), Image(alarms, tableDelimiter, recordDelimiter))
    {
      ghost var before, wearBefore := store[..], wear;
      assert Holds(before, wearBefore, []);
      Put(0, tableDelimiter, before, wearBefore, []);
      assert [] + [tableDelimiter] == [tableDelimiter] + Join(alarms[..0], recordDelimiter) by {
        assert alarms[..0] == [];
      }
      var index := 0;
      var i := 0;
      while i < |alarms|
        invariant Valid() && 0 <= i <= |alarms|
        invariant index + 1 == |[tableDelimiter] + Join(alarms[..i], recordDelimiter)|
        invariant Holds(before, wearBefore, [tableDelimiter] + Join(alarms[..i], recordDelimiter))
      {
        index := SaveRecord(i, index, before, wearBefore);
        i := i + 1;
      }
      ghost var written := [tableDelimiter] + Join(alarms[..i], recordDelimiter);
      ImageDone(alarms, tableDelimiter, recordDelimiter);
      assert |written| + 1 == Length(alarms) <= store.Length;
      index := index + 1;
      Put(index, tableDelimiter, before, wearBefore, written);
    }

    /** One pass of the outer loop of `save`: a record delimiter unless the
        record is the first, then the bytes of record i. */
    method SaveRecord(i: nat, index: nat, ghost before: seq<Byte>, ghost wearBefore: seq<nat>)
      returns (last: nat)
      requires Valid() && Fits() && i < |alarms|
      requires index + 1 == |[tableDelimiter] + Join(alarms[..i], recordDelimiter)|
      requires Holds(before, wearBefore, [tableDelimiter] + Join(alarms[..i], recordDelimiter))
      modifies this`wear, store
      ensures Valid()
      ensures last + 1 == |[tableDelimiter] + Join(alarms[..i + 1], recordDelimiter)|
      ensures Holds(before, wearBefore, [tableDelimiter] + Join(alarms[..i + 1], recordDelimiter))
    {
      ghost var written := [tableDelimiter] + Join(alarms[..i], recordDelimiter);
      ImageStep(alarms, i, tableDelimiter, recordDelimiter);
      last := index;
      if i != 0 {
        last := last + 1;
        Put(last, recordDelimiter, before, wearBefore, written);
        written := written + [recordDelimiter];
      }
      last := WriteRecord(last, alarms[i], before, wearBefore, written);
    }

    /** The store and the wear counts are what `save` leaves behind when it
        started from `before` and `wearBefore`. */
    ghost predicate Saved(before: seq<Byte>, wearBefore: seq<nat>)
      reads this, store
    {
      Holds(before, wearBefore, Image(alarms, tableDelimiter, recordDelimiter))
    }

    /** `load`: read the table back from the store and append its records to
        the list; `ok` tells whether the closing delimiter was found. A store
        that does not begin with the table delimiter is made an empty table
        instead, and the list is left as it is. */
    method Load() returns (ok: bool)
      requires Valid()
      modifies this`alarms, this`wear, store
      ensures Valid()
      ensures old(store[0]) != tableDelimiter ==>
        ok && alarms == old(alarms) && Holds(old(store[..]), old(wear), Image([], tableDelimiter, recordDelimiter))
      ensures old(store[0]) == tableDelimiter ==>
        var scan := ScanTable(old(store[..]), 1, maxLength, [], tableDelimiter, recordDelimiter);
        ok == scan.terminated && alarms == old(alarms) + scan.records &&
        store[..] == old(store[..]) && wear == old(wear)
      ensures AllStorable(old(alarms), tableDelimiter, recordDelimiter) ==>
        AllStorable(alarms, tableDelimiter, recordDelimiter)
      ensures old(alarms) == [] ==> Fits()
    {
      if store[0] != tableDelimiter {
        Format();
        return true;
      }
      LoadedRecords(alarms, store[..], maxLength, tableDelimiter, recordDelimiter);
      ok := ReadRecords();
    }

    /** The first branch of `load`: a store that holds no table is given an
        empty one, the two delimiters at addresses 0 and 1. */
    method Format()
      requires Valid()
      modifies this`wear, store
      ensures Valid() && Holds(old(store[..]), old(wear), Image([], tableDelimiter, recordDelimiter))
    {
      ghost var s, wearBefore := store[..], wear;
      assert Holds(s, wearBefore, []);
      Put(0, tableDelimiter, s, wearBefore, []);
      Put(1, tableDelimiter, s, wearBefore, [tableDelimiter]);
      EmptyImage(tableDelimiter, recordDelimiter);
    }

    /** The loop of `load`: read the cells from address 1 on, collect each
        non-empty record when a delimiter ends it, and stop at the closing
        table delimiter or at the end of the capacity. */
    method ReadRecords() returns (ok: bool)
      requires Valid()
      modifies this`alarms
      ensures var scan := ScanTable(store[..], 1, maxLength, [], tableDelimiter, recordDelimiter);
        ok == scan.terminated && alarms == old(alarms) + scan.records
    {
      ghost var s := store[..];
      ghost var scan := ScanTable(s, 1, maxLength, [], tableDelimiter, recordDelimiter);
      var value: Text := [];
      var index := 1;
      while index < maxLength
        invariant 1 <= index <= maxLength
        invariant alarms + ScanTable(s, index, maxLength, value, tableDelimiter, recordDelimiter).records ==
          old(alarms) + scan.records
        invariant ScanTable(s, index, maxLength, value, tableDelimiter, recordDelimiter).terminated == scan.terminated
      {
        var c := store[index];
        if c == recordDelimiter {
          if |value| > 0 {
            alarms := alarms + [value];
          }
          value := [];
        } else if c == tableDelimiter {
          if |value| > 0 {
            alarms := alarms + [value];
          }
          return true;
        } else {
          value := value + [c];
        }
        index := index + 1;
      }
      return false;
    }

    /** `length`: the number of store cells the table takes, counted the
        way `save` lays it out. */
    method TableLength() returns (n: nat)
      ensures n == Length(alarms)
      ensures n == |Image(alarms, tableDelimiter, recordDelimiter)|
    {
      var count := |alarms|;
      n := 2;
      if count > 0 {
        n := n + (count - 1);
      }
      ghost var base := n;
      var i := 0;
      while i < count
        invariant 0 <= i <= count
        invariant n == base + SumLengths(alarms[..i])
      {
        SumLengthsAppend(alarms[..i], [alarms[i]]);
        assert alarms[..i + 1] == alarms[..i] + [alarms[i]];
        n := n + |alarms[i]|;
        i := i + 1;
      }
      assert alarms[..i] == alarms;
    }

    /** `check`: whether some alarm fires at `now`. The alarms are tried in
        order and the scan stops at the first that fires. */
    method Check(now: Now) returns (found: bool)
      ensures found <==> exists i :: 0 <= i < |alarms| && AlarmMatches(alarms[i], now)
    {
      var i := 0;
      while i < |alarms|
        invariant 0 <= i <= |alarms|
        invariant forall k :: 0 <= k < i ==> !AlarmMatches(alarms[k], now)
      {
        var fires := AlarmFires(alarms[i], now);
        if fires {
          return true;
        }
        i := i + 1;
      }
      return false;
    }

    /** `add`: append a pattern that is not yet in the list, when the table
        with it and one more delimiter byte still fits, and persist the list. */
    method Add(value: Text) returns (ok: bool)
      requires Valid()
      modifies this, store
      ensures Valid()
      ensures ok <==> Length(old(alarms)) + |value| + 1 <= maxLength && value !in old(alarms)
      ensures ok ==> alarms == old(alarms) + [value] && Fits() && Saved(old(store[..]), old(wear))
      ensures !ok ==> alarms == old(alarms) && store[..] == old(store[..]) && wear == old(wear)
      ensures NoDuplicates(old(alarms)) ==> NoDuplicates(alarms)
    {
      var length := TableLength();
      if length + |value| + 1 > maxLength {
        return false;
      }
      var i := 0;
      while i < |alarms|
        invariant 0 <= i <= |alarms|
        invariant value !in alarms[..i]
      {
        if alarms[i] == value {
          return false;
        }
        assert alarms[..i + 1] == alarms[..i] + [alarms[i]];
        i := i + 1;
      }
      assert alarms[..i] == alarms;
      AddLength(alarms, value);
      alarms := alarms + [value];
      Save();
      return true;
    }

    /** `remove`: delete the first occurrence of a pattern and persist the
        list; false when the pattern is not in the list. */
    method Remove(value: Text) returns (ok: bool)
      requires Valid() && Fits()
      modifies this, store
      ensures Valid() && Fits()
      ensures ok <==> value in old(alarms)
      ensures ok ==> Saved(old(store[..]), old(wear))
      ensures ok ==>
        exists k :: 0 <= k < |old(alarms)| && old(alarms)[k] == value &&
          value !in old(alarms)[..k] && alarms == old(alarms)[..k] + old(alarms)[k + 1..]
      ensures !ok ==> alarms == old(alarms) && store[..] == old(store[..]) && wear == old(wear)
      ensures NoDuplicates(old(alarms)) ==> NoDuplicates(alarms) && value !in alarms
    {
      if |alarms| == 0 {
        return false;
      }
      var index := -1;
      var i := 0;
      while i < |alarms|
        invariant 0 <= i <= |alarms|
        invariant index == -1 && value !in alarms[..i]
      {
        if alarms[i] == value {
          index := i;
          break;
        }
        assert alarms[..i + 1] == alarms[..i] + [alarms[i]];
        i := i + 1;
      }
      if index >= 0 {
        LengthRemove(alarms, index);
        if NoDuplicates(alarms) {
          RemoveNoDuplicates(alarms, index);
        }
        alarms := alarms[..index] + alarms[index + 1..];
        Save();
        return true;
      }
      assert alarms[..i] == alarms;
      return false;
    }

    /** `clear`: empty a non-empty list and persist it. */
    method Clear() returns (ok: bool)
      requires Valid()
      modifies this, store
      ensures Valid()
      ensures ok <==> old(alarms) != []
      ensures ok ==> alarms == [] && Saved(old(store[..]), old(wear))
      ensures !ok ==> alarms == old(alarms) && store[..] == old(store[..]) && wear == old(wear)
    {
      if |alarms| == 0 {
        return false;
      }
      alarms := [];
      Save();
      return true;
    }
  }
}
