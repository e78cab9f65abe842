/** The three files of a segment: the log and its two memory-mapped indexes. */
module SegmentFiles {
  import opened Bytes
  import opened Batch
  import opened Framing
  import opened Sampling
  import opened TimeReads

  /** A log file. `synced` is the length of the prefix that a crash cannot take away. */
  class LogSegment {
    var file: Bytes
    var logSize: nat
    var readonly: bool
    ghost var synced: nat

    ghost predicate Valid()
      reads this
    {
      logSize == |file| && synced <= |file|
    }

    constructor (content: Bytes, readonly: bool, ghost durable: nat)
      requires durable <= |content|
      ensures Valid() && file == content && this.readonly == readonly && synced == durable
    {
      file := content;
      logSize := |content|;
      this.readonly := readonly;
      synced := durable;
    }

    /** Returns where the batch starts, or nothing on a read-only file. */
    method Append(batch: Bytes) returns (start: Option<nat>)
      requires Valid()
      modifies this
      ensures Valid() && readonly == old(readonly) && synced == old(synced)
      ensures start == if old(readonly) then None else Some(old(|file|))
      ensures file == if old(readonly) then old(file) else old(file) + batch
    {
      if readonly {
        return None;
      }
      start := Some(logSize);
      file := file + batch;
      logSize := logSize + |batch|;
    }

    /** Exactly `length` bytes at `pos`, or nothing when the file ends before that. */
    method ReadAt(pos: nat, length: nat) returns (r: Option<Bytes>)
      ensures r == if pos + length <= |file| then Some(file[pos..pos + length]) else None
    {
      if pos + length <= |file| {
        r := Some(file[pos..pos + length]);
      } else {
        r := None;
      }
    }

    /** One turn of the scan: the batch at `pos`, if a whole one is there. */
    method Next(pos: nat) returns (r: Option<Bytes>)
      requires Valid()
      ensures r == FrameAt(file, pos)
    {
      if pos >= logSize {
        return None;
      }
      var header := ReadAt(pos, 12);
      if header.None? {
        return None;
      }
      var length := LengthOf(header.value);
      if length < 12 || pos + length > logSize {
        return None;
      }
      r := ReadAt(pos, length);
    }

    method Truncate(pos: nat)
      requires Valid() && pos <= |file|
      modifies this
      ensures Valid() && file == old(file)[..pos] && readonly == old(readonly)
      ensures synced == if old(synced) <= pos then old(synced) else pos
    {
      file := file[..pos];
      logSize := pos;
      synced := if synced <= pos then synced else pos;
    }

    method Sync()
      requires Valid()
      modifies this
      ensures Valid() && file == old(file) && readonly == old(readonly) && synced == |file|
    {
      synced := |file|;
    }
  }

  /** The offset index: a fixed number of slots, filled from the front. */
  class OffsetIndex {
    var data: array<OffsetEntry>
    var entryCount: nat
    var maxEntries: nat

    ghost predicate Valid()
      reads this
    {
      entryCount <= maxEntries <= data.Length
    }

    ghost function Entries(): seq<OffsetEntry>
      requires Valid()
      reads this, data
    {
      data[..entryCount]
    }

    constructor (capacity: nat)
      ensures Valid() && fresh(data) && Entries() == [] && maxEntries == capacity
    {
      data := new OffsetEntry[capacity](i => OffsetEntry(0, 0));
      entryCount := 0;
      maxEntries := capacity;
    }

    /** Fails exactly when every slot is taken. */
    method Append(relativeOffset: int32, position: int32) returns (ok: bool)
      requires Valid()
      modifies this`entryCount, data
      ensures Valid()
      ensures ok == (|old(Entries())| < maxEntries)
      ensures Entries() == if ok then old(Entries()) + [OffsetEntry(relativeOffset, position)] else old(Entries())
    {
      if entryCount >= maxEntries {
        return false;
      }
      data[entryCount] := OffsetEntry(relativeOffset, position);
      entryCount := entryCount + 1;
      ok := true;
    }

    /** The position of the last entry at or below `rel`, by binary search. */
    method Lookup(rel: int32) returns (r: Option<int>)
      requires Valid() && Increasing(Entries())
      ensures IsFloor(Entries(), rel, r)
    {
      if entryCount == 0 {
        return None;
      }
      var lo, hi, result := 0, entryCount - 1, -1;
      while lo <= hi
        invariant 0 <= lo <= hi + 1 <= entryCount
        invariant -1 <= result < lo
        invariant result == lo - 1
        invariant forall i | 0 <= i < lo :: data[i].relativeOffset <= rel
        invariant forall i | hi < i < entryCount :: data[i].relativeOffset > rel
        decreases hi - lo
      {
        var mid := (lo + hi) / 2;
        assert Entries()[mid] == data[mid];
        assert forall i | 0 <= i < entryCount :: Entries()[i] == data[i];
        if data[mid].relativeOffset <= rel {
          result := mid;
          lo := mid + 1;
        } else {
          hi := mid - 1;
        }
      }
      if result < 0 {
        return None;
      }
      assert Entries()[result] == data[result];
      r := Some(data[result].position);
    }

    /** Trims the index to its entries; nothing can be appended afterwards. */
    method Seal()
      requires Valid()
      modifies this
      ensures Valid() && fresh(data) && Entries() == old(Entries()) && maxEntries == entryCount
    {
      var trimmed := new OffsetEntry[entryCount](
        i requires 0 <= i < entryCount <= data.Length reads this, data => data[i]);
      assert trimmed[..] == data[..entryCount];
      data := trimmed;
      maxEntries := entryCount;
    }

    /** Writes all entries without asking for room; the caller must not bring too many. */
    method Rebuild(entries: seq<OffsetEntry>)
      requires Valid() && |entries| <= maxEntries
      modifies this`entryCount, data
      ensures Valid() && Entries() == entries
    {
      entryCount := 0;
      for i := 0 to |entries|
        invariant data[..i] == entries[..i]
      {
        data[i] := entries[i];
      }
      entryCount := |entries|;
    }
  }

  /** The time index; it differs from the offset index in its entries and in its search. */
  class TimeIndex {
    var data: array<TimeEntry>
    var entryCount: nat
    var maxEntries: nat

    ghost predicate Valid()
      reads this
    {
      entryCount <= maxEntries <= data.Length
    }

    ghost function Entries(): seq<TimeEntry>
      requires Valid()
      reads this, data
    {
      data[..entryCount]
    }

    constructor (capacity: nat)
      ensures Valid() && fresh(data) && Entries() == [] && maxEntries == capacity
    {
      data := new TimeEntry[capacity](i => TimeEntry(0, 0));
      entryCount := 0;
      maxEntries := capacity;
    }

    method Append(timestampMs: int64, relativeOffset: int32) returns (ok: bool)
      requires Valid()
      modifies this`entryCount, data
      ensures Valid()
      ensures ok == (|old(Entries())| < maxEntries)
      ensures Entries() == if ok then old(Entries()) + [TimeEntry(timestampMs, relativeOffset)] else old(Entries())
    {
      if entryCount >= maxEntries {
        return false;
      }
      data[entryCount] := TimeEntry(timestampMs, relativeOffset);
      entryCount := entryCount + 1;
      ok := true;
    }

    /** The offset of an entry at or after the time whose predecessor is before it, by binary search. */
    method Lookup(timestampMs: int64) returns (r: Option<int>)
      requires Valid()
      ensures IsCrossing(Entries(), timestampMs, r)
      ensures r == SearchResult(Entries(), timestampMs)
    {
      hide Search, IsCrossing;
      ghost var es := Entries();
      ResultCrosses(es, timestampMs);
      if entryCount == 0 {
        return None;
      }
      var lo, hi, result := 0, entryCount - 1, -1;
      while lo <= hi
        invariant 0 <= lo <= hi + 1 <= entryCount && -1 <= result < entryCount
        invariant var rest := Search(es, timestampMs, lo, hi);
          Search(es, timestampMs, 0, entryCount - 1)
          == if rest.Some? then rest else if result < 0 then None else Some(result)
        decreases hi - lo
      {
        SearchStep(es, timestampMs, lo, hi);
        var mid := (lo + hi) / 2;
        if data[mid].timestampMs >= timestampMs {
          result := mid;
          hi := mid - 1;
        } else {
          lo := mid + 1;
        }
      }
      if result < 0 {
        return None;
      }
      assert es[result] == data[result];
      r := Some(data[result].relativeOffset);
    }

    method Seal()
      requires Valid()
      modifies this
      ensures Valid() && fresh(data) && Entries() == old(Entries()) && maxEntries == entryCount
    {
      var trimmed := new TimeEntry[entryCount](
        i requires 0 <= i < entryCount <= data.Length reads this, data => data[i]);
      assert trimmed[..] == data[..entryCount];
      data := trimmed;
      maxEntries := entryCount;
    }

    method Rebuild(entries: seq<TimeEntry>)
      requires Valid() && |entries| <= maxEntries
      modifies this`entryCount, data
      ensures Valid() && Entries() == entries
    {
      entryCount := 0;
      for i := 0 to |entries|
        invariant data[..i] == entries[..i]
      {
        data[i] := entries[i];
      }
      entryCount := |entries|;
    }
  }
}
