/** One segment of a partition log: the log file with its two sparse indexes. */
module Segments {
  import opened Bytes
  import opened Batch
  import opened Framing
  import opened Scans
  import opened Sampling
  import opened TimeReads
  import opened LogModel
  import opened LogTruncation
  import opened SegmentFiles
  import opened Retention

  /** The wrapped relative offset never exceeds the true one, so a lookup with it never lands too late. */
  lemma WrapInt32NotAbove(x: int)
    requires x >= -TWO_31
    ensures WrapInt32(x) <= x
  {
  }

  /** A scan for a relative offset may start here: at the first batch, or at one that does not begin after it. */
  predicate IsScanStart(bs: seq<Frame>, rel: int, k: nat)
    requires k <= |bs|
  {
    k == 0 || Count(bs[..k]) <= rel
  }

  lemma WholeScan(bs: seq<Frame>, offset: int, maxBytes: int)
    ensures FullScan(bs, offset, maxBytes) == Visit(bs, offset, maxBytes, ReadResult([], offset))
  {
  }

  /** Walks a log from its first byte and samples it the way appending does. */
  method CollectSamples(cfg: Config, base: int, log: LogSegment, ghost bs: seq<Frame>)
    returns (offsets: seq<OffsetEntry>, times: seq<TimeEntry>, bytesSince: nat)
    requires log.Valid() && log.file == Flat(bs) && AllWellFormed(cfg.crc, bs)
    ensures Samples(offsets, times, bytesSince) == SamplesOf(cfg.indexSampleBytes, base, bs)
  {
    hide Flat, FrameAt, WellFormed, SamplesOf;
    offsets, times, bytesSince := [], [], 0;
    var pos := 0;
    ghost var k := 0;
    NoSamplesYet(cfg.indexSampleBytes, base, bs);
    while true
      invariant 0 <= k <= |bs| && pos == |Flat(bs[..k])|
      invariant Samples(offsets, times, bytesSince) == SamplesOf(cfg.indexSampleBytes, base, bs[..k])
      decreases |bs| - k
    {
      var frame := log.Next(pos);
      NextFrame(cfg.crc, bs, k);
      if frame.None? {
        assert bs[..k] == bs;
        break;
      }
      var b: Frame := frame.value;
      SamplesSnoc(cfg.indexSampleBytes, base, bs[..k], b);
      assert bs[..k + 1] == bs[..k] + [b];
      if bytesSince >= cfg.indexSampleBytes {
        offsets := offsets + [OffsetEntry(WrapInt32(BaseOf(b) - base), WrapInt32(pos))];
        times := times + [TimeEntry(MaxTimestampOf(b), WrapInt32(BaseOf(b) - base))];
        bytesSince := 0;
      } else {
        bytesSince := bytesSince + |b|;
      }
      pos := pos + |b|;
      k := k + 1;
    }
  }

  lemma NoSamplesYet(sample: nat, base: int, bs: seq<Frame>)
    ensures SamplesOf(sample, base, bs[..0]) == Samples([], [], 0) && |Flat(bs[..0])| == 0
  {
  }

  /** Two new index files, filled from the log. */
  method BuildIndexes(cfg: Config, base: int, log: LogSegment, ghost bs: seq<Frame>)
    returns (o: OffsetIndex, t: TimeIndex, bytesSince: nat)
    requires ValidConfig(cfg) && log.Valid() && log.file == Flat(bs) && AllWellFormed(cfg.crc, bs)
    requires var st := SamplesOf(cfg.indexSampleBytes, base, bs);
      var max := MaxEntries(cfg.segmentMaxBytes, cfg.indexSampleBytes);
      |st.offsets| <= max && |st.times| <= max
    ensures fresh(o) && fresh(o.data) && fresh(t) && fresh(t.data)
    ensures o.Valid() && t.Valid()
    ensures o.maxEntries == t.maxEntries == MaxEntries(cfg.segmentMaxBytes, cfg.indexSampleBytes)
    ensures Samples(o.Entries(), t.Entries(), bytesSince) == SamplesOf(cfg.indexSampleBytes, base, bs)
  {
    hide SamplesOf, Flat, MaxEntries, WellFormed;
    var cap := MaxEntries(cfg.segmentMaxBytes, cfg.indexSampleBytes);
    o := new OffsetIndex(cap);
    t := new TimeIndex(cap);
    var offsets, times, since := CollectSamples(cfg, base, log, bs);
    o.Rebuild(offsets);
    t.Rebuild(times);
    bytesSince := since;
  }

  /** The indexes of a sealed segment, trimmed to their entries. */
  method OpenIndexes(offsets: seq<OffsetEntry>, times: seq<TimeEntry>) returns (o: OffsetIndex, t: TimeIndex)
    ensures fresh(o) && fresh(o.data) && fresh(t) && fresh(t.data)
    ensures o.Valid() && t.Valid() && o.Entries() == offsets && t.Entries() == times
  {
    o := new OffsetIndex(|offsets|);
    o.Rebuild(offsets);
    t := new TimeIndex(|times|);
    t.Rebuild(times);
  }

  class Segment {
    const cfg: Config
    const baseOffset: int
    var log: LogSegment
    var offsetIdx: OffsetIndex
    var timeIdx: TimeIndex
    var sealed: bool
    var bytesSinceLastIndex: nat
    ghost var batches: seq<Frame>
    ghost var Repr: set<object>

    ghost predicate Owns()
      reads this, offsetIdx, timeIdx
    {
      Repr == {this, log, offsetIdx, offsetIdx.data, timeIdx, timeIdx.data}
    }

    /** The log holds the batches, and the indexes are those the batches determine. */
    ghost predicate Valid()
      reads this, Repr
      ensures Valid() ==> this in Repr
    {
      && this in Repr && log in Repr && offsetIdx in Repr && timeIdx in Repr
      && Owns()
      && log.Valid() && offsetIdx.Valid() && timeIdx.Valid()
      && ValidConfig(cfg)
      && log.file == Flat(batches)
      && ValidSegment(cfg, Shape())
      && IndexesMatch()
      && (!sealed ==> !log.readonly)
    }

    ghost predicate IndexesMatch()
      requires ValidConfig(cfg) && offsetIdx.Valid() && timeIdx.Valid()
      reads this, offsetIdx, offsetIdx.data, timeIdx, timeIdx.data
    {
      var st := SamplesOf(cfg.indexSampleBytes, baseOffset, batches);
      && offsetIdx.Entries() == st.offsets
      && timeIdx.Entries() == st.times
      && (!sealed ==> bytesSinceLastIndex == st.bytesSince)
      && (!sealed ==>
            offsetIdx.maxEntries == timeIdx.maxEntries == MaxEntries(cfg.segmentMaxBytes, cfg.indexSampleBytes))
    }

    ghost function Shape(): SegmentView
      reads this, log
    {
      SegmentView(baseOffset, batches, sealed, log.synced)
    }

    /** What the segment is, apart from its files. */
    ghost function View(): (v: SegmentView)
      requires Valid()
      reads this, Repr
      ensures v.base == baseOffset && v.batches == batches && v.sealed == sealed && ValidSegment(cfg, v)
    {
      Shape()
    }

    /** A new active segment. */
    constructor Create(cfg: Config, baseOffset: int)
      requires ValidConfig(cfg) && 0 <= baseOffset < TWO_63
      ensures Valid() && fresh(Repr) && this.cfg == cfg
      ensures View() == Fresh(baseOffset)
    {
      hide ValidSegment, SamplesOf, Count, MaxEntries;
      NoSamplesYet(cfg.indexSampleBytes, baseOffset, []);
      this.cfg := cfg;
      this.baseOffset := baseOffset;
      var l := new LogSegment([], false, 0);
      var cap := MaxEntries(cfg.segmentMaxBytes, cfg.indexSampleBytes);
      var o := new OffsetIndex(cap);
      var t := new TimeIndex(cap);
      log, offsetIdx, timeIdx := l, o, t;
      sealed := false;
      bytesSinceLastIndex := 0;
      batches := [];
      Repr := {this, l, o, o.data, t, t.data};
      new;
      FreshSegmentValid(cfg, baseOffset);
    }

    /** A sealed segment, opened read-only with the index files it was sealed with. */
    constructor OpenSealed(cfg: Config, file: Bytes, offsets: seq<OffsetEntry>, times: seq<TimeEntry>,
        base: int, ghost v: SegmentView)
      requires ValidConfig(cfg) && ValidSegment(cfg, v) && v.sealed && v.base == base && file == Flat(v.batches)
      requires SameIndexes(cfg, v, offsets, times)
      ensures Valid() && fresh(Repr) && this.cfg == cfg && View() == v
    {
      hide ValidSegment, SamplesOf, Flat, MaxEntries, Size;
      SyncedWithin(cfg, v);
      this.cfg := cfg;
      this.baseOffset := base;
      var l := new LogSegment(file, true, v.synced);
      var o, t := OpenIndexes(offsets, times);
      log, offsetIdx, timeIdx := l, o, t;
      sealed := true;
      bytesSinceLastIndex := 0;
      batches := v.batches;
      Repr := {this, l, o, o.data, t, t.data};
    }

    /**
     The active segment after a crash that left `file` of its log: cut the log where the scan stopped,
     and rebuild both indexes from what is left. Nothing is taken from the old indexes.
     */
    constructor Recover(cfg: Config, file: Bytes, base: int, scan: ScanResult, ghost v: SegmentView, ghost keep: nat)
      requires ValidConfig(cfg) && ValidSegment(cfg, v) && v.base == base
      requires v.synced <= keep <= Size(v) && file == Flat(v.batches)[..keep]
      requires scan == ScanFrom(cfg.crc, file, 0, base)
      ensures Valid() && fresh(Repr) && this.cfg == cfg && View() == Kept(v, Whole(v.batches, keep))
    {
      hide ValidSegment, SamplesOf, Flat, Kept, Whole, ScanFrom, MaxEntries, Size, Count;
      ghost var kept := Kept(v, Whole(v.batches, keep));
      RecoveredFacts(cfg, v, keep);
      this.cfg := cfg;
      this.baseOffset := base;
      var l := new LogSegment(file, false, v.synced);
      l.Truncate(scan.validPos);
      var o, t, since := BuildIndexes(cfg, base, l, kept.batches);
      log, offsetIdx, timeIdx := l, o, t;
      sealed := false;
      bytesSinceLastIndex := since;
      batches := kept.batches;
      Repr := {this, l, o, o.data, t, t.data};
    }

    /**
     Writes a batch that was stamped with the next offset, and indexes it when a sample is due. If the
     indexes are full then, the batch stays written without an entry and the append fails.
     */
    method Append(batch: Frame) returns (start: Option<nat>)
      requires Valid() && !sealed && Size(View()) < TWO_31
      requires WellFormed(cfg.crc, batch) && BaseOf(batch) == End(View()) && End(View()) + CountOf(batch) < TWO_63
      modifies Repr
      ensures start.Some? <==> HasIndexRoom(cfg, old(View()))
      ensures start.Some? ==> Valid() && Repr == old(Repr) && start.value == Size(old(View()))
      ensures start.Some? ==> View() == old(View()).(batches := old(batches) + [batch])
      ensures start.None? ==> log == old(log) && log.file == old(log.file) + batch && batches == old(batches)
    {
      hide ValidSegment, SamplesOf, Sampling.Indexed, Flat, WellFormed, MaxEntries, Size, End, BaseOf,
        CountOf, HasIndexRoom;
      if HasIndexRoom(cfg, View()) {
        SnocValid(cfg, View(), batch);
      }
      RoomInIndexes(cfg, View());
      SamplesSnoc(cfg.indexSampleBytes, baseOffset, batches, batch);
      FlatSnoc(batches, batch);
      SizeIsLength(View());
      start := log.Append(batch);
      var ok := IndexBatch(batch, start.value, SamplesOf(cfg.indexSampleBytes, baseOffset, batches));
      if !ok {
        return None;
      }
      batches := batches + [batch];
    }

    /** Counts the bytes of the batch at `pos`, or gives it an entry in both indexes, if they have room. */
    method IndexBatch(batch: Frame, pos: nat, ghost st: Samples) returns (ok: bool)
      requires offsetIdx.Valid() && timeIdx.Valid() && offsetIdx.maxEntries == timeIdx.maxEntries
      requires offsetIdx.Entries() == st.offsets && timeIdx.Entries() == st.times
      requires bytesSinceLastIndex == st.bytesSince
      requires |st.times| == |st.offsets|
      modifies this`bytesSinceLastIndex, offsetIdx`entryCount, offsetIdx.data, timeIdx`entryCount, timeIdx.data
      ensures offsetIdx.Valid() && timeIdx.Valid()
      ensures ok <==> (st.bytesSince >= cfg.indexSampleBytes ==> |st.offsets| < offsetIdx.maxEntries)
      ensures ok ==>
        Samples(offsetIdx.Entries(), timeIdx.Entries(), bytesSinceLastIndex)
        == Sampling.Indexed(cfg.indexSampleBytes, baseOffset, st, batch, pos)
    {
      if bytesSinceLastIndex >= cfg.indexSampleBytes {
        var rel := WrapInt32(BaseOf(batch) - baseOffset);
        hide WrapInt32, BaseOf;
        ok := offsetIdx.Append(rel, WrapInt32(pos));
        if !ok {
          return;
        }
        ok := timeIdx.Append(MaxTimestampOf(batch), rel);
        if !ok {
          return;
        }
        bytesSinceLastIndex := 0;
      } else {
        bytesSinceLastIndex := bytesSinceLastIndex + |batch|;
        ok := true;
      }
    }

    /**
     Reads through the sparse index. The result is that of a scan of the whole log from its first byte,
     for every byte limit and every offset, short of those so far below the base that their distance
     does not fit the 32 bits of an index entry. For those the scan may start at a later batch: one at
     or below the distance cut to 32 bits.
     */
    method Read(offset: int, maxBytes: int) returns (r: ReadResult)
      requires Valid()
      ensures offset >= baseOffset - TWO_31 ==> r == FullScan(batches, offset, maxBytes)
      ensures exists k | 0 <= k <= |batches| ::
        && IsScanStart(batches, WrapInt32(offset - baseOffset), k)
        && r == Visit(batches[k..], offset, maxBytes, ReadResult([], offset))
    {
      hide ValidSegment, SamplesOf, Flat, Count, GoodEntries, FullScan, Visit;
      var pos: nat, k := LookupStart(offset);
      assert IsScanStart(batches, WrapInt32(offset - baseOffset), k);
      SegmentFacts(cfg, View());
      if k == 0 {
        assert batches[k..] == batches;
        WholeScan(batches, offset, maxBytes);
      } else if offset >= baseOffset - TWO_31 {
        SkipPreservesRead(baseOffset, batches, k, offset, maxBytes);
      }
      r := ScanFromBatch(pos, k, offset, maxBytes);
    }

    /** Reads from the batch that the time index leads to; nothing if the index has no entry at or after the time. */
    method ReadByTime(timestampMs: int64, maxBytes: int) returns (r: Option<ReadResult>)
      requires Valid()
      ensures r == SegmentByTime(cfg, View(), timestampMs, maxBytes)
      ensures r.Some? ==> |r.value.records| > 0
    {
      hide ValidSegment, SamplesOf, Flat, Count, FullScan, TimeLookup, Search, IsCrossing, MaxEntries;
      FoundEntry(cfg, View(), timestampMs, maxBytes);
      var found := timeIdx.Lookup(timestampMs);
      if found.None? {
        return None;
      }
      var read := Read(baseOffset + found.value, maxBytes);
      r := Some(read);
    }

    /** Where the scan for `offset` starts: the start of the log, or of a batch at or before the offset. */
    method LookupStart(offset: int) returns (pos: nat, ghost k: nat)
      requires Valid()
      ensures k <= |batches| && pos == |Flat(batches[..k])|
      ensures IsScanStart(batches, WrapInt32(offset - baseOffset), k)
      ensures offset >= baseOffset - TWO_31 ==> k == 0 || baseOffset + Count(batches[..k]) <= offset
    {
      hide ValidSegment, SamplesOf, WrapInt32, Flat, Count, GoodEntries, Increasing, IsFloor, MaxEntries;
      var rel := WrapInt32(offset - baseOffset);
      if offset >= baseOffset - TWO_31 {
        WrapInt32NotAbove(offset - baseOffset);
      }
      IndexIsGood(cfg, View());
      var found := offsetIdx.Lookup(rel);
      if found.Some? {
        k := FloorIsBatchStart(cfg.indexSampleBytes, batches, offsetIdx.Entries(), rel, found.value);
        pos := found.value;
      } else {
        k, pos := 0, 0;
        EmptyList(batches);
      }
    }

    method ScanFromBatch(start: nat, ghost first: nat, offset: int, maxBytes: int) returns (r: ReadResult)
      requires Valid() && first <= |batches| && start == |Flat(batches[..first])|
      ensures r == Visit(batches[first..], offset, maxBytes, ReadResult([], offset))
    {
      hide ValidSegment, SamplesOf, Flat, Visit, EndOf, FrameAt, WellFormed, Consecutive, StartsBelow, MaxEntries,
        IndexesMatch;
      SegmentFacts(cfg, View());
      r := ReadResult([], offset);
      var pos := start;
      ghost var k := first;
      while true
        invariant first <= k <= |batches| && pos == |Flat(batches[..k])|
        invariant Visit(batches[first..], offset, maxBytes, ReadResult([], offset))
               == Visit(batches[k..], offset, maxBytes, r)
        decreases |batches| - k
      {
        var frame := log.Next(pos);
        NextFrame(cfg.crc, batches, k);
        if frame.None? {
          VisitEnd(batches, offset, maxBytes, r);
          break;
        }
        var b: Frame := frame.value;
        VisitStep(batches, k, offset, maxBytes, r);
        if EndOf(b) > offset {
          if |r.records| > 0 && |r.records| + |b| > maxBytes {
            break;
          }
          r := ReadResult(r.records + b, EndOf(b));
        }
        pos := pos + |b|;
        k := k + 1;
      }
    }

    method LogSize() returns (n: nat)
      requires Valid()
      ensures n == Size(View())
    {
      n := log.logSize;
    }

    /** The base timestamp of the first batch, read from its header. */
    method FirstBatchTimestamp() returns (r: Option<int>)
      requires Valid()
      ensures r == FirstTimestamp(View())
    {
      hide ValidSegment, SamplesOf, Flat, BaseTimestampOf;
      FirstHeader(batches);
      var header := log.ReadAt(0, HEADER);
      if header.None? {
        return None;
      }
      r := Some(BaseTimestampOf(header.value));
    }

    method SyncLog()
      requires Valid()
      modifies Repr
      ensures Valid() && Repr == old(Repr) && View() == Synced(old(View()))
    {
      hide ValidSegment, SamplesOf, Flat, Size, MaxEntries;
      SyncedKeepsShape(cfg, View());
      log.Sync();
    }

    /** Trims the indexes and syncs the log; the segment takes no more batches. */
    method Seal()
      requires Valid() && !sealed
      modifies Repr
      ensures Valid() && fresh(Repr - old(Repr)) && View() == Sealed(old(View()))
    {
      hide ValidSegment, SamplesOf, Flat, Size, MaxEntries;
      SealedKeepsShape(cfg, View());
      offsetIdx.Seal();
      timeIdx.Seal();
      log.Sync();
      sealed := true;
      Repr := {this, log, offsetIdx, offsetIdx.data, timeIdx, timeIdx.data};
    }

    /** The byte position of the batch that begins at `offset`, or the end of the log if none does. */
    method FindBytePos(offset: int) returns (pos: nat)
      requires Valid()
      ensures pos == |Flat(batches[..CutIndex(View(), offset)])|
    {
      hide ValidSegment, SamplesOf, Flat, FirstAt, IndexesMatch;
      EmptyList(batches);
      if offset == baseOffset {
        return 0;
      }
      pos := ScanForBase(offset);
    }

    method ScanForBase(offset: int) returns (pos: nat)
      requires Valid()
      ensures pos == |Flat(batches[..FirstAt(batches, offset, 0)])|
    {
      hide ValidSegment, SamplesOf, Flat, FirstAt, BaseOf, LengthOf, IndexesMatch, AllWellFormed, Consecutive,
        StartsBelow;
      SegmentFacts(cfg, View());
      EmptyList(batches);
      pos := 0;
      ghost var k := 0;
      while pos < log.logSize
        invariant 0 <= k <= |batches| && pos == |Flat(batches[..k])|
        invariant FirstAt(batches, offset, 0) == FirstAt(batches, offset, k)
        decreases |batches| - k
      {
        AtBatch(cfg.crc, batches, k);
        FirstAtStep(batches, offset, k);
        var header := log.ReadAt(pos, 12);
        if BaseOf(header.value) == offset {
          return pos;
        }
        pos := pos + LengthOf(header.value);
        k := k + 1;
      }
      AtEnd(cfg.crc, batches, k);
      FirstAtStep(batches, offset, k);
      pos := log.logSize;
      assert batches[..|batches|] == batches;
    }

    /** Cuts the log at the batch that begins at `offset`, reopening a sealed segment for writing. */
    method TruncateAt(offset: int)
      requires Valid()
      modifies Repr
      ensures Valid() && fresh(Repr - old(Repr))
      ensures View() == Kept(old(View()), CutIndex(old(View()), offset))
    {
      hide ValidSegment, SamplesOf, Flat, CutIndex, MaxEntries;
      ghost var k := CutIndex(View(), offset);
      KeptFacts(cfg, View(), k);
      var pos := FindBytePos(offset);
      if sealed {
        log := new LogSegment(log.file, false, log.synced);
        sealed := false;
      }
      log.Truncate(pos);
      RebuildIndexes(batches[..k]);
    }

    /** Replaces both indexes by new ones, filled from the log. */
    method RebuildIndexes(ghost bs: seq<Frame>)
      requires ValidConfig(cfg) && log.Valid() && !log.readonly && !sealed && log.file == Flat(bs)
      requires ValidSegment(cfg, SegmentView(baseOffset, bs, false, log.synced))
      modifies this
      ensures Valid() && log == old(log) && fresh(Repr - {this, log})
      ensures View() == SegmentView(baseOffset, bs, false, log.synced)
    {
      hide ValidSegment, SamplesOf, Flat, MaxEntries;
      RebuildFacts(cfg, SegmentView(baseOffset, bs, false, log.synced));
      var o, t, since := BuildIndexes(cfg, baseOffset, log, bs);
      offsetIdx, timeIdx := o, t;
      bytesSinceLastIndex := since;
      batches := bs;
      Repr := {this, log, o, o.data, t, t.data};
    }
  }

  ghost predicate SameIndexes(c: Config, v: SegmentView, offsets: seq<OffsetEntry>, times: seq<TimeEntry>) {
    var st := SamplesOf(c.indexSampleBytes, v.base, v.batches);
    offsets == st.offsets && times == st.times
  }

  lemma RebuildFacts(c: Config, v: SegmentView)
    requires ValidConfig(c) && ValidSegment(c, v)
    ensures AllWellFormed(c.crc, v.batches)
    ensures var st := SamplesOf(c.indexSampleBytes, v.base, v.batches);
      var max := MaxEntries(c.segmentMaxBytes, c.indexSampleBytes);
      |st.offsets| <= max && |st.times| <= max
  {
    SameLengths(c.indexSampleBytes, v.base, v.batches);
  }

  lemma KeptFacts(c: Config, v: SegmentView, k: nat)
    requires ValidConfig(c) && ValidSegment(c, v) && k <= |v.batches|
    ensures ValidSegment(c, Kept(v, k))
    ensures |Flat(v.batches[..k])| <= |Flat(v.batches)|
    ensures Flat(v.batches)[..|Flat(v.batches[..k])|] == Flat(v.batches[..k])
  {
    KeptValid(c, v, k);
    SplitAt(v.batches, k);
  }

  /** What recovery of the active segment works on and where its scan stops. */
  lemma RecoveredFacts(c: Config, v: SegmentView, keep: nat)
    requires ValidConfig(c) && ValidSegment(c, v) && v.synced <= keep <= Size(v)
    ensures keep <= |Flat(v.batches)|
    ensures var kept := Kept(v, Whole(v.batches, keep));
      var file := Flat(v.batches)[..keep];
      && ValidSegment(c, kept) && kept.base == v.base && !kept.sealed
      && ScanFrom(c.crc, file, 0, v.base) == ScanResult(|Flat(kept.batches)|, End(kept), 0)
      && |Flat(kept.batches)| <= keep
      && file[..|Flat(kept.batches)|] == Flat(kept.batches)
      && kept.synced == Min(v.synced, |Flat(kept.batches)|)
      && AllWellFormed(c.crc, kept.batches)
      && var st := SamplesOf(c.indexSampleBytes, v.base, kept.batches);
         var max := MaxEntries(c.segmentMaxBytes, c.indexSampleBytes);
         |st.offsets| <= max && |st.times| <= max
  {
    hide SamplesOf, ScanFrom, MaxEntries, Whole, Flat, Count;
    var k := Whole(v.batches, keep);
    KeptFacts(c, v, k);
    RebuildFacts(c, Kept(v, k));
    WholeBounds(v.batches, keep);
    ScanRecoversWholeBatches(c.crc, v.base, v.batches, keep);
    assert Flat(v.batches)[..keep][..|Flat(v.batches[..k])|] == Flat(v.batches)[..|Flat(v.batches[..k])|];
  }

  lemma SyncedWithin(c: Config, v: SegmentView)
    requires ValidSegment(c, v)
    ensures v.synced <= |Flat(v.batches)|
  {
  }

  lemma FirstHeader(bs: seq<Frame>)
    ensures |bs| == 0 <==> |Flat(bs)| < HEADER
    ensures |bs| > 0 ==> BaseTimestampOf(Flat(bs)[0..HEADER]) == BaseTimestampOf(bs[0])
  {
    if |bs| > 0 {
      FrameInside(bs, [], 0);
      assert Flat(bs) + [] == Flat(bs);
      FlatNonEmpty(bs);
      assert Flat(bs)[0..HEADER][22..30] == Flat(bs)[0..|bs[0]|][22..30] == bs[0][22..30];
    }
  }

  lemma SyncedKeepsShape(c: Config, v: SegmentView)
    requires ValidSegment(c, v)
    ensures ValidSegment(c, Synced(v)) && Size(v) == |Flat(v.batches)|
  {
  }

  lemma SealedKeepsShape(c: Config, v: SegmentView)
    requires ValidSegment(c, v)
    ensures ValidSegment(c, Sealed(v)) && Size(v) == |Flat(v.batches)|
  {
  }

  lemma FirstAtStep(bs: seq<Frame>, offset: int, k: nat)
    requires k <= |bs|
    ensures FirstAt(bs, offset, k) == if k == |bs| || BaseOf(bs[k]) == offset then k else FirstAt(bs, offset, k + 1)
  {
  }

  /** Inside the log, the header at the start of batch `k` gives its base offset and length. */
  lemma AtBatch(crc: Checksum, bs: seq<Frame>, k: nat)
    requires AllWellFormed(crc, bs) && k <= |bs| && |Flat(bs[..k])| < |Flat(bs)|
    ensures k < |bs| && |Flat(bs[..k])| + 12 <= |Flat(bs)|
    ensures var p := |Flat(bs[..k])|;
      BaseOf(Flat(bs)[p..p + 12]) == BaseOf(bs[k]) && LengthOf(Flat(bs)[p..p + 12]) == |bs[k]|
    ensures |Flat(bs[..k + 1])| == |Flat(bs[..k])| + |bs[k]|
  {
    hide Flat, BaseOf, LengthOf;
    assert bs[..|bs|] == bs;
    if k < |bs| {
      FrameInside(bs, [], k);
      assert Flat(bs) + [] == Flat(bs);
      FieldsInSlice(Flat(bs), |Flat(bs[..k])|, bs[k], 12);
    }
  }

  lemma AtEnd(crc: Checksum, bs: seq<Frame>, k: nat)
    requires k <= |bs| && |Flat(bs[..k])| >= |Flat(bs)|
    ensures k == |bs|
  {
    assert bs[..|bs|] == bs;
    if k < |bs| {
      TakeMonotone(bs, k, |bs|);
    }
  }

  /** A log that is exactly its batches: the scan sees batch `k`, and nothing after the last one. */
  lemma NextFrame(crc: Checksum, bs: seq<Frame>, k: nat)
    requires AllWellFormed(crc, bs) && k <= |bs|
    ensures FrameAt(Flat(bs), |Flat(bs[..k])|) == if k < |bs| then Some(bs[k]) else None
    ensures k < |bs| ==> |Flat(bs[..k + 1])| == |Flat(bs[..k])| + |bs[k]|
  {
    hide Flat, FrameAt, WellFormed;
    if k < |bs| {
      ScanSeesBatch(crc, bs, [], k);
      assert Flat(bs) + [] == Flat(bs);
      TakeStep(bs, k);
    } else {
      assert bs[..k] == bs;
      ScanEnds(bs);
    }
  }

  lemma IndexIsGood(c: Config, v: SegmentView)
    requires ValidConfig(c) && ValidSegment(c, v)
    ensures var es := SamplesOf(c.indexSampleBytes, v.base, v.batches).offsets;
      GoodEntries(c.indexSampleBytes, v.batches, es) && Increasing(es)
  {
    SamplesAreGood(c.crc, c.indexSampleBytes, v.base, v.batches);
  }

  /** An entry that is due finds room exactly when the segment has index room. */
  lemma RoomInIndexes(c: Config, v: SegmentView)
    requires ValidConfig(c)
    ensures var st := SamplesOf(c.indexSampleBytes, v.base, v.batches);
      var max := MaxEntries(c.segmentMaxBytes, c.indexSampleBytes);
      && |st.times| == |st.offsets|
      && (HasIndexRoom(c, v) <==> (st.bytesSince >= c.indexSampleBytes ==> |st.offsets| < max))
  {
    hide SamplesOf, MaxEntries;
    SameLengths(c.indexSampleBytes, v.base, v.batches);
  }

  lemma SizeIsLength(v: SegmentView)
    ensures Size(v) == |Flat(v.batches)|
  {
  }
}
