/** The storage of one partition: its segments, oldest first, the last of which is written to. */
module Storages {
  import opened Bytes
  import opened Batch
  import opened Framing
  import opened Scans
  import opened Sampling
  import opened LogModel
  import opened LogReads
  import opened TimeReads
  import opened LogTruncation
  import opened SegmentFiles
  import opened Segments
  import opened Retention

  /** The files of one segment as a restart finds them. */
  datatype DiskSegment = DiskSegment(base: int, file: Bytes, offsets: seq<OffsetEntry>, times: seq<TimeEntry>)

  /** Sealed segments are on disk as they were sealed, indexes included. */
  ghost predicate SealedOnDisk(c: Config, v: SegmentView, d: DiskSegment) {
    v.sealed && d.base == v.base && d.file == Flat(v.batches) && SameIndexes(c, v, d.offsets, d.times)
  }

  /** Of the active segment, `keep` bytes of the log are left and the index files may hold anything. */
  ghost predicate ActiveOnDisk(v: SegmentView, keep: nat, d: DiskSegment) {
    d.base == v.base && v.synced <= keep <= Size(v) == |Flat(v.batches)| && d.file == Flat(v.batches)[..keep]
  }

  /**
   What a crash leaves of a log, in the order of the file names. The active segment may be full and even
   sealed already when the crash came before the next one was made; then `keep` is all of it.
   */
  ghost predicate CrashImage(c: Config, log: Log, keep: nat, disk: seq<DiskSegment>) {
    && |disk| == |log| > 0
    && (forall i | 0 <= i < |log| - 1 :: SealedOnDisk(c, log[i], disk[i]))
    && ActiveOnDisk(LastOf(log), keep, disk[|disk| - 1])
  }

  predicate AllValid(c: Config, log: Log) {
    forall i | 0 <= i < |log| :: ValidSegment(c, log[i])
  }

  /** Opens all sealed segments. */
  method OpenSealed(cfg: Config, disk: seq<DiskSegment>, ghost log: Log)
      returns (segs: seq<Segment>, ghost repr: set<object>)
    requires ValidConfig(cfg) && |log| == |disk|
    requires forall i | 0 <= i < |disk| :: ValidSegment(cfg, log[i]) && SealedOnDisk(cfg, log[i], disk[i])
    ensures fresh(repr) && |segs| == |disk|
    ensures forall i | 0 <= i < |segs| :: segs[i] in repr && segs[i].Repr <= repr
    ensures forall i | 0 <= i < |segs| :: segs[i].Valid() && segs[i].cfg == cfg && segs[i].View() == log[i]
    ensures forall i, j | 0 <= i < j < |segs| :: segs[i].Repr !! segs[j].Repr
  {
    hide ValidSegment, SameIndexes, Flat, Segment.Valid, Segment.View;
    segs, repr := [], {};
    for k := 0 to |disk|
      invariant fresh(repr) && |segs| == k
      invariant forall i | 0 <= i < k :: segs[i] in repr && segs[i].Repr <= repr
      invariant forall i | 0 <= i < k :: segs[i].Valid() && segs[i].cfg == cfg && segs[i].View() == log[i]
      invariant forall i, j | 0 <= i < j < k :: segs[i].Repr !! segs[j].Repr
    {
      var d := disk[k];
      var s := new Segment.OpenSealed(cfg, d.file, d.offsets, d.times, d.base, log[k]);
      segs := segs + [s];
      repr := repr + s.Repr;
    }
  }

  /** The segments are valid, hold what `log` says, share no file and own nothing outside `repr`. */
  ghost predicate SegmentsHold(c: Config, segs: seq<Segment>, log: Log, repr: set<object>)
    reads repr
  {
    && |segs| == |log|
    && (forall i | 0 <= i < |segs| :: segs[i] in repr && segs[i].Repr <= repr)
    && (forall i | 0 <= i < |segs| :: segs[i].Valid() && segs[i].cfg == c && segs[i].View() == log[i])
    && (forall i, j | 0 <= i < j < |segs| :: segs[i].Repr !! segs[j].Repr)
  }

  lemma HoldFacts(c: Config, segs: seq<Segment>, log: Log, repr: set<object>)
    requires SegmentsHold(c, segs, log, repr)
    ensures |segs| == |log|
    ensures forall i | 0 <= i < |segs| :: segs[i] in repr && segs[i].Repr <= repr
    ensures forall i | 0 <= i < |segs| :: segs[i].Valid() && segs[i].cfg == c && segs[i].View() == log[i]
    ensures forall i, j | 0 <= i < j < |segs| :: segs[i].Repr !! segs[j].Repr
  {
  }

  /** All segments of a directory, and the offset after the last batch that survived. */
  method OpenSegments(cfg: Config, disk: seq<DiskSegment>, ghost before: Log, ghost next: int, ghost keep: nat)
    returns (segs: seq<Segment>, nextOffset: int, ghost log: Log, ghost repr: set<object>)
    requires ValidConfig(cfg)
    requires |disk| > 0 ==> AllValid(cfg, before) && CrashImage(cfg, before, keep, disk)
    ensures fresh(repr) && SegmentsHold(cfg, segs, log, repr)
    ensures |log| > 0 && !LastOf(log).sealed && nextOffset == End(LastOf(log))
    ensures log == if |disk| == 0 then [Fresh(0)] else Recovered(before, keep)
    ensures |disk| == 0 || ValidLog(cfg, before, next) ==> ValidLog(cfg, log, nextOffset)
  {
    hide ValidLog, ValidSegment, Segment.Valid, Segment.View, Kept, Whole, Flat, Size, ScanFrom, SameIndexes, End;
    if |disk| == 0 {
      FreshLogValid(cfg);
      FreshSegmentValid(cfg, 0);
      var s := new Segment.Create(cfg, 0);
      segs, nextOffset, log, repr := [s], 0, [Fresh(0)], s.Repr;
    } else {
      var n := |disk| - 1;
      ImageFacts(cfg, before, keep);
      segs, repr := OpenSealed(cfg, disk[..n], before[..n]);
      var scan := ScanActiveLog(cfg.crc, disk[n].file, disk[n].base);
      var active := new Segment.Recover(cfg, disk[n].file, disk[n].base, scan, LastOf(before), keep);
      segs, repr := segs + [active], repr + active.Repr;
      nextOffset, log := scan.nextOffset, Recovered(before, keep);
      if ValidLog(cfg, before, next) {
        RecoveredValid(cfg, before, next, keep);
      }
    }
  }

  class Storage {
    const cfg: Config
    var segments: seq<Segment>
    var nextOffset: int
    ghost var log: Log
    ghost var Repr: set<object>

    /** `log` is what the segments hold, and no two segments share a file. */
    ghost predicate Owned()
      reads this, Repr
      ensures Owned() ==> this in Repr && |segments| == |log|
    {
      && this in Repr
      && |segments| == |log|
      && (forall i | 0 <= i < |segments| ::
            segments[i] in Repr && segments[i].Repr <= Repr && this !in segments[i].Repr)
      && (forall i | 0 <= i < |segments| ::
            segments[i].Valid() && segments[i].cfg == cfg && segments[i].View() == log[i])
      && (forall i, j | 0 <= i < j < |segments| :: segments[i].Repr !! segments[j].Repr)
    }

    ghost predicate Valid()
      reads this, Repr
    {
      Owned() && ValidConfig(cfg) && ValidLog(cfg, log, nextOffset)
    }

    /** The segments are what `log` says and the last one is written to; between them there may be a hole. */
    ghost predicate Settled()
      reads this, Repr
    {
      Owned() && ValidConfig(cfg) && |log| > 0 && !LastOf(log).sealed && nextOffset == End(LastOf(log))
    }

    /** An empty partition: one segment that begins at offset zero. */
    constructor Create(cfg: Config)
      requires ValidConfig(cfg)
      ensures Valid() && fresh(Repr) && this.cfg == cfg && nextOffset == 0 && log == [Fresh(0)]
    {
      hide ValidLog, Segment.Valid, Segment.View, ValidSegment;
      FreshLogValid(cfg);
      var s := new Segment.Create(cfg, 0);
      this.cfg := cfg;
      segments := [s];
      nextOffset := 0;
      log := [Fresh(0)];
      Repr := {this} + s.Repr;
    }

    /**
     Restart: no files means a new partition; otherwise every segment but the last is opened as sealed
     and the last one is recovered by scanning its log. A directory in which an earlier restart had begun
     to delete segments is opened like any other.
     */
    constructor Open(cfg: Config, disk: seq<DiskSegment>, ghost before: Log, ghost next: int, ghost keep: nat)
      requires ValidConfig(cfg)
      requires |disk| > 0 ==> AllValid(cfg, before) && CrashImage(cfg, before, keep, disk)
      ensures Settled() && fresh(Repr) && this.cfg == cfg
      ensures |disk| == 0 || ValidLog(cfg, before, next) ==> Valid()
      ensures |disk| == 0 ==> log == [Fresh(0)]
      ensures |disk| > 0 ==> log == Recovered(before, keep)
      ensures nextOffset == End(LastOf(log))
    {
      hide ValidLog, ValidSegment, Segment.Valid, Segment.View, CrashImage, Recovered, End, SegmentsHold;
      this.cfg := cfg;
      var segs, n, l, repr := OpenSegments(cfg, disk, before, next, keep);
      segments := segs;
      nextOffset := n;
      log := l;
      Repr := {this} + repr;
      new;
      HoldFacts(cfg, segs, l, repr);
    }

    /**
     Stamps the batch with the next offset, writes it, and rolls to a new segment when the active one is
     full. It fails exactly when the batch needs an index entry and the indexes have no room for it.
     */
    method Append(batch: Frame) returns (base: Option<int>)
      requires Valid() && Size(LastOf(log)) < TWO_31
      requires WellFormed(cfg.crc, batch) && nextOffset + CountOf(batch) < TWO_63
      modifies Repr
      ensures base.Some? <==> HasIndexRoom(cfg, LastOf(old(log)))
      ensures base.None? ==> nextOffset == old(nextOffset)
      ensures base.Some? ==> Valid() && Appendable(cfg, LastOf(log)) && fresh(Repr - old(Repr))
      ensures base.Some? && Roomy(cfg, old(log)) ==> Roomy(cfg, log)
      ensures base.Some? ==> base.value == old(nextOffset) && nextOffset == old(nextOffset) + CountOf(batch)
      ensures base.Some? ==> 0 <= base.value < TWO_63 && log == Appended(cfg, old(log), base.value, batch)
    {
      hide ValidLog, ValidSegment, WellFormed, CountOf, Stamp, Size, End, BaseOf, Owned, HasIndexRoom, Roomy;
      NextInRange(cfg, log, nextOffset);
      ActiveFacts(cfg, log, nextOffset);
      StampWellFormed(cfg.crc, batch, nextOffset);
      if HasIndexRoom(cfg, LastOf(log)) {
        AppendRefines(cfg, log, nextOffset, batch);
        GrownValid(cfg, LastOf(log), batch, nextOffset);
      }
      AppendedInSteps(cfg, log, nextOffset, batch);
      hide Appended, Replaced, Appendable;
      base := Some(nextOffset);
      var ok := AppendToActive(Stamp(batch, nextOffset));
      if !ok {
        return None;
      }
      var size := ActiveSize();
      if size >= cfg.segmentMaxBytes {
        SealActive();
        AddSegment();
      }
    }

    method AppendToActive(batch: Frame) returns (ok: bool)
      requires Owned() && |log| > 0 && !LastOf(log).sealed && Size(LastOf(log)) < TWO_31
      requires WellFormed(cfg.crc, batch) && BaseOf(batch) == End(LastOf(log))
      requires End(LastOf(log)) + CountOf(batch) < TWO_63
      modifies Repr
      ensures ok <==> HasIndexRoom(cfg, LastOf(old(log)))
      ensures !ok ==> nextOffset == old(nextOffset)
      ensures ok ==> Owned() && nextOffset == old(nextOffset) + CountOf(batch) && Repr == old(Repr)
      ensures ok ==> log == Replaced(old(log), LastOf(old(log)).(batches := LastOf(old(log)).batches + [batch]))
    {
      hide ValidSegment, WellFormed, CountOf, Size, End, BaseOf, HasIndexRoom, Segment.Valid, Segment.View;
      var n := |segments| - 1;
      var start := segments[n].Append(batch);
      if start.None? {
        return false;
      }
      log := log[n := segments[n].View()];
      nextOffset := nextOffset + CountOf(batch);
      ok := true;
    }

    method ActiveSize() returns (size: nat)
      requires Owned() && |log| > 0
      ensures size == Size(LastOf(log))
    {
      hide ValidSegment, Size, Segment.Valid, Segment.View;
      size := segments[|segments| - 1].LogSize();
    }

    method SealActive()
      requires Owned() && |log| > 0 && !LastOf(log).sealed
      modifies Repr
      ensures Owned() && fresh(Repr - old(Repr)) && nextOffset == old(nextOffset)
      ensures log == Replaced(old(log), Sealed(LastOf(old(log))))
    {
      hide ValidSegment, Size, Segment.Valid, Segment.View;
      var n := |segments| - 1;
      segments[n].Seal();
      log := log[n := segments[n].View()];
      Repr := Repr + segments[n].Repr;
    }

    method AddSegment()
      requires Owned() && ValidConfig(cfg) && 0 <= nextOffset < TWO_63
      modifies this
      ensures Owned() && fresh(Repr - old(Repr)) && nextOffset == old(nextOffset)
      ensures log == old(log) + [Fresh(nextOffset)]
    {
      hide ValidSegment, Size, Segment.Valid, Segment.View;
      var s := new Segment.Create(cfg, nextOffset);
      segments := segments + [s];
      log := log + [s.View()];
      Repr := Repr + s.Repr;
    }

    /**
     Reads from the segment that holds the offset, found by binary search. Reading again from the offset
     that is returned visits every batch once, and at the end of the log stays where it is.
     */
    method Read(offset: int, maxBytes: int) returns (r: ReadOutcome)
      requires Valid()
      ensures r == ReadLog(log, nextOffset, offset, maxBytes)
      ensures r == OffsetOutOfRange <==> offset < log[0].base
      ensures r.Records? ==> r.next >= offset && (r.records == [] <==> r.next == offset)
      ensures r.Records? ==> (r.records == [] <==> offset >= nextOffset)
      ensures r.Records? && r.records != [] ==> r.next <= nextOffset
    {
      hide ValidLog, ValidSegment, Segment.Valid, FullScan, SegmentOf;
      ReadGoesOn(cfg, log, nextOffset, offset, maxBytes);
      if offset < segments[0].baseOffset {
        return OffsetOutOfRange;
      }
      if offset >= nextOffset {
        return Records([], offset);
      }
      var k := FindSegment(offset);
      SegmentOfIsUnique(log, offset, k);
      assert segments[k].baseOffset <= offset;
      var found := segments[k].Read(offset, maxBytes);
      r := Records(found.records, found.next);
    }

    method FindSegment(offset: int) returns (lo: nat)
      requires Valid() && log[0].base <= offset
      ensures IsSegmentOf(log, offset, lo) && log[lo].base <= offset
    {
      hide ValidLog, ValidSegment, Segment.Valid;
      lo := 0;
      var hi := |segments| - 1;
      BasesAscend(cfg, log, nextOffset);
      assert forall i | 0 <= i < |segments| :: segments[i].baseOffset == log[i].base;
      while lo < hi
        invariant 0 <= lo <= hi < |segments|
        invariant log[lo].base <= offset
        invariant forall j | hi < j < |log| :: offset < log[j].base
      {
        var mid := (lo + hi + 1) / 2;
        if segments[mid].baseOffset <= offset {
          lo := mid;
        } else {
          hi := mid - 1;
        }
      }
    }

    /** Reads from the first segment whose time index leads anywhere. */
    method ReadByTime(timestampMs: int64, maxBytes: int) returns (r: Option<ReadOutcome>)
      requires Valid()
      ensures r == TimeReads.ReadByTime(cfg, log, timestampMs, maxBytes)
      ensures r.None? ==> AllBefore(cfg, log, timestampMs)
      ensures r.Some? ==>
        exists p :: && InLog(log, p) && MaxTimestampOf(log[p.segment].batches[p.batch]) >= timestampMs
                    && r.value == ReadLog(log, nextOffset, OffsetAt(log, p), maxBytes)
    {
      hide ValidLog, Owned, FoundPlace, AllBefore, MaxTimestampOf, ReadLog, OffsetAt, TimeReads.ReadByTime,
        SegmentByTime, Segment.Valid, Segment.View, ValidSegment;
      ghost var p := ReadByTimeAnswers(cfg, log, nextOffset, timestampMs, maxBytes);
      for i := 0 to |segments|
        invariant FoundPlace(cfg, log, timestampMs, 0) == FoundPlace(cfg, log, timestampMs, i)
      {
        SegmentAt(i);
        var found := segments[i].ReadByTime(timestampMs, maxBytes);
        SegmentDecides(cfg, log, timestampMs, maxBytes, i);
        if found.Some? && |found.value.records| > 0 {
          return Some(Records(found.value.records, found.value.next));
        }
      }
      NothingDecides(cfg, log, timestampMs, maxBytes);
      return None;
    }

    lemma SegmentAt(i: nat)
      requires Owned() && i < |segments|
      ensures segments[i].Valid() && segments[i].cfg == cfg && segments[i].View() == log[i]
      ensures ValidSegment(cfg, log[i])
    {
      hide ValidSegment;
    }

    method EarliestOffset() returns (offset: int)
      requires Valid()
      ensures offset == log[0].base
    {
      hide ValidLog, ValidSegment, Segment.Valid;
      offset := segments[0].baseOffset;
    }

    method LatestOffset() returns (offset: int)
      requires Valid()
      ensures offset == log[0].base + Count(All(log))
    {
      LogIsConsecutive(cfg, log, nextOffset);
      offset := nextOffset;
    }

    method Sync()
      requires Valid()
      modifies Repr
      ensures Owned() && Repr == old(Repr) && nextOffset == old(nextOffset) && log == SyncedLast(old(log))
    {
      hide ValidLog, ValidSegment, Size, Segment.Valid, Segment.View;
      var n := |segments| - 1;
      segments[n].SyncLog();
      log := log[n := segments[n].View()];
    }

    /**
     Cuts everything from `offset` on: later segments are deleted and the one that holds the offset
     is cut at the batch that begins there. An offset past the end is refused. The storage is whole
     again exactly when a batch begins at the offset or the log ends there.
     */
    method TruncateTo(offset: int) returns (ok: bool)
      requires Settled()
      modifies Repr
      ensures ok == (offset <= old(nextOffset))
      ensures !ok ==> Settled() && log == old(log) && nextOffset == old(nextOffset) && Repr == old(Repr)
      ensures ok ==> Owned() && fresh(Repr - old(Repr)) && nextOffset == offset && log == Truncated(old(log), offset)
      ensures ok && old(Valid()) ==> (Valid() <==> IsBoundary(old(log), offset))
    {
      hide ValidLog, Owned, Truncated, IsBoundary, End;
      if offset > nextOffset {
        return false;
      }
      ok := true;
      if ValidLog(cfg, log, nextOffset) {
        TruncateIffBoundary(cfg, log, nextOffset, offset);
      }
      LastIsValid();
      TruncateAtEnd(cfg, log);
      if offset < nextOffset {
        CutTo(offset);
      }
    }

    lemma LastIsValid()
      requires Owned() && |log| > 0
      ensures ValidSegment(cfg, LastOf(log))
    {
      hide ValidSegment;
      assert segments[|segments| - 1].Valid();
    }

    method CutTo(offset: int)
      requires Owned() && |log| > 0
      modifies Repr
      ensures Owned() && fresh(Repr - old(Repr)) && nextOffset == offset && log == Truncated(old(log), offset)
    {
      hide Owned, Kept, CutIndex, SegmentOf;
      ghost var before := log;
      var lo := LastSegmentAt(offset);
      SegmentOfIsUnique(log, offset, lo);
      KeepFirst(lo + 1);
      CutLast(offset);
      assert before[..lo + 1][..lo] == before[..lo];
      SetNext(offset);
    }

    method KeepFirst(n: nat)
      requires Owned() && n <= |log|
      modifies this
      ensures Owned() && Repr == old(Repr) && log == old(log)[..n]
    {
      hide ValidSegment, Segment.Valid, Segment.View;
      segments := segments[..n];
      log := log[..n];
    }

    method SetNext(offset: int)
      requires Owned()
      modifies this
      ensures Owned() && Repr == old(Repr) && log == old(log) && nextOffset == offset
    {
      hide ValidSegment, Segment.Valid, Segment.View;
      nextOffset := offset;
    }

    /**
     Deletes the sealed segments that the policy marks: those with which the log takes more bytes than
     allowed, and those whose successor begins with a record older than the retention time. What is left
     is a valid storage whenever segments expire in order; the active segment is never touched.
     */
    method EnforceRetention(retentionMs: int, retentionBytes: int, nowMs: int) returns (deleted: nat)
      requires Valid()
      modifies this
      ensures Owned() && nextOffset == old(nextOffset) && Repr == old(Repr)
      ensures log == Retained(old(log), retentionBytes, Cutoff(retentionMs, nowMs))
      ensures deleted == |old(log)| - |log|
      ensures forall i | 0 <= i < |old(log)| - 1 ::
        old(log)[i] !in log <==>
          || 0 <= retentionBytes < |Flat(All(old(log)[i..]))|
          || (&& retentionMs > 0
              && |old(log)[i + 1].batches| > 0
              && BaseTimestampOf(old(log)[i + 1].batches[0]) + retentionMs < nowMs)
      ensures |log| > 0 && LastOf(log) == LastOf(old(log)) && forall v | v in log :: v in old(log)
      ensures forall i, j | 0 <= i < j < |log| :: log[i].base < log[j].base
      ensures ExpiredInOrder(old(log), retentionBytes, Cutoff(retentionMs, nowMs)) ==> Valid()
    {
      hide ValidLog, Owned, IsKept, Retained, ExpiredInOrder, Flat, All, BaseTimestampOf, OverLimit;
      ghost var before, cutoff := log, Cutoff(retentionMs, nowMs);
      RetainedMeaning(cfg, log, nextOffset, retentionBytes, retentionMs, nowMs);
      if ExpiredInOrder(log, retentionBytes, cutoff) {
        RetainedKeepsReads(cfg, log, nextOffset, retentionBytes, cutoff, 0, 0);
      }
      if |segments| <= 1 {
        OneSegmentStays(log, retentionBytes, cutoff);
        return 0;
      }
      var reasons := new Reason[|segments| - 1](_ => Keep);
      MarkByBytes(reasons, retentionBytes);
      if retentionMs > 0 {
        MarkByTime(reasons, retentionBytes, nowMs - retentionMs);
      } else {
        KeptWithoutTime(log, retentionBytes);
      }
      deleted := DeleteMarked(reasons, retentionBytes, cutoff);
    }

    /** Marks the oldest sealed segments until the rest fits. */
    method MarkByBytes(reasons: array<Reason>, limit: int)
      requires Owned() && reasons.Length == |log| - 1 && reasons !in Repr
      requires forall i | 0 <= i < reasons.Length :: reasons[i] == Keep
      modifies reasons
      ensures forall i | 0 <= i < reasons.Length :: reasons[i] == if i < OverLimit(log, limit, 0) then ByBytes else Keep
    {
      hide ValidSegment, Size, Segment.Valid, Segment.View;
      if limit < 0 {
        return;
      }
      var total := TotalSize();
      var i := 0;
      while i < reasons.Length && total > limit
        invariant 0 <= i <= reasons.Length && total == TotalFrom(log, i)
        invariant OverLimit(log, limit, 0) == OverLimit(log, limit, i)
        invariant forall j | 0 <= j < reasons.Length :: reasons[j] == if j < i then ByBytes else Keep
      {
        reasons[i] := ByBytes;
        var size := segments[i].LogSize();
        total := total - size;
        i := i + 1;
      }
    }

    method TotalSize() returns (total: nat)
      requires Owned()
      ensures total == TotalFrom(log, 0)
    {
      hide ValidSegment, Size, Segment.Valid, Segment.View;
      total := 0;
      var i := 0;
      while i < |segments|
        invariant 0 <= i <= |segments|
        invariant total + TotalFrom(log, i) == TotalFrom(log, 0)
      {
        var size := segments[i].LogSize();
        total := total + size;
        i := i + 1;
      }
    }

    /** Marks the segments whose successor begins before `cutoff`; a successor without a batch marks nothing. */
    method MarkByTime(reasons: array<Reason>, limit: int, cutoff: int)
      requires Owned() && reasons.Length == |log| - 1 && reasons !in Repr
      requires forall i | 0 <= i < reasons.Length ::
        reasons[i] == if i < OverLimit(log, limit, 0) then ByBytes else Keep
      modifies reasons
      ensures forall i | 0 <= i < reasons.Length :: reasons[i] == Keep <==> IsKept(log, limit, Some(cutoff), i)
    {
      hide ValidSegment, Size, Segment.Valid, Segment.View, OverLimit, FirstTimestamp;
      var i := 0;
      while i < reasons.Length
        invariant 0 <= i <= reasons.Length
        invariant forall j | 0 <= j < i :: reasons[j] == Keep <==> IsKept(log, limit, Some(cutoff), j)
        invariant forall j | i <= j < reasons.Length ::
          reasons[j] == if j < OverLimit(log, limit, 0) then ByBytes else Keep
      {
        if reasons[i] == Keep {
          var ts := segments[i + 1].FirstBatchTimestamp();
          if ts.Some? && ts.value < cutoff {
            reasons[i] := ByTime;
          }
        }
        i := i + 1;
      }
    }

    method DeleteMarked(reasons: array<Reason>, ghost limit: int, ghost cutoff: Option<int>) returns (deleted: nat)
      requires Owned() && reasons.Length == |log| - 1 && reasons !in Repr
      requires forall i | 0 <= i < reasons.Length :: reasons[i] == Keep <==> IsKept(log, limit, cutoff, i)
      modifies this
      ensures Owned() && nextOffset == old(nextOffset) && Repr == old(Repr)
      ensures log == Retained(old(log), limit, cutoff) && deleted == |old(log)| - |log|
    {
      hide ValidSegment, Segment.Valid, Segment.View, IsKept, Partial, Owned;
      deleted := 0;
      var sealedSegs := segments[..|segments| - 1];
      ghost var segs, before := segments, log;
      PartialStart(segs, before, limit, cutoff);
      PartialStart(before, before, limit, cutoff);
      for i := 0 to reasons.Length
        invariant Owned() && nextOffset == old(nextOffset) && Repr == old(Repr)
        invariant segments == Partial(segs, before, limit, cutoff, i)
        invariant log == Partial(before, before, limit, cutoff, i)
        invariant deleted == |before| - |log|
      {
        ghost var k := |Filtered(before, before, limit, cutoff, i)|;
        PartialStep(segs, before, limit, cutoff, i);
        PartialStep(before, before, limit, cutoff, i);
        if reasons[i] != Keep {
          Remove(sealedSegs[i], k);
          deleted := deleted + 1;
        }
      }
      LastStays(before, limit, cutoff);
    }

    /** Takes one segment out of the list, wherever it is. */
    method Remove(seg: Segment, ghost k: nat)
      requires Owned() && k < |segments| && segments[k] == seg
      modifies this
      ensures Owned() && nextOffset == old(nextOffset) && Repr == old(Repr)
      ensures segments == old(segments)[..k] + old(segments)[k + 1..]
      ensures log == old(log)[..k] + old(log)[k + 1..]
    {
      hide ValidSegment, Segment.View, Segment.Valid;
      var j := IndexOf(seg, k);
      segments := segments[..j] + segments[j + 1..];
      log := log[..k] + log[k + 1..];
    }

    method IndexOf(seg: Segment, ghost k: nat) returns (j: nat)
      requires Owned() && k < |segments| && segments[k] == seg
      ensures j == k
    {
      hide Owned;
      j := 0;
      while segments[j] != seg
        invariant 0 <= j <= k
        decreases k - j
      {
        j := j + 1;
      }
      DistinctSegments(j, k);
    }

    lemma DistinctSegments(i: nat, j: nat)
      requires Owned() && i < |segments| && j < |segments| && segments[i] == segments[j]
      ensures i == j
    {
      hide Segment.Valid, Segment.View;
      assert segments[i] in segments[i].Repr;
    }

    method LastSegmentAt(offset: int) returns (lo: nat)
      requires Owned() && |log| > 0
      ensures IsSegmentOf(log, offset, lo)
    {
      hide ValidSegment, Segment.Valid;
      lo := |segments| - 1;
      assert forall i | 0 <= i < |segments| :: segments[i].baseOffset == log[i].base;
      while lo > 0 && segments[lo].baseOffset > offset
        invariant 0 <= lo < |segments|
        invariant forall j | lo < j < |log| :: offset < log[j].base
      {
        lo := lo - 1;
      }
    }

    method CutLast(offset: int)
      requires Owned() && |log| > 0
      modifies Repr
      ensures Owned() && fresh(Repr - old(Repr)) && nextOffset == old(nextOffset)
      ensures log == Replaced(old(log), Kept(LastOf(old(log)), CutIndex(LastOf(old(log)), offset)))
    {
      hide ValidSegment, Kept, CutIndex, Segment.Valid, Segment.View;
      var n := |segments| - 1;
      segments[n].TruncateAt(offset);
      log := log[n := segments[n].View()];
      Repr := Repr + segments[n].Repr;
    }
  }

  /** Why a segment is deleted. */
  datatype Reason = Keep | ByBytes | ByTime

  lemma KeptWithoutTime(log: Log, limit: int)
    requires |log| > 0
    ensures forall i | 0 <= i < |log| - 1 :: IsKept(log, limit, None, i) <==> i >= OverLimit(log, limit, 0)
  {
  }

  /** The list after the first `i` segments were dealt with. */
  ghost function Partial<T>(xs: seq<T>, log: Log, limit: int, cutoff: Option<int>, i: nat): seq<T>
    requires |xs| == |log| && i <= |log|
  {
    Filtered(xs, log, limit, cutoff, i) + xs[i..]
  }

  lemma PartialStart<T>(xs: seq<T>, log: Log, limit: int, cutoff: Option<int>)
    requires |xs| == |log|
    ensures Partial(xs, log, limit, cutoff, 0) == xs
  {
  }

  lemma {:induction false} FilteredLength<T>(xs: seq<T>, log: Log, limit: int, cutoff: Option<int>, i: nat)
    requires |xs| == |log| && i <= |log|
    ensures |Filtered(xs, log, limit, cutoff, i)| == |Filtered(log, log, limit, cutoff, i)| <= i
  {
    hide IsKept;
    if i > 0 {
      FilteredLength(xs, log, limit, cutoff, i - 1);
    }
  }

  /** Dealing with segment `i` leaves the list alone or takes that segment out of it. */
  lemma PartialStep<T>(xs: seq<T>, log: Log, limit: int, cutoff: Option<int>, i: nat)
    requires |xs| == |log| && i < |log|
    ensures var k := |Filtered(log, log, limit, cutoff, i)|;
      var p := Partial(xs, log, limit, cutoff, i);
      && k < |p| && p[k] == xs[i]
      && Partial(xs, log, limit, cutoff, i + 1) == if IsKept(log, limit, cutoff, i) then p else p[..k] + p[k + 1..]
  {
    hide IsKept;
    FilteredLength(xs, log, limit, cutoff, i);
    var f := Filtered(xs, log, limit, cutoff, i);
    assert xs[i..] == [xs[i]] + xs[i + 1..];
    assert Filtered(xs, log, limit, cutoff, i + 1) == f + (if IsKept(log, limit, cutoff, i) then [xs[i]] else []);
  }

  lemma LastStays(log: Log, limit: int, cutoff: Option<int>)
    requires |log| > 0
    ensures Retained(log, limit, cutoff) == Partial(log, log, limit, cutoff, |log| - 1)
  {
    PartialStep(log, log, limit, cutoff, |log| - 1);
  }

  lemma OneSegmentStays(log: Log, limit: int, cutoff: Option<int>)
    requires |log| == 1
    ensures Retained(log, limit, cutoff) == log
  {
    LastStays(log, limit, cutoff);
    PartialStart(log, log, limit, cutoff);
  }

  /** Where the scan of the last file stops is the end of the recovered log. */
  lemma ImageFacts(c: Config, log: Log, keep: nat)
    requires ValidConfig(c) && |log| > 0 && AllValid(c, log)
    requires LastOf(log).synced <= keep <= Size(LastOf(log))
    ensures forall i | 0 <= i < |log| :: ValidSegment(c, log[i])
    ensures var v := LastOf(log);
      && ScanFrom(c.crc, Flat(v.batches)[..keep], 0, v.base).nextOffset == End(LastOf(Recovered(log, keep)))
      && !LastOf(Recovered(log, keep)).sealed
  {
    hide Kept, Whole, Flat, ScanFrom, Size, End, ValidSegment, SamplesOf, MaxEntries;
    RecoveredFacts(c, LastOf(log), keep);
  }

  lemma RecoveredValid(c: Config, log: Log, next: int, keep: nat)
    requires ValidConfig(c) && ValidLog(c, log, next)
    ensures ValidLog(c, Recovered(log, keep), End(LastOf(Recovered(log, keep))))
  {
    hide ValidLog, Recovered, End, All, Before, Count, Whole, Trim, Roomy;
    var k := RecoverKeepsPrefix(c, log, next, keep);
    ActiveFacts(c, Recovered(log, keep), log[0].base + Count(All(log)[..k]));
  }

  lemma BasesAscend(c: Config, log: Log, next: int)
    requires ValidConfig(c) && ValidLog(c, log, next)
    ensures forall i, j | 0 <= i < j < |log| :: log[i].base < log[j].base
  {
    hide ValidLog;
    forall i, j | 0 <= i < j < |log| ensures log[i].base < log[j].base {
      BasesIncrease(c, log, next, i, j);
    }
  }

  /** Cutting a log at its end changes nothing. */
  lemma TruncateAtEnd(c: Config, log: Log)
    requires |log| > 0 && ValidSegment(c, LastOf(log)) && !LastOf(log).sealed
    ensures Truncated(log, End(LastOf(log))) == log
  {
    hide ValidSegment, Kept, CutIndex, SegmentOf, End, Size;
    var n := |log| - 1;
    EndIsLastCut(c, log[n]);
    EndNotBefore(log[n]);
    SegmentOfIsUnique(log, End(log[n]), n);
    assert log == log[..n] + [log[n]];
  }

  lemma EndIsLastCut(c: Config, v: SegmentView)
    requires ValidSegment(c, v) && !v.sealed
    ensures CutIndex(v, End(v)) == |v.batches| && Kept(v, |v.batches|) == v
  {
    hide ValidSegment, CutIndex, Flat, Count;
    SyncedWithin(c, v);
    assert v.batches[..|v.batches|] == v.batches;
    CutAtBoundary(c, v, |v.batches|);
  }

  /** The log with another active segment. */
  ghost function Replaced(log: Log, v: SegmentView): Log
    requires |log| > 0
  {
    log[..|log| - 1] + [v]
  }

  /** Appending is replacing the active segment, and then sealing it and adding another if it is full. */
  lemma AppendedInSteps(c: Config, log: Log, next: int64, b: Frame)
    requires |log| > 0
    ensures var v := LastOf(log).(batches := LastOf(log).batches + [Stamp(b, next)]);
      && LastOf(Replaced(log, v)) == v == Grown(LastOf(log), b, next)
      && |Replaced(log, v)| == |log|
      && Appended(c, log, next, b)
         == if Size(v) >= c.segmentMaxBytes then Replaced(Replaced(log, v), Sealed(v)) + [Fresh(End(v))]
            else Replaced(log, v)
  {
    hide Size, End, Stamp;
    var v := Grown(LastOf(log), b, next);
    assert Replaced(log, v)[..|log| - 1] == log[..|log| - 1];
    assert log[..|log| - 1] + [Sealed(v), Fresh(End(v))] == log[..|log| - 1] + [Sealed(v)] + [Fresh(End(v))];
  }

}
