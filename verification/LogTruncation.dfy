/** Cutting a log back: at an offset (TruncateTo), at a crash, and from the front (retention). */
module LogTruncation {
  import opened Bytes
  import opened Batch
  import opened Framing
  import opened Scans
  import opened Sampling
  import opened LogModel
  import opened LogReads

  function Min(a: nat, b: nat): nat {
    if a <= b then a else b
  }

  // --- TruncateTo -----------------------------------------------------------------------------

  /** The first batch from `k` on whose base offset is `offset`, or the end of the list. */
  function FirstAt(bs: seq<Frame>, offset: int, k: nat): (r: nat)
    requires k <= |bs|
    ensures k <= r <= |bs|
    decreases |bs| - k
  {
    if k == |bs| || BaseOf(bs[k]) == offset then k else FirstAt(bs, offset, k + 1)
  }

  /** Where the log of a segment is cut: nothing is cut when no batch begins at `offset`. */
  function CutIndex(v: SegmentView, offset: int): (k: nat)
    ensures k <= |v.batches|
  {
    if offset == v.base then 0 else FirstAt(v.batches, offset, 0)
  }

  /** A segment with its first `k` batches, open for writing. */
  function Kept(v: SegmentView, k: nat): SegmentView
    requires k <= |v.batches|
  {
    SegmentView(v.base, v.batches[..k], false, Min(v.synced, |Flat(v.batches[..k])|))
  }

  function Truncated(log: Log, offset: int): (r: Log)
    requires |log| > 0
  {
    var lo := SegmentOf(log, offset);
    log[..lo] + [Kept(log[lo], CutIndex(log[lo], offset))]
  }

  /** `offset` is where batch `k` of the flat list begins, or the end of the list. */
  predicate IsBoundaryAt(log: Log, offset: int, k: nat) {
    |log| > 0 && k <= |All(log)| && offset == log[0].base + Count(All(log)[..k])
  }

  ghost predicate IsBoundary(log: Log, offset: int) {
    exists k: nat :: IsBoundaryAt(log, offset, k)
  }

  lemma {:induction false} FirstAtBoundary(crc: Checksum, base: int, bs: seq<Frame>, m: nat, k: nat)
    requires AllWellFormed(crc, bs) && Consecutive(base, bs) && k <= m <= |bs|
    ensures FirstAt(bs, base + Count(bs[..m]), k) == m
    decreases m - k
  {
    hide WellFormed, Count;
    if k < m {
      CountStrict(crc, bs, k, m);
      FirstAtBoundary(crc, base, bs, m, k + 1);
    }
  }

  lemma CutAtBoundary(c: Config, v: SegmentView, m: nat)
    requires ValidSegment(c, v) && m <= |v.batches|
    ensures CutIndex(v, v.base + Count(v.batches[..m])) == m
  {
    hide ValidSegment, Consecutive, AllWellFormed, FirstAt, Count;
    SegmentFacts(c, v);
    EmptyList(v.batches);
    if m > 0 {
      FirstAtBoundary(c.crc, v.base, v.batches, m, 0);
      CountStrict(c.crc, v.batches, 0, m);
    }
  }

  lemma KeptValid(c: Config, v: SegmentView, k: nat)
    requires ValidSegment(c, v) && k <= |v.batches|
    ensures ValidSegment(c, Kept(v, k)) && !Kept(v, k).sealed
    ensures StartsBelow(v.batches, c.segmentMaxBytes) ==>
      StartsBelow(Kept(v, k).batches, c.segmentMaxBytes) && (k < |v.batches| ==> Size(Kept(v, k)) < c.segmentMaxBytes)
    ensures k == |v.batches| ==> Size(Kept(v, k)) == Size(v)
    ensures End(Kept(v, k)) == v.base + Count(v.batches[..k]) <= End(v)
  {
    hide Consecutive, WellFormed, StartsBelow, Flat, Count, SamplesOf, MaxEntries;
    ConsecutiveTake(v.base, v.batches, k);
    StartsBelowTake(v.batches, TWO_31, k);
    if StartsBelow(v.batches, c.segmentMaxBytes) {
      StartsBelowTake(v.batches, c.segmentMaxBytes, k);
    }
    RebuildFits(c.indexSampleBytes, v.base, v.batches, k);
    TakeMonotone(v.batches, k, |v.batches|);
    assert v.batches[..|v.batches|] == v.batches;
  }

  /** Segments up to `lo`, the last of them cut to `m` batches, form a log of their own. */
  lemma CutLogValid(c: Config, log: Log, next: int, lo: nat, m: nat)
    requires ValidLog(c, log, next) && lo < |log| && m <= |log[lo].batches|
    requires lo < |log| - 1 ==> m < |log[lo].batches|
    ensures var r := log[..lo] + [Kept(log[lo], m)];
      ValidLog(c, r, log[lo].base + Count(log[lo].batches[..m])) && r[0].base == log[0].base
  {
    hide ValidSegment, Filled, Size, End, Kept, Count, Flat;
    KeptValid(c, log[lo], m);
    KeptBase(log[lo], m);
  }

  lemma KeptBase(v: SegmentView, k: nat)
    requires k <= |v.batches|
    ensures Kept(v, k).base == v.base && Kept(v, k).batches == v.batches[..k]
  {
  }

  lemma CutLogFlat(log: Log, lo: nat, m: nat)
    requires lo < |log| && m <= |log[lo].batches|
    ensures Before(log, lo) + m <= |All(log)|
    ensures All(log[..lo] + [Kept(log[lo], m)]) == All(log)[..Before(log, lo) + m]
  {
    hide All, Kept;
    KeptBase(log[lo], m);
    AllSnoc(log[..lo], Kept(log[lo], m));
    SegmentInFlat(log, lo, 0, m);
  }

  /** Boundary `k` of the flat list falls in segment `lo`, and not at the end of a sealed one. */
  predicate Located(log: Log, offset: int, k: nat, lo: nat) {
    && lo < |log|
    && Before(log, lo) <= k <= Before(log, lo) + |log[lo].batches|
    && offset == log[lo].base + Count(log[lo].batches[..k - Before(log, lo)])
    && (lo < |log| - 1 ==> k < Before(log, lo) + |log[lo].batches|)
  }

  /** A batch boundary lies in the segment where its offset is looked up. */
  lemma LocateBoundary(c: Config, log: Log, next: int, offset: int, k: nat)
    requires ValidConfig(c) && ValidLog(c, log, next) && IsBoundaryAt(log, offset, k)
    ensures Located(log, offset, k, SegmentOf(log, offset))
  {
    hide ValidSegment, Filled, Size, All, Count, Before, SegmentOf, ValidLog, AllWellFormed, Consecutive;
    var bs := All(log);
    var lo := SegmentOf(log, offset);
    LogIsConsecutive(c, log, next);
    SegmentSpan(c, log, next, lo);
    if k < Before(log, lo) {
      CountStrict(c.crc, bs, k, Before(log, lo));
    }
    var hi := Before(log, lo) + |log[lo].batches|;
    if hi < k {
      CountStrict(c.crc, bs, hi, k);
    }
    if Before(log, lo) <= k <= hi {
      OffsetInFlat(c, log, next, lo, k - Before(log, lo));
    }
  }

  /** Where a segment's batches begin and end in the flat list, and at which offsets. */
  lemma SegmentSpan(c: Config, log: Log, next: int, lo: nat)
    requires ValidLog(c, log, next) && lo < |log|
    ensures var hi := Before(log, lo) + |log[lo].batches|;
      && hi <= |All(log)|
      && log[0].base + Count(All(log)[..Before(log, lo)]) == log[lo].base
      && log[0].base + Count(All(log)[..hi]) == StartOf(log, next, lo + 1)
      && (lo == |log| - 1 ==> hi == |All(log)|)
      && (lo == 0 ==> Before(log, lo) == 0)
  {
    hide ValidSegment, Filled, Size, Count;
    OffsetInFlat(c, log, next, lo, 0);
    OffsetInFlat(c, log, next, lo, |log[lo].batches|);
    WholeSegment(log[lo]);
    AllStep(log, lo);
    assert log[..|log|] == log;
  }

  lemma WholeSegment(v: SegmentView)
    ensures Count(v.batches[..0]) == 0 && v.base + Count(v.batches[..|v.batches|]) == End(v)
  {
    assert v.batches[..|v.batches|] == v.batches;
  }

  /**
   Truncating at a batch boundary keeps exactly the batches before it, wherever the cut falls:
   in the active segment, in a sealed one, or at the base of a segment. What is left is a log
   that ends at the offset and can be appended to.
   */
  lemma TruncateKeepsPrefix(c: Config, log: Log, next: int, k: nat)
    requires ValidConfig(c) && ValidLog(c, log, next) && k <= |All(log)|
    ensures var offset := log[0].base + Count(All(log)[..k]);
      && ValidLog(c, Truncated(log, offset), offset)
      && All(Truncated(log, offset)) == All(log)[..k]
      && Truncated(log, offset)[0].base == log[0].base
  {
    hide ValidSegment, Filled, Size, All, Count, Before, SegmentOf, ValidLog, Kept, CutIndex;
    var offset := log[0].base + Count(All(log)[..k]);
    var lo := SegmentOf(log, offset);
    LocateBoundary(c, log, next, offset, k);
    var m := k - Before(log, lo);
    SegmentIsValid(c, log, next, lo);
    CutAtBoundary(c, log[lo], m);
    CutLogValid(c, log, next, lo, m);
    CutLogFlat(log, lo, m);
  }

  /** A log that is cut short has room again. */
  lemma TruncateMakesRoom(c: Config, log: Log, next: int, k: nat)
    requires ValidConfig(c) && ValidLog(c, log, next) && k <= |All(log)|
    requires (k < |All(log)| && Trim(c, log)) || Roomy(c, log)
    ensures Roomy(c, Truncated(log, log[0].base + Count(All(log)[..k])))
  {
    hide ValidSegment, Filled, Size, All, Count, Before, SegmentOf, ValidLog, Kept, CutIndex, StartsBelow;
    var offset := log[0].base + Count(All(log)[..k]);
    var lo := SegmentOf(log, offset);
    LocateBoundary(c, log, next, offset, k);
    var m := k - Before(log, lo);
    SegmentIsValid(c, log, next, lo);
    CutAtBoundary(c, log[lo], m);
    KeptValid(c, log[lo], m);
    SegmentSpan(c, log, next, lo);
  }

  /** For an offset up to the end, truncation leaves a log that ends there exactly at batch boundaries. */
  lemma TruncateIffBoundary(c: Config, log: Log, next: int, offset: int)
    requires ValidConfig(c) && ValidLog(c, log, next)
    ensures ValidLog(c, Truncated(log, offset), offset) <==> IsBoundary(log, offset)
  {
    hide ValidSegment, Filled, Size, All, Count, Before, SegmentOf, ValidLog, Kept, CutIndex;
    if IsBoundary(log, offset) {
      var k: nat :| IsBoundaryAt(log, offset, k);
      TruncateKeepsPrefix(c, log, next, k);
    }
    if ValidLog(c, Truncated(log, offset), offset) {
      var lo := SegmentOf(log, offset);
      var m := CutIndex(log[lo], offset);
      SegmentIsValid(c, log, next, lo);
      KeptValid(c, log[lo], m);
      ActiveFacts(c, Truncated(log, offset), offset);
      OffsetInFlat(c, log, next, lo, m);
      assert IsBoundaryAt(log, offset, Before(log, lo) + m);
    }
  }

  // --- Crash and recovery -----------------------------------------------------------------------

  /** The log a restarted node finds when `keep` bytes of the active log survive. */
  function Recovered(log: Log, keep: nat): (r: Log)
    requires |log| > 0
  {
    log[..|log| - 1] + [Kept(LastOf(log), Whole(LastOf(log).batches, keep))]
  }

  /** Recovery keeps a prefix of the flat list that includes every batch on disk before the cut. */
  lemma RecoverKeepsPrefix(c: Config, log: Log, next: int, keep: nat) returns (k: nat)
    requires ValidConfig(c) && ValidLog(c, log, next)
    ensures k <= |All(log)| && All(Recovered(log, keep)) == All(log)[..k]
    ensures ValidLog(c, Recovered(log, keep), log[0].base + Count(All(log)[..k]))
    ensures Recovered(log, keep)[0].base == log[0].base
    ensures k == Before(log, |log| - 1) + Whole(LastOf(log).batches, keep)
    ensures (k < |All(log)| && Trim(c, log)) || Roomy(c, log) ==> Roomy(c, Recovered(log, keep))
    ensures Trim(c, log) ==> Trim(c, Recovered(log, keep))
  {
    hide ValidSegment, Filled, Size, All, Count, Before, ValidLog, Kept, Whole, StartsBelow;
    var lo := |log| - 1;
    var m := Whole(LastOf(log).batches, keep);
    k := Before(log, lo) + m;
    CutLogValid(c, log, next, lo, m);
    CutLogFlat(log, lo, m);
    OffsetInFlat(c, log, next, lo, m);
    SegmentIsValid(c, log, next, lo);
    KeptValid(c, log[lo], m);
    SegmentSpan(c, log, next, lo);
  }

  // --- Dropping segments from the front -----------------------------------------------------------

  /** Without its first `k` segments a log still is one, and lost exactly their batches. */
  lemma RetainRefines(c: Config, log: Log, next: int, k: nat)
    requires ValidLog(c, log, next) && k < |log|
    ensures ValidLog(c, log[k..], next)
    ensures Before(log, k) <= |All(log)| && All(log[k..]) == All(log)[Before(log, k)..]
    ensures log[k].base == log[0].base + Count(All(log)[..Before(log, k)])
  {
    hide ValidSegment, Filled, Size, End, All, Count;
    AllSplit(log, k);
    OffsetInFlat(c, log, next, k, 0);
    WholeSegment(log[k]);
  }

  /** Reads at or above the new first offset do not change. */
  lemma RetainKeepsReads(c: Config, log: Log, next: int, k: nat, offset: int, maxBytes: int)
    requires ValidConfig(c) && ValidLog(c, log, next) && k < |log| && offset >= log[k].base
    ensures ReadLog(log[k..], next, offset, maxBytes) == ReadLog(log, next, offset, maxBytes)
  {
    hide ValidLog, FullScan, SegmentOf, IsSegmentOf;
    if k > 0 {
      BasesIncrease(c, log, next, 0, k);
    }
    SameLookup(log, k, offset);
  }

  lemma SameLookup(log: Log, k: nat, offset: int)
    requires k < |log| && log[k].base <= offset
    ensures var i := SegmentOf(log[k..], offset);
      SegmentOf(log, offset) == k + i && k + i < |log| && log[k..][i] == log[k + i]
  {
    hide SegmentOf;
    var i := SegmentOf(log[k..], offset);
    assert IsSegmentOf(log, offset, k + i) by {
      assert forall j | k + i < j < |log| :: log[j] == log[k..][j - k];
    }
    SegmentOfIsUnique(log, offset, k + i);
  }
}
