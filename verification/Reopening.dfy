/**
 Crashes while a node opens. Cutting a log back deletes the later segments one by one, so a crash on the
 way leaves a hole in the directory. Opening again ends in the same log all the same.
 */
module Reopening {
  import opened Bytes
  import opened Framing
  import opened Scans
  import opened LogModel
  import opened LogReads
  import opened LogTruncation
  import opened PartitionModel

  /** `offset` is looked up in segment `lo`, where it is batch boundary `m`, and what is before it is on disk. */
  predicate CutsAt(c: Config, log: Log, offset: int, lo: nat, m: nat) {
    && IsSegmentOf(log, offset, lo) && ValidSegment(c, log[lo])
    && m <= |log[lo].batches| && offset == log[lo].base + Count(log[lo].batches[..m])
    && |Flat(log[lo].batches[..m])| <= log[lo].synced
  }

  /** What opening cuts the log down to. */
  function Target(log: Log, lo: nat, m: nat): Log
    requires lo < |log| && m <= |log[lo].batches|
  {
    log[..lo] + [Kept(log[lo], m)]
  }

  lemma KeptTwice(v: SegmentView, w: nat, m: nat)
    requires m <= w <= |v.batches|
    ensures Kept(Kept(v, w), m) == Kept(v, m)
  {
    hide Flat;
    assert v.batches[..w][..m] == v.batches[..m];
    TakeMonotone(v.batches, m, w);
  }

  /** Recovery does not reach below the cut. */
  lemma RecoveredCutsAt(c: Config, log: Log, keep: nat, offset: int, lo: nat, m: nat)
    requires ValidConfig(c) && |log| > 0 && CutsAt(c, log, offset, lo, m) && LastOf(log).synced <= keep
    ensures var r := Recovered(log, keep);
      && |r| == |log| && CutsAt(c, r, offset, lo, m) && Target(r, lo, m) == Target(log, lo, m)
      && SegmentOf(r, offset) == lo
  {
    hide ValidSegment, Whole, Flat, Count, Kept, SegmentOf;
    var r := Recovered(log, keep);
    var w := Whole(LastOf(log).batches, keep);
    KeptBase(LastOf(log), w);
    assert forall j | 0 <= j < |log| :: r[j].base == log[j].base;
    if lo == |log| - 1 {
      CutSurvives(log[lo].batches, keep, m);
      KeptCutsAt(c, log[lo], w, m);
      KeptTwice(log[lo], w, m);
    }
    SegmentOfIsUnique(r, offset, lo);
    assert r[..lo] == log[..lo];
  }

  lemma CutSurvives(bs: seq<Frame>, keep: nat, m: nat)
    requires m <= |bs| && |Flat(bs[..m])| <= keep
    ensures m <= Whole(bs, keep) <= |bs|
  {
    hide Flat, Whole;
    WholeBounds(bs, keep);
    var w := Whole(bs, keep);
    if w < m {
      TakeMonotone(bs, w + 1, m);
    }
  }

  lemma KeptCutsAt(c: Config, v: SegmentView, w: nat, m: nat)
    requires ValidSegment(c, v) && m <= w <= |v.batches| && |Flat(v.batches[..m])| <= v.synced
    ensures ValidSegment(c, Kept(v, w)) && Kept(v, w).base == v.base && m <= |Kept(v, w).batches|
    ensures Kept(v, w).batches[..m] == v.batches[..m] && |Flat(v.batches[..m])| <= Kept(v, w).synced
  {
    hide ValidSegment, Flat, Count;
    KeptValid(c, v, w);
    assert v.batches[..w][..m] == v.batches[..m];
    TakeMonotone(v.batches, m, w);
  }

  /** An interruption leaves the segment with the cut where it is. */
  lemma InterruptedCutsAt(c: Config, log: Log, keep: nat, offset: int, from: nat, lo: nat, m: nat)
    requires ValidConfig(c) && |log| > 0 && CutsAt(c, log, offset, lo, m) && LastOf(log).synced <= keep
    ensures var r := Interrupted(log, keep, offset, from);
      CutsAt(c, r, offset, lo, m) && Target(r, lo, m) == Target(log, lo, m)
  {
    hide ValidSegment, Recovered, Flat, Count, Kept, SegmentOf;
    RecoveredCutsAt(c, log, keep, offset, lo, m);
    var r := Recovered(log, keep);
    if End(LastOf(r)) > offset && lo < from <= |r| {
      var l := r[..lo + 1] + r[from..];
      assert l[..lo] == r[..lo] && l[lo] == r[lo];
      assert forall j | lo < j < |l| :: l[j] == r[j - lo - 1 + from];
    }
  }

  lemma {:induction false} InterruptionsCutAt(c: Config, log: Log, keep: nat, offset: int,
      again: seq<Interruption>, lo: nat, m: nat)
    requires ValidConfig(c) && |log| > 0 && CutsAt(c, log, offset, lo, m) && Survivable(log, keep, offset, again)
    ensures var (l, k) := AfterInterruptions(log, keep, offset, again);
      CutsAt(c, l, offset, lo, m) && Target(l, lo, m) == Target(log, lo, m) && LastOf(l).synced <= k
    decreases |again|
  {
    hide CutsAt, Interrupted, Target;
    assert again[..|again|] == again;
    if |again| > 0 {
      var n := |again| - 1;
      SurvivablePrefix(log, keep, offset, again, n);
      InterruptionsCutAt(c, log, keep, offset, again[..n], lo, m);
      var (l, k) := AfterInterruptions(log, keep, offset, again[..n]);
      CutsInside(c, l, offset, lo, m);
      CutsInside(c, log, offset, lo, m);
      InterruptedCutsAt(c, l, k, offset, again[n].from, lo, m);
    }
  }

  lemma CutsInside(c: Config, log: Log, offset: int, lo: nat, m: nat)
    requires CutsAt(c, log, offset, lo, m)
    ensures lo < |log| && m <= |log[lo].batches|
  {
  }

  lemma SurvivablePrefix(log: Log, keep: nat, offset: int, again: seq<Interruption>, n: nat)
    requires |log| > 0 && Survivable(log, keep, offset, again) && n <= |again|
    ensures Survivable(log, keep, offset, again[..n])
  {
    hide AfterInterruptions;
    forall i | 0 <= i <= n
      ensures var (l, k) := AfterInterruptions(log, keep, offset, again[..n][..i]); LastOf(l).synced <= k
    {
      assert again[..n][..i] == again[..i];
    }
  }

  /** Whatever was left, opening ends with the target. */
  lemma OpensToTarget(c: Config, n: Node, keep: nat, lo: nat, m: nat)
    requires ValidConfig(c) && |n.log| > 0 && n.sidecar.Some? && LastOf(n.log).synced <= keep
    requires CutsAt(c, n.log, n.sidecar.value.latestOffset, lo, m)
    ensures Opened(n, keep)
         == Node(Target(n.log, lo, m), n.sidecar.value.latestOffset, n.sidecar, n.sidecar.value.lastApplied)
  {
    hide ValidSegment, Recovered, Flat, Count, Kept, SegmentOf, CutIndex, End;
    var offset := n.sidecar.value.latestOffset;
    var r := Recovered(n.log, keep);
    RecoveredCutsAt(c, n.log, keep, offset, lo, m);
    CutAtBoundary(c, r[lo], m);
    EndOrAhead(c, r, offset, lo, m);
    if End(LastOf(r)) <= offset {
      RecoveredStays(n.log, keep);
    }
  }

  /** A log is ahead of the cut, or ends there. */
  lemma EndOrAhead(c: Config, log: Log, offset: int, lo: nat, m: nat)
    requires |log| > 0 && CutsAt(c, log, offset, lo, m)
    ensures End(LastOf(log)) >= offset
    ensures End(LastOf(log)) == offset ==> lo == |log| - 1 && m == |log[lo].batches|
  {
    hide ValidSegment, Flat, Count, Consecutive, AllWellFormed;
    var v := log[lo];
    SegmentFacts(c, v);
    EndNotBefore(LastOf(log));
    assert v.batches[..|v.batches|] == v.batches;
    TakeMonotone(v.batches, m, |v.batches|);
    if m < |v.batches| {
      CountStrict(c.crc, v.batches, m, |v.batches|);
    }
  }

  lemma RecoveredStays(log: Log, keep: nat)
    requires |log| > 0
    ensures var r := Recovered(log, keep); Target(r, |r| - 1, |LastOf(r).batches|) == r
  {
    hide Whole, Kept;
    var r, w := Recovered(log, keep), Whole(LastOf(log).batches, keep);
    KeptBase(LastOf(log), w);
    KeptTwice(LastOf(log), w, w);
    assert r == r[..|r| - 1] + [LastOf(r)];
  }

  /** However often opening is interrupted, it ends in the log that it would have ended in at once. */
  lemma ReopenedIsOpened(c: Config, n: Node, keep: nat, again: seq<Interruption>, lo: nat, m: nat)
    requires ValidConfig(c) && |n.log| > 0 && n.sidecar.Some? && Survives(n, keep, again)
    requires CutsAt(c, n.log, n.sidecar.value.latestOffset, lo, m)
    ensures Reopened(n, keep, again) == Opened(n, keep)
  {
    hide CutsAt, Opened, Target, AfterInterruptions, Survivable;
    var offset := n.sidecar.value.latestOffset;
    CutsInside(c, n.log, offset, lo, m);
    InterruptionsCutAt(c, n.log, keep, offset, again, lo, m);
    var (l, k) := AfterInterruptions(n.log, keep, offset, again);
    CutsInside(c, l, offset, lo, m);
    OpensToTarget(c, n, keep, lo, m);
    OpensToTarget(c, n.(log := l), k, lo, m);
  }
}
