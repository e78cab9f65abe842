/** Which sealed segments the retention policy deletes, and when what is left is still a log. */
module Retention {
  import opened Bytes
  import opened Batch
  import opened Framing
  import opened Scans
  import opened LogModel
  import opened LogReads
  import opened LogTruncation

  /** The size of all segments from `i` on. */
  function TotalFrom(log: Log, i: nat): (n: nat)
    requires i <= |log|
    decreases |log| - i
  {
    if i == |log| then 0 else Size(log[i]) + TotalFrom(log, i + 1)
  }

  /** How many of the oldest sealed segments the byte limit marks, from `i` on; negative means no limit. */
  function OverLimit(log: Log, limit: int, i: nat): (k: nat)
    requires i < |log|
    ensures i <= k < |log|
    decreases |log| - i
  {
    if limit < 0 || i == |log| - 1 || TotalFrom(log, i) <= limit then i else OverLimit(log, limit, i + 1)
  }

  function FirstTimestamp(v: SegmentView): Option<int> {
    if |v.batches| == 0 then None else Some(BaseTimestampOf(v.batches[0]))
  }

  /** A sealed segment is expired when the next one begins before `cutoff`. */
  predicate Expired(log: Log, i: nat, cutoff: Option<int>)
    requires i < |log| - 1
  {
    && cutoff.Some?
    && FirstTimestamp(log[i + 1]).Some?
    && FirstTimestamp(log[i + 1]).value < cutoff.value
  }

  /** What is kept: the active segment, and every sealed one that neither limit marks. */
  predicate IsKept(log: Log, limit: int, cutoff: Option<int>, i: nat)
    requires i < |log|
  {
    i == |log| - 1 || (i >= OverLimit(log, limit, 0) && !Expired(log, i, cutoff))
  }

  /** The kept ones among the first `n` elements of a list that goes with the segments. */
  function Filtered<T>(xs: seq<T>, log: Log, limit: int, cutoff: Option<int>, n: nat): (r: seq<T>)
    requires |xs| == |log| && n <= |log|
  {
    if n == 0 then []
    else Filtered(xs, log, limit, cutoff, n - 1) + (if IsKept(log, limit, cutoff, n - 1) then [xs[n - 1]] else [])
  }

  function Retained(log: Log, limit: int, cutoff: Option<int>): (r: Log)
    requires |log| > 0
  {
    Filtered(log, log, limit, cutoff, |log|)
  }

  // --- The byte limit ---------------------------------------------------------------------------

  /** The byte limit marks the shortest prefix that brings the total within it, or all sealed segments. */
  lemma {:induction false} OverLimitIsShortest(log: Log, limit: nat, i: nat)
    requires i < |log|
    ensures var k := OverLimit(log, limit, i);
      && (TotalFrom(log, k) <= limit || k == |log| - 1)
      && (forall j | i <= j < k :: TotalFrom(log, j) > limit)
    decreases |log| - i
  {
    if !(i == |log| - 1 || TotalFrom(log, i) <= limit) {
      OverLimitIsShortest(log, limit, i + 1);
    }
  }

  lemma {:induction false} TotalMonotone(log: Log, i: nat, j: nat)
    requires i <= j <= |log|
    ensures TotalFrom(log, i) >= TotalFrom(log, j)
    decreases j - i
  {
    hide Size;
    if i < j {
      TotalMonotone(log, i + 1, j);
    }
  }

  /** The byte limit marks a sealed segment exactly if what follows it, itself included, is over the limit. */
  lemma OverLimitIff(log: Log, limit: nat, i: nat)
    requires i < |log| - 1
    ensures i < OverLimit(log, limit, 0) <==> TotalFrom(log, i) > limit
  {
    hide OverLimit, TotalFrom;
    OverLimitIsShortest(log, limit, 0);
    var k := OverLimit(log, limit, 0);
    if k <= i {
      TotalMonotone(log, k, i);
    }
  }

  /** The total is that of the bytes of all batches. */
  lemma {:induction false} TotalIsBytes(log: Log, i: nat)
    requires i <= |log|
    ensures TotalFrom(log, i) == |Flat(All(log[i..]))|
    decreases |log| - i
  {
    hide Flat, All;
    if i == |log| {
      NothingIsEmpty();
    } else {
      TotalIsBytes(log, i + 1);
      AllSplit(log[i..], 1);
      assert log[i..][1..] == log[i + 1..] && log[i..][..1] == [log[i]];
      AllOne(log[i]);
      FlatConcat(log[i].batches, All(log[i + 1..]));
    }
  }

  lemma NothingIsEmpty()
    ensures Flat(All([])) == []
  {
  }

  lemma AllOne(v: SegmentView)
    ensures All([v]) == v.batches
  {
    assert [v][..0] == [];
    assert [] + v.batches == v.batches;
  }

  /**
   What deletes a sealed segment, in bytes and in times. Bytes: it and what follows take more than the
   limit. Time: the segment after it begins with a record older than the retention time.
   */
  predicate TooMuch(log: Log, limit: int, i: nat)
    requires i < |log|
  {
    0 <= limit < |Flat(All(log[i..]))|
  }

  predicate TooOld(log: Log, retentionMs: int, nowMs: int, i: nat)
    requires i < |log| - 1
  {
    && retentionMs > 0
    && |log[i + 1].batches| > 0
    && BaseTimestampOf(log[i + 1].batches[0]) + retentionMs < nowMs
  }

  /** Time before which a segment's successor must begin for it to be deleted. */
  function Cutoff(retentionMs: int, nowMs: int): Option<int> {
    if retentionMs > 0 then Some(nowMs - retentionMs) else None
  }

  lemma KeptIff(log: Log, limit: int, retentionMs: int, nowMs: int, i: nat)
    requires i < |log| - 1
    ensures IsKept(log, limit, Cutoff(retentionMs, nowMs), i)
       <==> !TooMuch(log, limit, i) && !TooOld(log, retentionMs, nowMs, i)
  {
    hide Flat, All, TotalFrom, BaseTimestampOf;
    TotalIsBytes(log, i);
    if limit >= 0 {
      hide OverLimit;
      OverLimitIff(log, limit, i);
    }
  }

  /** Filtering keeps exactly the kept ones, and their order. */
  lemma {:induction false} FilteredHolds(log: Log, limit: int, cutoff: Option<int>, n: nat)
    requires n <= |log| && forall i, j | 0 <= i < j < |log| :: log[i].base < log[j].base
    ensures var f := Filtered(log, log, limit, cutoff, n);
      && (forall i | 0 <= i < n :: log[i] in f <==> IsKept(log, limit, cutoff, i))
      && (forall v | v in f :: v in log[..n])
      && (forall i, j | 0 <= i < j < |f| :: f[i].base < f[j].base)
    decreases n
  {
    hide IsKept;
    if n > 0 {
      FilteredHolds(log, limit, cutoff, n - 1);
      var f := Filtered(log, log, limit, cutoff, n - 1);
      assert log[..n] == log[..n - 1] + [log[n - 1]];
      forall v | v in f ensures v.base < log[n - 1].base {
        var k :| 0 <= k < n - 1 && log[..n - 1][k] == v;
      }
    }
  }

  /** What retention leaves, in bytes and in times. */
  lemma RetainedMeaning(c: Config, log: Log, next: int, limit: int, retentionMs: int, nowMs: int)
    requires ValidConfig(c) && ValidLog(c, log, next)
    ensures var r := Retained(log, limit, Cutoff(retentionMs, nowMs));
      && (forall i | 0 <= i < |log| - 1 ::
            log[i] !in r <==> TooMuch(log, limit, i) || TooOld(log, retentionMs, nowMs, i))
      && (forall v | v in r :: v in log)
      && (forall i, j | 0 <= i < j < |r| :: r[i].base < r[j].base)
      && |r| > 0 && LastOf(r) == LastOf(log)
  {
    hide ValidLog, IsKept, TooMuch, TooOld;
    forall i, j | 0 <= i < j < |log| ensures log[i].base < log[j].base {
      BasesIncrease(c, log, next, i, j);
    }
    var cutoff := Cutoff(retentionMs, nowMs);
    FilteredHolds(log, limit, cutoff, |log|);
    assert log[..|log|] == log;
    forall i | 0 <= i < |log| - 1
      ensures log[i] !in Retained(log, limit, cutoff)
         <==> TooMuch(log, limit, i) || TooOld(log, retentionMs, nowMs, i)
    {
      KeptIff(log, limit, retentionMs, nowMs, i);
    }
    LastIsKept(log, limit, cutoff);
  }

  lemma LastIsKept(log: Log, limit: int, cutoff: Option<int>)
    requires |log| > 0
    ensures |Retained(log, limit, cutoff)| > 0 && LastOf(Retained(log, limit, cutoff)) == LastOf(log)
  {
  }

  // --- A prefix or a hole -----------------------------------------------------------------------

  /** Past the byte limit, no segment is expired behind one that is not. */
  predicate ExpiredInOrder(log: Log, limit: int, cutoff: Option<int>)
    requires |log| > 0
  {
    forall i, j | OverLimit(log, limit, 0) <= i < j < |log| - 1 :: Expired(log, j, cutoff) ==> Expired(log, i, cutoff)
  }

  /** First timestamps that do not go backwards. */
  predicate TimesAscend(log: Log) {
    forall i, j | 0 <= i < j < |log| && FirstTimestamp(log[j]).Some? ::
      FirstTimestamp(log[i]).Some? && FirstTimestamp(log[i]).value <= FirstTimestamp(log[j]).value
  }

  lemma AscendingExpireInOrder(log: Log, limit: int, cutoff: Option<int>)
    requires |log| > 0 && TimesAscend(log)
    ensures ExpiredInOrder(log, limit, cutoff)
  {
    forall i, j | OverLimit(log, limit, 0) <= i < j < |log| - 1 && Expired(log, j, cutoff)
      ensures Expired(log, i, cutoff)
    {
      assert FirstTimestamp(log[i + 1]).Some?;
    }
  }

  /** The first segment that is kept. */
  function FirstKept(log: Log, limit: int, cutoff: Option<int>, i: nat): (k: nat)
    requires i < |log|
    ensures i <= k < |log| && IsKept(log, limit, cutoff, k)
    ensures forall j | i <= j < k :: !IsKept(log, limit, cutoff, j)
    decreases |log| - i
  {
    if IsKept(log, limit, cutoff, i) then i else FirstKept(log, limit, cutoff, i + 1)
  }

  lemma {:induction false} FilteredNone<T>(xs: seq<T>, log: Log, limit: int, cutoff: Option<int>, n: nat)
    requires |xs| == |log| && n <= |log| && forall j | 0 <= j < n :: !IsKept(log, limit, cutoff, j)
    ensures Filtered(xs, log, limit, cutoff, n) == []
  {
    if n > 0 {
      FilteredNone(xs, log, limit, cutoff, n - 1);
    }
  }

  lemma {:induction false} FilteredSuffix(log: Log, limit: int, cutoff: Option<int>, k: nat, n: nat)
    requires k <= n <= |log| && (forall j | 0 <= j < k :: !IsKept(log, limit, cutoff, j))
    requires forall j | k <= j < n :: IsKept(log, limit, cutoff, j)
    ensures Filtered(log, log, limit, cutoff, n) == log[k..n]
    decreases n
  {
    hide IsKept;
    if k == n {
      FilteredNone(log, log, limit, cutoff, n);
    } else {
      FilteredSuffix(log, limit, cutoff, k, n - 1);
      assert log[k..n] == log[k..n - 1] + [log[n - 1]];
    }
  }

  /** In order of expiry, the policy drops segments from the front and nothing else. */
  lemma RetainedIsSuffix(log: Log, limit: int, cutoff: Option<int>)
    requires |log| > 0 && ExpiredInOrder(log, limit, cutoff)
    ensures Retained(log, limit, cutoff) == log[FirstKept(log, limit, cutoff, 0)..]
  {
    var k := FirstKept(log, limit, cutoff, 0);
    forall j | k <= j < |log| ensures IsKept(log, limit, cutoff, j) {
    }
    FilteredSuffix(log, limit, cutoff, k, |log|);
    assert log[k..|log|] == log[k..];
  }

  /** With the byte limit alone, exactly its prefix goes. */
  lemma BytesOnlyDropsPrefix(log: Log, limit: int)
    requires |log| > 0
    ensures Retained(log, limit, None) == log[OverLimit(log, limit, 0)..]
  {
    RetainedIsSuffix(log, limit, None);
    assert IsKept(log, limit, None, OverLimit(log, limit, 0));
  }

  /** A suffix of a log is never empty, never loses the active segment, and answers reads as before. */
  lemma RetainedKeepsReads(c: Config, log: Log, next: int, limit: int, cutoff: Option<int>, offset: int, maxBytes: int)
    requires ValidConfig(c) && ValidLog(c, log, next) && ExpiredInOrder(log, limit, cutoff)
    ensures var r := Retained(log, limit, cutoff);
      && ValidLog(c, r, next) && LastOf(r) == LastOf(log)
      && (offset >= r[0].base ==> ReadLog(r, next, offset, maxBytes) == ReadLog(log, next, offset, maxBytes))
  {
    hide ValidLog, IsKept, Expired, OverLimit, ReadLog, Retained;
    RetainedIsSuffix(log, limit, cutoff);
    var k := FirstKept(log, limit, cutoff, 0);
    RetainRefines(c, log, next, k);
    if offset >= log[k].base {
      RetainKeepsReads(c, log, next, k, offset, maxBytes);
    }
  }

  lemma {:induction false} FilteredHoldsKept(log: Log, limit: int, cutoff: Option<int>, n: nat, i: nat)
    requires i < n <= |log| && IsKept(log, limit, cutoff, i)
    ensures log[i] in Filtered(log, log, limit, cutoff, n)
    decreases n
  {
    hide IsKept;
    if i < n - 1 {
      FilteredHoldsKept(log, limit, cutoff, n - 1, i);
    }
  }

  lemma {:induction false} FilteredHoldsOnlyKept(log: Log, limit: int, cutoff: Option<int>, n: nat, v: SegmentView)
      returns (i: nat)
    requires n <= |log| && v in Filtered(log, log, limit, cutoff, n)
    ensures i < n && log[i] == v && IsKept(log, limit, cutoff, i)
    decreases n
  {
    hide IsKept;
    if v in Filtered(log, log, limit, cutoff, n - 1) {
      i := FilteredHoldsOnlyKept(log, limit, cutoff, n - 1, v);
    } else {
      i := n - 1;
    }
  }

  predicate IsSuffix(r: Log, log: Log, k: nat) {
    k < |log| && r == log[k..]
  }

  /** Retention leaves a suffix of the log exactly when segments expire in order; otherwise it leaves a hole. */
  lemma SuffixIffExpiredInOrder(c: Config, log: Log, next: int, limit: int, cutoff: Option<int>)
    requires ValidConfig(c) && ValidLog(c, log, next)
    ensures (exists k: nat :: IsSuffix(Retained(log, limit, cutoff), log, k)) <==> ExpiredInOrder(log, limit, cutoff)
  {
    hide ValidLog;
    if ExpiredInOrder(log, limit, cutoff) {
      RetainedIsSuffix(log, limit, cutoff);
      assert IsSuffix(Retained(log, limit, cutoff), log, FirstKept(log, limit, cutoff, 0));
    } else {
      var i, j :| OverLimit(log, limit, 0) <= i < j < |log| - 1 && Expired(log, j, cutoff) && !Expired(log, i, cutoff);
      forall k: nat ensures !IsSuffix(Retained(log, limit, cutoff), log, k) {
        HoleIsNoSuffix(c, log, next, limit, cutoff, i, j, k);
      }
    }
  }

  lemma HoleIsNoSuffix(c: Config, log: Log, next: int, limit: int, cutoff: Option<int>, i: nat, j: nat, k: nat)
    requires ValidConfig(c) && ValidLog(c, log, next)
    requires i < j < |log| && IsKept(log, limit, cutoff, i) && !IsKept(log, limit, cutoff, j)
    ensures !IsSuffix(Retained(log, limit, cutoff), log, k)
  {
    hide ValidLog, IsKept, Filtered;
    var r := Retained(log, limit, cutoff);
    FilteredHoldsKept(log, limit, cutoff, |log|, i);
    if IsSuffix(r, log, k) {
      var m :| 0 <= m < |r| && r[m] == log[i];
      OnePlaceOnly(c, log, next, k + m, i);
      assert r[j - k] == log[j];
      var p := FilteredHoldsOnlyKept(log, limit, cutoff, |log|, log[j]);
      OnePlaceOnly(c, log, next, p, j);
    }
  }

  lemma OnePlaceOnly(c: Config, log: Log, next: int, i: nat, j: nat)
    requires ValidConfig(c) && ValidLog(c, log, next) && i < |log| && j < |log| && log[i] == log[j]
    ensures i == j
  {
    hide ValidLog;
    if i < j {
      BasesIncrease(c, log, next, i, j);
    } else if j < i {
      BasesIncrease(c, log, next, j, i);
    }
  }

  // --- What a hole does ---------------------------------------------------------------------------

  /** A segment that ends at or before the offset has nothing for it. */
  lemma NothingPastEnd(v: SegmentView, offset: int, maxBytes: int)
    requires Consecutive(v.base, v.batches) && End(v) <= offset
    ensures FullScan(v.batches, offset, maxBytes) == ReadResult([], offset)
  {
    hide Consecutive, Visit;
    assert v.batches[..|v.batches|] == v.batches;
    SkipPreservesRead(v.base, v.batches, |v.batches|, offset, maxBytes);
    VisitEnd(v.batches, offset, maxBytes, ReadResult([], offset));
  }

  /**
   What is kept of the first `m` segments begins with what is kept of the first `n`; the rest
   comes from behind them.
   */
  lemma {:induction false} FilteredGrows(log: Log, limit: int, cutoff: Option<int>, n: nat, m: nat)
    requires n <= m <= |log|
    ensures var f, g := Filtered(log, log, limit, cutoff, n), Filtered(log, log, limit, cutoff, m);
      && |f| <= |g| && g[..|f|] == f
      && forall q | |f| <= q < |g| :: FromBehind(log, n, m, g[q])
    decreases m
  {
    hide IsKept;
    if n < m {
      FilteredGrows(log, limit, cutoff, n, m - 1);
      var f, g := Filtered(log, log, limit, cutoff, n), Filtered(log, log, limit, cutoff, m - 1);
      forall q | |f| <= q < |g| ensures FromBehind(log, n, m, g[q]) {
        assert FromBehind(log, n, m - 1, g[q]);
      }
      assert FromBehind(log, n, m, log[m - 1]);
    }
  }

  predicate FromBehind(log: Log, n: nat, m: nat, v: SegmentView)
    requires m <= |log|
  {
    exists x | n <= x < m :: log[x] == v
  }

  /** With segment `d` gone and the one before it kept, the offset where `d` began is looked up in the one before. */
  lemma LookupInHole(c: Config, log: Log, next: int, limit: int, cutoff: Option<int>, d: nat) returns (p: nat)
    requires ValidConfig(c) && ValidLog(c, log, next) && 0 < d < |log|
    requires IsKept(log, limit, cutoff, d - 1) && !IsKept(log, limit, cutoff, d)
    ensures var r := Retained(log, limit, cutoff);
      IsSegmentOf(r, log[d].base, p) && r[p] == log[d - 1] && r[0].base <= log[d].base
  {
    hide ValidLog, IsKept;
    var r, f := Retained(log, limit, cutoff), Filtered(log, log, limit, cutoff, d);
    FilteredGrows(log, limit, cutoff, d + 1, |log|);
    assert f == Filtered(log, log, limit, cutoff, d - 1) + [log[d - 1]];
    assert Filtered(log, log, limit, cutoff, d + 1) == f;
    p := |f| - 1;
    assert r[p] == r[..|f|][p] && r[0] == r[..|f|][0];
    BasesIncrease(c, log, next, d - 1, d);
    forall q | p < q < |r| ensures log[d].base < r[q].base {
      assert FromBehind(log, d + 1, |log|, r[q]);
      var x :| d + 1 <= x < |log| && log[x] == r[q];
      BasesIncrease(c, log, next, d, x);
    }
    var x := FilteredHoldsOnlyKept(log, limit, cutoff, d, f[0]);
    BasesIncrease(c, log, next, x, d);
  }

  /** The first segment from `i` on that is not kept. */
  lemma {:induction false} FirstDropped(log: Log, limit: int, cutoff: Option<int>, i: nat, j: nat) returns (d: nat)
    requires i < j < |log| && IsKept(log, limit, cutoff, i) && !IsKept(log, limit, cutoff, j)
    ensures i < d <= j && IsKept(log, limit, cutoff, d - 1) && !IsKept(log, limit, cutoff, d)
    decreases j - i
  {
    hide IsKept;
    if IsKept(log, limit, cutoff, i + 1) {
      d := FirstDropped(log, limit, cutoff, i + 1, j);
    } else {
      d := i + 1;
    }
  }

  /**
   When segments do not expire in order, retention leaves an offset in range at which a read returns
   nothing and the same offset again, whatever its byte limit, though it returned data before.
   */
  lemma HoleStopsReads(c: Config, log: Log, next: int, limit: int, cutoff: Option<int>) returns (offset: int)
    requires ValidConfig(c) && ValidLog(c, log, next) && !ExpiredInOrder(log, limit, cutoff)
    ensures var r := Retained(log, limit, cutoff);
      && |r| > 0 && r[0].base <= offset < next
      && (forall maxBytes :: ReadLog(r, next, offset, maxBytes) == Records([], offset))
      && (forall maxBytes :: !Empty(ReadLog(log, next, offset, maxBytes)))
  {
    hide ValidLog, Retained, Filtered, SegmentOf, FullScan;
    var i, j :| OverLimit(log, limit, 0) <= i < j < |log| - 1 && Expired(log, j, cutoff) && !Expired(log, i, cutoff);
    var d := FirstDropped(log, limit, cutoff, i, j);
    hide Expired, IsKept, OverLimit;
    var p := LookupInHole(c, log, next, limit, cutoff, d);
    var r := Retained(log, limit, cutoff);
    offset := log[d].base;
    SegmentOfIsUnique(r, offset, p);
    EndsWhereNextBegins(c, log, next, d);
    forall maxBytes ensures ReadLog(r, next, offset, maxBytes) == Records([], offset) {
      NothingPastEnd(log[d - 1], offset, maxBytes);
    }
    forall maxBytes ensures !Empty(ReadLog(log, next, offset, maxBytes)) {
      EmptyIffAtEnd(c, log, next, offset, maxBytes);
    }
  }

  lemma EndsWhereNextBegins(c: Config, log: Log, next: int, d: nat)
    requires ValidConfig(c) && ValidLog(c, log, next) && 0 < d < |log| - 1
    ensures End(log[d - 1]) == log[d].base < next && Consecutive(log[d - 1].base, log[d - 1].batches)
  {
    hide ValidSegment, Filled, Consecutive, Count, Size, End;
    SegmentIsValid(c, log, next, d - 1);
    SegmentFacts(c, log[d - 1]);
    BasesIncrease(c, log, next, d, |log| - 1);
    EndNotBefore(LastOf(log));
  }

  /** Every read at or above the new first offset is unchanged if and only if segments expire in order. */
  lemma ReadsSurviveIff(c: Config, log: Log, next: int, limit: int, cutoff: Option<int>)
    requires ValidConfig(c) && ValidLog(c, log, next)
    ensures ReadsSurvive(log, Retained(log, limit, cutoff), next) <==> ExpiredInOrder(log, limit, cutoff)
  {
    hide ValidLog, ExpiredInOrder, ReadLog, Retained;
    var r := Retained(log, limit, cutoff);
    if ExpiredInOrder(log, limit, cutoff) {
      forall offset, maxBytes | |r| > 0 && offset >= r[0].base
        ensures ReadLog(r, next, offset, maxBytes) == ReadLog(log, next, offset, maxBytes)
      {
        RetainedKeepsReads(c, log, next, limit, cutoff, offset, maxBytes);
      }
      RetainedKeepsReads(c, log, next, limit, cutoff, 0, 0);
    } else {
      var offset := HoleStopsReads(c, log, next, limit, cutoff);
      assert ReadLog(r, next, offset, 0) != ReadLog(log, next, offset, 0);
    }
  }

  ghost predicate ReadsSurvive(log: Log, r: Log, next: int)
    requires |log| > 0
  {
    |r| > 0 && forall offset, maxBytes | offset >= r[0].base ::
      ReadLog(r, next, offset, maxBytes) == ReadLog(log, next, offset, maxBytes)
  }

  // --- A log with a hole --------------------------------------------------------------------------

  /** Appending to a log whose segments hold one batch each. */
  lemma OneBatchSegment(c: Config, log: Log, next: int64, timestamp: int64)
    requires ValidConfig(c) && c.segmentMaxBytes == 1 && ValidLog(c, log, next) && Roomy(c, log) && next + 1 < TWO_63
    requires LastOf(log).batches == []
    ensures var r := Appended(c, log, next, TinyBatch(c.crc, timestamp));
      && ValidLog(c, r, next + 1) && Roomy(c, r) && |r| == |log| + 1 && LastOf(r).batches == []
      && r[..|log| - 1] == log[..|log| - 1] && FirstTimestamp(r[|log| - 1]) == Some(timestamp)
  {
    hide ValidLog, Roomy, WellFormed, TinyBatch, CountOf, BaseTimestampOf, Stamp, End;
    var b := TinyBatch(c.crc, timestamp);
    TinyBatchFacts(c.crc, timestamp);
    StampFields(b, next);
    RoomyIsAppendable(c, log, next);
    AppendRefines(c, log, next, b);
    FlatNonEmpty(Grown(LastOf(log), b, next).batches);
    var v := Grown(LastOf(log), b, next);
    assert v.batches == [Stamp(b, next)];
  }

  /** Three full segments whose first batches are stamped 0, 100 and 0, and a cutoff of 50: the middle one goes. */
  lemma MiddleSegmentGoes(crc: Checksum) returns (c: Config, log: Log)
    ensures ValidConfig(c) && ValidLog(c, log, 3) && Roomy(c, log) && |log| == 4
    ensures Retained(log, -1, Some(50)) == [log[0], log[2], log[3]]
    ensures !ExpiredInOrder(log, -1, Some(50))
  {
    hide ValidLog, Roomy, Appended, TinyBatch, FirstTimestamp;
    c := Config(1, 1, crc);
    FreshLogValid(c);
    var log0 := [Fresh(0)];
    OneBatchSegment(c, log0, 0, 0);
    var log1 := Appended(c, log0, 0, TinyBatch(crc, 0));
    OneBatchSegment(c, log1, 1, 100);
    var log2 := Appended(c, log1, 1, TinyBatch(crc, 100));
    OneBatchSegment(c, log2, 2, 0);
    log := Appended(c, log2, 2, TinyBatch(crc, 0));
    assert log[1] == log[..2][1] == log2[..2][1];
    NoTimestamp(LastOf(log));
    KeepsAllButOne(log);
  }

  lemma NoTimestamp(v: SegmentView)
    requires v.batches == []
    ensures FirstTimestamp(v) == None
  {
  }

  lemma KeepsAllButOne(log: Log)
    requires |log| == 4 && FirstTimestamp(log[1]) == Some(100) && FirstTimestamp(log[2]) == Some(0)
    requires FirstTimestamp(log[3]) == None
    ensures Retained(log, -1, Some(50)) == [log[0], log[2], log[3]]
    ensures !ExpiredInOrder(log, -1, Some(50))
  {
    hide FirstTimestamp;
    var cut := Some(50);
    assert Filtered(log, log, -1, cut, 1) == [log[0]];
    assert Filtered(log, log, -1, cut, 2) == [log[0]];
    assert Filtered(log, log, -1, cut, 3) == [log[0], log[2]];
    assert Expired(log, 1, cut) && !Expired(log, 0, cut);
  }
}
