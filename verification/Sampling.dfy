/**
 The sparse indexes of a segment as a function of its batches. A byte counter decides which
 batches get an entry; the entry of a batch holds its offset relative to the segment and its
 position in the log (offset index) or its newest timestamp (time index).
 */
module Sampling {
  import opened Bytes
  import opened Batch
  import opened Framing

  datatype OffsetEntry = OffsetEntry(relativeOffset: int32, position: int32)
  datatype TimeEntry = TimeEntry(timestampMs: int64, relativeOffset: int32)

  /** Both indexes and the bytes written since the last entry. */
  datatype Samples = Samples(offsets: seq<OffsetEntry>, times: seq<TimeEntry>, bytesSince: nat)

  /** Indexing one batch written at `pos`. The batch that gets an entry is not itself counted. */
  function Indexed(sample: nat, base: int, st: Samples, b: Frame, pos: nat): (r: Samples) {
    if st.bytesSince >= sample then
      Samples(st.offsets + [OffsetEntry(WrapInt32(BaseOf(b) - base), WrapInt32(pos))],
              st.times + [TimeEntry(MaxTimestampOf(b), WrapInt32(BaseOf(b) - base))],
              0)
    else st.(bytesSince := st.bytesSince + |b|)
  }

  /** The indexes of a segment that holds the batches `bs`. */
  function SamplesOf(sample: nat, base: int, bs: seq<Frame>): (r: Samples) {
    if |bs| == 0 then Samples([], [], 0)
    else
      var init := bs[..|bs| - 1];
      Indexed(sample, base, SamplesOf(sample, base, init), bs[|bs| - 1], |Flat(init)|)
  }

  lemma SamplesSnoc(sample: nat, base: int, bs: seq<Frame>, b: Frame)
    ensures SamplesOf(sample, base, bs + [b]) == Indexed(sample, base, SamplesOf(sample, base, bs), b, |Flat(bs)|)
  {
    assert (bs + [b])[..|bs|] == bs;
  }

  /** Every batch starts below `limit`. */
  predicate StartsBelow(bs: seq<Frame>, limit: nat) {
    |bs| > 0 ==> |Flat(bs[..|bs| - 1])| < limit
  }

  lemma StartsBelowSnoc(bs: seq<Frame>, b: Frame, limit: nat)
    requires |Flat(bs)| < limit
    ensures StartsBelow(bs + [b], limit)
  {
    hide Flat;
    assert (bs + [b])[..|bs|] == bs;
  }

  lemma StartsBelowTake(bs: seq<Frame>, limit: nat, k: nat)
    requires StartsBelow(bs, limit) && k <= |bs|
    ensures StartsBelow(bs[..k], limit)
    ensures k < |bs| ==> |Flat(bs[..k])| < limit
  {
    if k < |bs| {
      TakeMonotone(bs, k, |bs| - 1);
      if k > 0 {
        assert bs[..k][..k - 1] == bs[..k - 1];
        TakeMonotone(bs, k - 1, k);
      }
    } else {
      assert bs[..k] == bs;
    }
  }

  /** `e` is the offset and position of the start of batch `k`. */
  predicate Points(bs: seq<Frame>, e: OffsetEntry, k: nat)
    requires k <= |bs|
  {
    e.relativeOffset == Count(bs[..k]) && e.position == |Flat(bs[..k])|
  }

  ghost predicate IsBatchStart(bs: seq<Frame>, e: OffsetEntry) {
    exists k | 0 <= k < |bs| :: Points(bs, e, k)
  }

  ghost predicate AllBatchStarts(bs: seq<Frame>, es: seq<OffsetEntry>) {
    forall j | 0 <= j < |es| :: IsBatchStart(bs, es[j])
  }

  predicate Increasing(es: seq<OffsetEntry>) {
    forall i, j | 0 <= i < j < |es| :: es[i].relativeOffset < es[j].relativeOffset
  }

  /** The bytes that `n` samples span. */
  function Span(n: nat, sample: nat): nat {
    n * sample
  }

  /** The (j+1)-th entry lies at or past the end of j+1 samples. */
  predicate Spread(sample: nat, es: seq<OffsetEntry>) {
    forall j | 0 <= j < |es| :: es[j].position >= Span(j + 1, sample)
  }

  ghost predicate GoodEntries(sample: nat, bs: seq<Frame>, es: seq<OffsetEntry>) {
    AllBatchStarts(bs, es) && Increasing(es) && Spread(sample, es)
  }

  lemma {:induction false} RecordsFitInBytes(crc: Checksum, bs: seq<Frame>)
    requires AllWellFormed(crc, bs)
    ensures Count(bs) <= |Flat(bs)|
  {
    if |bs| > 0 {
      RecordsFitInBytes(crc, bs[..|bs| - 1]);
    }
  }

  /** The sampling invariant: what the indexes of a segment say about its log. */
  lemma {:induction false} SamplesAreGood(crc: Checksum, sample: nat, base: int, bs: seq<Frame>)
    requires AllWellFormed(crc, bs) && Consecutive(base, bs) && StartsBelow(bs, TWO_31) && sample >= 1
    ensures var st := SamplesOf(sample, base, bs);
      && GoodEntries(sample, bs, st.offsets)
      && |st.times| == |st.offsets|
      && Span(|st.offsets|, sample) + st.bytesSince <= |Flat(bs)|
  {
    if |bs| > 0 {
      var n := |bs| - 1;
      ConsecutiveTake(base, bs, n);
      StartsBelowTake(bs, TWO_31, n);
      SamplesAreGood(crc, sample, base, bs[..n]);
      TakeStep(bs, n);
      assert bs[..n + 1] == bs;
      hide Flat, Count, GoodEntries, Span, WrapInt32, BaseOf;
      EntryForLast(crc, sample, base, bs, SamplesOf(sample, base, bs[..n]));
    }
  }

  /** Indexing the last batch keeps the sampling invariant. */
  lemma EntryForLast(crc: Checksum, sample: nat, base: int, bs: seq<Frame>, st: Samples)
    requires AllWellFormed(crc, bs) && Consecutive(base, bs) && StartsBelow(bs, TWO_31) && |bs| > 0 && sample >= 1
    requires GoodEntries(sample, bs[..|bs| - 1], st.offsets) && |st.times| == |st.offsets|
    requires Span(|st.offsets|, sample) + st.bytesSince <= |Flat(bs[..|bs| - 1])|
    ensures var r := Indexed(sample, base, st, bs[|bs| - 1], |Flat(bs[..|bs| - 1])|);
      && GoodEntries(sample, bs, r.offsets)
      && |r.times| == |r.offsets|
      && Span(|r.offsets|, sample) + r.bytesSince <= |Flat(bs[..|bs| - 1])| + |bs[|bs| - 1]|
  {
    hide Flat, Count, BaseOf, Consecutive, AllWellFormed, StartsBelow, WrapInt32, GoodEntries, Span, MaxTimestampOf;
    LastEntry(crc, base, bs);
    if st.bytesSince >= sample {
      SpanStep(|st.offsets|, sample);
      GoodSnoc(crc, sample, bs, st.offsets);
    } else {
      GoodKept(sample, bs, st.offsets);
    }
  }

  /** Neither the offset nor the position of an entry overflows its 32 bits. */
  lemma LastEntry(crc: Checksum, base: int, bs: seq<Frame>)
    requires AllWellFormed(crc, bs) && Consecutive(base, bs) && StartsBelow(bs, TWO_31) && |bs| > 0
    ensures var init := bs[..|bs| - 1];
      WrapInt32(BaseOf(bs[|bs| - 1]) - base) == Count(init) && WrapInt32(|Flat(init)|) == |Flat(init)|
  {
    var init := bs[..|bs| - 1];
    RecordsFitInBytes(crc, init);
    assert BaseOf(bs[|bs| - 1]) - base == Count(init);
    hide Flat, Count, BaseOf, Consecutive, AllWellFormed, WrapInt32;
    WrapInt32Identity(Count(init));
    WrapInt32Identity(|Flat(init)|);
  }

  lemma GoodKept(sample: nat, bs: seq<Frame>, es: seq<OffsetEntry>)
    requires |bs| > 0 && GoodEntries(sample, bs[..|bs| - 1], es)
    ensures GoodEntries(sample, bs, es)
  {
    StartsKept(bs, es);
  }

  lemma GoodSnoc(crc: Checksum, sample: nat, bs: seq<Frame>, es: seq<OffsetEntry>)
    requires |bs| > 0 && AllWellFormed(crc, bs) && GoodEntries(sample, bs[..|bs| - 1], es)
    requires Count(bs[..|bs| - 1]) < TWO_31 && Span(|es| + 1, sample) <= |Flat(bs[..|bs| - 1])| < TWO_31
    ensures GoodEntries(sample, bs, es + [OffsetEntry(Count(bs[..|bs| - 1]), |Flat(bs[..|bs| - 1])|)])
  {
    hide Flat, Count, Span, WellFormed, IsBatchStart;
    StartsKept(bs, es);
    LastIsStart(bs);
    LastIsLargest(crc, bs, es);
  }

  lemma SpanStep(n: nat, sample: nat)
    ensures Span(n + 1, sample) == Span(n, sample) + sample
  {
  }

  lemma StartsKept(bs: seq<Frame>, es: seq<OffsetEntry>)
    requires |bs| > 0 && AllBatchStarts(bs[..|bs| - 1], es)
    ensures AllBatchStarts(bs, es)
  {
    var init := bs[..|bs| - 1];
    forall j | 0 <= j < |es| ensures IsBatchStart(bs, es[j]) {
      assert IsBatchStart(init, es[j]);
      var k :| 0 <= k < |init| && Points(init, es[j], k);
      assert init[..k] == bs[..k];
      assert Points(bs, es[j], k);
    }
  }

  lemma LastIsStart(bs: seq<Frame>)
    requires |bs| > 0 && Count(bs[..|bs| - 1]) < TWO_31 && |Flat(bs[..|bs| - 1])| < TWO_31
    ensures IsBatchStart(bs, OffsetEntry(Count(bs[..|bs| - 1]), |Flat(bs[..|bs| - 1])|))
  {
    assert Points(bs, OffsetEntry(Count(bs[..|bs| - 1]), |Flat(bs[..|bs| - 1])|), |bs| - 1);
  }

  lemma LastIsLargest(crc: Checksum, bs: seq<Frame>, es: seq<OffsetEntry>)
    requires |bs| > 0 && AllWellFormed(crc, bs) && AllBatchStarts(bs[..|bs| - 1], es)
    ensures forall j | 0 <= j < |es| :: es[j].relativeOffset < Count(bs[..|bs| - 1])
  {
    var init := bs[..|bs| - 1];
    forall j | 0 <= j < |es| ensures es[j].relativeOffset < Count(init) {
      assert IsBatchStart(init, es[j]);
      var k :| 0 <= k < |init| && Points(init, es[j], k);
      CountStrict(crc, init, k, |init|);
      assert init[..|init|] == init;
    }
  }

  // --- Capacity ------------------------------------------------------------------------------

  /** The number of entries an index file is allocated for. */
  function MaxEntries(segmentMaxBytes: nat, sample: nat): (n: nat)
    requires sample >= 1
  {
    (segmentMaxBytes + sample - 1) / sample
  }

  /** Room for an entry per sample of the limit, and no more. */
  lemma CapacityIsLeast(limit: nat, sample: nat)
    requires sample >= 1
    ensures limit <= MaxEntries(limit, sample) * sample < limit + sample
  {
    var q, r := Quotient(limit + sample - 1, sample);
  }

  lemma FitsBelow(n: nat, sample: nat, limit: nat)
    requires sample >= 1 && Span(n, sample) < limit
    ensures n < MaxEntries(limit, sample)
  {
    var q := MaxEntries(limit, sample);
    assert limit <= q * sample;
    if n >= q {
      SpanMonotone(q, n, sample);
    }
  }

  lemma SpanMonotone(m: nat, n: nat, sample: nat)
    requires m <= n
    ensures Span(m, sample) <= Span(n, sample)
  {
    assert n * sample == m * sample + (n - m) * sample;
  }

  /** While every batch starts below the limit, both indexes have room for another entry. */
  lemma IndexNeverFull(crc: Checksum, sample: nat, base: int, bs: seq<Frame>, limit: nat)
    requires AllWellFormed(crc, bs) && Consecutive(base, bs) && StartsBelow(bs, limit)
    requires sample >= 1 && 1 <= limit <= TWO_31
    ensures |SamplesOf(sample, base, bs).offsets| < MaxEntries(limit, sample)
    ensures |SamplesOf(sample, base, bs).times| < MaxEntries(limit, sample)
  {
    hide SamplesOf, MaxEntries, Span, WellFormed, Consecutive;
    StartsBelowMore(bs, limit, TWO_31);
    SamplesAreGood(crc, sample, base, bs);
    var es := SamplesOf(sample, base, bs).offsets;
    if |es| == 0 {
      NoSpan(sample);
    } else {
      var e := es[|es| - 1];
      assert IsBatchStart(bs, e);
      var k :| 0 <= k < |bs| && Points(bs, e, k);
      StartsBelowTake(bs, limit, k);
    }
    FitsBelow(|es|, sample, limit);
  }

  lemma BelowAll(bs: seq<Frame>, limit: nat)
    requires |Flat(bs)| < limit
    ensures StartsBelow(bs, limit)
  {
    hide Flat;
    if |bs| > 0 {
      TakeMonotone(bs, |bs| - 1, |bs|);
      assert bs[..|bs|] == bs;
    }
  }

  lemma StartsBelowMore(bs: seq<Frame>, limit: nat, more: nat)
    requires StartsBelow(bs, limit) && limit <= more
    ensures StartsBelow(bs, more)
  {
  }

  lemma NoSpan(sample: nat)
    ensures Span(0, sample) == 0
  {
  }

  lemma {:induction false} SameLengths(sample: nat, base: int, bs: seq<Frame>)
    ensures |SamplesOf(sample, base, bs).times| == |SamplesOf(sample, base, bs).offsets|
  {
    hide Flat, WrapInt32, BaseOf, MaxTimestampOf;
    if |bs| > 0 {
      SameLengths(sample, base, bs[..|bs| - 1]);
    }
  }

  /** A rebuild from the first batches of a segment needs no more entries than the segment has. */
  lemma {:induction false} RebuildFits(sample: nat, base: int, bs: seq<Frame>, k: nat)
    requires k <= |bs|
    ensures |SamplesOf(sample, base, bs[..k]).offsets| <= |SamplesOf(sample, base, bs).offsets|
    ensures |SamplesOf(sample, base, bs[..k]).times| <= |SamplesOf(sample, base, bs).times|
  {
    hide Flat, WrapInt32, BaseOf, MaxTimestampOf;
    if k == |bs| {
      assert bs[..k] == bs;
    } else {
      var init := bs[..|bs| - 1];
      assert init[..k] == bs[..k];
      RebuildFits(sample, base, init, k);
    }
  }

  /**
   Past the limit the index can be full when an entry is due: a limit of one byte allows one entry, which
   the second of three batches takes.
   */
  lemma FullIndexExists(crc: Checksum) returns (bs: seq<Frame>)
    ensures AllWellFormed(crc, bs) && Consecutive(0, bs) && !StartsBelow(bs, 1)
    ensures var st := SamplesOf(1, 0, bs);
      st.bytesSince >= 1 && |st.offsets| == |st.times| == MaxEntries(1, 1)
  {
    hide TinyBatch, WellFormed, Stamp, BaseOf, CountOf, MaxTimestampOf, WrapInt32, Flat, Count;
    hide AllWellFormed, Consecutive, SamplesOf;
    NothingYet(crc);
    var bs1 := TinySnoc(crc, []);
    var bs2 := TinySnoc(crc, bs1);
    bs := TinySnoc(crc, bs2);
    assert bs[..|bs| - 1] == bs2;
  }

  lemma NothingYet(crc: Checksum)
    ensures AllWellFormed(crc, []) && Consecutive(0, []) && Flat([]) == [] && Count([]) == 0
    ensures SamplesOf(1, 0, []) == Samples([], [], 0)
  {
  }

  /** One more of the smallest batches, stamped with the offset after the last one. */
  lemma TinySnoc(crc: Checksum, bs: seq<Frame>) returns (r: seq<Frame>)
    requires AllWellFormed(crc, bs) && Consecutive(0, bs) && Count(bs) < TWO_31
    ensures |r| == |bs| + 1 && r[..|bs|] == bs && AllWellFormed(crc, r) && Consecutive(0, r)
    ensures |Flat(r)| == |Flat(bs)| + HEADER + 1 && Count(r) == Count(bs) + 1
    ensures var st, st' := SamplesOf(1, 0, bs), SamplesOf(1, 0, r);
      if st.bytesSince >= 1
      then |st'.offsets| == |st.offsets| + 1 && |st'.times| == |st.times| + 1 && st'.bytesSince == 0
      else |st'.offsets| == |st.offsets| && |st'.times| == |st.times| && st'.bytesSince == st.bytesSince + HEADER + 1
  {
    hide TinyBatch, WellFormed, Stamp, BaseOf, CountOf, MaxTimestampOf, WrapInt32, Flat, Count;
    hide AllWellFormed, Consecutive, SamplesOf;
    var b: Frame := Stamp(TinyBatch(crc, 0), Count(bs));
    TinyBatchFacts(crc, 0);
    StampWellFormed(crc, TinyBatch(crc, 0), Count(bs));
    r := bs + [b];
    FlatSnoc(bs, b);
    WellFormedSnoc(crc, bs, b);
    ConsecutiveSnoc(0, bs, b);
    SamplesSnoc(1, 0, bs, b);
  }

  // --- Floor lookup -----------------------------------------------------------------------------

  /** The entry a lookup returns: the last one at or below `rel`. */
  ghost predicate IsFloor(es: seq<OffsetEntry>, rel: int, r: Option<int>) {
    match r
    case None => forall j | 0 <= j < |es| :: es[j].relativeOffset > rel
    case Some(pos) => exists j | 0 <= j < |es| ::
      && es[j].position == pos && es[j].relativeOffset <= rel
      && forall i | j < i < |es| :: es[i].relativeOffset > rel
  }

  /** A lookup lands on the start of a batch at or before the offset asked for. */
  lemma FloorIsBatchStart(sample: nat, bs: seq<Frame>, es: seq<OffsetEntry>, rel: int, pos: int) returns (k: nat)
    requires GoodEntries(sample, bs, es) && IsFloor(es, rel, Some(pos))
    ensures k < |bs| && pos == |Flat(bs[..k])| && Count(bs[..k]) <= rel
  {
    var j :| 0 <= j < |es| && es[j].position == pos && es[j].relativeOffset <= rel;
    assert IsBatchStart(bs, es[j]);
    k :| 0 <= k < |bs| && Points(bs, es[j], k);
  }

  // --- Lookups by time -----------------------------------------------------------------------------

  /** An entry at or after the time that does not follow another such entry; nothing if the last one is before it. */
  ghost predicate IsCrossing(es: seq<TimeEntry>, t: int, r: Option<int>) {
    match r
    case None => |es| > 0 ==> es[|es| - 1].timestampMs < t
    case Some(rel) => exists j | 0 <= j < |es| ::
      es[j].relativeOffset == rel && es[j].timestampMs >= t && (j > 0 ==> es[j - 1].timestampMs < t)
  }

  /** The first entry at or after the time; nothing if all are before it. */
  ghost predicate IsCeiling(es: seq<TimeEntry>, t: int, r: Option<int>) {
    match r
    case None => forall i | 0 <= i < |es| :: es[i].timestampMs < t
    case Some(rel) => exists j | 0 <= j < |es| ::
      && es[j].relativeOffset == rel && es[j].timestampMs >= t
      && forall i | 0 <= i < j :: es[i].timestampMs < t
  }

  /** As long as the sampled timestamps do not go back, the search finds the first entry at or after the time. */
  lemma CrossingIsCeiling(es: seq<TimeEntry>, t: int, r: Option<int>)
    requires IsCrossing(es, t, r)
    requires forall i, j | 0 <= i < j < |es| :: es[i].timestampMs <= es[j].timestampMs
    ensures IsCeiling(es, t, r)
  {
    if r.Some? {
      var j :|
        && 0 <= j < |es| && es[j].relativeOffset == r.value
        && es[j].timestampMs >= t && (j > 0 ==> es[j - 1].timestampMs < t);
      assert forall i | 0 <= i < j :: es[i].timestampMs <= es[j - 1].timestampMs;
    }
  }
}
