/** Reading a log across its segments. */
module LogReads {
  import opened Bytes
  import opened Batch
  import opened Framing
  import opened Scans
  import opened LogModel

  datatype ReadOutcome = Records(records: Bytes, next: int) | OffsetOutOfRange

  /** Segment `i` is where `offset` is looked up: the last one that begins at or before it. */
  predicate IsSegmentOf(log: Log, offset: int, i: nat) {
    && i < |log|
    && (i == 0 || log[i].base <= offset)
    && (forall j | i < j < |log| :: offset < log[j].base)
  }

  function SegmentOf(log: Log, offset: int): (i: nat)
    requires |log| > 0
    ensures IsSegmentOf(log, offset, i)
  {
    if |log| == 1 || log[|log| - 1].base <= offset then |log| - 1
    else SegmentOf(log[..|log| - 1], offset)
  }

  lemma SegmentOfIsUnique(log: Log, offset: int, i: nat)
    requires IsSegmentOf(log, offset, i)
    ensures SegmentOf(log, offset) == i
  {
  }

  function ReadLog(log: Log, next: int, offset: int, maxBytes: int): (r: ReadOutcome)
    requires |log| > 0
  {
    if offset < log[0].base then OffsetOutOfRange
    else if offset >= next then Records([], offset)
    else
      var r := FullScan(log[SegmentOf(log, offset)].batches, offset, maxBytes);
      Records(r.records, r.next)
  }

  // --- A segment's batches inside the flat list ---------------------------------------------

  /** The number of batches before segment `k`. */
  function Before(log: Log, k: nat): nat
    requires k <= |log|
  {
    |All(log[..k])|
  }

  lemma SegmentInFlat(log: Log, k: nat, i: nat, j: nat)
    requires k < |log| && i <= j <= |log[k].batches|
    ensures Before(log, k) + j <= |All(log)|
    ensures All(log)[Before(log, k) + i..Before(log, k) + j] == log[k].batches[i..j]
    ensures All(log)[..Before(log, k) + j] == All(log[..k]) + log[k].batches[..j]
  {
    hide All;
    AllSplit(log, k + 1);
    AllStep(log, k);
  }

  /** Offsets agree: counting in the flat list or within the segment. */
  lemma OffsetInFlat(c: Config, log: Log, next: int, k: nat, j: nat)
    requires ValidLog(c, log, next) && k < |log| && j <= |log[k].batches|
    ensures Before(log, k) + j <= |All(log)|
    ensures log[0].base + Count(All(log)[..Before(log, k) + j]) == log[k].base + Count(log[k].batches[..j])
  {
    hide All, ValidLog, Count;
    SegmentInFlat(log, k, 0, j);
    PrefixIsConsecutive(c, log, next, k);
    FlatConcat(All(log[..k]), log[k].batches[..j]);
  }

  /** An offset in range falls inside the segment where it is looked up. */
  lemma OffsetWithinSegment(c: Config, log: Log, next: int, offset: int)
    requires ValidLog(c, log, next) && log[0].base <= offset < next
    ensures var k := SegmentOf(log, offset); log[k].base <= offset < End(log[k])
  {
    hide ValidSegment, Filled, Size, End;
    var k := SegmentOf(log, offset);
    if k + 1 < |log| {
      assert offset < log[k + 1].base;
    }
  }

  /**
   What a read returns in terms of the flat list: whole consecutive batches, the first of which
   holds the offset, as many as fit in `maxBytes` but at least one, and the offset after them.
   */
  lemma ReadMeaning(c: Config, log: Log, next: int, offset: int, maxBytes: int) returns (i: nat, j: nat)
    requires ValidLog(c, log, next) && log[0].base <= offset < next
    ensures i < j <= |All(log)|
    ensures BaseOf(All(log)[i]) <= offset < EndOf(All(log)[i])
    ensures ReadLog(log, next, offset, maxBytes)
         == Records(Flat(All(log)[i..j]), log[0].base + Count(All(log)[..j]))
    ensures j - i >= 2 ==> |Flat(All(log)[i..j])| <= maxBytes
  {
    hide ValidLog, ValidSegment, All, Flat, Count, EndOf, BaseOf, FullScan, End, SegmentOf, Before;
    var k := SegmentOf(log, offset);
    OffsetWithinSegment(c, log, next, offset);
    SegmentIsValid(c, log, next, k);
    var m, n := SegmentReadMeaning(c, log[k], offset, maxBytes);
    SegmentInFlat(log, k, m, n);
    OffsetInFlat(c, log, next, k, n);
    i, j := Before(log, k) + m, Before(log, k) + n;
    SameHead(All(log), i, j, log[k].batches, m, n);
  }

  lemma SameHead(xs: seq<Frame>, i: nat, j: nat, ys: seq<Frame>, m: nat, n: nat)
    requires i < j <= |xs| && m < n <= |ys| && xs[i..j] == ys[m..n]
    ensures xs[i] == ys[m]
  {
    assert xs[i..j][0] == ys[m..n][0];
  }

  lemma SegmentIsValid(c: Config, log: Log, next: int, k: nat)
    requires ValidLog(c, log, next) && k < |log|
    ensures ValidSegment(c, log[k])
  {
  }

  /** The same for one segment and an offset inside it. */
  lemma SegmentReadMeaning(c: Config, v: SegmentView, offset: int, maxBytes: int) returns (m: nat, n: nat)
    requires ValidSegment(c, v) && v.base <= offset < End(v)
    ensures m < n <= |v.batches|
    ensures BaseOf(v.batches[m]) <= offset < EndOf(v.batches[m])
    ensures FullScan(v.batches, offset, maxBytes) == ReadResult(Flat(v.batches[m..n]), v.base + Count(v.batches[..n]))
    ensures n - m >= 2 ==> |Flat(v.batches[m..n])| <= maxBytes
  {
    hide Flat, Count, EndOf, BaseOf, FullScan, Consecutive, AllWellFormed;
    m, n := ReadIsWindow(v.base, v.batches, offset, maxBytes);
    LastBatchEndsSegment(v);
  }

  lemma LastBatchEndsSegment(v: SegmentView)
    requires Consecutive(v.base, v.batches)
    ensures |v.batches| > 0 ==> EndOf(v.batches[|v.batches| - 1]) == End(v)
    ensures |v.batches| == 0 ==> End(v) == v.base
  {
    if |v.batches| > 0 {
      EndOfBatch(v.base, v.batches, |v.batches| - 1);
      assert v.batches[..|v.batches|] == v.batches;
    }
  }

  // --- Following a log from end to end --------------------------------------------------------

  lemma ReadAdvances(c: Config, log: Log, next: int, offset: int, maxBytes: int)
    requires ValidLog(c, log, next) && log[0].base <= offset < next
    ensures var r := ReadLog(log, next, offset, maxBytes); r.Records? && offset < r.next <= next
  {
    hide ValidLog, All, Flat, EndOf, ReadLog, Consecutive, Count;
    var i, j := ReadMeaning(c, log, next, offset, maxBytes);
    LogIsConsecutive(c, log, next);
    EndOfBatch(log[0].base, All(log), i);
    TakeMonotone(All(log), i + 1, j);
    TakeMonotone(All(log), j, |All(log)|);
    assert All(log)[..|All(log)|] == All(log);
  }

  /** A consumer that keeps reading at the offset it was given back: all it received, and where it ends. */
  ghost function Follow(c: Config, log: Log, next: int, offset: int, maxBytes: int): (r: ReadResult)
    requires ValidLog(c, log, next) && log[0].base <= offset
    decreases next - offset
  {
    if offset >= next then ReadResult([], offset)
    else
      ReadAdvances(c, log, next, offset, maxBytes);
      var r := ReadLog(log, next, offset, maxBytes);
      var rest := Follow(c, log, next, r.next, maxBytes);
      ReadResult(r.records + rest.records, rest.next)
  }

  /**
   From the start of any batch a consumer receives that batch and every later one exactly once,
   in order, across segment boundaries, and ends at the latest offset.
   */
  lemma {:induction false} FollowVisitsEverything(c: Config, log: Log, next: int, k: nat, maxBytes: int)
    requires ValidLog(c, log, next) && k <= |All(log)|
    ensures Follow(c, log, next, log[0].base + Count(All(log)[..k]), maxBytes) == ReadResult(Flat(All(log)[k..]), next)
    decreases |All(log)| - k
  {
    hide ValidLog, All, Flat, Count, EndOf, ReadLog, Consecutive, WellFormed;
    var bs := All(log);
    LogIsConsecutive(c, log, next);
    if k == |bs| {
      assert bs[..k] == bs && bs[k..] == [];
      NothingToRead();
    } else {
      var offset := log[0].base + Count(bs[..k]);
      StartsBeforeEnd(c, log, next, k);
      var i, j := ReadMeaning(c, log, next, offset, maxBytes);
      CoveringIsUnique(c.crc, log[0].base, bs, k, i);
      FollowVisitsEverything(c, log, next, j, maxBytes);
      FlatConcat(bs[k..j], bs[j..]);
      assert bs[k..] == bs[k..j] + bs[j..];
    }
  }

  lemma NothingToRead()
    ensures Flat([]) == []
  {
  }

  lemma StartsBeforeEnd(c: Config, log: Log, next: int, k: nat)
    requires ValidLog(c, log, next) && k < |All(log)|
    ensures log[0].base <= log[0].base + Count(All(log)[..k]) < next
  {
    hide ValidLog, All;
    LogIsConsecutive(c, log, next);
    CountStrict(c.crc, All(log), k, |All(log)|);
    assert All(log)[..|All(log)|] == All(log);
  }

  lemma CoveringIsUnique(crc: Checksum, base: int, bs: seq<Frame>, k: nat, i: nat)
    requires AllWellFormed(crc, bs) && Consecutive(base, bs) && k < |bs| && i < |bs|
    requires BaseOf(bs[i]) <= base + Count(bs[..k]) < EndOf(bs[i])
    ensures i == k
  {
    EndOfBatch(base, bs, i);
    if i < k {
      TakeMonotone(bs, i + 1, k);
    } else if k < i {
      CountStrict(crc, bs, k, i);
    }
  }

  predicate Empty(r: ReadOutcome) {
    r.Records? && r.records == []
  }

  /** A read at or above the earliest offset is empty exactly when the offset is not below the end. */
  lemma EmptyIffAtEnd(c: Config, log: Log, next: int, offset: int, maxBytes: int)
    requires ValidLog(c, log, next)
    ensures Empty(ReadLog(log, next, offset, maxBytes)) <==> offset >= next
  {
    hide ValidLog, ValidSegment, All, Flat, BaseOf, EndOf, Count, SegmentOf, FullScan;
    LogIsConsecutive(c, log, next);
    if log[0].base <= offset < next {
      var i, j := ReadMeaning(c, log, next, offset, maxBytes);
      FlatNonEmpty(All(log)[i..j]);
    }
  }

  /**
   What any read answers: out of range exactly below the first offset, never an offset to go on from that
   lies before the one asked for, and with nothing read the very offset asked for.
   */
  lemma ReadGoesOn(c: Config, log: Log, next: int, offset: int, maxBytes: int)
    requires ValidLog(c, log, next)
    ensures var r := ReadLog(log, next, offset, maxBytes);
      && (r == OffsetOutOfRange <==> offset < log[0].base)
      && (r.Records? ==> r.next >= offset && (r.records == [] <==> r.next == offset))
      && (r.Records? && r.records != [] ==> r.next <= next)
      && (r.Records? ==> (r.records == [] <==> offset >= next))
  {
    hide ValidLog, All, Flat, Count, SegmentOf, FullScan;
    EmptyIffAtEnd(c, log, next, offset, maxBytes);
    if log[0].base <= offset < next {
      ReadAdvances(c, log, next, offset, maxBytes);
    }
  }
}
