/**
 A partition log as a value: the segments with the batches they hold. One flat list of batches
 is what the segments together stand for, and every operation is an operation on that list.
 */
module LogModel {
  import opened Bytes
  import opened Batch
  import opened Framing
  import opened Sampling

  datatype Config = Config(segmentMaxBytes: nat, indexSampleBytes: nat, crc: Checksum)

  predicate ValidConfig(c: Config) {
    c.indexSampleBytes >= 1 && 1 <= c.segmentMaxBytes <= TWO_31
  }

  /** One segment: its base offset, its batches, and how many bytes of its log a crash cannot lose. */
  datatype SegmentView = SegmentView(base: int, batches: seq<Frame>, sealed: bool, synced: nat)

  type Log = seq<SegmentView>

  function Size(v: SegmentView): nat {
    |Flat(v.batches)|
  }

  function End(v: SegmentView): int {
    v.base + Count(v.batches)
  }

  /** The index entries of the segment fit the mapping its indexes are given. */
  predicate IndexFits(c: Config, v: SegmentView) {
    && c.indexSampleBytes >= 1
    && |SamplesOf(c.indexSampleBytes, v.base, v.batches).offsets| <= MaxEntries(c.segmentMaxBytes, c.indexSampleBytes)
  }

  /** The next batch finds room in the indexes, or needs none. */
  predicate HasIndexRoom(c: Config, v: SegmentView) {
    var st := SamplesOf(c.indexSampleBytes, v.base, v.batches);
    && c.indexSampleBytes >= 1
    && (st.bytesSince >= c.indexSampleBytes ==>
          |st.offsets| < MaxEntries(c.segmentMaxBytes, c.indexSampleBytes))
  }

  predicate ValidSegment(c: Config, v: SegmentView) {
    && 0 <= v.base && End(v) < TWO_63
    && AllWellFormed(c.crc, v.batches)
    && Consecutive(v.base, v.batches)
    && StartsBelow(v.batches, TWO_31)
    && IndexFits(c, v)
    && v.synced <= Size(v)
  }

  /** Another batch can be written: it starts where an index entry can point, and the indexes have room. */
  predicate Appendable(c: Config, v: SegmentView) {
    Size(v) < TWO_31 && HasIndexRoom(c, v)
  }

  lemma SegmentFacts(c: Config, v: SegmentView)
    requires ValidSegment(c, v)
    ensures AllWellFormed(c.crc, v.batches) && Consecutive(v.base, v.batches)
    ensures StartsBelow(v.batches, TWO_31)
  {
  }

  /** A segment that was filled and closed for writing: all of it is on disk. */
  predicate Filled(c: Config, v: SegmentView) {
    v.sealed && v.synced == Size(v) && Size(v) >= c.segmentMaxBytes
  }

  /**
   The segments abut, all but the last are filled, and `next` is the offset after the last batch. The
   last one may be full too: a crash in the middle of a roll leaves it without a successor.
   */
  predicate ValidLog(c: Config, log: Log, next: int): (b: bool)
    ensures b ==> |log| > 0
  {
    && |log| > 0
    && (forall i | 0 <= i < |log| :: ValidSegment(c, log[i]))
    && (forall i | 0 <= i < |log| - 1 :: Filled(c, log[i]))
    && (forall i | 0 <= i < |log| - 1 :: End(log[i]) == log[i + 1].base)
    && !log[|log| - 1].sealed
    && End(log[|log| - 1]) == next
  }

  /** No segment was written to once it had reached its limit. */
  predicate Trim(c: Config, log: Log) {
    forall i | 0 <= i < |log| :: StartsBelow(log[i].batches, c.segmentMaxBytes)
  }

  /** The active segment has not reached its limit either, as between any two operations of a running node. */
  predicate Roomy(c: Config, log: Log): (b: bool)
    ensures b ==> |log| > 0 && Trim(c, log)
  {
    |log| > 0 && Size(log[|log| - 1]) < c.segmentMaxBytes && Trim(c, log)
  }

  /** While a segment is below its limit, or has just reached it, its indexes have room. */
  lemma BelowLimitHasRoom(c: Config, v: SegmentView)
    requires ValidConfig(c) && AllWellFormed(c.crc, v.batches) && Consecutive(v.base, v.batches)
    requires StartsBelow(v.batches, c.segmentMaxBytes)
    ensures HasIndexRoom(c, v) && IndexFits(c, v)
  {
    hide SamplesOf, MaxEntries, StartsBelow, AllWellFormed, Consecutive;
    IndexNeverFull(c.crc, c.indexSampleBytes, v.base, v.batches, c.segmentMaxBytes);
  }

  /** A running node can always append. */
  lemma RoomyIsAppendable(c: Config, log: Log, next: int)
    requires ValidConfig(c) && ValidLog(c, log, next) && Roomy(c, log)
    ensures Appendable(c, LastOf(log))
  {
    hide ValidSegment, HasIndexRoom, IndexFits, StartsBelow, AllWellFormed, Consecutive;
    ActiveFacts(c, log, next);
    SegmentFacts(c, LastOf(log));
    BelowLimitHasRoom(c, LastOf(log));
  }

  /** The flat list the segments stand for. */
  function All(log: Log): (bs: seq<Frame>) {
    if |log| == 0 then [] else All(log[..|log| - 1]) + log[|log| - 1].batches
  }

  lemma AllSnoc(log: Log, v: SegmentView)
    ensures All(log + [v]) == All(log) + v.batches
  {
    assert (log + [v])[..|log|] == log;
  }

  lemma {:induction false} AllConcat(xs: Log, ys: Log)
    ensures All(xs + ys) == All(xs) + All(ys)
    decreases |ys|
  {
    if |ys| == 0 {
      assert xs + ys == xs;
    } else {
      var init := ys[..|ys| - 1];
      AllConcat(xs, init);
      AllLast(ys);
      hide All;
      assert xs + ys == xs + init + [LastOf(ys)];
      AllSnoc(xs + init, LastOf(ys));
    }
  }

  lemma AllSplit(log: Log, k: nat)
    requires k <= |log|
    ensures All(log) == All(log[..k]) + All(log[k..])
  {
    assert log == log[..k] + log[k..];
    AllConcat(log[..k], log[k..]);
  }

  lemma AllStep(log: Log, k: nat)
    requires k < |log|
    ensures All(log[..k + 1]) == All(log[..k]) + log[k].batches
  {
    AllSnoc(log[..k], log[k]);
    assert log[..k + 1] == log[..k] + [log[k]];
  }

  /** The offset where segment `k` begins, or the end of the log. */
  function StartOf(log: Log, next: int, k: nat): int
    requires k <= |log|
  {
    if k < |log| then log[k].base else next
  }

  /** Up to any segment boundary the batches are consecutive, well formed and end at that boundary. */
  lemma {:induction false} PrefixIsConsecutive(c: Config, log: Log, next: int, k: nat)
    requires ValidLog(c, log, next) && k <= |log|
    ensures Consecutive(log[0].base, All(log[..k])) && AllWellFormed(c.crc, All(log[..k]))
    ensures log[0].base + Count(All(log[..k])) == StartOf(log, next, k)
  {
    if k == 0 {
      assert All(log[..0]) == [];
    } else {
      var i := k - 1;
      PrefixIsConsecutive(c, log, next, i);
      hide All, ValidSegment, Filled, Consecutive, AllWellFormed, Count;
      AllStep(log, i);
      SegmentExtends(c, log[0].base, All(log[..i]), log[i]);
    }
  }

  lemma SegmentExtends(c: Config, base: int, xs: seq<Frame>, v: SegmentView)
    requires Consecutive(base, xs) && AllWellFormed(c.crc, xs) && ValidSegment(c, v) && v.base == base + Count(xs)
    ensures Consecutive(base, xs + v.batches) && AllWellFormed(c.crc, xs + v.batches)
    ensures base + Count(xs + v.batches) == End(v)
  {
    hide ValidSegment, Consecutive, WellFormed, Count, Flat, StartsBelow;
    SegmentFacts(c, v);
    FlatConcat(xs, v.batches);
    ConsecutiveConcat(base, xs, v.batches);
  }

  /** The whole log is one run of consecutive offsets from its first base offset to `next`. */
  lemma LogIsConsecutive(c: Config, log: Log, next: int)
    requires ValidLog(c, log, next)
    ensures Consecutive(log[0].base, All(log)) && AllWellFormed(c.crc, All(log))
    ensures next == log[0].base + Count(All(log))
  {
    PrefixIsConsecutive(c, log, next, |log|);
    assert log[..|log|] == log;
  }

  lemma BasesIncrease(c: Config, log: Log, next: int, i: nat, j: nat)
    requires ValidConfig(c) && ValidLog(c, log, next) && i < j <= |log|
    ensures j < |log| ==> log[i].base < log[j].base
    ensures log[i].base <= StartOf(log, next, j)
    decreases j - i
  {
    hide ValidSegment, Filled, Size, End;
    EndNotBefore(log[j - 1]);
    if j < |log| {
      NonEmptyEndsLater(c, log[j - 1]);
    }
    if i + 1 < j {
      BasesIncrease(c, log, next, i, j - 1);
    }
  }

  lemma EndNotBefore(v: SegmentView)
    ensures v.base <= End(v)
  {
  }

  lemma NonEmptyEndsLater(c: Config, v: SegmentView)
    requires ValidConfig(c) && ValidSegment(c, v) && Filled(c, v)
    ensures |v.batches| > 0 && v.base < End(v)
  {
    CountStrict(c.crc, v.batches, 0, |v.batches|);
    assert v.batches[..|v.batches|] == v.batches;
  }

  // --- Append -------------------------------------------------------------------------------

  function LastOf(log: Log): SegmentView
    requires |log| > 0
  {
    log[|log| - 1]
  }

  /** The active segment with one more batch, stamped with its base offset. */
  function Grown(v: SegmentView, b: Frame, next: int64): SegmentView {
    SegmentView(v.base, v.batches + [Stamp(b, next)], v.sealed, v.synced)
  }

  function Sealed(v: SegmentView): SegmentView {
    SegmentView(v.base, v.batches, true, Size(v))
  }

  function Fresh(base: int): SegmentView {
    SegmentView(base, [], false, 0)
  }

  /** Append to the active segment; a segment that reached its size is sealed and a new one begun. */
  function Appended(c: Config, log: Log, next: int64, b: Frame): (r: Log)
    requires |log| > 0
  {
    var v := Grown(LastOf(log), b, next);
    if Size(v) >= c.segmentMaxBytes then
      log[..|log| - 1] + [Sealed(v), Fresh(End(v))]
    else
      log[..|log| - 1] + [v]
  }

  /** The active log synced to disk. */
  function SyncedLast(log: Log): (r: Log)
    requires |log| > 0
  {
    log[..|log| - 1] + [Synced(LastOf(log))]
  }

  function Synced(v: SegmentView): SegmentView {
    SegmentView(v.base, v.batches, v.sealed, Size(v))
  }

  lemma GrownValid(c: Config, v: SegmentView, b: Frame, next: int64)
    requires ValidSegment(c, v) && Appendable(c, v) && End(v) == next
    requires WellFormed(c.crc, b) && next + CountOf(b) < TWO_63
    ensures ValidSegment(c, Grown(v, b, next)) && End(Grown(v, b, next)) == next + CountOf(b)
    ensures Size(Grown(v, b, next)) == Size(v) + |b|
  {
    hide ValidSegment, Appendable, Stamp, WellFormed, BaseOf, CountOf, Count, Flat;
    StampWellFormed(c.crc, b, next);
    SnocValid(c, v, Stamp(b, next));
  }

  /** A segment with one more batch. */
  lemma SnocValid(c: Config, v: SegmentView, b: Frame)
    requires ValidSegment(c, v) && Appendable(c, v)
    requires WellFormed(c.crc, b) && BaseOf(b) == End(v) && End(v) + CountOf(b) < TWO_63
    ensures var w := v.(batches := v.batches + [b]);
      ValidSegment(c, w) && End(w) == End(v) + CountOf(b) && Size(w) == Size(v) + |b|
  {
    hide WellFormed, BaseOf, CountOf, Count, Flat, Consecutive, AllWellFormed, StartsBelow, HasIndexRoom, IndexFits;
    FlatSnoc(v.batches, b);
    ConsecutiveSnoc(v.base, v.batches, b);
    WellFormedSnoc(c.crc, v.batches, b);
    StartsBelowSnoc(v.batches, b, TWO_31);
    SnocFits(c, v, b);
  }

  lemma SnocFits(c: Config, v: SegmentView, b: Frame)
    requires HasIndexRoom(c, v) && IndexFits(c, v)
    ensures IndexFits(c, v.(batches := v.batches + [b]))
  {
    hide SamplesOf, MaxEntries, Flat, WrapInt32, BaseOf, MaxTimestampOf;
    SamplesSnoc(c.indexSampleBytes, v.base, v.batches, b);
  }

  /** The log when the batch is written and nothing else has happened yet: the active segment may be full. */
  function Written(log: Log, next: int64, b: Frame): (r: Log)
    requires |log| > 0
    ensures |r| == |log|
  {
    log[..|log| - 1] + [Grown(LastOf(log), b, next)]
  }

  lemma WrittenRefines(c: Config, log: Log, next: int64, b: Frame)
    requires ValidLog(c, log, next) && Appendable(c, LastOf(log))
    requires WellFormed(c.crc, b) && next + CountOf(b) < TWO_63
    ensures ValidLog(c, Written(log, next, b), next + CountOf(b))
    ensures Roomy(c, log) ==> Trim(c, Written(log, next, b))
    ensures All(Written(log, next, b)) == All(log) + [Stamp(b, next)]
    ensures Written(log, next, b)[0].base == log[0].base
  {
    hide ValidSegment, Appendable, Size, End, All, WellFormed, Stamp, ValidLog, Trim, Roomy;
    ActiveFacts(c, log, next);
    GrownValid(c, LastOf(log), b, next);
    if Roomy(c, log) {
      GrownTrim(c, log, next, b);
    }
    ReplaceLast(c, log, next, Grown(LastOf(log), b, next));
    AllLast(log);
    GrownFlat(All(log[..|log| - 1]), LastOf(log), b, next);
    AllSnoc(log[..|log| - 1], Grown(LastOf(log), b, next));
  }

  /** Appending adds the stamped batch at the end of the flat list and nothing else. */
  lemma AppendRefines(c: Config, log: Log, next: int64, b: Frame)
    requires ValidConfig(c) && ValidLog(c, log, next) && Appendable(c, LastOf(log))
    requires WellFormed(c.crc, b) && next + CountOf(b) < TWO_63
    ensures ValidLog(c, Appended(c, log, next, b), next + CountOf(b))
    ensures Appendable(c, LastOf(Appended(c, log, next, b)))
    ensures Roomy(c, log) ==> Roomy(c, Appended(c, log, next, b))
    ensures All(Appended(c, log, next, b)) == All(log) + [Stamp(b, next)]
    ensures Appended(c, log, next, b)[0].base == log[0].base
  {
    hide ValidSegment, Appendable, Size, End, All, WellFormed, Filled, Stamp, ValidLog, Trim;
    ActiveFacts(c, log, next);
    AppendedFlat(c, log, next, b);
    var v := Grown(LastOf(log), b, next);
    GrownValid(c, LastOf(log), b, next);
    if Roomy(c, log) {
      GrownTrim(c, log, next, b);
      RolledTrim(c, log, next, b);
    }
    AppendedRoom(c, log, next, b);
    if Size(v) >= c.segmentMaxBytes {
      SealedValid(c, v);
      FreshSegmentValid(c, End(v));
      ReplaceLastSealed(c, log, next, Sealed(v), Fresh(End(v)));
    } else {
      ReplaceLast(c, log, next, v);
    }
  }

  lemma GrownTrim(c: Config, log: Log, next: int64, b: Frame)
    requires Roomy(c, log)
    ensures Trim(c, Written(log, next, b))
  {
    hide Flat, Stamp;
    StartsBelowSnoc(LastOf(log).batches, Stamp(b, next), c.segmentMaxBytes);
  }

  lemma RolledTrim(c: Config, log: Log, next: int64, b: Frame)
    requires ValidConfig(c) && |log| > 0 && Trim(c, Written(log, next, b))
    ensures Roomy(c, Appended(c, log, next, b))
  {
    hide Stamp, End;
    var w, r := Written(log, next, b), Appended(c, log, next, b);
    assert forall i | 0 <= i < |w| :: r[i].batches == w[i].batches;
    hide Appended;
  }

  /** After an append the active segment is below its limit, so another batch can follow. */
  lemma AppendedRoom(c: Config, log: Log, next: int64, b: Frame)
    requires ValidConfig(c) && |log| > 0 && ValidSegment(c, Grown(LastOf(log), b, next))
    ensures Appendable(c, LastOf(Appended(c, log, next, b)))
  {
    hide SamplesOf, MaxEntries, Stamp, End, Flat, WellFormed;
    var v := Grown(LastOf(log), b, next);
    if Size(v) < c.segmentMaxBytes {
      BelowAll(v.batches, c.segmentMaxBytes);
      BelowLimitHasRoom(c, v);
    } else {
      FreshIsAppendable(c, End(v));
    }
  }

  lemma FreshIsAppendable(c: Config, base: int)
    requires ValidConfig(c)
    ensures Appendable(c, Fresh(base)) && IndexFits(c, Fresh(base))
  {
    BelowLimitHasRoom(c, Fresh(base));
  }

  lemma NextInRange(c: Config, log: Log, next: int)
    requires ValidLog(c, log, next)
    ensures 0 <= next < TWO_63
  {
    assert ValidSegment(c, LastOf(log));
  }

  lemma ActiveFacts(c: Config, log: Log, next: int)
    requires ValidLog(c, log, next)
    ensures |log| > 0 && ValidSegment(c, LastOf(log)) && !LastOf(log).sealed && End(LastOf(log)) == next
  {
  }

  lemma SealedValid(c: Config, v: SegmentView)
    requires ValidSegment(c, v) && Size(v) >= c.segmentMaxBytes
    ensures var w := Sealed(v);
      ValidSegment(c, w) && Filled(c, w) && End(w) == End(v) && 0 <= End(v) < TWO_63
  {
  }

  /** Another active segment in place of the last one. */
  lemma ReplaceLast(c: Config, log: Log, next: int, v: SegmentView)
    requires ValidLog(c, log, next) && ValidSegment(c, v) && v.base == LastOf(log).base && !v.sealed
    ensures var r := log[..|log| - 1] + [v]; ValidLog(c, r, End(v)) && r[0].base == log[0].base
  {
    hide ValidSegment, Filled, Size, End;
  }

  lemma ReplaceLastSealed(c: Config, log: Log, next: int, v: SegmentView, w: SegmentView)
    requires ValidLog(c, log, next) && ValidSegment(c, v) && v.base == LastOf(log).base && Filled(c, v)
    requires ValidSegment(c, w) && !w.sealed && w.base == End(v)
    ensures var r := log[..|log| - 1] + [v, w]; ValidLog(c, r, End(w)) && r[0].base == log[0].base
  {
    hide ValidSegment, Filled, Size, End;
  }

  lemma FreshSegmentValid(c: Config, base: int)
    requires ValidConfig(c) && 0 <= base < TWO_63
    ensures ValidSegment(c, Fresh(base)) && Size(Fresh(base)) == 0 && End(Fresh(base)) == base
  {
  }

  lemma FreshLogValid(c: Config)
    requires ValidConfig(c)
    ensures ValidLog(c, [Fresh(0)], 0) && Roomy(c, [Fresh(0)]) && All([Fresh(0)]) == []
  {
    hide ValidSegment, Size, End;
    FreshSegmentValid(c, 0);
    FreshHoldsNothing();
    hide All;
  }

  lemma FreshHoldsNothing()
    ensures All([Fresh(0)]) == []
  {
    AllSnoc([], Fresh(0));
    assert [] + [Fresh(0)] == [Fresh(0)];
  }

  lemma AppendedFlat(c: Config, log: Log, next: int64, b: Frame)
    requires |log| > 0
    ensures All(Appended(c, log, next, b)) == All(log) + [Stamp(b, next)]
  {
    hide All, Size, End, Stamp;
    AllLast(log);
    GrownFlat(All(log[..|log| - 1]), LastOf(log), b, next);
    if Size(Grown(LastOf(log), b, next)) >= c.segmentMaxBytes {
      AllSealed(log[..|log| - 1], Grown(LastOf(log), b, next));
    } else {
      AllSnoc(log[..|log| - 1], Grown(LastOf(log), b, next));
    }
  }

  lemma AllLast(log: Log)
    requires |log| > 0
    ensures All(log) == All(log[..|log| - 1]) + LastOf(log).batches
  {
  }

  lemma GrownFlat(xs: seq<Frame>, v: SegmentView, b: Frame, next: int64)
    ensures xs + Grown(v, b, next).batches == xs + v.batches + [Stamp(b, next)]
  {
  }

  lemma AllSealed(init: Log, v: SegmentView)
    ensures All(init + [Sealed(v), Fresh(End(v))]) == All(init) + v.batches
  {
    hide All, Size, End;
    AllSnoc(init, Sealed(v));
    AllSnoc(init + [Sealed(v)], Fresh(End(v)));
    assert init + [Sealed(v), Fresh(End(v))] == init + [Sealed(v)] + [Fresh(End(v))];
  }
}
