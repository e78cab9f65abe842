/**
 Reading by time. The time index holds an entry for some of the batches only, and is searched by
 halving, so a read by time starts where it should only if that search can find the batch.
 */
module TimeReads {
  import opened Bytes
  import opened Batch
  import opened Framing
  import opened Scans
  import opened Sampling
  import opened LogModel
  import opened LogReads

  // --- The search -----------------------------------------------------------------------------------

  /** Halving the entries `lo` to `hi`: below a probe that is at or after the time, otherwise above it. */
  function Search(es: seq<TimeEntry>, t: int, lo: int, hi: int): (r: Option<int>)
    requires 0 <= lo <= hi + 1 <= |es|
    ensures r.Some? ==> lo <= r.value <= hi && es[r.value].timestampMs >= t
    decreases hi - lo + 1
  {
    if lo > hi then None
    else
      var mid := (lo + hi) / 2;
      if es[mid].timestampMs >= t then
        var below := Search(es, t, lo, mid - 1);
        if below.Some? then below else Some(mid)
      else Search(es, t, mid + 1, hi)
  }

  lemma SearchStep(es: seq<TimeEntry>, t: int, lo: int, hi: int)
    requires 0 <= lo <= hi < |es|
    ensures var mid := (lo + hi) / 2;
      Search(es, t, lo, hi)
      == if es[mid].timestampMs < t then Search(es, t, mid + 1, hi)
         else if Search(es, t, lo, mid - 1).Some? then Search(es, t, lo, mid - 1) else Some(mid)
  {
  }

  lemma {:induction false} SearchCrosses(es: seq<TimeEntry>, t: int, lo: int, hi: int)
    requires 0 <= lo <= hi + 1 <= |es|
    ensures var r := Search(es, t, lo, hi);
      && (r.Some? && r.value > lo ==> es[r.value - 1].timestampMs < t)
      && (r.None? && lo <= hi ==> es[hi].timestampMs < t)
    decreases hi - lo + 1
  {
    hide Search;
    if lo <= hi {
      SearchStep(es, t, lo, hi);
      var mid := (lo + hi) / 2;
      if es[mid].timestampMs >= t {
        SearchCrosses(es, t, lo, mid - 1);
      } else {
        SearchCrosses(es, t, mid + 1, hi);
      }
    }
  }

  /** The offset in the entry that the search ends on. */
  function SearchResult(es: seq<TimeEntry>, t: int): Option<int> {
    var j := Search(es, t, 0, |es| - 1);
    if j.Some? then Some(es[j.value].relativeOffset) else None
  }

  lemma ResultCrosses(es: seq<TimeEntry>, t: int)
    ensures IsCrossing(es, t, SearchResult(es, t))
  {
    hide Search;
    SearchCrosses(es, t, 0, |es| - 1);
  }

  /** On the way to entry `j`, every probe above it is at or after the time. */
  predicate Reached(es: seq<TimeEntry>, t: int, lo: int, hi: int, j: int)
    requires 0 <= lo <= hi + 1 <= |es|
    decreases hi - lo + 1
  {
    && lo <= hi
    && var mid := (lo + hi) / 2;
       if mid < j then Reached(es, t, mid + 1, hi, j)
       else mid == j || (es[mid].timestampMs >= t && Reached(es, t, lo, mid - 1, j))
  }

  /** The search finds the first entry at or after the time exactly if it reaches it. */
  lemma {:induction false} SearchIffReached(es: seq<TimeEntry>, t: int, lo: int, hi: int, j: int)
    requires 0 <= lo <= j <= hi < |es|
    requires es[j].timestampMs >= t && forall i | lo <= i < j :: es[i].timestampMs < t
    ensures Search(es, t, lo, hi) == Some(j) <==> Reached(es, t, lo, hi, j)
    decreases hi - lo
  {
    var mid := (lo + hi) / 2;
    if mid < j {
      SearchIffReached(es, t, mid + 1, hi, j);
    } else if mid > j {
      SearchIffReached(es, t, lo, mid - 1, j);
    }
  }

  /** If no entry after it is before the time, it is reached; so it is if timestamps do not go back. */
  lemma {:induction false} ReachedInOrder(es: seq<TimeEntry>, t: int, lo: int, hi: int, j: int)
    requires 0 <= lo <= j <= hi < |es|
    requires forall i | j <= i <= hi :: es[i].timestampMs >= t
    ensures Reached(es, t, lo, hi, j)
    decreases hi - lo
  {
    var mid := (lo + hi) / 2;
    if mid < j {
      ReachedInOrder(es, t, mid + 1, hi, j);
    } else if mid > j {
      ReachedInOrder(es, t, lo, mid - 1, j);
    }
  }

  // --- The batches that have an entry ---------------------------------------------------------------

  /** The places of the batches that have an index entry. */
  function Sampled(sample: nat, base: int, bs: seq<Frame>): (r: seq<nat>) {
    if |bs| == 0 then []
    else
      var init := bs[..|bs| - 1];
      Sampled(sample, base, init) + (if SamplesOf(sample, base, init).bytesSince >= sample then [|bs| - 1] else [])
  }

  /** Entry `e` of the time index is that of batch `k`. */
  predicate Times(bs: seq<Frame>, e: TimeEntry, k: nat) {
    k < |bs| && e.timestampMs == MaxTimestampOf(bs[k]) && e.relativeOffset == Count(bs[..k])
  }

  predicate AllTimes(bs: seq<Frame>, es: seq<TimeEntry>, ks: seq<nat>) {
    |es| == |ks| && forall j | 0 <= j < |ks| :: Times(bs, es[j], ks[j])
  }

  predicate Ascending(ks: seq<nat>, limit: nat) {
    && (forall j | 0 <= j < |ks| :: ks[j] < limit)
    && (forall i, j | 0 <= i < j < |ks| :: ks[i] < ks[j])
  }

  /** The time index lists exactly the sampled batches, in order, each with its own timestamp and offset. */
  lemma {:induction false} TimesAreSampled(crc: Checksum, sample: nat, base: int, bs: seq<Frame>)
    requires AllWellFormed(crc, bs) && Consecutive(base, bs) && StartsBelow(bs, TWO_31)
    ensures AllTimes(bs, SamplesOf(sample, base, bs).times, Sampled(sample, base, bs))
    ensures Ascending(Sampled(sample, base, bs), |bs|)
  {
    hide Flat, Count, WrapInt32, BaseOf, MaxTimestampOf, WellFormed, Consecutive, StartsBelow;
    if |bs| > 0 {
      var n := |bs| - 1;
      ConsecutiveTake(base, bs, n);
      StartsBelowTake(bs, TWO_31, n);
      TimesAreSampled(crc, sample, base, bs[..n]);
      hide AllTimes, Ascending;
      TimeForLast(crc, sample, base, bs, SamplesOf(sample, base, bs[..n]), Sampled(sample, base, bs[..n]));
    }
  }

  lemma TimeForLast(crc: Checksum, sample: nat, base: int, bs: seq<Frame>, st: Samples, ks: seq<nat>)
    requires AllWellFormed(crc, bs) && Consecutive(base, bs) && StartsBelow(bs, TWO_31) && |bs| > 0
    requires AllTimes(bs[..|bs| - 1], st.times, ks) && Ascending(ks, |bs| - 1)
    ensures var r := ks + (if st.bytesSince >= sample then [|bs| - 1] else []);
      && AllTimes(bs, Indexed(sample, base, st, bs[|bs| - 1], |Flat(bs[..|bs| - 1])|).times, r)
      && Ascending(r, |bs|)
  {
    hide Flat, Count, WrapInt32, BaseOf, MaxTimestampOf, AllWellFormed, Consecutive, StartsBelow;
    LastEntry(crc, base, bs);
    TimesKept(bs, st.times, ks);
  }

  lemma TimesKept(bs: seq<Frame>, es: seq<TimeEntry>, ks: seq<nat>)
    requires |bs| > 0 && AllTimes(bs[..|bs| - 1], es, ks)
    ensures AllTimes(bs, es, ks)
  {
    hide Count, MaxTimestampOf;
    forall j | 0 <= j < |ks| ensures Times(bs, es[j], ks[j]) {
      assert Times(bs[..|bs| - 1], es[j], ks[j]);
      assert bs[..|bs| - 1][..ks[j]] == bs[..ks[j]];
    }
  }

  /** The place after the last batch that has an entry. */
  function AfterLast(sample: nat, base: int, bs: seq<Frame>): int {
    var ks := Sampled(sample, base, bs);
    if |ks| == 0 then 0 else ks[|ks| - 1] + 1
  }

  lemma {:induction false} BytesSinceLast(sample: nat, base: int, bs: seq<Frame>)
    ensures 0 <= AfterLast(sample, base, bs) <= |bs|
    ensures SamplesOf(sample, base, bs).bytesSince == |Flat(bs[AfterLast(sample, base, bs)..])|
  {
    hide Count, BaseOf, MaxTimestampOf, WrapInt32;
    if |bs| > 0 {
      var n := |bs| - 1;
      BytesSinceLast(sample, base, bs[..n]);
      var a := AfterLast(sample, base, bs[..n]);
      assert bs[a..] == bs[..n][a..] + [bs[n]];
      hide Flat;
      FlatSnoc(bs[..n][a..], bs[n]);
      NothingAfter(bs);
    }
  }

  lemma NothingAfter(bs: seq<Frame>)
    ensures |Flat(bs[|bs|..])| == 0
  {
  }

  /** A batch gets an entry exactly if the batches since the last one that has an entry make up a sample. */
  lemma {:induction false} SampledIff(sample: nat, base: int, bs: seq<Frame>, k: nat)
    requires k < |bs|
    ensures 0 <= AfterLast(sample, base, bs[..k]) <= k
    ensures k in Sampled(sample, base, bs) <==> |Flat(bs[AfterLast(sample, base, bs[..k])..k])| >= sample
    decreases |bs|
  {
    hide SamplesOf, Flat, AfterLast;
    var n := |bs| - 1;
    BytesSinceLast(sample, base, bs[..k]);
    assert bs[..k][AfterLast(sample, base, bs[..k])..] == bs[AfterLast(sample, base, bs[..k])..k];
    if k < n {
      SampledIff(sample, base, bs[..n], k);
      assert bs[..n][..k] == bs[..k];
      assert bs[..n][AfterLast(sample, base, bs[..k])..k] == bs[AfterLast(sample, base, bs[..k])..k];
    } else {
      SampledBelow(sample, base, bs[..n]);
    }
  }

  lemma {:induction false} SampledBelow(sample: nat, base: int, bs: seq<Frame>)
    ensures forall k | k in Sampled(sample, base, bs) :: k < |bs|
  {
    hide SamplesOf;
    if |bs| > 0 {
      SampledBelow(sample, base, bs[..|bs| - 1]);
    }
  }

  /** The first batch of a segment never gets an entry. */
  lemma {:induction false} FirstIsNotSampled(sample: nat, base: int, bs: seq<Frame>)
    requires sample >= 1
    ensures 0 !in Sampled(sample, base, bs)
  {
    if |bs| > 0 {
      FirstIsNotSampled(sample, base, bs[..|bs| - 1]);
    }
  }

  // --- One segment ----------------------------------------------------------------------------------

  /** The first batch with a record at or after the time, or the number of batches. */
  function FirstSince(bs: seq<Frame>, t: int): (k: nat)
    ensures k <= |bs| && forall i | 0 <= i < k :: MaxTimestampOf(bs[i]) < t
    ensures k < |bs| ==> MaxTimestampOf(bs[k]) >= t
  {
    if |bs| == 0 || MaxTimestampOf(bs[0]) >= t then 0 else FirstSince(bs[1..], t) + 1
  }

  function TimesOf(c: Config, v: SegmentView): seq<TimeEntry> {
    SamplesOf(c.indexSampleBytes, v.base, v.batches).times
  }

  function SampledIn(c: Config, v: SegmentView): seq<nat> {
    Sampled(c.indexSampleBytes, v.base, v.batches)
  }

  lemma SegmentTimes(c: Config, v: SegmentView)
    requires ValidSegment(c, v)
    ensures AllTimes(v.batches, TimesOf(c, v), SampledIn(c, v)) && Ascending(SampledIn(c, v), |v.batches|)
  {
    hide SamplesOf, Sampled, AllTimes, IndexFits, Ascending;
    TimesAreSampled(c.crc, c.indexSampleBytes, v.base, v.batches);
  }

  /** The batch whose entry the search ends on. */
  function TimeLookup(c: Config, v: SegmentView, t: int): (r: Option<nat>) {
    var es, ks := TimesOf(c, v), SampledIn(c, v);
    var found := Search(es, t, 0, |es| - 1);
    if found.Some? && found.value < |ks| then Some(ks[found.value]) else None
  }

  /** Batch `k` has an index entry, and the search reaches it. */
  ghost predicate Findable(c: Config, v: SegmentView, t: int, k: nat) {
    var es, ks := TimesOf(c, v), SampledIn(c, v);
    exists j | 0 <= j < |ks| :: ks[j] == k && Reached(es, t, 0, |es| - 1, j)
  }

  /**
   What is found is never before the time, and it is the first batch of the segment at or after
   the time exactly if that batch has an entry that the search reaches.
   */
  lemma LookupIffFindable(c: Config, v: SegmentView, t: int)
    requires ValidSegment(c, v)
    ensures var r, m := TimeLookup(c, v, t), FirstSince(v.batches, t);
      && (r.Some? ==> m <= r.value < |v.batches| && MaxTimestampOf(v.batches[r.value]) >= t)
      && (m < |v.batches| ==> (r == Some(m) <==> Findable(c, v, t, m)))
  {
    hide ValidSegment, TimesOf, SampledIn, MaxTimestampOf, Search, Reached, FirstSince;
    SegmentTimes(c, v);
    var es, ks, m := TimesOf(c, v), SampledIn(c, v), FirstSince(v.batches, t);
    assert forall j | 0 <= j < |ks| :: Times(v.batches, es[j], ks[j]);
    if j :| 0 <= j < |ks| && ks[j] == m {
      SearchIffReached(es, t, 0, |es| - 1, j);
    }
  }

  /** With timestamps that do not go back, having an entry is enough. */
  lemma FindableInOrder(c: Config, v: SegmentView, t: int, k: nat)
    requires ValidSegment(c, v) && k < |v.batches| && MaxTimestampOf(v.batches[k]) >= t
    requires forall i | k <= i < |v.batches| :: MaxTimestampOf(v.batches[k]) <= MaxTimestampOf(v.batches[i])
    ensures Findable(c, v, t, k) <==> k in SampledIn(c, v)
  {
    hide ValidSegment, TimesOf, SampledIn, MaxTimestampOf, Reached;
    SegmentTimes(c, v);
    var es, ks := TimesOf(c, v), SampledIn(c, v);
    assert forall j | 0 <= j < |ks| :: Times(v.batches, es[j], ks[j]);
    if j :| 0 <= j < |ks| && ks[j] == k {
      ReachedInOrder(es, t, 0, |es| - 1, j);
    }
  }

  /** The first batch of a segment is never found. */
  lemma FirstIsNotFound(c: Config, v: SegmentView, t: int)
    requires ValidConfig(c)
    ensures !Findable(c, v, t, 0)
  {
    hide Sampled, SamplesOf, Reached;
    FirstIsNotSampled(c.indexSampleBytes, v.base, v.batches);
  }

  /** What a read by time returns from one segment. */
  function SegmentByTime(c: Config, v: SegmentView, t: int, maxBytes: int): Option<ReadResult> {
    var k := TimeLookup(c, v, t);
    if k.Some? && k.value < |v.batches| then
      Some(FullScan(v.batches, v.base + Count(v.batches[..k.value]), maxBytes))
    else None
  }

  /** The entry that the search ends on leads to its batch; a read from there is never empty. */
  lemma FoundEntry(c: Config, v: SegmentView, t: int, maxBytes: int)
    requires ValidSegment(c, v)
    ensures var es, k := TimesOf(c, v), TimeLookup(c, v, t);
      var found := Search(es, t, 0, |es| - 1);
      && (found.Some? <==> k.Some?)
      && (k.Some? ==> k.value < |v.batches| && es[found.value].relativeOffset == Count(v.batches[..k.value]))
      && (k.Some? ==> |FullScan(v.batches, v.base + Count(v.batches[..k.value]), maxBytes).records| > 0)
  {
    hide ValidSegment, TimesOf, SampledIn, MaxTimestampOf, Search, End, Flat, FullScan, Count, BaseOf, EndOf;
    SegmentTimes(c, v);
    var es, ks := TimesOf(c, v), SampledIn(c, v);
    var found := Search(es, t, 0, |es| - 1);
    if found.Some? {
      var k := ks[found.value];
      assert Times(v.batches, es[found.value], k);
      WithinSegment(c, v, k);
      var m, n := SegmentReadMeaning(c, v, v.base + Count(v.batches[..k]), maxBytes);
      HeadOfFlat(v.batches, m, n);
    }
  }

  // --- The whole log --------------------------------------------------------------------------------

  /** A batch of a log: its segment, and its place in it. */
  datatype Place = Place(segment: nat, batch: nat)

  predicate InLog(log: Log, p: Place) {
    p.segment < |log| && p.batch < |log[p.segment].batches|
  }

  /** The offset at which the batch begins. */
  function OffsetAt(log: Log, p: Place): int
    requires InLog(log, p)
  {
    log[p.segment].base + Count(log[p.segment].batches[..p.batch])
  }

  /** The first batch, from segment `i` on, with a record at or after the time. */
  function FirstPlace(log: Log, t: int, i: nat): (r: Option<Place>)
    requires i <= |log|
    ensures r.Some? ==> InLog(log, r.value)
    decreases |log| - i
  {
    if i == |log| then None
    else
      var k := FirstSince(log[i].batches, t);
      if k < |log[i].batches| then Some(Place(i, k)) else FirstPlace(log, t, i + 1)
  }

  /** The batch that a read by time starts from: that of the first segment whose search finds one. */
  function FoundPlace(c: Config, log: Log, t: int, i: nat): (r: Option<Place>)
    requires i <= |log|
    ensures r.Some? ==> r.value.segment >= i
    decreases |log| - i
  {
    if i == |log| then None
    else
      var k := TimeLookup(c, log[i], t);
      if k.Some? then Some(Place(i, k.value)) else FoundPlace(c, log, t, i + 1)
  }

  /** What the documentation promises: a read from the first batch with a record at or after the time. */
  function PromisedByTime(log: Log, next: int, t: int, maxBytes: int): Option<ReadOutcome>
    requires |log| > 0
  {
    var p := FirstPlace(log, t, 0);
    if p.None? then None else Some(ReadLog(log, next, OffsetAt(log, p.value), maxBytes))
  }

  /** What a read by time returns. */
  function ReadByTime(c: Config, log: Log, t: int, maxBytes: int): Option<ReadOutcome> {
    var p := FoundPlace(c, log, t, 0);
    if p.Some? && InLog(log, p.value) then
      var r := FullScan(log[p.value.segment].batches, OffsetAt(log, p.value), maxBytes);
      Some(Records(r.records, r.next))
    else None
  }

  /** The first segment that finds anything decides. */
  lemma SegmentDecides(c: Config, log: Log, t: int, maxBytes: int, i: nat)
    requires i < |log| && ValidSegment(c, log[i]) && FoundPlace(c, log, t, 0) == FoundPlace(c, log, t, i)
    ensures var found := SegmentByTime(c, log[i], t, maxBytes);
      if found.Some? then ReadByTime(c, log, t, maxBytes) == Some(Records(found.value.records, found.value.next))
      else FoundPlace(c, log, t, 0) == FoundPlace(c, log, t, i + 1)
  {
    hide TimeLookup, FullScan, ValidSegment, Count;
    FoundEntry(c, log[i], t, maxBytes);
  }

  lemma NothingDecides(c: Config, log: Log, t: int, maxBytes: int)
    requires FoundPlace(c, log, t, 0) == FoundPlace(c, log, t, |log|)
    ensures ReadByTime(c, log, t, maxBytes) == None
  {
  }

  /** The first batch at or after the time is one that the search can find, if there is such a batch. */
  ghost predicate FirstIsFindable(c: Config, log: Log, t: int) {
    var p := FirstPlace(log, t, 0);
    p.Some? ==> Findable(c, log[p.value.segment], t, p.value.batch)
  }

  lemma {:induction false} FoundIffFindable(c: Config, log: Log, t: int, i: nat)
    requires i <= |log| && forall k | 0 <= k < |log| :: ValidSegment(c, log[k])
    ensures var p, q := FirstPlace(log, t, i), FoundPlace(c, log, t, i);
      && (q.Some? ==> InLog(log, q.value))
      && (p.None? ==> q.None?)
      && (p.Some? ==> (q == p <==> Findable(c, log[p.value.segment], t, p.value.batch)))
    decreases |log| - i
  {
    hide ValidSegment, TimeLookup, FirstSince, Findable, MaxTimestampOf;
    if i < |log| {
      LookupIffFindable(c, log[i], t);
      FoundIffFindable(c, log, t, i + 1);
    }
  }

  /**
   A read by time returns what is promised exactly if the first batch at or after the time has an index
   entry that the search reaches, or there is no such batch.
   */
  lemma ReadByTimeIff(c: Config, log: Log, next: int, t: int, maxBytes: int)
    requires ValidConfig(c) && ValidLog(c, log, next)
    ensures ReadByTime(c, log, t, maxBytes) == PromisedByTime(log, next, t, maxBytes) <==> FirstIsFindable(c, log, t)
  {
    hide ValidSegment, Filled, End, FoundPlace, FirstPlace, FullScan, OffsetAt, ReadLog, Findable, BaseOf;
    FoundIffFindable(c, log, t, 0);
    var p, q := FirstPlace(log, t, 0), FoundPlace(c, log, t, 0);
    if p.Some? {
      PlaceRead(c, log, next, p.value, maxBytes);
    }
    if q.Some? {
      PlaceRead(c, log, next, q.value, maxBytes);
    }
    if p.Some? && q.Some? && p != q {
      OffsetsDiffer(c, log, next, p.value, q.value);
    }
  }

  /** Nothing is found only if the last batch that has an entry is before the time, in every segment. */
  lemma NotFoundMeans(c: Config, v: SegmentView, t: int)
    requires ValidSegment(c, v) && TimeLookup(c, v, t).None? && |SampledIn(c, v)| > 0
    ensures SampledIn(c, v)[|SampledIn(c, v)| - 1] < |v.batches|
    ensures MaxTimestampOf(v.batches[SampledIn(c, v)[|SampledIn(c, v)| - 1]]) < t
  {
    hide ValidSegment, TimesOf, SampledIn, MaxTimestampOf, Search;
    SegmentTimes(c, v);
    var es, ks := TimesOf(c, v), SampledIn(c, v);
    SearchCrosses(es, t, 0, |es| - 1);
    assert Times(v.batches, es[|es| - 1], ks[|ks| - 1]);
  }

  /** Every segment's last batch that has an entry is before the time. */
  predicate AllBefore(c: Config, log: Log, t: int) {
    forall i | 0 <= i < |log| ::
      var ks := SampledIn(c, log[i]);
      |ks| > 0 ==> ks[|ks| - 1] < |log[i].batches| && MaxTimestampOf(log[i].batches[ks[|ks| - 1]]) < t
  }

  lemma {:induction false} NoneFound(c: Config, log: Log, t: int, i: nat)
    requires i <= |log| && FoundPlace(c, log, t, i).None?
    ensures forall j | i <= j < |log| :: TimeLookup(c, log[j], t).None?
    decreases |log| - i
  {
    hide TimeLookup;
    if i < |log| {
      NoneFound(c, log, t, i + 1);
    }
  }

  lemma {:induction false} SomeFound(c: Config, log: Log, t: int, i: nat)
    requires i <= |log| && (forall k | 0 <= k < |log| :: ValidSegment(c, log[k])) && FoundPlace(c, log, t, i).Some?
    ensures var p := FoundPlace(c, log, t, i).value;
      InLog(log, p) && MaxTimestampOf(log[p.segment].batches[p.batch]) >= t
    decreases |log| - i
  {
    hide ValidSegment, TimeLookup, FirstSince, Findable, MaxTimestampOf;
    LookupIffFindable(c, log[i], t);
    if TimeLookup(c, log[i], t).None? {
      SomeFound(c, log, t, i + 1);
    }
  }

  /**
   What a read by time answers in any case: a read from a batch that is not before the time, or nothing,
   and then every segment's last batch with an entry is before it.
   */
  lemma ReadByTimeAnswers(c: Config, log: Log, next: int, t: int, maxBytes: int) returns (p: Place)
    requires ValidConfig(c) && ValidLog(c, log, next)
    ensures var r := ReadByTime(c, log, t, maxBytes);
      && (r.None? ==> AllBefore(c, log, t))
      && (r.Some? ==>
            && InLog(log, p) && MaxTimestampOf(log[p.segment].batches[p.batch]) >= t
            && r.value == ReadLog(log, next, OffsetAt(log, p), maxBytes)
            && r.value.Records? && r.value.records != [])
  {
    hide ValidSegment, Filled, End, FoundPlace, FullScan, OffsetAt, ReadLog, BaseOf, TimeLookup, MaxTimestampOf;
    var q := FoundPlace(c, log, t, 0);
    p := Place(0, 0);
    if q.Some? {
      SomeFound(c, log, t, 0);
      p := q.value;
      PlaceRead(c, log, next, p, maxBytes);
    } else {
      NoneFound(c, log, t, 0);
      forall i | 0 <= i < |log| && |SampledIn(c, log[i])| > 0
        ensures var ks := SampledIn(c, log[i]);
          ks[|ks| - 1] < |log[i].batches| && MaxTimestampOf(log[i].batches[ks[|ks| - 1]]) < t
      {
        NotFoundMeans(c, log[i], t);
      }
    }
  }

  /** A read from the start of a batch is a scan of its segment, and the batch comes first. */
  lemma PlaceRead(c: Config, log: Log, next: int, p: Place, maxBytes: int)
    requires ValidConfig(c) && ValidLog(c, log, next) && InLog(log, p)
    ensures var r := FullScan(log[p.segment].batches, OffsetAt(log, p), maxBytes);
      && ReadLog(log, next, OffsetAt(log, p), maxBytes) == Records(r.records, r.next)
      && |r.records| >= 12 && BaseOf(r.records) == OffsetAt(log, p)
  {
    hide ValidLog, ValidSegment, FullScan, End, Flat, Count, SegmentOf, BaseOf, EndOf;
    var v, offset := log[p.segment], OffsetAt(log, p);
    SegmentIsValid(c, log, next, p.segment);
    WithinSegment(c, v, p.batch);
    PlaceInLog(c, log, next, p);
    SegmentOfIsUnique(log, offset, p.segment);
    var m, n := SegmentReadMeaning(c, v, offset, maxBytes);
    SameBatch(c, v, p.batch, m);
    HeadOfFlat(v.batches, m, n);
  }

  lemma WithinSegment(c: Config, v: SegmentView, k: nat)
    requires ValidSegment(c, v) && k < |v.batches|
    ensures BaseOf(v.batches[k]) == v.base + Count(v.batches[..k])
    ensures v.base <= v.base + Count(v.batches[..k]) < End(v)
  {
    hide ValidSegment, Count, BaseOf, CountOf;
    SegmentFacts(c, v);
    CountStrict(c.crc, v.batches, k, |v.batches|);
    assert v.batches[..|v.batches|] == v.batches;
  }

  /** The offset is looked up in the batch's own segment. */
  lemma PlaceInLog(c: Config, log: Log, next: int, p: Place)
    requires ValidConfig(c) && ValidLog(c, log, next) && InLog(log, p)
    ensures IsSegmentOf(log, OffsetAt(log, p), p.segment) && log[0].base <= OffsetAt(log, p) < next
  {
    hide ValidLog, ValidSegment, End, Count;
    var i := p.segment;
    SegmentIsValid(c, log, next, i);
    WithinSegment(c, log[i], p.batch);
    if i > 0 {
      BasesIncrease(c, log, next, 0, i);
    }
    EndIsNextStart(c, log, next, i);
    forall j | i < j < |log| ensures OffsetAt(log, p) < log[j].base {
      StartsIncrease(c, log, next, i + 1, j);
    }
    StartsIncrease(c, log, next, i + 1, |log|);
  }

  lemma EndIsNextStart(c: Config, log: Log, next: int, i: nat)
    requires ValidLog(c, log, next) && i < |log|
    ensures End(log[i]) == StartOf(log, next, i + 1)
  {
  }

  lemma StartsIncrease(c: Config, log: Log, next: int, i: nat, j: nat)
    requires ValidConfig(c) && ValidLog(c, log, next) && i <= j <= |log|
    ensures StartOf(log, next, i) <= StartOf(log, next, j)
  {
    hide ValidLog;
    if i < j {
      BasesIncrease(c, log, next, i, j);
    }
  }

  /** A batch that holds the first offset of batch `k` is batch `k`. */
  lemma SameBatch(c: Config, v: SegmentView, k: nat, m: nat)
    requires ValidSegment(c, v) && k < |v.batches| && m < |v.batches|
    requires BaseOf(v.batches[m]) <= v.base + Count(v.batches[..k]) < EndOf(v.batches[m])
    ensures m == k
  {
    hide ValidSegment, Count, BaseOf, CountOf, EndOf;
    SegmentFacts(c, v);
    WithinSegment(c, v, m);
    EndOfBatch(v.base, v.batches, m);
    if m < k {
      CountNotLess(v.batches, m + 1, k);
    } else if k < m {
      CountStrict(c.crc, v.batches, k, m);
    }
  }

  lemma CountNotLess(bs: seq<Frame>, i: nat, j: nat)
    requires i <= j <= |bs|
    ensures Count(bs[..i]) <= Count(bs[..j])
  {
    TakeMonotone(bs, i, j);
  }

  lemma HeadOfFlat(bs: seq<Frame>, m: nat, n: nat)
    requires m < n <= |bs|
    ensures |Flat(bs[m..n])| >= 12 && BaseOf(Flat(bs[m..n])) == BaseOf(bs[m])
  {
    hide Flat;
    assert bs[m..n] == bs[m..m + 1] + bs[m + 1..n];
    FlatConcat(bs[m..m + 1], bs[m + 1..n]);
    FlatOne(bs, m);
    assert (bs[m] + Flat(bs[m + 1..n]))[0..8] == bs[m][0..8];
  }

  /** Different batches begin at different offsets. */
  lemma OffsetsDiffer(c: Config, log: Log, next: int, p: Place, q: Place)
    requires ValidConfig(c) && ValidLog(c, log, next) && InLog(log, p) && InLog(log, q) && p != q
    ensures OffsetAt(log, p) != OffsetAt(log, q)
  {
    hide ValidLog, ValidSegment, Count;
    PlaceInLog(c, log, next, p);
    PlaceInLog(c, log, next, q);
    if OffsetAt(log, p) == OffsetAt(log, q) {
      SegmentOfIsUnique(log, OffsetAt(log, p), p.segment);
      SegmentOfIsUnique(log, OffsetAt(log, p), q.segment);
      SegmentIsValid(c, log, next, p.segment);
      var v := log[p.segment];
      SegmentFacts(c, v);
      if p.batch < q.batch {
        CountStrict(c.crc, v.batches, p.batch, q.batch);
      } else {
        CountStrict(c.crc, v.batches, q.batch, p.batch);
      }
    }
  }

  /** A read by time goes wrong whenever it should start at the first batch of a segment. */
  lemma FirstOfSegmentIsMissed(c: Config, log: Log, next: int, t: int, maxBytes: int)
    requires ValidConfig(c) && ValidLog(c, log, next)
    requires FirstPlace(log, t, 0).Some? && FirstPlace(log, t, 0).value.batch == 0
    ensures ReadByTime(c, log, t, maxBytes) != PromisedByTime(log, next, t, maxBytes)
  {
    hide ValidLog, ReadByTime, PromisedByTime, Findable;
    FirstIsNotFound(c, log[FirstPlace(log, t, 0).value.segment], t);
    ReadByTimeIff(c, log, next, t, maxBytes);
  }

  /** The one batch of a partition is not found by its own timestamp. */
  lemma OnlyBatchIsMissed(c: Config, b: Frame, maxBytes: int)
    requires ValidConfig(c)
    ensures var log, t := Appended(c, [Fresh(0)], 0, b), MaxTimestampOf(b);
      ReadByTime(c, log, t, maxBytes).None? && PromisedByTime(log, CountOf(b), t, maxBytes).Some?
  {
    hide Flat, Count, ReadLog, FullScan, Size, End, Stamp, MaxTimestampOf, TimeLookup, FoundPlace, BaseOf, CountOf;
    var log, t := Appended(c, [Fresh(0)], 0, b), MaxTimestampOf(b);
    StampKeepsTime(b, 0);
    assert log[0].batches == [Stamp(b, 0)];
    assert |log| == 1 || (|log| == 2 && |log[1].batches| == 0);
    NothingFound(c, log, t, 0);
    hide Appended;
    assert FirstPlace(log, t, 0) == Some(Place(0, 0));
  }

  lemma {:induction false} NothingFound(c: Config, log: Log, t: int, i: nat)
    requires ValidConfig(c) && i <= |log| && forall k | i <= k < |log| :: |log[k].batches| <= 1
    ensures FoundPlace(c, log, t, i).None?
    decreases |log| - i
  {
    hide TimesOf, SampledIn;
    if i < |log| {
      NoTimesAtFirst(c, log[i]);
      NothingFound(c, log, t, i + 1);
    }
  }

  lemma StampKeepsTime(b: Frame, offset: int64)
    ensures MaxTimestampOf(Stamp(b, offset)) == MaxTimestampOf(b)
  {
    StampFields(b, offset);
  }

  lemma NoTimesAtFirst(c: Config, v: SegmentView)
    requires ValidConfig(c) && |v.batches| <= 1
    ensures TimesOf(c, v) == []
  {
    hide IndexFits, Flat, BaseOf, MaxTimestampOf;
    if |v.batches| == 1 {
      assert v.batches[..0] == [];
      assert SamplesOf(c.indexSampleBytes, v.base, []) == Samples([], [], 0);
    }
  }
}
