/** Every step of a partition node, crashes included, keeps its log equal to the crash-free one. */
module CrashSafety {
  import opened Bytes
  import opened Batch
  import opened Framing
  import opened Scans
  import opened LogModel
  import opened LogReads
  import opened LogTruncation
  import opened PartitionModel
  import opened Reopening

  // --- Durability ------------------------------------------------------------------------------

  lemma SyncedIsDurable(v: SegmentView, offset: int)
    requires v.synced == Size(v)
    ensures DurableSegment(v, offset)
  {
    forall m | 0 <= m <= |v.batches| ensures |Flat(v.batches[..m])| <= v.synced {
      TakeMonotone(v.batches, m, |v.batches|);
      assert v.batches[..|v.batches|] == v.batches;
    }
  }

  lemma GrownDurable(v: SegmentView, b: Frame, next: int64, offset: int)
    requires DurableSegment(v, offset) && offset <= next == End(v) && |b| >= HEADER && CountOf(b) >= 1
    ensures DurableSegment(Grown(v, b, next), offset)
  {
    hide Stamp, CountOf, Count, Flat, DurableSegment;
    StampFields(b, next);
    SnocDurable(v, Stamp(b, next), offset);
  }

  lemma SnocDurable(v: SegmentView, s: Frame, offset: int)
    requires DurableSegment(v, offset) && offset <= End(v) && CountOf(s) >= 1
    ensures DurableSegment(v.(batches := v.batches + [s]), offset)
  {
    hide CountOf, Count, Flat;
    var bs := v.batches + [s];
    FlatSnoc(v.batches, s);
    assert bs[..|bs|] == bs;
    forall m | 0 <= m <= |bs| && v.base + Count(bs[..m]) <= offset ensures |Flat(bs[..m])| <= v.synced {
      if m <= |v.batches| {
        assert bs[..m] == v.batches[..m];
      }
    }
  }

  lemma AppendDurable(c: Config, log: Log, next: int64, b: Frame, offset: int)
    requires ValidLog(c, log, next) && Durable(log, offset) && offset <= next && CountOf(b) >= 1
    ensures Durable(Appended(c, log, next, b), offset)
  {
    hide ValidSegment, Filled, Size, DurableSegment, CountOf;
    var v := Grown(LastOf(log), b, next);
    GrownDurable(LastOf(log), b, next, offset);
    SealedIsDurable(v, offset);
    FreshIsDurable(End(v), offset);
  }

  lemma SealedIsDurable(v: SegmentView, offset: int)
    ensures DurableSegment(Sealed(v), offset)
  {
    SyncedIsDurable(Sealed(v), offset);
  }

  lemma FreshIsDurable(base: int, offset: int)
    ensures DurableSegment(Fresh(base), offset)
  {
  }

  lemma KeptDurable(v: SegmentView, k: nat, offset: int)
    requires k <= |v.batches| && DurableSegment(v, offset)
    ensures DurableSegment(Kept(v, k), offset)
  {
    hide Count, Flat;
    var bs := v.batches[..k];
    forall m | 0 <= m <= k && v.base + Count(bs[..m]) <= offset
      ensures |Flat(bs[..m])| <= Kept(v, k).synced
    {
      assert bs[..m] == v.batches[..m];
      TakeMonotone(v.batches, m, k);
    }
  }

  lemma CutDurable(log: Log, lo: nat, k: nat, offset: int)
    requires lo < |log| && k <= |log[lo].batches| && Durable(log, offset)
    ensures Durable(log[..lo] + [Kept(log[lo], k)], offset)
  {
    hide DurableSegment, Kept;
    KeptDurable(log[lo], k, offset);
  }

  // --- Apply --------------------------------------------------------------------------------------

  lemma ExpectedCountGrows(cmds: seq<Command>, i: nat, j: nat)
    requires i <= j <= |cmds|
    ensures Count(Expected(cmds[..i])) <= Count(Expected(cmds[..j]))
  {
    hide Expected, Count;
    ExpectedGrows(cmds, i, j);
    var bs := Expected(cmds[..j]);
    TakeMonotone(bs, |Expected(cmds[..i])|, |bs|);
    assert bs[..|bs|] == bs;
  }

  /** There is room for the next batch in the 64-bit offset space. */
  lemma RoomForNext(c: Config, cmds: seq<Command>, n: Node)
    requires Sound(c, cmds, n) && GoodCommands(c, cmds) && n.applied < |cmds| && cmds[n.applied].AppendBatch?
    ensures 0 <= n.next && n.next + CountOf(cmds[n.applied].batch) < TWO_63 && WrapInt64(n.next) == n.next
    ensures WellFormed(c.crc, cmds[n.applied].batch)
    ensures Expected(cmds[..n.applied + 1]) == Expected(cmds[..n.applied]) + [Stamp(cmds[n.applied].batch, n.next)]
  {
    hide Sound, Expected, CountOf, Count, WellFormed;
    var bs, b := Expected(cmds[..n.applied]), cmds[n.applied].batch;
    NextIsExpected(c, cmds, n);
    ExpectedCountGrows(cmds, n.applied, |cmds|);
    assert cmds[..|cmds|] == cmds;
    WrapIdentity(n.next);
    ExpectedStep(cmds, n.applied);
    StampFields(b, n.next);
    FlatSnoc(bs, Stamp(b, n.next));
    ExpectedCountGrows(cmds, n.applied + 1, |cmds|);
  }

  lemma HoldsSnoc(log: Log, log': Log, bs: seq<Frame>, b: Frame)
    requires Holds(log, bs) && |log'| > 0 && All(log') == All(log) + [b] && log'[0].base == log[0].base
    ensures Holds(log', bs + [b])
  {
    hide All, Count;
    var d: nat :| HoldsFrom(log, bs, d);
    assert (bs + [b])[d..] == bs[d..] + [b];
    assert (bs + [b])[..d] == bs[..d];
    assert HoldsFrom(log', bs + [b], d);
  }

  lemma ApplyKeepsInv(c: Config, cmds: seq<Command>, n: Node)
    requires ValidConfig(c) && GoodCommands(c, cmds) && Inv(c, cmds, n) && n.applied < |cmds|
    ensures Inv(c, cmds, ApplyNext(c, cmds, n))
  {
    hide ValidLog, Roomy, All, Expected, Count, WellFormed, Holds, Durable, Appended, Stamp, CountOf, GoodCommands;
    match cmds[n.applied]
    case AppendBatch(b) =>
      RoomForNext(c, cmds, n);
      RoomyIsAppendable(c, n.log, n.next);
      AppendRefines(c, n.log, n.next, b);
      HoldsSnoc(n.log, Appended(c, n.log, n.next, b), Expected(cmds[..n.applied]), Stamp(b, n.next));
      NextIsExpected(c, cmds, n);
      if n.sidecar.Some? {
        ExpectedCountGrows(cmds, n.sidecar.value.lastApplied, n.applied);
        AtLeastOneRecord(c.crc, b);
        AppendDurable(c, n.log, n.next, b, n.sidecar.value.latestOffset);
      }
    case RetentionConfig(_, _) =>
      ExpectedStep(cmds, n.applied);
  }

  /** The same in the middle of an append, except that the segment may be full. */
  lemma WriteKeepsSound(c: Config, cmds: seq<Command>, n: Node)
    requires ValidConfig(c) && GoodCommands(c, cmds) && Inv(c, cmds, n)
    requires n.applied < |cmds| && cmds[n.applied].AppendBatch?
    ensures Sound(c, cmds, AfterWrite(cmds, n)) && AfterWrite(cmds, n).log[0].base == n.log[0].base
    ensures n.sidecar.Some? ==> n.sidecar.value.latestOffset < AfterWrite(cmds, n).next
  {
    hide ValidLog, Roomy, All, Expected, Count, WellFormed, Holds, Durable, Written, Stamp, CountOf, GoodCommands;
    var b := cmds[n.applied].batch;
    RoomForNext(c, cmds, n);
    RoomyIsAppendable(c, n.log, n.next);
    WrittenRefines(c, n.log, n.next, b);
    HoldsSnoc(n.log, Written(n.log, n.next, b), Expected(cmds[..n.applied]), Stamp(b, n.next));
    NextIsExpected(c, cmds, n);
    AtLeastOneRecord(c.crc, b);
    if n.sidecar.Some? {
      ExpectedCountGrows(cmds, n.sidecar.value.lastApplied, n.applied);
      WrittenDurable(c, n.log, n.next, b, n.sidecar.value.latestOffset);
    }
  }

  lemma WrittenDurable(c: Config, log: Log, next: int64, b: Frame, offset: int)
    requires ValidLog(c, log, next) && Durable(log, offset) && offset <= next && CountOf(b) >= 1
    ensures Durable(Written(log, next, b), offset)
  {
    hide ValidSegment, Filled, Size, DurableSegment, CountOf;
    GrownDurable(LastOf(log), b, next, offset);
  }

  lemma AtLeastOneRecord(crc: Checksum, b: Frame)
    requires WellFormed(crc, b)
    ensures CountOf(b) >= 1
  {
  }

  // --- Sync, persist, retention ---------------------------------------------------------------------

  lemma SyncKeepsLog(c: Config, log: Log, next: int, offset: int)
    requires ValidLog(c, log, next)
    ensures ValidLog(c, SyncedLast(log), next) && SyncedLast(log)[0].base == log[0].base
    ensures Roomy(c, log) ==> Roomy(c, SyncedLast(log))
    ensures Trim(c, log) ==> Trim(c, SyncedLast(log))
    ensures All(SyncedLast(log)) == All(log)
    ensures Durable(SyncedLast(log), offset)
  {
    hide ValidLog, ValidSegment, Size, End, All, DurableSegment;
    var v := LastOf(log);
    var w := Synced(v);
    ActiveFacts(c, log, next);
    SyncedViewValid(c, v);
    ReplaceLast(c, log, next, w);
    AllLast(log);
    AllSnoc(log[..|log| - 1], w);
    SyncedIsDurable(w, offset);
    forall i | 0 <= i < |log| - 1 ensures DurableSegment(log[i], offset) {
      SealedSynced(c, log, next, i);
      SyncedIsDurable(log[i], offset);
    }
  }

  lemma SyncedViewValid(c: Config, v: SegmentView)
    requires ValidSegment(c, v)
    ensures var w := Synced(v);
      ValidSegment(c, w) && Size(w) == Size(v) && End(w) == End(v)
  {
  }

  lemma SealedSynced(c: Config, log: Log, next: int, i: nat)
    requires ValidLog(c, log, next) && i < |log| - 1
    ensures log[i].synced == Size(log[i])
  {
    assert Filled(c, log[i]);
  }

  lemma HoldsSame(log: Log, log': Log, bs: seq<Frame>)
    requires Holds(log, bs) && |log'| > 0 && All(log') == All(log) && log'[0].base == log[0].base
    ensures Holds(log', bs)
  {
    var d: nat :| HoldsFrom(log, bs, d);
    assert HoldsFrom(log', bs, d);
  }

  lemma SyncKeepsInv(c: Config, cmds: seq<Command>, n: Node)
    requires Inv(c, cmds, n)
    ensures Inv(c, cmds, Node(SyncedLast(n.log), n.next, n.sidecar, n.applied))
  {
    hide ValidLog, Roomy, All, Expected, Count, Holds, Durable, SyncedLast;
    SyncKeepsLog(c, n.log, n.next, if n.sidecar.Some? then n.sidecar.value.latestOffset else 0);
    HoldsSame(n.log, SyncedLast(n.log), Expected(cmds[..n.applied]));
  }

  lemma PersistKeepsInv(c: Config, cmds: seq<Command>, n: Node)
    requires Inv(c, cmds, n)
    ensures Inv(c, cmds, Node(SyncedLast(n.log), n.next, Some(Sidecar(n.applied, n.next)), n.applied))
  {
    hide ValidLog, Roomy, All, Expected, Holds, Durable, SyncedLast;
    SyncKeepsLog(c, n.log, n.next, n.next);
    HoldsSame(n.log, SyncedLast(n.log), Expected(cmds[..n.applied]));
    NextIsExpected(c, cmds, n);
    LogIsConsecutive(c, n.log, n.next);
  }

  lemma RetainKeepsInv(c: Config, cmds: seq<Command>, n: Node, k: nat)
    requires Inv(c, cmds, n) && Enabled(c, cmds, n, Retain(k))
    ensures Inv(c, cmds, Node(n.log[k..], n.next, n.sidecar, n.applied))
  {
    hide ValidLog, All, Expected, Count, DurableSegment, Before;
    var bs := Expected(cmds[..n.applied]);
    var d: nat :| HoldsFrom(n.log, bs, d);
    RetainRefines(c, n.log, n.next, k);
    HoldsDropped(n.log, k, bs, d);
  }

  lemma HoldsDropped(log: Log, k: nat, bs: seq<Frame>, d: nat)
    requires HoldsFrom(log, bs, d) && k < |log|
    requires Before(log, k) <= |All(log)| && All(log[k..]) == All(log)[Before(log, k)..]
    requires log[k].base == log[0].base + Count(All(log)[..Before(log, k)])
    ensures Holds(log[k..], bs)
  {
    hide All, Count, Before;
    var e := d + Before(log, k);
    assert bs[..e] == bs[..d] + bs[d..][..Before(log, k)];
    FlatConcat(bs[..d], bs[d..][..Before(log, k)]);
    assert bs[d..][Before(log, k)..] == bs[e..];
    assert HoldsFrom(log[k..], bs, e);
  }

  // --- Crash and reopening ------------------------------------------------------------------------------

  /** Everything up to a durable batch boundary survives any crash. */
  lemma DurableSurvives(c: Config, log: Log, next: int, offset: int, k: nat, keep: nat)
    requires ValidLog(c, log, next) && Durable(log, offset) && IsBoundaryAt(log, offset, k)
    requires LastOf(log).synced <= keep
    ensures k <= Before(log, |log| - 1) + Whole(LastOf(log).batches, keep)
  {
    hide ValidLog, All, Count, Flat, Before, Whole;
    var lo := |log| - 1;
    var v := LastOf(log);
    var m := Whole(v.batches, keep);
    WholeBounds(v.batches, keep);
    SegmentSpan(c, log, next, lo);
    assert DurableSegment(v, offset);
    if Before(log, lo) + m < k && m < |v.batches| {
      OffsetInFlat(c, log, next, lo, m + 1);
      TakeMonotone(All(log), Before(log, lo) + m + 1, k);
    }
  }

  /** The point the sidecar names is a batch boundary of the log. */
  lemma SidecarIsBoundary(c: Config, cmds: seq<Command>, n: Node) returns (k: nat, d: nat)
    requires GoodCommands(c, cmds) && Sound(c, cmds, n) && Reaches(n)
    ensures var sc := n.sidecar.value;
      && IsBoundaryAt(n.log, sc.latestOffset, k)
      && HoldsFrom(n.log, Expected(cmds[..n.applied]), d)
      && d <= |Expected(cmds[..sc.lastApplied])|
      && All(n.log)[..k] == Expected(cmds[..sc.lastApplied])[d..]
      && n.log[0].base == Count(Expected(cmds[..sc.lastApplied])[..d])
  {
    hide ValidLog, All, Expected, Count, Durable, GoodCommands;
    var sc := n.sidecar.value;
    var bs, es := Expected(cmds[..n.applied]), Expected(cmds[..sc.lastApplied]);
    d :| HoldsFrom(n.log, bs, d);
    ExpectedGrows(cmds, sc.lastApplied, n.applied);
    ExpectedWellFormed(c, cmds, n.applied);
    DroppedBeforePoint(c.crc, n.log, bs, d, |es|);
    k := |es| - d;
    assert bs[d..][..k] == es[d..];
    assert bs[..d] == es[..d];
    SplitAt(es, d);
  }

  lemma DroppedBeforePoint(crc: Checksum, log: Log, bs: seq<Frame>, d: nat, p: nat)
    requires AllWellFormed(crc, bs) && HoldsFrom(log, bs, d) && p <= |bs| && log[0].base <= Count(bs[..p])
    ensures d <= p
  {
    hide All, Count, WellFormed;
    if p < d {
      CountStrict(crc, bs, p, d);
    }
  }

  lemma {:induction false} ExpectedWellFormed(c: Config, cmds: seq<Command>, k: nat)
    requires GoodCommands(c, cmds) && k <= |cmds|
    ensures AllWellFormed(c.crc, Expected(cmds[..k]))
  {
    hide Expected, Count, WellFormed, AllWellFormed, Stamp, WrapInt64;
    if k == 0 {
      NothingExpected(cmds);
      NoneIllFormed(c.crc);
    } else {
      ExpectedWellFormed(c, cmds, k - 1);
      ExpectedStep(cmds, k - 1);
      if cmds[k - 1].AppendBatch? {
        var offset := WrapInt64(Count(Expected(cmds[..k - 1])));
        StampWellFormed(c.crc, cmds[k - 1].batch, offset);
        WellFormedSnoc(c.crc, Expected(cmds[..k - 1]), Stamp(cmds[k - 1].batch, offset));
      }
    }
  }

  lemma NoneIllFormed(crc: Checksum)
    ensures AllWellFormed(crc, [])
  {
  }

  /**
   Reopening with a sidecar leaves exactly the commands up to the index it returns, also when the crash
   came in the middle of an append, so long as retention has not passed the sidecar's offset.
   */
  lemma OpenKeepsInv(c: Config, cmds: seq<Command>, n: Node, keep: nat)
    requires ValidConfig(c) && GoodCommands(c, cmds) && Sound(c, cmds, n) && Reaches(n) && LastOf(n.log).synced <= keep
    requires Roomy(c, n.log) || n.sidecar.value.latestOffset < n.next
    ensures Inv(c, cmds, Opened(n, keep))
    ensures Opened(n, keep).applied == n.sidecar.value.lastApplied
    ensures Opened(n, keep).next == n.sidecar.value.latestOffset
  {
    hide ValidLog, Roomy, All, Expected, Count, DurableSegment, GoodCommands, Recovered, Truncated, Before, Whole,
      WellFormed;
    var sc := n.sidecar.value;
    var k, d := SidecarIsBoundary(c, cmds, n);
    var log := Recovered(n.log, keep);
    var r := RecoverKeepsPrefix(c, n.log, n.next, keep);
    DurableSurvives(c, n.log, n.next, sc.latestOffset, k, keep);
    assert k <= r;
    RecoveredDurable(n.log, keep, sc.latestOffset);
    var next := n.log[0].base + Count(All(n.log)[..r]);
    ActiveFacts(c, log, next);
    assert All(log)[..k] == All(n.log)[..k];
    assert IsBoundaryAt(log, sc.latestOffset, k);
    RoomOrAhead(c, n.log, n.next, r, sc.latestOffset);
    CutBack(c, log, next, sc.latestOffset, k);
    PointHolds(c, cmds, n, Opened(n, keep), k, d);
  }

  /** Recovery leaves room, or it lost nothing and is ahead of the sidecar as before. */
  lemma RoomOrAhead(c: Config, log: Log, next: int, r: nat, offset: int)
    requires ValidLog(c, log, next) && r <= |All(log)| && (Roomy(c, log) || offset < next)
    ensures r < |All(log)| || Roomy(c, log) || offset < log[0].base + Count(All(log)[..r])
  {
    hide ValidLog, Roomy, All, Count;
    LogIsConsecutive(c, log, next);
    if r == |All(log)| {
      assert All(log)[..r] == All(log);
    }
  }

  /** Opening cuts a recovered log back to the sidecar, or leaves it when it already ends there. */
  lemma CutBack(c: Config, log: Log, next: int, offset: int, k: nat)
    requires ValidConfig(c) && ValidLog(c, log, next) && IsBoundaryAt(log, offset, k) && Durable(log, offset)
    requires Trim(c, log) && (Roomy(c, log) || offset < next)
    ensures offset <= next
    ensures var r := if next > offset then Truncated(log, offset) else log;
      && ValidLog(c, r, offset) && Roomy(c, r)
      && All(r) == All(log)[..k]
      && r[0].base == log[0].base
      && Durable(r, offset)
  {
    hide ValidLog, Roomy, All, Count, DurableSegment, WellFormed, Truncated;
    LogIsConsecutive(c, log, next);
    TakeMonotone(All(log), k, |All(log)|);
    assert All(log)[..|All(log)|] == All(log);
    if next > offset {
      TruncateKeepsPrefix(c, log, next, k);
      TruncateMakesRoom(c, log, next, k);
      TruncatedDurable(log, offset, offset);
    } else if k < |All(log)| {
      CountStrict(c.crc, All(log), k, |All(log)|);
    }
  }

  lemma TruncatedDurable(log: Log, offset: int, point: int)
    requires |log| > 0 && Durable(log, point)
    ensures Durable(Truncated(log, offset), point)
  {
    hide Durable, Kept, CutIndex;
    var lo := SegmentOf(log, offset);
    CutDurable(log, lo, CutIndex(log[lo], offset), point);
  }

  lemma RecoveredDurable(log: Log, keep: nat, point: int)
    requires |log| > 0 && Durable(log, point)
    ensures Durable(Recovered(log, keep), point)
  {
    hide Durable, Kept, Whole;
    CutDurable(log, |log| - 1, Whole(LastOf(log).batches, keep), point);
  }

  lemma PointHolds(c: Config, cmds: seq<Command>, n: Node, m: Node, k: nat, d: nat)
    requires Sound(c, cmds, n) && n.sidecar.Some? && m.sidecar == n.sidecar
    requires m.applied == n.sidecar.value.lastApplied && m.next == n.sidecar.value.latestOffset
    requires ValidLog(c, m.log, m.next) && Roomy(c, m.log) && Durable(m.log, m.next)
    requires k <= |All(n.log)| && All(m.log) == All(n.log)[..k] && m.log[0].base == n.log[0].base
    requires var es := Expected(cmds[..m.applied]);
      d <= |es| && All(n.log)[..k] == es[d..] && n.log[0].base == Count(es[..d])
    ensures Inv(c, cmds, m)
  {
    hide ValidLog, Roomy, All, Count, Expected, Durable;
    assert HoldsFrom(m.log, Expected(cmds[..m.applied]), d);
  }

  /**
   When retention has passed the sidecar's offset there is nothing to cut back to: the cut leaves the
   log as it is but moves its end. So opening goes right exactly when retention has not got that far.
   */
  lemma OpenIffReached(c: Config, cmds: seq<Command>, n: Node, keep: nat)
    requires ValidConfig(c) && GoodCommands(c, cmds) && Sound(c, cmds, n)
    requires n.sidecar.Some? && LastOf(n.log).synced <= keep
    requires Roomy(c, n.log) || n.sidecar.value.latestOffset < n.next
    ensures Inv(c, cmds, Opened(n, keep)) <==> n.log[0].base <= n.sidecar.value.latestOffset
  {
    hide Sound, ValidLog, Roomy, GoodCommands, Recovered, Truncated, Count, All;
    if n.log[0].base <= n.sidecar.value.latestOffset {
      OpenKeepsInv(c, cmds, n, keep);
    }
    var m := Opened(n, keep);
    FirstBaseStays(n, keep);
    if Inv(c, cmds, m) {
      SoundFacts(c, cmds, m);
      LogIsConsecutive(c, m.log, m.next);
    }
  }

  lemma SoundFacts(c: Config, cmds: seq<Command>, n: Node)
    requires Sound(c, cmds, n)
    ensures ValidLog(c, n.log, n.next) && n.applied <= |cmds|
  {
  }

  /** Opening never touches the first offset. */
  lemma FirstBaseStays(n: Node, keep: nat)
    requires |n.log| > 0 && n.sidecar.Some?
    ensures |Opened(n, keep).log| > 0 && Opened(n, keep).log[0].base == n.log[0].base
    ensures Opened(n, keep).next <= n.sidecar.value.latestOffset
  {
    hide Whole, CutIndex, SegmentOf, Flat;
  }

  // --- Whole runs -----------------------------------------------------------------------------------------

  /**
   `states` is what a node goes through under the events `es`. It only crashes while it has a sidecar
   whose offset retention has not passed; it may crash again while it opens.
   */
  ghost predicate IsRun(c: Config, cmds: seq<Command>, states: seq<Node>, es: seq<Event>) {
    && |states| == |es| + 1
    && forall i | 0 <= i < |es| :: IsStep(c, cmds, states[i], es[i], states[i + 1])
  }

  predicate IsStep(c: Config, cmds: seq<Command>, n: Node, e: Event, m: Node) {
    && |n.log| > 0 && Enabled(c, cmds, n, e)
    && m == Step(c, cmds, n, e)
    && (e.CrashOpen? || e.CrashInAppend? ==> Reaches(n))
  }

  lemma StepKeepsInv(c: Config, cmds: seq<Command>, n: Node, e: Event, m: Node)
    requires ValidConfig(c) && GoodCommands(c, cmds) && Inv(c, cmds, n) && IsStep(c, cmds, n, e, m)
    ensures Inv(c, cmds, m)
  {
    hide Sound, Roomy, ApplyNext, AfterWrite, Reopened, Survives, SyncedLast, GoodCommands;
    match e
    case Apply => ApplyKeepsInv(c, cmds, n);
    case SyncLog => SyncKeepsInv(c, cmds, n);
    case Persist => PersistKeepsInv(c, cmds, n);
    case Retain(k) => RetainKeepsInv(c, cmds, n, k);
    case CrashOpen(keep, again) => ReopenKeepsInv(c, cmds, n, keep, again);
    case CrashInAppend(keep, again) =>
      WriteKeepsSound(c, cmds, n);
      WrittenSynced(cmds, n);
      ReopenKeepsInv(c, cmds, AfterWrite(cmds, n), keep, again);
  }

  /** The point the sidecar names, as a place in the segments. */
  lemma SidecarCutsAt(c: Config, cmds: seq<Command>, n: Node) returns (lo: nat, m: nat)
    requires ValidConfig(c) && GoodCommands(c, cmds) && Sound(c, cmds, n) && Reaches(n)
    ensures CutsAt(c, n.log, n.sidecar.value.latestOffset, lo, m)
  {
    hide ValidLog, ValidSegment, Trim, All, Expected, Count, Flat, GoodCommands, Before, SegmentOf;
    var offset := n.sidecar.value.latestOffset;
    var k, d := SidecarIsBoundary(c, cmds, n);
    lo := SegmentOf(n.log, offset);
    LocateBoundary(c, n.log, n.next, offset, k);
    m := k - Before(n.log, lo);
    SegmentIsValid(c, n.log, n.next, lo);
    assert DurableSegment(n.log[lo], offset);
  }

  /** The same when opening is itself interrupted by crashes, any number of times. */
  lemma ReopenKeepsInv(c: Config, cmds: seq<Command>, n: Node, keep: nat, again: seq<Interruption>)
    requires ValidConfig(c) && GoodCommands(c, cmds) && Sound(c, cmds, n) && Reaches(n) && Survives(n, keep, again)
    requires Roomy(c, n.log) || n.sidecar.value.latestOffset < n.next
    ensures Reopened(n, keep, again) == Opened(n, keep) && Inv(c, cmds, Reopened(n, keep, again))
  {
    hide Sound, Roomy, GoodCommands, CutsAt, Opened, Reopened;
    var lo, m := SidecarCutsAt(c, cmds, n);
    ReopenedIsOpened(c, n, keep, again, lo, m);
    OpenKeepsInv(c, cmds, n, keep);
  }

  lemma WrittenSynced(cmds: seq<Command>, n: Node)
    requires |n.log| > 0 && n.applied < |cmds| && cmds[n.applied].AppendBatch?
    ensures LastOf(AfterWrite(cmds, n).log).synced == LastOf(n.log).synced
    ensures AfterWrite(cmds, n).sidecar == n.sidecar
  {
    hide Stamp, CountOf;
  }

  lemma {:induction false} RunKeepsInv(c: Config, cmds: seq<Command>, states: seq<Node>, es: seq<Event>, i: nat)
    requires ValidConfig(c) && GoodCommands(c, cmds) && IsRun(c, cmds, states, es)
    requires Inv(c, cmds, states[0]) && i < |states|
    ensures Inv(c, cmds, states[i])
  {
    hide Inv, IsStep, GoodCommands;
    if i > 0 {
      RunKeepsInv(c, cmds, states, es, i - 1);
      assert IsStep(c, cmds, states[i - 1], es[i - 1], states[i - 1 + 1]);
      StepKeepsInv(c, cmds, states[i - 1], es[i - 1], states[i]);
    }
  }

  /**
   In every run, whatever bytes its crashes lose: a node's log is that of a node that applied the
   same commands and never crashed, less what retention removed, and a command gets the same base
   offset every time it is applied.
   */
  lemma CrashesAreInvisible(c: Config, cmds: seq<Command>, states: seq<Node>, es: seq<Event>, i: nat, j: nat)
    requires ValidConfig(c) && GoodCommands(c, cmds) && IsRun(c, cmds, states, es)
    requires Inv(c, cmds, states[0]) && i < |states| && j < |states|
    ensures states[i].applied <= |cmds|
    ensures Holds(states[i].log, Expected(cmds[..states[i].applied]))
    ensures states[i].next == Count(Expected(cmds[..states[i].applied]))
    ensures states[i].applied == states[j].applied ==> states[i].next == states[j].next
  {
    hide ValidLog, GoodCommands, Expected, Count, Holds, IsStep;
    RunKeepsInv(c, cmds, states, es, i);
    NextIsExpected(c, cmds, states[i]);
    RunKeepsInv(c, cmds, states, es, j);
    NextIsExpected(c, cmds, states[j]);
  }

  // --- Retention past the sidecar --------------------------------------------------------------

  /** With a limit of one byte every batch fills its segment. */
  lemma RollsAtOnce(c: Config, log: Log, next: int64, b: Frame)
    requires c.segmentMaxBytes == 1 && |log| > 0
    ensures var v := Grown(LastOf(log), b, next);
      Appended(c, log, next, b) == log[..|log| - 1] + [Sealed(v), Fresh(End(v))]
  {
    hide Stamp, End, Sealed;
    FlatNonEmpty(Grown(LastOf(log), b, next).batches);
  }

  lemma OneBatchEnd(v: SegmentView, b: Frame, next: int64)
    requires v.batches == []
    ensures End(Grown(v, b, next)) == v.base + CountOf(b)
  {
    StampFields(b, next);
    hide Stamp, CountOf;
    var s: Frame := Stamp(b, next);
    FlatSnoc([], s);
    assert [] + [s] == [s];
  }

  /** One command of the failing run: a segment with the batch, and an empty one behind it. */
  lemma ApplyTiny(c: Config, cmds: seq<Command>, n: Node)
    requires c.segmentMaxBytes == 1 && |n.log| > 0 && LastOf(n.log).batches == [] && 0 <= n.next < TWO_31
    requires n.applied < |cmds| && cmds[n.applied] == AppendBatch(TinyBatch(c.crc, 0))
    ensures var m := ApplyNext(c, cmds, n);
      && m.next == n.next + 1 && m.applied == n.applied + 1 && m.sidecar == n.sidecar && |m.log| == |n.log| + 1
      && LastOf(m.log) == Fresh(LastOf(n.log).base + 1)
      && m.log[|n.log| - 1].base == LastOf(n.log).base
      && |m.log[|n.log| - 1].batches| == 1 && BaseOf(m.log[|n.log| - 1].batches[0]) == n.next
  {
    hide TinyBatch, Stamp, CountOf, BaseOf, WellFormed, Appended, End;
    var b := TinyBatch(c.crc, 0);
    TinyBatchFacts(c.crc, 0);
    WrapIdentity(n.next);
    StampFields(b, n.next);
    RollsAtOnce(c, n.log, n.next, b);
    OneBatchEnd(LastOf(n.log), b, n.next);
  }

  lemma NextIsCounted(cmds: seq<Command>, k: nat)
    requires k < |cmds| && cmds[k].AppendBatch?
    ensures Count(Expected(cmds[..k + 1])) == Count(Expected(cmds[..k])) + CountOf(cmds[k].batch)
  {
    hide Stamp, CountOf, Expected, Count, WrapInt64, Flat;
    var before, b := Expected(cmds[..k]), cmds[k].batch;
    ExpectedStep(cmds, k);
    StampFields(b, WrapInt64(Count(before)));
    FlatSnoc(before, Stamp(b, WrapInt64(Count(before))));
  }

  lemma TinyCommandsGood(c: Config, cmds: seq<Command>)
    requires |cmds| == 2 && cmds[0] == cmds[1] == AppendBatch(TinyBatch(c.crc, 0))
    ensures GoodCommands(c, cmds)
  {
    hide TinyBatch, Stamp, CountOf, WellFormed, Expected, Count, WrapInt64, Flat;
    TinyBatchFacts(c.crc, 0);
    NothingExpected(cmds);
    NextIsCounted(cmds, 0);
    NextIsCounted(cmds, 1);
    assert cmds[..2] == cmds;
  }

  /** The next command stores offset one in a segment that begins at two. */
  predicate WritesOneIntoTwo(c: Config, cmds: seq<Command>, n: Node) {
    && |n.log| > 0 && n.applied < |cmds|
    && var m := ApplyNext(c, cmds, n);
       && |m.log| > 0 && m.log[0].base == 2
       && |m.log[0].batches| == 1 && BaseOf(m.log[0].batches[0]) == 1
  }

  /**
   A run that fails: between a sidecar at offset one and the next, retention deletes everything below
   offset two. Opening then moves the end of the log to one without cutting anything, and the command
   that is replayed writes offset one into the segment that begins at two.
   */
  lemma RetentionPassesSidecar(crc: Checksum)
    returns (c: Config, cmds: seq<Command>, states: seq<Node>, es: seq<Event>)
    ensures ValidConfig(c) && GoodCommands(c, cmds) && IsRun(c, cmds, states, es)
    ensures states[0] == Node([Fresh(0)], 0, None, 0)
    ensures var n := states[|es|];
      && Inv(c, cmds, n) && Enabled(c, cmds, n, CrashOpen(0, []))
      && n.sidecar == Some(Sidecar(1, 1)) && n.log[0].base == 2
      && !Inv(c, cmds, Opened(n, 0)) && WritesOneIntoTwo(c, cmds, Opened(n, 0))
  {
    hide Inv, Sound, GoodCommands, ApplyNext, TinyBatch, BaseOf, Opened;
    c := Config(1, 1, crc);
    cmds := [AppendBatch(TinyBatch(crc, 0)), AppendBatch(TinyBatch(crc, 0))];
    es := [Apply, Persist, Apply, Retain(2)];
    TinyCommandsGood(c, cmds);
    InitialInv(c, cmds);
    var n0 := Node([Fresh(0)], 0, None, 0);
    ApplyTiny(c, cmds, n0);
    var n1 := ApplyNext(c, cmds, n0);
    var n2 := Step(c, cmds, n1, Persist);
    SyncedFresh(n1.log);
    ApplyTiny(c, cmds, n2);
    var n3 := ApplyNext(c, cmds, n2);
    var n4 := Step(c, cmds, n3, Retain(2));
    assert n4.log == [Fresh(2)];
    states := [n0, n1, n2, n3, n4];
    RunKeepsInv(c, cmds, states, es, 4);
    InvIsSound(c, cmds, n4);
    OpenIffReached(c, cmds, n4, 0);
    OpenedEmpty(n4);
    ApplyTiny(c, cmds, Opened(n4, 0));
  }

  lemma InvIsSound(c: Config, cmds: seq<Command>, n: Node)
    requires Inv(c, cmds, n)
    ensures Sound(c, cmds, n) && Roomy(c, n.log)
  {
  }

  lemma SyncedFresh(log: Log)
    requires |log| == 2 && LastOf(log) == Fresh(1)
    ensures SyncedLast(log) == log
  {
    assert log == log[..1] + [Fresh(1)];
  }

  /** What opening makes of an empty log that begins past the sidecar. */
  lemma OpenedEmpty(n: Node)
    requires n.log == [Fresh(2)] && n.sidecar == Some(Sidecar(1, 1))
    ensures Opened(n, 0) == Node([Fresh(2)], 1, n.sidecar, 1)
  {
  }

  // --- Without a sidecar -------------------------------------------------------------------------------------

  /**
   A node that crashes before its first sidecar opens at index zero without cutting its log. That is
   what a node at index zero holds exactly when no batch survives: there is one segment, it begins at
   offset zero, and it is empty or its first batch is torn.
   */
  lemma OpenWithoutSidecar(c: Config, cmds: seq<Command>, n: Node, keep: nat)
    requires ValidConfig(c) && GoodCommands(c, cmds) && Sound(c, cmds, n) && n.sidecar.None?
    ensures Opened(n, keep).applied == 0
    ensures Inv(c, cmds, Opened(n, keep))
       <==> |n.log| == 1 && n.log[0].base == 0 && (|n.log[0].batches| == 0 || keep < |n.log[0].batches[0]|)
  {
    hide ValidLog, Roomy, All, Expected, GoodCommands, Recovered, Whole, Before, Count, End;
    var m := Opened(n, keep);
    NothingSurvives(c, n.log, n.next, keep);
    var r := RecoverKeepsPrefix(c, n.log, n.next, keep);
    ActiveFacts(c, m.log, n.log[0].base + Count(All(n.log)[..r]));
    NothingExpected(cmds);
    FirstNotNegative(c, n.log, n.next);
    LogIsConsecutive(c, m.log, m.next);
    if Inv(c, cmds, m) {
      NextIsExpected(c, cmds, m);
    }
    if m.next == 0 {
      NoRecordsNoBatches(c.crc, All(m.log));
      assert HoldsFrom(m.log, Expected(cmds[..0]), 0);
      EmptyHasRoom(c, m.log);
    }
  }

  /** The recovered log ends at offset zero exactly when nothing was ever kept. */
  lemma NothingSurvives(c: Config, log: Log, next: int, keep: nat)
    requires ValidConfig(c) && ValidLog(c, log, next)
    ensures End(LastOf(Recovered(log, keep))) == 0
       <==> |log| == 1 && log[0].base == 0 && (|log[0].batches| == 0 || keep < |log[0].batches[0]|)
  {
    hide ValidLog, ValidSegment, Whole, Flat, Count, WellFormed;
    var v := LastOf(log);
    var m := Whole(v.batches, keep);
    ActiveFacts(c, log, next);
    SegmentFacts(c, v);
    FirstNotNegative(c, log, next);
    if |log| > 1 {
      BasesIncrease(c, log, next, 0, |log| - 1);
    }
    if m > 0 {
      CountStrict(c.crc, v.batches, 0, m);
    }
    EmptyList(v.batches);
    FirstTorn(v.batches, keep);
  }

  lemma FirstTorn(bs: seq<Frame>, keep: nat)
    ensures Whole(bs, keep) == 0 <==> |bs| == 0 || keep < |bs[0]|
  {
    hide Whole;
    WholeBounds(bs, keep);
    if |bs| > 0 {
      TakeStep(bs, 0);
      EmptyList(bs);
      TakeMonotone(bs, 1, |bs|);
      if Whole(bs, keep) > 0 {
        TakeMonotone(bs, 1, Whole(bs, keep));
      }
    }
  }

  lemma EmptyHasRoom(c: Config, log: Log)
    requires ValidConfig(c) && |log| > 0 && Trim(c, log) && All(log) == []
    ensures Roomy(c, log)
  {
    hide Trim;
  }

  lemma NothingExpected(cmds: seq<Command>)
    ensures Expected(cmds[..0]) == [] && Count(Expected(cmds[..0])) == 0 && Count(Expected(cmds[..0])[..0]) == 0
  {
  }

  lemma FirstNotNegative(c: Config, log: Log, next: int)
    requires ValidLog(c, log, next)
    ensures log[0].base >= 0
  {
    assert ValidSegment(c, log[0]);
  }

  lemma NoRecordsNoBatches(crc: Checksum, bs: seq<Frame>)
    requires AllWellFormed(crc, bs) && Count(bs) == 0
    ensures bs == []
  {
  }

  /**
   The failing run: one command applied, a crash that loses nothing before the first sidecar, and the
   command applied again as the index zero asks for. The batch is then stored twice.
   */
  lemma FirstBatchStoredTwice(c: Config, b: Frame)
    requires ValidConfig(c) && WellFormed(c.crc, b)
    ensures var cmds := [AppendBatch(b)];
      var n1 := ApplyNext(c, cmds, Node([Fresh(0)], 0, None, 0));
      var n2 := Opened(n1, Size(LastOf(n1.log)));
      && n2.applied == 0
      && All(ApplyNext(c, cmds, n2).log) == [Stamp(b, 0), Stamp(b, CountOf(b))]
  {
    hide Stamp, CountOf, All, Size, ValidLog, WellFormed, Appended, Recovered;
    var log0 := [Fresh(0)];
    FreshLogValid(c);
    WrapIdentity(0);
    AppendRefines(c, log0, 0, b);
    var log1 := Appended(c, log0, 0, b);
    RecoverEverything(c, log1, CountOf(b));
    WrapIdentity(CountOf(b));
    AppendedFlat(c, Recovered(log1, Size(LastOf(log1))), CountOf(b), b);
    assert [] + [Stamp(b, 0)] + [Stamp(b, CountOf(b))] == [Stamp(b, 0), Stamp(b, CountOf(b))];
  }

  /** When every byte survives, recovery changes nothing that is stored. */
  lemma RecoverEverything(c: Config, log: Log, next: int)
    requires ValidConfig(c) && ValidLog(c, log, next)
    ensures var r := Recovered(log, Size(LastOf(log)));
      |r| > 0 && All(r) == All(log) && End(LastOf(r)) == next
  {
    hide All, Size, ValidLog, Recovered, Whole, Before, Count, Consecutive, AllWellFormed, End, StartOf;
    WholeAll(LastOf(log));
    var k := RecoverKeepsPrefix(c, log, next, Size(LastOf(log)));
    SegmentSpan(c, log, next, |log| - 1);
    assert All(log)[..k] == All(log);
    LogIsConsecutive(c, log, next);
    ActiveFacts(c, Recovered(log, Size(LastOf(log))), next);
  }

  lemma WholeAll(v: SegmentView)
    ensures Whole(v.batches, Size(v)) == |v.batches|
  {
  }
}
