/**
 The partition state machine across crashes, as a value. Raft delivers one sequence of commands;
 the node appends them, now and then persists how far it got in a sidecar file, and after a crash
 cuts its log back to the sidecar and asks for the rest again.
 */
module PartitionModel {
  import opened Bytes
  import opened Batch
  import opened Framing
  import opened LogModel
  import opened LogReads
  import opened LogTruncation

  datatype Command = AppendBatch(batch: Frame) | RetentionConfig(retentionMs: int, retentionBytes: int)

  datatype Sidecar = Sidecar(lastApplied: nat, latestOffset: int)

  /** Storage, the sidecar file, and how many commands storage holds. */
  datatype Node = Node(log: Log, next: int, sidecar: Option<Sidecar>, applied: nat)

  datatype Event =
    | Apply                 // the next command of an update
    | SyncLog               // the first half of persisting
    | Persist               // the sidecar replaces the previous one
    | Retain(segments: nat) // the oldest segments are deleted
    | CrashOpen(keep: nat, again: seq<Interruption>) // `keep` bytes of the active log survive, and the node opens again
    | CrashInAppend(keep: nat, again: seq<Interruption>) // the same, with the next batch written and not yet rolled

  /**
   A crash while the node opens: of the segments behind the one that holds the sidecar's offset, which
   are deleted in order, those from `from` on are still there, and `keep` bytes of the last file survive.
   */
  datatype Interruption = Interruption(from: nat, keep: nat)

  // --- What a node that never crashes holds -------------------------------------------------

  /** The stored batches of a command sequence, each stamped with the offset it was given. */
  function Expected(cmds: seq<Command>): (bs: seq<Frame>) {
    if |cmds| == 0 then []
    else
      var before := Expected(cmds[..|cmds| - 1]);
      match cmds[|cmds| - 1]
      case AppendBatch(b) => before + [Stamp(b, WrapInt64(Count(before)))]
      case RetentionConfig(_, _) => before
  }

  predicate GoodCommands(c: Config, cmds: seq<Command>) {
    && (forall i | 0 <= i < |cmds| && cmds[i].AppendBatch? :: WellFormed(c.crc, cmds[i].batch))
    && Count(Expected(cmds)) < TWO_63
  }

  lemma ExpectedStep(cmds: seq<Command>, k: nat)
    requires k < |cmds|
    ensures Expected(cmds[..k + 1])
         == match cmds[k]
            case AppendBatch(b) => Expected(cmds[..k]) + [Stamp(b, WrapInt64(Count(Expected(cmds[..k]))))]
            case RetentionConfig(_, _) => Expected(cmds[..k])
  {
    assert cmds[..k + 1][..k] == cmds[..k];
  }

  lemma {:induction false} ExpectedGrows(cmds: seq<Command>, i: nat, j: nat)
    requires i <= j <= |cmds|
    ensures |Expected(cmds[..i])| <= |Expected(cmds[..j])|
    ensures Expected(cmds[..i]) == Expected(cmds[..j])[..|Expected(cmds[..i])|]
    decreases j
  {
    if i < j {
      ExpectedGrows(cmds, i, j - 1);
      ExpectedStep(cmds, j - 1);
    }
  }

  // --- The steps ---------------------------------------------------------------------------------

  function ApplyNext(c: Config, cmds: seq<Command>, n: Node): Node
    requires n.applied < |cmds| && |n.log| > 0
  {
    match cmds[n.applied]
    case AppendBatch(b) =>
      Node(Appended(c, n.log, WrapInt64(n.next), b), n.next + CountOf(b), n.sidecar, n.applied + 1)
    case RetentionConfig(_, _) => Node(n.log, n.next, n.sidecar, n.applied + 1)
  }

  /**
   The next batch is written, and if it fills the segment no other one exists yet. Sealing does not
   change what a restart finds, but that all of the log then survives.
   */
  function AfterWrite(cmds: seq<Command>, n: Node): (r: Node)
    requires n.applied < |cmds| && cmds[n.applied].AppendBatch? && |n.log| > 0
    ensures |r.log| == |n.log|
  {
    var b := cmds[n.applied].batch;
    Node(Written(n.log, WrapInt64(n.next), b), n.next + CountOf(b), n.sidecar, n.applied + 1)
  }

  /** Opening: recover the log, then cut it back to the sidecar if it is ahead of it. */
  function Opened(n: Node, keep: nat): (r: Node)
    requires |n.log| > 0
    ensures |r.log| > 0
  {
    var log := Recovered(n.log, keep);
    var next := End(LastOf(log));
    match n.sidecar
    case None => Node(log, next, None, 0)
    case Some(sc) =>
      if next > sc.latestOffset
      then Node(Truncated(log, sc.latestOffset), sc.latestOffset, n.sidecar, sc.lastApplied)
      else Node(log, next, n.sidecar, sc.lastApplied)
  }

  /** What an interrupted opening leaves of a log. */
  function Interrupted(log: Log, keep: nat, offset: int, from: nat): (r: Log)
    requires |log| > 0
    ensures |r| > 0
  {
    var r := Recovered(log, keep);
    var lo := SegmentOf(r, offset);
    if End(LastOf(r)) > offset && lo < from <= |r| then r[..lo + 1] + r[from..] else r
  }

  /** The log and the surviving bytes after one interruption after the other. */
  function AfterInterruptions(log: Log, keep: nat, offset: int, again: seq<Interruption>): (r: (Log, nat))
    requires |log| > 0
    ensures |r.0| > 0
  {
    if |again| == 0 then (log, keep)
    else
      var n := |again| - 1;
      var (l, k) := AfterInterruptions(log, keep, offset, again[..n]);
      (Interrupted(l, k, offset, again[n].from), again[n].keep)
  }

  /** What was synced survives every interruption. */
  predicate Survivable(log: Log, keep: nat, offset: int, again: seq<Interruption>)
    requires |log| > 0
  {
    forall i | 0 <= i <= |again| ::
      var (l, k) := AfterInterruptions(log, keep, offset, again[..i]);
      LastOf(l).synced <= k
  }

  /** Opening at last, after the interruptions. Without a sidecar there is nothing to cut back to. */
  function Reopened(n: Node, keep: nat, again: seq<Interruption>): Node
    requires |n.log| > 0
  {
    if n.sidecar.None? then Opened(n, keep)
    else
      var (l, k) := AfterInterruptions(n.log, keep, n.sidecar.value.latestOffset, again);
      Opened(n.(log := l), k)
  }

  /** A crash keeps what was synced and loses any suffix of the rest. */
  predicate Survives(n: Node, keep: nat, again: seq<Interruption>)
    requires |n.log| > 0
  {
    && LastOf(n.log).synced <= keep <= Size(LastOf(n.log))
    && (n.sidecar.Some? ==> Survivable(n.log, keep, n.sidecar.value.latestOffset, again))
  }

  predicate Enabled(c: Config, cmds: seq<Command>, n: Node, e: Event) {
    match e
    case Apply => n.applied < |cmds|
    case SyncLog => true
    case Persist => true
    case Retain(k) => k < |n.log|
    case CrashOpen(keep, again) => |n.log| > 0 && Survives(n, keep, again)
    case CrashInAppend(keep, again) =>
      && |n.log| > 0 && n.applied < |cmds| && cmds[n.applied].AppendBatch?
      && Survives(AfterWrite(cmds, n), keep, again)
  }

  function Step(c: Config, cmds: seq<Command>, n: Node, e: Event): (r: Node)
    requires |n.log| > 0 && Enabled(c, cmds, n, e)
    ensures |r.log| > 0
  {
    match e
    case Apply => ApplyNext(c, cmds, n)
    case SyncLog => Node(SyncedLast(n.log), n.next, n.sidecar, n.applied)
    case Persist => Node(SyncedLast(n.log), n.next, Some(Sidecar(n.applied, n.next)), n.applied)
    case Retain(k) => Node(n.log[k..], n.next, n.sidecar, n.applied)
    case CrashOpen(keep, again) => Reopened(n, keep, again)
    case CrashInAppend(keep, again) => Reopened(AfterWrite(cmds, n), keep, again)
  }

  // --- The invariant -------------------------------------------------------------------------------

  /** Every batch of the segment that ends at or before `offset` is on disk. */
  predicate DurableSegment(v: SegmentView, offset: int) {
    forall m | 0 <= m <= |v.batches| ::
      v.base + Count(v.batches[..m]) <= offset ==> |Flat(v.batches[..m])| <= v.synced
  }

  predicate Durable(log: Log, offset: int) {
    forall i | 0 <= i < |log| :: DurableSegment(log[i], offset)
  }

  /** The log holds `bs` but for the first `d` batches, which retention removed. */
  predicate HoldsFrom(log: Log, bs: seq<Frame>, d: nat) {
    |log| > 0 && d <= |bs| && All(log) == bs[d..] && log[0].base == Count(bs[..d])
  }

  ghost predicate Holds(log: Log, bs: seq<Frame>) {
    exists d: nat :: HoldsFrom(log, bs, d)
  }

  /** The sidecar names a point of the command sequence that the log has reached and keeps durably. */
  predicate SidecarSound(cmds: seq<Command>, n: Node, sc: Sidecar) {
    && sc.lastApplied <= n.applied <= |cmds|
    && sc.latestOffset == Count(Expected(cmds[..sc.lastApplied]))
    && Durable(n.log, sc.latestOffset)
  }

  /** Retention has not passed the offset that the sidecar would cut the log back to. */
  predicate Reaches(n: Node) {
    n.sidecar.Some? && |n.log| > 0 && n.log[0].base <= n.sidecar.value.latestOffset
  }

  /** What holds at any moment, in the middle of an append too. */
  ghost predicate Sound(c: Config, cmds: seq<Command>, n: Node): (b: bool)
    ensures b ==> |n.log| > 0
  {
    && ValidLog(c, n.log, n.next) && Trim(c, n.log)
    && n.applied <= |cmds|
    && Holds(n.log, Expected(cmds[..n.applied]))
    && (n.sidecar.Some? ==> SidecarSound(cmds, n, n.sidecar.value))
  }

  /** What holds between operations: there is room for the next batch as well. */
  ghost predicate Inv(c: Config, cmds: seq<Command>, n: Node): (b: bool)
    ensures b ==> |n.log| > 0
  {
    Sound(c, cmds, n) && Roomy(c, n.log)
  }

  /** The offset given to the next batch is the one a crash-free node would give it. */
  lemma NextIsExpected(c: Config, cmds: seq<Command>, n: Node)
    requires Sound(c, cmds, n)
    ensures n.next == Count(Expected(cmds[..n.applied]))
  {
    hide ValidLog, All, Count, Expected;
    var bs := Expected(cmds[..n.applied]);
    var d: nat :| HoldsFrom(n.log, bs, d);
    LogIsConsecutive(c, n.log, n.next);
    SplitAt(bs, d);
  }

  lemma InitialInv(c: Config, cmds: seq<Command>)
    requires ValidConfig(c)
    ensures Inv(c, cmds, Node([Fresh(0)], 0, None, 0))
  {
    hide ValidLog, All, Roomy;
    FreshLogValid(c);
    assert cmds[..0] == [];
    assert HoldsFrom([Fresh(0)], [], 0);
  }
}
