/** The state machine that Raft drives for one partition: a storage and a 16-byte sidecar file. */
module PartitionFsm {
  import opened Bytes
  import opened Batch
  import opened Framing
  import opened LogModel
  import opened LogTruncation
  import opened PartitionModel
  import opened CrashSafety
  import opened Storages

  // --- The sidecar file ---------------------------------------------------------------------------

  function EncodeSidecar(index: uint64, latestOffset: int64): (b: Bytes)
    ensures |b| == 16
  {
    Put(index, 8) + PutI64(latestOffset)
  }

  /** The two numbers of a sidecar file, or nothing for a file of any other size. */
  function DecodeSidecar(b: Bytes): (r: Option<Sidecar>)
    ensures r.Some? <==> |b| == 16
  {
    if |b| != 16 then None else Some(Sidecar(GetU64(b, 0), GetI64(b, 8)))
  }

  lemma SidecarRoundTrip(index: uint64, latestOffset: int64)
    ensures DecodeSidecar(EncodeSidecar(index, latestOffset)) == Some(Sidecar(index, latestOffset))
    ensures GetU64(EncodeSidecar(index, latestOffset), 0) == index
    ensures GetI64(EncodeSidecar(index, latestOffset), 8) == latestOffset
  {
    Pow256Widths();
    GetPut(index, 8);
    GetPutI64(latestOffset);
    var b := EncodeSidecar(index, latestOffset);
    assert b[0..8] == Put(index, 8) && b[8..16] == PutI64(latestOffset);
  }

  function SidecarOf(file: Option<Bytes>): Option<Sidecar> {
    if file.None? then None else DecodeSidecar(file.value)
  }

  // --- Updates as values --------------------------------------------------------------------------

  /** A command as Raft delivers it: its place in the command sequence, counted from one. */
  datatype Entry = Entry(index: nat, command: Command)

  predicate Delivers(entries: seq<Entry>, cmds: seq<Command>, applied: nat) {
    && applied + |entries| <= |cmds|
    && forall i | 0 <= i < |entries| :: entries[i] == Entry(applied + i + 1, cmds[applied + i])
  }

  function ApplyMany(c: Config, cmds: seq<Command>, n: Node, k: nat): (r: Node)
    requires |n.log| > 0 && n.applied + k <= |cmds|
    ensures r.applied == n.applied + k && |r.log| > 0 && r.sidecar == n.sidecar
  {
    if k == 0 then n else ApplyNext(c, cmds, ApplyMany(c, cmds, n, k - 1))
  }

  /** What the proposer of command `k` is told: the base offset of its batch. */
  function ResultOf(cmds: seq<Command>, k: nat): int
    requires k < |cmds|
  {
    if cmds[k].AppendBatch? then Count(Expected(cmds[..k])) else 0
  }

  /** What is told is where the log has the batch: its first offset. Any other command is told zero. */
  ghost predicate TellsOffset(cmds: seq<Command>, k: nat, result: int)
    requires k < |cmds|
  {
    match cmds[k]
    case AppendBatch(b) =>
      var stored := Expected(cmds[..k + 1]);
      && |stored| > 0
      && BaseOf(stored[|stored| - 1]) == result == Count(stored[..|stored| - 1])
      && stored[|stored| - 1][8..] == b[8..]
    case RetentionConfig(_, _) => result == 0
  }

  lemma ResultIsOffset(c: Config, cmds: seq<Command>, k: nat)
    requires GoodCommands(c, cmds) && k < |cmds|
    ensures TellsOffset(cmds, k, ResultOf(cmds, k))
  {
    hide Count, Expected, Flat, WellFormed;
    ExpectedStep(cmds, k);
    if cmds[k].AppendBatch? {
      var before, b := Expected(cmds[..k]), cmds[k].batch;
      CountOfPrefix(c, cmds, k);
      WrapIdentity(Count(before));
      var s: Frame := Stamp(b, Count(before));
      StampFields(b, Count(before));
      assert Expected(cmds[..k + 1]) == before + [s] && (before + [s])[..|before|] == before;
      assert s[8..] == b[8..];
    }
  }

  lemma CountOfPrefix(c: Config, cmds: seq<Command>, k: nat)
    requires GoodCommands(c, cmds) && k <= |cmds|
    ensures 0 <= Count(Expected(cmds[..k])) < TWO_63
  {
    hide Expected, WellFormed, Flat;
    ExpectedGrows(cmds, k, |cmds|);
    assert cmds[..|cmds|] == cmds;
    var all := Expected(cmds);
    var m := |Expected(cmds[..k])|;
    assert all[..m] == Expected(cmds[..k]) && all[..|all|] == all;
    TakeMonotone(all, m, |all|);
  }

  // --- The retention policy -----------------------------------------------------------------------

  /** A retention time in milliseconds and a retention size in bytes. */
  datatype Policy = Policy(ms: int, bytes: int)

  /** The policy that the last of the commands to set one sets. */
  function LastPolicy(cmds: seq<Command>): Option<Policy> {
    if |cmds| == 0 then None
    else
      match cmds[|cmds| - 1]
      case RetentionConfig(ms, bytes) => Some(Policy(ms, bytes))
      case AppendBatch(_) => LastPolicy(cmds[..|cmds| - 1])
  }

  /** The policy in force after these commands when `policy` was in force before them. */
  function PolicyAfter(policy: Policy, cmds: seq<Command>): Policy {
    if LastPolicy(cmds).Some? then LastPolicy(cmds).value else policy
  }

  /** It is that of a command after which none sets a policy; there is none if no command sets one. */
  lemma {:induction false} LastPolicyIs(cmds: seq<Command>, i: nat)
    requires i <= |cmds| && forall j | i <= j < |cmds| :: cmds[j].AppendBatch?
    ensures i == 0 ==> LastPolicy(cmds) == None
    ensures i > 0 && cmds[i - 1].RetentionConfig? ==>
      LastPolicy(cmds) == Some(Policy(cmds[i - 1].retentionMs, cmds[i - 1].retentionBytes))
  {
    if i < |cmds| {
      LastPolicyIs(cmds[..|cmds| - 1], i);
    }
  }

  lemma PolicyStep(policy: Policy, cmds: seq<Command>, i: nat, j: nat)
    requires i <= j < |cmds|
    ensures PolicyAfter(policy, cmds[i..j + 1])
         == match cmds[j]
            case RetentionConfig(ms, bytes) => Policy(ms, bytes)
            case AppendBatch(_) => PolicyAfter(policy, cmds[i..j])
  {
    assert cmds[i..j + 1][..j - i] == cmds[i..j];
  }

  /** The node applied the next `k` commands and then made them durable. */
  ghost predicate AppliedTo(c: Config, cmds: seq<Command>, n: Node, k: nat, m: Node) {
    |n.log| > 0 && n.applied + k <= |cmds| && m == Step(c, cmds, ApplyMany(c, cmds, n, k), Persist)
  }

  /** Each of the commands after `applied` has its result. */
  predicate ToldTo(cmds: seq<Command>, applied: nat, results: seq<int>) {
    && applied + |results| <= |cmds|
    && forall i | 0 <= i < |results| :: results[i] == ResultOf(cmds, applied + i)
  }

  /** The policy is the one in force after commands `i` up to `j`. */
  predicate PolicyIs(before: Policy, after: Policy, cmds: seq<Command>, i: nat, j: nat) {
    i <= j <= |cmds| && after == PolicyAfter(before, cmds[i..j])
  }

  lemma AllTold(c: Config, cmds: seq<Command>, applied: nat, results: seq<int>)
    requires GoodCommands(c, cmds) && ToldTo(cmds, applied, results)
    ensures forall i | 0 <= i < |results| :: TellsOffset(cmds, applied + i, results[i])
  {
    hide TellsOffset, ResultOf, GoodCommands;
    forall i | 0 <= i < |results| ensures TellsOffset(cmds, applied + i, results[i]) {
      ResultIsOffset(c, cmds, applied + i);
    }
  }

  /** The policy is that of the last entry that sets one, or as before if none does. */
  predicate LastPolicyHolds(entries: seq<Entry>, before: Policy, after: Policy) {
    && ((forall j | 0 <= j < |entries| :: entries[j].command.AppendBatch?) ==> after == before)
    && (forall i | 0 <= i < |entries| && entries[i].command.RetentionConfig?
                 && (forall j | i < j < |entries| :: entries[j].command.AppendBatch?) ::
          after == Policy(entries[i].command.retentionMs, entries[i].command.retentionBytes))
  }

  lemma LastEntrySets(entries: seq<Entry>, cmds: seq<Command>, applied: nat, policy: Policy)
    requires Delivers(entries, cmds, applied)
    ensures LastPolicyHolds(entries, policy, PolicyAfter(policy, cmds[applied..applied + |entries|]))
  {
    hide LastPolicy;
    var given := cmds[applied..applied + |entries|];
    assert forall j | 0 <= j < |entries| :: given[j] == entries[j].command;
    if forall j | 0 <= j < |entries| :: entries[j].command.AppendBatch? {
      LastPolicyIs(given, 0);
    }
    forall i | 0 <= i < |entries| && entries[i].command.RetentionConfig?
             && (forall j | i < j < |entries| :: entries[j].command.AppendBatch?)
      ensures PolicyAfter(policy, given)
           == Policy(entries[i].command.retentionMs, entries[i].command.retentionBytes)
    {
      LastPolicyIs(given, i + 1);
    }
  }

  lemma NoCommands(policy: Policy, cmds: seq<Command>, i: nat)
    requires i <= |cmds|
    ensures PolicyAfter(policy, cmds[i..i]) == policy
  {
  }

  lemma {:induction false} LastPolicyOf(cmds: seq<Command>, a: nat)
    requires a <= |cmds|
    ensures LastPolicy(cmds) == if LastPolicy(cmds[a..]).Some? then LastPolicy(cmds[a..]) else LastPolicy(cmds[..a])
  {
    if a == |cmds| {
      assert cmds[..a] == cmds;
    } else {
      var init := cmds[..|cmds| - 1];
      LastPolicyOf(init, a);
      assert cmds[a..][..|cmds| - 1 - a] == init[a..] && init[..a] == cmds[..a];
    }
  }

  /**
   The policy is not part of what a node makes durable: opening puts the configured one in force. A node
   that opens at index `a` and is then given the commands up to `b` has the policy of a node that never
   crashed exactly if one of those commands sets it, or the policy at index `a` was the configured one.
   */
  lemma PolicyIffReplayed(defaults: Policy, cmds: seq<Command>, a: nat, b: nat)
    requires a <= b <= |cmds|
    ensures PolicyAfter(defaults, cmds[a..b]) == PolicyAfter(defaults, cmds[..b])
       <==> LastPolicy(cmds[a..b]).Some? || LastPolicy(cmds[..a]) in {None, Some(defaults)}
  {
    LastPolicyOf(cmds[..b], a);
    assert cmds[..b][a..] == cmds[a..b] && cmds[..b][..a] == cmds[..a];
  }

  /** A policy that was set and made durable with the sidecar is gone after a restart. */
  lemma PolicyIsForgotten(defaults: Policy)
    ensures var cmds := [RetentionConfig(defaults.ms + 1, defaults.bytes)];
      PolicyAfter(defaults, cmds[1..1]) == defaults != PolicyAfter(defaults, cmds[..1])
  {
    var cmds := [RetentionConfig(defaults.ms + 1, defaults.bytes)];
    assert cmds[1..1] == [] && cmds[..1] == cmds;
  }

  lemma InvFacts(c: Config, cmds: seq<Command>, n: Node)
    requires Inv(c, cmds, n)
    ensures ValidLog(c, n.log, n.next) && Roomy(c, n.log) && n.applied <= |cmds|
  {
  }

  lemma CommandFacts(c: Config, cmds: seq<Command>, n: Node)
    requires GoodCommands(c, cmds) && Inv(c, cmds, n) && n.applied < |cmds| && cmds[n.applied].AppendBatch?
    ensures WellFormed(c.crc, cmds[n.applied].batch) && n.next + CountOf(cmds[n.applied].batch) < TWO_63
    ensures n.next == Count(Expected(cmds[..n.applied]))
  {
    hide ValidLog, Expected, Count, WellFormed, Holds, CountOf;
    RoomForNext(c, cmds, n);
    NextIsExpected(c, cmds, n);
  }

  class PartitionFSM {
    const cfg: Config
    const storage: Storage
    var sidecar: Option<Bytes>
    var lastAppliedIndex: nat
    var retention: Policy
    ghost var applied: nat
    ghost var Repr: set<object>

    ghost predicate Owned()
      reads this, Repr
      ensures Owned() ==> this in Repr && storage in Repr
    {
      && this in Repr && storage in Repr && storage.Repr <= Repr && this !in storage.Repr
      && storage.Owned() && storage.cfg == cfg
    }

    ghost function NodeOf(): Node
      reads this, storage
    {
      Node(storage.log, storage.nextOffset, SidecarOf(sidecar), applied)
    }

    constructor (cfg: Config, defaults: Policy, s: Storage, file: Option<Bytes>, index: nat)
      requires s.Owned() && s.cfg == cfg
      ensures Owned() && Repr == {this} + s.Repr && this.cfg == cfg && storage == s
      ensures lastAppliedIndex == index && retention == defaults
      ensures NodeOf() == Node(s.log, s.nextOffset, SidecarOf(file), index)
      ensures s.log == old(s.log) && s.nextOffset == old(s.nextOffset)
    {
      hide Storage.Owned, SidecarOf;
      this.cfg := cfg;
      storage := s;
      sidecar := file;
      lastAppliedIndex := index;
      retention := defaults;
      applied := index;
      Repr := {this} + s.Repr;
    }

    /**
     Applies the delivered commands in order, makes the log durable, and then replaces the sidecar.
     Every proposer is told the offset that a node which never crashed would have told it.
     */
    method Update(entries: seq<Entry>, ghost cmds: seq<Command>) returns (results: seq<int>)
      requires Owned() && ValidConfig(cfg) && GoodCommands(cfg, cmds) && Inv(cfg, cmds, NodeOf())
      requires |entries| > 0 && Delivers(entries, cmds, applied) && |cmds| < TWO_64
      modifies Repr
      ensures Owned() && fresh(Repr - old(Repr)) && Inv(cfg, cmds, NodeOf())
      ensures AppliedTo(cfg, cmds, old(NodeOf()), |entries|, NodeOf())
      ensures lastAppliedIndex == applied == old(applied) + |entries|
      ensures |results| == |entries| && ToldTo(cmds, old(applied), results)
      ensures forall i | 0 <= i < |entries| :: TellsOffset(cmds, old(applied) + i, results[i])
      ensures PolicyIs(old(retention), retention, cmds, old(applied), applied)
      ensures LastPolicyHolds(entries, old(retention), retention)
    {
      hide Inv, GoodCommands, Storage.Owned, ResultOf, SidecarOf, ApplyMany, Step, PolicyAfter, TellsOffset,
        LastPolicyHolds;
      ghost var start, policy := applied, retention;
      results := ApplyAll(entries, cmds);
      AllTold(cfg, cmds, start, results);
      LastEntrySets(entries, cmds, start, policy);
    }

    method ApplyAll(entries: seq<Entry>, ghost cmds: seq<Command>) returns (results: seq<int>)
      requires Owned() && ValidConfig(cfg) && GoodCommands(cfg, cmds) && Inv(cfg, cmds, NodeOf())
      requires |entries| > 0 && Delivers(entries, cmds, applied) && |cmds| < TWO_64
      modifies Repr
      ensures Owned() && fresh(Repr - old(Repr)) && Inv(cfg, cmds, NodeOf())
      ensures AppliedTo(cfg, cmds, old(NodeOf()), |entries|, NodeOf())
      ensures lastAppliedIndex == applied == old(applied) + |entries|
      ensures |results| == |entries| && ToldTo(cmds, old(applied), results)
      ensures PolicyIs(old(retention), retention, cmds, old(applied), applied)
    {
      hide Inv, GoodCommands, Storage.Owned, ResultOf, Expected, SidecarOf, ApplyNext, PolicyAfter;
      results := [];
      ghost var start := NodeOf();
      NoCommands(retention, cmds, applied);
      for i := 0 to |entries|
        invariant Owned() && fresh(Repr - old(Repr)) && Inv(cfg, cmds, NodeOf())
        invariant NodeOf() == ApplyMany(cfg, cmds, start, i) && applied == start.applied + i
        invariant retention == PolicyAfter(old(retention), cmds[start.applied..start.applied + i])
        invariant |results| == i && ToldTo(cmds, start.applied, results)
      {
        PolicyStep(old(retention), cmds, start.applied, start.applied + i);
        var r := ApplyOne(entries[i], cmds);
        results := results + [r];
      }
      PersistApplied(entries[|entries| - 1].index, cmds);
      lastAppliedIndex := entries[|entries| - 1].index;
    }

    method ApplyOne(entry: Entry, ghost cmds: seq<Command>) returns (result: int)
      requires Owned() && ValidConfig(cfg) && GoodCommands(cfg, cmds) && Inv(cfg, cmds, NodeOf())
      requires applied < |cmds| && cmds[applied] == entry.command
      modifies Repr
      ensures Owned() && fresh(Repr - old(Repr)) && Inv(cfg, cmds, NodeOf())
      ensures NodeOf() == ApplyNext(cfg, cmds, old(NodeOf())) && applied == old(applied) + 1
      ensures result == ResultOf(cmds, old(applied))
      ensures retention
           == match entry.command
              case RetentionConfig(ms, bytes) => Policy(ms, bytes)
              case AppendBatch(_) => old(retention)
    {
      hide ValidLog, Inv, GoodCommands, Storage.Owned, Expected, SidecarOf, Count, CountOf, WellFormed, Appended;
      ghost var n := NodeOf();
      InvFacts(cfg, cmds, n);
      ApplyKeepsInv(cfg, cmds, n);
      match entry.command {
        case AppendBatch(b) =>
          CommandFacts(cfg, cmds, n);
          RoomyIsAppendable(cfg, n.log, n.next);
          var base := storage.Append(b);
          result := base.value;
          WrapIdentity(result);
          Repr := Repr + storage.Repr;
        case RetentionConfig(ms, bytes) =>
          retention := Policy(ms, bytes);
          result := 0;
      }
      applied := applied + 1;
    }

    /** Syncs the log, and only then lets the new sidecar take the old one's place. */
    method PersistApplied(index: nat, ghost cmds: seq<Command>)
      requires Owned() && ValidConfig(cfg) && Inv(cfg, cmds, NodeOf())
      requires index == applied && applied < TWO_64
      modifies Repr
      ensures Owned() && Repr == old(Repr) && retention == old(retention) && Inv(cfg, cmds, NodeOf())
      ensures NodeOf() == Step(cfg, cmds, old(NodeOf()), Persist)
    {
      hide ValidLog, Inv, Storage.Owned, SyncedLast, DecodeSidecar, EncodeSidecar;
      ghost var n := NodeOf();
      InvFacts(cfg, cmds, n);
      PersistKeepsInv(cfg, cmds, n);
      storage.Sync();
      NextInRange(cfg, n.log, n.next);
      var latest := storage.nextOffset;
      SidecarRoundTrip(index, latest);
      sidecar := Some(EncodeSidecar(index, latest));
    }
  }

  /** A state in which a node can crash: between operations, or when a batch has just been written. */
  ghost predicate CrashPoint(c: Config, cmds: seq<Command>, n: Node) {
    Sound(c, cmds, n) && (Roomy(c, n.log) || (n.sidecar.Some? && n.sidecar.value.latestOffset < n.next))
  }

  /** A node that crashed at such a point is ready again exactly if retention had not passed its sidecar. */
  ghost predicate ReadyIffReached(c: Config, cmds: seq<Command>, before: Node, after: Node)
    requires |before.log| > 0
  {
    before.sidecar.Some? && GoodCommands(c, cmds) && CrashPoint(c, cmds, before) ==>
      (Inv(c, cmds, after) <==> before.log[0].base <= before.sidecar.value.latestOffset)
  }

  /**
   Opens a partition on what a crash left of `before`, or on an empty directory: recovers the storage,
   then cuts it back when it is ahead of the sidecar. `before` may be in the middle of an append. A
   sidecar of the wrong size is an error. The index that Raft continues from is the machine's
   `lastAppliedIndex`. With a sidecar whose offset retention has not passed, and only then, the machine
   is ready for the commands above that index.
   */
  method OpenPartition(cfg: Config, defaults: Policy, disk: seq<DiskSegment>, file: Option<Bytes>,
      ghost before: Node, ghost keep: nat, ghost cmds: seq<Command>)
    returns (fsm: Option<PartitionFSM>)
    requires |before.log| > 0 && ValidConfig(cfg) && AllValid(cfg, before.log)
    requires if |disk| > 0 then CrashImage(cfg, before.log, keep, disk) else before.log == [Fresh(0)]
    requires before.sidecar == SidecarOf(file)
    ensures fsm.None? <==> file.Some? && |file.value| != 16
    ensures fsm.Some? ==>
      && fresh(fsm.value.Repr) && fsm.value.Owned() && fsm.value.cfg == cfg && fsm.value.retention == defaults
      && fsm.value.NodeOf() == Opened(before, keep) && fsm.value.lastAppliedIndex == Opened(before, keep).applied
    ensures fsm.Some? ==> ReadyIffReached(cfg, cmds, before, fsm.value.NodeOf())
  {
    hide ReadyIffReached, AllValid, CrashImage, CrashPoint, Inv, GoodCommands, Opened, Storage.Owned, Storage.Valid,
      DecodeSidecar, SidecarOf, Truncated, End, Recovered, ValidLog;
    OpensReady(cfg, disk, before, keep, cmds);
    OpenedIs(before, keep);
    var s := new Storage.Open(cfg, disk, before.log, before.next, keep);
    if file.None? {
      SidecarFacts(file);
      var m := new PartitionFSM(cfg, defaults, s, file, 0);
      return Some(m);
    }
    SidecarFacts(file);
    if |file.value| != 16 {
      return None;
    }
    var sc := DecodeSidecar(file.value).value;
    CutBackTo(s, sc.latestOffset);
    var m := new PartitionFSM(cfg, defaults, s, file, sc.lastApplied);
    return Some(m);
  }

  lemma SidecarFacts(file: Option<Bytes>)
    ensures SidecarOf(file) == if file.None? then None else DecodeSidecar(file.value)
  {
  }

  /** Cuts a storage that is ahead of the offset back to it. */
  method CutBackTo(s: Storage, offset: int)
    requires s.Settled()
    modifies s.Repr
    ensures s.Owned() && fresh(s.Repr - old(s.Repr))
    ensures s.nextOffset == if old(s.nextOffset) > offset then offset else old(s.nextOffset)
    ensures s.log == if old(s.nextOffset) > offset then Truncated(old(s.log), offset) else old(s.log)
  {
    hide Storage.Owned, Storage.Valid, Truncated, IsBoundary, End;
    if s.nextOffset > offset {
      var ok := s.TruncateTo(offset);
    }
  }

  /** The steps of opening, for a log that may be that of an empty directory. */
  lemma OpenedIs(n: Node, keep: nat)
    requires |n.log| > 0
    ensures n.log == [Fresh(0)] ==> Recovered(n.log, keep) == [Fresh(0)]
    ensures var log := Recovered(n.log, keep);
      var next := End(LastOf(log));
      Opened(n, keep)
      == match n.sidecar
         case None => Node(log, next, None, 0)
         case Some(sc) =>
           Node(if next > sc.latestOffset then Truncated(log, sc.latestOffset) else log,
                if next > sc.latestOffset then sc.latestOffset else next, n.sidecar, sc.lastApplied)
  {
    hide Truncated, End;
  }

  lemma OpensReady(c: Config, disk: seq<DiskSegment>, n: Node, keep: nat, cmds: seq<Command>)
    requires ValidConfig(c) && |n.log| > 0
    requires if |disk| > 0 then CrashImage(c, n.log, keep, disk) else n.log == [Fresh(0)]
    ensures ReadyIffReached(c, cmds, n, Opened(n, keep))
  {
    hide Sound, Inv, GoodCommands, Opened, Roomy, Flat, SealedOnDisk;
    if n.sidecar.Some? && GoodCommands(c, cmds) && CrashPoint(c, cmds, n) {
      OpenIffReached(c, cmds, n, keep);
    }
  }
}
