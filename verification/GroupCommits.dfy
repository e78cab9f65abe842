/** Committed offsets over runs of uninterrupted requests to one group. */
module GroupCommits {
  import opened Bytes
  import opened RangeAssign
  import opened MetadataModel
  import GroupSafety
  import opened GroupModel

  /** An accepted commit: who made it, in which generation, and after how many changes of the group. */
  datatype Commit = Commit(member: string, generation: int32, change: nat, offsets: map<Key, int>)

  /**
   The metadata, the partition counts that the last change of the group was based on, the assignment
   after each change, and every accepted commit.
   */
  datatype World = World(meta: State, counts: map<string, nat>, history: seq<Assignment>, commits: seq<Commit>)

  datatype Request =
    | Join(member: string, state: MemberState)
    | Leave(member: string)
    | CommitOffset(member: string, generation: int32, offsets: map<Key, int>)
    | Other(cmd: Command)

  /** Every other command leaves the group alone. */
  predicate Allowed(gid: string, r: Request) {
    r.Other? ==> GroupSafety.Elsewhere(gid, r.cmd) && !(r.cmd.CommitGroupOffsets? && r.cmd.group == gid)
  }

  ghost function Changed(gid: string, w: World, meta: State, reply: Reply, counts: map<string, nat>): World {
    if reply.Accepted? then World(meta, counts, w.history + [GroupStateOf(meta, gid).assignments], w.commits)
    else w.(meta := meta)
  }

  ghost function Serve(limits: Limits, gid: string, w: World, r: Request): World
    requires |w.history| > 0
  {
    match r
    case Join(member, m) =>
      var (meta, reply) := RequestJoin(limits, w.meta, gid, member, m);
      Changed(gid, w, meta, reply, JoinCounts(limits, w.meta, gid, m, w.counts))
    case Leave(member) =>
      var (meta, reply) := RequestLeave(w.meta, gid, member);
      Changed(gid, w, meta, reply, LeaveCounts(w.meta, gid, member, w.counts))
    case CommitOffset(member, generation, offsets) =>
      var (meta, reply) := RequestCommit(w.meta, gid, member, generation, offsets);
      if reply.Accepted? then
        w.(meta := meta, commits := w.commits + [Commit(member, generation, |w.history| - 1, offsets)])
      else w
    case Other(cmd) => w.(meta := Apply(w.meta, cmd).0)
  }

  const START := World(INITIAL, map[], [map[]], [])

  ghost predicate IsRun(limits: Limits, gid: string, worlds: seq<World>, rs: seq<Request>) {
    && |worlds| == |rs| + 1
    && forall i | 0 <= i < |rs| ::
         Allowed(gid, rs[i]) && |worlds[i].history| > 0 && worlds[i + 1] == Serve(limits, gid, worlds[i], rs[i])
  }

  // --- The invariant -------------------------------------------------------------------------------

  /** What is stored when commits are merged one after the other. */
  function Merged(commits: seq<Commit>): map<Key, int> {
    if |commits| == 0 then map[] else Merged(commits[..|commits| - 1]) + commits[|commits| - 1].offsets
  }

  predicate OwnerCommit(history: seq<Assignment>, c: Commit) {
    && c.change < |history| && c.generation == WrapInt32(c.change)
    && forall k | k in c.offsets :: c.member in history[c.change] && k in history[c.change][c.member]
  }

  ghost predicate Inv(gid: string, w: World) {
    var g := GroupStateOf(w.meta, gid);
    && |w.history| > 0 && w.history[|w.history| - 1] == g.assignments && g.generation == WrapInt32(|w.history| - 1)
    && Consistent(g, w.counts)
    && (forall i | 0 <= i < |w.history| :: Exclusive(w.history[i]))
    && (forall n | 0 <= n < |w.commits| :: OwnerCommit(w.history, w.commits[n]))
    && g.offsets == Merged(w.commits)
  }

  lemma StartInv(gid: string)
    ensures Inv(gid, START)
  {
    hide Assigned;
    assert Balanced(NO_GROUP_STATE, map[]);
  }

  /** A new generation begins: the assignment is recorded, commits stand. */
  lemma ChangeKeepsInv(gid: string, w: World, meta: State, counts: map<string, nat>)
    requires Inv(gid, w) && Consistent(GroupStateOf(meta, gid), counts)
    requires GroupStateOf(meta, gid).generation == WrapInt32(GroupStateOf(w.meta, gid).generation + 1)
    requires GroupStateOf(meta, gid).offsets == GroupStateOf(w.meta, gid).offsets
    ensures Inv(gid, World(meta, counts, w.history + [GroupStateOf(meta, gid).assignments], w.commits))
  {
    hide Consistent, Merged, Exclusive, GroupStateOf, WrapInt32, OwnerCommit;
    var a := GroupStateOf(meta, gid).assignments;
    ConsistentIsExclusive(GroupStateOf(meta, gid), counts);
    GroupSafety.NextWrap(|w.history| - 1);
    forall n | 0 <= n < |w.commits|
      ensures OwnerCommit(w.history + [a], w.commits[n])
    {
      OwnerStill(w.history, a, w.commits[n]);
    }
  }

  lemma ConsistentIsExclusive(g: GroupState, counts: map<string, nat>)
    requires Consistent(g, counts)
    ensures Exclusive(g.assignments)
  {
  }

  lemma OwnerStill(history: seq<Assignment>, a: Assignment, c: Commit)
    requires OwnerCommit(history, c)
    ensures OwnerCommit(history + [a], c)
  {
  }

  lemma JoinKeepsInv(limits: Limits, gid: string, w: World, member: string, m: MemberState)
    requires Inv(gid, w)
    ensures Inv(gid, Serve(limits, gid, w, Join(member, m)))
  {
    hide Inv, Consistent, GroupStateOf, RequestJoin, RequestLeave, RequestCommit, Apply, WrapInt32,
      JoinCounts, LeaveCounts;
    InvFacts(gid, w);
    JoinKeepsConsistent(limits, w.meta, gid, member, m, w.counts);
    JoinEffect(limits, w.meta, gid, member, m);
    var (meta, reply) := RequestJoin(limits, w.meta, gid, member, m);
    if reply.Accepted? {
      ChangeKeepsInv(gid, w, meta, JoinCounts(limits, w.meta, gid, m, w.counts));
    }
  }

  lemma LeaveKeepsInv(limits: Limits, gid: string, w: World, member: string)
    requires Inv(gid, w)
    ensures Inv(gid, Serve(limits, gid, w, Leave(member)))
  {
    hide Inv, Consistent, GroupStateOf, RequestJoin, RequestLeave, RequestCommit, Apply, WrapInt32,
      JoinCounts, LeaveCounts;
    InvFacts(gid, w);
    LeaveKeepsConsistent(w.meta, gid, member, w.counts);
    LeaveEffect(w.meta, gid, member);
    var (meta, reply) := RequestLeave(w.meta, gid, member);
    if reply.Accepted? {
      ChangeKeepsInv(gid, w, meta, LeaveCounts(w.meta, gid, member, w.counts));
    }
  }

  lemma InvFacts(gid: string, w: World)
    requires Inv(gid, w)
    ensures |w.history| > 0 && Consistent(GroupStateOf(w.meta, gid), w.counts)
  {
  }

  lemma CommitKeepsInv(limits: Limits, gid: string, w: World, member: string, generation: int32, offsets: map<Key, int>)
    requires Inv(gid, w)
    ensures Inv(gid, Serve(limits, gid, w, CommitOffset(member, generation, offsets)))
  {
    hide Consistent, GroupStateOf, RequestJoin, RequestLeave, RequestCommit, Apply, Exclusive, WrapInt32;
    CommitEffect(w.meta, gid, member, generation, offsets);
    var (meta, reply) := RequestCommit(w.meta, gid, member, generation, offsets);
    if reply.Accepted? {
      var c := Commit(member, generation, |w.history| - 1, offsets);
      assert forall k | k in offsets :: Owns(GroupStateOf(w.meta, gid), member, k);
      assert OwnerCommit(w.history, c);
      assert (w.commits + [c])[..|w.commits|] == w.commits;
      SameGroupConsistent(GroupStateOf(w.meta, gid), GroupStateOf(meta, gid), w.counts);
    }
  }

  lemma SameGroupConsistent(g: GroupState, r: GroupState, counts: map<string, nat>)
    requires Consistent(g, counts) && r.members == g.members && r.assignments == g.assignments
    ensures Consistent(r, counts)
  {
    hide Assigned;
  }

  lemma OtherKeepsInv(limits: Limits, gid: string, w: World, cmd: Command)
    requires Inv(gid, w) && Allowed(gid, Other(cmd))
    ensures Inv(gid, Serve(limits, gid, w, Other(cmd)))
  {
    hide Consistent, Merged, Exclusive, WrapInt32, RequestJoin, RequestLeave, RequestCommit, Apply,
      OwnerCommit, GroupStateOf;
    OtherKeepsGroup(gid, w.meta, cmd);
  }

  lemma OtherKeepsGroup(gid: string, s: State, cmd: Command)
    requires Allowed(gid, Other(cmd))
    ensures GroupStateOf(Apply(s, cmd).0, gid) == GroupStateOf(s, gid)
  {
    hide Extended, Deleted, GroupAfterJoin, GroupWithout, Committed, MetadataModel.Join, MetadataModel.Leave, MemberId;
  }

  lemma ServeKeepsInv(limits: Limits, gid: string, w: World, r: Request)
    requires Inv(gid, w) && Allowed(gid, r)
    ensures Inv(gid, Serve(limits, gid, w, r))
  {
    hide Inv, Serve, Allowed;
    match r
    case Join(member, m) => JoinKeepsInv(limits, gid, w, member, m);
    case Leave(member) => LeaveKeepsInv(limits, gid, w, member);
    case CommitOffset(member, generation, offsets) => CommitKeepsInv(limits, gid, w, member, generation, offsets);
    case Other(cmd) => OtherKeepsInv(limits, gid, w, cmd);
  }

  lemma {:induction false} RunKeepsInv(limits: Limits, gid: string, worlds: seq<World>, rs: seq<Request>, i: nat)
    requires IsRun(limits, gid, worlds, rs) && worlds[0] == START && i < |worlds|
    ensures Inv(gid, worlds[i])
  {
    hide Inv, Serve, Allowed;
    if i == 0 {
      StartInv(gid);
    } else {
      RunKeepsInv(limits, gid, worlds, rs, i - 1);
      ServeKeepsInv(limits, gid, worlds[i - 1], rs[i - 1]);
    }
  }

  // --- What follows -------------------------------------------------------------------------------

  /**
   In every reachable state of a group all members subscribe to the same topics, the assignment is
   theirs and no one else's, and it is the range assignment of those topics for the counts last read.
   So every partition that was counted has exactly one owner, and no other partition has any.
   */
  lemma GroupsStayConsistent(limits: Limits, gid: string, worlds: seq<World>, rs: seq<Request>, i: nat)
    requires IsRun(limits, gid, worlds, rs) && worlds[0] == START && i < |worlds|
    ensures Consistent(GroupStateOf(worlds[i].meta, gid), worlds[i].counts)
    ensures var g := GroupStateOf(worlds[i].meta, gid);
      forall id, tp | id in g.members ::
        HasOwner(g, tp) <==> tp.topic in g.members[id].topics && tp.partition < CountIn(worlds[i].counts, tp.topic)
  {
    hide IsRun, Consistent, GroupStateOf, HasOwner, CountIn;
    RunKeepsInv(limits, gid, worlds, rs, i);
    var g := GroupStateOf(worlds[i].meta, gid);
    forall id, tp | id in g.members
      ensures HasOwner(g, tp)
        <==> tp.topic in g.members[id].topics && tp.partition < CountIn(worlds[i].counts, tp.topic)
    {
      OwnedIffCounted(g, worlds[i].counts, id, tp);
    }
  }

  /** In every reachable state the answers to all members hold, together, every partition that was counted. */
  lemma AnswersHoldEverything(limits: Limits, gid: string, worlds: seq<World>, rs: seq<Request>, i: nat,
      id: string, tp: TopicPartition)
    requires IsRun(limits, gid, worlds, rs) && worlds[0] == START && i < |worlds|
    requires id in GroupStateOf(worlds[i].meta, gid).members
    ensures var g := GroupStateOf(worlds[i].meta, gid);
      (exists other :: other in g.members && tp in GroupSafety.AnswerOf(g, other).partitions)
      <==> tp.topic in g.members[id].topics && tp.partition < CountIn(worlds[i].counts, tp.topic)
  {
    hide IsRun, Consistent, GroupStateOf, CountIn, GroupSafety.AnswerOf;
    RunKeepsInv(limits, gid, worlds, rs, i);
    AnswersCover(GroupStateOf(worlds[i].meta, gid), worlds[i].counts, id, tp);
  }

  /** Whatever was committed before, the owner of a partition can commit it in the current generation. */
  lemma OwnersCanCommit(limits: Limits, gid: string, w: World, member: string, offsets: map<Key, int>)
    requires |w.history| > 0 && member in GroupStateOf(w.meta, gid).members
    requires var a := GroupStateOf(w.meta, gid).assignments;
      forall k | k in offsets :: member in a && k in a[member]
    ensures var v := Serve(limits, gid, w, CommitOffset(member, GroupStateOf(w.meta, gid).generation, offsets));
      && |v.commits| == |w.commits| + 1
      && forall k | k in offsets ::
           k in GroupStateOf(v.meta, gid).offsets && GroupStateOf(v.meta, gid).offsets[k] == offsets[k]
  {
    hide RequestCommit, GroupStateOf;
    CommitEffect(w.meta, gid, member, GroupStateOf(w.meta, gid).generation, offsets);
  }

  /** The last commit that holds the key. */
  lemma {:induction false} LastCommit(commits: seq<Commit>, k: Key) returns (n: nat)
    requires k in Merged(commits)
    ensures n < |commits| && k in commits[n].offsets && commits[n].offsets[k] == Merged(commits)[k]
    ensures forall m | n < m < |commits| :: k !in commits[m].offsets
  {
    if k in commits[|commits| - 1].offsets {
      n := |commits| - 1;
    } else {
      n := LastCommit(commits[..|commits| - 1], k);
    }
  }

  /** A stored offset was last written by the member that owned the partition when it was written. */
  lemma OffsetsWrittenByOwners(limits: Limits, gid: string, worlds: seq<World>, rs: seq<Request>, i: nat, k: Key)
      returns (n: nat)
    requires IsRun(limits, gid, worlds, rs) && worlds[0] == START && i < |worlds|
    requires k in GroupStateOf(worlds[i].meta, gid).offsets
    ensures n < |worlds[i].commits| && k in worlds[i].commits[n].offsets
    ensures worlds[i].commits[n].offsets[k] == GroupStateOf(worlds[i].meta, gid).offsets[k]
    ensures forall m | n < m < |worlds[i].commits| :: k !in worlds[i].commits[m].offsets
    ensures OwnerCommit(worlds[i].history, worlds[i].commits[n])
  {
    hide IsRun, Consistent, Merged, GroupStateOf, OwnerCommit;
    RunKeepsInv(limits, gid, worlds, rs, i);
    n := LastCommit(worlds[i].commits, k);
  }

  /**
   No two members write one partition in one generation. Generation numbers are 32 bits wide, so this is
   said of commits fewer than 2^32 changes apart.
   */
  lemma OneWriterPerGeneration(limits: Limits, gid: string, worlds: seq<World>, rs: seq<Request>, i: nat,
      m: nat, n: nat, k: Key)
    requires IsRun(limits, gid, worlds, rs) && worlds[0] == START && i < |worlds|
    requires m < |worlds[i].commits| && n < |worlds[i].commits|
    requires worlds[i].commits[m].generation == worlds[i].commits[n].generation
    requires -TWO_32 < worlds[i].commits[m].change - worlds[i].commits[n].change < TWO_32
    requires k in worlds[i].commits[m].offsets && k in worlds[i].commits[n].offsets
    ensures worlds[i].commits[m].member == worlds[i].commits[n].member
  {
    hide IsRun, Consistent, Merged, GroupStateOf, WrapInt32;
    RunKeepsInv(limits, gid, worlds, rs, i);
    var a, b := worlds[i].commits[m], worlds[i].commits[n];
    assert OwnerCommit(worlds[i].history, a);
    assert OwnerCommit(worlds[i].history, b);
    if a.change <= b.change {
      GroupSafety.GenerationsAgree(a.change, b.change);
    } else {
      GroupSafety.GenerationsAgree(b.change, a.change);
    }
  }

  /** Joins and leaves, that of the last member too, keep every offset; commits only add or replace. */
  lemma {:induction false} OffsetsSurvive(limits: Limits, gid: string, worlds: seq<World>,
      rs: seq<Request>, i: nat, j: nat, k: Key)
    requires IsRun(limits, gid, worlds, rs) && worlds[0] == START && i <= j < |worlds|
    requires k in GroupStateOf(worlds[i].meta, gid).offsets
    ensures k in GroupStateOf(worlds[j].meta, gid).offsets
    ensures (forall m | i <= m < j :: !rs[m].CommitOffset?) ==>
      GroupStateOf(worlds[j].meta, gid).offsets == GroupStateOf(worlds[i].meta, gid).offsets
    decreases j
  {
    if i < j {
      hide GroupStateOf, Serve, Allowed;
      OffsetsSurvive(limits, gid, worlds, rs, i, j - 1, k);
      ServeKeepsOffsets(limits, gid, worlds[j - 1], rs[j - 1]);
    }
  }

  lemma ServeKeepsOffsets(limits: Limits, gid: string, w: World, r: Request)
    requires Allowed(gid, r) && |w.history| > 0
    ensures var before, after :=
      GroupStateOf(w.meta, gid).offsets, GroupStateOf(Serve(limits, gid, w, r).meta, gid).offsets;
            && (forall k | k in before :: k in after)
            && (!r.CommitOffset? ==> after == before)
  {
    hide GroupStateOf, RequestJoin, RequestLeave, RequestCommit, Apply, WrapInt32;
    match r
    case Join(member, m) => JoinEffect(limits, w.meta, gid, member, m);
    case Leave(member) => LeaveEffect(w.meta, gid, member);
    case CommitOffset(member, generation, offsets) => CommitEffect(w.meta, gid, member, generation, offsets);
    case Other(cmd) => OtherKeepsGroup(gid, w.meta, cmd);
  }
}
