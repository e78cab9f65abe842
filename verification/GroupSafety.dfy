/**
 Consumer groups under concurrency. A handler looks the group up and proposes what it worked out from
 what it saw, and any number of joins, leaves and evictions run side by side. The state machine takes
 every proposal as it comes: it may be based on members that have left and on partition counts that
 have changed.
 */
module GroupSafety {
  import opened Bytes
  import opened Ordering
  import opened RangeAssign
  import opened MetadataModel

  /** What a handler saw: the members, in the order it saw them, and the partition counts of the topics. */
  datatype Seen = Seen(ids: seq<string>, topics: seq<string>, counts: map<string, nat>)

  datatype Handler =
    | Idle
    | Joining(member: string, state: MemberState, seen: Seen)
    | Answering(member: string)
    | Leaving(member: string, seen: Seen)

  /** The metadata, how often the group has changed, and the handlers. */
  datatype World = World(meta: State, changes: nat, handlers: seq<Handler>)

  datatype Event =
    | LookupJoin(h: nat, member: string, state: MemberState, seen: Seen)
    | ProposeJoin(h: nat)
    | Respond(h: nat)
    | LookupLeave(h: nat, member: string, seen: Seen)
    | ProposeLeave(h: nat)
    | Other(cmd: Command)

  datatype Response = Response(member: string, generation: int32, partitions: seq<Key>)

  function Encoded(a: Assignment): Option<Assignment> {
    if a == map[] then None else Some(a)
  }

  function Proposed(seen: Seen): Option<Assignment> {
    Encoded(Assigned(seen.ids, seen.topics, seen.counts))
  }

  /** A command that does not change who is in the group or what they are assigned. */
  predicate Elsewhere(gid: string, cmd: Command) {
    match cmd
    case JoinGroupState(g, _, _, _) => g != gid
    case LeaveGroup(g, _, _) => g != gid
    case _ => true
  }

  /** What a handler saw is unconstrained, but for the ids being distinct, the joining member first. */
  predicate Enabled(gid: string, w: World, e: Event) {
    match e
    case LookupJoin(h, member, _, seen) =>
      h < |w.handlers| && w.handlers[h].Idle? && Distinct(seen.ids) && |seen.ids| > 0 && seen.ids[0] == member
    case ProposeJoin(h) => h < |w.handlers| && w.handlers[h].Joining?
    case Respond(h) => h < |w.handlers| && w.handlers[h].Answering?
    case LookupLeave(h, _, seen) => h < |w.handlers| && w.handlers[h].Idle? && Distinct(seen.ids)
    case ProposeLeave(h) => h < |w.handlers| && w.handlers[h].Leaving?
    case Other(cmd) => Elsewhere(gid, cmd)
  }

  function View(gid: string, w: World): GroupState {
    GroupStateOf(w.meta, gid)
  }

  ghost function Step(gid: string, w: World, e: Event): World
    requires Enabled(gid, w, e)
  {
    match e
    case LookupJoin(h, member, state, seen) => w.(handlers := w.handlers[h := Joining(member, state, seen)])
    case ProposeJoin(h) =>
      var p := w.handlers[h];
      World(Apply(w.meta, JoinGroupState(gid, p.member, p.state, Proposed(p.seen))).0, w.changes + 1,
            w.handlers[h := Answering(p.member)])
    case Respond(h) => w.(handlers := w.handlers[h := Idle])
    case LookupLeave(h, member, seen) => w.(handlers := w.handlers[h := Leaving(member, seen)])
    case ProposeLeave(h) =>
      var p := w.handlers[h];
      World(Apply(w.meta, LeaveGroup(gid, p.member, Proposed(p.seen))).0,
            if p.member in View(gid, w).members then w.changes + 1 else w.changes, w.handlers[h := Idle])
    case Other(cmd) => w.(meta := Apply(w.meta, cmd).0)
  }

  /** What JoinGroup returns: the generation and the member's partitions, looked up together. */
  function AnswerOf(g: GroupState, member: string): Response {
    Response(member, g.generation, if member in g.assignments then g.assignments[member] else [])
  }

  ghost predicate IsRun(gid: string, worlds: seq<World>, es: seq<Event>) {
    && |worlds| == |es| + 1
    && forall i | 0 <= i < |es| :: Enabled(gid, worlds[i], es[i]) && worlds[i + 1] == Step(gid, worlds[i], es[i])
  }

  predicate Start(w: World) {
    w.meta == INITIAL && w.changes == 0 && forall h | 0 <= h < |w.handlers| :: w.handlers[h].Idle?
  }

  // --- What every interleaving keeps -------------------------------------------------------------

  predicate SeenDistinct(h: Handler) {
    match h
    case Joining(_, _, seen) => Distinct(seen.ids)
    case Leaving(_, seen) => Distinct(seen.ids)
    case _ => true
  }

  predicate Inv(gid: string, w: World) {
    && View(gid, w).generation == WrapInt32(w.changes)
    && Exclusive(View(gid, w).assignments)
    && forall h | 0 <= h < |w.handlers| :: SeenDistinct(w.handlers[h])
  }

  /** The counter never goes back, and while it stands still so does the assignment. */
  predicate Since(gid: string, w: World, v: World) {
    w.changes <= v.changes && (w.changes == v.changes ==> View(gid, w).assignments == View(gid, v).assignments)
  }

  lemma ProposalIsExclusive(seen: Seen)
    requires Distinct(seen.ids)
    ensures Proposed(seen).Some? ==> Exclusive(Proposed(seen).value)
  {
    AssignedOnce(seen.ids, seen.topics, seen.counts);
  }

  lemma NextWrap(n: nat)
    ensures WrapInt32(WrapInt32(n) + 1) == WrapInt32(n + 1)
  {
  }

  lemma ElsewhereKeepsGroup(gid: string, s: State, cmd: Command)
    requires Elsewhere(gid, cmd)
    ensures var g, r := GroupStateOf(s, gid), GroupStateOf(Apply(s, cmd).0, gid);
            r.members == g.members && r.assignments == g.assignments && r.generation == g.generation
  {
    hide Extended, Deleted, GroupAfterJoin, GroupWithout, Committed, Join, Leave, MemberId, NextGeneration, WrapInt32;
  }

  lemma JoinView(gid: string, s: State, member: string, m: MemberState, a: Option<Assignment>)
    ensures GroupStateOf(Apply(s, JoinGroupState(gid, member, m, a)).0, gid) == Join(GroupStateOf(s, gid), member, m, a)
  {
    hide Join;
  }

  lemma LeaveView(gid: string, s: State, member: string, a: Option<Assignment>)
    ensures GroupStateOf(Apply(s, LeaveGroup(gid, member, a)).0, gid)
         == if member in GroupStateOf(s, gid).members then Leave(GroupStateOf(s, gid), member, a)
            else GroupStateOf(s, gid)
  {
    hide Leave, GroupWithout;
  }

  lemma ProposeJoinKeepsInv(gid: string, w: World, h: nat)
    requires Inv(gid, w) && Enabled(gid, w, ProposeJoin(h))
    ensures var v := Step(gid, w, ProposeJoin(h)); Inv(gid, v) && Since(gid, w, v)
  {
    hide Exclusive, Proposed, WrapInt32, Apply;
    var p := w.handlers[h];
    assert SeenDistinct(p);
    ProposalIsExclusive(p.seen);
    NextWrap(w.changes);
    JoinView(gid, w.meta, p.member, p.state, Proposed(p.seen));
  }

  lemma LeaveExclusive(g: GroupState, member: string, a: Option<Assignment>)
    requires a.Some? ==> Exclusive(a.value)
    ensures Exclusive(Leave(g, member, a).assignments) && Leave(g, member, a).generation == WrapInt32(g.generation + 1)
  {
    assert Exclusive(map[]);
    hide Exclusive;
  }

  lemma ProposeLeaveKeepsInv(gid: string, w: World, h: nat)
    requires Inv(gid, w) && Enabled(gid, w, ProposeLeave(h))
    ensures var v := Step(gid, w, ProposeLeave(h)); Inv(gid, v) && Since(gid, w, v)
  {
    hide Exclusive, Proposed, WrapInt32, Apply, Leave, GroupStateOf;
    var p := w.handlers[h];
    assert SeenDistinct(p);
    ProposalIsExclusive(p.seen);
    LeaveExclusive(View(gid, w), p.member, Proposed(p.seen));
    NextWrap(w.changes);
    LeaveView(gid, w.meta, p.member, Proposed(p.seen));
  }

  lemma StepKeepsInv(gid: string, w: World, e: Event)
    requires Inv(gid, w) && Enabled(gid, w, e)
    ensures Inv(gid, Step(gid, w, e)) && Since(gid, w, Step(gid, w, e))
  {
    hide Exclusive, WrapInt32, Apply;
    match e
    case ProposeJoin(h) => ProposeJoinKeepsInv(gid, w, h);
    case ProposeLeave(h) => ProposeLeaveKeepsInv(gid, w, h);
    case Other(cmd) => ElsewhereKeepsGroup(gid, w.meta, cmd);
    case LookupJoin(h, _, _, _) =>
    case LookupLeave(h, _, _) =>
    case Respond(h) =>
  }

  lemma {:induction false} RunKeepsInv(gid: string, worlds: seq<World>, es: seq<Event>, i: nat, j: nat)
    requires IsRun(gid, worlds, es) && Start(worlds[0]) && i <= j < |worlds|
    ensures Inv(gid, worlds[j]) && Since(gid, worlds[i], worlds[j])
    decreases j
  {
    if j > 0 {
      hide Inv, Step, Enabled, Start;
      RunKeepsInv(gid, worlds, es, if i < j then i else i - 1, j - 1);
      StepKeepsInv(gid, worlds[j - 1], es[j - 1]);
    }
  }

  /** Generation numbers come round again after 2^32 changes, and no sooner. */
  lemma GenerationsAgree(a: nat, b: nat)
    requires a <= b
    ensures WrapInt32(a) == WrapInt32(b) <==> (b - a) % TWO_32 == 0
  {
    var d := b / TWO_32 - a / TWO_32;
    assert b - a == d * TWO_32 + (b % TWO_32 - a % TWO_32);
  }

  /**
   However the handlers interleave, one generation names one assignment. Generation numbers are 32
   bits wide, so this is said of any stretch of fewer than 2^32 changes.
   */
  lemma OneAssignmentPerGeneration(gid: string, worlds: seq<World>, es: seq<Event>, i: nat, j: nat)
    requires IsRun(gid, worlds, es) && Start(worlds[0]) && i <= j < |worlds|
    requires View(gid, worlds[i]).generation == View(gid, worlds[j]).generation
    requires worlds[j].changes - worlds[i].changes < TWO_32
    ensures View(gid, worlds[i]).assignments == View(gid, worlds[j]).assignments
    ensures Exclusive(View(gid, worlds[i]).assignments)
  {
    hide IsRun, Start, WrapInt32, Exclusive;
    RunKeepsInv(gid, worlds, es, i, j);
    RunKeepsInv(gid, worlds, es, i, i);
    GenerationsAgree(worlds[i].changes, worlds[j].changes);
  }

  /**
   Two answers to different members with the same generation share no partition. A lookup reads a local
   replica that may be behind, so each answer comes from any world up to the one in which it is given.
   */
  lemma AnswersAreDisjoint(gid: string, worlds: seq<World>, es: seq<Event>, i: nat, j: nat, x: nat, y: nat, tp: Key)
    requires IsRun(gid, worlds, es) && Start(worlds[0]) && i < |es| && j < |es| && es[i].Respond? && es[j].Respond?
    requires worlds[i].handlers[es[i].h].member != worlds[j].handlers[es[j].h].member
    requires x <= i && y <= j && -TWO_32 < worlds[y].changes - worlds[x].changes < TWO_32
    ensures var a := AnswerOf(View(gid, worlds[x]), worlds[i].handlers[es[i].h].member);
            var b := AnswerOf(View(gid, worlds[y]), worlds[j].handlers[es[j].h].member);
            a.generation == b.generation ==> !(tp in a.partitions && tp in b.partitions)
  {
    hide Start, Step;
    if View(gid, worlds[x]).generation == View(gid, worlds[y]).generation {
      if x <= y {
        OneAssignmentPerGeneration(gid, worlds, es, x, y);
      } else {
        OneAssignmentPerGeneration(gid, worlds, es, y, x);
      }
    }
  }
}
