/**
 The group coordinator's requests as values: each looks the group up, decides, and proposes one command.
 Here a request is not interrupted between the two.
 */
module GroupModel {
  import opened Bytes
  import opened Ordering
  import opened RangeAssign
  import opened MetadataModel
  import opened GroupSafety

  datatype Limits = Limits(sessionTimeoutMinMs: int, sessionTimeoutMaxMs: int)

  datatype Reply = Accepted | BadTimeout | TopicNotFound | MixedTopics | NotGroupMember | StaleGeneration | NotAssigned

  /** The partition counts of those topics that exist. */
  function Counts(s: State, topics: seq<string>): map<string, nat> {
    map t | t in topics && t in s.topics :: s.topics[t].partitionCount
  }

  ghost function AssignmentFor(s: State, members: set<string>, topics: seq<string>): Assignment {
    Assigned(SortedElements(members, StringLe), topics, Counts(s, topics))
  }

  predicate SameTopics(a: MemberState, b: MemberState) {
    multiset(a.topics) == multiset(b.topics)
  }

  ghost function JoinReply(limits: Limits, s: State, gid: string, m: MemberState): Reply {
    var g := GroupStateOf(s, gid);
    if !(limits.sessionTimeoutMinMs <= m.sessionTimeoutMs <= limits.sessionTimeoutMaxMs) then BadTimeout
    else if exists t :: t in m.topics && t !in s.topics then TopicNotFound
    else if exists id :: id in g.members && !SameTopics(g.members[id], m) then MixedTopics
    else Accepted
  }

  ghost function RequestJoin(limits: Limits, s: State, gid: string, member: string, m: MemberState): (State, Reply) {
    var a := AssignmentFor(s, GroupStateOf(s, gid).members.Keys + {member}, m.topics);
    (if JoinReply(limits, s, gid, m).Accepted? then Apply(s, JoinGroupState(gid, member, m, Encoded(a))).0 else s,
     JoinReply(limits, s, gid, m))
  }

  /** Also what the sweep does with a member whose session ran out. */
  ghost function RequestLeave(s: State, gid: string, member: string): (State, Reply) {
    var g := GroupStateOf(s, gid);
    if member !in g.members then (s, NotGroupMember)
    else
      var a := AssignmentFor(s, g.members.Keys - {member}, g.members[member].topics);
      (Apply(s, LeaveGroup(gid, member, Encoded(a))).0, Accepted)
  }

  predicate Owns(g: GroupState, member: string, k: Key) {
    member in g.assignments && k in g.assignments[member]
  }

  ghost function RequestCommit(s: State, gid: string, member: string, generation: int32,
      offsets: map<Key, int>): (State, Reply) {
    var g := GroupStateOf(s, gid);
    if member !in g.members then (s, NotGroupMember)
    else if generation != g.generation then (s, StaleGeneration)
    else if exists k :: k in offsets && !Owns(g, member, k) then (s, NotAssigned)
    else (Apply(s, CommitGroupOffsets(gid, offsets)).0, Accepted)
  }

  // --- What uninterrupted requests keep ----------------------------------------------------------

  ghost predicate SharedTopics(g: GroupState) {
    forall a, b | a in g.members && b in g.members :: SameTopics(g.members[a], g.members[b])
  }

  /** The stored assignment is the range assignment of the members and their topics, for the counts then read. */
  ghost predicate Balanced(g: GroupState, counts: map<string, nat>) {
    forall id | id in g.members ::
      g.assignments == Assigned(SortedElements(g.members.Keys, StringLe), g.members[id].topics, counts)
  }

  /** `counts` are the partition counts that the last change of the group was based on. */
  ghost predicate Consistent(g: GroupState, counts: map<string, nat>) {
    && SharedTopics(g)
    && g.assignments.Keys == g.members.Keys
    && Exclusive(g.assignments)
    && Balanced(g, counts)
  }

  ghost predicate HasOwner(g: GroupState, tp: TopicPartition) {
    exists id :: id in g.assignments && tp in g.assignments[id]
  }

  /**
   In a group with members, a partition has an owner if and only if its topic is subscribed to and had
   that many partitions when they were counted. It then has only one.
   */
  lemma OwnedIffCounted(g: GroupState, counts: map<string, nat>, id: string, tp: TopicPartition)
    requires Consistent(g, counts) && id in g.members
    ensures HasOwner(g, tp) <==> tp.topic in g.members[id].topics && tp.partition < CountIn(counts, tp.topic)
    ensures forall a, b | a in g.assignments && b in g.assignments
                       && tp in g.assignments[a] && tp in g.assignments[b] :: a == b
  {
    hide Assigned;
    var ids := SortedElements(g.members.Keys, StringLe);
    SortedElementsHold(g.members.Keys, StringLe);
    AssignedOnce(ids, g.members[id].topics, counts);
    assert g.assignments == Assigned(ids, g.members[id].topics, counts);
  }

  /** The counts a join is based on, if it is accepted. */
  ghost function JoinCounts(limits: Limits, s: State, gid: string, m: MemberState, before: map<string, nat>)
    : map<string, nat>
  {
    if JoinReply(limits, s, gid, m).Accepted? then Counts(s, m.topics) else before
  }

  /** The counts a leave is based on, if there is one. */
  ghost function LeaveCounts(s: State, gid: string, member: string, before: map<string, nat>): map<string, nat> {
    var g := GroupStateOf(s, gid);
    if member in g.members then Counts(s, g.members[member].topics) else before
  }

  lemma AssignmentForKeys(s: State, members: set<string>, topics: seq<string>)
    ensures AssignmentFor(s, members, topics).Keys == members
    ensures Exclusive(AssignmentFor(s, members, topics))
  {
    hide Assigned, Exclusive;
    SortedElementsHold(members, StringLe);
    AssignedOnce(SortedElements(members, StringLe), topics, Counts(s, topics));
  }

  predicate AllSubscribeTo(g: GroupState, topics: seq<string>) {
    forall id | id in g.members :: multiset(g.members[id].topics) == multiset(topics)
  }

  lemma SameForAll(g: GroupState, s: State, topics: seq<string>)
    requires AllSubscribeTo(g, topics)
    requires g.assignments == AssignmentFor(s, g.members.Keys, topics)
    ensures Balanced(g, Counts(s, topics))
  {
    hide Assigned;
    var ids := SortedElements(g.members.Keys, StringLe);
    forall id | id in g.members
      ensures g.assignments == Assigned(ids, g.members[id].topics, Counts(s, topics))
    {
      AssignedIgnoresOrder(ids, topics, ids, g.members[id].topics, Counts(s, topics));
    }
  }

  lemma AssignedAnew(g: GroupState, s: State, topics: seq<string>)
    requires AllSubscribeTo(g, topics) && g.assignments == AssignmentFor(s, g.members.Keys, topics)
    ensures Consistent(g, Counts(s, topics))
  {
    hide Assigned, Balanced, Exclusive, AssignmentFor;
    AssignmentForKeys(s, g.members.Keys, topics);
    SameForAll(g, s, topics);
  }

  lemma JoinedGroup(g: GroupState, s: State, member: string, m: MemberState)
    requires AllSubscribeTo(g, m.topics)
    ensures Consistent(Join(g, member, m, Encoded(AssignmentFor(s, g.members.Keys + {member}, m.topics))),
                       Counts(s, m.topics))
  {
    hide Consistent, AssignmentFor, WrapInt32;
    var a := AssignmentFor(s, g.members.Keys + {member}, m.topics);
    AssignmentForKeys(s, g.members.Keys + {member}, m.topics);
    assert member in a.Keys;
    var r := Join(g, member, m, Encoded(a));
    assert r.members.Keys == g.members.Keys + {member};
    AssignedAnew(r, s, m.topics);
  }

  lemma LeftGroup(g: GroupState, s: State, member: string)
    requires SharedTopics(g) && member in g.members
    ensures Consistent(Leave(g, member, Encoded(AssignmentFor(s, g.members.Keys - {member}, g.members[member].topics))),
                       Counts(s, g.members[member].topics))
  {
    hide Consistent, AssignmentFor, WrapInt32;
    var a := AssignmentFor(s, g.members.Keys - {member}, g.members[member].topics);
    AssignmentForKeys(s, g.members.Keys - {member}, g.members[member].topics);
    var r := Leave(g, member, Encoded(a));
    assert r.members.Keys == g.members.Keys - {member};
    assert r.members == map[] ==> a.Keys == {};
    assert SharedTopics(g) ==> AllSubscribeTo(r, g.members[member].topics);
    AssignedAnew(r, s, g.members[member].topics);
  }

  /** After a join the assignment is the range assignment for the partitions its topics then have. */
  lemma JoinKeepsConsistent(limits: Limits, s: State, gid: string, member: string,
      m: MemberState, counts: map<string, nat>)
    requires Consistent(GroupStateOf(s, gid), counts)
    ensures Consistent(GroupStateOf(RequestJoin(limits, s, gid, member, m).0, gid),
                       JoinCounts(limits, s, gid, m, counts))
    ensures JoinReply(limits, s, gid, m).Accepted? ==>
      forall t | t in m.topics ::
        t in s.topics && CountIn(JoinCounts(limits, s, gid, m, counts), t) == s.topics[t].partitionCount
  {
    hide Consistent, AssignmentFor, Apply, GroupStateOf, Join;
    var g := GroupStateOf(s, gid);
    if RequestJoin(limits, s, gid, member, m).1.Accepted? {
      assert AllSubscribeTo(g, m.topics) by {
        assert forall id | id in g.members :: SameTopics(g.members[id], m);
      }
      JoinedGroup(g, s, member, m);
      JoinView(gid, s, member, m, Encoded(AssignmentFor(s, g.members.Keys + {member}, m.topics)));
    }
  }

  /** So it is after a leave, for the topics that still exist. */
  lemma LeaveKeepsConsistent(s: State, gid: string, member: string, counts: map<string, nat>)
    requires Consistent(GroupStateOf(s, gid), counts)
    ensures Consistent(GroupStateOf(RequestLeave(s, gid, member).0, gid), LeaveCounts(s, gid, member, counts))
  {
    var g := GroupStateOf(s, gid);
    assert SharedTopics(g);
    hide Consistent, AssignmentFor, Apply, GroupStateOf, Leave, SharedTopics;
    if member in g.members {
      LeftGroup(g, s, member);
      LeaveView(gid, s, member, Encoded(AssignmentFor(s, g.members.Keys - {member}, g.members[member].topics)));
    }
  }

  /** An accepted join or leave begins the next generation and keeps the committed offsets. */
  ghost predicate NextGenerationOf(g: GroupState, r: GroupState) {
    r.generation == WrapInt32(g.generation + 1) && r.offsets == g.offsets
  }

  lemma JoinEffect(limits: Limits, s: State, gid: string, member: string, m: MemberState)
    ensures var (t, reply) := RequestJoin(limits, s, gid, member, m);
            if reply.Accepted? then NextGenerationOf(GroupStateOf(s, gid), GroupStateOf(t, gid)) else t == s
  {
    hide AssignmentFor, Apply, GroupStateOf, WrapInt32;
    var g := GroupStateOf(s, gid);
    JoinView(gid, s, member, m, Encoded(AssignmentFor(s, g.members.Keys + {member}, m.topics)));
  }

  lemma LeaveEffect(s: State, gid: string, member: string)
    ensures var (t, reply) := RequestLeave(s, gid, member);
            if reply.Accepted? then NextGenerationOf(GroupStateOf(s, gid), GroupStateOf(t, gid)) else t == s
  {
    hide AssignmentFor, Apply, GroupStateOf, WrapInt32;
    var g := GroupStateOf(s, gid);
    if member in g.members {
      LeaveView(gid, s, member, Encoded(AssignmentFor(s, g.members.Keys - {member}, g.members[member].topics)));
    }
  }

  lemma LeaveRemoves(s: State, gid: string, member: string)
    ensures GroupStateOf(RequestLeave(s, gid, member).0, gid).members == GroupStateOf(s, gid).members - {member}
  {
    hide AssignmentFor, Apply, GroupStateOf, WrapInt32;
    var g := GroupStateOf(s, gid);
    if member in g.members {
      LeaveView(gid, s, member, Encoded(AssignmentFor(s, g.members.Keys - {member}, g.members[member].topics)));
    }
  }

  /** Members that subscribe alike have the same partitions counted. */
  lemma SameCounts(s: State, a: MemberState, b: MemberState)
    requires SameTopics(a, b)
    ensures Counts(s, a.topics) == Counts(s, b.topics)
  {
    assert forall t :: t in a.topics <==> t in multiset(a.topics);
    assert forall t :: t in b.topics <==> t in multiset(b.topics);
  }

  lemma LeaveKeepsTopics(s: State, gid: string, member: string)
    ensures RequestLeave(s, gid, member).0.topics == s.topics
  {
    hide AssignmentFor, Leave, GroupWithout;
  }

  // --- What the requests answer -------------------------------------------------------------------

  /**
   The range assignment said of one member and one partition: the topic is listed and exists, and the
   partition lies in the range of as many-th member as there are members before this one.
   */
  ghost predicate InShare(s: State, members: set<string>, topics: seq<string>, id: string, tp: TopicPartition)
    requires id in members
  {
    && tp.topic in topics && tp.topic in s.topics
    && var n, i := s.topics[tp.topic].partitionCount, Rank(members, StringLe, id);
       Cursor(n, |members|, i) <= tp.partition < Cursor(n, |members|, i + 1)
  }

  lemma AssignmentForHolds(s: State, members: set<string>, topics: seq<string>, id: string, tp: TopicPartition)
    requires id in members
    ensures id in AssignmentFor(s, members, topics)
    ensures tp in AssignmentFor(s, members, topics)[id] <==> InShare(s, members, topics, id, tp)
  {
    hide Assigned, Sort, SortedElements, Rank, IndexIn, StringLe, Cursor, Counts, CountIn, Exclusive;
    PlaceInGroup(members, id);
    AssignmentForKeys(s, members, topics);
    AssignedHolds(SortedElements(members, StringLe), topics, Counts(s, topics), id, tp);
    CountOfTopic(s, topics, tp.topic);
    NoRange(|members|, Rank(members, StringLe, id) + 1);
  }

  lemma CountOfTopic(s: State, topics: seq<string>, topic: string)
    ensures CountIn(Counts(s, topics), topic)
         == if topic in topics && topic in s.topics then s.topics[topic].partitionCount else 0
  {
  }

  lemma NoRange(m: nat, i: nat)
    requires m > 0
    ensures Cursor(0, m, i) == 0
  {
  }

  lemma PlaceInGroup(members: set<string>, id: string)
    requires id in members
    ensures var ids := SortedElements(members, StringLe);
      && id in ids && |ids| == |members| && Sort(ids, StringLe) == ids
      && IndexIn(ids, id) == Rank(members, StringLe, id) < |members|
  {
    hide TotalOrder, Sorted, SortedElements, Sort, Rank, IndexIn;
    StringOrder();
    var ids := SortedElements(members, StringLe);
    PlaceIsRank(members, StringLe, id);
    SortSorts(ids, StringLe);
    SortedElementsUnique(members, Sort(ids, StringLe), StringLe);
  }

  /** Every member holds exactly its range of the topics, as they are now. */
  ghost predicate HoldsRanges(s: State, g: GroupState, topics: seq<string>) {
    && g.assignments.Keys == g.members.Keys
    && forall id, tp | id in g.members :: tp in g.assignments[id] <==> InShare(s, g.members.Keys, topics, id, tp)
  }

  lemma RangesHeld(s: State, g: GroupState, topics: seq<string>)
    requires g.assignments == AssignmentFor(s, g.members.Keys, topics)
    ensures HoldsRanges(s, g, topics)
  {
    hide AssignmentFor, InShare;
    AssignmentForKeys(s, g.members.Keys, topics);
    forall id, tp | id in g.members
      ensures tp in g.assignments[id] <==> InShare(s, g.members.Keys, topics, id, tp)
    {
      AssignmentForHolds(s, g.members.Keys, topics, id, tp);
    }
  }

  /** Nothing but the group is different, and it is `g`. */
  predicate OnlyGroup(s: State, t: State, gid: string, g: GroupState) {
    t == s.(groupStates := s.groupStates[gid := g])
  }

  /** What an accepted join leaves behind. */
  ghost predicate JoinedState(s: State, t: State, gid: string, member: string, m: MemberState) {
    var g, r := GroupStateOf(s, gid), GroupStateOf(t, gid);
    && OnlyGroup(s, t, gid, r)
    && r.members == g.members[member := m]
    && r.generation == WrapInt32(g.generation + 1) && r.offsets == g.offsets
    && HoldsRanges(s, r, m.topics)
  }

  lemma JoinAnswer(s: State, gid: string, member: string, m: MemberState)
    ensures var a := AssignmentFor(s, GroupStateOf(s, gid).members.Keys + {member}, m.topics);
      JoinedState(s, Apply(s, JoinGroupState(gid, member, m, Encoded(a))).0, gid, member, m)
  {
    hide AssignmentFor, HoldsRanges, WrapInt32;
    var g := GroupStateOf(s, gid);
    var ids := g.members.Keys + {member};
    var a := AssignmentFor(s, ids, m.topics);
    AssignmentForKeys(s, ids, m.topics);
    assert member in a.Keys;
    var t := Apply(s, JoinGroupState(gid, member, m, Encoded(a))).0;
    var r := GroupStateOf(t, gid);
    assert r.members.Keys == ids && r.assignments == a;
    RangesHeld(s, r, m.topics);
  }

  /** What an accepted leave leaves behind. */
  ghost predicate LeftState(s: State, t: State, gid: string, member: string) {
    var g, r := GroupStateOf(s, gid), GroupStateOf(t, gid);
    && member in g.members
    && OnlyGroup(s, t, gid, r)
    && r.members == g.members - {member}
    && r.generation == WrapInt32(g.generation + 1) && r.offsets == g.offsets
    && HoldsRanges(s, r, g.members[member].topics)
  }

  lemma LeaveAnswer(s: State, gid: string, member: string)
    requires member in GroupStateOf(s, gid).members
    ensures var g := GroupStateOf(s, gid);
      var a := AssignmentFor(s, g.members.Keys - {member}, g.members[member].topics);
      LeftState(s, Apply(s, LeaveGroup(gid, member, Encoded(a))).0, gid, member)
  {
    hide AssignmentFor, HoldsRanges, WrapInt32, GroupWithout;
    var g := GroupStateOf(s, gid);
    var ids := g.members.Keys - {member};
    var a := AssignmentFor(s, ids, g.members[member].topics);
    AssignmentForKeys(s, ids, g.members[member].topics);
    var t := Apply(s, LeaveGroup(gid, member, Encoded(a))).0;
    var r := GroupStateOf(t, gid);
    assert r.members.Keys == ids;
    assert r.members == map[] ==> a.Keys == {};
    assert r.assignments == a;
    RangesHeld(s, r, g.members[member].topics);
  }

  /** The answers to all members together hold every partition that was counted, and no other. */
  lemma AnswersCover(g: GroupState, counts: map<string, nat>, id: string, tp: TopicPartition)
    requires Consistent(g, counts) && id in g.members
    ensures (exists other :: other in g.members && tp in AnswerOf(g, other).partitions)
       <==> tp.topic in g.members[id].topics && tp.partition < CountIn(counts, tp.topic)
  {
    hide Balanced, SharedTopics, Exclusive;
    OwnedIffCounted(g, counts, id, tp);
    if HasOwner(g, tp) {
      var other :| other in g.assignments && tp in g.assignments[other];
      assert other in g.members.Keys && tp in AnswerOf(g, other).partitions;
    }
  }

  /** What an accepted commit leaves behind: the offsets given, and elsewhere what was there. */
  predicate CommittedState(s: State, t: State, gid: string, offsets: map<Key, int>) {
    var g, r := GroupStateOf(s, gid), GroupStateOf(t, gid);
    && OnlyGroup(s, t, gid, r)
    && r.members == g.members && r.generation == g.generation && r.assignments == g.assignments
    && r.offsets.Keys == g.offsets.Keys + offsets.Keys
    && (forall k | k in offsets :: r.offsets[k] == offsets[k])
    && (forall k | k in g.offsets && k !in offsets :: r.offsets[k] == g.offsets[k])
  }

  /** A commit is taken exactly from a member, in the current generation, for partitions that it owns. */
  lemma CommitEffect(s: State, gid: string, member: string, generation: int32, offsets: map<Key, int>)
    ensures var (t, reply) := RequestCommit(s, gid, member, generation, offsets);
            var g := GroupStateOf(s, gid);
            && (reply.Accepted? <==>
                  && member in g.members && generation == g.generation
                  && forall k | k in offsets :: member in g.assignments && k in g.assignments[member])
            && (if reply.Accepted? then
                  CommittedState(s, t, gid, offsets) && GroupStateOf(t, gid) == g.(offsets := g.offsets + offsets)
                else t == s)
  {
  }
}
