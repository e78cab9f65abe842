/** The group coordinator: it keeps the time of each member's last heartbeat and proposes commands. */
module GroupCoordinators {
  import opened Bytes
  import opened Ordering
  import opened RangeAssign
  import opened MetadataModel
  import opened MetadataFsm
  import opened GroupSafety
  import opened GroupModel

  /** Whether two topic lists hold the same topics, each as often. */
  method TopicSetsEqual(a: seq<string>, b: seq<string>) returns (same: bool)
    ensures same <==> multiset(a) == multiset(b)
  {
    hide TotalOrder, Sorted, Sort, StringLe;
    StringOrder();
    if |a| != |b| {
      assert |multiset(a)| == |a| && |multiset(b)| == |b|;
      return false;
    }
    var sa := SortSlice(a, StringLe);
    var sb := SortSlice(b, StringLe);
    SortMembers(a, StringLe);
    SortMembers(b, StringLe);
    if multiset(a) == multiset(b) {
      SortIgnoresOrder(a, b, StringLe);
    }
    for i := 0 to |sa|
      invariant forall j | 0 <= j < i :: sa[j] == sb[j]
    {
      if sa[i] != sb[i] {
        return false;
      }
    }
    assert sa == sb;
    return true;
  }

  /** The partition counts of the topics, or nothing when one of them does not exist. */
  method LookupCounts(s: State, topics: seq<string>) returns (counts: Option<map<string, nat>>)
    ensures counts.None? <==> exists t :: t in topics && t !in s.topics
    ensures counts.Some? ==> counts.value == Counts(s, topics)
  {
    var found: map<string, nat> := map[];
    for i := 0 to |topics|
      invariant forall t | t in topics[..i] :: t in s.topics
      invariant found == Counts(s, topics[..i])
    {
      if topics[i] !in s.topics {
        return None;
      }
      found := found[topics[i] := s.topics[topics[i]].partitionCount];
    }
    assert topics[..|topics|] == topics;
    return Some(found);
  }

  /** The same, leaving out topics that do not exist. */
  method LookupFound(s: State, topics: seq<string>) returns (counts: map<string, nat>)
    ensures counts == Counts(s, topics)
  {
    counts := map[];
    for i := 0 to |topics|
      invariant counts == Counts(s, topics[..i])
    {
      if topics[i] in s.topics {
        counts := counts[topics[i] := s.topics[topics[i]].partitionCount];
      }
    }
    assert topics[..|topics|] == topics;
  }

  /** The members other than one, in whatever order the map yields them. */
  method OtherMembers(members: map<string, MemberState>, member: string) returns (ids: seq<string>)
    ensures Distinct(ids) && multiset(ids) == multiset(members.Keys - {member}) && member !in ids
  {
    var all := Iterate(members.Keys);
    ids := [];
    for i := 0 to |all|
      invariant forall id :: id in ids <==> id in all[..i] && id != member
      invariant Distinct(ids)
    {
      if all[i] != member {
        assert all[i] !in all[..i];
        ids := ids + [all[i]];
      }
    }
    DistinctElements(ids, members.Keys - {member});
  }

  /** The member and the others. */
  method MembersWith(members: map<string, MemberState>, member: string) returns (ids: seq<string>)
    ensures Distinct(ids) && multiset(ids) == multiset(members.Keys + {member})
  {
    var others := OtherMembers(members, member);
    ids := [member] + others;
    assert members.Keys + {member} == (members.Keys - {member}) + {member};
  }

  /** The assignment does not depend on the order in which the members were seen. */
  lemma SeenInAnyOrder(s: State, ids: seq<string>, members: set<string>, topics: seq<string>)
    requires multiset(ids) == multiset(members)
    ensures Assigned(ids, topics, Counts(s, topics)) == AssignmentFor(s, members, topics)
  {
    hide Assigned;
    AssignedIgnoresOrder(ids, topics, SortedElements(members, StringLe), topics, Counts(s, topics));
  }

  /** The refusals in order; the last one and acceptance rest on some one member of the group, if it has any. */
  ghost predicate JudgedByOne(limits: Limits, s: State, gid: string, m: MemberState, reply: Reply) {
    var members := GroupStateOf(s, gid).members;
    if !(limits.sessionTimeoutMinMs <= m.sessionTimeoutMs <= limits.sessionTimeoutMaxMs) then reply == BadTimeout
    else if exists t :: t in m.topics && t !in s.topics then reply == TopicNotFound
    else if members == map[] then reply == Accepted
    else exists id :: id in members && reply == if SameTopics(members[id], m) then Accepted else MixedTopics
  }

  lemma JudgedMeans(limits: Limits, s: State, gid: string, m: MemberState, reply: Reply)
    requires JudgedByOne(limits, s, gid, m, reply)
    ensures reply == BadTimeout <==> !(limits.sessionTimeoutMinMs <= m.sessionTimeoutMs <= limits.sessionTimeoutMaxMs)
    ensures reply == TopicNotFound <==> reply != BadTimeout && exists t :: t in m.topics && t !in s.topics
    ensures var members := GroupStateOf(s, gid).members;
      reply == MixedTopics ==> exists id :: id in members && multiset(members[id].topics) != multiset(m.topics)
    ensures reply in {Accepted, BadTimeout, TopicNotFound, MixedTopics}
  {
    var members := GroupStateOf(s, gid).members;
    if reply == MixedTopics {
      var id :| id in members && reply == if SameTopics(members[id], m) then Accepted else MixedTopics;
      assert multiset(members[id].topics) != multiset(m.topics);
    }
  }

  /** A member's ranges can be read off the state after the change: the topics are the same. */
  lemma HoldsInNew(s: State, t: State, gid: string, g: GroupState, topics: seq<string>, member: string)
    requires OnlyGroup(s, t, gid, g) && HoldsRanges(s, g, topics) && member in g.members
    ensures member in g.assignments
    ensures forall tp :: tp in g.assignments[member] <==> InShare(t, g.members.Keys, topics, member, tp)
  {
    hide Cursor, Rank;
  }

  /** Whether a member may join, judged by one member of the group, and the partition counts of its topics. */
  method Admit(limits: Limits, s: State, gid: string, m: MemberState) returns (reply: Reply, counts: map<string, nat>)
    ensures SharedTopics(GroupStateOf(s, gid)) ==> reply == JoinReply(limits, s, gid, m)
    ensures reply == Accepted ==> counts == Counts(s, m.topics)
    ensures JudgedByOne(limits, s, gid, m, reply)
  {
    if !(limits.sessionTimeoutMinMs <= m.sessionTimeoutMs <= limits.sessionTimeoutMaxMs) {
      return BadTimeout, map[];
    }
    var found := LookupCounts(s, m.topics);
    if found.None? {
      return TopicNotFound, map[];
    }
    hide SameTopics, Counts;
    var agrees := SomeMemberAgrees(GroupStateOf(s, gid), m);
    if !agrees {
      return MixedTopics, map[];
    }
    return Accepted, found.value;
  }

  /** Compares a newcomer's topics with those of whichever member the map yields first. */
  method SomeMemberAgrees(g: GroupState, m: MemberState) returns (agrees: bool)
    ensures g.members == map[] ==> agrees
    ensures g.members != map[] ==> exists id :: id in g.members && agrees == SameTopics(g.members[id], m)
    ensures SharedTopics(g) ==> (agrees <==> forall id | id in g.members :: SameTopics(g.members[id], m))
  {
    if g.members.Keys == {} {
      return true;
    }
    var id :| id in g.members.Keys;
    agrees := TopicSetsEqual(g.members[id].topics, m.topics);
    assert agrees == SameTopics(g.members[id], m);
    assert SharedTopics(g) ==> forall other | other in g.members :: SameTopics(g.members[other], g.members[id]);
  }

  function Beat(table: map<string, map<string, int>>, group: string, member: string,
      now: int): map<string, map<string, int>> {
    table[group := (if group in table then table[group] else map[])[member := now]]
  }

  function Unbeat(table: map<string, map<string, int>>, group: string, member: string): map<string, map<string, int>> {
    if group in table then table[group := table[group] - {member}] else table
  }

  /** One member's last heartbeat is `beat`, or there is none; every other member's is what it was. */
  ghost predicate OnlyBeat(before: map<string, map<string, int>>, after: map<string, map<string, int>>,
      group: string, member: string, beat: Option<int>)
  {
    forall g, id :: LastBeat(after, g, id) == if g == group && id == member then beat else LastBeat(before, g, id)
  }

  /** The heartbeats of these members of the group are gone, every other one is what it was. */
  ghost predicate BeatsLeft(before: map<string, map<string, int>>, after: map<string, map<string, int>>,
      group: string, gone: set<string>)
  {
    forall g, id :: LastBeat(after, g, id) == if g == group && id in gone then None else LastBeat(before, g, id)
  }

  /** No other group and nothing else of the metadata is different. */
  predicate OtherwiseSame(s: State, t: State, gid: string) {
    t == s.(groupStates := t.groupStates) && t.groupStates - {gid} == s.groupStates - {gid}
  }

  lemma BeatIsOnly(table: map<string, map<string, int>>, group: string, member: string, now: int)
    ensures OnlyBeat(table, Beat(table, group, member, now), group, member, Some(now))
    ensures OnlyBeat(table, Unbeat(table, group, member), group, member, None)
  {
  }

  class GroupCoordinator {
    const limits: Limits
    const fsm: MetadataFSM
    var lastHeartbeat: map<string, map<string, int>>

    constructor (limits: Limits, fsm: MetadataFSM)
      ensures this.limits == limits && this.fsm == fsm && lastHeartbeat == map[]
    {
      this.limits, this.fsm, lastHeartbeat := limits, fsm, map[];
    }

    ghost function Group(gid: string): GroupState
      reads this, fsm
    {
      GroupStateOf(fsm.Value(), gid)
    }

    /**
     Admits a member. Only one member's topics are compared with the newcomer's; in a group whose
     members all subscribe alike that is as good as comparing all of them.
     */
    method JoinGroup(gid: string, member: string, m: MemberState, now: int) returns (reply: Reply, response: Response)
      modifies this, fsm
      ensures SharedTopics(old(Group(gid))) ==>
        (fsm.Value(), reply) == RequestJoin(limits, old(fsm.Value()), gid, member, m)
      ensures JudgedByOne(limits, old(fsm.Value()), gid, m, reply)
      ensures reply == BadTimeout <==> !(limits.sessionTimeoutMinMs <= m.sessionTimeoutMs <= limits.sessionTimeoutMaxMs)
      ensures reply == TopicNotFound <==> reply != BadTimeout && exists t :: t in m.topics && t !in old(fsm.topics)
      ensures reply == MixedTopics ==>
        exists id :: id in old(Group(gid)).members && multiset(old(Group(gid)).members[id].topics) != multiset(m.topics)
      ensures reply in {Accepted, BadTimeout, TopicNotFound, MixedTopics}
      ensures reply == Accepted ==>
        && JoinedState(old(fsm.Value()), fsm.Value(), gid, member, m)
        && OnlyBeat(old(lastHeartbeat), lastHeartbeat, gid, member, Some(now))
        && response.member == member && response.generation == Group(gid).generation
        && member in Group(gid).assignments && response.partitions == Group(gid).assignments[member]
        && forall tp :: tp in response.partitions
                   <==> InShare(fsm.Value(), Group(gid).members.Keys, m.topics, member, tp)
      ensures reply == Accepted ==>
        fsm.Value() == Apply(old(fsm.Value()), JoinGroupState(gid, member, m,
                             Encoded(AssignmentFor(old(fsm.Value()),
                                                   old(Group(gid)).members.Keys + {member}, m.topics)))).0
      ensures reply == Accepted ==>
        && response == AnswerOf(Group(gid), member)
        && lastHeartbeat == Beat(old(lastHeartbeat), gid, member, now)
      ensures reply != Accepted ==> fsm.Value() == old(fsm.Value()) && lastHeartbeat == old(lastHeartbeat)
    {
      hide Assigned, AssignmentFor, Apply, JoinReply, SharedTopics, JudgedByOne, InShare, OnlyBeat, Beat;
      var counts;
      reply, counts := Admit(limits, fsm.Value(), gid, m);
      JudgedMeans(limits, fsm.Value(), gid, m, reply);
      response := Response(member, 0, []);
      if reply != Accepted {
        return;
      }
      JoinAnswer(fsm.Value(), gid, member, m);
      BeatIsOnly(lastHeartbeat, gid, member, now);
      ProposeJoin(gid, member, m, counts);
      var g := GroupStateOf(fsm.Value(), gid);
      response := AnswerOf(g, member);
      lastHeartbeat := Beat(lastHeartbeat, gid, member, now);
      HoldsInNew(old(fsm.Value()), fsm.Value(), gid, g, m.topics, member);
    }

    method ProposeJoin(gid: string, member: string, m: MemberState, counts: map<string, nat>)
      requires counts == Counts(fsm.Value(), m.topics)
      modifies fsm
      ensures fsm.Value()
           == Apply(old(fsm.Value()), JoinGroupState(gid, member, m,
                    Encoded(AssignmentFor(old(fsm.Value()), old(Group(gid)).members.Keys + {member}, m.topics)))).0
    {
      hide Assigned, AssignmentFor, Apply, Distinct;
      var g := GroupStateOf(fsm.Value(), gid);
      var ids := MembersWith(g.members, member);
      SeenInAnyOrder(fsm.Value(), ids, g.members.Keys + {member}, m.topics);
      var a := Assign(ids, m.topics, counts);
      var _ := fsm.JoinGroupState(gid, member, m, Encoded(a));
    }

    method LeaveGroup(gid: string, member: string) returns (reply: Reply)
      modifies this, fsm
      ensures (fsm.Value(), reply) == RequestLeave(old(fsm.Value()), gid, member)
      ensures lastHeartbeat == if reply == Accepted then Unbeat(old(lastHeartbeat), gid, member) else old(lastHeartbeat)
      ensures reply == if member in old(Group(gid)).members then Accepted else NotGroupMember
      ensures reply == Accepted ==>
        && LeftState(old(fsm.Value()), fsm.Value(), gid, member)
        && OnlyBeat(old(lastHeartbeat), lastHeartbeat, gid, member, None)
      ensures reply != Accepted ==> fsm.Value() == old(fsm.Value()) && lastHeartbeat == old(lastHeartbeat)
    {
      hide Assigned, AssignmentFor, OnlyBeat, Unbeat, LeftState, Apply;
      var g := GroupStateOf(fsm.Value(), gid);
      if member !in g.members {
        return NotGroupMember;
      }
      LeaveAnswer(fsm.Value(), gid, member);
      BeatIsOnly(lastHeartbeat, gid, member, 0);
      var ids := OtherMembers(g.members, member);
      var topics := g.members[member].topics;
      var counts := LookupFound(fsm.Value(), topics);
      SeenInAnyOrder(fsm.Value(), ids, g.members.Keys - {member}, topics);
      var a := Assign(ids, topics, counts);
      var _ := fsm.LeaveGroup(gid, member, Encoded(a));
      lastHeartbeat := Unbeat(lastHeartbeat, gid, member);
      return Accepted;
    }

    /**
     Takes a commit from a member, in the current generation, for partitions that are assigned to it, and
     from nobody else. What is taken is stored, over what was there.
     */
    method CommitOffset(gid: string, member: string, generation: int32, offsets: map<Key, int>) returns (reply: Reply)
      modifies fsm
      ensures (fsm.Value(), reply) == RequestCommit(old(fsm.Value()), gid, member, generation, offsets)
      ensures reply == NotGroupMember <==> member !in old(Group(gid)).members
      ensures reply == StaleGeneration
         <==> member in old(Group(gid)).members && generation != old(Group(gid)).generation
      ensures reply == NotAssigned
         <==> && member in old(Group(gid)).members && generation == old(Group(gid)).generation
              && exists k :: k in offsets && !(var a := old(Group(gid)).assignments; member in a && k in a[member])
      ensures reply == Accepted
         <==> && member in old(Group(gid)).members && generation == old(Group(gid)).generation
              && forall k | k in offsets :: var a := old(Group(gid)).assignments; member in a && k in a[member]
      ensures reply == Accepted ==> CommittedState(old(fsm.Value()), fsm.Value(), gid, offsets)
      ensures reply != Accepted ==> fsm.Value() == old(fsm.Value())
    {
      CommitEffect(fsm.Value(), gid, member, generation, offsets);
      var g := GroupStateOf(fsm.Value(), gid);
      if member !in g.members {
        return NotGroupMember;
      }
      if generation != g.generation {
        return StaleGeneration;
      }
      var mine := if member in g.assignments then g.assignments[member] else [];
      var ks := Iterate(offsets.Keys);
      for i := 0 to |ks|
        invariant forall j | 0 <= j < i :: Owns(g, member, ks[j])
      {
        if ks[i] !in mine {
          assert !Owns(g, member, ks[i]);
          return NotAssigned;
        }
      }
      assert forall k | k in offsets :: k in ks;
      var _ := fsm.CommitGroupOffsets(gid, offsets);
      return Accepted;
    }

    /** Notes the heartbeat of a member, and says whether it is behind. */
    method Heartbeat(gid: string, member: string, generation: int32, now: int) returns (reply: Reply, rebalance: bool)
      modifies this
      ensures reply == if member in Group(gid).members then Accepted else NotGroupMember
      ensures rebalance <==> member in Group(gid).members && Group(gid).generation > generation
      ensures lastHeartbeat
           == if reply == Accepted then Beat(old(lastHeartbeat), gid, member, now) else old(lastHeartbeat)
      ensures reply == Accepted ==> OnlyBeat(old(lastHeartbeat), lastHeartbeat, gid, member, Some(now))
    {
      BeatIsOnly(lastHeartbeat, gid, member, now);
      var g := GroupStateOf(fsm.Value(), gid);
      if member !in g.members {
        return NotGroupMember, false;
      }
      lastHeartbeat := Beat(lastHeartbeat, gid, member, now);
      return Accepted, g.generation > generation;
    }

    method Evict(gid: string, member: string, ghost counts: map<string, nat>) returns (ghost based: map<string, nat>)
      requires member in Group(gid).members
      modifies this, fsm
      ensures based == LeaveCounts(old(fsm.Value()), gid, member, counts)
      ensures old(Consistent(Group(gid), counts)) ==> Consistent(Group(gid), based)
      ensures Group(gid).offsets == old(Group(gid).offsets) && Group(gid).members == old(Group(gid).members) - {member}
      ensures fsm.Value().topics == old(fsm.Value()).topics && lastHeartbeat == Unbeat(old(lastHeartbeat), gid, member)
      ensures OnlyBeat(old(lastHeartbeat), lastHeartbeat, gid, member, None)
      ensures OnlyGroup(old(fsm.Value()), fsm.Value(), gid, Group(gid))
      ensures Group(gid).generation == WrapInt32(old(Group(gid)).generation + 1)
    {
      hide Consistent, GroupStateOf, LeaveCounts, Unbeat, AssignmentFor, Apply, OnlyBeat, HoldsRanges, WrapInt32;
      LeaveRemoves(fsm.Value(), gid, member);
      LeaveEffect(fsm.Value(), gid, member);
      if Consistent(Group(gid), counts) {
        LeaveKeepsConsistent(fsm.Value(), gid, member, counts);
      }
      LeaveKeepsTopics(fsm.Value(), gid, member);
      based := LeaveCounts(fsm.Value(), gid, member, counts);
      var reply := LeaveGroup(gid, member);
    }

    /**
     The sweep of one group: evicts, one after the other, the members whose session ran out. If the
     group had a range assignment, whoever is left has that for the partitions that the topics have now.
     Every eviction begins a generation; the heartbeats of the others stand, and so does every other group.
     */
    method SweepGroup(gid: string, now: int, ghost counts: map<string, nat>)
      modifies this, fsm
      ensures Group(gid).offsets == old(Group(gid).offsets)
      ensures Group(gid).members
           == Alive(old(lastHeartbeat), gid, old(Group(gid).members), old(Group(gid).members.Keys), now)
      ensures forall id | id in old(Group(gid)).members ::
        id !in Group(gid).members
        <==> && gid in old(lastHeartbeat) && id in old(lastHeartbeat)[gid]
             && now - old(lastHeartbeat)[gid][id] > old(Group(gid)).members[id].sessionTimeoutMs
      ensures forall id | id in Group(gid).members ::
        id in old(Group(gid)).members && Group(gid).members[id] == old(Group(gid)).members[id]
      ensures Group(gid).generation
           == WrapInt32(old(Group(gid)).generation + |old(Group(gid)).members.Keys| - |Group(gid).members.Keys|)
      ensures OtherwiseSame(old(fsm.Value()), fsm.Value(), gid)
      ensures BeatsLeft(old(lastHeartbeat), lastHeartbeat, gid,
                        old(Group(gid)).members.Keys - Group(gid).members.Keys)
      ensures old(Consistent(Group(gid), counts)) && Group(gid).members == old(Group(gid).members) ==>
        Consistent(Group(gid), counts)
      ensures old(Consistent(Group(gid), counts)) && Group(gid).members != old(Group(gid).members) ==>
        forall id | id in old(Group(gid).members) ::
          Consistent(Group(gid), Counts(old(fsm.Value()), old(Group(gid).members)[id].topics))
    {
      hide Consistent, GroupStateOf, Counts, Rebased, WrapInt32, BeatsLeft, OtherwiseSame, Alive;
      ghost var before, start, table := fsm.Value(), Group(gid), lastHeartbeat;
      ghost var based := SweepMembers(gid, now, counts);
      RebasedFacts(before, start, Group(gid), counts, based);
      AliveMeans(table, gid, start.members, now);
    }

    method SweepMembers(gid: string, now: int, ghost counts: map<string, nat>) returns (ghost based: map<string, nat>)
      modifies this, fsm
      ensures Rebased(old(fsm.Value()), old(Group(gid)), Group(gid), counts, based)
      ensures Swept(old(fsm.Value()), fsm.Value(), gid, old(lastHeartbeat), lastHeartbeat)
      ensures Group(gid).members
           == Alive(old(lastHeartbeat), gid, old(Group(gid).members), old(Group(gid).members.Keys), now)
    {
      hide Consistent, GroupStateOf, LeaveCounts, Counts, Rebased, Swept, WrapInt32, OnlyBeat, OnlyGroup;
      ghost var members, table, before := Group(gid).members, lastHeartbeat, fsm.Value();
      based := counts;
      NotRebased(before, Group(gid), counts);
      var current := GroupStateOf(fsm.Value(), gid).members;
      var ids := Iterate(current.Keys);
      NobodyVisited(table, gid, members, now);
      SweptNobody(before, gid, table);
      for i := 0 to |ids|
        invariant Rebased(before, old(Group(gid)), Group(gid), counts, based)
        invariant Swept(before, fsm.Value(), gid, table, lastHeartbeat)
        invariant Group(gid).members == Alive(table, gid, members, Elements(ids[..i]), now)
      {
        ElementsSnoc(ids, i);
        VisitNext(table, gid, members, Elements(ids[..i]), ids[i], now);
        SweptBeat(before, fsm.Value(), gid, table, lastHeartbeat, ids[i]);
        var last := LastBeat(lastHeartbeat, gid, ids[i]);
        if last.Some? && now - last.value > current[ids[i]].sessionTimeoutMs {
          ghost var s, was, beats := fsm.Value(), based, lastHeartbeat;
          based := Evict(gid, ids[i], based);
          SweptStep(before, s, fsm.Value(), gid, ids[i], table, beats, lastHeartbeat);
          RebasedStep(before, old(Group(gid)), s, gid, ids[i], Group(gid), counts, was, based);
        }
      }
      assert Elements(ids[..|ids|]) == members.Keys;
    }
  }

  /**
   A group that started with a range assignment for `counts` has one for `based`: `counts` as long as
   nobody was evicted, and afterwards what any member's topics had when the sweep began.
   */
  ghost predicate Rebased(before: State, start: GroupState, g: GroupState, counts: map<string, nat>,
      based: map<string, nat>)
  {
    Consistent(start, counts) ==>
      && Consistent(g, based)
      && if g.members == start.members then based == counts
         else forall id | id in start.members :: based == Counts(before, start.members[id].topics)
  }

  lemma NotRebased(before: State, start: GroupState, counts: map<string, nat>)
    ensures Rebased(before, start, start, counts, counts)
  {
    hide Consistent;
  }

  lemma RebasedFacts(before: State, start: GroupState, g: GroupState, counts: map<string, nat>,
      based: map<string, nat>)
    requires Rebased(before, start, g, counts, based)
    ensures Consistent(start, counts) && g.members == start.members ==> Consistent(g, counts)
    ensures Consistent(start, counts) && g.members != start.members ==>
      forall id | id in start.members :: Consistent(g, Counts(before, start.members[id].topics))
  {
    hide Consistent, Counts;
  }

  lemma ConsistentFacts(g: GroupState, counts: map<string, nat>)
    requires Consistent(g, counts)
    ensures SharedTopics(g)
  {
  }

  lemma CountsFromTopics(s: State, t: State, topics: seq<string>)
    requires s.topics == t.topics
    ensures Counts(s, topics) == Counts(t, topics)
  {
  }

  /** How far a sweep has moved the generation, and whose heartbeats are gone. */
  ghost predicate MembersSwept(started: int32, generation: int32, start: set<string>, left: set<string>, gid: string,
      table: map<string, map<string, int>>, beats: map<string, map<string, int>>)
  {
    generation == WrapInt32(started + |start| - |left|) && BeatsLeft(table, beats, gid, start - left)
  }

  ghost predicate Swept(before: State, s: State, gid: string, table: map<string, map<string, int>>,
      beats: map<string, map<string, int>>)
  {
    var start, g := GroupStateOf(before, gid), GroupStateOf(s, gid);
    && OtherwiseSame(before, s, gid) && g.offsets == start.offsets
    && MembersSwept(start.generation, g.generation, start.members.Keys, g.members.Keys, gid, table, beats)
  }

  lemma SweptNobody(before: State, gid: string, table: map<string, map<string, int>>)
    ensures Swept(before, before, gid, table, table)
  {
    WrapInt32Identity(GroupStateOf(before, gid).generation);
  }

  /** Whoever is still in the group has the heartbeat that it had when the sweep began. */
  lemma SweptBeat(before: State, s: State, gid: string, table: map<string, map<string, int>>,
      beats: map<string, map<string, int>>, id: string)
    requires Swept(before, s, gid, table, beats) && id in GroupStateOf(s, gid).members
    ensures LastBeat(beats, gid, id) == LastBeat(table, gid, id) && s.topics == before.topics
  {
    hide WrapInt32, GroupStateOf;
  }

  lemma SweptStep(before: State, s: State, t: State, gid: string, member: string,
      table: map<string, map<string, int>>, beats: map<string, map<string, int>>, after: map<string, map<string, int>>)
    requires Swept(before, s, gid, table, beats)
    requires OnlyGroup(s, t, gid, GroupStateOf(t, gid)) && OnlyBeat(beats, after, gid, member, None)
    requires member in GroupStateOf(s, gid).members && member in GroupStateOf(before, gid).members
    requires GroupStateOf(t, gid).members == GroupStateOf(s, gid).members - {member}
    requires GroupStateOf(t, gid).offsets == GroupStateOf(s, gid).offsets
    requires GroupStateOf(t, gid).generation == WrapInt32(GroupStateOf(s, gid).generation + 1)
    ensures Swept(before, t, gid, table, after)
  {
    hide WrapInt32, GroupStateOf, OnlyBeat, OtherwiseSame, OnlyGroup, MembersSwept;
    OtherwiseStep(before, s, t, gid, GroupStateOf(t, gid));
    var start, g, r := GroupStateOf(before, gid), GroupStateOf(s, gid), GroupStateOf(t, gid);
    assert r.members.Keys == g.members.Keys - {member};
    MembersSweptStep(start.generation, g.generation, start.members.Keys, g.members.Keys, gid, member,
                     table, beats, after);
  }

  lemma MembersSweptStep(started: int32, generation: int32, start: set<string>, left: set<string>, gid: string,
      member: string, table: map<string, map<string, int>>, beats: map<string, map<string, int>>,
      after: map<string, map<string, int>>)
    requires MembersSwept(started, generation, start, left, gid, table, beats)
    requires OnlyBeat(beats, after, gid, member, None) && member in left && member in start
    ensures MembersSwept(started, WrapInt32(generation + 1), start, left - {member}, gid, table, after)
  {
    hide WrapInt32, BeatsLeft, OnlyBeat;
    NextGenerationWraps(started + |start| - |left|);
    BeatsLeftStep(table, beats, after, gid, member, start - left);
    assert start - (left - {member}) == start - left + {member};
  }

  lemma OtherwiseStep(before: State, s: State, t: State, gid: string, g: GroupState)
    requires OtherwiseSame(before, s, gid) && OnlyGroup(s, t, gid, g)
    ensures OtherwiseSame(before, t, gid)
  {
  }

  lemma NextGenerationWraps(x: int)
    ensures WrapInt32(WrapInt32(x) + 1) == WrapInt32(x + 1)
  {
  }

  lemma BeatsLeftStep(table: map<string, map<string, int>>, beats: map<string, map<string, int>>,
      after: map<string, map<string, int>>, group: string, member: string, gone: set<string>)
    requires BeatsLeft(table, beats, group, gone) && OnlyBeat(beats, after, group, member, None)
    ensures BeatsLeft(table, after, group, gone + {member})
  {
    hide LastBeat;
  }

  lemma AliveMeans(table: map<string, map<string, int>>, group: string, members: map<string, MemberState>, now: int)
    ensures var alive := Alive(table, group, members, members.Keys, now);
      && (forall id | id in members ::
            id !in alive <==> && group in table && id in table[group]
                              && now - table[group][id] > members[id].sessionTimeoutMs)
      && (forall id | id in alive :: id in members && alive[id] == members[id])
  {
  }

  /** Whoever is evicted, the same partitions are counted. */
  lemma RebasedStep(before: State, start: GroupState, s: State, gid: string, member: string, g: GroupState,
      counts: map<string, nat>, was: map<string, nat>, based: map<string, nat>)
    requires s.topics == before.topics && member in start.members && member in GroupStateOf(s, gid).members
    requires GroupStateOf(s, gid).members[member] == start.members[member]
    requires Rebased(before, start, GroupStateOf(s, gid), counts, was) && member !in g.members
    requires based == LeaveCounts(s, gid, member, was)
    requires Consistent(GroupStateOf(s, gid), was) ==> Consistent(g, based)
    ensures Rebased(before, start, g, counts, based)
  {
    hide Consistent, GroupStateOf, Counts;
    if Consistent(start, counts) {
      ConsistentFacts(start, counts);
      CountsFromTopics(s, before, start.members[member].topics);
      forall id | id in start.members ensures based == Counts(before, start.members[id].topics) {
        SameCounts(before, start.members[member], start.members[id]);
      }
    }
  }

  function LastBeat(table: map<string, map<string, int>>, group: string, member: string): Option<int> {
    if group in table && member in table[group] then Some(table[group][member]) else None
  }

  predicate Expired(table: map<string, map<string, int>>, group: string, member: string, m: MemberState, now: int) {
    LastBeat(table, group, member).Some? && now - LastBeat(table, group, member).value > m.sessionTimeoutMs
  }

  /** The members but for those visited whose session ran out. */
  function Alive(table: map<string, map<string, int>>, group: string, members: map<string, MemberState>,
      visited: set<string>, now: int)
    : map<string, MemberState>
  {
    map id | id in members && !(id in visited && Expired(table, group, id, members[id], now)) :: members[id]
  }

  lemma NobodyVisited(table: map<string, map<string, int>>, group: string, members: map<string, MemberState>, now: int)
    ensures Alive(table, group, members, {}, now) == members
  {
  }

  lemma VisitNext(table: map<string, map<string, int>>, group: string, members: map<string, MemberState>,
      visited: set<string>, id: string, now: int)
    requires id in members
    ensures Alive(table, group, members, visited + {id}, now)
         == if Expired(table, group, id, members[id], now) then Alive(table, group, members, visited, now) - {id}
            else Alive(table, group, members, visited, now)
  {
  }
}
