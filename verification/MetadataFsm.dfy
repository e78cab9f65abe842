/** The metadata state machine: its maps and its shard counter, changed in place by every command. */
module MetadataFsm {
  import opened Bytes
  import opened Ordering
  import opened RangeAssign
  import opened MetadataModel
  import opened Rebalance

  ghost function Run(s: State, cmds: seq<Command>): State {
    if |cmds| == 0 then s else Apply(Run(s, cmds[..|cmds| - 1]), cmds[|cmds| - 1]).0
  }

  lemma NextPartition(name: string, from: nat, to: nat, shard: nat, replicas: seq<seq<nat>>)
    requires from <= to
    ensures NewPartitions(name, from, to + 1, shard, replicas)
         == NewPartitions(name, from, to, shard, replicas)
              [TopicPartition(name, to) := Partition(shard + to - from, ReplicasAt(replicas, to - from), 0, 0)]
  {
    hide ReplicasAt;
  }

  lemma NoPartitions(name: string, from: nat, shard: nat, replicas: seq<seq<nat>>)
    ensures NewPartitions(name, from, from, shard, replicas) == map[]
  {
  }

  /** Merges the offsets, in whatever order the map yields them. */
  method MergeOffsets(before: map<Key, int>, offsets: map<Key, int>) returns (merged: map<Key, int>)
    ensures merged == before + offsets
  {
    merged := before;
    var left := offsets.Keys;
    while left != {}
      invariant left <= offsets.Keys && merged.Keys == before.Keys + (offsets.Keys - left)
      invariant forall k | k in merged :: merged[k] == if k in offsets && k !in left then offsets[k] else before[k]
      decreases |left|
    {
      var k :| k in left;
      merged := merged[k := offsets[k]];
      left := left - {k};
    }
  }

  method WithoutMember(before: GroupState, member: string, assignment: Option<Assignment>) returns (g: GroupState)
    requires member in before.members
    ensures g == Leave(before, member, assignment)
    ensures LeftWith(before, g, member, assignment)
  {
    hide WrapInt32;
    g := before.(members := before.members - {member});
    g := g.(assignments := if assignment.Some? then assignment.value else map[]);
    g := g.(generation := WrapInt32(g.generation + 1));
    if |g.members| == 0 {
      g := g.(assignments := map[]);
    }
  }

  // --- What the commands promise, in terms of the state ------------------------------------------

  /**
   Partitions `from` up to `to` of the topic are there, on consecutive shards from `shard` on, each with its
   replicas as far as they are given, without a leader and in epoch zero. The others are what they were.
   */
  ghost predicate PartitionsAdded(before: map<Key, Partition>, after: map<Key, Partition>, name: string, from: nat,
      to: nat, shard: nat, replicas: seq<seq<nat>>)
    requires from <= to
  {
    && (forall k :: k in after <==> k in before || (k.topic == name && from <= k.partition < to))
    && (forall k | k in before && !(k.topic == name && from <= k.partition < to) :: after[k] == before[k])
    && forall p: nat | from <= p < to ::
         var q := after[TopicPartition(name, p)];
         && q.shard == shard + (p - from) && q.leader == 0 && q.epoch == 0
         && q.replicas == if p - from < |replicas| then replicas[p - from] else []
  }

  lemma AddedPartitions(before: map<Key, Partition>, name: string, from: nat, to: nat, shard: nat,
      replicas: seq<seq<nat>>)
    requires from <= to
    ensures PartitionsAdded(before, before + NewPartitions(name, from, to, shard, replicas), name, from, to,
                            shard, replicas)
  {
    var added := NewPartitions(name, from, to, shard, replicas);
    forall k ensures k in added <==> k.topic == name && from <= k.partition < to {
      if k.topic == name && from <= k.partition < to {
        assert k == TopicPartition(name, k.partition);
      }
    }
  }

  /** The member is gone, the assignment is the one sent along if there is anyone left, the offsets stand. */
  predicate LeftWith(before: GroupState, after: GroupState, member: string, assignment: Option<Assignment>) {
    && after.members == before.members - {member}
    && after.generation == WrapInt32(before.generation + 1)
    && after.offsets == before.offsets
    && after.assignments == if after.members != map[] && assignment.Some? then assignment.value else map[]
  }

  /** Entry `i` is the last one for its key. */
  predicate IsLast(offsets: seq<(Key, int)>, i: nat) {
    i < |offsets| && forall j | i < j < |offsets| :: offsets[j].0 != offsets[i].0
  }

  predicate Mentions(offsets: seq<(Key, int)>, k: Key) {
    exists i :: 0 <= i < |offsets| && offsets[i].0 == k
  }

  /** The last entry for a key stands, and without one what was there. */
  predicate LastWins(before: map<Key, int>, after: map<Key, int>, offsets: seq<(Key, int)>) {
    && (forall k | k in before && !Mentions(offsets, k) :: k in after && after[k] == before[k])
    && (forall k | k in after :: k in before || Mentions(offsets, k))
    && forall i | 0 <= i < |offsets| && IsLast(offsets, i) ::
         offsets[i].0 in after && after[offsets[i].0] == offsets[i].1
  }

  lemma {:induction false} CommittedLastWins(before: map<Key, int>, offsets: seq<(Key, int)>)
    ensures LastWins(before, Committed(before, offsets), offsets)
  {
    if |offsets| > 0 {
      var n := |offsets| - 1;
      CommittedLastWins(before, offsets[..n]);
      OneMoreWins(before, Committed(before, offsets[..n]), offsets);
    }
  }

  lemma OneMoreWins(before: map<Key, int>, middle: map<Key, int>, offsets: seq<(Key, int)>)
    requires |offsets| > 0 && LastWins(before, middle, offsets[..|offsets| - 1])
    ensures LastWins(before, middle[offsets[|offsets| - 1].0 := offsets[|offsets| - 1].1], offsets)
  {
    hide Mentions, IsLast;
    var n := |offsets| - 1;
    var after := middle[offsets[n].0 := offsets[n].1];
    forall k | k in before && !Mentions(offsets, k) ensures k in after && after[k] == before[k] {
      MentionsMore(offsets, k);
    }
    forall k | k in after ensures k in before || Mentions(offsets, k) {
      MentionsMore(offsets, k);
    }
    forall i | 0 <= i < |offsets| && IsLast(offsets, i)
      ensures offsets[i].0 in after && after[offsets[i].0] == offsets[i].1
    {
      if i < n {
        LastBefore(offsets, i);
        assert offsets[..n][i] == offsets[i];
      }
    }
  }

  lemma LastBefore(offsets: seq<(Key, int)>, i: nat)
    requires i < |offsets| - 1 && IsLast(offsets, i)
    ensures IsLast(offsets[..|offsets| - 1], i) && offsets[i].0 != offsets[|offsets| - 1].0
  {
  }

  lemma MentionsMore(offsets: seq<(Key, int)>, k: Key)
    requires |offsets| > 0
    ensures var n := |offsets| - 1; Mentions(offsets, k) <==> Mentions(offsets[..n], k) || k == offsets[n].0
  {
    var n := |offsets| - 1;
    if Mentions(offsets, k) && k != offsets[n].0 {
      var i :| 0 <= i < |offsets| && offsets[i].0 == k;
      assert offsets[..n][i].0 == k;
    }
    if Mentions(offsets[..n], k) {
      var i :| 0 <= i < n && offsets[..n][i].0 == k;
      assert offsets[i].0 == k;
    }
  }

  /** What a group owns does not depend on the groups that are stored. */
  lemma SlicesStand(s: State, g: Group, group: string)
    requires HoldsSlices(s, g)
    ensures HoldsSlices(s.(groups := s.groups[group := NextGeneration(g)]), NextGeneration(g))
  {
    hide Within, MembersBefore, KeysBefore, WrapInt32;
    var t := s.(groups := s.groups[group := NextGeneration(g)]);
    assert Wanted(t, g.members) == Wanted(s, g.members);
    forall id, k | id in g.members
      ensures k in g.members[id].owned <==> InSlice(t, g.members, id, k)
    {
      assert InSlice(s, g.members, id, k) <==> InSlice(t, g.members, id, k);
    }
  }

  /** The number that a text of digits stands for. */
  function ValueOf(text: string): nat {
    if |text| == 0 then 0
    else
      var d := text[|text| - 1] as int - '0' as int;
      ValueOf(text[..|text| - 1]) * 10 + if 0 <= d < 10 then d else 0
  }

  predicate Digits(text: string) {
    |text| > 0 && (forall i | 0 <= i < |text| :: '0' <= text[i] <= '9') && (|text| > 1 ==> text[0] != '0')
  }

  /** "member-", the host, "-" and the number in decimal. */
  ghost predicate GeneratedId(id: string, clientHost: string, joinedAtMs: int) {
    exists text :: Digits(text)
      && id == "member-" + clientHost + "-" + (if joinedAtMs < 0 then "-" else "") + text
      && ValueOf(text) == if joinedAtMs < 0 then -joinedAtMs else joinedAtMs
  }

  lemma {:induction false} DecimalReadsBack(n: nat)
    ensures Digits(Decimal(n)) && ValueOf(Decimal(n)) == n
    ensures n > 0 ==> Decimal(n)[0] != '0'
  {
    if n < 10 {
      assert Decimal(n)[..0] == "";
    } else {
      DecimalReadsBack(n / 10);
      var t := Decimal(n / 10);
      assert Decimal(n) == t + [Digit(n % 10)];
      assert Decimal(n)[..|t|] == t;
    }
  }

  lemma MemberIdIs(member: string, clientHost: string, joinedAtMs: int)
    ensures var id := MemberId(member, clientHost, joinedAtMs);
      if member != "" then id == member else GeneratedId(id, clientHost, joinedAtMs)
  {
    hide Decimal, ValueOf, Digits;
    var text := Decimal(if joinedAtMs < 0 then -joinedAtMs else joinedAtMs);
    DecimalReadsBack(if joinedAtMs < 0 then -joinedAtMs else joinedAtMs);
    if member == "" {
      var id := MemberId(member, clientHost, joinedAtMs);
      assert id == "member-" + clientHost + "-" + (if joinedAtMs < 0 then "-" else "") + text;
    }
  }

  class MetadataFSM {
    var topics: map<string, Topic>
    var partitions: map<Key, Partition>
    var nodes: map<nat, string>
    var groups: map<string, Group>
    var groupStates: map<string, GroupState>
    var nextShard: nat

    function Value(): State
      reads this
    {
      State(topics, partitions, nodes, groups, groupStates, nextShard)
    }

    constructor ()
      ensures Value() == INITIAL
      ensures topics == map[] && partitions == map[] && nodes == map[] && groups == map[] && groupStates == map[]
      ensures nextShard == 1
    {
      topics, partitions, nodes, groups, groupStates, nextShard := map[], map[], map[], map[], map[], 1;
    }

    method CreateTopic(name: string, count: int, factor: int, retentionMs: int, retentionBytes: int,
        createdAtMs: int, replicas: seq<seq<nat>>)
      returns (r: Outcome)
      modifies this
      ensures (Value(), r)
           == Apply(old(Value()),
                    Command.CreateTopic(name, count, factor, retentionMs, retentionBytes, createdAtMs, replicas))
      ensures r == if name in old(topics) then AlreadyExists
                   else if count <= 0 || factor <= 0 || |replicas| != count then InvalidArg
                   else Ok
      ensures r != Ok ==> Value() == old(Value())
      ensures r == Ok ==>
        && topics == old(topics)[name := Topic(count, factor, retentionMs, retentionBytes, createdAtMs)]
        && nextShard == old(nextShard) + count
        && PartitionsAdded(old(partitions), partitions, name, 0, count, old(nextShard), replicas)
        && nodes == old(nodes) && groups == old(groups) && groupStates == old(groupStates)
    {
      hide NewPartitions;
      if name in topics {
        return AlreadyExists;
      }
      if count <= 0 || factor <= 0 {
        return InvalidArg;
      }
      if |replicas| != count {
        return InvalidArg;
      }
      AddPartitions(name, 0, count, replicas);
      topics := topics[name := Topic(count, factor, retentionMs, retentionBytes, createdAtMs)];
      nextShard := nextShard + count;
      return Ok;
    }

    /** Makes partitions `from` up to `to`; the shard counter moves on afterwards. */
    method AddPartitions(name: string, from: nat, to: nat, replicas: seq<seq<nat>>)
      requires from <= to
      modifies this`partitions
      ensures partitions == old(partitions) + NewPartitions(name, from, to, nextShard, replicas)
      ensures PartitionsAdded(old(partitions), partitions, name, from, to, nextShard, replicas)
    {
      hide NewPartitions, ReplicasAt, PartitionsAdded;
      AddedPartitions(partitions, name, from, to, nextShard, replicas);
      NoPartitions(name, from, nextShard, replicas);
      for p := from to to
        invariant partitions == old(partitions) + NewPartitions(name, from, p, nextShard, replicas)
      {
        NextPartition(name, from, p, nextShard, replicas);
        var partition := Partition(nextShard + (p - from), ReplicasAt(replicas, p - from), 0, 0);
        partitions := partitions[TopicPartition(name, p) := partition];
      }
    }

    method DeleteTopic(name: string) returns (r: Outcome)
      modifies this
      ensures (Value(), r) == Apply(old(Value()), Command.DeleteTopic(name))
      ensures r == Ok && topics == old(topics) - {name}
      ensures nextShard == old(nextShard) && nodes == old(nodes)
      ensures groups == old(groups) && groupStates == old(groupStates)
      ensures forall k | k in partitions :: k in old(partitions) && partitions[k] == old(partitions)[k]
      ensures forall k | k in old(partitions) ::
        k !in partitions <==> k.topic == name && name in old(topics) && k.partition < old(topics)[name].partitionCount
    {
      if name !in topics {
        return Ok;
      }
      var count := topics[name].partitionCount;
      for p := 0 to count
        invariant partitions == WithoutTopic(old(partitions), name, p)
        modifies this`partitions
      {
        partitions := partitions - {TopicPartition(name, p)};
      }
      topics := topics - {name};
      return Ok;
    }

    method AlterPartitionCount(name: string, count: int, replicas: seq<seq<nat>>) returns (r: Outcome)
      modifies this
      ensures (Value(), r) == Apply(old(Value()), Command.AlterPartitionCount(name, count, replicas))
      ensures r == if name !in old(topics) then NotFound
                   else if count <= old(topics)[name].partitionCount then InvalidArg
                   else Ok
      ensures r != Ok ==> Value() == old(Value())
      ensures r == Ok ==>
        && topics == old(topics)[name := old(topics)[name].(partitionCount := count)]
        && nextShard == old(nextShard) + count - old(topics)[name].partitionCount
        && PartitionsAdded(old(partitions), partitions, name, old(topics)[name].partitionCount, count,
                           old(nextShard), replicas)
        && nodes == old(nodes) && groups == old(groups) && groupStates == old(groupStates)
    {
      hide NewPartitions;
      if name !in topics {
        return NotFound;
      }
      var was := topics[name].partitionCount;
      if count <= was {
        return InvalidArg;
      }
      AddPartitions(name, was, count, replicas);
      nextShard := nextShard + (count - was);
      topics := topics[name := topics[name].(partitionCount := count)];
      return Ok;
    }

    method AlterRetention(name: string, retentionMs: int, retentionBytes: int) returns (r: Outcome)
      modifies this`topics
      ensures (Value(), r) == Apply(old(Value()), Command.AlterRetention(name, retentionMs, retentionBytes))
      ensures r == if name in old(topics) then Ok else NotFound
      ensures topics.Keys == old(topics).Keys && forall t | t in topics && t != name :: topics[t] == old(topics)[t]
      ensures r == Ok ==>
        && topics[name].retentionMs == retentionMs && topics[name].retentionBytes == retentionBytes
        && topics[name].partitionCount == old(topics)[name].partitionCount
        && topics[name].replicationFactor == old(topics)[name].replicationFactor
        && topics[name].createdAtMs == old(topics)[name].createdAtMs
    {
      if name !in topics {
        return NotFound;
      }
      topics := topics[name := topics[name].(retentionMs := retentionMs, retentionBytes := retentionBytes)];
      return Ok;
    }

    method RegisterNode(node: nat, address: string) returns (r: Outcome)
      modifies this`nodes
      ensures (Value(), r) == Apply(old(Value()), Command.RegisterNode(node, address))
      ensures r == Ok && node in nodes && nodes[node] == address && nodes - {node} == old(nodes) - {node}
    {
      nodes := nodes[node := address];
      return Ok;
    }

    /** The proposed leader takes over, if its epoch is newer. */
    method AssignLeader(key: Key, leader: nat, epoch: int) returns (r: Outcome)
      modifies this`partitions
      ensures (Value(), r) == Apply(old(Value()), Command.AssignLeader(key, leader, epoch))
      ensures r == if key !in old(partitions) then NotFound
                   else if epoch > old(partitions)[key].epoch then Ok else InvalidArg
      ensures r != Ok ==> partitions == old(partitions)
      ensures r == Ok ==>
        && partitions.Keys == old(partitions).Keys && partitions - {key} == old(partitions) - {key}
        && partitions[key].leader == leader && partitions[key].epoch == epoch
        && partitions[key].shard == old(partitions)[key].shard
        && partitions[key].replicas == old(partitions)[key].replicas
    {
      if key !in partitions {
        return NotFound;
      }
      if epoch <= partitions[key].epoch {
        return InvalidArg;
      }
      partitions := partitions[key := partitions[key].(leader := leader, epoch := epoch)];
      return Ok;
    }

    method JoinGroup(group: string, member: string, clientHost: string, subscribed: seq<string>, joinedAtMs: int)
        returns (r: Outcome)
      modifies this`groups
      ensures (Value(), r) == Apply(old(Value()), Command.JoinGroup(group, member, clientHost, subscribed, joinedAtMs))
      ensures r.Joined? && (if member != "" then r.member == member else GeneratedId(r.member, clientHost, joinedAtMs))
      ensures group in groups && r.member in groups[group].members && groups - {group} == old(groups) - {group}
      ensures r.generation == groups[group].generation && r.owned == groups[group].members[r.member].owned
      ensures var g := if group in old(groups) then old(groups)[group] else Group(0, map[], map[]);
        && groups[group].generation == WrapInt32(g.generation + 1) && groups[group].committed == g.committed
        && SameButOwned(g.members[r.member := Member(clientHost, subscribed, [], joinedAtMs)], groups[group].members)
      ensures HoldsSlices(Value(), groups[group])
    {
      hide Rebalanced, MemberId, HoldsSlices, SameButOwned, GeneratedId;
      var g := if group in groups then groups[group] else NO_GROUP;
      var id := MemberId(member, clientHost, joinedAtMs);
      MemberIdIs(member, clientHost, joinedAtMs);
      g := g.(members := g.members[id := Member(clientHost, subscribed, [], joinedAtMs)]);
      g := RebalanceGroup(g, Value());
      SlicesStand(Value(), g, group);
      g := NextGeneration(g);
      groups := groups[group := g];
      return Joined(id, g.members[id].owned, g.generation);
    }

    method JoinGroupState(group: string, member: string, state: MemberState, assignment: Option<Assignment>)
        returns (r: Outcome)
      modifies this`groupStates
      ensures (Value(), r) == Apply(old(Value()), Command.JoinGroupState(group, member, state, assignment))
      ensures r == Ok && group in groupStates && groupStates - {group} == old(groupStates) - {group}
      ensures var g := if group in old(groupStates) then old(groupStates)[group]
                         else GroupState(map[], 0, map[], map[]);
        && groupStates[group].members == g.members[member := state]
        && groupStates[group].generation == WrapInt32(g.generation + 1)
        && groupStates[group].offsets == g.offsets
        && groupStates[group].assignments == if assignment.Some? then assignment.value else g.assignments
    {
      var g := if group in groupStates then groupStates[group] else NO_GROUP_STATE;
      g := g.(members := g.members[member := state]);
      if assignment.Some? {
        g := g.(assignments := assignment.value);
      }
      groupStates := groupStates[group := g.(generation := WrapInt32(g.generation + 1))];
      return Ok;
    }

    method LeaveGroup(group: string, member: string, assignment: Option<Assignment>) returns (r: Outcome)
      modifies this`groups, this`groupStates
      ensures (Value(), r) == Apply(old(Value()), Command.LeaveGroup(group, member, assignment))
      ensures group in old(groupStates) ==>
        && groups == old(groups) && groupStates - {group} == old(groupStates) - {group} && group in groupStates
        && (r == if member in old(groupStates)[group].members then Ok else NotFound)
        && if r == Ok then LeftWith(old(groupStates)[group], groupStates[group], member, assignment)
           else groupStates == old(groupStates)
      ensures group !in old(groupStates) ==>
        && groupStates == old(groupStates)
        && (r == if group in old(groups) && member in old(groups)[group].members then Ok else NotFound)
        && (r != Ok ==> groups == old(groups))
        && (r == Ok ==>
              && group in groups && groups - {group} == old(groups) - {group}
              && groups[group].generation == WrapInt32(old(groups)[group].generation + 1)
              && groups[group].committed == old(groups)[group].committed
              && SameButOwned(old(groups)[group].members - {member}, groups[group].members)
              && HoldsSlices(Value(), groups[group]))
    {
      hide Rebalanced, Leave, HoldsSlices, SameButOwned, LeftWith;
      if group in groupStates {
        r := LeaveGroupState(group, member, assignment);
        return;
      }
      if group !in groups {
        return NotFound;
      }
      if member !in groups[group].members {
        return NotFound;
      }
      var g := groups[group];
      g := RebalanceGroup(g.(members := g.members - {member}), Value());
      SlicesStand(Value(), g, group);
      groups := groups[group := NextGeneration(g)];
      return Ok;
    }

    method LeaveGroupState(group: string, member: string, assignment: Option<Assignment>) returns (r: Outcome)
      requires group in groupStates
      modifies this`groupStates
      ensures r == if member in old(groupStates)[group].members then Ok else NotFound
      ensures groupStates
           == if r != Ok then old(groupStates)
              else old(groupStates)[group := Leave(old(groupStates)[group], member, assignment)]
      ensures r == Ok ==> LeftWith(old(groupStates)[group], groupStates[group], member, assignment)
    {
      hide Leave, LeftWith;
      var g := groupStates[group];
      if member !in g.members {
        return NotFound;
      }
      g := WithoutMember(g, member, assignment);
      groupStates := groupStates[group := g];
      return Ok;
    }

    method Heartbeat(group: string, member: string, generation: int32, timestampMs: int) returns (r: Outcome)
      modifies this`groups
      ensures (Value(), r) == Apply(old(Value()), Command.Heartbeat(group, member, generation, timestampMs))
      ensures r == if group !in old(groups) || member !in old(groups)[group].members then NotFound
                   else if generation == old(groups)[group].generation then Ok else RebalanceNeeded
      ensures groups.Keys == old(groups).Keys
      ensures forall g | g in groups ::
        && groups[g].generation == old(groups)[g].generation && groups[g].committed == old(groups)[g].committed
        && groups[g].members.Keys == old(groups)[g].members.Keys
        && forall id | id in groups[g].members ::
             groups[g].members[id]
             == if g == group && id == member then old(groups)[g].members[id].(lastHeartbeatMs := timestampMs)
                else old(groups)[g].members[id]
    {
      if group !in groups || member !in groups[group].members {
        return NotFound;
      }
      var g := groups[group];
      groups := groups[group := g.(members := g.members[member := g.members[member].(lastHeartbeatMs := timestampMs)])];
      return if generation != g.generation then RebalanceNeeded else Ok;
    }

    method CommitOffsets(group: string, offsets: seq<(Key, int)>) returns (r: Outcome)
      modifies this`groups
      ensures (Value(), r) == Apply(old(Value()), Command.CommitOffsets(group, offsets))
      ensures r == if group in old(groups) then Ok else NotFound
      ensures r != Ok ==> groups == old(groups)
      ensures r == Ok ==>
        && group in groups && groups - {group} == old(groups) - {group}
        && groups[group] == old(groups)[group].(committed := groups[group].committed)
        && LastWins(old(groups)[group].committed, groups[group].committed, offsets)
    {
      hide LastWins;
      if group !in groups {
        return NotFound;
      }
      var committed := groups[group].committed;
      for i := 0 to |offsets|
        invariant committed == Committed(old(groups)[group].committed, offsets[..i])
      {
        assert offsets[..i + 1][..i] == offsets[..i];
        committed := committed[offsets[i].0 := offsets[i].1];
      }
      assert offsets[..|offsets|] == offsets;
      CommittedLastWins(groups[group].committed, offsets);
      groups := groups[group := groups[group].(committed := committed)];
      return Ok;
    }

    method CommitGroupOffsets(group: string, offsets: map<Key, int>) returns (r: Outcome)
      modifies this`groupStates
      ensures (Value(), r) == Apply(old(Value()), Command.CommitGroupOffsets(group, offsets))
      ensures r == if group in old(groupStates) then Ok else NotFound
      ensures r != Ok ==> groupStates == old(groupStates)
      ensures r == Ok ==>
        && group in groupStates && groupStates - {group} == old(groupStates) - {group}
        && var g, h := old(groupStates)[group], groupStates[group];
           && h == g.(offsets := h.offsets) && h.offsets.Keys == g.offsets.Keys + offsets.Keys
           && forall k | k in h.offsets :: h.offsets[k] == if k in offsets then offsets[k] else g.offsets[k]
    {
      if group !in groupStates {
        return NotFound;
      }
      var merged := MergeOffsets(groupStates[group].offsets, offsets);
      groupStates := groupStates[group := groupStates[group].(offsets := merged)];
      return Ok;
    }

    method Rebalance(group: string, expired: seq<string>) returns (r: Outcome)
      modifies this`groups
      ensures (Value(), r) == Apply(old(Value()), Command.Rebalance(group, expired))
      ensures r == if group in old(groups) then Ok else NotFound
      ensures r != Ok ==> groups == old(groups)
      ensures r == Ok ==>
        && group in groups && groups - {group} == old(groups) - {group}
        && groups[group].generation == WrapInt32(old(groups)[group].generation + 1)
        && groups[group].committed == old(groups)[group].committed
        && SameButOwned(old(groups)[group].members - Elements(expired), groups[group].members)
        && HoldsSlices(Value(), groups[group])
    {
      hide Rebalanced, HoldsSlices, SameButOwned;
      if group !in groups {
        return NotFound;
      }
      var g := groups[group];
      for i := 0 to |expired|
        invariant groups == old(groups)
        invariant g == old(groups)[group].(members := old(groups)[group].members - Elements(expired[..i]))
      {
        ElementsSnoc(expired, i);
        g := g.(members := g.members - {expired[i]});
      }
      assert expired[..|expired|] == expired;
      g := RebalanceGroup(g, Value());
      SlicesStand(Value(), g, group);
      groups := groups[group := NextGeneration(g)];
      return Ok;
    }

    /** Applies one command of the log. */
    method Update(cmd: Command) returns (r: Outcome)
      modifies this
      ensures (Value(), r) == Apply(old(Value()), cmd)
    {
      match cmd {
        case CreateTopic(name, count, factor, ms, bytes, at, replicas) =>
          r := CreateTopic(name, count, factor, ms, bytes, at, replicas);
        case DeleteTopic(name) => r := DeleteTopic(name);
        case AlterPartitionCount(name, count, replicas) => r := AlterPartitionCount(name, count, replicas);
        case AlterRetention(name, ms, bytes) =>
          r := AlterRetention(name, ms, bytes);
        case RegisterNode(node, address) => r := RegisterNode(node, address);
        case AssignLeader(key, leader, epoch) => r := AssignLeader(key, leader, epoch);
        case JoinGroup(group, member, host, ts, at) => r := JoinGroup(group, member, host, ts, at);
        case JoinGroupState(group, member, m, assignment) => r := JoinGroupState(group, member, m, assignment);
        case LeaveGroup(group, member, assignment) => r := LeaveGroup(group, member, assignment);
        case Heartbeat(group, member, generation, at) => r := Heartbeat(group, member, generation, at);
        case CommitOffsets(group, offsets) => r := CommitOffsets(group, offsets);
        case CommitGroupOffsets(group, offsets) => r := CommitGroupOffsets(group, offsets);
        case Rebalance(group, expired) => r := Rebalance(group, expired);
      }
    }

    /** Replicas fed the same commands reach the same state, however each iterates its maps. */
    method Replay(cmds: seq<Command>)
      modifies this
      ensures Value() == Run(old(Value()), cmds)
    {
      hide Apply;
      for i := 0 to |cmds|
        invariant Value() == Run(old(Value()), cmds[..i])
      {
        assert cmds[..i + 1][..i] == cmds[..i];
        var r := Update(cmds[i]);
      }
      assert cmds[..|cmds|] == cmds;
    }
  }
}
