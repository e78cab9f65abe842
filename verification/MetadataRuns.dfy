/** What every run of metadata commands keeps. */
module MetadataRuns {
  import opened RangeAssign
  import opened MetadataModel

  // --- Partitions, shards and leaders ------------------------------------------------------------

  /** The partitions of every topic are numbered from zero, and there are no others. */
  ghost predicate Numbered(s: State) {
    forall k: Key :: k in s.partitions <==> k.topic in s.topics && k.partition < s.topics[k.topic].partitionCount
  }

  predicate ShardsTaken(s: State) {
    forall k | k in s.partitions :: s.partitions[k].shard < s.nextShard
  }

  predicate ShardsDistinct(s: State) {
    forall j, k | j in s.partitions && k in s.partitions && s.partitions[j].shard == s.partitions[k].shard :: j == k
  }

  ghost predicate Inv(s: State) {
    Numbered(s) && ShardsTaken(s) && ShardsDistinct(s)
  }

  /** A partition of the later state is the same one as before, led no earlier, or is on a new shard. */
  ghost predicate Continues(s: State, t: State, k: Key)
    requires k in t.partitions
  {
    || t.partitions[k].shard >= s.nextShard
    || (k in s.partitions && SameReign(s.partitions[k], t.partitions[k]))
  }

  predicate SameReign(p: Partition, q: Partition) {
    p.shard == q.shard && p.epoch <= q.epoch && (p.epoch == q.epoch ==> p.leader == q.leader)
  }

  ghost predicate Follows(s: State, t: State) {
    s.nextShard <= t.nextShard && forall k | k in t.partitions :: Continues(s, t, k)
  }

  /** The commands that leave topics, partitions and the shard counter alone. */
  predicate SameTopology(s: State, t: State) {
    s.topics == t.topics && s.partitions == t.partitions && s.nextShard == t.nextShard
  }

  lemma FreshPartitions(name: string, from: nat, to: nat, shard: nat, replicas: seq<seq<nat>>)
    requires from <= to
    ensures var added := NewPartitions(name, from, to, shard, replicas);
            && (forall k: Key :: k in added <==> k.topic == name && from <= k.partition < to)
            && (forall k | k in added :: added[k].shard == shard + k.partition - from)
  {
    var added := NewPartitions(name, from, to, shard, replicas);
    forall k: Key | k.topic == name && from <= k.partition < to
      ensures k in added && added[k].shard == shard + k.partition - from
    {
      assert k == TopicPartition(name, k.partition);
    }
  }

  lemma ExtendedPartitions(s: State, name: string, topic: Topic, replicas: seq<seq<nat>>)
    requires Numbered(s) && CountOrZero(s, name) <= topic.partitionCount
    ensures var t, from := Extended(s, name, topic, replicas), CountOrZero(s, name);
            && Numbered(t)
            && (forall k | k in s.partitions :: k in t.partitions && t.partitions[k] == s.partitions[k])
            && (forall k | k in t.partitions && k !in s.partitions ::
                  && k.topic == name && k.partition >= from
                  && t.partitions[k].shard == s.nextShard + k.partition - from < t.nextShard)
  {
    FreshPartitions(name, CountOrZero(s, name), topic.partitionCount, s.nextShard, replicas);
    hide NewPartitions;
  }

  lemma ExtendKeepsInv(s: State, name: string, topic: Topic, replicas: seq<seq<nat>>)
    requires Inv(s) && CountOrZero(s, name) <= topic.partitionCount
    ensures Inv(Extended(s, name, topic, replicas)) && Follows(s, Extended(s, name, topic, replicas))
  {
    ExtendedPartitions(s, name, topic, replicas);
    assert Extended(s, name, topic, replicas).nextShard >= s.nextShard;
    hide Numbered, Extended, CountOrZero;
  }

  lemma DeleteKeepsInv(s: State, name: string)
    requires Inv(s) && name in s.topics
    ensures var t := Deleted(s, name); Inv(t) && Follows(s, t)
  {
  }

  lemma SameTopologyKeepsInv(s: State, t: State)
    requires Inv(s) && SameTopology(s, t)
    ensures Inv(t) && Follows(s, t)
  {
  }

  lemma LeaderKeepsInv(s: State, key: Key, leader: nat, epoch: int)
    requires Inv(s) && key in s.partitions && s.partitions[key].epoch < epoch
    ensures var t := s.(partitions := s.partitions[key := s.partitions[key].(leader := leader, epoch := epoch)]);
            Inv(t) && Follows(s, t)
  {
    var t := s.(partitions := s.partitions[key := s.partitions[key].(leader := leader, epoch := epoch)]);
    assert forall k :: k in t.partitions <==> k in s.partitions;
  }

  lemma RetentionKeepsInv(s: State, name: string, ms: int, bytes: int)
    requires Inv(s) && name in s.topics
    ensures var t := s.(topics := s.topics[name := s.topics[name].(retentionMs := ms, retentionBytes := bytes)]);
            Inv(t) && Follows(s, t)
  {
  }

  predicate IsGroupCommand(cmd: Command) {
    || cmd.JoinGroup? || cmd.JoinGroupState? || cmd.LeaveGroup? || cmd.Heartbeat? || cmd.CommitOffsets?
    || cmd.CommitGroupOffsets? || cmd.Rebalance?
  }

  lemma GroupCommandsKeepTopology(s: State, cmd: Command)
    requires IsGroupCommand(cmd)
    ensures SameTopology(s, Apply(s, cmd).0)
  {
    hide GroupAfterJoin, GroupWithout, Committed, Join, Leave, MemberId, Commit;
  }

  lemma ApplyKeepsInv(s: State, cmd: Command)
    requires Inv(s)
    ensures Inv(Apply(s, cmd).0) && Follows(s, Apply(s, cmd).0)
  {
    hide Inv, Follows, Apply, SameTopology, IsGroupCommand;
    if IsGroupCommand(cmd) {
      GroupCommandsKeepTopology(s, cmd);
      SameTopologyKeepsInv(s, Apply(s, cmd).0);
    } else {
      TopicCommandKeepsInv(s, cmd);
    }
  }

  lemma TopicCommandKeepsInv(s: State, cmd: Command)
    requires Inv(s) && !IsGroupCommand(cmd)
    ensures Inv(Apply(s, cmd).0) && Follows(s, Apply(s, cmd).0)
  {
    hide Inv, Follows, Extended, Deleted;
    SameTopologyKeepsInv(s, s);
    match cmd
    case CreateTopic(name, count, factor, ms, bytes, at, replicas) =>
      if name !in s.topics && count > 0 {
        ExtendKeepsInv(s, name, Topic(count, factor, ms, bytes, at), replicas);
      }
    case DeleteTopic(name) =>
      if name in s.topics {
        DeleteKeepsInv(s, name);
      }
    case AlterPartitionCount(name, count, replicas) =>
      if name in s.topics && s.topics[name].partitionCount < count {
        ExtendKeepsInv(s, name, s.topics[name].(partitionCount := count), replicas);
      }
    case AlterRetention(name, ms, bytes) =>
      if name in s.topics {
        RetentionKeepsInv(s, name, ms, bytes);
      }
    case RegisterNode(_, _) => SameTopologyKeepsInv(s, Apply(s, cmd).0);
    case AssignLeader(key, leader, epoch) =>
      if key in s.partitions && s.partitions[key].epoch < epoch {
        LeaderKeepsInv(s, key, leader, epoch);
      }
  }

  lemma FollowsTransitive(s: State, t: State, u: State)
    requires Follows(s, t) && Follows(t, u)
    ensures Follows(s, u)
  {
    forall k | k in u.partitions
      ensures Continues(s, u, k)
    {
      if u.partitions[k].shard < s.nextShard {
        assert Continues(t, u, k);
        assert Continues(s, t, k);
      }
    }
  }

  ghost predicate IsRun(states: seq<State>, cmds: seq<Command>) {
    |states| == |cmds| + 1 && forall i | 0 <= i < |cmds| :: states[i + 1] == Apply(states[i], cmds[i]).0
  }

  lemma {:induction false} RunKeepsInv(states: seq<State>, cmds: seq<Command>, i: nat, j: nat)
    requires IsRun(states, cmds) && Inv(states[0]) && i <= j < |states|
    ensures Inv(states[j]) && Follows(states[i], states[j])
    decreases j
  {
    hide Inv, Follows, Apply;
    if j == 0 {
      SameTopologyKeepsInv(states[0], states[0]);
    } else if i < j {
      RunKeepsInv(states, cmds, i, j - 1);
      ApplyKeepsInv(states[j - 1], cmds[j - 1]);
      FollowsTransitive(states[i], states[j - 1], states[j]);
    } else {
      RunKeepsInv(states, cmds, i - 1, j - 1);
      ApplyKeepsInv(states[j - 1], cmds[j - 1]);
      SameTopologyKeepsInv(states[j], states[j]);
    }
  }

  /** In every reachable state a topic's partitions are exactly the numbers below its partition count. */
  lemma PartitionsAreNumbered(states: seq<State>, cmds: seq<Command>, i: nat)
    requires IsRun(states, cmds) && states[0] == INITIAL && i < |states|
    ensures forall k: Key ::
      k in states[i].partitions
      <==> k.topic in states[i].topics && k.partition < states[i].topics[k.topic].partitionCount
  {
    assert Inv(INITIAL);
    hide Apply;
    RunKeepsInv(states, cmds, 0, i);
  }

  /**
   A shard is never used again for another partition, nor for a partition that was deleted and made
   anew: wherever it is seen twice, it was there all the while. Its epochs never go back, and a shard
   and an epoch together name at most one leader.
   */
  lemma ShardNamesOnePartition(states: seq<State>, cmds: seq<Command>, i: nat, j: nat, a: Key, b: Key)
    requires IsRun(states, cmds) && states[0] == INITIAL && i <= j < |states|
    requires a in states[i].partitions && b in states[j].partitions
    requires states[i].partitions[a].shard == states[j].partitions[b].shard
    ensures a == b
    ensures forall m | i <= m <= j ::
      a in states[m].partitions && states[m].partitions[a].shard == states[i].partitions[a].shard
    ensures states[i].partitions[a].epoch <= states[j].partitions[b].epoch
    ensures states[i].partitions[a].epoch == states[j].partitions[b].epoch ==>
      states[i].partitions[a].leader == states[j].partitions[b].leader
  {
    assert Inv(INITIAL);
    hide Apply, IsRun;
    RunKeepsInv(states, cmds, i, j);
    RunKeepsInv(states, cmds, 0, i);
    assert Continues(states[i], states[j], b);
    forall m | i <= m <= j
      ensures a in states[m].partitions && states[m].partitions[a].shard == states[i].partitions[a].shard
    {
      RunKeepsInv(states, cmds, i, m);
      RunKeepsInv(states, cmds, m, j);
      assert Continues(states[m], states[j], b);
    }
  }
}
