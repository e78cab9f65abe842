/**
 The cluster metadata as a value: topics, their partitions and shards, partition leaders, and consumer
 groups, with the effect of every command. Consumer groups come in two forms: groups whose assignment
 the state machine works out itself, and group states whose assignment the coordinator sends along.
 */
module MetadataModel {
  import opened Bytes
  import opened Ordering
  import opened RangeAssign

  type Key = TopicPartition

  datatype Topic = Topic(
    partitionCount: nat, replicationFactor: int, retentionMs: int, retentionBytes: int, createdAtMs: int)

  datatype Partition = Partition(shard: nat, replicas: seq<nat>, leader: nat, epoch: int)

  datatype Member = Member(clientHost: string, topics: seq<string>, owned: seq<Key>, lastHeartbeatMs: int)

  datatype Group = Group(generation: int32, members: map<string, Member>, committed: map<Key, int>)

  datatype MemberState = MemberState(topics: seq<string>, sessionTimeoutMs: int, heartbeatIntervalMs: int)

  datatype GroupState = GroupState(
    members: map<string, MemberState>, generation: int32, assignments: Assignment, offsets: map<Key, int>)

  datatype State = State(
    topics: map<string, Topic>, partitions: map<Key, Partition>, nodes: map<nat, string>,
    groups: map<string, Group>, groupStates: map<string, GroupState>, nextShard: nat)

  datatype Command =
    | CreateTopic(name: string, count: int, factor: int, retentionMs: int, retentionBytes: int, createdAtMs: int,
                  replicas: seq<seq<nat>>)
    | DeleteTopic(name: string)
    | AlterPartitionCount(name: string, count: int, replicas: seq<seq<nat>>)
    | AlterRetention(name: string, retentionMs: int, retentionBytes: int)
    | RegisterNode(node: nat, address: string)
    | AssignLeader(key: Key, leader: nat, epoch: int)
    | JoinGroup(group: string, member: string, clientHost: string, topics: seq<string>, joinedAtMs: int)
    | JoinGroupState(group: string, member: string, state: MemberState, assignment: Option<Assignment>)
    | LeaveGroup(group: string, member: string, assignment: Option<Assignment>)
    | Heartbeat(group: string, member: string, generation: int32, timestampMs: int)
    | CommitOffsets(group: string, offsets: seq<(Key, int)>)
    | CommitGroupOffsets(group: string, groupOffsets: map<Key, int>)
    | Rebalance(group: string, expired: seq<string>)

  datatype Outcome =
    | Ok
    | RebalanceNeeded
    | Joined(member: string, owned: seq<Key>, generation: int32)
    | AlreadyExists
    | NotFound
    | InvalidArg

  const INITIAL := State(map[], map[], map[], map[], map[], 1)

  // --- Topics and partitions -----------------------------------------------------------------------

  function ReplicasAt(replicas: seq<seq<nat>>, i: nat): seq<nat> {
    if i < |replicas| then replicas[i] else []
  }

  /** Partitions `from` up to `to` of a topic, each on a shard of its own, none with a leader. */
  function NewPartitions(name: string, from: nat, to: nat, shard: nat, replicas: seq<seq<nat>>)
    : (r: map<Key, Partition>)
    requires from <= to
  {
    map p: nat | from <= p < to ::
      TopicPartition(name, p) := Partition(shard + p - from, ReplicasAt(replicas, p - from), 0, 0)
  }

  function WithoutTopic(partitions: map<Key, Partition>, name: string, count: nat): map<Key, Partition> {
    map k | k in partitions && !(k.topic == name && k.partition < count) :: partitions[k]
  }

  function CountOrZero(s: State, name: string): nat {
    if name in s.topics then s.topics[name].partitionCount else 0
  }

  /** A topic, new or not, that is given the partitions it lacks, on the next shards. */
  function Extended(s: State, name: string, topic: Topic, replicas: seq<seq<nat>>): (r: State)
    requires CountOrZero(s, name) <= topic.partitionCount
    ensures r.groups == s.groups && r.groupStates == s.groupStates
  {
    var from := CountOrZero(s, name);
    s.(topics := s.topics[name := topic],
       partitions := s.partitions + NewPartitions(name, from, topic.partitionCount, s.nextShard, replicas),
       nextShard := s.nextShard + topic.partitionCount - from)
  }

  function Deleted(s: State, name: string): (r: State)
    requires name in s.topics
    ensures r.groups == s.groups && r.groupStates == s.groupStates
  {
    s.(topics := s.topics - {name}, partitions := WithoutTopic(s.partitions, name, s.topics[name].partitionCount))
  }

  // --- Groups that the state machine balances --------------------------------------------------

  predicate KeyLe(a: Key, b: Key) {
    if a.topic != b.topic then StringLe(a.topic, b.topic) else a.partition <= b.partition
  }

  lemma KeyOrder()
    ensures TotalOrder(KeyLe)
  {
    StringOrder();
    assert forall a, b, d: string :: StringLe(a, b) && StringLe(b, d) ==> StringLe(a, d);
  }

  /** The partitions of existing topics that some member subscribes to. */
  ghost function Eligible(members: map<string, Member>, s: State): set<Key> {
    set k | k in s.partitions && k.topic in s.topics && Subscribed(members, k.topic)
  }

  ghost predicate Subscribed(members: map<string, Member>, topic: string) {
    exists id :: id in members && topic in members[id].topics
  }

  /** Where the slice of member `i` of `m` begins, of `n` partitions. */
  function SliceAt(n: nat, m: nat, i: nat): nat
    requires m > 0
  {
    i * n / m
  }

  /** The slices begin at zero, end at `n`, abut, and differ in size by at most one. */
  lemma SlicesPartition(n: nat, m: nat, i: nat)
    requires i < m
    ensures SliceAt(n, m, 0) == 0 && SliceAt(n, m, m) == n
    ensures SliceAt(n, m, i + 1) - SliceAt(n, m, i) == n / m || SliceAt(n, m, i + 1) - SliceAt(n, m, i) == n / m + 1
  {
    var p, r := Quotient(i * n, m);
    var q, t := Quotient(n, m);
    assert (i + 1) * n == i * n + n;
    SumOfQuotients(i * n, n, m, p, r, q, t);
    WholeQuotient(n, m);
  }

  lemma WholeQuotient(n: nat, m: nat)
    requires m > 0
    ensures 0 * n / m == 0 && m * n / m == n
  {
    assert m * n == n * m + 0;
    QuotientIs(m * n, m, n, 0);
  }

  lemma SumOfQuotients(a: nat, b: nat, m: nat, p: nat, r: nat, q: nat, t: nat)
    requires r < m && t < m && a == p * m + r && b == q * m + t
    ensures (a + b) / m == p + q || (a + b) / m == p + q + 1
  {
    if r + t < m {
      assert a + b == (p + q) * m + (r + t);
      QuotientIs(a + b, m, p + q, r + t);
    } else {
      assert a + b == (p + q + 1) * m + (r + t - m);
      QuotientIs(a + b, m, p + q + 1, r + t - m);
    }
  }

  lemma {:induction false} SlicesOrdered(n: nat, m: nat, i: nat, j: nat)
    requires i <= j <= m && m > 0
    ensures SliceAt(n, m, i) <= SliceAt(n, m, j) <= n
    decreases m - i, j - i
  {
    hide SliceAt;
    SlicesPartition(n, m, 0);
    if i < j {
      SlicesPartition(n, m, i);
      SlicesOrdered(n, m, i + 1, j);
    } else if j < m {
      SlicesPartition(n, m, i);
      SlicesOrdered(n, m, i + 1, m);
    }
  }

  /** Every member's slice of the eligible partitions in order. A group without members is left as it is. */
  ghost function Rebalanced(g: Group, s: State): (r: Group)
    ensures r.members.Keys == g.members.Keys
  {
    if |g.members| == 0 then g
    else
      var ids := SortedElements(g.members.Keys, StringLe);
      var keys := SortedElements(Eligible(g.members, s), KeyLe);
      SortedElementsHold(g.members.Keys, StringLe);
      g.(members := map id | id in g.members :: g.members[id].(owned := SliceOf(keys, |ids|, IndexIn(ids, id))))
  }

  function SliceOf(keys: seq<Key>, m: nat, i: nat): seq<Key>
    requires i < m
  {
    SlicesOrdered(|keys|, m, i, i + 1);
    keys[SliceAt(|keys|, m, i)..SliceAt(|keys|, m, i + 1)]
  }

  function NextGeneration(g: Group): Group {
    g.(generation := WrapInt32(g.generation + 1))
  }

  const NO_GROUP := Group(0, map[], map[])

  function Digit(d: nat): char
    requires d < 10
  {
    "0123456789"[d]
  }

  function Decimal(n: nat): string {
    if n < 10 then [Digit(n)] else Decimal(n / 10) + [Digit(n % 10)]
  }

  /** The id given to a member that joins without one. */
  function MemberId(member: string, clientHost: string, joinedAtMs: int): string {
    if member != "" then member
    else "member-" + clientHost + "-" + if joinedAtMs < 0 then "-" + Decimal(-joinedAtMs) else Decimal(joinedAtMs)
  }

  function GroupOf(s: State, group: string): Group {
    if group in s.groups then s.groups[group] else NO_GROUP
  }

  ghost function GroupAfterJoin(s: State, group: string, id: string, clientHost: string,
      topics: seq<string>, joinedAtMs: int): (r: Group)
    ensures id in r.members
  {
    var g := GroupOf(s, group);
    NextGeneration(Rebalanced(g.(members := g.members[id := Member(clientHost, topics, [], joinedAtMs)]), s))
  }

  ghost function GroupWithout(s: State, g: Group, members: set<string>): Group {
    NextGeneration(Rebalanced(g.(members := g.members - members), s))
  }

  function Committed(before: map<Key, int>, offsets: seq<(Key, int)>): map<Key, int> {
    if |offsets| == 0 then before
    else Committed(before, offsets[..|offsets| - 1])[offsets[|offsets| - 1].0 := offsets[|offsets| - 1].1]
  }

  // --- Groups that the coordinator balances ----------------------------------------------------

  const NO_GROUP_STATE := GroupState(map[], 0, map[], map[])

  function GroupStateOf(s: State, group: string): GroupState {
    if group in s.groupStates then s.groupStates[group] else NO_GROUP_STATE
  }

  function Join(g: GroupState, member: string, m: MemberState, assignment: Option<Assignment>): GroupState {
    GroupState(g.members[member := m], WrapInt32(g.generation + 1),
               if assignment.Some? then assignment.value else g.assignments, g.offsets)
  }

  /** An empty assignment does not survive its encoding, and then everything is taken away. */
  function Leave(g: GroupState, member: string, assignment: Option<Assignment>): GroupState {
    var left := g.members - {member};
    GroupState(left, WrapInt32(g.generation + 1),
               if assignment.Some? && left != map[] then assignment.value else map[], g.offsets)
  }

  function Commit(g: GroupState, offsets: map<Key, int>): GroupState {
    g.(offsets := g.offsets + offsets)
  }

  // --- Every command -------------------------------------------------------------------------------

  function SetGroup(s: State, group: string, g: Group): State {
    s.(groups := s.groups[group := g])
  }

  function SetGroupState(s: State, group: string, g: GroupState): State {
    s.(groupStates := s.groupStates[group := g])
  }

  ghost function Apply(s: State, cmd: Command): (State, Outcome) {
    match cmd
    case CreateTopic(name, count, factor, ms, bytes, at, replicas) =>
      if name in s.topics then (s, AlreadyExists)
      else if count <= 0 || factor <= 0 || |replicas| != count then (s, InvalidArg)
      else (Extended(s, name, Topic(count, factor, ms, bytes, at), replicas), Ok)
    case DeleteTopic(name) =>
      (if name in s.topics then Deleted(s, name) else s, Ok)
    case AlterPartitionCount(name, count, replicas) =>
      if name !in s.topics then (s, NotFound)
      else if count <= s.topics[name].partitionCount then (s, InvalidArg)
      else (Extended(s, name, s.topics[name].(partitionCount := count), replicas), Ok)
    case AlterRetention(name, ms, bytes) =>
      if name !in s.topics then (s, NotFound)
      else (s.(topics := s.topics[name := s.topics[name].(retentionMs := ms, retentionBytes := bytes)]), Ok)
    case RegisterNode(node, address) => (s.(nodes := s.nodes[node := address]), Ok)
    case AssignLeader(key, leader, epoch) =>
      if key !in s.partitions then (s, NotFound)
      else if epoch <= s.partitions[key].epoch then (s, InvalidArg)
      else (s.(partitions := s.partitions[key := s.partitions[key].(leader := leader, epoch := epoch)]), Ok)
    case JoinGroup(group, member, host, topics, at) =>
      var id := MemberId(member, host, at);
      var g := GroupAfterJoin(s, group, id, host, topics, at);
      (SetGroup(s, group, g), Joined(id, g.members[id].owned, g.generation))
    case JoinGroupState(group, member, m, assignment) =>
      (SetGroupState(s, group, Join(GroupStateOf(s, group), member, m, assignment)), Ok)
    case LeaveGroup(group, member, assignment) =>
      if group in s.groupStates then
        if member !in s.groupStates[group].members then (s, NotFound)
        else (SetGroupState(s, group, Leave(s.groupStates[group], member, assignment)), Ok)
      else if group !in s.groups || member !in s.groups[group].members then (s, NotFound)
      else (SetGroup(s, group, GroupWithout(s, s.groups[group], {member})), Ok)
    case Heartbeat(group, member, generation, at) =>
      if group !in s.groups || member !in s.groups[group].members then (s, NotFound)
      else
        var g := s.groups[group];
        (SetGroup(s, group, g.(members := g.members[member := g.members[member].(lastHeartbeatMs := at)])),
         if generation != g.generation then RebalanceNeeded else Ok)
    case CommitOffsets(group, offsets) =>
      if group !in s.groups then (s, NotFound)
      else (SetGroup(s, group, s.groups[group].(committed := Committed(s.groups[group].committed, offsets))), Ok)
    case CommitGroupOffsets(group, offsets) =>
      if group !in s.groupStates then (s, NotFound)
      else (SetGroupState(s, group, Commit(s.groupStates[group], offsets)), Ok)
    case Rebalance(group, expired) =>
      if group !in s.groups then (s, NotFound)
      else (SetGroup(s, group, GroupWithout(s, s.groups[group], Elements(expired))), Ok)
  }
}
