/**
 The range assignment of a consumer group. Members and topics are sorted; each topic's partitions are
 dealt out in member order as one contiguous range per member, the first ranges one longer when the
 partitions do not divide evenly.
 */
module RangeAssign {
  import opened Ordering

  datatype TopicPartition = TopicPartition(topic: string, partition: nat)

  type Assignment = map<string, seq<TopicPartition>>

  // --- Which range a member gets -----------------------------------------------------------------

  /** Where the range of member `i` of `m` begins, of `n` partitions. */
  function Cursor(n: nat, m: nat, i: nat): nat
    requires m > 0
  {
    i * (n / m) + if i < n % m then i else n % m
  }

  /** Every range is `n / m` long, the first `n % m` of them one longer. */
  function Length(n: nat, m: nat, i: nat): nat
    requires m > 0
  {
    n / m + if i < n % m then 1 else 0
  }

  /** The ranges begin at zero, end at `n`, and each begins where the one before it ends. */
  lemma RangesPartition(n: nat, m: nat, i: nat)
    requires i < m
    ensures Cursor(n, m, 0) == 0 && Cursor(n, m, m) == n
    ensures Cursor(n, m, i + 1) == Cursor(n, m, i) + Length(n, m, i)
    ensures Cursor(n, m, i + 1) - Cursor(n, m, i) == n / m + if i < n % m then 1 else 0
  {
    assert m * (n / m) + n % m == n;
    assert (i + 1) * (n / m) == i * (n / m) + n / m;
  }

  lemma {:induction false} CursorMonotone(n: nat, m: nat, i: nat, j: nat)
    requires i <= j <= m && m > 0
    ensures Cursor(n, m, i) <= Cursor(n, m, j)
    decreases j
  {
    hide Cursor, Length;
    if i < j {
      CursorMonotone(n, m, i, j - 1);
      RangesPartition(n, m, j - 1);
    }
  }

  predicate InRange(n: nat, m: nat, i: nat, p: nat)
    requires i < m
  {
    Cursor(n, m, i) <= p < Cursor(n, m, i + 1)
  }

  lemma RangesDisjoint(n: nat, m: nat, i: nat, j: nat, p: nat)
    requires i < m && j < m && InRange(n, m, i, p) && InRange(n, m, j, p)
    ensures i == j
  {
    hide Cursor;
    if i < j {
      CursorMonotone(n, m, i + 1, j);
    } else if j < i {
      CursorMonotone(n, m, j + 1, i);
    }
  }

  /** Every partition lies in some member's range. */
  lemma {:induction false} RangesCover(n: nat, m: nat, k: nat, p: nat) returns (i: nat)
    requires 0 < k <= m && p < Cursor(n, m, k)
    ensures i < k && InRange(n, m, i, p)
  {
    hide Cursor, Length;
    RangesPartition(n, m, k - 1);
    if p >= Cursor(n, m, k - 1) {
      i := k - 1;
    } else {
      i := RangesCover(n, m, k - 1, p);
    }
  }

  // --- The assignment as a value -----------------------------------------------------------------

  /** A topic that was not found counts as having no partitions. */
  function CountIn(counts: map<string, nat>, topic: string): nat {
    if topic in counts then counts[topic] else 0
  }

  function Range(topic: string, lo: nat, hi: nat): (r: seq<TopicPartition>)
    requires lo <= hi
  {
    seq(hi - lo, k requires 0 <= k < hi - lo => TopicPartition(topic, lo + k))
  }

  /** What member `i` of `m` gets of the topics. */
  function Share(topics: seq<string>, counts: map<string, nat>, m: nat, i: nat): (r: seq<TopicPartition>)
    requires i < m
  {
    if |topics| == 0 then []
    else
      var t := topics[|topics| - 1];
      CursorMonotone(CountIn(counts, t), m, i, i + 1);
      Share(topics[..|topics| - 1], counts, m, i)
      + Range(t, Cursor(CountIn(counts, t), m, i), Cursor(CountIn(counts, t), m, i + 1))
  }

  /** Each member with the share of its place in the order; members with nothing to read are listed too. */
  function Assigned(members: seq<string>, topics: seq<string>, counts: map<string, nat>): (r: Assignment) {
    SortMembers(members, StringLe);
    var ids := Sort(members, StringLe);
    map id | id in members :: Share(Sort(topics, StringLe), counts, |ids|, IndexIn(ids, id))
  }

  // --- The loops -----------------------------------------------------------------------------------

  /** Member `i` has `before[i]` and its range of the topic. */
  predicate GotRange(ids: seq<string>, topic: string, n: nat, before: Assignment, after: Assignment, i: nat)
    requires i < |ids|
  {
    && Cursor(n, |ids|, i) <= Cursor(n, |ids|, i + 1)
    && ids[i] in before && ids[i] in after
    && after[ids[i]] == before[ids[i]] + Range(topic, Cursor(n, |ids|, i), Cursor(n, |ids|, i + 1))
  }

  /** The first `k` members have their range of the topic, the others have what they had. */
  predicate Dealt(ids: seq<string>, topic: string, n: nat, before: Assignment, after: Assignment, k: nat)
    requires k <= |ids|
  {
    && after.Keys == before.Keys == (set id | id in ids)
    && (forall j | 0 <= j < k :: GotRange(ids, topic, n, before, after, j))
    && forall j | k <= j < |ids| :: after[ids[j]] == before[ids[j]]
  }

  /** Gives every member its range of one topic. */
  method AssignTopic(ids: seq<string>, topic: string, n: nat, before: Assignment) returns (result: Assignment)
    requires |ids| > 0 && Distinct(ids) && before.Keys == (set id | id in ids)
    ensures Dealt(ids, topic, n, before, result, |ids|)
  {
    result := before;
    var share, remainder, cursor := n / |ids|, n % |ids|, 0;
    RangesPartition(n, |ids|, 0);
    assert Dealt(ids, topic, n, before, result, 0);
    hide Cursor, Range, Length, Dealt, Distinct;
    for i := 0 to |ids|
      invariant Dealt(ids, topic, n, before, result, i) && cursor == Cursor(n, |ids|, i)
    {
      var count := if i < remainder then share + 1 else share;
      LengthIs(n, |ids|, i);
      RangesPartition(n, |ids|, i);
      DealtKeys(ids, topic, n, before, result, i);
      var mine := AppendRange(result[ids[i]], topic, cursor, count);
      DealNext(ids, topic, n, before, result, i);
      result := result[ids[i] := mine];
      cursor := cursor + count;
    }
  }

  lemma DealtKeys(ids: seq<string>, topic: string, n: nat, before: Assignment, r: Assignment, i: nat)
    requires i < |ids| && Dealt(ids, topic, n, before, r, i)
    ensures ids[i] in r
  {
  }

  lemma DealNext(ids: seq<string>, topic: string, n: nat, before: Assignment, r: Assignment, i: nat)
    requires i < |ids| && Distinct(ids) && Dealt(ids, topic, n, before, r, i) && ids[i] in r
    requires Cursor(n, |ids|, i) <= Cursor(n, |ids|, i + 1)
    ensures var mine := r[ids[i]] + Range(topic, Cursor(n, |ids|, i), Cursor(n, |ids|, i + 1));
            Dealt(ids, topic, n, before, r[ids[i] := mine], i + 1)
  {
    hide Cursor, Range;
    var after := r[ids[i] := r[ids[i]] + Range(topic, Cursor(n, |ids|, i), Cursor(n, |ids|, i + 1))];
    assert after.Keys == r.Keys;
    forall j | 0 <= j <= i
      ensures GotRange(ids, topic, n, before, after, j)
    {
      if j < i {
        assert GotRange(ids, topic, n, before, r, j) && ids[j] != ids[i];
      }
    }
  }

  lemma LengthIs(n: nat, m: nat, i: nat)
    requires m > 0
    ensures Length(n, m, i) == if i < n % m then n / m + 1 else n / m
  {
  }

  method AppendRange(before: seq<TopicPartition>, topic: string, cursor: nat, count: nat)
    returns (r: seq<TopicPartition>)
    ensures r == before + Range(topic, cursor, cursor + count)
  {
    r := before;
    for p := cursor to cursor + count
      invariant r == before + Range(topic, cursor, p)
    {
      r := r + [TopicPartition(topic, p)];
    }
  }

  /** Every member has its share of the topics. */
  predicate HasShares(ids: seq<string>, topics: seq<string>, counts: map<string, nat>, r: Assignment) {
    && r.Keys == (set id | id in ids)
    && forall i | 0 <= i < |ids| :: r[ids[i]] == Share(topics, counts, |ids|, i)
  }

  method AssignTopics(ids: seq<string>, topics: seq<string>, counts: map<string, nat>) returns (result: Assignment)
    requires |ids| > 0 && Distinct(ids)
    ensures HasShares(ids, topics, counts, result)
  {
    hide Distinct, HasShares, Dealt;
    result := map id | id in ids :: [];
    NoShares(ids, topics, counts, result);
    for k := 0 to |topics|
      invariant HasShares(ids, topics[..k], counts, result)
    {
      ghost var before := result;
      ShareKeys(ids, topics[..k], counts, before);
      var n := CountIn(counts, topics[k]);
      if n > 0 {
        result := AssignTopic(ids, topics[k], n, result);
      } else {
        ZeroRanges(ids, topics[k], before);
      }
      NextTopic(ids, topics, counts, k, before, result);
    }
    assert topics[..|topics|] == topics;
  }

  lemma ShareKeys(ids: seq<string>, topics: seq<string>, counts: map<string, nat>, r: Assignment)
    requires HasShares(ids, topics, counts, r)
    ensures r.Keys == (set id | id in ids)
  {
  }

  lemma NoShares(ids: seq<string>, topics: seq<string>, counts: map<string, nat>, r: Assignment)
    requires r == map id | id in ids :: []
    ensures HasShares(ids, topics[..0], counts, r)
  {
  }

  /** Skipping a topic without partitions is the same as dealing it out. */
  lemma ZeroRanges(ids: seq<string>, topic: string, r: Assignment)
    requires |ids| > 0 && r.Keys == (set id | id in ids)
    ensures Dealt(ids, topic, 0, r, r, |ids|)
  {
    forall i | 0 <= i < |ids|
      ensures GotRange(ids, topic, 0, r, r, i)
    {
      assert Cursor(0, |ids|, i) == 0 && Cursor(0, |ids|, i + 1) == 0;
      assert Range(topic, 0, 0) == [];
    }
  }

  lemma NextTopic(ids: seq<string>, topics: seq<string>, counts: map<string, nat>, k: nat,
      before: Assignment, after: Assignment)
    requires k < |topics| && HasShares(ids, topics[..k], counts, before)
    requires Dealt(ids, topics[k], CountIn(counts, topics[k]), before, after, |ids|)
    ensures HasShares(ids, topics[..k + 1], counts, after)
  {
    hide Cursor, Range;
    assert topics[..k + 1][..k] == topics[..k];
    forall i | 0 <= i < |ids|
      ensures after[ids[i]] == Share(topics[..k + 1], counts, |ids|, i)
    {
      assert GotRange(ids, topics[k], CountIn(counts, topics[k]), before, after, i);
    }
  }

  /** The assignment, for distinct members in any order and topics in any order. */
  method Assign(members: seq<string>, topics: seq<string>, counts: map<string, nat>) returns (result: Assignment)
    requires Distinct(members)
    ensures result == Assigned(members, topics, counts)
  {
    hide HasShares, Sort, Sorted, TotalOrder, StringLe;
    if |members| == 0 {
      return map[];
    }
    StringOrder();
    var ids := SortSlice(members, StringLe);
    var ts := SortSlice(topics, StringLe);
    SortMembers(members, StringLe);
    DistinctMultiset(members, ids);
    result := AssignTopics(ids, ts, counts);
    SharesAreAssigned(members, topics, counts, result);
  }

  lemma SharesAreAssigned(members: seq<string>, topics: seq<string>, counts: map<string, nat>, r: Assignment)
    requires HasShares(Sort(members, StringLe), Sort(topics, StringLe), counts, r)
    ensures r == Assigned(members, topics, counts)
  {
    hide Sort, Share;
    SortMembers(members, StringLe);
  }

  // --- What an assignment promises ---------------------------------------------------------------

  /** No partition is given to two members. */
  predicate Exclusive(r: Assignment) {
    forall a, b, tp | a in r && b in r && tp in r[a] && tp in r[b] :: a == b
  }

  /** A share holds exactly the member's range of each topic that is listed. */
  lemma {:induction false} ShareHolds(topics: seq<string>, counts: map<string, nat>, m: nat, i: nat, tp: TopicPartition)
    requires i < m
    ensures tp in Share(topics, counts, m, i)
       <==> tp.topic in topics && InRange(CountIn(counts, tp.topic), m, i, tp.partition)
  {
    hide Cursor;
    if |topics| > 0 {
      var k := |topics| - 1;
      var t := topics[k];
      ShareHolds(topics[..k], counts, m, i, tp);
      CursorMonotone(CountIn(counts, t), m, i, i + 1);
      RangeHolds(t, Cursor(CountIn(counts, t), m, i), Cursor(CountIn(counts, t), m, i + 1), tp);
      assert topics == topics[..k] + [t];
    }
  }

  lemma RangeHolds(topic: string, lo: nat, hi: nat, tp: TopicPartition)
    requires lo <= hi
    ensures tp in Range(topic, lo, hi) <==> tp.topic == topic && lo <= tp.partition < hi
  {
    if tp.topic == topic && lo <= tp.partition < hi {
      assert Range(topic, lo, hi)[tp.partition - lo] == tp;
    }
  }

  /** What a member of the group is given. */
  lemma AssignedHolds(members: seq<string>, topics: seq<string>, counts: map<string, nat>,
      id: string, tp: TopicPartition)
    requires id in members
    ensures id in Sort(members, StringLe) && |Sort(members, StringLe)| == |members| > 0
    ensures tp in Assigned(members, topics, counts)[id]
       <==> tp.topic in topics
            && InRange(CountIn(counts, tp.topic), |members|, IndexIn(Sort(members, StringLe), id), tp.partition)
  {
    hide Sort, Share, InRange;
    SortMembers(members, StringLe);
    SortMembers(topics, StringLe);
    ShareHolds(Sort(topics, StringLe), counts, |members|, IndexIn(Sort(members, StringLe), id), tp);
  }

  /** Every partition of a listed topic has exactly one owner, and nothing else is given out. */
  lemma AssignedOnce(members: seq<string>, topics: seq<string>, counts: map<string, nat>)
    requires Distinct(members)
    ensures Assigned(members, topics, counts).Keys == (set id | id in members)
    ensures Exclusive(Assigned(members, topics, counts))
    ensures forall id, tp | id in members && tp in Assigned(members, topics, counts)[id] ::
      tp.topic in topics && tp.partition < CountIn(counts, tp.topic)
    ensures |members| > 0 ==>
      forall tp: TopicPartition | tp.topic in topics && tp.partition < CountIn(counts, tp.topic) ::
      exists id :: id in members && tp in Assigned(members, topics, counts)[id]
  {
    var r := Assigned(members, topics, counts);
    hide Assigned, InRange, Sort, StringLe;
    assert r.Keys == (set id | id in members) by { AssignedKeys(members, topics, counts); }
    forall a, b, tp | a in members && b in members && tp in r[a] && tp in r[b]
      ensures a == b
    {
      OneOwner(members, topics, counts, a, b, tp);
    }
    forall id, tp | id in members && tp in r[id]
      ensures tp.topic in topics && tp.partition < CountIn(counts, tp.topic)
    {
      OnlyListed(members, topics, counts, id, tp);
    }
    forall tp: TopicPartition | |members| > 0 && tp.topic in topics && tp.partition < CountIn(counts, tp.topic)
      ensures exists id :: id in members && tp in r[id]
    {
      var id := OwnerOf(members, topics, counts, tp);
    }
  }

  lemma AssignedKeys(members: seq<string>, topics: seq<string>, counts: map<string, nat>)
    ensures Assigned(members, topics, counts).Keys == (set id | id in members)
  {
  }

  lemma OneOwner(members: seq<string>, topics: seq<string>, counts: map<string, nat>, a: string, b: string,
      tp: TopicPartition)
    requires a in members && b in members
    requires tp in Assigned(members, topics, counts)[a] && tp in Assigned(members, topics, counts)[b]
    ensures a == b
  {
    hide Assigned, InRange, Sort, StringLe;
    AssignedKeys(members, topics, counts);
    AssignedHolds(members, topics, counts, a, tp);
    AssignedHolds(members, topics, counts, b, tp);
    var ids := Sort(members, StringLe);
    RangesDisjoint(CountIn(counts, tp.topic), |members|, IndexIn(ids, a), IndexIn(ids, b), tp.partition);
  }

  lemma OnlyListed(members: seq<string>, topics: seq<string>, counts: map<string, nat>, id: string, tp: TopicPartition)
    requires id in members && tp in Assigned(members, topics, counts)[id]
    ensures tp.topic in topics && tp.partition < CountIn(counts, tp.topic)
  {
    hide Assigned, Cursor, Sort, StringLe;
    AssignedHolds(members, topics, counts, id, tp);
    var n, m, i := CountIn(counts, tp.topic), |members|, IndexIn(Sort(members, StringLe), id);
    CursorMonotone(n, m, i + 1, m);
    RangesPartition(n, m, i);
  }

  lemma OwnerOf(members: seq<string>, topics: seq<string>, counts: map<string, nat>, tp: TopicPartition)
      returns (id: string)
    requires Distinct(members) && |members| > 0 && tp.topic in topics && tp.partition < CountIn(counts, tp.topic)
    ensures id in members && tp in Assigned(members, topics, counts)[id]
  {
    hide Assigned, Cursor, Sort, StringLe;
    var n, m, ids := CountIn(counts, tp.topic), |members|, Sort(members, StringLe);
    SortMembers(members, StringLe);
    DistinctMultiset(members, ids);
    RangesPartition(n, m, 0);
    var i := RangesCover(n, m, m, tp.partition);
    id := ids[i];
    AssignedKeys(members, topics, counts);
    AssignedHolds(members, topics, counts, id, tp);
  }

  /** Neither the order of the members nor the order of the topics matters. */
  lemma AssignedIgnoresOrder(members: seq<string>, topics: seq<string>, members': seq<string>,
      topics': seq<string>, counts: map<string, nat>)
    requires multiset(members) == multiset(members') && multiset(topics) == multiset(topics')
    ensures Assigned(members, topics, counts) == Assigned(members', topics', counts)
  {
    hide Sort, Share, StringLe, TotalOrder;
    StringOrder();
    SortIgnoresOrder(members, members', StringLe);
    SortIgnoresOrder(topics, topics', StringLe);
    SortMembers(members, StringLe);
    SortMembers(members', StringLe);
  }
}
