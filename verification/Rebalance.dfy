/**
 Balancing a group inside the state machine. Maps are iterated in no particular order, and every
 replica has to reach the same result all the same.
 */
module Rebalance {
  import opened Ordering
  import opened RangeAssign
  import opened MetadataModel

  // --- What balancing promises -------------------------------------------------------------------

  /** Member `id` of the balanced group holds its slice of the eligible partitions. */
  lemma SliceHeld(g: Group, s: State, id: string) returns (keys: seq<Key>, i: nat)
    requires id in g.members
    ensures keys == SortedElements(Eligible(g.members, s), KeyLe)
    ensures id in SortedElements(g.members.Keys, StringLe) && i == IndexIn(SortedElements(g.members.Keys, StringLe), id)
    ensures i < |g.members| && Rebalanced(g, s).members[id].owned == SliceOf(keys, |g.members|, i)
  {
    hide SliceOf, SortedElements, Eligible;
    SortedElementsHold(g.members.Keys, StringLe);
    keys := SortedElements(Eligible(g.members, s), KeyLe);
    i := IndexIn(SortedElements(g.members.Keys, StringLe), id);
  }

  /** Sizes differ by at most one. */
  lemma SlicesBalanced(g: Group, s: State, id: string)
    requires id in g.members
    ensures |g.members| > 0
    ensures var n := |Rebalanced(g, s).members[id].owned| - |Eligible(g.members, s)| / |g.members|; n == 0 || n == 1
  {
    hide Rebalanced, Eligible, SortedElements, SliceOf;
    var keys, i := SliceHeld(g, s, id);
    SortedElementsHold(Eligible(g.members, s), KeyLe);
    SliceLength(keys, |g.members|, i);
  }

  lemma SliceLength(keys: seq<Key>, m: nat, i: nat)
    requires i < m
    ensures |SliceOf(keys, m, i)| == |keys| / m || |SliceOf(keys, m, i)| == |keys| / m + 1
  {
    hide SliceAt;
    SlicesPartition(|keys|, m, i);
    SlicesOrdered(|keys|, m, i, i + 1);
  }

  /** A member owns only eligible partitions, and no partition has two owners. */
  lemma OwnedOnce(g: Group, s: State, a: string, b: string, k: Key)
    requires a in g.members && b in g.members
    requires k in Rebalanced(g, s).members[a].owned && k in Rebalanced(g, s).members[b].owned
    ensures a == b && k in Eligible(g.members, s)
  {
    var keys, i := SliceHeld(g, s, a);
    var _, j := SliceHeld(g, s, b);
    hide Rebalanced, Eligible, SortedElements;
    SortedElementsHold(Eligible(g.members, s), KeyLe);
    SlicesDisjoint(keys, |g.members|, i, j, k);
  }

  lemma SlicesDisjoint(keys: seq<Key>, m: nat, i: nat, j: nat, k: Key)
    requires i < m && j < m && Distinct(keys) && k in SliceOf(keys, m, i) && k in SliceOf(keys, m, j)
    ensures i == j && k in keys
  {
    hide SliceAt;
    var x :| 0 <= x < |SliceOf(keys, m, i)| && SliceOf(keys, m, i)[x] == k;
    var y :| 0 <= y < |SliceOf(keys, m, j)| && SliceOf(keys, m, j)[y] == k;
    var p, q := SliceAt(|keys|, m, i) + x, SliceAt(|keys|, m, j) + y;
    SlicesOrdered(|keys|, m, i, i + 1);
    SlicesOrdered(|keys|, m, j, j + 1);
    assert keys[p] == k && keys[q] == k;
    assert p == q;
    if i < j {
      SlicesOrdered(|keys|, m, i + 1, j);
    } else if j < i {
      SlicesOrdered(|keys|, m, j + 1, i);
    }
  }

  /** Every eligible partition has an owner. */
  lemma OwnerExists(g: Group, s: State, k: Key) returns (id: string)
    requires |g.members| > 0 && k in Eligible(g.members, s)
    ensures id in g.members && k in Rebalanced(g, s).members[id].owned
  {
    hide Eligible, SortedElements, Rebalanced;
    var ids, keys := SortedElements(g.members.Keys, StringLe), SortedElements(Eligible(g.members, s), KeyLe);
    SortedElementsHold(g.members.Keys, StringLe);
    SortedElementsHold(Eligible(g.members, s), KeyLe);
    var p := IndexIn(keys, k);
    SlicesPartition(|keys|, |ids|, 0);
    var i := SliceCovering(|keys|, |ids|, |ids|, p);
    id := ids[i];
    assert id in g.members.Keys;
    var _, j := SliceHeld(g, s, id);
    SlicesOrdered(|keys|, |ids|, i, i + 1);
    assert SliceOf(keys, |ids|, i)[p - SliceAt(|keys|, |ids|, i)] == k;
  }

  lemma {:induction false} SliceCovering(n: nat, m: nat, j: nat, p: nat) returns (i: nat)
    requires 0 < j <= m && p < SliceAt(n, m, j)
    ensures i < j && SliceAt(n, m, i) <= p < SliceAt(n, m, i + 1)
  {
    hide SliceAt;
    SlicesPartition(n, m, j - 1);
    if p >= SliceAt(n, m, j - 1) {
      i := j - 1;
    } else {
      i := SliceCovering(n, m, j - 1, p);
    }
  }

  // --- Which slice, in terms of the state ----------------------------------------------------------

  predicate ComesBefore(j: Key, k: Key) {
    if j.topic == k.topic then j.partition < k.partition else StringLe(j.topic, k.topic)
  }

  /** The partitions of existing topics that a member subscribes to. */
  ghost function Wanted(s: State, members: map<string, Member>): set<Key> {
    set k | k in s.partitions && k.topic in s.topics && exists id :: id in members && k.topic in members[id].topics
  }

  ghost function MembersBefore(members: set<string>, id: string): set<string> {
    set other | other in members && other != id && StringLe(other, id)
  }

  ghost function KeysBefore(keys: set<Key>, k: Key): set<Key> {
    set j | j in keys && ComesBefore(j, k)
  }

  /** Place `r` of `n` is in slice `i` of `m`. */
  predicate Within(n: nat, m: nat, i: nat, r: nat)
    requires m > 0
  {
    i * n / m <= r < (i + 1) * n / m
  }

  /** The member's slice is the one with its place in the order, and so many wanted partitions come before this one. */
  ghost predicate InSlice(s: State, members: map<string, Member>, id: string, k: Key)
    requires id in members
  {
    var wanted := Wanted(s, members);
    && k in wanted
    && Within(|wanted|, |members|, |MembersBefore(members.Keys, id)|, |KeysBefore(wanted, k)|)
  }

  lemma SliceMeans(g: Group, s: State, id: string, k: Key)
    requires id in g.members
    ensures k in Rebalanced(g, s).members[id].owned <==> InSlice(s, g.members, id, k)
  {
    hide Rebalanced, SortedElements, IndexIn, SliceOf, StringLe, KeyLe, Within, MembersBefore, KeysBefore;
    var keys, i := SliceHeld(g, s, id);
    var e := Eligible(g.members, s);
    assert e == Wanted(s, g.members);
    hide Eligible, Wanted;
    MemberPlace(g.members.Keys, id);
    SortedElementsHold(e, KeyLe);
    InSliceOf(keys, |g.members|, i, k);
    if k in e {
      KeyPlace(e, k);
    }
  }

  lemma MemberPlace(members: set<string>, id: string)
    requires id in members
    ensures id in SortedElements(members, StringLe)
    ensures IndexIn(SortedElements(members, StringLe), id) == |MembersBefore(members, id)|
  {
    hide TotalOrder, SortedElements, IndexIn, Rank;
    StringOrder();
    hide StringLe;
    PlaceIsRank(members, StringLe, id);
    RankCounts(members, StringLe, id, MembersBefore(members, id));
  }

  lemma KeyPlace(e: set<Key>, k: Key)
    requires k in e
    ensures k in SortedElements(e, KeyLe)
    ensures IndexIn(SortedElements(e, KeyLe), k) == |KeysBefore(e, k)|
  {
    hide TotalOrder, SortedElements, IndexIn, Rank;
    KeyOrder();
    hide StringLe;
    PlaceIsRank(e, KeyLe, k);
    RankCounts(e, KeyLe, k, KeysBefore(e, k));
  }

  lemma InSliceOf(keys: seq<Key>, m: nat, i: nat, k: Key)
    requires i < m && Distinct(keys)
    ensures k in SliceOf(keys, m, i) <==> k in keys && Within(|keys|, m, i, IndexIn(keys, k))
  {
    SlicesOrdered(|keys|, m, i, i + 1);
    var lo, hi := SliceAt(|keys|, m, i), SliceAt(|keys|, m, i + 1);
    assert forall r: nat :: Within(|keys|, m, i, r) <==> lo <= r < hi;
    hide SliceAt, IndexIn, Within;
    if k in keys {
      var p := IndexIn(keys, k);
      if lo <= p < hi {
        assert keys[lo..hi][p - lo] == k;
      }
      if k in keys[lo..hi] {
        var x :| 0 <= x < hi - lo && keys[lo..hi][x] == k;
        assert keys[lo + x] == k;
      }
    }
  }

  /** Every member holds exactly its slice of the partitions that the group wants now. */
  ghost predicate HoldsSlices(s: State, g: Group) {
    forall id, k | id in g.members :: k in g.members[id].owned <==> InSlice(s, g.members, id, k)
  }

  /** The same members, but for what they own. */
  predicate SameButOwned(a: map<string, Member>, b: map<string, Member>) {
    a.Keys == b.Keys && forall id | id in a :: b[id] == a[id].(owned := b[id].owned)
  }

  lemma RebalancedHolds(g: Group, s: State)
    ensures var r := Rebalanced(g, s);
      && r.generation == g.generation && r.committed == g.committed
      && SameButOwned(g.members, r.members) && HoldsSlices(s, r)
  {
    hide InSlice, Eligible, SortedElements, SliceOf, StringLe, KeyLe, IndexIn;
    var r := Rebalanced(g, s);
    RebalancedOnlyMoves(g, s);
    SameMembers(g, s);
    forall id, k | id in r.members
      ensures k in r.members[id].owned <==> InSlice(s, r.members, id, k)
    {
      SliceMeans(g, s, id, k);
      SameSlice(s, g.members, r.members, id, k);
    }
  }

  lemma SameMembers(g: Group, s: State)
    ensures SameButOwned(g.members, Rebalanced(g, s).members)
  {
    hide Eligible, SortedElements, SliceOf, StringLe, KeyLe, IndexIn;
  }

  lemma SameSlice(s: State, a: map<string, Member>, b: map<string, Member>, id: string, k: Key)
    requires SameButOwned(a, b) && id in a
    ensures InSlice(s, a, id, k) <==> InSlice(s, b, id, k)
  {
    hide MembersBefore, KeysBefore, Within, Wanted;
    SameWanted(s, a, b);
    assert |a| == |a.Keys| && |b| == |b.Keys|;
  }

  lemma SameWanted(s: State, a: map<string, Member>, b: map<string, Member>)
    requires SameButOwned(a, b)
    ensures Wanted(s, a) == Wanted(s, b)
  {
    forall k ensures k in Wanted(s, a) <==> k in Wanted(s, b) {
      if id :| id in a && k.topic in a[id].topics {
        assert id in b && k.topic in b[id].topics;
      }
      if id :| id in b && k.topic in b[id].topics {
        assert id in a && k.topic in a[id].topics;
      }
    }
  }

  // --- The loops -----------------------------------------------------------------------------------

  /** The topics that some member subscribes to, whatever order the members come in. */
  method SubscribedTopics(members: map<string, Member>) returns (subscribed: set<string>)
    ensures forall t :: t in subscribed <==> Subscribed(members, t)
  {
    var ids := Iterate(members.Keys);
    subscribed := {};
    for i := 0 to |ids|
      invariant forall t :: t in subscribed <==> exists j | 0 <= j < i :: t in members[ids[j]].topics
    {
      subscribed := AddTopics(subscribed, members[ids[i]].topics);
    }
    forall t | Subscribed(members, t)
      ensures t in subscribed
    {
      var id :| id in members && t in members[id].topics;
      var j :| 0 <= j < |ids| && ids[j] == id;
    }
  }

  method AddTopics(before: set<string>, topics: seq<string>) returns (after: set<string>)
    ensures forall t :: t in after <==> t in before || t in topics
  {
    after := before;
    for i := 0 to |topics|
      invariant forall t :: t in after <==> t in before || t in topics[..i]
    {
      after := after + {topics[i]};
    }
  }

  /** The eligible partitions, in whatever order the map yields them. */
  method CollectEligible(members: map<string, Member>, s: State) returns (eligible: seq<Key>)
    ensures multiset(eligible) == multiset(Eligible(members, s))
  {
    var subscribed := SubscribedTopics(members);
    hide Subscribed;
    var keys := Iterate(s.partitions.Keys);
    eligible := [];
    for i := 0 to |keys|
      invariant Distinct(eligible)
      invariant forall k :: k in eligible <==> k in keys[..i] && k.topic in subscribed && k.topic in s.topics
    {
      if keys[i].topic in subscribed && keys[i].topic in s.topics {
        assert keys[i] !in keys[..i];
        eligible := eligible + [keys[i]];
      }
    }
    DistinctElements(eligible, Eligible(members, s));
  }

  /** Balances a group; the result does not depend on the order of any iteration. */
  method RebalanceGroup(g: Group, s: State) returns (r: Group)
    ensures r == Rebalanced(g, s)
    ensures r.generation == g.generation && r.committed == g.committed
    ensures SameButOwned(g.members, r.members) && HoldsSlices(s, r)
  {
    hide Eligible, TotalOrder, Sorted, SlicesDealt, Rebalanced, SortedElements, Sort, KeyLe, StringLe,
      HoldsSlices, SameButOwned;
    StringOrder();
    KeyOrder();
    RebalancedHolds(g, s);
    var eligible := CollectEligible(g.members, s);
    eligible := SortSlice(eligible, KeyLe);
    SortedElementsUnique(Eligible(g.members, s), eligible, KeyLe);
    var ids := Iterate(g.members.Keys);
    ids := SortSlice(ids, StringLe);
    SortedElementsUnique(g.members.Keys, ids, StringLe);
    SortedElementsHold(g.members.Keys, StringLe);
    r := DealSlices(g, ids, eligible);
    DealtIsRebalanced(g, s, r);
  }

  /** The first `k` members have their slices, the others are as they were. */
  predicate SlicesDealt(g: Group, ids: seq<string>, eligible: seq<Key>, r: Group, k: nat)
    requires k <= |ids|
  {
    && r == g.(members := r.members) && r.members.Keys == g.members.Keys
    && (forall j | 0 <= j < |ids| :: ids[j] in g.members)
    && (forall j | 0 <= j < k :: r.members[ids[j]] == g.members[ids[j]].(owned := SliceOf(eligible, |ids|, j)))
    && forall j | k <= j < |ids| :: r.members[ids[j]] == g.members[ids[j]]
  }

  /** Gives the members, in order, their slices. */
  method DealSlices(g: Group, ids: seq<string>, eligible: seq<Key>) returns (r: Group)
    requires Distinct(ids) && forall id | id in ids :: id in g.members
    ensures SlicesDealt(g, ids, eligible, r, |ids|)
  {
    hide SliceOf, Distinct;
    r := g;
    for i := 0 to |ids|
      invariant SlicesDealt(g, ids, eligible, r, i)
    {
      var mine := TakeSlice(eligible, |ids|, i);
      DealNext(g, ids, eligible, r, i);
      r := r.(members := r.members[ids[i] := r.members[ids[i]].(owned := mine)]);
    }
  }

  method TakeSlice(eligible: seq<Key>, m: nat, i: nat) returns (mine: seq<Key>)
    requires i < m
    ensures mine == SliceOf(eligible, m, i)
  {
    SlicesOrdered(|eligible|, m, i, i + 1);
    var lo := i * |eligible| / m;
    var hi := (i + 1) * |eligible| / m;
    mine := eligible[lo..hi];
  }

  lemma DealNext(g: Group, ids: seq<string>, eligible: seq<Key>, r: Group, i: nat)
    requires i < |ids| && Distinct(ids) && SlicesDealt(g, ids, eligible, r, i)
    ensures ids[i] in r.members
    ensures SlicesDealt(g, ids, eligible,
                        r.(members := r.members[ids[i] := r.members[ids[i]].(
                          owned := SliceOf(eligible, |ids|, i))]), i + 1)
  {
    hide SliceOf;
  }

  lemma DealtIsRebalanced(g: Group, s: State, r: Group)
    requires SlicesDealt(g, SortedElements(g.members.Keys, StringLe), SortedElements(Eligible(g.members, s), KeyLe), r,
                         |SortedElements(g.members.Keys, StringLe)|)
    ensures r == Rebalanced(g, s)
  {
    hide Eligible, SortedElements, SliceOf, StringLe, KeyLe, Rebalanced, SlicesDealt;
    DealtKeys(g, SortedElements(g.members.Keys, StringLe), SortedElements(Eligible(g.members, s), KeyLe), r);
    forall id | id in g.members
      ensures r.members[id] == Rebalanced(g, s).members[id]
    {
      DealtTo(g, s, r, id);
    }
    RebalancedOnlyMoves(g, s);
    assert r.members == Rebalanced(g, s).members;
  }

  lemma DealtKeys(g: Group, ids: seq<string>, keys: seq<Key>, r: Group)
    requires SlicesDealt(g, ids, keys, r, |ids|)
    ensures r == g.(members := r.members) && r.members.Keys == g.members.Keys
  {
  }

  lemma DealtTo(g: Group, s: State, r: Group, id: string)
    requires id in g.members
    requires SlicesDealt(g, SortedElements(g.members.Keys, StringLe), SortedElements(Eligible(g.members, s), KeyLe), r,
                         |SortedElements(g.members.Keys, StringLe)|)
    ensures r.members[id] == Rebalanced(g, s).members[id]
  {
    hide Eligible, SortedElements, SliceOf, StringLe, KeyLe, IndexIn;
    SortedElementsHold(g.members.Keys, StringLe);
    var ids := SortedElements(g.members.Keys, StringLe);
    assert ids[IndexIn(ids, id)] == id;
  }

  lemma RebalancedOnlyMoves(g: Group, s: State)
    ensures Rebalanced(g, s) == g.(members := Rebalanced(g, s).members)
  {
    hide Eligible, SortedElements, SliceOf, StringLe, KeyLe, IndexIn;
  }
}
