/** `scripts/ci_test_policy.py`: indivisible work groups balanced over isolated databases,
    with an optional cap on the historical groups of one shard. */
module TestPolicy {
  import opened Wrappers
  import opened TextOrder
  import opened Sorting
  import opened Totals
  import opened Mapping
  import opened Greedy
  import LongestFirst
  import CappedPlacement

  datatype TestGroup = TestGroup(key: string, file: string, historical: bool, weight: real)

  datatype PolicyError = InvalidCountOrDuplicate | InvalidCapacity | InvalidDuration | NoEligibleShard

  function KeyOf(g: TestGroup): string { g.key }

  function GroupWeight(g: TestGroup): real { g.weight }

  predicate IsHistorical(g: TestGroup) { g.historical }

  function GroupPolicy(limit: Option<int>): Policy<TestGroup> { Policy(GroupWeight, IsHistorical, limit) }

  predicate HeavierFirst(a: TestGroup, b: TestGroup) {
    a.weight > b.weight || (a.weight == b.weight && TextLeq(a.key, b.key))
  }

  predicate ByKey(a: TestGroup, b: TestGroup) { TextLeq(a.key, b.key) }

  lemma OrdersAreTotal()
    ensures Preorder(HeavierFirst) && Preorder(ByKey)
  {
    forall a: TestGroup, b: TestGroup
      ensures (HeavierFirst(a, b) || HeavierFirst(b, a)) && (ByKey(a, b) || ByKey(b, a))
    {
      TextTotal(a.key, b.key);
    }
    forall a: TestGroup, b: TestGroup, c: TestGroup
      ensures HeavierFirst(a, b) && HeavierFirst(b, c) ==> HeavierFirst(a, c)
      ensures ByKey(a, b) && ByKey(b, c) ==> ByKey(a, c)
    {
      if TextLeq(a.key, b.key) && TextLeq(b.key, c.key) {
        TextTransitive(a.key, b.key, c.key);
      }
    }
  }

  lemma UniqueKeysHaveNoTies(groups: seq<TestGroup>)
    requires Distinct(Map(KeyOf, groups))
    ensures NoTies(HeavierFirst, groups)
  {
    forall a, b | a in groups && b in groups && HeavierFirst(a, b) && HeavierFirst(b, a)
      ensures a == b
    {
      TextAntisymmetric(a.key, b.key);
      var i :| 0 <= i < |groups| && groups[i] == a;
      var j :| 0 <= j < |groups| && groups[j] == b;
      assert Map(KeyOf, groups)[i] == Map(KeyOf, groups)[j];
    }
  }

  predicate CapacityFits(groups: seq<TestGroup>, count: int, limit: Option<int>) {
    limit.Some? ==> limit.value >= 1 && Count(IsHistorical, groups) <= count * limit.value
  }

  predicate Timed(groups: seq<TestGroup>) {
    forall g | g in groups :: g.weight > 0.0
  }

  function SortBuckets(bs: seq<seq<TestGroup>>): (r: seq<seq<TestGroup>>)
    ensures |r| == |bs| && forall i | 0 <= i < |bs| :: r[i] == Sort(ByKey, bs[i])
  {
    seq(|bs|, i requires 0 <= i < |bs| => Sort(ByKey, bs[i]))
  }

  /** What `partition_groups` returns or raises. */
  function Partition(groups: seq<TestGroup>, count: int, limit: Option<int>): Result<seq<seq<TestGroup>>, PolicyError> {
    if count < 1 || count > |groups| || !Distinct(Map(KeyOf, groups)) then Err(InvalidCountOrDuplicate)
    else if !CapacityFits(groups, count, limit) then Err(InvalidCapacity)
    else if !Timed(groups) then Err(InvalidDuration)
    else
      match Place(GroupPolicy(limit), count, Sort(HeavierFirst, groups))
      case None => Err(NoEligibleShard)
      case Some(bs) => Ok(SortBuckets(bs))
  }

  ghost predicate Admitted(groups: seq<TestGroup>, count: int, limit: Option<int>) {
    1 <= count <= |groups| && Distinct(Map(KeyOf, groups)) && CapacityFits(groups, count, limit) && Timed(groups)
  }

  lemma OrderFacts(groups: seq<TestGroup>)
    ensures Preorder(HeavierFirst) && Preorder(ByKey)
    ensures var order := Sort(HeavierFirst, groups);
            Sorted(HeavierFirst, order) && multiset(order) == multiset(groups) && |order| == |groups|
  {
    OrdersAreTotal();
    SortSorts(HeavierFirst, groups);
    assert |Sort(HeavierFirst, groups)| == |multiset(groups)|;
  }

  lemma PlacementFacts(groups: seq<TestGroup>, count: nat, limit: Option<int>)
    requires Admitted(groups, count, limit)
    ensures var order := Sort(HeavierFirst, groups);
            && Preorder(ByKey) && multiset(order) == multiset(groups) && |order| == |groups|
            && Positive(GroupPolicy(limit), order)
            && Place(GroupPolicy(limit), count, order).Some?
            && multiset(Flatten(Place(GroupPolicy(limit), count, order).value)) == multiset(groups)
  {
    OrderFacts(groups);
    var order := Sort(HeavierFirst, groups);
    CountIgnoresOrder(IsHistorical, order, groups);
    assert count * (if limit.Some? then limit.value else 0) == (if limit.Some? then limit.value else 0) * count;
    forall g | g in order ensures g.weight > 0.0 {
      assert g in multiset(order);
    }
    PlaceNeverStuck(GroupPolicy(limit), count, order);
    PlaceKeepsItems(GroupPolicy(limit), count, order);
  }

  /** Admitted inputs are always partitioned: a shard is eligible for every group. */
  lemma PartitionNeverStuck(groups: seq<TestGroup>, count: int, limit: Option<int>)
    ensures Partition(groups, count, limit).Ok? <==> Admitted(groups, count, limit)
    ensures Partition(groups, count, limit) != Err(NoEligibleShard)
  {
    if Admitted(groups, count, limit) {
      PlacementFacts(groups, count, limit);
    }
  }

  /** What each refusal means; they are checked in this order. */
  lemma RefusalsAreTrue(groups: seq<TestGroup>, count: int, limit: Option<int>)
    ensures var r := Partition(groups, count, limit);
            && (r == Err(InvalidCountOrDuplicate) <==>
                  count < 1 || count > |groups| || exists i, j :: 0 <= i < j < |groups| && groups[i].key == groups[j].key)
            && (r == Err(InvalidCapacity) ==> limit.Some? && (limit.value < 1 || Count(IsHistorical, groups) > count * limit.value))
            && (r == Err(InvalidDuration) ==> exists g :: g in groups && g.weight <= 0.0)
  {
    KeysDistinct(groups);
    assert CapacityFits(groups, count, limit) || (limit.Some? && (limit.value < 1 || Count(IsHistorical, groups) > count * limit.value));
    PartitionNeverStuck(groups, count, limit);
  }

  lemma KeysDistinct(groups: seq<TestGroup>)
    ensures !Distinct(Map(KeyOf, groups)) <==> exists i, j :: 0 <= i < j < |groups| && groups[i].key == groups[j].key
  {
    if !Distinct(Map(KeyOf, groups)) {
      var i, j :| 0 <= i < j < |groups| && Map(KeyOf, groups)[i] == Map(KeyOf, groups)[j];
      assert groups[i].key == groups[j].key;
    }
    if i, j :| 0 <= i < j < |groups| && groups[i].key == groups[j].key {
      assert Map(KeyOf, groups)[i] == Map(KeyOf, groups)[j];
    }
  }

  /** The disjoint union of the shards is the input inventory. */
  lemma PartitionKeepsEveryGroup(groups: seq<TestGroup>, count: nat, limit: Option<int>)
    requires Partition(groups, count, limit).Ok?
    ensures |Partition(groups, count, limit).value| == count
    ensures multiset(Flatten(Partition(groups, count, limit).value)) == multiset(groups)
  {
    PartitionNeverStuck(groups, count, limit);
    PlacementFacts(groups, count, limit);
    var bs := Place(GroupPolicy(limit), count, Sort(HeavierFirst, groups)).value;
    forall i | 0 <= i < count ensures multiset(SortBuckets(bs)[i]) == multiset(bs[i]) {
      SortSorts(ByKey, bs[i]);
    }
    FlattenPermuted(SortBuckets(bs), bs);
  }

  /** Every shard is nonempty, listed by key and within the historical cap. */
  lemma PartitionShape(groups: seq<TestGroup>, count: nat, limit: Option<int>, i: nat)
    requires Partition(groups, count, limit).Ok? && i < count
    ensures |Partition(groups, count, limit).value| == count
    ensures var shard := Partition(groups, count, limit).value[i];
            && shard != [] && Sorted(TextLeq, Map(KeyOf, shard))
            && (limit.Some? ==> Count(IsHistorical, shard) <= limit.value)
  {
    PartitionNeverStuck(groups, count, limit);
    PlacementFacts(groups, count, limit);
    var order := Sort(HeavierFirst, groups);
    var bs := Place(GroupPolicy(limit), count, order).value;
    PlaceLeavesNoneEmpty(GroupPolicy(limit), count, order);
    SortSorts(ByKey, bs[i]);
    assert |Sort(ByKey, bs[i])| == |multiset(bs[i])|;
    CountIgnoresOrder(IsHistorical, Sort(ByKey, bs[i]), bs[i]);
    if limit.Some? {
      PlaceWithinLimit(GroupPolicy(limit), count, order);
    }
  }

  function BucketsOf(groups: seq<TestGroup>, count: nat, limit: Option<int>): Option<seq<seq<TestGroup>>> {
    Place(GroupPolicy(limit), count, Sort(HeavierFirst, groups))
  }

  /** The i-th shard weighs what the i-th bucket did, and holds as many historical groups. */
  lemma ShardIsBucket(groups: seq<TestGroup>, count: nat, limit: Option<int>, i: nat)
    requires Partition(groups, count, limit).Ok? && i < count
    ensures |Partition(groups, count, limit).value| == count && BucketsOf(groups, count, limit).Some?
    ensures var shard, bucket := Partition(groups, count, limit).value[i], BucketsOf(groups, count, limit).value[i];
            Total(GroupWeight, shard) == Load(GroupPolicy(limit), bucket) && Count(IsHistorical, shard) == Count(IsHistorical, bucket)
  {
    PartitionNeverStuck(groups, count, limit);
    PlacementFacts(groups, count, limit);
    var bucket := BucketsOf(groups, count, limit).value[i];
    SortSorts(ByKey, bucket);
    TotalIgnoresOrder(GroupWeight, Sort(ByKey, bucket), bucket);
    CountIgnoresOrder(IsHistorical, Sort(ByKey, bucket), bucket);
  }

  lemma DescendingOrder(groups: seq<TestGroup>, count: nat, limit: Option<int>)
    requires Partition(groups, count, limit).Ok?
    ensures var order := Sort(HeavierFirst, groups);
            && LongestFirst.Descending(GroupWeight, order) && Positive(GroupPolicy(limit), order)
            && multiset(order) == multiset(groups) && order[..|order|] == order
  {
    PartitionNeverStuck(groups, count, limit);
    PlacementFacts(groups, count, limit);
    OrderFacts(groups);
  }

  lemma UncappedShardWithin(groups: seq<TestGroup>, count: nat, other: seq<seq<TestGroup>>, t: real, i: nat)
    requires Partition(groups, count, None).Ok? && i < count
    requires LongestFirst.Assignment(GroupWeight, groups, count, other, t)
    ensures |Partition(groups, count, None).value| == count
    ensures LongestFirst.Within(count, Total(GroupWeight, Partition(groups, count, None).value[i]), t)
  {
    DescendingOrder(groups, count, None);
    ShardIsBucket(groups, count, None, i);
    var order := Sort(HeavierFirst, groups);
    LongestFirst.LongestFirstPrefix(GroupPolicy(None), count, order, |order|, other, t);
  }

  /** Without a cap, the balanced shards are within 4/3 - 1/(3m) of every assignment of the
      same groups to as many shards. */
  lemma UncappedIsNearOptimal(groups: seq<TestGroup>, count: nat, other: seq<seq<TestGroup>>, t: real, i: nat)
    requires Partition(groups, count, None).Ok? && i < count
    requires LongestFirst.Assignment(GroupWeight, groups, count, other, t)
    ensures |Partition(groups, count, None).value| == count
    ensures LongestFirst.WithinFourThirds(count, Total(GroupWeight, Partition(groups, count, None).value[i]), t)
  {
    UncappedShardWithin(groups, count, other, t, i);
    LongestFirst.WithinIsProduct(count, Total(GroupWeight, Partition(groups, count, None).value[i]), t);
  }

  lemma CappedShardWithin(groups: seq<TestGroup>, count: nat, other: seq<seq<TestGroup>>, t: real, i: nat)
    requires Partition(groups, count, Some(1)).Ok? && i < count
    requires LongestFirst.Assignment(GroupWeight, groups, count, other, t)
    ensures |Partition(groups, count, Some(1)).value| == count
    ensures CappedPlacement.CapWithin(count, Total(GroupWeight, Partition(groups, count, Some(1)).value[i]), t)
  {
    DescendingOrder(groups, count, Some(1));
    ShardIsBucket(groups, count, Some(1), i);
    var order := Sort(HeavierFirst, groups);
    CappedPlacement.CappedPrefix(GroupPolicy(Some(1)), count, order, |order|, other, t);
  }

  /** With at most one historical group per shard, as the budget search asks, the shards are
      within max(3/2, 5/3 - 2/(3m)) of every assignment of the same groups, even one that
      ignores the cap. */
  lemma CappedIsNearOptimal(groups: seq<TestGroup>, count: nat, other: seq<seq<TestGroup>>, t: real, i: nat)
    requires Partition(groups, count, Some(1)).Ok? && i < count
    requires LongestFirst.Assignment(GroupWeight, groups, count, other, t)
    ensures |Partition(groups, count, Some(1)).value| == count
    ensures CappedPlacement.WithinFiveThirds(count, Total(GroupWeight, Partition(groups, count, Some(1)).value[i]), t)
  {
    CappedShardWithin(groups, count, other, t, i);
    CappedPlacement.CapWithinIsProduct(count, Total(GroupWeight, Partition(groups, count, Some(1)).value[i]), t);
  }

  lemma OrderBelow(groups: seq<TestGroup>, count: nat, limit: Option<int>, top: real)
    requires Partition(groups, count, limit).Ok? && forall g | g in groups :: g.weight <= top
    ensures BucketsOf(groups, count, limit).Some? && top >= 0.0
    ensures forall g | g in Sort(HeavierFirst, groups) :: 0.0 <= GroupWeight(g) <= top
  {
    DescendingOrder(groups, count, limit);
    var order := Sort(HeavierFirst, groups);
    forall g | g in order ensures 0.0 <= GroupWeight(g) <= top {
      assert g in multiset(order);
    }
    assert groups[0] in multiset(order);
  }

  lemma BucketSpread(groups: seq<TestGroup>, count: nat, limit: Option<int>, top: real, i: nat, j: nat)
    requires Partition(groups, count, limit).Ok? && i < count && j < count
    requires forall g | g in groups :: g.weight <= top
    ensures BucketsOf(groups, count, limit).Some? && top >= 0.0
    ensures var bs := BucketsOf(groups, count, limit).value;
            Load(GroupPolicy(limit), bs[i]) - Load(GroupPolicy(limit), bs[j]) <= Times(top, Count(IsHistorical, bs[i]) + 1)
  {
    OrderBelow(groups, count, limit, top);
    CappedPlacement.CappedSpread(GroupPolicy(limit), count, Sort(HeavierFirst, groups), top);
  }

  lemma FreeBucketSpread(groups: seq<TestGroup>, count: nat, top: real, i: nat, j: nat)
    requires Partition(groups, count, None).Ok? && i < count && j < count
    requires forall g | g in groups :: g.weight <= top
    ensures BucketsOf(groups, count, None).Some?
    ensures var bs := BucketsOf(groups, count, None).value;
            Load(GroupPolicy(None), bs[i]) - Load(GroupPolicy(None), bs[j]) <= top
  {
    OrderBelow(groups, count, None, top);
    LongestFirst.Spread(GroupPolicy(None), count, Sort(HeavierFirst, groups), top);
  }

  /** Any two shards differ by at most the heaviest group, and once more that for each
      historical group of the heavier shard: with a cap, by at most cap + 1 times the heaviest. */
  lemma PartitionSpread(groups: seq<TestGroup>, count: nat, limit: Option<int>, top: real, i: nat, j: nat)
    requires Partition(groups, count, limit).Ok? && i < count && j < count
    requires forall g | g in groups :: g.weight <= top
    ensures |Partition(groups, count, limit).value| == count
    ensures var shards := Partition(groups, count, limit).value;
            var spread := Total(GroupWeight, shards[i]) - Total(GroupWeight, shards[j]);
            && spread <= Times(top, Count(IsHistorical, shards[i]) + 1)
            && (limit.Some? ==> limit.value >= 1 && spread <= Times(top, limit.value + 1))
            && (limit == Some(1) ==> spread <= 2.0 * top)
            && (limit.None? ==> spread <= top)
  {
    BucketSpread(groups, count, limit, top, i, j);
    ShardIsBucket(groups, count, limit, i);
    ShardIsBucket(groups, count, limit, j);
    PartitionNeverStuck(groups, count, limit);
    if limit.Some? {
      PartitionShape(groups, count, limit, i);
      CappedPlacement.TimesMore(top, Count(IsHistorical, BucketsOf(groups, count, limit).value[i]) + 1, limit.value + 1);
      assert Times(top, 2) == Times(top, 0) + top + top;
    } else {
      FreeBucketSpread(groups, count, top, i, j);
    }
  }

  /** Shards do not depend on the order of the input. */
  lemma PartitionIgnoresOrder(groups: seq<TestGroup>, permuted: seq<TestGroup>, count: int, limit: Option<int>)
    requires multiset(groups) == multiset(permuted)
    ensures Partition(groups, count, limit) == Partition(permuted, count, limit)
  {
    SameChecks(groups, permuted);
    CountIgnoresOrder(IsHistorical, groups, permuted);
    if Distinct(Map(KeyOf, groups)) {
      OrdersAreTotal();
      UniqueKeysHaveNoTies(groups);
      SortIgnoresOrder(HeavierFirst, groups, permuted);
    }
  }

  lemma SameChecks(groups: seq<TestGroup>, permuted: seq<TestGroup>)
    requires multiset(groups) == multiset(permuted)
    ensures |groups| == |permuted| && Timed(groups) == Timed(permuted)
    ensures Distinct(Map(KeyOf, groups)) == Distinct(Map(KeyOf, permuted))
  {
    assert |groups| == |multiset(groups)| == |multiset(permuted)| == |permuted|;
    MapIgnoresOrder(KeyOf, groups, permuted);
    DistinctIsOnce(Map(KeyOf, groups));
    DistinctIsOnce(Map(KeyOf, permuted));
    SameTimes(groups, permuted);
  }

  lemma SameTimes(groups: seq<TestGroup>, permuted: seq<TestGroup>)
    requires multiset(groups) == multiset(permuted)
    ensures Timed(groups) == Timed(permuted)
  {
    forall g ensures g in groups <==> g in permuted {
      assert g in multiset(groups) <==> g in multiset(permuted);
    }
  }

  lemma DistinctIsOnce<T(!new)>(s: seq<T>)
    ensures Distinct(s) <==> forall x :: multiset(s)[x] <= 1
  {
    if Distinct(s) {
      forall x ensures multiset(s)[x] <= 1 {
        DistinctOnce(s, x);
      }
    } else {
      var i, j :| 0 <= i < j < |s| && s[i] == s[j];
      assert s == s[..i] + [s[i]] + s[i + 1..];
      assert s[j] in s[i + 1..];
      assert multiset(s)[s[i]] >= 2;
    }
  }

  lemma {:induction false} DistinctOnce<T>(s: seq<T>, x: T)
    requires Distinct(s)
    ensures multiset(s)[x] <= 1
  {
    if s != [] {
      var n := |s| - 1;
      assert s == s[..n] + [s[n]];
      DistinctOnce(s[..n], x);
      assert s[n] !in s[..n];
      assert s[n] !in multiset(s[..n]);
    }
  }

  /** `partition_groups`. */
  method PartitionGroups(groups: seq<TestGroup>, count: int, limit: Option<int>)
    returns (r: Result<seq<seq<TestGroup>>, PolicyError>)
    ensures r == Partition(groups, count, limit)
  {
    if count < 1 || count > |groups| || !Distinct(Map(KeyOf, groups)) {
      return Err(InvalidCountOrDuplicate);
    }
    if limit.Some? && (limit.value < 1 || Count(IsHistorical, groups) > count * limit.value) {
      return Err(InvalidCapacity);
    }
    var filled := FillShards(Sort(HeavierFirst, groups), count, limit);
    FilledIsPartition(groups, count, limit, filled);
    match filled
    case Err(e) => r := Err(e);
    case Ok(bs) => r := Ok(SortBuckets(bs));
  }

  lemma CapacityCoversOrder(groups: seq<TestGroup>, order: seq<TestGroup>, count: nat, limit: Option<int>)
    requires count >= 1 && CapacityFits(groups, count, limit) && multiset(order) == multiset(groups)
    ensures Place(GroupPolicy(limit), count, order).Some?
  {
    CountIgnoresOrder(IsHistorical, order, groups);
    assert limit.Some? ==> count * limit.value == limit.value * count;
    PlaceNeverStuck(GroupPolicy(limit), count, order);
  }

  lemma FilledIsPartition(groups: seq<TestGroup>, count: int, limit: Option<int>, filled: Result<seq<seq<TestGroup>>, PolicyError>)
    requires 1 <= count <= |groups| && Distinct(Map(KeyOf, groups)) && CapacityFits(groups, count, limit)
    requires Filled(Sort(HeavierFirst, groups), count, limit, filled)
    ensures Partition(groups, count, limit) == match filled case Err(e) => Err(e) case Ok(bs) => Ok(SortBuckets(bs))
  {
    OrderFacts(groups);
    SameTimes(groups, Sort(HeavierFirst, groups));
    CapacityCoversOrder(groups, Sort(HeavierFirst, groups), count, limit);
  }

  /** The loop fails on the first nonpositive duration, or where no shard is eligible. */
  ghost predicate Filled(order: seq<TestGroup>, count: nat, limit: Option<int>, r: Result<seq<seq<TestGroup>>, PolicyError>) {
    match r
    case Ok(bs) => Timed(order) && Place(GroupPolicy(limit), count, order) == Some(bs)
    case Err(e) => || (e == InvalidDuration && !Timed(order))
                   || (e == NoEligibleShard && Place(GroupPolicy(limit), count, order).None?)
  }

  /** The placement loop over the mutable `buckets`, `costs` and `historical_counts`. */
  method FillShards(order: seq<TestGroup>, count: nat, limit: Option<int>)
    returns (r: Result<seq<seq<TestGroup>>, PolicyError>)
    requires count >= 1
    ensures Filled(order, count, limit, r)
  {
    ghost var p := GroupPolicy(limit);
    var buckets: seq<seq<TestGroup>> := seq(count, _ => []);
    var costs := seq(count, _ => 0.0);
    var historicalCounts: seq<nat> := seq(count, _ => 0);
    for n := 0 to |order|
      invariant Place(p, count, order[..n]) == Some(buckets)
      invariant Ledger(p, buckets, costs, historicalCounts)
      invariant Timed(order[..n])
    {
      var group := order[n];
      assert order[..n + 1] == order[..n] + [group];
      if group.weight <= 0.0 {
        assert group in order;
        return Err(InvalidDuration);
      }
      var index := CheapestEligible(costs, historicalCounts, group, limit);
      PlaceOneMore(p, order, n, buckets, limit, index, costs, historicalCounts);
      if index < 0 {
        StuckForGood(p, count, order, n + 1);
        return Err(NoEligibleShard);
      }
      LedgerKept(p, buckets, costs, historicalCounts, index, group);
      buckets := buckets[index := buckets[index] + [group]];
      costs := costs[index := costs[index] + group.weight];
      historicalCounts := historicalCounts[index := historicalCounts[index] + if group.historical then 1 else 0];
    }
    assert order[..|order|] == order;
    r := Ok(buckets);
  }

  lemma PlaceOneMore(p: Policy<TestGroup>, order: seq<TestGroup>, n: nat, bs: seq<seq<TestGroup>>, limit: Option<int>, index: int, costs: seq<real>, counts: seq<nat>)
    requires p == GroupPolicy(limit) && n < |order| && Place(p, |bs|, order[..n]) == Some(bs)
    requires Ledger(p, bs, costs, counts) && Cheapest(costs, counts, order[n], limit, |bs|, index)
    ensures Place(p, |bs|, order[..n + 1]) == if index < 0 then None else Some(bs[index := bs[index] + [order[n]]])
  {
    assert order[..n + 1][..n] == order[..n];
    ChooseIsCheapest(bs, order[n], limit, index, costs, counts);
  }

  /** `costs` and `historical_counts` are the totals of the buckets. */
  ghost predicate Ledger(p: Policy<TestGroup>, bs: seq<seq<TestGroup>>, costs: seq<real>, counts: seq<nat>) {
    && |bs| == |costs| == |counts|
    && (forall j | 0 <= j < |bs| :: costs[j] == Load(p, bs[j]))
    && (forall j | 0 <= j < |bs| :: counts[j] == Count(p.historical, bs[j]))
  }

  lemma LedgerKept(p: Policy<TestGroup>, bs: seq<seq<TestGroup>>, costs: seq<real>, counts: seq<nat>, i: nat, g: TestGroup)
    requires Ledger(p, bs, costs, counts) && i < |bs| && p.weight == GroupWeight && p.historical == IsHistorical
    ensures Ledger(p, bs[i := bs[i] + [g]], costs[i := costs[i] + g.weight],
                   counts[i := counts[i] + if g.historical then 1 else 0])
  {
    TotalSnoc(GroupWeight, bs[i], g);
    assert (bs[i] + [g])[..|bs[i]|] == bs[i];
  }

  predicate Open(counts: seq<nat>, group: TestGroup, limit: Option<int>, j: nat)
    requires j < |counts|
  {
    !group.historical || limit.None? || counts[j] < limit.value
  }

  /** The cheapest eligible shard, the lowest index among equals; -1 where none is eligible and
      the source raises. */
  method CheapestEligible(costs: seq<real>, counts: seq<nat>, group: TestGroup, limit: Option<int>)
    returns (index: int)
    requires |costs| == |counts|
    ensures Cheapest(costs, counts, group, limit, |costs|, index)
  {
    index := -1;
    for k := 0 to |costs|
      invariant Cheapest(costs, counts, group, limit, k, index)
    {
      if Open(counts, group, limit, k) && (index < 0 || costs[k] < costs[index]) {
        index := k;
      }
    }
  }

  ghost predicate Cheapest(costs: seq<real>, counts: seq<nat>, group: TestGroup, limit: Option<int>, n: nat, index: int)
    requires n <= |costs| == |counts|
  {
    && -1 <= index < n
    && (index == -1 ==> forall j | 0 <= j < n :: !Open(counts, group, limit, j))
    && (index >= 0 ==>
          && Open(counts, group, limit, index)
          && forall j | 0 <= j < n && Open(counts, group, limit, j) ::
               costs[index] < costs[j] || (costs[index] == costs[j] && index <= j))
  }

  lemma ChooseIsCheapest(bs: seq<seq<TestGroup>>, x: TestGroup, limit: Option<int>, index: int, costs: seq<real>, counts: seq<nat>)
    requires Ledger(GroupPolicy(limit), bs, costs, counts)
    requires Cheapest(costs, counts, x, limit, |bs|, index)
    ensures Choose(GroupPolicy(limit), bs, x, |bs|) == if index == -1 then None else Some(index)
  {
    var p := GroupPolicy(limit);
    forall j | 0 <= j < |bs| ensures Eligible(p, bs[j], x) == Open(counts, x, limit, j) {}
    var r := Choose(p, bs, x, |bs|);
    if r.Some? {
      assert Open(counts, x, limit, r.value);
    } else if index >= 0 {
      assert Eligible(p, bs[index], x);
    }
  }
}
