/** How tight the balance of `partition_groups` under its cap is: concrete selections, for any
    weight and for any even number of shards, on which its bounds are reached. */
module TightPolicies {
  import opened Wrappers
  import opened TextOrder
  import opened Sorting
  import opened Totals
  import opened Mapping
  import opened Greedy
  import opened TestPolicy
  import LongestFirst
  import TightCases

  /** Groups of one weight, the historical ones at the given positions. */
  function Evenly(n: nat, weight: real, historical: set<nat>): (groups: seq<TestGroup>)
    ensures |groups| == n
    ensures forall k: nat | k < n :: groups[k] == TestGroup(Letters(k), "", k in historical, weight)
  {
    seq(n, k requires 0 <= k => TestGroup(Letters(k), "", k in historical, weight))
  }

  /** Groups named in increasing order, none heavier than the one before. */
  ghost predicate Named(groups: seq<TestGroup>) {
    && (forall k: nat | k < |groups| :: groups[k].key == Letters(k))
    && LongestFirst.Descending(GroupWeight, groups)
  }

  lemma NamedInOrder(groups: seq<TestGroup>, i: nat, j: nat)
    requires Named(groups) && i < j < |groups|
    ensures HeavierFirst(groups[i], groups[j]) && groups[i].key != groups[j].key
  {
    LettersOrdered(i, j);
    assert |Letters(i)| < |Letters(j)|;
    assert GroupWeight(groups[i]) >= GroupWeight(groups[j]);
  }

  lemma NamedIsSorted(groups: seq<TestGroup>)
    requires Named(groups)
    ensures Distinct(Map(KeyOf, groups)) && Sort(HeavierFirst, groups) == groups
  {
    forall i, j | 0 <= i < j < |groups| ensures HeavierFirst(groups[i], groups[j]) && groups[i].key != groups[j].key {
      NamedInOrder(groups, i, j);
    }
    AlreadySorted(groups);
  }

  lemma AlreadySorted(groups: seq<TestGroup>)
    requires Sorted(HeavierFirst, groups) && Distinct(Map(KeyOf, groups))
    ensures Sort(HeavierFirst, groups) == groups
  {
    OrderFacts(groups);
    UniqueKeysHaveNoTies(groups);
    SortedUnique(HeavierFirst, groups, Sort(HeavierFirst, groups));
  }

  lemma EvenlyIsSorted(n: nat, weight: real, historical: set<nat>)
    ensures Distinct(Map(KeyOf, Evenly(n, weight, historical)))
    ensures Sort(HeavierFirst, Evenly(n, weight, historical)) == Evenly(n, weight, historical)
  {
    NamedIsSorted(Evenly(n, weight, historical));
  }

  lemma CapOpens(a: TestGroup, b: TestGroup, c: TestGroup)
    requires a.weight > 0.0 && b.weight > 0.0 && c.weight > 0.0
    ensures Place(GroupPolicy(Some(1)), 3, [a, b, c]) == Some([[a], [b], [c]])
  {
    CountAtMostLength(IsHistorical, [a, b, c]);
    PlaceNeverStuck(GroupPolicy(Some(1)), 3, [a, b, c]);
    PlaceOpensBuckets(GroupPolicy(Some(1)), 3, [a, b, c]);
    assert Place(GroupPolicy(Some(1)), 3, [a, b, c]).value == [[a], [b], [c]];
  }

  lemma CapFills(a: TestGroup, b: TestGroup, c: TestGroup, d: TestGroup, e: TestGroup, w: real)
    requires w > 0.0 && a.weight == b.weight == c.weight == d.weight == e.weight == w
    requires !a.historical && b.historical && c.historical && !d.historical && e.historical
    ensures Place(GroupPolicy(Some(1)), 3, [a, b, c] + [d] + [e]) == Some([[a] + [d] + [e], [b], [c]])
    ensures Load(GroupPolicy(Some(1)), [a] + [d] + [e]) == 3.0 * w && Load(GroupPolicy(Some(1)), [c]) == w
  {
    var p := GroupPolicy(Some(1));
    CapOpens(a, b, c);
    TotalSnoc(GroupWeight, [a], d);
    TotalSnoc(GroupWeight, [a] + [d], e);
    PlaceNext(p, 3, [a, b, c], d, [[a], [b], [c]], 0);
    assert [[a], [b], [c]][0 := [a] + [d]] == [[a] + [d], [b], [c]];
    assert [[a] + [d], [b], [c]][0 := [a] + [d] + [e]] == [[a] + [d] + [e], [b], [c]];
    PlaceNext(p, 3, [a, b, c] + [d], e, [[a] + [d], [b], [c]], 0);
  }

  lemma CapHolds(a: TestGroup, b: TestGroup, c: TestGroup, d: TestGroup, e: TestGroup)
    requires !a.historical && !d.historical
    ensures Count(IsHistorical, [a, b, c] + [d] + [e]) <= 3
  {
    CountSnoc(IsHistorical, [a, b, c], d);
    CountSnoc(IsHistorical, [a, b, c] + [d], e);
    assert [a, b, c] == [] + [a] + [b] + [c];
    CountSnoc(IsHistorical, [] + [a] + [b], c);
    CountSnoc(IsHistorical, [] + [a], b);
  }

  lemma CapOtherwise(a: TestGroup, b: TestGroup, c: TestGroup, d: TestGroup, e: TestGroup, w: real)
    requires w > 0.0 && a.weight == b.weight == c.weight == d.weight == e.weight == w && Total(GroupWeight, [e]) == w
    ensures LongestFirst.Assignment(GroupWeight, [a, b, c] + [d] + [e], 3, [[a] + [b], [c] + [d], [e]], 2.0 * w)
  {
    TwoWeigh(a, b);
    TwoWeigh(c, d);
    CapFlatten(a, b, c, d, e);
  }

  lemma CapFlatten(a: TestGroup, b: TestGroup, c: TestGroup, d: TestGroup, e: TestGroup)
    ensures Flatten([[a] + [b], [c] + [d], [e]]) == [a, b, c] + [d] + [e]
  {
    FlattenThree([a] + [b], [c] + [d], [e]);
    assert [a] + [b] + ([c] + [d]) + [e] == [a, b, c] + [d] + [e];
  }

  lemma TwoWeigh(a: TestGroup, b: TestGroup)
    ensures Total(GroupWeight, [a]) == a.weight && Total(GroupWeight, [a] + [b]) == a.weight + b.weight
  {
    TotalSnoc(GroupWeight, [a], b);
  }

  lemma FlattenThree<T>(x: seq<T>, y: seq<T>, z: seq<T>)
    ensures Flatten([x, y, z]) == x + y + z
  {
    assert [x, y, z][..2] == [x, y] && [x, y][..1] == [x];
    assert Flatten([x]) == x;
  }

  lemma CapPlaces(w: real)
    requires w > 0.0
    ensures var groups := Evenly(5, w, {1, 2, 4}); var r := BucketsOf(groups, 3, Some(1));
            && groups == [groups[0], groups[1], groups[2]] + [groups[3]] + [groups[4]]
            && r.Some? && Load(GroupPolicy(Some(1)), r.value[0]) == 3.0 * w && Load(GroupPolicy(Some(1)), r.value[2]) == w
  {
    var groups := Evenly(5, w, {1, 2, 4});
    EvenlyIsSorted(5, w, {1, 2, 4});
    assert groups == [groups[0], groups[1], groups[2]] + [groups[3]] + [groups[4]];
    CapFills(groups[0], groups[1], groups[2], groups[3], groups[4], w);
  }

  lemma CapPartition(w: real)
    requires w > 0.0
    ensures var r := Partition(Evenly(5, w, {1, 2, 4}), 3, Some(1));
            && r.Ok? && |r.value| == 3
            && Total(GroupWeight, r.value[0]) == 3.0 * w && Total(GroupWeight, r.value[2]) == w
  {
    var groups := Evenly(5, w, {1, 2, 4});
    CapPlaces(w);
    EvenlyIsSorted(5, w, {1, 2, 4});
    CapHolds(groups[0], groups[1], groups[2], groups[3], groups[4]);
    PartitionNeverStuck(groups, 3, Some(1));
    ShardIsBucket(groups, 3, Some(1), 0);
    ShardIsBucket(groups, 3, Some(1), 2);
  }

  /** Under a cap of one the two bounds are reached: shards that differ by twice the heaviest
      group, and a shard of 3/2 of what another assignment gets by with. The last historical
      group has only the heaviest shard to go to. */
  lemma CapIsFelt(w: real)
    requires w > 0.0
    ensures var groups := Evenly(5, w, {1, 2, 4}); var r := Partition(groups, 3, Some(1));
            && r.Ok? && |r.value| == 3
            && Total(GroupWeight, r.value[0]) == 3.0 * w && Total(GroupWeight, r.value[2]) == w
            && LongestFirst.Assignment(GroupWeight, groups, 3, [[groups[0]] + [groups[1]], [groups[2]] + [groups[3]], [groups[4]]], 2.0 * w)
  {
    var groups := Evenly(5, w, {1, 2, 4});
    CapPartition(w);
    TwoWeigh(groups[4], groups[4]);
    CapOtherwise(groups[0], groups[1], groups[2], groups[3], groups[4], w);
    assert groups == [groups[0], groups[1], groups[2]] + [groups[3]] + [groups[4]];
  }

  // The worst case of the cap, for every even number of shards from four on.

  /** Four groups of each weight 2m-2, 2m-4, ..., m, and two more of weight m. */
  function StackedWeight(m: nat, k: nat): int {
    if k < 2 * m then 2 * m - 2 - 2 * (k / 4) else m
  }

  /** The second to the m-th group and the last are historical. */
  function StackedGroups(m: nat): (groups: seq<TestGroup>)
    ensures |groups| == 2 * m + 2
    ensures forall k: nat | k < |groups| ::
              groups[k] == TestGroup(Letters(k), "", 1 <= k < m || k == 2 * m + 1, StackedWeight(m, k) as real)
  {
    seq(2 * m + 2, k requires 0 <= k => TestGroup(Letters(k), "", 1 <= k < m || k == 2 * m + 1, StackedWeight(m, k) as real))
  }

  ghost predicate Stacked(m: nat, groups: seq<TestGroup>) {
    && m >= 4 && m % 2 == 0 && |groups| == 2 * m + 2
    && forall k: nat | k < |groups| ::
         groups[k].weight == StackedWeight(m, k) as real && (groups[k].historical <==> 1 <= k < m || k == 2 * m + 1)
  }

  lemma StackedSums(m: nat, k: nat)
    requires m >= 4 && m % 2 == 0 && k < 2 * m
    ensures StackedWeight(m, k) >= m && StackedWeight(m, k) + StackedWeight(m, 2 * m - 1 - k) == 3 * m - 2
    ensures k < 2 * m - 4 ==> StackedWeight(m, k) + StackedWeight(m, 2 * m - 5 - k) == 3 * m
    ensures k >= 2 * m - 4 ==> StackedWeight(m, k) == m
  {
  }

  lemma StackedDescends(m: nat, groups: seq<TestGroup>)
    requires Stacked(m, groups)
    ensures LongestFirst.Descending(GroupWeight, groups) && Timed(groups)
  {
    forall k: nat | k < |groups| ensures groups[k].weight >= m as real {
      if k < 2 * m { StackedSums(m, k); }
    }
    forall i: nat, j: nat | i < j < |groups| ensures GroupWeight(groups[i]) >= GroupWeight(groups[j]) {
      if j < 2 * m { assert i / 4 <= j / 4; }
    }
  }

  lemma StackedIsComplementary(m: nat, groups: seq<TestGroup>)
    requires Stacked(m, groups)
    ensures TightCases.Complementary(TightCases.Weights(GroupPolicy(Some(1)), groups), m, (3 * m - 2) as real)
  {
    var w := TightCases.Weights(GroupPolicy(Some(1)), groups);
    StackedDescends(m, groups);
    forall k: nat | k < |w| ensures w[k] == StackedWeight(m, k) as real {}
    forall i, j | 0 <= i < j < |w| ensures w[i] >= w[j] {
      assert GroupWeight(groups[i]) >= GroupWeight(groups[j]);
    }
    forall k | 0 <= k < 2 * m ensures w[k] + w[2 * m - 1 - k] == (3 * m - 2) as real {
      StackedSums(m, k);
    }
  }

  lemma {:induction false} CountBetween(groups: seq<TestGroup>, n: nat)
    requires 1 <= n <= |groups| && !groups[0].historical
    ensures Count(IsHistorical, groups[..n]) <= n - 1
  {
    PrefixSnoc(groups, n - 1);
    CountSnoc(IsHistorical, groups[..n - 1], groups[n - 1]);
    if n > 1 { CountBetween(groups, n - 1); }
  }

  lemma {:induction false} CountRegular(groups: seq<TestGroup>, from: nat, to: nat)
    requires from <= to <= |groups| && forall k | from <= k < to :: !groups[k].historical
    ensures Count(IsHistorical, groups[..to]) == Count(IsHistorical, groups[..from])
  {
    if from < to {
      PrefixSnoc(groups, to - 1);
      CountSnoc(IsHistorical, groups[..to - 1], groups[to - 1]);
      CountRegular(groups, from, to - 1);
    }
  }

  /** There are as many historical groups as shards. */
  lemma StackedFits(m: nat, groups: seq<TestGroup>)
    requires Stacked(m, groups)
    ensures Count(IsHistorical, groups[..m]) <= m && Count(IsHistorical, groups) <= m
  {
    CountBetween(groups, m);
    CountRegular(groups, m, 2 * m + 1);
    PrefixSnoc(groups, 2 * m + 1);
    CountSnoc(IsHistorical, groups[..2 * m + 1], groups[2 * m + 1]);
    assert groups[..2 * m + 2] == groups;
  }

  /** Even shards, of which all but the first hold a historical group. */
  ghost predicate EvenButFirst(bs: seq<seq<TestGroup>>, even: real) {
    && bs != []
    && (forall i | 0 <= i < |bs| :: Load(GroupPolicy(Some(1)), bs[i]) == even)
    && forall i | 0 <= i < |bs| :: Count(IsHistorical, bs[i]) == if i == 0 then 0 else 1
  }

  lemma RegularGoesFirst(bs: seq<seq<TestGroup>>, even: real, x: TestGroup)
    requires EvenButFirst(bs, even) && !x.historical
    ensures Best(GroupPolicy(Some(1)), bs, x, |bs|, 0)
  {
  }

  /** The historical group is shut out everywhere else. */
  lemma HistoricalGoesFirst(bs: seq<seq<TestGroup>>, even: real, x: TestGroup, y: TestGroup)
    requires EvenButFirst(bs, even) && !x.historical
    ensures Best(GroupPolicy(Some(1)), bs[0 := bs[0] + [x]], y, |bs|, 0) || !y.historical
  {
    CountSnoc(IsHistorical, bs[0], x);
  }

  lemma LastTwoStack(m: nat, groups: seq<TestGroup>, bs: seq<seq<TestGroup>>, even: real)
    requires m == |bs| && EvenButFirst(bs, even)
    requires |groups| >= 2 && Place(GroupPolicy(Some(1)), m, groups[..|groups| - 2]) == Some(bs)
    requires !groups[|groups| - 2].historical && groups[|groups| - 1].historical
    ensures var r := Place(GroupPolicy(Some(1)), m, groups);
            && r.Some?
            && Load(GroupPolicy(Some(1)), r.value[0]) == even + groups[|groups| - 2].weight + groups[|groups| - 1].weight
  {
    var n := |groups| - 2;
    var x, y := groups[n], groups[n + 1];
    RegularGoesFirst(bs, even, x);
    HistoricalGoesFirst(bs, even, x, y);
    PlaceExtends(GroupPolicy(Some(1)), m, groups, n, bs, 0);
    PlaceExtends(GroupPolicy(Some(1)), m, groups, n + 1, bs[0 := bs[0] + [x]], 0);
    TotalSnoc(GroupWeight, bs[0], x);
    TotalSnoc(GroupWeight, bs[0] + [x], y);
    assert groups[..n + 2] == groups;
  }

  lemma StackedPlaces(m: nat, groups: seq<TestGroup>)
    requires Stacked(m, groups)
    ensures var r := Place(GroupPolicy(Some(1)), m, groups);
            r.Some? && Load(GroupPolicy(Some(1)), r.value[0]) == (5 * m - 2) as real
  {
    StackedIsComplementary(m, groups);
    StackedFits(m, groups);
    PlaceNeverStuck(GroupPolicy(Some(1)), m, groups[..m]);
    var bs := TightCases.PairsFillEvenly(GroupPolicy(Some(1)), m, groups, (3 * m - 2) as real);
    LastTwoStack(m, groups, bs, (3 * m - 2) as real);
  }

  /** The best assignment: two groups to a shard, and three of weight m on each of the last two. */
  function StackedBest(m: nat, groups: seq<TestGroup>): (best: seq<seq<TestGroup>>)
    requires 2 <= m && |groups| == 2 * m + 2
    ensures |best| == m
  {
    TightCases.FoldedTwo(groups, 2 * (m - 2), 3)
  }

  lemma StackedBestKeepsGroups(m: nat, groups: seq<TestGroup>)
    requires 2 <= m && |groups| == 2 * m + 2
    ensures multiset(Flatten(StackedBest(m, groups))) == multiset(groups)
  {
    TightCases.FoldedTwoKeepsItems(groups, 2 * (m - 2), 3);
  }

  lemma StackedPair(m: nat, groups: seq<TestGroup>, i: nat)
    requires Stacked(m, groups) && i < 2 * (m - 2)
    ensures groups[i].weight + groups[2 * (m - 2) - 1 - i].weight == (3 * m) as real
  {
    StackedSums(m, i);
    assert groups[i].weight == StackedWeight(m, i) as real;
    assert groups[2 * m - 5 - i].weight == StackedWeight(m, 2 * m - 5 - i) as real;
  }

  lemma PairIsEven(groups: seq<TestGroup>, n: nat, sum: real, k: nat)
    requires 2 * n <= |groups| && k < n
    requires forall i | 0 <= i < 2 * n :: groups[i].weight + groups[2 * n - 1 - i].weight == sum
    ensures Total(GroupWeight, TightCases.Folded(groups[..2 * n])[k]) == sum
  {
    TightCases.FoldedIsEven(GroupWeight, groups[..2 * n], sum, k);
  }

  lemma StackedPairIsEven(m: nat, groups: seq<TestGroup>, k: nat)
    requires Stacked(m, groups) && k < m - 2
    ensures Total(GroupWeight, TightCases.Folded(groups[..2 * (m - 2)])[k]) == (3 * m) as real
  {
    forall i | 0 <= i < 2 * (m - 2) ensures groups[i].weight + groups[2 * (m - 2) - 1 - i].weight == (3 * m) as real {
      StackedPair(m, groups, i);
    }
    PairIsEven(groups, m - 2, (3 * m) as real, k);
  }

  lemma StackedRestIsEven(m: nat, groups: seq<TestGroup>)
    requires Stacked(m, groups)
    ensures var rest := groups[2 * (m - 2)..];
            Total(GroupWeight, rest[..3]) == (3 * m) as real && Total(GroupWeight, rest[3..]) == (3 * m) as real
  {
    var rest := groups[2 * (m - 2)..];
    forall i | 0 <= i < 6 ensures rest[i].weight == m as real {
      if 2 * m - 4 + i < 2 * m { StackedSums(m, 2 * m - 4 + i); }
      assert rest[i] == groups[2 * m - 4 + i];
    }
    TightCases.ThreeWeigh(GroupWeight, rest[..3], m as real);
    TightCases.ThreeWeigh(GroupWeight, rest[3..], m as real);
  }

  lemma StackedBestIsEven(m: nat, groups: seq<TestGroup>, k: nat)
    requires Stacked(m, groups) && k < m
    ensures Total(GroupWeight, StackedBest(m, groups)[k]) == (3 * m) as real
  {
    if k < m - 2 {
      StackedPairIsEven(m, groups, k);
    } else {
      StackedRestIsEven(m, groups);
    }
  }

  lemma StackedAssignment(m: nat, groups: seq<TestGroup>)
    requires Stacked(m, groups)
    ensures LongestFirst.Assignment(GroupWeight, groups, m, StackedBest(m, groups), (3 * m) as real)
  {
    StackedBestKeepsGroups(m, groups);
    forall k | 0 <= k < m ensures Total(GroupWeight, StackedBest(m, groups)[k]) <= (3 * m) as real {
      StackedBestIsEven(m, groups, k);
    }
  }

  lemma StackedPartition(m: nat)
    requires m >= 4 && m % 2 == 0
    ensures var r := Partition(StackedGroups(m), m, Some(1));
            r.Ok? && |r.value| == m && Total(GroupWeight, r.value[0]) == (5 * m - 2) as real
  {
    var groups := StackedGroups(m);
    StackedDescends(m, groups);
    NamedIsSorted(groups);
    StackedFits(m, groups);
    StackedPlaces(m, groups);
    PartitionNeverStuck(groups, m, Some(1));
    ShardIsBucket(groups, m, Some(1), 0);
  }

  /** `g` reaches the factor 5/3 - 2/(3m) of `t`. */
  ghost predicate MeetsFiveThirds(m: nat, g: real, t: real) {
    3.0 * (g * m as real) == 5.0 * (t * m as real) - 2.0 * t
  }

  lemma FiveThirdsMet(m: nat)
    ensures MeetsFiveThirds(m, (5 * m - 2) as real, (3 * m) as real)
  {
  }

  /** The factor of the capped bound cannot be lowered for any even number of shards from four
      on: the first shard weighs 5m-2, while another assignment of the same groups gives 3m to
      each. */
  lemma CapBoundIsAttained(m: nat)
    requires m >= 4 && m % 2 == 0
    ensures var r := Partition(StackedGroups(m), m, Some(1));
            && r.Ok? && |r.value| == m
            && LongestFirst.Assignment(GroupWeight, StackedGroups(m), m, StackedBest(m, StackedGroups(m)), (3 * m) as real)
            && MeetsFiveThirds(m, Total(GroupWeight, r.value[0]), (3 * m) as real)
  {
    StackedPartition(m);
    StackedAssignment(m, StackedGroups(m));
    FiveThirdsMet(m);
  }
}
