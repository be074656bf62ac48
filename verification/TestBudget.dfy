/** `scripts/ci_test_budget.py`: the search for a shard count whose partition stays
    within the runtime target, and the measured headroom of a finished shard. */
module TestBudget {
  import opened Wrappers
  import opened TextOrder
  import opened Sorting
  import opened Totals
  import opened Mapping
  import opened Greedy
  import opened TestPolicy
  import opened TightPolicies
  import LongestFirst
  import CappedPlacement

  const MAX_WORKERS := 8
  const MAX_SHARDS := 128
  const MAX_HISTORICAL_GROUPS_PER_SHARD := 1
  const TARGET_SECONDS := 3600.0
  const OVERHEAD_SECONDS := 600.0
  const SLOWDOWN_FACTOR := 1.5
  const MEASURED_CEILING_SECONDS := 5400.0

  /** Python rounds halves to the even neighbour. */
  function RoundHalfEven(x: real): int {
    var low := x.Floor;
    var part := x - low as real;
    if part < 0.5 || (part == 0.5 && low % 2 == 0) then low else low + 1
  }

  /** `round(x, 3)`. */
  function RoundMillis(x: real): real {
    RoundHalfEven(x * 1000.0) as real / 1000.0
  }

  /** To the nearest millisecond, and of two equally near to the even one. */
  lemma RoundsToNearest(x: real)
    ensures x - 0.5 <= RoundHalfEven(x) as real <= x + 0.5
    ensures RoundHalfEven(x) as real == x - 0.5 || RoundHalfEven(x) as real == x + 0.5 ==> RoundHalfEven(x) % 2 == 0
  {
  }

  function Expected(groups: seq<TestGroup>): real {
    Total(GroupWeight, groups) * SLOWDOWN_FACTOR + OVERHEAD_SECONDS
  }

  function PredictedSeconds(groups: seq<TestGroup>): real {
    RoundMillis(Expected(groups))
  }

  /** The rounded prediction meets the target exactly when the true one is at most half a
      millisecond over it. */
  lemma PredictionMeetsTarget(groups: seq<TestGroup>)
    ensures PredictedSeconds(groups) <= TARGET_SECONDS <==> Expected(groups) <= TARGET_SECONDS + 0.0005
  {
    var x := Expected(groups) * 1000.0;
    assert PredictedSeconds(groups) <= TARGET_SECONDS <==> RoundHalfEven(x) <= 3600000;
  }

  predicate MeasuredHeadroom(elapsed: real) {
    elapsed > 0.0 && elapsed * SLOWDOWN_FACTOR + OVERHEAD_SECONDS <= MEASURED_CEILING_SECONDS
  }

  predicate Oversized(g: TestGroup) {
    g.weight * SLOWDOWN_FACTOR + OVERHEAD_SECONDS > TARGET_SECONDS
  }

  /** The keys of the groups that alone exceed the budget. */
  function OversizedKeys(groups: seq<TestGroup>): (keys: seq<string>)
    ensures keys == [] <==> forall g | g in groups :: !Oversized(g)
    ensures forall k :: k in keys <==> exists g :: g in groups && g.key == k && g.weight > 2000.0
  {
    if groups == [] then []
    else
      var rest := OversizedKeys(groups[..|groups| - 1]);
      var last := groups[|groups| - 1];
      if Oversized(last) then rest + [last.key] else rest
  }

  datatype BudgetError = EmptyScope | Refused(error: PolicyError) | OversizedGroups(keys: seq<string>) | OverCapacity

  function Min(a: int, b: int): int { if a <= b then a else b }

  function Max(a: int, b: int): int { if a >= b then a else b }

  /** The first shard count tried; one historical group per shard needs no rounding up. */
  function Minimum(groups: seq<TestGroup>): int {
    Max(Min(MAX_WORKERS, |groups|), Count(IsHistorical, groups))
  }

  function Maximum(groups: seq<TestGroup>): int {
    Min(MAX_SHARDS, |groups|)
  }

  function Split(groups: seq<TestGroup>, count: int): Result<seq<seq<TestGroup>>, PolicyError> {
    Partition(groups, count, Some(MAX_HISTORICAL_GROUPS_PER_SHARD))
  }

  predicate WithinTarget(shards: seq<seq<TestGroup>>) {
    forall i | 0 <= i < |shards| :: PredictedSeconds(shards[i]) <= TARGET_SECONDS
  }

  predicate Fits(groups: seq<TestGroup>, count: int) {
    Split(groups, count).Ok? && WithinTarget(Split(groups, count).value)
  }

  /** The checks before the search: nonempty, unique, positive, none too long. */
  predicate Budgetable(groups: seq<TestGroup>) {
    && groups != [] && Distinct(Map(KeyOf, groups)) && Timed(groups)
    && forall g | g in groups :: !Oversized(g)
  }

  /** Every count in the search range is admitted by the partition. */
  lemma SearchNeverRaises(groups: seq<TestGroup>, count: int)
    requires Budgetable(groups) && Minimum(groups) <= count <= Maximum(groups)
    ensures Split(groups, count).Ok? && |Split(groups, count).value| == count
  {
    PartitionNeverStuck(groups, count, Some(MAX_HISTORICAL_GROUPS_PER_SHARD));
    PartitionKeepsEveryGroup(groups, count, Some(MAX_HISTORICAL_GROUPS_PER_SHARD));
  }

  lemma SingletonFits(g: TestGroup)
    requires !Oversized(g)
    ensures PredictedSeconds([g]) <= TARGET_SECONDS
  {
    assert Total(GroupWeight, [g]) == g.weight;
    PredictionMeetsTarget([g]);
  }

  /** One shard per group is always within target. */
  lemma OneGroupPerShardFits(groups: seq<TestGroup>)
    requires Budgetable(groups)
    ensures Fits(groups, |groups|)
  {
    var n, limit := |groups|, Some(MAX_HISTORICAL_GROUPS_PER_SHARD);
    CountAtMostLength(IsHistorical, groups);
    PartitionNeverStuck(groups, n, limit);
    var shards := Split(groups, n).value;
    forall i | 0 <= i < |shards| ensures PredictedSeconds(shards[i]) <= TARGET_SECONDS {
      var g := LoneGroup(groups, limit, i);
      SingletonFits(g);
    }
  }

  /** With as many shards as groups, every shard is a single group. */
  lemma LoneGroup(groups: seq<TestGroup>, limit: Option<int>, i: nat) returns (g: TestGroup)
    requires Partition(groups, |groups|, limit).Ok? && i < |Partition(groups, |groups|, limit).value|
    ensures g in groups && Partition(groups, |groups|, limit).value[i] == [g]
  {
    LoneBucket(groups, limit, i);
    g := Sort(HeavierFirst, groups)[i];
    assert Sort(ByKey, [g]) == [g];
  }

  lemma LoneBucket(groups: seq<TestGroup>, limit: Option<int>, i: nat)
    requires Partition(groups, |groups|, limit).Ok? && i < |groups|
    ensures BucketsOf(groups, |groups|, limit).Some? && |Sort(HeavierFirst, groups)| == |groups|
    ensures var g := Sort(HeavierFirst, groups)[i]; BucketsOf(groups, |groups|, limit).value[i] == [g] && g in groups
  {
    PartitionNeverStuck(groups, |groups|, limit);
    PlacementFacts(groups, |groups|, limit);
    PlaceOpensBuckets(GroupPolicy(limit), |groups|, Sort(HeavierFirst, groups));
    assert Sort(HeavierFirst, groups)[i] in multiset(groups);
  }

  /** Up to 128 budgetable groups, the search always finds a count: it can only
      report lack of capacity for larger selections. */
  lemma BudgetIsComplete(groups: seq<TestGroup>)
    requires Budgetable(groups) && |groups| <= 128
    ensures Minimum(groups) <= |groups| == Maximum(groups) && Fits(groups, |groups|)
  {
    OneGroupPerShardFits(groups);
    CountAtMostLength(IsHistorical, groups);
  }

  /** `budget_partition` answers with the first count of its range that fits, and refuses
      exactly when a check fails or no count of the range fits. */
  ghost predicate BudgetAnswer(groups: seq<TestGroup>, r: Result<seq<seq<TestGroup>>, BudgetError>) {
    match r
    case Ok(shards) =>
      && Budgetable(groups)
      && Minimum(groups) <= |shards| <= Maximum(groups)
      && Fits(groups, |shards|) && Split(groups, |shards|).value == shards
      && forall c | Minimum(groups) <= c < |shards| :: !Fits(groups, c)
    case Err(EmptyScope) => groups == []
    case Err(Refused(e)) => groups != [] && Partition(groups, 1, None) == Err(e)
    case Err(OversizedGroups(keys)) =>
      groups != [] && Partition(groups, 1, None).Ok? && keys == OversizedKeys(groups) && keys != []
    case Err(OverCapacity) =>
      && Budgetable(groups)
      && forall c | Minimum(groups) <= c <= Maximum(groups) :: !Fits(groups, c)
  }

  /** Whatever the answer, a budgetable selection of at most 128 groups succeeds, and
      a success keeps every group once, at most one historical group per shard, every shard
      nonempty and within the target to half a millisecond. */
  lemma BudgetAnswerMeans(groups: seq<TestGroup>, r: Result<seq<seq<TestGroup>>, BudgetError>)
    requires BudgetAnswer(groups, r)
    ensures Budgetable(groups) && |groups| <= 128 ==> r.Ok?
    ensures r.Ok? ==> Min(8, |groups|) <= |r.value| <= 128 && multiset(Flatten(r.value)) == multiset(groups)
    ensures r.Ok? ==> forall i | 0 <= i < |r.value| ::
              && r.value[i] != [] && Count(IsHistorical, r.value[i]) <= 1
              && 1.5 * Total(GroupWeight, r.value[i]) + 600.0 <= 3600.0005
  {
    if Budgetable(groups) {
      PartitionNeverStuck(groups, 1, None);
      if |groups| <= 128 {
        BudgetIsComplete(groups);
      }
    }
    if r.Ok? {
      PartitionKeepsEveryGroup(groups, |r.value|, Some(MAX_HISTORICAL_GROUPS_PER_SHARD));
      forall i | 0 <= i < |r.value|
        ensures r.value[i] != [] && Count(IsHistorical, r.value[i]) <= MAX_HISTORICAL_GROUPS_PER_SHARD
        ensures Expected(r.value[i]) <= TARGET_SECONDS + 0.0005
      {
        PartitionShape(groups, |r.value|, Some(MAX_HISTORICAL_GROUPS_PER_SHARD), i);
        PredictionMeetsTarget(r.value[i]);
      }
    }
  }

  ghost predicate NoneFits(groups: seq<TestGroup>, from: int, to: int) {
    forall c | from <= c < to :: !Fits(groups, c)
  }

  /** Fewer shards than historical groups are refused. */
  lemma TooFewForHistory(groups: seq<TestGroup>, count: int)
    requires count < Count(IsHistorical, groups)
    ensures !Fits(groups, count)
  {
    PartitionNeverStuck(groups, count, Some(MAX_HISTORICAL_GROUPS_PER_SHARD));
  }

  /** The documented promise is the smallest partition. The search starts at eight shards, so
      the answer is the smallest exactly when no count from the number of historical groups
      to seven fits, which takes at most seven partitions to find out. */
  lemma AnswerIsSmallestExactly(groups: seq<TestGroup>, r: Result<seq<seq<TestGroup>>, BudgetError>)
    requires BudgetAnswer(groups, r) && r.Ok?
    ensures NoneFits(groups, 1, |r.value|)
            <==> NoneFits(groups, Max(1, Count(IsHistorical, groups)), Min(8, |groups|))
  {
    forall c | c < Count(IsHistorical, groups) ensures !Fits(groups, c) {
      TooFewForHistory(groups, c);
    }
  }

  /** What fits under a limit on the whole fits however it is split. */
  lemma SmallScopeFits(groups: seq<TestGroup>, count: int)
    requires Split(groups, count).Ok? && Total(GroupWeight, groups) <= 2000.0
    ensures Fits(groups, count)
  {
    PartitionNeverStuck(groups, count, Some(MAX_HISTORICAL_GROUPS_PER_SHARD));
    PartitionKeepsEveryGroup(groups, count, Some(MAX_HISTORICAL_GROUPS_PER_SHARD));
    var shards: seq<seq<TestGroup>> := Split(groups, count).value;
    forall g: TestGroup | g in Flatten(shards) ensures g.weight >= 0.0 {
      assert g in multiset(Flatten(shards));
      assert g in groups;
    }
    TotalIgnoresOrder(GroupWeight, Flatten(shards), groups);
    forall i | 0 <= i < |shards| ensures PredictedSeconds(shards[i]) <= TARGET_SECONDS {
      BucketAtMostAll(GroupWeight, shards, i);
      PredictionMeetsTarget(shards[i]);
    }
  }

  lemma {:induction false} BucketAtMostAll<T>(f: T -> real, bs: seq<seq<T>>, i: nat)
    requires i < |bs| && forall x | x in Flatten(bs) :: f(x) >= 0.0
    ensures Total(f, bs[i]) <= Total(f, Flatten(bs))
  {
    var n := |bs| - 1;
    TotalConcat(f, Flatten(bs[..n]), bs[n]);
    if i < n {
      BucketAtMostAll(f, bs[..n], i);
      TotalNonNegative(f, bs[n]);
    } else {
      TotalNonNegative(f, Flatten(bs[..n]));
    }
  }

  /** A scope that one job could run is split over up to eight all the same. */
  lemma SmallScopeIsSplitAnyway(groups: seq<TestGroup>, r: Result<seq<seq<TestGroup>>, BudgetError>)
    requires BudgetAnswer(groups, r) && Budgetable(groups)
    requires |groups| >= 2 && Count(IsHistorical, groups) <= 1 && Total(GroupWeight, groups) <= 2000.0
    ensures Fits(groups, 1) && r.Ok? && 2 <= |r.value| == Min(8, |groups|)
  {
    var count := Minimum(groups);
    PartitionNeverStuck(groups, 1, Some(MAX_HISTORICAL_GROUPS_PER_SHARD));
    SmallScopeFits(groups, 1);
    SearchNeverRaises(groups, count);
    SmallScopeFits(groups, count);
    AnswerIsOk(groups, r, count);
  }

  /** Two groups of a second each: one job would do, and two are planned. */
  lemma TwoSecondsAreSplit(r: Result<seq<seq<TestGroup>>, BudgetError>)
    requires BudgetAnswer(Evenly(2, 1.0, {}), r)
    ensures r.Ok? && |r.value| == 2 && Fits(Evenly(2, 1.0, {}), 1)
    ensures !NoneFits(Evenly(2, 1.0, {}), 1, |r.value|)
  {
    var groups := Evenly(2, 1.0, {});
    EvenlyIsSorted(2, 1.0, {});
    assert groups == [] + [groups[0]] + [groups[1]];
    CountSnoc(IsHistorical, [] + [groups[0]], groups[1]);
    TotalSnoc(GroupWeight, [] + [groups[0]], groups[1]);
    SmallScopeIsSplitAnyway(groups, r);
  }

  /** What fits into `count` shards takes at most that many hours and half milliseconds. */
  lemma FitBoundsTotal(groups: seq<TestGroup>, count: nat)
    requires Fits(groups, count)
    ensures 3.0 * Total(GroupWeight, groups) <= Times(6000.001, count)
  {
    var shards: seq<seq<TestGroup>> := Split(groups, count).value;
    PartitionKeepsEveryGroup(groups, count, Some(MAX_HISTORICAL_GROUPS_PER_SHARD));
    forall i | 0 <= i < |shards| ensures Total(GroupWeight, shards[i]) <= 6000.001 / 3.0 {
      PredictionMeetsTarget(shards[i]);
    }
    FlattenAtMost(GroupWeight, shards, 6000.001 / 3.0);
    TotalIgnoresOrder(GroupWeight, Flatten(shards), groups);
    LongestFirst.TimesScale(6000.001 / 3.0, count);
  }

  /** A scope with more work than seven jobs, or with at least eight historical groups, does
      get the smallest partition. */
  lemma LargeScopeGetsTheSmallest(groups: seq<TestGroup>, r: Result<seq<seq<TestGroup>>, BudgetError>)
    requires BudgetAnswer(groups, r) && r.Ok?
    requires 3.0 * Total(GroupWeight, groups) > 42000.007 || Count(IsHistorical, groups) >= 8
    ensures NoneFits(groups, 1, |r.value|)
  {
    forall c | 1 <= c < MAX_WORKERS && Fits(groups, c)
      ensures Count(IsHistorical, groups) >= MAX_WORKERS
    {
      FitBoundsTotal(groups, c);
      CappedPlacement.TimesMore(6000.001, c, 7);
      assert Times(6000.001, 7) == 42000.007;
    }
    AnswerIsSmallestExactly(groups, r);
  }

  /** Against every other plan: if some assignment of the groups to `count` shards of the
      search range keeps each within 1200 seconds of work, the answer needs no more shards. */
  lemma AnswerNeedsNoMore(groups: seq<TestGroup>, r: Result<seq<seq<TestGroup>>, BudgetError>, count: nat, other: seq<seq<TestGroup>>)
    requires BudgetAnswer(groups, r) && Budgetable(groups)
    requires Minimum(groups) <= count <= Maximum(groups)
    requires LongestFirst.Assignment(GroupWeight, groups, count, other, 1200.0)
    ensures r.Ok? && |r.value| <= count
  {
    SearchNeverRaises(groups, count);
    var shards: seq<seq<TestGroup>> := Split(groups, count).value;
    forall i | 0 <= i < |shards| ensures PredictedSeconds(shards[i]) <= TARGET_SECONDS {
      CappedShardWithin(groups, count, other, 1200.0, i);
      CappedPlacement.CapWithinThird(count, Total(GroupWeight, shards[i]), 1200.0);
      PredictionMeetsTarget(shards[i]);
    }
    assert Fits(groups, count);
    AnswerIsOk(groups, r, count);
  }

  // ---- The one-hour target, which the rounding of predictions can miss.

  /** A whole multiple of 1/k second. */
  predicate InUnits(k: nat, x: real) { (k as real * x).Floor as real == k as real * x }

  predicate TimedIn(k: nat, groups: seq<TestGroup>) {
    forall g | g in groups :: InUnits(k, g.weight)
  }

  lemma SumInUnits(k: nat, x: real, y: real)
    requires InUnits(k, x) && InUnits(k, y)
    ensures InUnits(k, x + y)
  {
    var a, b := (k as real * x).Floor, (k as real * y).Floor;
    assert k as real * (x + y) == k as real * x + k as real * y == (a + b) as real;
  }

  lemma {:induction false} TotalInUnits(k: nat, groups: seq<TestGroup>)
    requires TimedIn(k, groups)
    ensures InUnits(k, Total(GroupWeight, groups))
  {
    if groups == [] {
      assert k as real * 0.0 == 0.0;
    } else {
      var n := |groups| - 1;
      TotalInUnits(k, groups[..n]);
      assert groups[n] in groups;
      SumInUnits(k, Total(GroupWeight, groups[..n]), groups[n].weight);
    }
  }

  lemma Scaled(k: real, x: real, y: real)
    requires k > 0.0
    ensures x <= y <==> k * x <= k * y
  {
  }

  /** In units coarser than 1/3000 second nothing lies between the target and half a
      millisecond over it. */
  lemma CoarseUnitsAreNotRounded(k: nat, x: real)
    requires 1 <= k < 3000 && InUnits(k, x) && 3.0 * x <= 6000.001
    ensures x <= 2000.0
  {
    Scaled(k as real, 3.0 * x, 6000.001);
    Scaled(k as real, x, 2000.0);
    assert k as real * (3.0 * x) == 3.0 * (k as real * x);
    NothingBetween(k, (k as real * x).Floor, k as real * x);
  }

  lemma NothingBetween(k: nat, n: int, scaled: real)
    requires 1 <= k < 3000 && scaled == n as real && 3.0 * scaled <= k as real * 6000.001
    ensures scaled <= k as real * 2000.0
  {
    assert 3 * n < 6000 * k + 3;
  }

  /** No answer to a selection timed in units of 1/k second has a shard over the target. */
  ghost predicate KeepsTheHour(k: nat) {
    forall groups, r, i | BudgetAnswer(groups, r) && r.Ok? && 0 <= i < |r.value| && TimedIn(k, groups) ::
      Expected(r.value[i]) <= TARGET_SECONDS
  }

  lemma CoarseUnitsMeetTarget(k: nat, groups: seq<TestGroup>, r: Result<seq<seq<TestGroup>>, BudgetError>, i: nat)
    requires 1 <= k < 3000 && BudgetAnswer(groups, r) && r.Ok? && i < |r.value|
    requires TimedIn(k, groups)
    ensures Expected(r.value[i]) <= TARGET_SECONDS
  {
    BudgetAnswerMeans(groups, r);
    LongestFirst.BucketOf(groups, r.value, i);
    TotalInUnits(k, r.value[i]);
    CoarseUnitsAreNotRounded(k, Total(GroupWeight, r.value[i]));
  }

  /** The promised hour is kept for all selections timed in units of 1/k second exactly if k is
      below 3000. */
  lemma HourIsKeptExactly(k: nat)
    requires k >= 1
    ensures KeepsTheHour(k) <==> k < 3000
  {
    if k < 3000 {
      forall groups, r, i | BudgetAnswer(groups, r) && r.Ok? && 0 <= i < |r.value| && TimedIn(k, groups)
        ensures Expected(r.value[i]) <= TARGET_SECONDS
      {
        CoarseUnitsMeetTarget(k, groups, r, i);
      }
    } else {
      FineUnitsOverrun(k);
    }
  }

  /** The recorded timings are in milliseconds. */
  lemma WholeMillisMeetTarget(groups: seq<TestGroup>, r: Result<seq<seq<TestGroup>>, BudgetError>, i: nat)
    requires BudgetAnswer(groups, r) && r.Ok? && i < |r.value|
    requires TimedIn(1000, groups)
    ensures Expected(r.value[i]) <= TARGET_SECONDS
  {
    CoarseUnitsMeetTarget(1000, groups, r, i);
  }

  /** Eight groups of one weight and a ninth no heavier. */
  function Nine(heavy: real, light: real): (groups: seq<TestGroup>)
    ensures |groups| == 9
    ensures forall k: nat | k < 9 :: groups[k] == TestGroup(Letters(k), "", false, if k < 8 then heavy else light)
  {
    seq(9, k requires 0 <= k => TestGroup(Letters(k), "", false, if k < 8 then heavy else light))
  }

  /** Weights of which two together are over the target by at most half a millisecond. */
  predicate JustOver(heavy: real, light: real) {
    0.0 < light <= heavy < 2000.0 && 6000.0 < 3.0 * (heavy + light) <= 6000.001
  }

  /** Of nine such groups two share the first of eight shards, which is over the hour. */
  lemma NineOverrun(heavy: real, light: real, r: Result<seq<seq<TestGroup>>, BudgetError>)
    requires JustOver(heavy, light) && BudgetAnswer(Nine(heavy, light), r)
    ensures r.Ok? && |r.value| == 8 && Total(GroupWeight, r.value[0]) == heavy + light && Expected(r.value[0]) > TARGET_SECONDS
  {
    NineFit(Nine(heavy, light), heavy, light);
    AnswerIsOk(Nine(heavy, light), r, 8);
  }

  lemma NineChecks(groups: seq<TestGroup>, heavy: real, light: real)
    requires JustOver(heavy, light) && groups == Nine(heavy, light)
    ensures Sort(HeavierFirst, groups) == groups && Budgetable(groups) && Minimum(groups) == 8
  {
    NineAreTimed(groups, heavy, light);
    NamedIsSorted(groups);
    NoHistory(groups);
  }

  lemma NineAreTimed(groups: seq<TestGroup>, heavy: real, light: real)
    requires JustOver(heavy, light) && groups == Nine(heavy, light)
    ensures Named(groups) && forall g | g in groups :: g.weight > 0.0 && !Oversized(g) && !g.historical
  {
  }

  lemma NineFit(groups: seq<TestGroup>, heavy: real, light: real)
    requires JustOver(heavy, light) && groups == Nine(heavy, light)
    ensures Budgetable(groups) && Minimum(groups) == 8 && Fits(groups, 8) && |Split(groups, 8).value| == 8
    ensures Total(GroupWeight, Split(groups, 8).value[0]) == heavy + light
  {
    NineChecks(groups, heavy, light);
    SearchNeverRaises(groups, 8);
    var shards := Split(groups, 8).value;
    forall i | 0 <= i < 8 ensures Total(GroupWeight, shards[i]) == if i == 0 then heavy + light else heavy {
      OneIsStacked(groups, 8, heavy, i);
      ShardIsBucket(groups, 8, Some(MAX_HISTORICAL_GROUPS_PER_SHARD), i);
    }
    forall i | 0 <= i < 8 ensures PredictedSeconds(shards[i]) <= TARGET_SECONDS {
      PredictionMeetsTarget(shards[i]);
    }
  }

  lemma FineUnitsOverrun(k: nat)
    requires k >= 3000
    ensures !KeepsTheHour(k)
  {
    var unit := 1.0 / k as real;
    UnitOf(k, unit);
    var groups := Nine(1000.0 + unit, 1000.0);
    NineFit(groups, 1000.0 + unit, 1000.0);
    var r: Result<seq<seq<TestGroup>>, BudgetError> := Ok(Split(groups, 8).value);
    FirstFitAnswers(groups, r.value);
    assert Expected(r.value[0]) > TARGET_SECONDS;
  }

  lemma UnitOf(k: nat, unit: real)
    requires k >= 3000 && unit == 1.0 / k as real
    ensures 0.0 < unit <= 1.0 / 3000.0 && InUnits(k, 1000.0) && InUnits(k, 1000.0 + unit)
  {
    Inverse(k as real, unit);
    WholeInUnits(k, 1000.0, 1000 * k);
    WholeInUnits(k, 1000.0 + unit, 1000 * k + 1);
  }

  lemma Inverse(k: real, unit: real)
    requires k >= 3000.0 && unit == 1.0 / k
    ensures 0.0 < unit <= 1.0 / 3000.0 && k * (1000.0 + unit) == 1000.0 * k + 1.0
  {
    assert k * unit == 1.0;
    Scaled(k, unit, 1.0 / 3000.0);
    Scaled(k, unit, 0.0);
  }

  lemma WholeInUnits(k: nat, x: real, n: int)
    requires k as real * x == n as real
    ensures InUnits(k, x)
  {
  }

  lemma {:induction false} NoHistory(groups: seq<TestGroup>)
    requires forall g | g in groups :: !g.historical
    ensures Count(IsHistorical, groups) == 0
  {
    if groups != [] { NoHistory(groups[..|groups| - 1]); }
  }

  /** With one group more than there are shards, all others alike, the last joins the first. */
  lemma OneIsStacked(order: seq<TestGroup>, m: nat, w: real, i: nat)
    requires m >= 1 && |order| == m + 1 && w > 0.0 && i < m
    requires (forall g | g in order :: !g.historical) && forall k | 0 <= k < m :: order[k].weight == w
    ensures var p := GroupPolicy(Some(MAX_HISTORICAL_GROUPS_PER_SHARD)); var r := Place(p, m, order);
            r.Some? && Load(p, r.value[i]) == if i == 0 then w + order[m].weight else w
  {
    var p := GroupPolicy(Some(MAX_HISTORICAL_GROUPS_PER_SHARD));
    var first := order[..m];
    NoHistory(first);
    PlaceNeverStuck(p, m, first);
    PlaceOpensBuckets(p, m, first);
    var bs := Place(p, m, first).value;
    forall j | 0 <= j < m ensures Load(p, bs[j]) == w {
      assert bs[j] == [first[j]];
      TotalSnoc(GroupWeight, [], first[j]);
    }
    PlaceExtends(p, m, order, m, bs, 0);
    assert order[..m + 1] == order;
    TotalSnoc(GroupWeight, bs[0], order[m]);
  }

  /** What each refusal of the search means; the first count tried is eight, or the number of
      groups or of historical groups. */
  lemma RefusalsAreTrue(groups: seq<TestGroup>, r: Result<seq<seq<TestGroup>>, BudgetError>)
    requires BudgetAnswer(groups, r)
    ensures r == Err(EmptyScope) <==> groups == []
    ensures r.Err? && r.error.OversizedGroups? ==>
              forall k :: k in r.error.keys <==> exists g :: g in groups && g.key == k && g.weight > 2000.0
    ensures r == Err(OverCapacity) ==>
              |groups| > 128 && forall c | 8 <= c <= 128 && Count(IsHistorical, groups) <= c :: !Fits(groups, c)
    ensures r.Err? && r.error.Refused? ==> !Timed(groups) || !Distinct(Map(KeyOf, groups))
  {
    match r
    case Err(Refused(e)) => PartitionNeverStuck(groups, 1, None);
    case Err(OverCapacity) => OverCapacityMeans(groups);
    case _ =>
  }

  lemma OverCapacityMeans(groups: seq<TestGroup>)
    requires BudgetAnswer(groups, Err(OverCapacity))
    ensures |groups| > 128 && forall c | 8 <= c <= 128 && Count(IsHistorical, groups) <= c :: !Fits(groups, c)
  {
    if |groups| <= 128 {
      BudgetIsComplete(groups);
    }
  }

  lemma SameSearch(groups: seq<TestGroup>, permuted: seq<TestGroup>)
    requires multiset(groups) == multiset(permuted)
    ensures Budgetable(groups) == Budgetable(permuted)
    ensures Minimum(groups) == Minimum(permuted) && Maximum(groups) == Maximum(permuted)
  {
    SameChecks(groups, permuted);
    CountIgnoresOrder(IsHistorical, groups, permuted);
    forall g ensures g in groups <==> g in permuted {
      assert g in multiset(groups) <==> g in multiset(permuted);
    }
  }

  /** The first count of the search range that fits. */
  ghost predicate FirstFit(groups: seq<TestGroup>, count: int) {
    Minimum(groups) <= count <= Maximum(groups) && Fits(groups, count) && NoneFits(groups, Minimum(groups), count)
  }

  lemma SameFirstFit(groups: seq<TestGroup>, permuted: seq<TestGroup>, count: int)
    requires multiset(groups) == multiset(permuted) && FirstFit(groups, count)
    ensures FirstFit(permuted, count)
  {
    SameSearch(groups, permuted);
    SameFit(groups, permuted, count);
    forall c | Minimum(groups) <= c < count ensures !Fits(permuted, c) {
      SameFit(groups, permuted, c);
    }
  }

  lemma FirstFitIsUnique(groups: seq<TestGroup>, count: int, other: int)
    requires FirstFit(groups, count) && FirstFit(groups, other)
    ensures count == other
  {
  }

  lemma AnswerIsFirstFit(groups: seq<TestGroup>, r: Result<seq<seq<TestGroup>>, BudgetError>)
    requires BudgetAnswer(groups, r) && r.Ok?
    ensures Budgetable(groups) && FirstFit(groups, |r.value|) && Split(groups, |r.value|) == Ok(r.value)
  {
  }

  /** Two orderings of the same selection get the same shards. */
  lemma BudgetIgnoresOrder(groups: seq<TestGroup>, permuted: seq<TestGroup>, r: Result<seq<seq<TestGroup>>, BudgetError>, q: Result<seq<seq<TestGroup>>, BudgetError>)
    requires multiset(groups) == multiset(permuted)
    requires BudgetAnswer(groups, r) && BudgetAnswer(permuted, q) && r.Ok?
    ensures q == r
  {
    AnswerIsFirstFit(groups, r);
    SameSearch(groups, permuted);
    SameFirstFit(groups, permuted, |r.value|);
    AnswerIsOk(permuted, q, |r.value|);
    AnswerIsFirstFit(permuted, q);
    FirstFitIsUnique(permuted, |r.value|, |q.value|);
    SameFit(groups, permuted, |r.value|);
  }

  /** A budgetable selection that some count of the range fits is answered. */
  lemma AnswerIsOk(groups: seq<TestGroup>, q: Result<seq<seq<TestGroup>>, BudgetError>, count: int)
    requires BudgetAnswer(groups, q) && Budgetable(groups)
    requires Minimum(groups) <= count <= Maximum(groups) && Fits(groups, count)
    ensures q.Ok?
  {
    PartitionNeverStuck(groups, 1, None);
  }

  lemma SameFit(groups: seq<TestGroup>, permuted: seq<TestGroup>, count: int)
    requires multiset(groups) == multiset(permuted)
    ensures Split(groups, count) == Split(permuted, count)
    ensures Fits(groups, count) == Fits(permuted, count)
  {
    PartitionIgnoresOrder(groups, permuted, count, Some(MAX_HISTORICAL_GROUPS_PER_SHARD));
  }

  /** `budget_partition`. */
  method BudgetPartition(groups: seq<TestGroup>) returns (r: Result<seq<seq<TestGroup>>, BudgetError>)
    ensures BudgetAnswer(groups, r)
  {
    if groups == [] {
      return Err(EmptyScope);
    }
    var whole := PartitionGroups(groups, 1, None);
    if whole.Err? {
      return Err(Refused(whole.error));
    }
    PartitionNeverStuck(groups, 1, None);
    var oversized := OversizedKeys(groups);
    if oversized != [] {
      return Err(OversizedGroups(oversized));
    }
    r := SearchCounts(groups);
  }

  /** One round of the search: the partition into `count` shards, if it is within target. */
  method TryCount(groups: seq<TestGroup>, count: int) returns (r: Option<seq<seq<TestGroup>>>)
    requires Budgetable(groups) && Minimum(groups) <= count <= Maximum(groups)
    ensures r.Some? <==> Fits(groups, count)
    ensures r.Some? ==> |r.value| == count && Split(groups, count) == Ok(r.value)
  {
    var shards := PartitionGroups(groups, count, Some(MAX_HISTORICAL_GROUPS_PER_SHARD));
    SearchNeverRaises(groups, count);
    r := if WithinTarget(shards.value) then Some(shards.value) else None;
  }

  lemma OneMoreFails(groups: seq<TestGroup>, from: int, to: int)
    requires NoneFits(groups, from, to) && !Fits(groups, to)
    ensures NoneFits(groups, from, to + 1)
  {
  }

  lemma FirstFitAnswers(groups: seq<TestGroup>, shards: seq<seq<TestGroup>>)
    requires Budgetable(groups) && Minimum(groups) <= |shards| <= Maximum(groups)
    requires Fits(groups, |shards|) && Split(groups, |shards|) == Ok(shards) && NoneFits(groups, Minimum(groups), |shards|)
    ensures BudgetAnswer(groups, Ok(shards))
  {
  }

  lemma NoFitAnswers(groups: seq<TestGroup>)
    requires Budgetable(groups) && NoneFits(groups, Minimum(groups), Maximum(groups) + 1)
    ensures BudgetAnswer(groups, Err(OverCapacity))
  {
  }

  /** The search loop over shard counts. */
  method SearchCounts(groups: seq<TestGroup>) returns (r: Result<seq<seq<TestGroup>>, BudgetError>)
    requires Budgetable(groups)
    ensures BudgetAnswer(groups, r)
  {
    var low, high := Minimum(groups), Maximum(groups);
    var count := low;
    while count <= high
      invariant low <= count && (count > high + 1 ==> count == low)
      invariant NoneFits(groups, low, count)
    {
      var shards := TryCount(groups, count);
      if shards.Some? {
        FirstFitAnswers(groups, shards.value);
        return Ok(shards.value);
      }
      OneMoreFails(groups, low, count);
      count := count + 1;
    }
    NoFitAnswers(groups);
    r := Err(OverCapacity);
  }
}
