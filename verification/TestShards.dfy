/** Mapping a function over a sequence, and its interaction with multisets and buckets. */
module Mapping {
  import opened Totals

  function Map<A, B>(f: A -> B, s: seq<A>): (r: seq<B>)
    ensures |r| == |s| && forall i | 0 <= i < |s| :: r[i] == f(s[i])
  {
    seq(|s|, i requires 0 <= i < |s| => f(s[i]))
  }

  function MapAll<A, B>(f: A -> B, bs: seq<seq<A>>): (r: seq<seq<B>>)
    ensures |r| == |bs| && forall i | 0 <= i < |bs| :: r[i] == Map(f, bs[i])
  {
    seq(|bs|, i requires 0 <= i < |bs| => Map(f, bs[i]))
  }

  lemma {:induction false} MapConcat<A, B>(f: A -> B, s: seq<A>, t: seq<A>)
    ensures Map(f, s + t) == Map(f, s) + Map(f, t)
  {
  }

  lemma {:induction false} MapIgnoresOrder<A, B>(f: A -> B, s: seq<A>, t: seq<A>)
    requires multiset(s) == multiset(t)
    ensures multiset(Map(f, s)) == multiset(Map(f, t))
  {
    if s == [] {
      assert t == [] by { assert |multiset(t)| == 0; }
    } else {
      var n := |s| - 1;
      assert s[n] in multiset(t);
      var k :| 0 <= k < |t| && t[k] == s[n];
      RemoveOne(s, n);
      RemoveOne(t, k);
      MapRemove(f, s, n);
      MapRemove(f, t, k);
      assert s[..n] + s[n + 1..] == s[..n];
      MapIgnoresOrder(f, s[..n], t[..k] + t[k + 1..]);
    }
  }

  lemma MapRemove<A, B>(f: A -> B, t: seq<A>, k: nat)
    requires k < |t|
    ensures multiset(Map(f, t)) == multiset(Map(f, t[..k] + t[k + 1..])) + multiset{f(t[k])}
  {
    var r := Map(f, t);
    RemoveOne(r, k);
    assert r[..k] + r[k + 1..] == Map(f, t[..k] + t[k + 1..]);
  }

  lemma {:induction false} MapFlatten<A, B>(f: A -> B, bs: seq<seq<A>>)
    ensures Flatten(MapAll(f, bs)) == Map(f, Flatten(bs))
  {
    if bs != [] {
      var n := |bs| - 1;
      MapFlatten(f, bs[..n]);
      assert MapAll(f, bs)[..n] == MapAll(f, bs[..n]);
      MapConcat(f, Flatten(bs[..n]), bs[n]);
    }
  }

  lemma {:induction false} FlattenPermuted<T>(xs: seq<seq<T>>, ys: seq<seq<T>>)
    requires |xs| == |ys| && forall i | 0 <= i < |xs| :: multiset(xs[i]) == multiset(ys[i])
    ensures multiset(Flatten(xs)) == multiset(Flatten(ys))
  {
    if xs != [] {
      FlattenPermuted(xs[..|xs| - 1], ys[..|ys| - 1]);
    }
  }
}

/** `scripts/run_ci_test_shard.py`: whole integration test files, weighed in positive
    milliseconds, split longest-first into shards. A path is its POSIX text. */
module TestShards {
  import opened Wrappers
  import opened TextOrder
  import opened Sorting
  import opened Totals
  import opened Mapping
  import opened Greedy
  import opened LongestFirst
  import opened TightCases

  datatype TestFile = TestFile(path: string, weight: int)

  /** The record's own check: a file cannot be constructed with a weight below 1. */
  ghost predicate Weighed(files: seq<TestFile>) {
    forall f | f in files :: f.weight >= 1
  }

  datatype ShardError = NoFiles | CountBelowOne | CountAboveFiles | IndexOutsideCount | DuplicateFiles

  function ValidateShardInputs(index: int, count: int, tests: int): (r: Option<ShardError>)
    ensures r.None? <==> 1 <= index <= count <= tests
    ensures r == Some(NoFiles) <==> tests < 1
    ensures r == Some(CountBelowOne) <==> tests >= 1 && count < 1
    ensures r == Some(CountAboveFiles) <==> 1 <= tests < count
    ensures r == Some(IndexOutsideCount) <==> 1 <= count <= tests && !(1 <= index <= count)
  {
    if tests < 1 then Some(NoFiles)
    else if count < 1 then Some(CountBelowOne)
    else if count > tests then Some(CountAboveFiles)
    else if index < 1 || index > count then Some(IndexOutsideCount)
    else None
  }

  function PathOf(f: TestFile): string { f.path }

  function FileWeight(f: TestFile): real { f.weight as real }

  predicate NeverHistorical(f: TestFile) { false }

  function FilePolicy(): Policy<TestFile> { Policy(FileWeight, NeverHistorical, None) }

  predicate HeavierFirst(a: TestFile, b: TestFile) {
    a.weight > b.weight || (a.weight == b.weight && TextLeq(a.path, b.path))
  }

  predicate ByPath(a: TestFile, b: TestFile) { TextLeq(a.path, b.path) }

  lemma OrdersAreTotal()
    ensures Preorder(HeavierFirst) && Preorder(ByPath)
  {
    forall a: TestFile, b: TestFile
      ensures (HeavierFirst(a, b) || HeavierFirst(b, a)) && (ByPath(a, b) || ByPath(b, a))
    {
      TextTotal(a.path, b.path);
    }
    forall a: TestFile, b: TestFile, c: TestFile
      ensures HeavierFirst(a, b) && HeavierFirst(b, c) ==> HeavierFirst(a, c)
      ensures ByPath(a, b) && ByPath(b, c) ==> ByPath(a, c)
    {
      if TextLeq(a.path, b.path) && TextLeq(b.path, c.path) {
        TextTransitive(a.path, b.path, c.path);
      }
    }
  }

  lemma HeavierFirstHasNoTies(files: seq<TestFile>)
    ensures NoTies(HeavierFirst, files)
  {
    forall a, b | a in files && b in files && HeavierFirst(a, b) && HeavierFirst(b, a)
      ensures a == b
    {
      TextAntisymmetric(a.path, b.path);
    }
  }

  /** The buckets of files before their paths are read off. */
  function Buckets(files: seq<TestFile>, count: nat): Option<seq<seq<TestFile>>> {
    Place(FilePolicy(), count, Sort(HeavierFirst, files))
  }

  function SortBuckets(bs: seq<seq<TestFile>>): (r: seq<seq<TestFile>>)
    ensures |r| == |bs| && forall i | 0 <= i < |bs| :: r[i] == Sort(ByPath, bs[i])
  {
    seq(|bs|, i requires 0 <= i < |bs| => Sort(ByPath, bs[i]))
  }

  /** The shards `partition_test_files` returns for admitted inputs. */
  function Shards(files: seq<TestFile>, count: nat): seq<seq<string>> {
    match Buckets(files, count)
    case None => []
    case Some(bs) => MapAll(PathOf, SortBuckets(bs))
  }

  ghost predicate Admitted(files: seq<TestFile>, count: int) {
    1 <= count <= |files| && Distinct(Map(PathOf, files)) && Weighed(files)
  }

  lemma BucketFacts(files: seq<TestFile>, count: nat)
    requires 1 <= count <= |files| && Weighed(files)
    ensures Preorder(HeavierFirst) && Preorder(ByPath)
    ensures var order := Sort(HeavierFirst, files);
            && Sorted(HeavierFirst, order) && multiset(order) == multiset(files) && |order| == |files|
            && Positive(FilePolicy(), order) && Descending(FileWeight, order)
    ensures Buckets(files, count).Some?
    ensures multiset(Flatten(Buckets(files, count).value)) == multiset(files)
  {
    OrdersAreTotal();
    SortSorts(HeavierFirst, files);
    var order := Sort(HeavierFirst, files);
    assert |order| == |multiset(order)|;
    forall f | f in order ensures f.weight >= 1 {
      assert f in multiset(order);
    }
    PlaceNeverStuck(FilePolicy(), count, order);
    PlaceKeepsItems(FilePolicy(), count, order);
  }

  lemma ShardShape(files: seq<TestFile>, count: nat, i: nat)
    requires 1 <= count <= |files| && Weighed(files) && i < count
    ensures Buckets(files, count).Some? && |Shards(files, count)| == count
    ensures var bucket := Buckets(files, count).value[i];
            && Shards(files, count)[i] == Map(PathOf, Sort(ByPath, bucket))
            && multiset(Sort(ByPath, bucket)) == multiset(bucket)
            && Sorted(ByPath, Sort(ByPath, bucket))
  {
    BucketFacts(files, count);
    SortSorts(ByPath, Buckets(files, count).value[i]);
  }

  /** Every file is in exactly one shard. */
  lemma ShardsPartitionTheFiles(files: seq<TestFile>, count: nat)
    requires Admitted(files, count)
    ensures |Shards(files, count)| == count
    ensures multiset(Flatten(Shards(files, count))) == multiset(Map(PathOf, files))
  {
    BucketFacts(files, count);
    var bs := Buckets(files, count).value;
    forall i | 0 <= i < count ensures multiset(SortBuckets(bs)[i]) == multiset(bs[i]) {
      ShardShape(files, count, i);
    }
    FlattenPermuted(SortBuckets(bs), bs);
    MapFlatten(PathOf, SortBuckets(bs));
    MapIgnoresOrder(PathOf, Flatten(SortBuckets(bs)), files);
  }

  /** Every shard is nonempty and lists its paths in order. */
  lemma ShardsAreNonemptyAndOrdered(files: seq<TestFile>, count: nat, i: nat)
    requires Admitted(files, count) && i < count
    ensures |Shards(files, count)| == count
    ensures Shards(files, count)[i] != [] && Sorted(TextLeq, Shards(files, count)[i])
  {
    BucketFacts(files, count);
    ShardShape(files, count, i);
    PlaceLeavesNoneEmpty(FilePolicy(), count, Sort(HeavierFirst, files));
    var bucket := Buckets(files, count).value[i];
    assert |Sort(ByPath, bucket)| == |multiset(bucket)|;
  }

  /** Shards depend only on the set of weighted files, not on their order. */
  lemma ShardsIgnoreOrder(files: seq<TestFile>, permuted: seq<TestFile>, count: nat)
    requires multiset(files) == multiset(permuted)
    ensures Shards(files, count) == Shards(permuted, count)
  {
    OrdersAreTotal();
    HeavierFirstHasNoTies(files);
    SortIgnoresOrder(HeavierFirst, files, permuted);
  }

  // Weighing shards by path, as `main` does when it announces a shard.

  function FileOf(files: seq<TestFile>, path: string): TestFile {
    if files == [] then TestFile(path, 1)
    else if files[|files| - 1].path == path then files[|files| - 1]
    else FileOf(files[..|files| - 1], path)
  }

  function ShardWeight(files: seq<TestFile>, shard: seq<string>): int {
    if shard == [] then 0
    else ShardWeight(files, shard[..|shard| - 1]) + FileOf(files, shard[|shard| - 1]).weight
  }

  lemma {:induction false} FileOfFinds(files: seq<TestFile>, f: TestFile)
    requires Distinct(Map(PathOf, files)) && f in files
    ensures FileOf(files, f.path) == f
  {
    var n := |files| - 1;
    if files[n] != f {
      var k :| 0 <= k < n && files[k] == f;
      assert Map(PathOf, files)[k] != Map(PathOf, files)[n];
      assert Distinct(Map(PathOf, files[..n])) by {
        forall i, j | 0 <= i < j < n ensures Map(PathOf, files[..n])[i] != Map(PathOf, files[..n])[j] {
          assert Map(PathOf, files)[i] != Map(PathOf, files)[j];
        }
      }
      FileOfFinds(files[..n], f);
    }
  }

  /** Reading a shard's paths back gives the weight its bucket had. */
  lemma {:induction false} ShardWeightOfBucket(files: seq<TestFile>, bucket: seq<TestFile>)
    requires Distinct(Map(PathOf, files)) && forall f | f in bucket :: f in files
    ensures ShardWeight(files, Map(PathOf, bucket)) as real == Total(FileWeight, bucket)
  {
    if bucket != [] {
      var n := |bucket| - 1;
      ShardWeightOfBucket(files, bucket[..n]);
      FileOfFinds(files, bucket[n]);
      assert Map(PathOf, bucket)[..n] == Map(PathOf, bucket[..n]);
    }
  }

  lemma {:induction false} WeightOfPaths(files: seq<TestFile>, shard: seq<string>, find: string -> TestFile)
    requires forall p :: find(p) == FileOf(files, p)
    ensures ShardWeight(files, shard) as real == Total(FileWeight, Map(find, shard))
  {
    if shard != [] {
      var n := |shard| - 1;
      WeightOfPaths(files, shard[..n], find);
      assert Map(find, shard)[..n] == Map(find, shard[..n]);
    }
  }

  /** The weight of the i-th returned shard is the load of the i-th bucket. */
  lemma ShardWeightIsLoad(files: seq<TestFile>, count: nat, i: nat)
    requires Admitted(files, count) && i < count
    ensures Buckets(files, count).Some? && |Shards(files, count)| == count
    ensures ShardWeight(files, Shards(files, count)[i]) as real == Load(FilePolicy(), Buckets(files, count).value[i])
  {
    BucketFacts(files, count);
    var bs := Buckets(files, count).value;
    SortSorts(ByPath, bs[i]);
    var sorted := Sort(ByPath, bs[i]);
    BucketOf(files, bs, i);
    forall f | f in sorted ensures f in files {
      assert f in multiset(sorted);
    }
    ShardWeightOfBucket(files, sorted);
    TotalIgnoresOrder(FileWeight, sorted, bs[i]);
  }

  /** An assignment of paths to shards is one of the files to buckets, equally heavy. */
  lemma AssignmentOfPaths(files: seq<TestFile>, count: nat, other: seq<seq<string>>, t: int)
    returns (given: seq<seq<TestFile>>)
    requires Distinct(Map(PathOf, files))
    requires |other| == count && multiset(Flatten(other)) == multiset(Map(PathOf, files))
    requires forall j | 0 <= j < count :: ShardWeight(files, other[j]) <= t
    ensures Assignment(FileWeight, files, count, given, t as real)
  {
    var find := p => FileOf(files, p);
    given := MapAll(find, other);
    MapFlatten(find, other);
    MapIgnoresOrder(find, Flatten(other), Map(PathOf, files));
    assert Map(find, Map(PathOf, files)) == files by {
      forall k | 0 <= k < |files| ensures Map(find, Map(PathOf, files))[k] == files[k] {
        FileOfFinds(files, files[k]);
      }
    }
    forall j | 0 <= j < count ensures Total(FileWeight, given[j]) <= t as real {
      WeightOfPaths(files, other[j], find);
    }
  }

  /** Longest-first sharding is within 4/3 - 1/(3m) of every assignment of the same files:
      if some assignment keeps all its shards within `t`, then 3·m·G <= (4·m-1)·t for the
      weight G of every shard returned. */
  lemma ShardsAreNearOptimal(files: seq<TestFile>, count: nat, other: seq<seq<string>>, t: int, i: nat)
    requires Admitted(files, count) && i < count
    requires |other| == count && multiset(Flatten(other)) == multiset(Map(PathOf, files))
    requires forall j | 0 <= j < count :: ShardWeight(files, other[j]) <= t
    ensures |Shards(files, count)| == count
    ensures 3 * (count * ShardWeight(files, Shards(files, count)[i])) <= (4 * count - 1) * t
  {
    BucketFacts(files, count);
    var order := Sort(HeavierFirst, files);
    var given := AssignmentOfPaths(files, count, other, t);
    assert order[..|order|] == order;
    LongestFirstPrefix(FilePolicy(), count, order, |order|, given, t as real);
    ShardWeightIsLoad(files, count, i);
    var g := ShardWeight(files, Shards(files, count)[i]);
    TimesInt(g, count);
    TimesInt(t, count);
    BoundInIntegers(count, g, t);
  }

  lemma BoundInIntegers(m: nat, g: int, t: int)
    requires 3.0 * (g * m) as real <= 4.0 * (t * m) as real - t as real
    ensures 3 * (m * g) <= (4 * m - 1) * t
  {
    var gm, tm := g * m, t * m;
    assert 3 * gm <= 4 * tm - t;
    assert (4 * m - 1) * t == 4 * tm - t;
  }

  /** Graham's worst case for `m` shards: files of weight 2m-1, 2m-1, 2m-2, 2m-2, ..., m, m
      and one more of weight m. */
  function GrahamWeight(m: nat, k: nat): int {
    if k < 2 * m then 2 * m - 1 - k / 2 else m
  }

  function GrahamFiles(m: nat): (files: seq<TestFile>)
    ensures |files| == 2 * m + 1
    ensures forall k | 0 <= k < |files| :: files[k].path == Letters(k) && files[k].weight == GrahamWeight(m, k)
  {
    seq(2 * m + 1, k requires 0 <= k => TestFile(Letters(k), GrahamWeight(m, k)))
  }

  lemma GrahamOrdered(m: nat, i: nat, j: nat)
    requires i < j < 2 * m + 1
    ensures HeavierFirst(GrahamFiles(m)[i], GrahamFiles(m)[j]) && GrahamFiles(m)[i].path != GrahamFiles(m)[j].path
  {
    LettersOrdered(i, j);
    assert |Letters(i)| < |Letters(j)|;
  }

  lemma GrahamIsAdmitted(m: nat)
    requires m >= 1
    ensures Admitted(GrahamFiles(m), m) && Sorted(HeavierFirst, GrahamFiles(m))
  {
    var files := GrahamFiles(m);
    forall i, j | 0 <= i < j < |files| ensures HeavierFirst(files[i], files[j]) && files[i].path != files[j].path {
      GrahamOrdered(m, i, j);
    }
  }

  lemma GrahamIsSorted(m: nat)
    requires m >= 1
    ensures Sort(HeavierFirst, GrahamFiles(m)) == GrahamFiles(m) && Admitted(GrahamFiles(m), m)
  {
    GrahamIsAdmitted(m);
    AlreadySorted(GrahamFiles(m));
  }

  lemma AlreadySorted(files: seq<TestFile>)
    requires Sorted(HeavierFirst, files)
    ensures Sort(HeavierFirst, files) == files
  {
    OrdersAreTotal();
    SortSorts(HeavierFirst, files);
    HeavierFirstHasNoTies(files);
    SortedUnique(HeavierFirst, files, Sort(HeavierFirst, files));
  }

  ghost predicate GrahamShaped(m: nat, files: seq<TestFile>) {
    m >= 1 && |files| == 2 * m + 1 && forall k | 0 <= k < |files| :: files[k].weight == GrahamWeight(m, k)
  }

  lemma GrahamSums(m: nat, k: nat)
    requires k < 2 * m
    ensures GrahamWeight(m, k) + GrahamWeight(m, 2 * m - 1 - k) == 3 * m - 1
    ensures k < 2 * m - 2 ==> GrahamWeight(m, k) + GrahamWeight(m, 2 * m - 3 - k) == 3 * m
  {
  }

  lemma GrahamDescends(m: nat, i: nat, j: nat)
    requires i < j <= 2 * m
    ensures GrahamWeight(m, i) >= GrahamWeight(m, j)
  {
  }

  lemma GrahamIsComplementary(m: nat, files: seq<TestFile>)
    requires GrahamShaped(m, files)
    ensures Complementary(Weights(FilePolicy(), files), m, (3 * m - 1) as real)
  {
    var w := Weights(FilePolicy(), files);
    forall k | 0 <= k < |w| ensures w[k] == GrahamWeight(m, k) as real {}
    forall i, j | 0 <= i < j < |w| ensures w[i] >= w[j] {
      GrahamDescends(m, i, j);
    }
    forall k | 0 <= k < 2 * m ensures w[k] + w[2 * m - 1 - k] == (3 * m - 1) as real {
      GrahamSums(m, k);
    }
  }

  /** The first 2m files fill all shards evenly, so the last one goes to the first shard. */
  lemma GrahamLast(m: nat, files: seq<TestFile>)
    requires GrahamShaped(m, files)
    ensures var r := Place(FilePolicy(), m, files); r.Some? && Load(FilePolicy(), r.value[0]) == (4 * m - 1) as real
  {
    GrahamIsComplementary(m, files);
    PlaceNeverStuck(FilePolicy(), m, files[..m]);
    var bs := PairsFillEvenly(FilePolicy(), m, files, (3 * m - 1) as real);
    LastOnEven(m, files, bs, 3 * m - 1);
  }

  /** On even shards the next file goes to the first. */
  lemma LastOnEven(m: nat, files: seq<TestFile>, bs: seq<seq<TestFile>>, even: int)
    requires 1 <= m == |bs| && |files| >= 1 && Place(FilePolicy(), m, files[..|files| - 1]) == Some(bs)
    requires forall i | 0 <= i < m :: Load(FilePolicy(), bs[i]) == even as real
    ensures var r := Place(FilePolicy(), m, files);
            r.Some? && Load(FilePolicy(), r.value[0]) == (even + files[|files| - 1].weight) as real
  {
    var n := |files| - 1;
    PlaceExtends(FilePolicy(), m, files, n, bs, 0);
    TotalSnoc(FileWeight, bs[0], files[n]);
    assert files[..n + 1] == files;
  }

  lemma GrahamHeavyShard(m: nat)
    requires m >= 1
    ensures |Shards(GrahamFiles(m), m)| == m && ShardWeight(GrahamFiles(m), Shards(GrahamFiles(m), m)[0]) == 4 * m - 1
  {
    GrahamIsSorted(m);
    GrahamLast(m, GrahamFiles(m));
    ShardWeightIsLoad(GrahamFiles(m), m, 0);
  }

  /** The best assignment: two files to a shard, and the three lightest on the last. */
  function GrahamBest(m: nat): (best: seq<seq<TestFile>>)
    requires m >= 1
    ensures |best| == m
  {
    Folded(GrahamFiles(m)[..2 * m - 2]) + [GrahamFiles(m)[2 * m - 2..]]
  }

  lemma GrahamPairIsEven(m: nat, files: seq<TestFile>, k: nat)
    requires GrahamShaped(m, files) && k < m - 1
    ensures Total(FileWeight, Folded(files[..2 * m - 2])[k]) == (3 * m) as real
  {
    var pairs := files[..2 * m - 2];
    forall i | 0 <= i < |pairs| ensures FileWeight(pairs[i]) + FileWeight(pairs[|pairs| - 1 - i]) == (3 * m) as real {
      GrahamSums(m, i);
    }
    FoldedIsEven(FileWeight, pairs, (3 * m) as real, k);
  }

  lemma GrahamRestIsEven(m: nat, files: seq<TestFile>)
    requires GrahamShaped(m, files)
    ensures Total(FileWeight, files[2 * m - 2..]) == (3 * m) as real
  {
    ThreeWeigh(FileWeight, files[2 * m - 2..], m as real);
  }

  lemma GrahamBestIsEven(m: nat, k: nat)
    requires k < m
    ensures Total(FileWeight, GrahamBest(m)[k]) == (3 * m) as real
  {
    if k < m - 1 {
      GrahamPairIsEven(m, GrahamFiles(m), k);
    } else {
      GrahamRestIsEven(m, GrahamFiles(m));
    }
  }

  /** The factor cannot be lowered for any number of shards: on Graham's files the first
      shard weighs 4m-1, while another assignment of the same files gives 3m to each. */
  lemma BoundIsAttained(m: nat)
    requires m >= 1
    ensures var files, other := GrahamFiles(m), MapAll(PathOf, GrahamBest(m));
            && Admitted(files, m) && |Shards(files, m)| == m
            && |other| == m && multiset(Flatten(other)) == multiset(Map(PathOf, files))
            && (forall j | 0 <= j < m :: ShardWeight(files, other[j]) == 3 * m)
            && 3 * (m * ShardWeight(files, Shards(files, m)[0])) == (4 * m - 1) * (3 * m)
  {
    BestIsAssignment(m);
    GrahamHeavyShard(m);
    EqualProducts(m, ShardWeight(GrahamFiles(m), Shards(GrahamFiles(m), m)[0]));
  }

  lemma EqualProducts(m: nat, g: int)
    requires g == 4 * m - 1
    ensures 3 * (m * g) == (4 * m - 1) * (3 * m)
  {
  }

  /** Every shard of the best assignment weighs 3m. */
  lemma BestIsAssignment(m: nat)
    requires m >= 1
    ensures var files, other := GrahamFiles(m), MapAll(PathOf, GrahamBest(m));
            && Admitted(files, m) && |other| == m && multiset(Flatten(other)) == multiset(Map(PathOf, files))
            && forall j | 0 <= j < m :: ShardWeight(files, other[j]) == 3 * m
  {
    GrahamIsSorted(m);
    GrahamBestKeepsFiles(m);
    MapFlatten(PathOf, GrahamBest(m));
    MapIgnoresOrder(PathOf, Flatten(GrahamBest(m)), GrahamFiles(m));
    forall j | 0 <= j < m ensures ShardWeight(GrahamFiles(m), Map(PathOf, GrahamBest(m)[j])) == 3 * m {
      BestShardWeighs(m, j);
    }
  }

  lemma GrahamBestKeepsFiles(m: nat)
    requires m >= 1
    ensures multiset(Flatten(GrahamBest(m))) == multiset(GrahamFiles(m))
  {
    FoldedWithRest(GrahamFiles(m), 2 * m - 2);
  }

  lemma BestShardWeighs(m: nat, j: nat)
    requires j < m && Admitted(GrahamFiles(m), m) && multiset(Flatten(GrahamBest(m))) == multiset(GrahamFiles(m))
    ensures ShardWeight(GrahamFiles(m), Map(PathOf, GrahamBest(m)[j])) == 3 * m
  {
    GrahamBestIsEven(m, j);
    BucketOf(GrahamFiles(m), GrahamBest(m), j);
    ShardWeightOfBucket(GrahamFiles(m), GrahamBest(m)[j]);
  }

  /** Any two shards differ by at most the heaviest file. */
  lemma ShardSpread(files: seq<TestFile>, count: nat, top: int, i: nat, j: nat)
    requires Admitted(files, count) && i < count && j < count
    requires forall f | f in files :: f.weight <= top
    ensures |Shards(files, count)| == count
    ensures ShardWeight(files, Shards(files, count)[i]) - ShardWeight(files, Shards(files, count)[j]) <= top
  {
    BucketFacts(files, count);
    var order := Sort(HeavierFirst, files);
    assert files[0].weight <= top;
    forall f | f in order ensures 0.0 <= FileWeight(f) <= top as real {
      assert f in multiset(order);
    }
    Spread(FilePolicy(), count, order, top as real);
    ShardWeightIsLoad(files, count, i);
    ShardWeightIsLoad(files, count, j);
  }

  /** `partition_test_files`. */
  method PartitionTestFiles(files: seq<TestFile>, shardCount: int) returns (r: Result<seq<seq<string>>, ShardError>)
    requires Weighed(files)
    ensures r.Ok? <==> Admitted(files, shardCount)
    ensures r.Ok? ==> r.value == Shards(files, shardCount)
    ensures r == Err(NoFiles) <==> files == []
    ensures r == Err(CountBelowOne) <==> files != [] && shardCount < 1
    ensures r == Err(CountAboveFiles) <==> files != [] && shardCount > |files|
    ensures r == Err(DuplicateFiles) <==> 1 <= shardCount <= |files| && !Distinct(Map(PathOf, files))
  {
    var invalid := ValidateShardInputs(1, shardCount, |files|);
    if invalid.Some? {
      return Err(invalid.value);
    }
    if !Distinct(Map(PathOf, files)) {
      return Err(DuplicateFiles);
    }
    BucketFacts(files, shardCount);
    var buckets := FillBuckets(Sort(HeavierFirst, files), shardCount);
    r := Ok(MapAll(PathOf, SortBuckets(buckets)));
  }

  /** The placement loop over the mutable `buckets` and `bucket_weights`. */
  method FillBuckets(ordered: seq<TestFile>, count: nat) returns (filled: seq<seq<TestFile>>)
    requires count >= 1
    ensures Place(FilePolicy(), count, ordered) == Some(filled)
  {
    var buckets: seq<seq<TestFile>> := seq(count, _ => []);
    var bucketWeights := seq(count, _ => 0);
    for n := 0 to |ordered|
      invariant Place(FilePolicy(), count, ordered[..n]) == Some(buckets)
      invariant Ledger(buckets, bucketWeights)
    {
      var index := LightestBucket(bucketWeights);
      assert ordered[..n + 1][..n] == ordered[..n];
      ChooseIsLightest(buckets, bucketWeights, ordered[n], index);
      LedgerKept(buckets, bucketWeights, index, ordered[n]);
      buckets := buckets[index := buckets[index] + [ordered[n]]];
      bucketWeights := bucketWeights[index := bucketWeights[index] + ordered[n].weight];
    }
    assert ordered[..|ordered|] == ordered;
    filled := buckets;
  }

  /** `bucket_weights` are the totals of the buckets. */
  ghost predicate Ledger(bs: seq<seq<TestFile>>, weights: seq<int>) {
    |bs| == |weights| && forall j | 0 <= j < |bs| :: weights[j] as real == Load(FilePolicy(), bs[j])
  }

  lemma LedgerKept(bs: seq<seq<TestFile>>, weights: seq<int>, i: nat, f: TestFile)
    requires Ledger(bs, weights) && i < |bs|
    ensures Ledger(bs[i := bs[i] + [f]], weights[i := weights[i] + f.weight])
  {
    TotalSnoc(FileWeight, bs[i], f);
  }

  /** Bucket `index` has the least (weight, index) of the first `n`. */
  ghost predicate Lightest(weights: seq<int>, n: nat, index: nat)
    requires n <= |weights|
  {
    && index < n
    && forall j | 0 <= j < n :: weights[index] < weights[j] || (weights[index] == weights[j] && index <= j)
  }

  /** The lightest bucket, the lowest index among equals. */
  method LightestBucket(weights: seq<int>) returns (index: nat)
    requires |weights| >= 1
    ensures Lightest(weights, |weights|, index)
  {
    index := 0;
    for k := 1 to |weights|
      invariant Lightest(weights, k, index)
    {
      if weights[k] < weights[index] {
        index := k;
      }
    }
  }

  lemma ChooseIsLightest(bs: seq<seq<TestFile>>, weights: seq<int>, x: TestFile, index: nat)
    requires Ledger(bs, weights) && Lightest(weights, |weights|, index)
    ensures Choose(FilePolicy(), bs, x, |bs|) == Some(index)
  {
    var r := Choose(FilePolicy(), bs, x, |bs|);
    assert Eligible(FilePolicy(), bs[index], x);
    assert r.Some? && weights[r.value] as real == Load(FilePolicy(), bs[r.value]);
  }
}
