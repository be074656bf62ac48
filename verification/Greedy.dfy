/** The longest-first placement loop shared by `partition_test_files` and
    `partition_groups`: every item goes to the eligible bucket of least cost, the
    lowest index among equals. A limit, when given, caps the historical items of
    a bucket; the file partition runs without one. */
module Greedy {
  import opened Wrappers
  import opened Totals

  datatype Policy<!T> = Policy(weight: T -> real, historical: T -> bool, limit: Option<int>)

  function Count<T>(p: T -> bool, s: seq<T>): nat {
    if s == [] then 0 else Count(p, s[..|s| - 1]) + if p(s[|s| - 1]) then 1 else 0
  }

  function Mark<T>(p: T -> bool): T -> real {
    x => if p(x) then 1.0 else 0.0
  }

  lemma {:induction false} CountIsTotal<T>(p: T -> bool, s: seq<T>)
    ensures Count(p, s) as real == Total(Mark(p), s)
  {
    if s != [] {
      CountIsTotal(p, s[..|s| - 1]);
    }
  }

  lemma CountIgnoresOrder<T>(p: T -> bool, s: seq<T>, t: seq<T>)
    requires multiset(s) == multiset(t)
    ensures Count(p, s) == Count(p, t)
  {
    CountIsTotal(p, s);
    CountIsTotal(p, t);
    TotalIgnoresOrder(Mark(p), s, t);
  }

  lemma CountSnoc<T>(p: T -> bool, s: seq<T>, x: T)
    ensures Count(p, s + [x]) == Count(p, s) + if p(x) then 1 else 0
  {
    assert (s + [x])[..|s|] == s;
  }

  lemma {:induction false} CountAtMostLength<T>(p: T -> bool, s: seq<T>)
    ensures Count(p, s) <= |s|
  {
    if s != [] { CountAtMostLength(p, s[..|s| - 1]); }
  }

  lemma {:induction false} TimesInt(c: int, n: nat)
    ensures Times(c as real, n) == (c * n) as real
  {
    if n > 0 {
      TimesInt(c, n - 1);
      assert c * n == c * (n - 1) + c;
    }
  }

  function Load<T>(p: Policy<T>, bucket: seq<T>): real {
    Total(p.weight, bucket)
  }

  predicate Eligible<T>(p: Policy<T>, bucket: seq<T>, x: T) {
    !p.historical(x) || p.limit.None? || Count(p.historical, bucket) < p.limit.value
  }

  /** Bucket `i` is the eligible one of least (cost, index) among the first `n`. */
  ghost predicate Best<T>(p: Policy<T>, bs: seq<seq<T>>, x: T, n: nat, i: nat)
    requires n <= |bs|
  {
    && i < n && Eligible(p, bs[i], x)
    && forall j | 0 <= j < n && Eligible(p, bs[j], x) ::
         Load(p, bs[i]) < Load(p, bs[j]) || (Load(p, bs[i]) == Load(p, bs[j]) && i <= j)
  }

  /** Python's `min(eligible, key=...)` over the first `n` buckets; it raises on none. */
  function Choose<T>(p: Policy<T>, bs: seq<seq<T>>, x: T, n: nat): (r: Option<nat>)
    requires n <= |bs|
    ensures r.Some? ==> Best(p, bs, x, n, r.value)
    ensures r.None? ==> forall j | 0 <= j < n :: !Eligible(p, bs[j], x)
  {
    if n == 0 then None
    else
      var r := Choose(p, bs, x, n - 1);
      if Eligible(p, bs[n - 1], x) && (r.None? || Load(p, bs[n - 1]) < Load(p, bs[r.value]))
      then Some(n - 1) else r
  }

  /** The buckets after placing `order` one by one into `m` empty buckets. */
  function Place<T>(p: Policy<T>, m: nat, order: seq<T>): (r: Option<seq<seq<T>>>)
    ensures r.Some? ==> |r.value| == m
  {
    if order == [] then Some(seq(m, _ => []))
    else
      var n := |order| - 1;
      match Place(p, m, order[..n])
      case None => None
      case Some(bs) =>
        match Choose(p, bs, order[n], m)
        case None => None
        case Some(i) => Some(bs[i := bs[i] + [order[n]]])
  }

  lemma LastOne<T>(s: seq<T>)
    requires s != []
    ensures multiset(s) == multiset(s[..|s| - 1]) + multiset{s[|s| - 1]}
  {
    assert s == s[..|s| - 1] + [s[|s| - 1]];
  }

  lemma PlaceNext<T>(p: Policy<T>, m: nat, order: seq<T>, x: T, bs: seq<seq<T>>, i: nat)
    requires Place(p, m, order) == Some(bs) && Best(p, bs, x, m, i)
    ensures Place(p, m, order + [x]) == Some(bs[i := bs[i] + [x]])
  {
    assert (order + [x])[..|order|] == order;
    var r := Choose(p, bs, x, m);
    assert r.Some? && Best(p, bs, x, m, r.value);
  }

  lemma PlaceExtends<T>(p: Policy<T>, m: nat, s: seq<T>, k: nat, bs: seq<seq<T>>, i: nat)
    requires k < |s| && Place(p, m, s[..k]) == Some(bs) && Best(p, bs, s[k], m, i)
    ensures Place(p, m, s[..k + 1]) == Some(bs[i := bs[i] + [s[k]]])
  {
    PlaceNext(p, m, s[..k], s[k], bs, i);
    PrefixSnoc(s, k);
  }

  /** No item is dropped or duplicated. */
  lemma {:induction false} PlaceKeepsItems<T>(p: Policy<T>, m: nat, order: seq<T>)
    requires Place(p, m, order).Some?
    ensures multiset(Flatten(Place(p, m, order).value)) == multiset(order)
  {
    if order == [] {
      FlattenEmpties(Place(p, m, order).value);
    } else {
      var n := |order| - 1;
      PlaceKeepsItems(p, m, order[..n]);
      var bs := Place(p, m, order[..n]).value;
      FlattenUpdate(bs, Choose(p, bs, order[n], m).value, order[n]);
      LastOne(order);
    }
  }

  /** No bucket exceeds the limit on historical items. */
  lemma {:induction false} PlaceWithinLimit<T>(p: Policy<T>, m: nat, order: seq<T>)
    requires Place(p, m, order).Some? && p.limit.Some? && p.limit.value >= 0
    ensures forall i | 0 <= i < m :: Count(p.historical, Place(p, m, order).value[i]) <= p.limit.value
  {
    if order != [] {
      var n := |order| - 1;
      PlaceWithinLimit(p, m, order[..n]);
      var bs := Place(p, m, order[..n]).value;
      var c := Choose(p, bs, order[n], m).value;
      assert (bs[c] + [order[n]])[..|bs[c]|] == bs[c];
    }
  }

  /** Pigeonhole: buckets that are all full hold at least the whole capacity. */
  lemma FullBucketsHoldAll<T>(p: Policy<T>, m: nat, placed: seq<T>, bs: seq<seq<T>>)
    requires p.limit.Some? && |bs| == m && multiset(Flatten(bs)) == multiset(placed)
    requires forall j | 0 <= j < m :: Count(p.historical, bs[j]) >= p.limit.value
    ensures Count(p.historical, placed) >= p.limit.value * m
  {
    forall j | 0 <= j < m ensures Total(Mark(p.historical), bs[j]) >= p.limit.value as real {
      CountIsTotal(p.historical, bs[j]);
    }
    FlattenAtLeast(Mark(p.historical), bs, p.limit.value as real);
    TimesInt(p.limit.value, m);
    CountIsTotal(p.historical, placed);
    TotalIgnoresOrder(Mark(p.historical), Flatten(bs), placed);
  }

  /** The loop never runs out of eligible buckets when the capacity covers the input. */
  lemma {:induction false} PlaceNeverStuck<T>(p: Policy<T>, m: nat, order: seq<T>)
    requires m >= 1
    requires p.limit.Some? ==> Count(p.historical, order) <= p.limit.value * m
    ensures Place(p, m, order).Some?
  {
    if order != [] {
      var n := |order| - 1;
      PlaceNeverStuck(p, m, order[..n]);
      var bs := Place(p, m, order[..n]).value;
      if Choose(p, bs, order[n], m).None? {
        assert !Eligible(p, bs[0], order[n]);
        PlaceKeepsItems(p, m, order[..n]);
        FullBucketsHoldAll(p, m, order[..n], bs);
        assert false;
      }
    }
  }

  /** Once no bucket is eligible the placement has failed for good. */
  lemma {:induction false} StuckForGood<T>(p: Policy<T>, m: nat, order: seq<T>, n: nat)
    requires n <= |order| && Place(p, m, order[..n]).None?
    ensures Place(p, m, order).None?
  {
    if n == |order| {
      assert order[..n] == order;
    } else {
      assert order[..|order| - 1][..n] == order[..n];
      StuckForGood(p, m, order[..|order| - 1], n);
    }
  }

  ghost predicate Positive<T>(p: Policy<T>, s: seq<T>) {
    forall x | x in s :: p.weight(x) > 0.0
  }

  lemma {:induction false} LoadPositive<T>(p: Policy<T>, s: seq<T>)
    requires Positive(p, s)
    ensures Load(p, s) >= 0.0 && (s != [] ==> Load(p, s) > 0.0)
  {
    if s != [] {
      LoadPositive(p, s[..|s| - 1]);
    }
  }

  /** The first `m` items open the buckets one after another. */
  lemma {:induction false} PlaceOpensBuckets<T>(p: Policy<T>, m: nat, order: seq<T>)
    requires Place(p, m, order).Some? && Positive(p, order) && |order| <= m
    requires p.limit.Some? ==> p.limit.value >= 1
    ensures forall i | 0 <= i < m ::
              Place(p, m, order).value[i] == if i < |order| then [order[i]] else []
  {
    if order != [] {
      var n := |order| - 1;
      PlaceOpensBuckets(p, m, order[..n]);
      var bs := Place(p, m, order[..n]).value;
      var c := Choose(p, bs, order[n], m).value;
      forall j | 0 <= j < n ensures Load(p, bs[j]) > 0.0 {
        assert bs[j] == [order[j]];
        LoadPositive(p, bs[j]);
      }
      assert Eligible(p, bs[n], order[n]) && Load(p, bs[n]) == 0.0;
      assert c == n;
    }
  }

  /** With at least as many items as buckets, no bucket stays empty. */
  lemma {:induction false} PlaceLeavesNoneEmpty<T>(p: Policy<T>, m: nat, order: seq<T>)
    requires Place(p, m, order).Some? && Positive(p, order) && |order| >= m
    requires p.limit.Some? ==> p.limit.value >= 1
    ensures forall i | 0 <= i < m :: Place(p, m, order).value[i] != []
  {
    if |order| == m {
      PlaceOpensBuckets(p, m, order);
    } else {
      PlaceLeavesNoneEmpty(p, m, order[..|order| - 1]);
    }
  }
}

/** Graham's bound for longest-first placement, by a weighting argument: an item of the
    placed prefix counts 2 when no further item fits beside it under `t`, else 1. */
module LongestFirst {
  import opened Totals
  import opened Greedy

  ghost predicate Descending<T>(w: T -> real, s: seq<T>) {
    forall i, j | 0 <= i < j < |s| :: w(s[i]) >= w(s[j])
  }

  /** `bs` assigns exactly the items `s` to `m` buckets, none heavier than `t`. */
  ghost predicate Assignment<T>(w: T -> real, s: seq<T>, m: nat, bs: seq<seq<T>>, t: real) {
    && |bs| == m && multiset(Flatten(bs)) == multiset(s)
    && forall i | 0 <= i < m :: Total(w, bs[i]) <= t
  }

  /** No two loads ever differ by more than the heaviest item. */
  lemma {:induction false} Spread<T>(p: Policy<T>, m: nat, order: seq<T>, top: real)
    requires p.limit.None? && Place(p, m, order).Some?
    requires top >= 0.0 && forall x | x in order :: 0.0 <= p.weight(x) <= top
    ensures forall i, j | 0 <= i < m && 0 <= j < m ::
              Load(p, Place(p, m, order).value[i]) - Load(p, Place(p, m, order).value[j]) <= top
  {
    if order != [] {
      var n := |order| - 1;
      Spread(p, m, order[..n], top);
      var bs := Place(p, m, order[..n]).value;
      var c := Choose(p, bs, order[n], m).value;
      TotalSnoc(p.weight, bs[c], order[n]);
      forall j | 0 <= j < m ensures Load(p, bs[c]) <= Load(p, bs[j]) {
        assert Eligible(p, bs[j], order[n]);
      }
    }
  }

  ghost function Rank<T(!new)>(w: T -> real, prefix: seq<T>, small: real, t: real): T -> real {
    x => if x !in prefix then 0.0 else if w(x) + small > t then 2.0 else 1.0
  }

  /** A bucket within `t` has rank at most 2: two such items already leave no room. */
  lemma {:induction false} RankAbove<T(!new)>(w: T -> real, prefix: seq<T>, small: real, t: real, c: seq<T>)
    requires 3.0 * small > t && small > 0.0
    requires forall x | x in c :: w(x) >= 0.0
    requires forall x | x in prefix :: w(x) >= small
    ensures var v, l := Total(Rank(w, prefix, small, t), c), Total(w, c);
            || (v == 0.0 && l >= 0.0) || (v == 1.0 && l >= small)
            || (v == 2.0 && l >= small && l > t - small) || (v >= 3.0 && l > t)
  {
    if c != [] {
      RankAbove(w, prefix, small, t, c[..|c| - 1]);
    }
  }

  /** A bucket too full for `small` has rank at least 2. */
  lemma {:induction false} RankBelow<T(!new)>(w: T -> real, prefix: seq<T>, small: real, t: real, c: seq<T>)
    requires small <= t
    requires forall x | x in c :: x in prefix
    ensures var v, l := Total(Rank(w, prefix, small, t), c), Total(w, c);
            || (v == 0.0 && l == 0.0 && c == []) || (v == 1.0 && l <= t - small) || v >= 2.0
  {
    if c != [] {
      RankBelow(w, prefix, small, t, c[..|c| - 1]);
    }
  }

  /** Any assignment within `t` has at most rank 2 per bucket, and none if `small > t`. */
  lemma AssignmentRank<T(!new)>(w: T -> real, full: seq<T>, m: nat, prefix: seq<T>, small: real, t: real, other: seq<seq<T>>)
    requires Assignment(w, full, m, other, t)
    requires 3.0 * small > t && small > 0.0
    requires forall x | x in full :: w(x) >= 0.0
    requires forall x | x in prefix :: w(x) >= small
    ensures Total(Rank(w, prefix, small, t), full) <= Times(2.0, m)
    ensures small > t ==> Total(Rank(w, prefix, small, t), full) <= 0.0
  {
    var rank := Rank(w, prefix, small, t);
    forall i | 0 <= i < m
      ensures Total(rank, other[i]) <= if small > t then 0.0 else 2.0
    {
      BucketOf(full, other, i);
      RankAbove(w, prefix, small, t, other[i]);
    }
    FlattenAtMost(rank, other, if small > t then 0.0 else 2.0);
    TotalIgnoresOrder(rank, Flatten(other), full);
    TimesZero(m);
    TimesOrder(0.0, 2.0, m);
  }

  /** Buckets all too full for `small` have at least rank 2 each. */
  lemma PlacedRank<T(!new)>(w: T -> real, placed: seq<T>, m: nat, prefix: seq<T>, small: real, t: real, bs: seq<seq<T>>)
    requires |bs| == m && multiset(Flatten(bs)) == multiset(placed)
    requires forall i | 0 <= i < m :: Total(w, bs[i]) > t - small
    requires small <= t
    requires forall x | x in placed :: x in prefix
    ensures Total(Rank(w, prefix, small, t), placed) >= Times(2.0, m)
  {
    var rank := Rank(w, prefix, small, t);
    forall i | 0 <= i < m ensures Total(rank, bs[i]) >= 2.0 {
      BucketOf(placed, bs, i);
      RankBelow(w, prefix, small, t, bs[i]);
    }
    FlattenAtLeast(rank, bs, 2.0);
    TotalIgnoresOrder(rank, Flatten(bs), placed);
  }

  /** When the smallest placed item exceeds `t/3`, the least loaded bucket still has room
      for it: otherwise the ranks of the placed items add up to more than `2m`, while any
      assignment within `t` has at most 2 per bucket. */
  lemma RoomForLargeItem<T(!new)>(p: Policy<T>, m: nat, full: seq<T>, k: nat, bs: seq<seq<T>>, other: seq<seq<T>>, t: real, low: real)
    requires Descending(p.weight, full) && Positive(p, full) && k < |full|
    requires Assignment(p.weight, full, m, other, t)
    requires |bs| == m && multiset(Flatten(bs)) == multiset(full[..k])
    requires forall i | 0 <= i < m :: Load(p, bs[i]) >= low
    requires 3.0 * p.weight(full[k]) > t
    ensures low + p.weight(full[k]) <= t
  {
    var small := p.weight(full[k]);
    var prefix := full[..k + 1];
    assert prefix[k] == full[k];
    var rank := Rank(p.weight, prefix, small, t);
    AssignmentRank(p.weight, full, m, prefix, small, t, other);
    PrefixTotal(rank, full, k);
    if small > t {
      TotalNonNegative(rank, full[..k]);
    } else if low + small > t {
      PlacedRank(p.weight, full[..k], m, prefix, small, t, bs);
    }
  }

  lemma BucketOf<T>(s: seq<T>, bs: seq<seq<T>>, i: nat)
    requires i < |bs| && multiset(Flatten(bs)) == multiset(s)
    ensures forall x | x in bs[i] :: x in s
  {
    forall x | x in bs[i] ensures x in s {
      FlattenContains(bs, i, x);
      assert x in multiset(Flatten(bs));
    }
  }

  lemma {:induction false} TimesZero(m: nat)
    ensures Times(0.0, m) == 0.0
  {
    if m > 0 { TimesZero(m - 1); }
  }

  lemma PrefixTotal<T>(f: T -> real, s: seq<T>, k: nat)
    requires k < |s| && forall x | x in s :: f(x) >= 0.0
    ensures Total(f, s) >= Total(f, s[..k]) + f(s[k])
  {
    assert s == s[..k + 1] + s[k + 1..] && s[..k + 1] == s[..k] + [s[k]];
    TotalConcat(f, s[..k + 1], s[k + 1..]);
    TotalSnoc(f, s[..k], s[k]);
    TotalNonNegative(f, s[k + 1..]);
  }

  /** `3·m·g <= (4·m-1)·t`, with the products spelled as repeated sums. */
  ghost predicate Within(m: nat, g: real, t: real) {
    3.0 * Times(g, m) <= 4.0 * Times(t, m) - t
  }

  /** The load `g` is within 4/3 - 1/(3m) of `t`: 3·m·g <= (4·m-1)·t. */
  ghost predicate WithinFourThirds(m: nat, g: real, t: real) {
    3.0 * (g * m as real) <= 4.0 * (t * m as real) - t
  }

  lemma WithinIsProduct(m: nat, g: real, t: real)
    ensures Within(m, g, t) <==> WithinFourThirds(m, g, t)
  {
    TimesIsProduct(g, m);
    TimesIsProduct(t, m);
  }

  lemma {:induction false} TimesOrder(a: real, b: real, m: nat)
    requires a <= b
    ensures Times(a, m) <= Times(b, m)
  {
    if m > 0 { TimesOrder(a, b, m - 1); }
  }

  lemma {:induction false} TimesAdd(a: real, b: real, m: nat)
    ensures Times(a + b, m) == Times(a, m) + Times(b, m)
  {
    if m > 0 { TimesAdd(a, b, m - 1); }
  }

  lemma {:induction false} TimesScale(a: real, m: nat)
    ensures Times(3.0 * a, m) == 3.0 * Times(a, m)
  {
    if m > 0 { TimesScale(a, m - 1); }
  }

  /** Buckets of at least `low` each, and the next item, are part of any assignment. */
  lemma BelowMean<T>(p: Policy<T>, m: nat, full: seq<T>, k: nat, bs: seq<seq<T>>, other: seq<seq<T>>, t: real, low: real)
    requires Positive(p, full) && k < |full|
    requires Assignment(p.weight, full, m, other, t)
    requires |bs| == m && multiset(Flatten(bs)) == multiset(full[..k])
    requires forall i | 0 <= i < m :: Load(p, bs[i]) >= low
    ensures Times(low, m) + p.weight(full[k]) <= Times(t, m)
  {
    FlattenAtMost(p.weight, other, t);
    TotalIgnoresOrder(p.weight, Flatten(other), full);
    PrefixTotal(p.weight, full, k);
    FlattenAtLeast(p.weight, bs, low);
    TotalIgnoresOrder(p.weight, Flatten(bs), full[..k]);
  }

  /** The averaging half: a small item lands on a bucket no heavier than the mean. */
  lemma SmallItemFits<T(!new)>(p: Policy<T>, m: nat, full: seq<T>, k: nat, bs: seq<seq<T>>, other: seq<seq<T>>, t: real, low: real)
    requires m >= 1 && Positive(p, full) && k < |full|
    requires Assignment(p.weight, full, m, other, t)
    requires |bs| == m && multiset(Flatten(bs)) == multiset(full[..k])
    requires forall i | 0 <= i < m :: Load(p, bs[i]) >= low
    requires 3.0 * p.weight(full[k]) <= t
    ensures Within(m, low + p.weight(full[k]), t)
  {
    var small := p.weight(full[k]);
    BelowMean(p, m, full, k, bs, other, t, low);
    TimesAdd(low, small, m);
    TimesOrder(3.0 * small, t, m - 1);
    TimesScale(small, m - 1);
  }

  lemma WithinWhenBelow(m: nat, g: real, t: real)
    requires m >= 1 && g <= t && 0.0 <= t
    ensures Within(m, g, t)
  {
    TimesOrder(g, t, m);
    TimesOrder(0.0, t, m - 1);
    TimesZero(m - 1);
  }

  /** The load that receives the next item stays within the bound. */
  lemma NextItemWithin<T(!new)>(p: Policy<T>, m: nat, full: seq<T>, k: nat, bs: seq<seq<T>>, other: seq<seq<T>>, t: real, low: real)
    requires m >= 1 && k < |full| && 0.0 <= t
    requires Descending(p.weight, full) && Positive(p, full)
    requires Assignment(p.weight, full, m, other, t)
    requires |bs| == m && multiset(Flatten(bs)) == multiset(full[..k])
    requires forall i | 0 <= i < m :: Load(p, bs[i]) >= low
    ensures Within(m, low + p.weight(full[k]), t)
  {
    if 3.0 * p.weight(full[k]) <= t {
      SmallItemFits(p, m, full, k, bs, other, t, low);
    } else {
      RoomForLargeItem(p, m, full, k, bs, other, t, low);
      WithinWhenBelow(m, low + p.weight(full[k]), t);
    }
  }

  lemma AssignmentNonNegative<T>(p: Policy<T>, m: nat, full: seq<T>, other: seq<seq<T>>, t: real)
    requires m >= 1 && Positive(p, full) && Assignment(p.weight, full, m, other, t)
    ensures 0.0 <= t
  {
    BucketOf(full, other, 0);
    LoadPositive(p, other[0]);
  }

  ghost predicate AllWithin<T>(p: Policy<T>, m: nat, bs: seq<seq<T>>, t: real) {
    forall i | 0 <= i < |bs| :: Within(m, Load(p, bs[i]), t)
  }

  /** One placement keeps every load within the bound. */
  lemma PlacementWithin<T(!new)>(p: Policy<T>, m: nat, full: seq<T>, k: nat, bs: seq<seq<T>>, c: nat, other: seq<seq<T>>, t: real)
    requires m >= 1 && p.limit.None? && k < |full| && 0.0 <= t
    requires Descending(p.weight, full) && Positive(p, full)
    requires Assignment(p.weight, full, m, other, t)
    requires |bs| == m && multiset(Flatten(bs)) == multiset(full[..k])
    requires AllWithin(p, m, bs, t) && Best(p, bs, full[k], m, c)
    ensures AllWithin(p, m, bs[c := bs[c] + [full[k]]], t)
  {
    forall j | 0 <= j < m ensures Load(p, bs[j]) >= Load(p, bs[c]) {
      assert Eligible(p, bs[j], full[k]);
    }
    NextItemWithin(p, m, full, k, bs, other, t, Load(p, bs[c]));
    TotalSnoc(p.weight, bs[c], full[k]);
  }

  /** Graham's theorem, for every prefix of the placement. */
  lemma {:induction false} LongestFirstPrefix<T(!new)>(p: Policy<T>, m: nat, full: seq<T>, n: nat, other: seq<seq<T>>, t: real)
    requires m >= 1 && p.limit.None? && n <= |full|
    requires Descending(p.weight, full) && Positive(p, full)
    requires Assignment(p.weight, full, m, other, t)
    requires Place(p, m, full[..n]).Some?
    ensures AllWithin(p, m, Place(p, m, full[..n]).value, t)
  {
    AssignmentNonNegative(p, m, full, other, t);
    if n == 0 {
      WithinWhenBelow(m, 0.0, t);
    } else {
      var k := n - 1;
      assert full[..n][..k] == full[..k];
      LongestFirstPrefix(p, m, full, k, other, t);
      var bs := Place(p, m, full[..k]).value;
      PlaceKeepsItems(p, m, full[..k]);
      PlacementWithin(p, m, full, k, bs, Choose(p, bs, full[k], m).value, other, t);
    }
  }
}
