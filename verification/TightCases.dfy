/** Inputs on which longest-first placement is as bad as its bounds allow: pairs of items of
    equal sum fill all buckets evenly, and what remains lands on one of them, while a better
    assignment leaves room for it. */
module TightCases {
  import opened Wrappers
  import opened Sorting
  import opened Totals
  import opened Greedy
  import opened LongestFirst

  // ---- Loads alone.

  /** The weights descend, and the k-th from the front and from the back of the first 2m have the
      same sum for every k. */
  ghost predicate Complementary(w: seq<real>, m: nat, sum: real) {
    && 2 * m <= |w| && (forall k | 0 <= k < |w| :: w[k] > 0.0)
    && (forall i, j | 0 <= i < j < |w| :: w[i] >= w[j])
    && forall k | 0 <= k < 2 * m :: w[k] + w[2 * m - 1 - k] == sum
  }

  /** `j` loads are `sum`, the others are those of `single`. */
  ghost predicate Joined(loads: seq<real>, single: seq<real>, sum: real, j: nat) {
    multiset(loads) == multiset(single) + multiset{}[sum := j]
  }

  /** The least load is that of the lightest item not yet joined. */
  lemma LeastIsNextToJoin(loads: seq<real>, w: seq<real>, m: nat, sum: real, j: nat, c: nat)
    requires Complementary(w, m, sum) && j < m && Joined(loads, w[..m - j], sum, j)
    requires c < |loads| && forall i | 0 <= i < |loads| :: loads[c] <= loads[i]
    ensures loads[c] == w[m - 1 - j]
  {
    var single, k := w[..m - j], m - 1 - j;
    assert single[k] in multiset(single);
    assert single[k] in multiset(loads);
    var i :| 0 <= i < |loads| && loads[i] == single[k];
    assert loads[c] in multiset(loads);
    if loads[c] != sum {
      assert loads[c] in multiset(single);
      var l :| 0 <= l < m - j && single[l] == loads[c];
    }
    assert w[k] + w[2 * m - 1 - k] == sum;
  }

  lemma OneLessSingle(loads: seq<real>, single: seq<real>, sum: real, j: nat, c: nat)
    requires single != [] && c < |loads| && loads[c] == single[|single| - 1] && Joined(loads, single, sum, j)
    ensures Joined(loads[c := sum], single[..|single| - 1], sum, j + 1)
  {
    LastOne(single);
  }

  /** Joining the least load with the next item makes one more load `sum`. */
  lemma JoinLeast(loads: seq<real>, w: seq<real>, m: nat, sum: real, j: nat, c: nat)
    requires Complementary(w, m, sum) && j < m && Joined(loads, w[..m - j], sum, j)
    requires c < |loads| && forall i | 0 <= i < |loads| :: loads[c] <= loads[i]
    ensures loads[c] + w[m + j] == sum && Joined(loads[c := sum], w[..m - (j + 1)], sum, j + 1)
  {
    LeastIsNextToJoin(loads, w, m, sum, j, c);
    assert w[m - 1 - j] + w[2 * m - 1 - (m - 1 - j)] == sum;
    OneLessSingle(loads, w[..m - j], sum, j, c);
    assert w[..m - j][..m - j - 1] == w[..m - (j + 1)];
  }

  lemma AllJoined(loads: seq<real>, sum: real, j: nat, i: nat)
    requires Joined(loads, [], sum, j) && i < |loads|
    ensures loads[i] == sum
  {
    assert loads[i] in multiset(loads);
  }

  // ---- Placement.

  function Weights<T>(p: Policy<T>, s: seq<T>): (r: seq<real>)
    ensures |r| == |s| && forall i | 0 <= i < |s| :: r[i] == p.weight(s[i])
  {
    seq(|s|, i requires 0 <= i < |s| => p.weight(s[i]))
  }

  function Loads<T>(p: Policy<T>, bs: seq<seq<T>>): (r: seq<real>)
    ensures |r| == |bs| && forall i | 0 <= i < |bs| :: r[i] == Load(p, bs[i])
  {
    seq(|bs|, i requires 0 <= i < |bs| => Load(p, bs[i]))
  }

  /** The back half of the first 2m items may go to any bucket. */
  ghost predicate RegularBack<T>(p: Policy<T>, m: nat, items: seq<T>) {
    2 * m <= |items| && forall k | m <= k < 2 * m :: !p.historical(items[k])
  }

  /** Every bucket has the kind of the item that opened it. */
  ghost predicate KindsKept<T>(p: Policy<T>, items: seq<T>, bs: seq<seq<T>>) {
    |bs| <= |items| && forall i | 0 <= i < |bs| :: Count(p.historical, bs[i]) == if p.historical(items[i]) then 1 else 0
  }

  lemma OpensJoined<T>(p: Policy<T>, m: nat, items: seq<T>, bs: seq<seq<T>>)
    requires m <= |items| && Positive(p, items) && (p.limit.Some? ==> p.limit.value >= 1)
    requires Place(p, m, items[..m]) == Some(bs)
    ensures Loads(p, bs) == Weights(p, items)[..m] && KindsKept(p, items, bs)
  {
    PlaceOpensBuckets(p, m, items[..m]);
    forall i | 0 <= i < m ensures bs[i] == [items[i]] {
      assert items[..m][i] == items[i];
    }
    OpenedLoads(p, m, items, bs);
  }

  lemma OpenedLoads<T>(p: Policy<T>, m: nat, items: seq<T>, bs: seq<seq<T>>)
    requires m <= |items| && |bs| == m && forall i | 0 <= i < m :: bs[i] == [items[i]]
    ensures Loads(p, bs) == Weights(p, items)[..m] && KindsKept(p, items, bs)
  {
    forall i | 0 <= i < m
      ensures Load(p, bs[i]) == p.weight(items[i]) && Count(p.historical, bs[i]) == if p.historical(items[i]) then 1 else 0
    {
      TotalSnoc(p.weight, [], items[i]);
      CountSnoc(p.historical, [], items[i]);
      assert [] + [items[i]] == bs[i];
    }
  }

  lemma LoadsAfter<T>(p: Policy<T>, bs: seq<seq<T>>, c: nat, x: T, sum: real)
    requires c < |bs| && Load(p, bs[c]) + p.weight(x) == sum
    ensures Loads(p, bs[c := bs[c] + [x]]) == Loads(p, bs)[c := sum]
  {
    TotalSnoc(p.weight, bs[c], x);
  }

  lemma KindsAfter<T>(p: Policy<T>, items: seq<T>, bs: seq<seq<T>>, c: nat, x: T)
    requires c < |bs| && KindsKept(p, items, bs) && !p.historical(x)
    ensures KindsKept(p, items, bs[c := bs[c] + [x]])
  {
    CountSnoc(p.historical, bs[c], x);
  }

  /** Some bucket is best for a regular item: one of the least load. */
  lemma RegularGoesToLeast<T>(p: Policy<T>, m: nat, bs: seq<seq<T>>, x: T) returns (c: nat)
    requires 1 <= m == |bs| && !p.historical(x)
    ensures Best(p, bs, x, m, c) && forall i | 0 <= i < m :: Loads(p, bs)[c] <= Loads(p, bs)[i]
  {
    assert Eligible(p, bs[0], x);
    c := Choose(p, bs, x, m).value;
    forall i | 0 <= i < m ensures Loads(p, bs)[c] <= Loads(p, bs)[i] {
      assert Eligible(p, bs[i], x);
    }
  }

  /** One placement in the back half. */
  lemma JoinNext<T>(p: Policy<T>, m: nat, bs: seq<seq<T>>, x: T, c: nat, w: seq<real>, sum: real, n: nat)
    requires Complementary(w, m, sum) && m < n <= 2 * m && |bs| == m && p.weight(x) == w[n - 1]
    requires Joined(Loads(p, bs), w[..2 * m - (n - 1)], sum, n - 1 - m)
    requires c < m && forall i | 0 <= i < m :: Loads(p, bs)[c] <= Loads(p, bs)[i]
    ensures Joined(Loads(p, bs[c := bs[c] + [x]]), w[..2 * m - n], sum, n - m)
  {
    var j := n - 1 - m;
    assert m - j == 2 * m - (n - 1) && m - (j + 1) == 2 * m - n;
    JoinLeast(Loads(p, bs), w, m, sum, j, c);
    LoadsAfter(p, bs, c, x, sum);
  }

  /** The buckets after `n` items, of which the last `n - m` joined an earlier one. */
  ghost predicate Halfway<T>(p: Policy<T>, m: nat, items: seq<T>, w: seq<real>, sum: real, n: nat, bs: seq<seq<T>>) {
    && m <= n <= 2 * m <= |w| && |bs| == m
    && Joined(Loads(p, bs), w[..2 * m - n], sum, n - m) && KindsKept(p, items, bs)
  }

  lemma StaysHalfway<T>(p: Policy<T>, m: nat, items: seq<T>, w: seq<real>, sum: real, n: nat, bs: seq<seq<T>>, c: nat)
    requires w == Weights(p, items) && Complementary(w, m, sum) && RegularBack(p, m, items) && m < n <= 2 * m
    requires Halfway(p, m, items, w, sum, n - 1, bs)
    requires c < m && forall i | 0 <= i < m :: Loads(p, bs)[c] <= Loads(p, bs)[i]
    ensures Halfway(p, m, items, w, sum, n, bs[c := bs[c] + [items[n - 1]]])
  {
    JoinNext(p, m, bs, items[n - 1], c, w, sum, n);
    KindsAfter(p, items, bs, c, items[n - 1]);
  }

  lemma StartsHalfway<T>(p: Policy<T>, m: nat, items: seq<T>, w: seq<real>, sum: real, bs: seq<seq<T>>)
    requires w == Weights(p, items) && Complementary(w, m, sum) && Positive(p, items)
    requires Place(p, m, items[..m]) == Some(bs) && (p.limit.Some? ==> p.limit.value >= 1)
    ensures Halfway(p, m, items, w, sum, m, bs)
  {
    OpensJoined(p, m, items, bs);
    assert 2 * m - m == m;
  }

  ghost predicate Placed<T>(p: Policy<T>, m: nat, items: seq<T>, n: nat, bs: seq<seq<T>>) {
    n <= |items| && Place(p, m, items[..n]) == Some(bs)
  }

  lemma PlacedNext<T>(p: Policy<T>, m: nat, items: seq<T>, n: nat, bs: seq<seq<T>>, c: nat)
    requires 1 <= n <= |items| && Placed(p, m, items, n - 1, bs) && Best(p, bs, items[n - 1], m, c)
    ensures Placed(p, m, items, n, bs[c := bs[c] + [items[n - 1]]])
  {
    PlaceExtends(p, m, items, n - 1, bs, c);
    assert n - 1 + 1 == n;
  }

  lemma {:induction false} JoinAll<T>(p: Policy<T>, m: nat, items: seq<T>, w: seq<real>, sum: real, n: nat) returns (bs: seq<seq<T>>)
    requires m >= 1 && w == Weights(p, items) && Complementary(w, m, sum) && RegularBack(p, m, items) && m <= n <= 2 * m
    requires Place(p, m, items[..m]).Some? && (p.limit.Some? ==> p.limit.value >= 1) && Positive(p, items)
    ensures Placed(p, m, items, n, bs) && Halfway(p, m, items, w, sum, n, bs)
  {
    if n == m {
      bs := Place(p, m, items[..m]).value;
      StartsHalfway(p, m, items, w, sum, bs);
    } else {
      var before := JoinAll(p, m, items, w, sum, n - 1);
      bs := JoinOneMore(p, m, items, w, sum, n, before);
    }
  }

  lemma JoinOneMore<T>(p: Policy<T>, m: nat, items: seq<T>, w: seq<real>, sum: real, n: nat, before: seq<seq<T>>) returns (bs: seq<seq<T>>)
    requires m >= 1 && w == Weights(p, items) && Complementary(w, m, sum) && RegularBack(p, m, items) && m < n <= 2 * m
    requires Placed(p, m, items, n - 1, before) && Halfway(p, m, items, w, sum, n - 1, before)
    ensures Placed(p, m, items, n, bs) && Halfway(p, m, items, w, sum, n, bs)
  {
    var c := RegularGoesToLeast(p, m, before, items[n - 1]);
    StaysHalfway(p, m, items, w, sum, n, before, c);
    PlacedNext(p, m, items, n, before, c);
    bs := before[c := before[c] + [items[n - 1]]];
  }

  lemma EndsEven<T>(p: Policy<T>, m: nat, items: seq<T>, w: seq<real>, sum: real, bs: seq<seq<T>>)
    requires Halfway(p, m, items, w, sum, 2 * m, bs)
    ensures forall i | 0 <= i < m :: Load(p, bs[i]) == sum
  {
    assert w[..2 * m - 2 * m] == [];
    forall i | 0 <= i < m ensures Load(p, bs[i]) == sum {
      AllJoined(Loads(p, bs), sum, 2 * m - m, i);
    }
  }

  lemma WeightsArePositive<T>(p: Policy<T>, items: seq<T>, w: seq<real>)
    requires w == Weights(p, items) && forall k | 0 <= k < |w| :: w[k] > 0.0
    ensures Positive(p, items)
  {
    forall x | x in items ensures p.weight(x) > 0.0 {
      var k :| 0 <= k < |items| && items[k] == x;
      assert w[k] > 0.0;
    }
  }

  /** Complementary pairs fill all buckets evenly, each keeping the kind of its first item. */
  lemma PairsFillEvenly<T>(p: Policy<T>, m: nat, items: seq<T>, sum: real) returns (bs: seq<seq<T>>)
    requires m >= 1 && Complementary(Weights(p, items), m, sum) && RegularBack(p, m, items)
    requires Place(p, m, items[..m]).Some? && (p.limit.Some? ==> p.limit.value >= 1)
    ensures Place(p, m, items[..2 * m]) == Some(bs) && |bs| == m && KindsKept(p, items, bs)
    ensures forall i | 0 <= i < m :: Load(p, bs[i]) == sum
  {
    var w := Weights(p, items);
    WeightsArePositive(p, items, w);
    bs := JoinAll(p, m, items, w, sum, 2 * m);
    EndsEven(p, m, items, w, sum, bs);
  }

  // ---- A better assignment.

  /** The first with the last, the second with the last but one, and so on inwards. */
  function Folded<T>(s: seq<T>): (bs: seq<seq<T>>)
    requires |s| % 2 == 0
    ensures |bs| == |s| / 2
  {
    if s == [] then [] else Folded(s[1..|s| - 1]) + [[s[0], s[|s| - 1]]]
  }

  lemma BothEnds<T>(s: seq<T>)
    requires |s| >= 2
    ensures multiset(s) == multiset(s[1..|s| - 1]) + multiset{s[0]} + multiset{s[|s| - 1]}
  {
    LastOne(s);
    TailMultiset(s[..|s| - 1]);
    assert s[..|s| - 1][1..] == s[1..|s| - 1];
    assert s[0] in s[..|s| - 1];
  }

  lemma FlattenSnoc<T>(bs: seq<seq<T>>, b: seq<T>)
    ensures Flatten(bs + [b]) == Flatten(bs) + b
  {
    assert (bs + [b])[..|bs|] == bs;
  }

  lemma {:induction false} FoldedKeepsItems<T>(s: seq<T>)
    requires |s| % 2 == 0
    ensures multiset(Flatten(Folded(s))) == multiset(s)
  {
    if s != [] {
      var inner := s[1..|s| - 1];
      FoldedKeepsItems(inner);
      FlattenSnoc(Folded(inner), [s[0], s[|s| - 1]]);
      BothEnds(s);
    }
  }

  lemma {:induction false} FoldedIsEven<T>(w: T -> real, s: seq<T>, sum: real, j: nat)
    requires |s| % 2 == 0 && j < |s| / 2
    requires forall k | 0 <= k < |s| :: w(s[k]) + w(s[|s| - 1 - k]) == sum
    ensures Total(w, Folded(s)[j]) == sum
  {
    if j < |s| / 2 - 1 {
      FoldedIsEven(w, s[1..|s| - 1], sum, j);
    } else {
      assert w(s[0]) + w(s[|s| - 1]) == sum;
      assert [s[0], s[|s| - 1]] == [] + [s[0]] + [s[|s| - 1]];
      TotalSnoc(w, [] + [s[0]], s[|s| - 1]);
      TotalSnoc(w, [], s[0]);
    }
  }

  /** The first `n` items in pairs, the others together. */
  lemma FoldedWithRest<T>(s: seq<T>, n: nat)
    requires n <= |s| && n % 2 == 0
    ensures multiset(Flatten(Folded(s[..n]) + [s[n..]])) == multiset(s)
  {
    FoldedKeepsItems(s[..n]);
    FlattenSnoc(Folded(s[..n]), s[n..]);
    assert s == s[..n] + s[n..];
  }

  /** Splitting the last bucket in two. */
  lemma RestInTwo<T>(bs: seq<seq<T>>, s: seq<T>, n: nat)
    requires n <= |s|
    ensures Flatten(bs + [s[..n], s[n..]]) == Flatten(bs + [s])
  {
    FlattenSnoc(bs, s);
    FlattenSnoc(bs, s[..n]);
    FlattenSnoc(bs + [s[..n]], s[n..]);
    assert bs + [s[..n], s[n..]] == bs + [s[..n]] + [s[n..]];
    assert s == s[..n] + s[n..];
  }

  /** The first `n` items in pairs, then `k` items and the others. */
  function FoldedTwo<T>(s: seq<T>, n: nat, k: nat): (bs: seq<seq<T>>)
    requires n + k <= |s| && n % 2 == 0
    ensures |bs| == n / 2 + 2
  {
    Folded(s[..n]) + [s[n..][..k], s[n..][k..]]
  }

  lemma FoldedTwoKeepsItems<T>(s: seq<T>, n: nat, k: nat)
    requires n + k <= |s| && n % 2 == 0
    ensures multiset(Flatten(FoldedTwo(s, n, k))) == multiset(s)
  {
    FoldedWithRest(s, n);
    RestInTwo(Folded(s[..n]), s[n..], k);
  }

  lemma ThreeWeigh<T>(w: T -> real, s: seq<T>, each: real)
    requires |s| == 3 && w(s[0]) == w(s[1]) == w(s[2]) == each
    ensures Total(w, s) == 3.0 * each
  {
    assert s == [] + [s[0]] + [s[1]] + [s[2]];
    TotalSnoc(w, [] + [s[0]] + [s[1]], s[2]);
    TotalSnoc(w, [] + [s[0]], s[1]);
    TotalSnoc(w, [], s[0]);
  }
}
