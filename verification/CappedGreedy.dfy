/** Balance of the placement when a cap keeps historical items apart, as every partition of
    the budget search does: the least loaded bucket may then be closed to an item, so the
    bounds of the uncapped placement no longer hold. */
module CappedPlacement {
  import opened Wrappers
  import opened Totals
  import opened Greedy
  import opened LongestFirst

  lemma {:induction false} TimesMore(c: real, a: nat, b: nat)
    requires c >= 0.0 && a <= b
    ensures Times(c, a) <= Times(c, b)
  {
    if a < b { TimesMore(c, a, b - 1); }
  }

  ghost predicate SpreadBelow<T>(p: Policy<T>, bs: seq<seq<T>>, top: real) {
    forall i, j | 0 <= i < |bs| && 0 <= j < |bs| ::
      Load(p, bs[i]) - Load(p, bs[j]) <= Times(top, Count(p.historical, bs[i]) + 1)
  }

  /** No load exceeds another by more than the heaviest item, plus the heaviest item once
      more for each historical item it holds. */
  lemma {:induction false} CappedSpread<T>(p: Policy<T>, m: nat, order: seq<T>, top: real)
    requires Place(p, m, order).Some?
    requires top >= 0.0 && forall x | x in order :: 0.0 <= p.weight(x) <= top
    ensures SpreadBelow(p, Place(p, m, order).value, top)
  {
    if order == [] {
      assert Times(top, 1) == Times(top, 0) + top;
    } else {
      var n := |order| - 1;
      CappedSpread(p, m, order[..n], top);
      var bs := Place(p, m, order[..n]).value;
      SpreadKept(p, bs, Choose(p, bs, order[n], m).value, order[n], top);
    }
  }

  lemma SpreadKept<T>(p: Policy<T>, bs: seq<seq<T>>, c: nat, x: T, top: real)
    requires 0.0 <= p.weight(x) <= top && Best(p, bs, x, |bs|, c) && SpreadBelow(p, bs, top)
    ensures SpreadBelow(p, bs[c := bs[c] + [x]], top)
  {
    var us := bs[c := bs[c] + [x]];
    TotalSnoc(p.weight, bs[c], x);
    CountSnoc(p.historical, bs[c], x);
    forall i, j | 0 <= i < |us| && 0 <= j < |us|
      ensures Load(p, us[i]) - Load(p, us[j]) <= Times(top, Count(p.historical, us[i]) + 1)
    {
      var count := Count(p.historical, us[i]);
      assert Load(p, us[j]) >= Load(p, bs[j]);
      if i == c && !p.historical(x) {
        assert Eligible(p, bs[j], x);
        TimesMore(top, 0, count);
      } else if i == c {
        assert Times(top, count + 1) == Times(top, count) + top;
      }
    }
  }

  /** Either `2·g <= 3·t`, or `3·m·g <= (5·m-2)·t` with the products spelled as repeated sums. */
  ghost predicate CapWithin(m: nat, g: real, t: real) {
    2.0 * g <= 3.0 * t || 3.0 * Times(g, m) <= 5.0 * Times(t, m) - 2.0 * t
  }

  /** The load `g` is within max(3/2, 5/3 - 2/(3m)) of `t`. */
  ghost predicate WithinFiveThirds(m: nat, g: real, t: real) {
    2.0 * g <= 3.0 * t || 3.0 * (g * m as real) <= 5.0 * (t * m as real) - 2.0 * t
  }

  lemma CapWithinIsProduct(m: nat, g: real, t: real)
    ensures CapWithin(m, g, t) <==> WithinFiveThirds(m, g, t)
  {
    TimesIsProduct(g, m);
    TimesIsProduct(t, m);
  }

  /** Whatever the number of buckets, 5/3 of `t`. */
  lemma CapWithinThird(m: nat, g: real, t: real)
    requires m >= 1 && 0.0 <= t && CapWithin(m, g, t)
    ensures 3.0 * g <= 5.0 * t
  {
    if 3.0 * g > 5.0 * t {
      TimesOrder(5.0 / 3.0 * t, g, m - 1);
      TimesRatio(t, m - 1);
    }
  }

  lemma {:induction false} TimesRatio(t: real, m: nat)
    ensures 3.0 * Times(5.0 / 3.0 * t, m) == 5.0 * Times(t, m)
  {
    if m > 0 { TimesRatio(t, m - 1); }
  }

  /** A load that may still receive a historical item: within `t`, or an item of at most a
      third of `t` above the mean of the items placed so far. */
  ghost predicate Roomy<T>(w: T -> real, m: nat, placed: seq<T>, load: real, t: real)
    requires m >= 1
  {
    || load <= t
    || (placed != [] && 3.0 * w(placed[|placed| - 1]) <= t && 3.0 * Times(load, m) <= 3.0 * Total(w, placed) + Times(t, m - 1))
  }

  ghost predicate Balanced<T>(p: Policy<T>, m: nat, placed: seq<T>, bs: seq<seq<T>>, t: real)
    requires m >= 1
  {
    forall i | 0 <= i < |bs| ::
      && CapWithin(m, Load(p, bs[i]), t)
      && (Count(p.historical, bs[i]) == 0 ==> Roomy(p.weight, m, placed, Load(p, bs[i]), t))
  }

  /** The hypotheses of one placement: item `k` of `full` meets the buckets `bs`. */
  ghost predicate Placing<T(!new)>(p: Policy<T>, m: nat, full: seq<T>, k: nat, bs: seq<seq<T>>, other: seq<seq<T>>, t: real) {
    && m >= 1 && k < |full| && 0.0 <= t && p.limit == Some(1)
    && Descending(p.weight, full) && Positive(p, full) && Assignment(p.weight, full, m, other, t)
    && |bs| == m && multiset(Flatten(bs)) == multiset(full[..k])
  }

  lemma PlacedIsBelow<T(!new)>(p: Policy<T>, m: nat, full: seq<T>, k: nat, bs: seq<seq<T>>, other: seq<seq<T>>, t: real)
    requires Placing(p, m, full, k, bs, other, t)
    ensures Total(p.weight, full[..k + 1]) == Total(p.weight, full[..k]) + p.weight(full[k]) <= Times(t, m)
  {
    FlattenAtMost(p.weight, other, t);
    TotalIgnoresOrder(p.weight, Flatten(other), full);
    PrefixTotal(p.weight, full, k);
    assert full[..k + 1] == full[..k] + [full[k]];
    TotalSnoc(p.weight, full[..k], full[k]);
  }

  /** A load waits unchanged: what is known of it survives the next, lighter item. */
  lemma StaysRoomy<T(!new)>(p: Policy<T>, m: nat, full: seq<T>, k: nat, bs: seq<seq<T>>, other: seq<seq<T>>, t: real, load: real)
    requires Placing(p, m, full, k, bs, other, t) && Roomy(p.weight, m, full[..k], load, t)
    ensures Roomy(p.weight, m, full[..k + 1], load, t)
  {
    PlacedIsBelow(p, m, full, k, bs, other, t);
    assert full[..k + 1][k] == full[k];
    if load > t {
      assert full[..k][k - 1] == full[k - 1];
    }
  }

  /** A roomy load is within the bound. */
  lemma RoomyIsWithin(m: nat, load: real, total: real, t: real)
    requires m >= 1 && 0.0 <= t && total <= Times(t, m)
    requires load <= t || 3.0 * Times(load, m) <= 3.0 * total + Times(t, m - 1)
    ensures CapWithin(m, load, t)
  {
    TimesOrder(0.0, t, m - 1);
    TimesZero(m - 1);
  }

  /** An item that may go anywhere lands on the least load, which stays roomy. */
  lemma RegularItem<T(!new)>(p: Policy<T>, m: nat, full: seq<T>, k: nat, bs: seq<seq<T>>, other: seq<seq<T>>, t: real, low: real)
    requires Placing(p, m, full, k, bs, other, t)
    requires forall i | 0 <= i < m :: Load(p, bs[i]) >= low
    ensures Roomy(p.weight, m, full[..k + 1], low + p.weight(full[k]), t)
    ensures CapWithin(m, low + p.weight(full[k]), t)
  {
    var x := p.weight(full[k]);
    PlacedIsBelow(p, m, full, k, bs, other, t);
    if 3.0 * x > t {
      RoomForLargeItem(p, m, full, k, bs, other, t, low);
    } else {
      FlattenAtLeast(p.weight, bs, low);
      TotalIgnoresOrder(p.weight, Flatten(bs), full[..k]);
      TimesAdd(low, x, m);
      TimesOrder(3.0 * x, t, m - 1);
      TimesScale(x, m - 1);
    }
    RoomyIsWithin(m, low + x, Total(p.weight, full[..k + 1]), t);
  }

  lemma {:induction false} LoadAtLeastItem<T>(p: Policy<T>, bucket: seq<T>, low: real)
    requires bucket != [] && 0.0 <= low && forall x | x in bucket :: p.weight(x) >= low
    ensures Load(p, bucket) >= low
  {
    TotalNonNegative(p.weight, bucket[..|bucket| - 1]);
  }

  /** An item that opens no bucket weighs at most half of `t`: every bucket already holds an
      item at least as heavy. One that does weighs at most `t`. */
  lemma LaterItemIsSmall<T(!new)>(p: Policy<T>, m: nat, full: seq<T>, k: nat, bs: seq<seq<T>>, other: seq<seq<T>>, t: real)
    requires Placing(p, m, full, k, bs, other, t)
    ensures p.weight(full[k]) <= t
    ensures (forall i | 0 <= i < m :: bs[i] != []) ==> 2.0 * p.weight(full[k]) <= t
  {
    var h := p.weight(full[k]);
    assert h > 0.0;
    if 3.0 * h > t {
      forall i | 0 <= i < m ensures Load(p, bs[i]) >= 0.0 && (bs[i] != [] ==> Load(p, bs[i]) >= h) {
        BucketOf(full[..k], bs, i);
        forall x | x in bs[i] ensures p.weight(x) >= h {
          var j :| 0 <= j < k && full[..k][j] == x;
          assert full[j] == x;
        }
        TotalNonNegative(p.weight, bs[i]);
        if bs[i] != [] { LoadAtLeastItem(p, bs[i], h); }
      }
      RoomForLargeItem(p, m, full, k, bs, other, t, 0.0);
      if forall i | 0 <= i < m :: bs[i] != [] {
        RoomForLargeItem(p, m, full, k, bs, other, t, h);
      }
    }
  }

  /** A historical item on a roomy load keeps the bound. */
  lemma HistoricalItem<T(!new)>(p: Policy<T>, m: nat, full: seq<T>, k: nat, bs: seq<seq<T>>, other: seq<seq<T>>, t: real, load: real)
    requires Placing(p, m, full, k, bs, other, t) && Roomy(p.weight, m, full[..k], load, t)
    requires load == 0.0 || forall i | 0 <= i < m :: bs[i] != []
    ensures CapWithin(m, load + p.weight(full[k]), t)
  {
    var h := p.weight(full[k]);
    LaterItemIsSmall(p, m, full, k, bs, other, t);
    if load > t {
      PlacedIsBelow(p, m, full, k, bs, other, t);
      assert full[..k][k - 1] == full[k - 1];
      TimesAdd(load, h, m);
      TimesOrder(3.0 * h, t, m - 1);
      TimesScale(h, m - 1);
    }
  }

  /** The bucket of least load among the open ones, if not empty, leaves none empty. */
  lemma ChosenEmptyFirst<T>(p: Policy<T>, bs: seq<seq<T>>, x: T, c: nat)
    requires p.limit == Some(1) && Best(p, bs, x, |bs|, c)
    requires forall i | 0 <= i < |bs| :: Positive(p, bs[i])
    ensures Load(p, bs[c]) == 0.0 || forall i | 0 <= i < |bs| :: bs[i] != []
  {
    LoadPositive(p, bs[c]);
    if i :| 0 <= i < |bs| && bs[i] == [] {
      assert Eligible(p, bs[i], x);
      assert Load(p, bs[i]) == 0.0;
    }
  }

  /** One placement under the cap keeps every load within the bound. */
  lemma PlacementBalanced<T(!new)>(p: Policy<T>, m: nat, full: seq<T>, k: nat, bs: seq<seq<T>>, c: nat, other: seq<seq<T>>, t: real)
    requires Placing(p, m, full, k, bs, other, t)
    requires Balanced(p, m, full[..k], bs, t) && Best(p, bs, full[k], m, c)
    ensures Balanced(p, m, full[..k + 1], bs[c := bs[c] + [full[k]]], t)
  {
    var us := bs[c := bs[c] + [full[k]]];
    TotalSnoc(p.weight, bs[c], full[k]);
    assert us[c][..|bs[c]|] == bs[c];
    if p.historical(full[k]) {
      forall i | 0 <= i < m ensures Positive(p, bs[i]) {
        BucketOf(full[..k], bs, i);
      }
      ChosenEmptyFirst(p, bs, full[k], c);
      HistoricalItem(p, m, full, k, bs, other, t, Load(p, bs[c]));
    } else {
      forall j | 0 <= j < m ensures Load(p, bs[j]) >= Load(p, bs[c]) {
        assert Eligible(p, bs[j], full[k]);
      }
      RegularItem(p, m, full, k, bs, other, t, Load(p, bs[c]));
    }
    forall i | 0 <= i < m && i != c && Count(p.historical, bs[i]) == 0
      ensures Roomy(p.weight, m, full[..k + 1], Load(p, bs[i]), t)
    {
      StaysRoomy(p, m, full, k, bs, other, t, Load(p, bs[i]));
    }
  }

  /** Longest-first placement with at most one historical item per bucket is within
      max(3/2, 5/3 - 2/(3m)) of every assignment of the same items to as many buckets, whether
      or not that assignment keeps historical items apart. */
  lemma {:induction false} CappedPrefix<T(!new)>(p: Policy<T>, m: nat, full: seq<T>, n: nat, other: seq<seq<T>>, t: real)
    requires m >= 1 && p.limit == Some(1) && n <= |full|
    requires Descending(p.weight, full) && Positive(p, full)
    requires Assignment(p.weight, full, m, other, t)
    requires Place(p, m, full[..n]).Some?
    ensures Balanced(p, m, full[..n], Place(p, m, full[..n]).value, t)
  {
    AssignmentNonNegative(p, m, full, other, t);
    if n > 0 {
      var k := n - 1;
      assert full[..n][..k] == full[..k];
      CappedPrefix(p, m, full, k, other, t);
      var bs := Place(p, m, full[..k]).value;
      PlaceKeepsItems(p, m, full[..k]);
      PlacementBalanced(p, m, full, k, bs, Choose(p, bs, full[k], m).value, other, t);
    }
  }
}
