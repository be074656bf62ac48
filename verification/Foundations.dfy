/** Small shared vocabulary: optional values, outcomes of fallible commands, Python's
    ordering of text, Python's `sorted`, and totals of a quantity over buckets of items. */
module Wrappers {
  datatype Option<+T> = None | Some(value: T)

  /** A command either yields a value or is refused; a refusal has no effect. */
  datatype Result<+T, +E> = Ok(value: T) | Err(error: E)
}

/** Python compares strings by code point, left to right, a proper prefix first. */
module TextOrder {
  predicate TextLeq(a: string, b: string) {
    a == [] || (b != [] && (a[0] < b[0] || (a[0] == b[0] && TextLeq(a[1..], b[1..]))))
  }

  lemma TextTotal(a: string, b: string)
    ensures TextLeq(a, b) || TextLeq(b, a)
  {
    if a != [] && b != [] && a[0] == b[0] {
      TextTotal(a[1..], b[1..]);
    }
  }

  lemma TextAntisymmetric(a: string, b: string)
    requires TextLeq(a, b) && TextLeq(b, a)
    ensures a == b
  {
    if a != [] && b != [] {
      TextAntisymmetric(a[1..], b[1..]);
      assert a == [a[0]] + a[1..] && b == [b[0]] + b[1..];
    }
  }

  lemma TextTransitive(a: string, b: string, c: string)
    requires TextLeq(a, b) && TextLeq(b, c)
    ensures TextLeq(a, c)
  {
    if a != [] && a[0] == b[0] && b[0] == c[0] {
      TextTransitive(a[1..], b[1..], c[1..]);
    }
  }

  /** Two texts agree before position `k`, where the first ends or has the smaller character. */
  ghost predicate LessAt(a: string, b: string, k: nat) {
    k <= |a| && k <= |b| && a[..k] == b[..k] && (k == |a| || (k < |b| && a[k] < b[k]))
  }

  /** The order is by code point at the first difference. */
  lemma {:induction false} TextLeqMeans(a: string, b: string)
    ensures TextLeq(a, b) <==> exists k: nat :: LessAt(a, b, k)
  {
    if a == [] {
      assert LessAt(a, b, 0);
    } else if b != [] && a[0] == b[0] {
      TextLeqMeans(a[1..], b[1..]);
      if k: nat :| LessAt(a[1..], b[1..], k) {
        assert a[..k + 1] == [a[0]] + a[1..][..k] && b[..k + 1] == [b[0]] + b[1..][..k];
        assert LessAt(a, b, k + 1);
      }
      if k: nat :| LessAt(a, b, k) {
        LessInTail(a, b, k);
      }
    } else if b != [] && a[0] < b[0] {
      assert LessAt(a, b, 0);
    } else if b != [] {
      forall k: nat | 0 < k <= |a| && k <= |b| ensures a[..k] != b[..k] {
        assert a[..k][0] != b[..k][0];
      }
    }
  }

  lemma LessInTail(a: string, b: string, k: nat)
    requires a != [] && b != [] && a[0] == b[0] && LessAt(a, b, k)
    ensures exists j: nat :: LessAt(a[1..], b[1..], j)
  {
    assert k > 0;
    assert a[1..][..k - 1] == a[..k][1..] && b[1..][..k - 1] == b[..k][1..];
    assert LessAt(a[1..], b[1..], k - 1);
  }

  /** Names in increasing order, for inputs of any size: "", "a", "aa", ... */
  function Letters(n: nat): (s: string)
    ensures |s| == n
  {
    if n == 0 then "" else "a" + Letters(n - 1)
  }

  lemma {:induction false} LettersOrdered(i: nat, j: nat)
    requires i <= j
    ensures TextLeq(Letters(i), Letters(j))
  {
    if i > 0 { LettersOrdered(i - 1, j - 1); }
  }
}

/** Python's `sorted(items, key=...)`, given the comparison its key induces. */
module Sorting {
  predicate Sorted<T>(le: (T, T) -> bool, s: seq<T>) {
    forall i, j | 0 <= i < j < |s| :: le(s[i], s[j])
  }

  ghost predicate Preorder<T(!new)>(le: (T, T) -> bool) {
    && (forall x, y :: le(x, y) || le(y, x))
    && (forall x, y, z :: le(x, y) && le(y, z) ==> le(x, z))
  }

  /** No two different elements of `s` are tied. */
  ghost predicate NoTies<T>(le: (T, T) -> bool, s: seq<T>) {
    forall x, y | x in s && y in s && le(x, y) && le(y, x) :: x == y
  }

  predicate Distinct<T(==)>(s: seq<T>) {
    forall i, j | 0 <= i < j < |s| :: s[i] != s[j]
  }

  function Insert<T>(le: (T, T) -> bool, x: T, s: seq<T>): seq<T> {
    if s == [] || le(x, s[0]) then [x] + s else [s[0]] + Insert(le, x, s[1..])
  }

  function Sort<T>(le: (T, T) -> bool, s: seq<T>): seq<T> {
    if s == [] then [] else Insert(le, s[0], Sort(le, s[1..]))
  }

  lemma {:induction false} InsertKeeps<T>(le: (T, T) -> bool, x: T, s: seq<T>)
    ensures multiset(Insert(le, x, s)) == multiset(s) + multiset{x}
  {
    if s != [] && !le(x, s[0]) {
      InsertKeeps(le, x, s[1..]);
      assert s == [s[0]] + s[1..];
    }
  }

  lemma {:induction false} InsertSorts<T(!new)>(le: (T, T) -> bool, x: T, s: seq<T>)
    requires Preorder(le) && Sorted(le, s)
    ensures Sorted(le, Insert(le, x, s))
  {
    if s == [] || le(x, s[0]) {
      forall j | 0 <= j < |s| ensures le(x, s[j]) {
        assert j == 0 || le(s[0], s[j]);
      }
    } else {
      InsertSorts(le, x, s[1..]);
      InsertKeeps(le, x, s[1..]);
      var rest := Insert(le, x, s[1..]);
      forall j | 0 <= j < |rest| ensures le(s[0], rest[j]) {
        assert rest[j] in multiset(rest);
        assert rest[j] == x || rest[j] in s[1..];
      }
    }
  }

  /** What Python documents of `sorted`: an ordered permutation. */
  lemma {:induction false} SortSorts<T(!new)>(le: (T, T) -> bool, s: seq<T>)
    requires Preorder(le)
    ensures Sorted(le, Sort(le, s))
    ensures multiset(Sort(le, s)) == multiset(s)
  {
    if s != [] {
      SortSorts(le, s[1..]);
      InsertSorts(le, s[0], Sort(le, s[1..]));
      InsertKeeps(le, s[0], Sort(le, s[1..]));
      assert s == [s[0]] + s[1..];
    }
  }

  /** Without ties the ordered permutation is unique. */
  lemma {:induction false} SortedUnique<T>(le: (T, T) -> bool, s: seq<T>, t: seq<T>)
    requires Sorted(le, s) && Sorted(le, t) && multiset(s) == multiset(t)
    requires NoTies(le, s)
    ensures s == t
  {
    if s == [] {
      assert t == [] by { assert |multiset(t)| == 0; }
    } else {
      assert t != [] by { assert s[0] in multiset(t); }
      assert s[0] == t[0] by {
        assert s[0] in multiset(t) && t[0] in multiset(s);
        var i :| 0 <= i < |s| && s[i] == t[0];
        var j :| 0 <= j < |t| && t[j] == s[0];
        if i != 0 && j != 0 {
          assert le(s[0], s[i]) && le(t[0], t[j]);
        }
      }
      TailMultiset(s);
      TailMultiset(t);
      SortedUnique(le, s[1..], t[1..]);
      assert s == [s[0]] + s[1..] && t == [t[0]] + t[1..];
    }
  }

  lemma TailMultiset<T>(s: seq<T>)
    requires s != []
    ensures multiset(s[1..]) == multiset(s) - multiset{s[0]}
  {
    assert s == [s[0]] + s[1..];
  }

  /** The sorted sequence depends only on which elements there are. */
  lemma SortIgnoresOrder<T(!new)>(le: (T, T) -> bool, s: seq<T>, t: seq<T>)
    requires Preorder(le) && NoTies(le, s) && multiset(s) == multiset(t)
    ensures Sort(le, s) == Sort(le, t)
  {
    SortSorts(le, s);
    SortSorts(le, t);
    forall x | x in Sort(le, s) ensures x in s {
      assert x in multiset(Sort(le, s));
    }
    SortedUnique(le, Sort(le, s), Sort(le, t));
  }
}

/** Totals of a quantity over a bucket and over a row of buckets. */
module Totals {
  function Total<T>(f: T -> real, s: seq<T>): real {
    if s == [] then 0.0 else Total(f, s[..|s| - 1]) + f(s[|s| - 1])
  }

  function Flatten<T>(bs: seq<seq<T>>): seq<T> {
    if bs == [] then [] else Flatten(bs[..|bs| - 1]) + bs[|bs| - 1]
  }

  lemma PrefixSnoc<T>(s: seq<T>, k: nat)
    requires k < |s|
    ensures s[..k + 1] == s[..k] + [s[k]]
    ensures multiset(s[..k + 1]) == multiset(s[..k]) + multiset{s[k]}
  {
    assert s[..k + 1] == s[..k] + [s[k]];
  }

  lemma TotalSnoc<T>(f: T -> real, s: seq<T>, x: T)
    ensures Total(f, s + [x]) == Total(f, s) + f(x)
  {
    assert (s + [x])[..|s|] == s;
  }

  lemma {:induction false} TotalConcat<T>(f: T -> real, s: seq<T>, t: seq<T>)
    ensures Total(f, s + t) == Total(f, s) + Total(f, t)
  {
    if t == [] {
      assert s + t == s;
    } else {
      assert (s + t)[..|s + t| - 1] == s + t[..|t| - 1];
      TotalConcat(f, s, t[..|t| - 1]);
    }
  }

  lemma RemoveOne<T>(t: seq<T>, k: nat)
    requires k < |t|
    ensures multiset(t[..k] + t[k + 1..]) == multiset(t) - multiset{t[k]}
    ensures multiset(t) == multiset(t[..k] + t[k + 1..]) + multiset{t[k]}
  {
    assert t == t[..k] + [t[k]] + t[k + 1..];
  }

  lemma TotalRemove<T>(f: T -> real, t: seq<T>, k: nat)
    requires k < |t|
    ensures Total(f, t) == Total(f, t[..k] + t[k + 1..]) + f(t[k])
  {
    TotalConcat(f, t[..k], t[k + 1..]);
    TotalConcat(f, t[..k + 1], t[k + 1..]);
    assert t[..k + 1] + t[k + 1..] == t;
    assert t[..k + 1][..k] == t[..k];
  }

  /** A total does not depend on the order of summation. */
  lemma {:induction false} TotalIgnoresOrder<T>(f: T -> real, s: seq<T>, t: seq<T>)
    requires multiset(s) == multiset(t)
    ensures Total(f, s) == Total(f, t)
  {
    if s == [] {
      assert t == [] by { assert |multiset(t)| == 0; }
    } else {
      var n := |s| - 1;
      assert s[n] in multiset(t);
      var k :| 0 <= k < |t| && t[k] == s[n];
      assert s[..n] + s[n + 1..] == s[..n];
      RemoveOne(s, n);
      RemoveOne(t, k);
      TotalRemove(f, s, n);
      TotalRemove(f, t, k);
      TotalIgnoresOrder(f, s[..n], t[..k] + t[k + 1..]);
    }
  }

  lemma {:induction false} TotalNonNegative<T>(f: T -> real, s: seq<T>)
    requires forall x | x in s :: f(x) >= 0.0
    ensures Total(f, s) >= 0.0
  {
    if s != [] {
      TotalNonNegative(f, s[..|s| - 1]);
    }
  }

  lemma {:induction false} FlattenUpdate<T>(bs: seq<seq<T>>, i: nat, x: T)
    requires i < |bs|
    ensures multiset(Flatten(bs[i := bs[i] + [x]])) == multiset(Flatten(bs)) + multiset{x}
  {
    var n := |bs| - 1;
    var us := bs[i := bs[i] + [x]];
    assert Flatten(bs) == Flatten(bs[..n]) + bs[n] && Flatten(us) == Flatten(us[..n]) + us[n];
    if i < n {
      assert us[..n] == bs[..n][i := bs[..n][i] + [x]];
      FlattenUpdate(bs[..n], i, x);
    } else {
      assert us[..n] == bs[..n];
      assert multiset(bs[n] + [x]) == multiset(bs[n]) + multiset{x};
    }
  }

  lemma {:induction false} FlattenContains<T>(bs: seq<seq<T>>, i: nat, x: T)
    requires i < |bs| && x in bs[i]
    ensures x in Flatten(bs)
  {
    if i < |bs| - 1 {
      FlattenContains(bs[..|bs| - 1], i, x);
    }
  }

  lemma {:induction false} FlattenEmpties<T>(bs: seq<seq<T>>)
    requires forall i | 0 <= i < |bs| :: bs[i] == []
    ensures Flatten(bs) == []
  {
    if bs != [] {
      FlattenEmpties(bs[..|bs| - 1]);
    }
  }

  /** `n` copies of `c`, added up. */
  function Times(c: real, n: nat): real {
    if n == 0 then 0.0 else Times(c, n - 1) + c
  }

  lemma Distribute(c: real, k: real)
    ensures c * (k + 1.0) == c * k + c
  {
  }

  lemma {:induction false} TimesIsProduct(c: real, n: nat)
    ensures Times(c, n) == c * n as real
  {
    if n > 0 {
      TimesIsProduct(c, n - 1);
      assert n as real == (n - 1) as real + 1.0;
      Distribute(c, (n - 1) as real);
    }
  }

  /** A row of buckets each holding at most `c` holds at most `c` per bucket in all. */
  lemma {:induction false} FlattenAtMost<T>(f: T -> real, bs: seq<seq<T>>, c: real)
    requires forall i | 0 <= i < |bs| :: Total(f, bs[i]) <= c
    ensures Total(f, Flatten(bs)) <= Times(c, |bs|)
  {
    if bs != [] {
      var n := |bs| - 1;
      FlattenAtMost(f, bs[..n], c);
      TotalConcat(f, Flatten(bs[..n]), bs[n]);
    }
  }

  lemma {:induction false} FlattenAtLeast<T>(f: T -> real, bs: seq<seq<T>>, c: real)
    requires forall i | 0 <= i < |bs| :: Total(f, bs[i]) >= c
    ensures Total(f, Flatten(bs)) >= Times(c, |bs|)
  {
    if bs != [] {
      var n := |bs| - 1;
      FlattenAtLeast(f, bs[..n], c);
      TotalConcat(f, Flatten(bs[..n]), bs[n]);
    }
  }
}
