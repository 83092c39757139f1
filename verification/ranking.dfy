/**
 A stable sort by a real-valued key, and the "first k" cut, which together make
 up a "sorted(comparingDouble(key)).limit(k)" stream pipeline. Stability is
 stated through key classes: for every key value, the elements carrying that key
 appear in the output in the same order as in the input.
 */
module Ranking {

  ghost predicate SortedBy<T>(s: seq<T>, key: T -> real) {
    forall i, j :: 0 <= i < j < |s| ==> key(s[i]) <= key(s[j])
  }

  /** The subsequence of the elements of `s` whose key is `k`, in their order in `s`. */
  function KeyClass<T>(s: seq<T>, key: T -> real, k: real): seq<T>
  {
    if |s| == 0 then []
    else Match(s[0], key, k) + KeyClass(s[1..], key, k)
  }

  /** `[x]` when `x`'s key is `k`, empty otherwise. */
  function Match<T>(x: T, key: T -> real, k: real): seq<T> {
    if key(x) == k then [x] else []
  }

  predicate Distinct<T(==)>(s: seq<T>) {
    forall i, j :: 0 <= i < j < |s| ==> s[i] != s[j]
  }

  /** Inserts `x` into `s` in front of the first element whose key is not below `x`'s,
      so `x` lands before every element with an equal key. */
  function Insert<T>(x: T, s: seq<T>, key: T -> real): (r: seq<T>)
    ensures |r| == |s| + 1
    ensures multiset(r) == multiset(s) + multiset{x}
  {
    if |s| == 0 then
      [x]
    else if key(x) <= key(s[0]) then
      [x] + s
    else
      assert s == [s[0]] + s[1..];
      [s[0]] + Insert(x, s[1..], key)
  }

  /** Every element of an insertion result is the inserted one or comes from `s`. */
  lemma InsertFrom<T>(x: T, s: seq<T>, key: T -> real, j: nat)
    requires j < |s| + 1
    ensures var y := Insert(x, s, key)[j]; y == x || y in s
  {
    var r := Insert(x, s, key);
    assert r[j] in multiset(r);
  }

  lemma {:induction false} InsertSorted<T>(x: T, s: seq<T>, key: T -> real)
    requires SortedBy(s, key)
    ensures SortedBy(Insert(x, s, key), key)
  {
    if |s| > 0 && key(x) > key(s[0]) {
      var tail := Insert(x, s[1..], key);
      InsertSorted(x, s[1..], key);
      var r := [s[0]] + tail;
      forall j | 0 < j < |r|
        ensures key(s[0]) <= key(r[j])
      {
        InsertFrom(x, s[1..], key, j - 1);
      }
      assert r == Insert(x, s, key);
    }
  }

  lemma {:induction false} InsertKeyClass<T>(x: T, s: seq<T>, key: T -> real, k: real)
    ensures KeyClass(Insert(x, s, key), key, k) == Match(x, key, k) + KeyClass(s, key, k)
  {
    if |s| == 0 {
      assert KeyClass([x], key, k) == Match(x, key, k) + KeyClass([x][1..], key, k);
    } else if key(x) <= key(s[0]) {
      assert ([x] + s)[1..] == s;
    } else {
      InsertKeyClass(x, s[1..], key, k);
      PassOverKeyClass(x, s, Insert(x, s[1..], key), key, k);
    }
  }

  lemma KeyClassCons<T>(x: T, t: seq<T>, key: T -> real, k: real)
    ensures KeyClass([x] + t, key, k) == Match(x, key, k) + KeyClass(t, key, k)
  {
    assert ([x] + t)[1..] == t;
  }

  /** One step of `InsertKeyClass`: `x` passes over the smaller-keyed head of `s`. */
  lemma PassOverKeyClass<T>(x: T, s: seq<T>, tail: seq<T>, key: T -> real, k: real)
    requires |s| > 0 && key(x) > key(s[0])
    requires KeyClass(tail, key, k) == Match(x, key, k) + KeyClass(s[1..], key, k)
    ensures KeyClass([s[0]] + tail, key, k) == Match(x, key, k) + KeyClass(s, key, k)
  {
    var rest := KeyClass(s[1..], key, k);
    KeyClassCons(s[0], tail, key, k);
    assert s == [s[0]] + s[1..];
    KeyClassCons(s[0], s[1..], key, k);
    if key(s[0]) == k {
      assert Match(x, key, k) == [];
      assert KeyClass(tail, key, k) == rest;
    } else {
      assert Match(s[0], key, k) == [];
      assert KeyClass(s, key, k) == rest;
    }
  }

  /** Stable insertion sort by `key`. */
  function SortBy<T>(s: seq<T>, key: T -> real): (r: seq<T>)
    ensures |r| == |s|
    ensures multiset(r) == multiset(s)
    ensures SortedBy(r, key)
    ensures forall k :: KeyClass(r, key, k) == KeyClass(s, key, k)
  {
    if |s| == 0 then []
    else
      var rest := SortBy(s[1..], key);
      SortByStep(s, rest, key);
      Insert(s[0], rest, key)
  }

  /** The step of `SortBy`: inserting the head into the sorted tail. */
  lemma SortByStep<T>(s: seq<T>, rest: seq<T>, key: T -> real)
    requires |s| > 0
    requires multiset(rest) == multiset(s[1..])
    requires SortedBy(rest, key)
    requires forall k :: KeyClass(rest, key, k) == KeyClass(s[1..], key, k)
    ensures var r := Insert(s[0], rest, key);
      && multiset(r) == multiset(s)
      && SortedBy(r, key)
      && forall k :: KeyClass(r, key, k) == KeyClass(s, key, k)
  {
    assert s == [s[0]] + s[1..];
    InsertSorted(s[0], rest, key);
    forall k
      ensures KeyClass(Insert(s[0], rest, key), key, k) == KeyClass(s, key, k)
    {
      InsertKeyClass(s[0], rest, key, k);
      KeyClassCons(s[0], s[1..], key, k);
    }
  }

  /** The `m` smallest elements of `s` by `key` (all of `s` when it is shorter), in stable order. */
  function Smallest<T>(s: seq<T>, key: T -> real, m: nat): (r: seq<T>)
    ensures |r| == if |s| < m then |s| else m
    ensures multiset(r) <= multiset(s)
    ensures SortedBy(r, key)
    ensures forall x, i :: x in multiset(s) - multiset(r) && 0 <= i < |r| ==> key(r[i]) <= key(x)
    ensures forall k :: KeyClass(r, key, k) <= KeyClass(s, key, k)
    ensures Distinct(s) ==> Distinct(r)
  {
    var n := if |s| < m then |s| else m;
    var r := SortBy(s, key)[..n];
    SmallestProperties(s, key, n);
    r
  }

  lemma SmallestProperties<T>(s: seq<T>, key: T -> real, n: nat)
    requires n <= |s|
    ensures var r := SortBy(s, key)[..n];
      && multiset(r) <= multiset(s)
      && SortedBy(r, key)
      && (forall x, i :: x in multiset(s) - multiset(r) && 0 <= i < |r| ==> key(r[i]) <= key(x))
      && (forall k :: KeyClass(r, key, k) <= KeyClass(s, key, k))
      && (Distinct(s) ==> Distinct(r))
  {
    var sorted := SortBy(s, key);
    var r := sorted[..n];
    SmallestSplit(sorted, n, key);
    PrefixSorted(sorted, n, key);
    StableCut(s, sorted, n, key);
    DistinctSmallest(s, r);
  }

  lemma PrefixSorted<T>(s: seq<T>, n: nat, key: T -> real)
    requires n <= |s|
    requires SortedBy(s, key)
    ensures SortedBy(s[..n], key)
  {
  }

  lemma StableCut<T>(s: seq<T>, sorted: seq<T>, n: nat, key: T -> real)
    requires n <= |sorted|
    requires forall k :: KeyClass(sorted, key, k) == KeyClass(s, key, k)
    ensures forall k :: KeyClass(sorted[..n], key, k) <= KeyClass(s, key, k)
  {
    forall k
      ensures KeyClass(sorted[..n], key, k) <= KeyClass(s, key, k)
    {
      KeyClassOfPrefix(sorted, n, key, k);
    }
  }

  lemma DistinctSmallest<T>(s: seq<T>, r: seq<T>)
    ensures multiset(r) <= multiset(s) && Distinct(s) ==> Distinct(r)
  {
    if multiset(r) <= multiset(s) && Distinct(s) {
      DistinctUnderMultiset(r, s);
    }
  }

  /** Cutting a sorted sequence: the cut-off part is no smaller than any kept element. */
  lemma SmallestSplit<T>(sorted: seq<T>, n: nat, key: T -> real)
    requires n <= |sorted|
    requires SortedBy(sorted, key)
    ensures multiset(sorted[..n]) <= multiset(sorted)
    ensures multiset(sorted) - multiset(sorted[..n]) == multiset(sorted[n..])
    ensures forall x, i :: x in multiset(sorted[n..]) && 0 <= i < n ==> key(sorted[..n][i]) <= key(x)
  {
    assert sorted == sorted[..n] + sorted[n..];
    forall x, i | x in multiset(sorted[n..]) && 0 <= i < n
      ensures key(sorted[..n][i]) <= key(x)
    {
      var j :| 0 <= j < |sorted[n..]| && sorted[n..][j] == x;
      assert key(sorted[i]) <= key(sorted[n + j]);
    }
  }

  /** The key class of a prefix is a prefix of the key class. */
  lemma {:induction false} KeyClassOfPrefix<T>(s: seq<T>, m: nat, key: T -> real, k: real)
    requires m <= |s|
    ensures KeyClass(s[..m], key, k) <= KeyClass(s, key, k)
  {
    if m == 0 {
    } else {
      assert s[..m][1..] == s[1..][..m - 1];
      KeyClassOfPrefix(s[1..], m - 1, key, k);
    }
  }

  /** A sequence whose multiset is bounded by that of a duplicate-free sequence has no duplicates. */
  lemma {:induction false} DistinctUnderMultiset<T>(s: seq<T>, t: seq<T>)
    requires multiset(s) <= multiset(t)
    requires Distinct(t)
    ensures Distinct(s)
  {
    forall i, j | 0 <= i < j < |s|
      ensures s[i] != s[j]
    {
      if s[i] == s[j] {
        var x := s[i];
        assert s == s[..i] + [x] + s[i + 1..j] + [x] + s[j + 1..];
        assert multiset(s)[x] >= 2;
        CountInDistinct(t, x);
        assert false;
      }
    }
  }

  lemma {:induction false} CountInDistinct<T>(t: seq<T>, x: T)
    requires Distinct(t)
    ensures multiset(t)[x] <= 1
  {
    if |t| > 0 {
      assert t == [t[0]] + t[1..];
      assert Distinct(t[1..]);
      CountInDistinct(t[1..], x);
      if t[0] == x {
        assert x !in t[1..];
      }
    }
  }
}
