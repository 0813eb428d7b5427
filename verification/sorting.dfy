/**
 * A stable sort in descending order of a real-valued key: Python's
 * `sorted(..., key=k, reverse=True)` / `list.sort(key=k, reverse=True)`,
 * which keeps elements with equal keys in their original order.
 */
module Sorting {

  predicate SortedDesc<T>(s: seq<T>, key: T -> real) {
    forall i, j :: 0 <= i < j < |s| ==> key(s[i]) >= key(s[j])
  }

  /** The elements of `s` whose key is `v`, in order. */
  function WithKey<T>(s: seq<T>, key: T -> real, v: real): (r: seq<T>)
    ensures |r| <= |s|
    decreases |s|
  {
    if |s| == 0 then []
    else WithKey(s[..|s| - 1], key, v) + (if key(s[|s| - 1]) == v then [s[|s| - 1]] else [])
  }

  /** How many leading elements have a key of at least `key(x)`. */
  function InsertPos<T>(x: T, s: seq<T>, key: T -> real): (p: nat)
    ensures p <= |s|
    ensures forall i :: 0 <= i < p ==> key(s[i]) >= key(x)
    ensures SortedDesc(s, key) ==> forall i :: p <= i < |s| ==> key(s[i]) < key(x)
    decreases |s|
  {
    if |s| == 0 || key(s[0]) < key(x) then 0 else 1 + InsertPos(x, s[1..], key)
  }

  /** Insert `x` after every element whose key is at least `key(x)`. */
  function Insert<T>(x: T, s: seq<T>, key: T -> real): (r: seq<T>)
    requires SortedDesc(s, key)
    ensures SortedDesc(r, key)
    ensures multiset(r) == multiset(s) + multiset{x}
    ensures |r| == |s| + 1
  {
    var p := InsertPos(x, s, key);
    InsertAt(x, s, key, p);
    s[..p] + [x] + s[p..]
  }

  lemma InsertAt<T>(x: T, s: seq<T>, key: T -> real, p: nat)
    requires SortedDesc(s, key) && p <= |s|
    requires forall i :: 0 <= i < p ==> key(s[i]) >= key(x)
    requires forall i :: p <= i < |s| ==> key(s[i]) < key(x)
    ensures SortedDesc(s[..p] + [x] + s[p..], key)
    ensures multiset(s[..p] + [x] + s[p..]) == multiset(s) + multiset{x}
  {
    var r := s[..p] + [x] + s[p..];
    assert s == s[..p] + s[p..];
    assert forall i :: 0 <= i < |r| ==> r[i] == (if i < p then s[i] else if i == p then x else s[i - 1]);
  }

  /** Insertion sort, one element at a time from the left. */
  function SortDesc<T>(s: seq<T>, key: T -> real): (r: seq<T>)
    ensures SortedDesc(r, key)
    ensures multiset(r) == multiset(s)
    ensures |r| == |s|
    decreases |s|
  {
    if |s| == 0 then []
    else
      assert s == s[..|s| - 1] + [s[|s| - 1]];
      Insert(s[|s| - 1], SortDesc(s[..|s| - 1], key), key)
  }

  /** `[:n]`. */
  function Take<T>(s: seq<T>, n: nat): (r: seq<T>)
    ensures |r| <= n && |r| <= |s|
    ensures |s| <= n ==> r == s
    ensures |s| > n ==> r == s[..n]
  {
    if |s| <= n then s else s[..n]
  }

  /** The first `n` after sorting are sorted, drawn from `s`, and as many as `s` allows. */
  lemma TopElements<T>(s: seq<T>, key: T -> real, n: nat)
    ensures var r := Take(SortDesc(s, key), n);
      SortedDesc(r, key) && (forall x :: x in r ==> x in s)
      && |r| == (if |s| <= n then |s| else n)
      && forall k :: 0 <= k < |r| ==> r[k] == SortDesc(s, key)[k]
  {
    SortDescElements(s, key);
    var sorted := SortDesc(s, key);
    var r := Take(sorted, n);
    assert forall k :: 0 <= k < |r| ==> r[k] == sorted[k];
    assert forall x :: x in r ==> x in sorted;
  }

  /** An element left out of the top `n` is outranked by `n` kept elements. */
  lemma TopOutranks<T>(s: seq<T>, key: T -> real, n: nat, x: T)
    requires x in s
    ensures var r := Take(SortDesc(s, key), n);
      x !in r ==> |r| == n && forall k :: 0 <= k < |r| ==> key(r[k]) >= key(x)
  {
    var sorted := SortDesc(s, key);
    SortDescElements(s, key);
    var j :| 0 <= j < |sorted| && sorted[j] == x;
    var r := Take(sorted, n);
    if x !in r {
      assert j >= |r| && |r| == n;
      forall k | 0 <= k < |r| ensures key(r[k]) >= key(x) {
        assert r[k] == sorted[k];
      }
    }
  }

  /** Sorting keeps exactly the elements it was given. */
  lemma SortDescElements<T>(s: seq<T>, key: T -> real)
    ensures forall x :: x in SortDesc(s, key) <==> x in s
  {
    var r := SortDesc(s, key);
    forall x ensures x in r <==> x in s {
      assert x in r <==> x in multiset(r);
      assert x in s <==> x in multiset(s);
    }
  }

  lemma {:induction false} WithKeyAppend<T>(a: seq<T>, b: seq<T>, key: T -> real, v: real)
    ensures WithKey(a + b, key, v) == WithKey(a, key, v) + WithKey(b, key, v)
    decreases |b|
  {
    if |b| > 0 {
      assert (a + b)[..|a + b| - 1] == a + b[..|b| - 1];
      WithKeyAppend(a, b[..|b| - 1], key, v);
    } else {
      assert a + b == a;
    }
  }

  lemma {:induction false} WithKeyNone<T>(s: seq<T>, key: T -> real, v: real)
    requires forall i :: 0 <= i < |s| ==> key(s[i]) != v
    ensures WithKey(s, key, v) == []
    decreases |s|
  {
    if |s| > 0 {
      WithKeyNone(s[..|s| - 1], key, v);
    }
  }

  /** Moving `x` behind `b` keeps the order among equal keys when `b` holds none of `x`'s key. */
  lemma {:induction false} WithKeyMoveLast<T>(a: seq<T>, x: T, b: seq<T>, key: T -> real, v: real)
    requires key(x) == v ==> forall i :: 0 <= i < |b| ==> key(b[i]) != v
    ensures WithKey(a + [x] + b, key, v) == WithKey(a + b, key, v) + WithKey([x], key, v)
  {
    WithKeyAppend(a, b, key, v);
    var ax := a + [x];
    assert ax[..|ax| - 1] == a;
    var mid := if key(x) == v then [x] else [];
    assert WithKey(ax, key, v) == WithKey(a, key, v) + mid;
    assert WithKey([x], key, v) == mid by {
      assert [x][..0] == [];
    }
    WithKeyAppend(ax, b, key, v);
    if key(x) == v {
      WithKeyNone(b, key, v);
    }
  }

  /** Inserting `x` places it after every element with the same key. */
  lemma {:induction false} InsertStable<T>(x: T, s: seq<T>, key: T -> real, v: real)
    requires SortedDesc(s, key)
    ensures WithKey(Insert(x, s, key), key, v) == WithKey(s, key, v) + WithKey([x], key, v)
  {
    var p := InsertPos(x, s, key);
    assert s == s[..p] + s[p..];
    WithKeyMoveLast(s[..p], x, s[p..], key, v);
  }

  /** Stability: the elements sharing any one key keep their relative order. */
  lemma {:induction false} SortDescStable<T>(s: seq<T>, key: T -> real, v: real)
    ensures WithKey(SortDesc(s, key), key, v) == WithKey(s, key, v)
    decreases |s|
  {
    if |s| > 0 {
      var init := s[..|s| - 1];
      var last := s[|s| - 1];
      var sortedInit := SortDesc(init, key);
      assert SortDesc(s, key) == Insert(last, sortedInit, key);
      SortDescStable(init, key, v);
      InsertStable(last, sortedInit, key, v);
      assert WithKey(SortDesc(s, key), key, v) == WithKey(init, key, v) + WithKey([last], key, v);
      assert s == init + [last];
      WithKeyAppend(init, [last], key, v);
    }
  }

  /** No element occurs twice. */
  predicate Distinct<T(==)>(s: seq<T>) {
    forall i, j :: 0 <= i < j < |s| ==> s[i] != s[j]
  }

  /** A sequence has no repeated element exactly when every multiplicity is at most one. */
  lemma {:induction false} DistinctMultiset<T>(s: seq<T>)
    ensures Distinct(s) <==> forall x :: multiset(s)[x] <= 1
    decreases |s|
  {
    if |s| > 0 {
      var t := s[1..];
      assert s == [s[0]] + t;
      DistinctMultiset(t);
      if Distinct(s) {
        assert s[0] !in t;
        assert Distinct(t) by {
          forall i, j | 0 <= i < j < |t| ensures t[i] != t[j] {
            assert t[i] == s[i + 1] && t[j] == s[j + 1];
          }
        }
      } else {
        var i, j :| 0 <= i < j < |s| && s[i] == s[j];
        if i == 0 {
          assert t[j - 1] == s[j];
          assert multiset(s)[s[0]] >= 2;
        } else {
          assert t[i - 1] == s[i] && t[j - 1] == s[j];
          assert !Distinct(t);
          var x :| multiset(t)[x] > 1;
          assert multiset(s)[x] > 1;
        }
      }
    }
  }

  /** A permutation has a repeated element exactly when the original has. */
  lemma PermutationDistinct<T>(a: seq<T>, b: seq<T>)
    requires multiset(a) == multiset(b)
    ensures Distinct(a) <==> Distinct(b)
  {
    DistinctMultiset(a);
    DistinctMultiset(b);
  }
}
