/**
 * A stable sort by an integer key: what `Array.prototype.sort` does with a
 * comparator returning `key(a) - key(b)`. ECMAScript requires the sort to be
 * stable, so the result is the insertion sort below whatever the engine's
 * algorithm.
 */
module Sorting {

  predicate SortedBy<T(==)>(s: seq<T>, key: T -> int)
  {
    forall i, j :: 0 <= i < j < |s| ==> key(s[i]) <= key(s[j])
  }

  /** Places `x` after every element of `r` whose key is no greater than its own. */
  function InsertBy<T(==)>(r: seq<T>, x: T, key: T -> int): (r': seq<T>)
    ensures multiset(r') == multiset(r) + multiset{x}
  {
    if r == [] then [x]
    else
      var last := r[|r| - 1];
      assert r == r[..|r| - 1] + [last];
      if key(last) <= key(x) then r + [x]
      else
        InsertBy(r[..|r| - 1], x, key) + [last]
  }

  lemma {:induction false} InsertKeepsSorted<T>(r: seq<T>, x: T, key: T -> int)
    requires SortedBy(r, key)
    ensures SortedBy(InsertBy(r, x, key), key)
  {
    if r != [] {
      var last := r[|r| - 1];
      var front := r[..|r| - 1];
      if key(last) > key(x) {
        InsertKeepsSorted(front, x, key);
        var inserted := InsertBy(front, x, key);
        forall u | u in inserted ensures key(u) <= key(last) {
          assert u in multiset(front) + multiset{x};
          if u != x {
            assert u in front;
          }
        }
        var r' := inserted + [last];
        forall i, j | 0 <= i < j < |r'| ensures key(r'[i]) <= key(r'[j]) {
          if j == |r'| - 1 {
            assert r'[i] in inserted;
          } else {
            assert r'[i] == inserted[i] && r'[j] == inserted[j];
          }
        }
      }
    }
  }

  /** Insertion of the elements in arrival order: sorted, and a permutation of `s`. */
  function SortBy<T(==)>(s: seq<T>, key: T -> int): (r: seq<T>)
    ensures multiset(r) == multiset(s)
    ensures SortedBy(r, key)
  {
    if s == [] then []
    else
      assert s == s[..|s| - 1] + [s[|s| - 1]];
      var sorted := SortBy(s[..|s| - 1], key);
      InsertKeepsSorted(sorted, s[|s| - 1], key);
      InsertBy(sorted, s[|s| - 1], key)
  }

  /** The elements whose key is `k`, in their order. */
  function WithKey<T(==)>(s: seq<T>, key: T -> int, k: int): seq<T>
  {
    if s == [] then []
    else
      var last := s[|s| - 1];
      WithKey(s[..|s| - 1], key, k) + (if key(last) == k then [last] else [])
  }

  /** Appending one element extends the elements of key `k` by it when its key is `k`. */
  lemma WithKeySnoc<T>(s: seq<T>, y: T, key: T -> int, k: int)
    ensures WithKey(s + [y], key, k) == WithKey(s, key, k) + (if key(y) == k then [y] else [])
  {
    assert (s + [y])[..|s|] == s;
  }

  lemma {:induction false} InsertIsStable<T>(r: seq<T>, x: T, key: T -> int, k: int)
    ensures WithKey(InsertBy(r, x, key), key, k) == WithKey(r, key, k) + (if key(x) == k then [x] else [])
  {
    if r == [] {
      WithKeySnoc(r, x, key, k);
      assert r + [x] == [x];
    } else if key(r[|r| - 1]) <= key(x) {
      assert InsertBy(r, x, key) == r + [x];
      WithKeySnoc(r, x, key, k);
    } else {
      var front, last := r[..|r| - 1], r[|r| - 1];
      InsertIsStable(front, x, key, k);
      assert r == front + [last];
      assert InsertBy(r, x, key) == InsertBy(front, x, key) + [last];
      AppendAfterInserted(InsertBy(front, x, key), front, x, last, key, k);
    }
  }

  /** Appending an element with a key above `x`'s to both sides keeps `x`'s place among the elements of key `k`. */
  lemma AppendAfterInserted<T>(inserted: seq<T>, front: seq<T>, x: T, last: T, key: T -> int, k: int)
    requires key(x) < key(last)
    requires WithKey(inserted, key, k) == WithKey(front, key, k) + (if key(x) == k then [x] else [])
    ensures WithKey(inserted + [last], key, k) == WithKey(front + [last], key, k) + (if key(x) == k then [x] else [])
  {
    WithKeySnoc(inserted, last, key, k);
    WithKeySnoc(front, last, key, k);
    var wi, wf := WithKey(inserted, key, k), WithKey(front, key, k);
    if key(x) == k {
      assert key(last) != k;
      assert WithKey(inserted + [last], key, k) == wi == wf + [x];
      assert WithKey(front + [last], key, k) == wf;
    } else if key(last) == k {
      assert wi == wf;
      assert WithKey(inserted + [last], key, k) == wi + [last];
      assert WithKey(front + [last], key, k) == wf + [last];
    } else {
      assert wi == wf;
      assert WithKey(inserted + [last], key, k) == wi;
      assert WithKey(front + [last], key, k) == wf;
    }
  }

  /** The sort is stable: elements with equal keys keep their relative order. */
  lemma {:induction false} SortIsStable<T>(s: seq<T>, key: T -> int, k: int)
    ensures WithKey(SortBy(s, key), key, k) == WithKey(s, key, k)
  {
    if s != [] {
      SortIsStable(s[..|s| - 1], key, k);
      InsertIsStable(SortBy(s[..|s| - 1], key), s[|s| - 1], key, k);
    }
  }

  /** Sorting an already sorted sequence leaves it as it is. */
  lemma {:induction false} SortOfSorted<T>(s: seq<T>, key: T -> int)
    requires SortedBy(s, key)
    ensures SortBy(s, key) == s
  {
    if s != [] {
      var front := s[..|s| - 1];
      SortOfSorted(front, key);
      assert front + [s[|s| - 1]] == s;
    }
  }

  /** An element with key `k` shows up among the elements with key `k`. */
  lemma {:induction false} WithKeyFinds<T>(s: seq<T>, key: T -> int, i: nat)
    requires i < |s|
    ensures WithKey(s, key, key(s[i])) != []
  {
    if i < |s| - 1 {
      WithKeyFinds(s[..|s| - 1], key, i);
    }
  }

  /** Every element among those with key `k` has key `k` and comes from the sequence. */
  lemma {:induction false} WithKeyMembers<T>(s: seq<T>, key: T -> int, k: int)
    ensures forall x :: x in WithKey(s, key, k) ==> x in s && key(x) == k
  {
    if s != [] {
      WithKeyMembers(s[..|s| - 1], key, k);
    }
  }

  lemma SomeKeyPresent<T>(s: seq<T>, key: T -> int)
    requires s != []
    ensures exists k :: WithKey(s, key, k) != []
  {
    WithKeyFinds(s, key, 0);
  }

  /** In a sorted sequence no element has a larger key than the last one. */
  lemma LastIsLargest<T>(s: seq<T>, key: T -> int, x: T)
    requires SortedBy(s, key) && x in s
    ensures key(x) <= key(s[|s| - 1])
  {
    var i :| 0 <= i < |s| && s[i] == x;
  }

  lemma TopKeysAgree<T>(a: seq<T>, b: seq<T>, key: T -> int)
    requires SortedBy(a, key) && SortedBy(b, key)
    requires a != [] && b != []
    requires forall k :: WithKey(a, key, k) == WithKey(b, key, k)
    ensures key(a[|a| - 1]) == key(b[|b| - 1])
  {
    var la, lb := a[|a| - 1], b[|b| - 1];
    WithKeyFinds(a, key, |a| - 1);
    WithKeyFinds(b, key, |b| - 1);
    WithKeyMembers(a, key, key(lb));
    WithKeyMembers(b, key, key(la));
    var wa := WithKey(a, key, key(lb));
    var wb := WithKey(b, key, key(la));
    assert wa == WithKey(b, key, key(lb));
    assert wb == WithKey(a, key, key(la));
    assert wb[0] in wb && wa[0] in wa;
    LastIsLargest(b, key, wb[0]);
    LastIsLargest(a, key, wa[0]);
  }

  /**
   * A sorted sequence is determined by its elements of each key in order:
   * the result of a stable sort is unique.
   */
  lemma {:induction false} SortedUnique<T>(a: seq<T>, b: seq<T>, key: T -> int)
    requires SortedBy(a, key) && SortedBy(b, key)
    requires forall k :: WithKey(a, key, k) == WithKey(b, key, k)
    ensures a == b
    decreases |a| + |b|
  {
    if a == [] || b == [] {
      if a != [] {
        SomeKeyPresent(a, key);
      } else if b != [] {
        SomeKeyPresent(b, key);
      }
    } else {
      var la, lb := a[|a| - 1], b[|b| - 1];
      var a', b' := a[..|a| - 1], b[..|b| - 1];
      TopKeysAgree(a, b, key);
      var top := key(la);
      assert WithKey(a, key, top) == WithKey(a', key, top) + [la];
      assert WithKey(b, key, top) == WithKey(b', key, top) + [lb];
      forall k ensures WithKey(a', key, k) == WithKey(b', key, k) {
        var wa', wb' := WithKey(a', key, k), WithKey(b', key, k);
        if k != top {
          assert WithKey(a, key, k) == wa';
          assert WithKey(b, key, k) == wb';
        } else {
          assert wa' + [la] == wb' + [lb];
          assert wa' == (wa' + [la])[..|wa'|];
          assert wb' == (wb' + [lb])[..|wb'|];
        }
      }
      assert la == lb by {
        var wa', wb' := WithKey(a', key, top), WithKey(b', key, top);
        assert WithKey(a, key, top) == WithKey(b, key, top);
        assert (wa' + [la])[|wa'|] == la && (wb' + [lb])[|wb'|] == lb;
      }
      SortedUnique(a', b', key);
      assert a == a' + [la] && b == b' + [lb];
    }
  }
}
