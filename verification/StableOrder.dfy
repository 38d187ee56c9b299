/** Sequences kept in ascending order of a key, equal keys in order of arrival: the order of
    the age list of cache.c, as a specification for its two ways of sorting. */
module StableOrder {
  ghost predicate Sorted<T>(key: T -> int, s: seq<T>) {
    forall i, j :: 0 <= i < j < |s| ==> key(s[i]) <= key(s[j])
  }

  /** Where insert_rrl puts a new element: behind the last one whose key is not greater. */
  function InsertPos<T>(key: T -> int, s: seq<T>, k: int): (n: nat)
    ensures n <= |s|
  {
    if s == [] then 0
    else if key(s[|s| - 1]) <= k then |s|
    else InsertPos(key, s[..|s| - 1], k)
  }

  function Insert<T>(key: T -> int, s: seq<T>, x: T): seq<T> {
    var n := InsertPos(key, s, key(x));
    s[..n] + [x] + s[n..]
  }

  /** The list that results when the elements are inserted one by one. */
  function InsertAll<T>(key: T -> int, s: seq<T>): seq<T> {
    if s == [] then [] else Insert(key, InsertAll(key, s[..|s| - 1]), s[|s| - 1])
  }

  /** The elements with a given key, in order. */
  function WithKey<T>(key: T -> int, s: seq<T>, k: int): seq<T> {
    if s == [] then []
    else (if key(s[0]) == k then [s[0]] else []) + WithKey(key, s[1..], k)
  }

  /** r holds the elements of s, those of equal key in the same order. */
  ghost predicate StableOf<T>(key: T -> int, s: seq<T>, r: seq<T>) {
    forall k :: WithKey(key, r, k) == WithKey(key, s, k)
  }

  lemma {:induction false} WithKeyConcat<T>(key: T -> int, a: seq<T>, b: seq<T>, k: int)
    ensures WithKey(key, a + b, k) == WithKey(key, a, k) + WithKey(key, b, k)
  {
    if a == [] {
      assert a + b == b;
    } else {
      assert (a + b)[0] == a[0] && (a + b)[1..] == a[1..] + b;
      WithKeyConcat(key, a[1..], b, k);
      var h: seq<T> := if key(a[0]) == k then [a[0]] else [];
      assert h + (WithKey(key, a[1..], k) + WithKey(key, b, k)) == h + WithKey(key, a[1..], k) + WithKey(key, b, k);
    }
  }

  lemma {:induction false} WithKeyNone<T>(key: T -> int, s: seq<T>, k: int)
    requires forall i :: 0 <= i < |s| ==> key(s[i]) != k
    ensures WithKey(key, s, k) == []
  {
    if s != [] {
      assert forall i :: 0 <= i < |s[1..]| ==> s[1..][i] == s[i + 1];
      WithKeyNone(key, s[1..], k);
    }
  }

  lemma {:induction false} InsertPosSplits<T>(key: T -> int, s: seq<T>, k: int)
    requires Sorted(key, s)
    ensures var n := InsertPos(key, s, k);
            (forall i :: 0 <= i < n ==> key(s[i]) <= k) && (forall i :: n <= i < |s| ==> k < key(s[i]))
  {
    if s != [] && key(s[|s| - 1]) > k {
      var s' := s[..|s| - 1];
      InsertPosSplits(key, s', k);
      assert forall i :: 0 <= i < |s'| ==> s'[i] == s[i];
    }
  }

  /** Insertion keeps the order, and is last among equals. */
  lemma InsertKeeps<T>(key: T -> int, s: seq<T>, x: T)
    requires Sorted(key, s)
    ensures Sorted(key, Insert(key, s, x))
    ensures StableOf(key, s + [x], Insert(key, s, x))
  {
    InsertPosSplits(key, s, key(x));
    forall k ensures WithKey(key, Insert(key, s, x), k) == WithKey(key, s + [x], k) {
      InsertKeepsKey(key, s, x, k);
    }
  }

  lemma InsertKeepsKey<T>(key: T -> int, s: seq<T>, x: T, k: int)
    requires Sorted(key, s)
    ensures WithKey(key, Insert(key, s, x), k) == WithKey(key, s + [x], k)
  {
    hide WithKey, InsertPos, Sorted;
    var n := InsertPos(key, s, key(x));
    InsertPosSplits(key, s, key(x));
    assert s == s[..n] + s[n..];
    if k == key(x) {
      WithKeyNone(key, s[n..], k);
    } else {
      WithKeyNone(key, [x], k);
    }
    PastOthers(key, s[..n], s[n..], x, k);
  }

  /** An element moves past others of which none has its key. */
  lemma PastOthers<T>(key: T -> int, a: seq<T>, b: seq<T>, x: T, k: int)
    requires WithKey(key, b, k) == [] || WithKey(key, [x], k) == []
    ensures WithKey(key, a + [x] + b, k) == WithKey(key, a + b + [x], k)
  {
    hide WithKey;
    WithKeyConcat(key, a + [x], b, k);
    WithKeyConcat(key, a, [x], k);
    WithKeyConcat(key, a, b, k);
    WithKeyConcat(key, a + b, [x], k);
  }

  lemma {:induction false} InsertAllKeeps<T>(key: T -> int, s: seq<T>)
    ensures Sorted(key, InsertAll(key, s)) && StableOf(key, s, InsertAll(key, s))
  {
    if s != [] {
      var n := |s| - 1;
      InsertAllKeeps(key, s[..n]);
      var r := InsertAll(key, s[..n]);
      InsertKeeps(key, r, s[n]);
      forall k ensures WithKey(key, InsertAll(key, s), k) == WithKey(key, s, k) {
        assert s == s[..n] + [s[n]];
        WithKeyConcat(key, r, [s[n]], k);
        WithKeyConcat(key, s[..n], [s[n]], k);
      }
    }
  }

  lemma {:induction false} InsertAllPermutes<T>(key: T -> int, s: seq<T>)
    ensures multiset(InsertAll(key, s)) == multiset(s)
  {
    if s != [] {
      var n := |s| - 1;
      InsertAllPermutes(key, s[..n]);
      hide InsertPos;
      var r := InsertAll(key, s[..n]);
      var p := InsertPos(key, r, key(s[n]));
      assert r == r[..p] + r[p..] && s == s[..n] + [s[n]];
    }
  }

  lemma {:induction false} WithKeyIn<T>(key: T -> int, s: seq<T>, k: int, x: T)
    requires x in WithKey(key, s, k)
    ensures x in s && key(x) == k
  {
    if !(key(s[0]) == k && s[0] == x) {
      WithKeyIn(key, s[1..], k, x);
    }
  }

  /** Only one sequence is sorted and stable. */
  lemma {:induction false} StableUnique<T>(key: T -> int, a: seq<T>, b: seq<T>)
    requires Sorted(key, a) && Sorted(key, b) && StableOf(key, a, b)
    ensures a == b
    decreases |a|
  {
    if a == [] {
      if b != [] {
        FirstIsLeast(key, b, a);
      }
    } else {
      FirstIsLeast(key, a, b);
      FirstIsLeast(key, b, a);
      var k := key(a[0]);
      assert WithKey(key, a, k)[0] == a[0] && WithKey(key, b, k)[0] == b[0];
      assert WithKey(key, a, k) == WithKey(key, b, k);
      assert a[0] == b[0];
      forall j ensures WithKey(key, b[1..], j) == WithKey(key, a[1..], j) {
        assert WithKey(key, b, j) == WithKey(key, a, j);
        var h: seq<T> := if j == k then [a[0]] else [];
        assert WithKey(key, a, j) == h + WithKey(key, a[1..], j);
        assert WithKey(key, b, j) == h + WithKey(key, b[1..], j);
        assert (h + WithKey(key, a[1..], j))[|h|..] == WithKey(key, a[1..], j);
        assert (h + WithKey(key, b[1..], j))[|h|..] == WithKey(key, b[1..], j);
      }
      StableUnique(key, a[1..], b[1..]);
      assert a == [a[0]] + a[1..] && b == [b[0]] + b[1..];
    }
  }

  lemma FirstIsLeast<T>(key: T -> int, a: seq<T>, b: seq<T>)
    requires Sorted(key, a) && StableOf(key, a, b) && a != []
    ensures b != [] && (Sorted(key, b) ==> key(b[0]) <= key(a[0]))
  {
    var k := key(a[0]);
    assert WithKey(key, a, k)[0] == a[0];
    assert a[0] in WithKey(key, b, k);
    WithKeyIn(key, b, k, a[0]);
  }

  // ---------- merging ----------

  function Merge<T>(key: T -> int, a: seq<T>, b: seq<T>): seq<T>
    decreases |a| + |b|
  {
    if a == [] then b
    else if b == [] then a
    else if key(a[0]) <= key(b[0]) then [a[0]] + Merge(key, a[1..], b)
    else [b[0]] + Merge(key, a, b[1..])
  }

  lemma {:induction false} MergeIn<T>(key: T -> int, a: seq<T>, b: seq<T>)
    ensures multiset(Merge(key, a, b)) == multiset(a) + multiset(b)
    decreases |a| + |b|
  {
    if a != [] && b != [] {
      assert a == [a[0]] + a[1..] && b == [b[0]] + b[1..];
      if key(a[0]) <= key(b[0]) {
        MergeIn(key, a[1..], b);
      } else {
        MergeIn(key, a, b[1..]);
      }
    }
  }

  lemma SortedCons<T>(key: T -> int, h: T, m: seq<T>)
    requires Sorted(key, m) && forall x :: x in m ==> key(h) <= key(x)
    ensures Sorted(key, [h] + m)
  {
  }

  lemma {:induction false} MergeSorted<T>(key: T -> int, a: seq<T>, b: seq<T>)
    requires Sorted(key, a) && Sorted(key, b)
    ensures Sorted(key, Merge(key, a, b))
    decreases |a| + |b|
  {
    if a != [] && b != [] {
      var left := key(a[0]) <= key(b[0]);
      var h, a', b' := if left then a[0] else b[0], if left then a[1..] else a, if left then b else b[1..];
      var m := Merge(key, a', b');
      assert Merge(key, a, b) == [h] + m;
      MergeSorted(key, a', b');
      assert forall x :: x in a' || x in b' ==> key(h) <= key(x);
      hide Merge, Sorted;
      MergeIn(key, a', b');
      forall x | x in m ensures key(h) <= key(x) {
        assert x in multiset(m);
        assert x in a' || x in b';
      }
      SortedCons(key, h, m);
    }
  }

  /** Merging keeps, among equals, the elements of the first sequence before those of the
      second. */
  lemma {:induction false} MergeStable<T>(key: T -> int, a: seq<T>, b: seq<T>, k: int)
    requires Sorted(key, a)
    ensures WithKey(key, Merge(key, a, b), k) == WithKey(key, a, k) + WithKey(key, b, k)
    decreases |a| + |b|
  {
    hide WithKey, Sorted;
    if a == [] || b == [] {
      WithKeyNone(key, [], k);
    } else if key(a[0]) <= key(b[0]) {
      SortedTail(key, a);
      MergeStable(key, a[1..], b, k);
      assert Merge(key, a, b) == [a[0]] + Merge(key, a[1..], b) && a == [a[0]] + a[1..];
      hide Merge;
      WithKeyConcat(key, [a[0]], Merge(key, a[1..], b), k);
      WithKeyConcat(key, [a[0]], a[1..], k);
    } else {
      MergeStable(key, a, b[1..], k);
      assert Merge(key, a, b) == [b[0]] + Merge(key, a, b[1..]) && b == [b[0]] + b[1..];
      hide Merge;
      WithKeyConcat(key, [b[0]], Merge(key, a, b[1..]), k);
      WithKeyConcat(key, [b[0]], b[1..], k);
      if key(b[0]) == k {
        AllAbove(key, a, k);
        WithKeyNone(key, a, k);
      } else {
        WithKeyNone(key, [b[0]], k);
      }
    }
  }

  lemma SortedTail<T>(key: T -> int, a: seq<T>)
    requires Sorted(key, a) && a != []
    ensures Sorted(key, a[1..])
  {
  }

  lemma AllAbove<T>(key: T -> int, a: seq<T>, k: int)
    requires Sorted(key, a) && a != [] && k < key(a[0])
    ensures forall i :: 0 <= i < |a| ==> key(a[i]) != k
  {
  }

  lemma WithKeyWithin<T>(key: T -> int, g: seq<T>, m: seq<T>, n: seq<T>, rest: seq<T>, k: int)
    requires WithKey(key, m, k) == WithKey(key, n, k)
    ensures WithKey(key, g + m + rest, k) == WithKey(key, g + n + rest, k)
  {
    hide WithKey;
    WithKeyConcat(key, g + m, rest, k);
    WithKeyConcat(key, g, m, k);
    WithKeyConcat(key, g + n, rest, k);
    WithKeyConcat(key, g, n, k);
  }

  /** The same with something before and after. */
  lemma MergeStableWithin<T>(key: T -> int, g: seq<T>, r: seq<T>, c: seq<T>, rest: seq<T>, k: int)
    requires Sorted(key, r)
    ensures WithKey(key, g + Merge(key, r, c) + rest, k) == WithKey(key, g + r + c + rest, k)
  {
    hide WithKey, Merge, Sorted;
    assert g + (r + c) + rest == g + r + c + rest;
    MergeStable(key, r, c, k);
    WithKeyConcat(key, r, c, k);
    WithKeyWithin(key, g, Merge(key, r, c), r + c, rest, k);
  }
}
