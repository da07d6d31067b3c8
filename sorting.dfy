/**
 * Python's `sorted(items, key=..., reverse=True)`: a stable sort by an
 * integer key, largest key first, with equal keys kept in their original
 * order. Used to rank CAN identifiers by frequency and backups by age.
 */
module Sorting {

  /** Keys never increase from left to right. */
  ghost predicate SortedDesc<T>(s: seq<T>, key: T -> int) {
    forall i, j :: 0 <= i < j < |s| ==> key(s[i]) >= key(s[j])
  }

  /** The elements whose key is `k`, in their order in `s`. */
  function WithKey<T>(s: seq<T>, key: T -> int, k: int): (r: seq<T>)
    ensures |r| <= |s|
    ensures forall i :: 0 <= i < |r| ==> key(r[i]) == k
  {
    if s == [] then []
    else if key(s[0]) == k then [s[0]] + WithKey(s[1..], key, k)
    else WithKey(s[1..], key, k)
  }

  /** Places `x` in front of the first element whose key is not larger. */
  function Insert<T>(x: T, s: seq<T>, key: T -> int): (r: seq<T>)
    ensures |r| == |s| + 1
    ensures multiset(r) == multiset(s) + multiset{x}
  {
    if s == [] || key(s[0]) <= key(x) then [x] + s
    else
      assert s == [s[0]] + s[1..];
      [s[0]] + Insert(x, s[1..], key)
  }

  /** `sorted(s, key=key, reverse=True)`. */
  function SortDesc<T>(s: seq<T>, key: T -> int): (r: seq<T>)
    ensures |r| == |s|
    ensures multiset(r) == multiset(s)
  {
    if s == [] then []
    else
      assert s == [s[0]] + s[1..];
      Insert(s[0], SortDesc(s[1..], key), key)
  }

  /** `s[:n]` for a non-negative `n`. */
  function Take<T>(s: seq<T>, n: nat): (r: seq<T>)
    ensures |r| == if n < |s| then n else |s|
    ensures r == s[..|r|]
  {
    if n < |s| then s[..n] else s
  }

  /** `s[n:]` for a non-negative `n`. */
  function Drop<T>(s: seq<T>, n: nat): (r: seq<T>)
    ensures |r| == if n < |s| then |s| - n else 0
    ensures Take(s, n) + r == s
  {
    if n < |s| then s[n..] else []
  }

  // ------------------------------------------------------------------ lemmas

  lemma {:induction false} InsertSorted<T>(x: T, s: seq<T>, key: T -> int)
    requires SortedDesc(s, key)
    ensures SortedDesc(Insert(x, s, key), key)
    ensures Insert(x, s, key)[0] == x || (|s| > 0 && Insert(x, s, key)[0] == s[0])
    decreases |s|
  {
    if s == [] || key(s[0]) <= key(x) {
    } else {
      var s1 := s[1..];
      assert SortedDesc(s1, key) by {
        forall i, j | 0 <= i < j < |s1| ensures key(s1[i]) >= key(s1[j]) {
          assert s1[i] == s[i + 1] && s1[j] == s[j + 1];
        }
      }
      InsertSorted(x, s1, key);
      var r := Insert(x, s, key);
      var t := Insert(x, s1, key);
      assert r == [s[0]] + t;
      assert key(s[0]) >= key(t[0]) by {
        if |s1| > 0 { assert s1[0] == s[1]; }
      }
      forall i, j | 0 <= i < j < |r| ensures key(r[i]) >= key(r[j]) {
        assert r[j] == t[j - 1];
        if i > 0 {
          assert r[i] == t[i - 1];
        } else if j > 1 {
          assert key(t[0]) >= key(t[j - 1]);
        }
      }
    }
  }

  /** The result is ordered by key, largest first. */
  lemma {:induction false} SortDescSorted<T>(s: seq<T>, key: T -> int)
    ensures SortedDesc(SortDesc(s, key), key)
    decreases |s|
  {
    if s != [] {
      SortDescSorted(s[1..], key);
      InsertSorted(s[0], SortDesc(s[1..], key), key);
    }
  }

  lemma {:induction false} WithKeyInsert<T>(x: T, s: seq<T>, key: T -> int, k: int)
    requires SortedDesc(s, key)
    ensures WithKey(Insert(x, s, key), key, k) ==
              if key(x) == k then [x] + WithKey(s, key, k) else WithKey(s, key, k)
    decreases |s|
  {
    if s == [] || key(s[0]) <= key(x) {
      assert Insert(x, s, key)[1..] == s;
    } else {
      var r := Insert(x, s, key);
      assert r[0] == s[0] && r[1..] == Insert(x, s[1..], key);
      assert SortedDesc(s[1..], key) by {
        forall i, j | 0 <= i < j < |s[1..]| ensures key(s[1..][i]) >= key(s[1..][j]) {
          assert s[1..][i] == s[i + 1] && s[1..][j] == s[j + 1];
        }
      }
      WithKeyInsert(x, s[1..], key, k);
      if key(x) == k {
        assert key(s[0]) != k;
      }
    }
  }

  /** Stability: the elements sharing one key keep their original order. */
  lemma {:induction false} SortDescStable<T>(s: seq<T>, key: T -> int, k: int)
    ensures WithKey(SortDesc(s, key), key, k) == WithKey(s, key, k)
    decreases |s|
  {
    if s != [] {
      SortDescStable(s[1..], key, k);
      SortDescSorted(s[1..], key);
      WithKeyInsert(s[0], SortDesc(s[1..], key), key, k);
    }
  }

  /** After sorting, everything kept by `[:n]` ranks at least as high as everything dropped by `[n:]`. */
  lemma SortedSplitDominates<T>(s: seq<T>, key: T -> int, n: nat)
    ensures forall p, q :: p in Take(SortDesc(s, key), n) && q in Drop(SortDesc(s, key), n) ==> key(p) >= key(q)
  {
    var t := SortDesc(s, key);
    SortDescSorted(s, key);
    var kept := Take(t, n);
    var dropped := Drop(t, n);
    assert kept + dropped == t;
    forall p, q | p in kept && q in dropped ensures key(p) >= key(q) {
      var i :| 0 <= i < |kept| && kept[i] == p;
      var j :| 0 <= j < |dropped| && dropped[j] == q;
      assert t[i] == p && t[|kept| + j] == q;
    }
  }

  /** `[:n]` and `[n:]` of the sorted list split the original elements: nothing lost, nothing invented. */
  lemma SortedSplitPartition<T>(s: seq<T>, key: T -> int, n: nat)
    ensures multiset(Take(SortDesc(s, key), n)) + multiset(Drop(SortDesc(s, key), n)) == multiset(s)
  {
    var t := SortDesc(s, key);
    assert Take(t, n) + Drop(t, n) == t;
  }
}
