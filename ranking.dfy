/**
 * Python's stable sort in descending order of a numeric key,
 * `list.sort(key=key, reverse=True)` and `sorted(..., key=key, reverse=True)`:
 * the keys come out non-increasing, and elements with equal keys keep the
 * order they had.  Scores and counts are both compared as `real` keys.
 */
module Ranking {

  /** Keys never increase along the sequence. */
  predicate Descending<T>(s: seq<T>, key: T -> real) {
    forall i, j :: 0 <= i < j < |s| ==> key(s[i]) >= key(s[j])
  }

  /** Each element occurs at most once. */
  predicate Distinct<T(==)>(s: seq<T>) {
    forall i, j :: 0 <= i < j < |s| ==> s[i] != s[j]
  }

  /** Puts `x` after every element whose key is at least its own. */
  function Insert<T>(x: T, s: seq<T>, key: T -> real): seq<T> {
    if s == [] then [x]
    else if key(s[0]) < key(x) then [x] + s
    else [s[0]] + Insert(x, s[1..], key)
  }

  /** The stable descending sort, one element after another in input order. */
  function SortDesc<T>(s: seq<T>, key: T -> real): seq<T> {
    if s == [] then [] else Insert(s[|s| - 1], SortDesc(s[..|s| - 1], key), key)
  }

  /** `s[:n]`: the first `n` elements, or all of them when there are fewer. */
  function Take<T>(s: seq<T>, n: nat): (r: seq<T>)
    ensures r <= s
    ensures |r| == if n < |s| then n else |s|
  {
    if n < |s| then s[..n] else s
  }

  /** The elements whose key is `k`, in order. */
  function WithKey<T>(s: seq<T>, key: T -> real, k: real): seq<T> {
    if s == [] then [] else (if key(s[0]) == k then [s[0]] else []) + WithKey(s[1..], key, k)
  }

  /** Inserting adds `x` and keeps every other element. */
  lemma {:induction false} InsertPermutation<T>(x: T, s: seq<T>, key: T -> real)
    ensures multiset(Insert(x, s, key)) == multiset(s) + multiset{x}
  {
    if s != [] && key(s[0]) >= key(x) {
      InsertPermutation(x, s[1..], key);
      assert s == [s[0]] + s[1..];
    }
  }

  /** The sort is a permutation of its input. */
  lemma {:induction false} SortDescPermutation<T>(s: seq<T>, key: T -> real)
    ensures multiset(SortDesc(s, key)) == multiset(s)
  {
    if s != [] {
      SortDescPermutation(s[..|s| - 1], key);
      InsertPermutation(s[|s| - 1], SortDesc(s[..|s| - 1], key), key);
      assert s == s[..|s| - 1] + [s[|s| - 1]];
    }
  }

  lemma {:induction false} InsertDescending<T>(x: T, s: seq<T>, key: T -> real)
    requires Descending(s, key)
    ensures Descending(Insert(x, s, key), key)
  {
    if s != [] && key(s[0]) >= key(x) {
      var rest := Insert(x, s[1..], key);
      InsertDescending(x, s[1..], key);
      InsertPermutation(x, s[1..], key);
      forall j | 0 <= j < |rest| ensures key(s[0]) >= key(rest[j]) {
        assert rest[j] in multiset(rest);
        if rest[j] != x {
          assert rest[j] in multiset(s[1..]);
          var k :| 0 <= k < |s[1..]| && s[1..][k] == rest[j];
          assert s[k + 1] == rest[j];
        }
      }
    }
  }

  /** The sort's keys are non-increasing. */
  lemma {:induction false} SortDescDescending<T>(s: seq<T>, key: T -> real)
    ensures Descending(SortDesc(s, key), key)
  {
    if s != [] {
      SortDescDescending(s[..|s| - 1], key);
      InsertDescending(s[|s| - 1], SortDesc(s[..|s| - 1], key), key);
    }
  }

  lemma WithKeyCons<T>(y: T, t: seq<T>, key: T -> real, k: real)
    ensures WithKey([y] + t, key, k) == (if key(y) == k then [y] else []) + WithKey(t, key, k)
  {
    assert ([y] + t)[0] == y && ([y] + t)[1..] == t;
  }

  lemma {:induction false} WithKeyAppend<T>(a: seq<T>, b: seq<T>, key: T -> real, k: real)
    ensures WithKey(a + b, key, k) == WithKey(a, key, k) + WithKey(b, key, k)
  {
    if a == [] {
      assert a + b == b;
    } else {
      var t := a[1..];
      assert a == [a[0]] + t;
      assert a + b == [a[0]] + (t + b);
      WithKeyCons(a[0], t + b, key, k);
      WithKeyCons(a[0], t, key, k);
      WithKeyAppend(t, b, key, k);
    }
  }

  /** No element of a sequence whose keys are all below `k` has key `k`. */
  lemma {:induction false} WithKeyNone<T>(s: seq<T>, key: T -> real, k: real)
    requires forall i :: 0 <= i < |s| ==> key(s[i]) < k
    ensures WithKey(s, key, k) == []
  {
    if s != [] {
      WithKeyNone(s[1..], key, k);
    }
  }

  /** Inserting into a sorted sequence puts `x` after every element with the same key. */
  lemma {:induction false} InsertStable<T>(x: T, s: seq<T>, key: T -> real, k: real)
    requires Descending(s, key)
    ensures WithKey(Insert(x, s, key), key, k) == WithKey(s, key, k) + (if key(x) == k then [x] else [])
  {
    if s == [] {
      assert Insert(x, s, key) == [x] + s;
      WithKeyCons(x, s, key, k);
    } else if key(s[0]) < key(x) {
      assert Insert(x, s, key) == [x] + s;
      WithKeyCons(x, s, key, k);
      if key(x) == k {
        WithKeyNone(s, key, k);
      } else {
        WithKeyNone([], key, k);
      }
    } else {
      var rest := Insert(x, s[1..], key);
      assert Insert(x, s, key) == [s[0]] + rest;
      assert Descending(s[1..], key);
      InsertStable(x, s[1..], key, k);
      WithKeyCons(s[0], rest, key, k);
      WithKeyCons(s[0], s[1..], key, k);
      assert [s[0]] + s[1..] == s;
    }
  }

  /** One step of the sort keeps the elements of each key in input order. */
  lemma StableStep<T>(init: seq<T>, last: T, sorted: seq<T>, key: T -> real, k: real)
    requires Descending(sorted, key) && WithKey(sorted, key, k) == WithKey(init, key, k)
    ensures WithKey(Insert(last, sorted, key), key, k) == WithKey(init + [last], key, k)
  {
    InsertStable(last, sorted, key, k);
    WithKeyAppend(init, [last], key, k);
    WithKeyCons(last, [], key, k);
    assert [last] + [] == [last];
  }

  /** Stability: the elements that share a key appear in the order the input had them. */
  lemma {:induction false} SortDescStable<T>(s: seq<T>, key: T -> real, k: real)
    ensures WithKey(SortDesc(s, key), key, k) == WithKey(s, key, k)
  {
    if s != [] {
      var init, last := s[..|s| - 1], s[|s| - 1];
      var sorted := SortDesc(init, key);
      assert SortDesc(s, key) == Insert(last, sorted, key);
      SortDescStable(init, key, k);
      SortDescDescending(init, key);
      StableStep(init, last, sorted, key, k);
      assert s == init + [last];
    }
  }

  /** A sequence without repeats is one whose multiset counts every element at most once. */
  lemma {:induction false} DistinctCounts<T>(s: seq<T>)
    ensures Distinct(s) <==> forall x :: multiset(s)[x] <= 1
  {
    if s != [] {
      var t := s[1..];
      assert s == [s[0]] + t;
      assert multiset(s) == multiset{s[0]} + multiset(t);
      DistinctCounts(t);
      if Distinct(s) {
        assert Distinct(t);
        forall j | 0 <= j < |t| ensures t[j] != s[0] {
          assert t[j] == s[j + 1];
        }
        assert s[0] !in multiset(t);
      } else {
        var i, j :| 0 <= i < j < |s| && s[i] == s[j];
        if i == 0 {
          assert s[0] in t by { assert t[j - 1] == s[j]; }
          assert multiset(s)[s[0]] == multiset(t)[s[0]] + 1;
        } else {
          assert t[i - 1] == t[j - 1];
          assert !Distinct(t);
          var x :| multiset(t)[x] > 1;
          assert multiset(s)[x] >= multiset(t)[x];
        }
      }
    }
  }

  /** Reordering a sequence without repeats gives a sequence without repeats. */
  lemma DistinctPermutation<T>(a: seq<T>, b: seq<T>)
    requires multiset(a) == multiset(b) && Distinct(a)
    ensures Distinct(b)
  {
    DistinctCounts(a);
    DistinctCounts(b);
  }

  /** Sorting keeps exactly the elements of the input. */
  lemma SortDescMembers<T>(s: seq<T>, key: T -> real)
    ensures forall x :: x in SortDesc(s, key) <==> x in s
  {
    SortDescPermutation(s, key);
    forall x ensures x in SortDesc(s, key) <==> x in s {
      assert x in SortDesc(s, key) <==> x in multiset(SortDesc(s, key));
      assert x in s <==> x in multiset(s);
    }
  }
}
