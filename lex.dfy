/**
 * Python's ordering of `str` values (code point by code point, a proper
 * prefix before its extensions) and `sorted`, written as a stable insertion
 * sort by a string key, with `sorted(set(...))` on top of it.
 */
module Lex {

  /** `a < b` on Python strings. */
  predicate Less(a: string, b: string)
    decreases |a|
  {
    if a == [] then b != []
    else if b == [] then false
    else if a[0] != b[0] then a[0] < b[0]
    else Less(a[1..], b[1..])
  }

  predicate LessEq(a: string, b: string) {
    a == b || Less(a, b)
  }

  lemma {:induction false} LessIrreflexive(a: string)
    ensures !Less(a, a)
  {
    if a != [] {
      LessIrreflexive(a[1..]);
    }
  }

  lemma {:induction false} LessTransitive(a: string, b: string, c: string)
    requires Less(a, b) && Less(b, c)
    ensures Less(a, c)
    decreases |a|
  {
    if a != [] && b != [] && c != [] && a[0] == b[0] && b[0] == c[0] {
      LessTransitive(a[1..], b[1..], c[1..]);
    }
  }

  /** Any two strings compare exactly one way. */
  lemma {:induction false} LessTrichotomy(a: string, b: string)
    ensures a == b || Less(a, b) || Less(b, a)
    ensures !(Less(a, b) && Less(b, a))
    decreases |a|
  {
    if a != [] && b != [] && a[0] == b[0] {
      LessTrichotomy(a[1..], b[1..]);
      if a[1..] == b[1..] {
        assert a == [a[0]] + a[1..] && b == [b[0]] + b[1..];
      }
    }
  }

  lemma LessEqTransitive(a: string, b: string, c: string)
    requires LessEq(a, b) && LessEq(b, c)
    ensures LessEq(a, c)
  {
    if a != b && b != c {
      LessTransitive(a, b, c);
    }
  }

  lemma LessThenLessEq(a: string, b: string, c: string)
    requires Less(a, b) && LessEq(b, c)
    ensures Less(a, c)
  {
    if b != c {
      LessTransitive(a, b, c);
    }
  }

  /** The order of `sorted(s, key=key)`: keys never decrease. */
  predicate SortedBy<T>(s: seq<T>, key: T -> string) {
    forall i, j :: 0 <= i < j < |s| ==> LessEq(key(s[i]), key(s[j]))
  }

  /** Puts `x` before the first element whose key is greater, after all equal ones. */
  function Insert<T>(x: T, s: seq<T>, key: T -> string): (r: seq<T>)
    ensures multiset(r) == multiset(s) + multiset{x}
  {
    if s == [] then [x]
    else if Less(key(x), key(s[0])) then [x] + s
    else
      assert s == [s[0]] + s[1..];
      [s[0]] + Insert(x, s[1..], key)
  }

  /** `sorted(s, key=key)`. */
  function SortBy<T>(s: seq<T>, key: T -> string): (r: seq<T>)
    ensures multiset(r) == multiset(s)
  {
    if s == [] then []
    else
      assert s == s[..|s| - 1] + [s[|s| - 1]];
      Insert(s[|s| - 1], SortBy(s[..|s| - 1], key), key)
  }

  lemma {:induction false} InsertSorted<T>(x: T, s: seq<T>, key: T -> string)
    requires SortedBy(s, key)
    ensures SortedBy(Insert(x, s, key), key)
  {
    if s != [] {
      if Less(key(x), key(s[0])) {
        forall j | 0 <= j < |s| ensures LessEq(key(x), key(s[j])) {
          LessEqTransitive(key(x), key(s[0]), key(s[j]));
        }
      } else {
        var rest := Insert(x, s[1..], key);
        InsertSorted(x, s[1..], key);
        LessTrichotomy(key(x), key(s[0]));
        forall j | 0 <= j < |rest| ensures LessEq(key(s[0]), key(rest[j])) {
          assert rest[j] in multiset(rest);
          if rest[j] != x {
            assert rest[j] in multiset(s[1..]);
            var k :| 0 <= k < |s[1..]| && s[1..][k] == rest[j];
            assert s[k + 1] == rest[j];
          }
        }
      }
    }
  }

  /** `sorted` returns its argument's elements, keys in non-decreasing order. */
  lemma {:induction false} SortBySorted<T>(s: seq<T>, key: T -> string)
    ensures SortedBy(SortBy(s, key), key)
  {
    if s != [] {
      SortBySorted(s[..|s| - 1], key);
      InsertSorted(s[|s| - 1], SortBy(s[..|s| - 1], key), key);
    }
  }

  function Id(s: string): string {
    s
  }

  /** Strictly increasing: sorted and without duplicates. */
  predicate StrictlySorted(s: seq<string>) {
    forall i, j :: 0 <= i < j < |s| ==> Less(s[i], s[j])
  }

  /** Drops the repeats from a sorted sequence. */
  function Dedupe(s: seq<string>): (r: seq<string>)
    ensures forall x :: x in r <==> x in s
  {
    if |s| <= 1 then s
    else
      assert forall x :: x in s <==> x == s[0] || x in s[1..];
      if s[0] == s[1] then
        assert s[1..][0] == s[0];
        Dedupe(s[1..])
      else
        [s[0]] + Dedupe(s[1..])
  }

  /** `sorted(set(s))`. */
  function SortedUnique(s: seq<string>): seq<string> {
    Dedupe(SortBy(s, Id))
  }

  lemma {:induction false} DedupeStrict(s: seq<string>)
    requires SortedBy(s, Id)
    ensures StrictlySorted(Dedupe(s))
  {
    if |s| > 1 {
      assert SortedBy(s[1..], Id) by {
        forall i, j | 0 <= i < j < |s[1..]| ensures LessEq(Id(s[1..][i]), Id(s[1..][j])) {
          assert s[1..][i] == s[i + 1] && s[1..][j] == s[j + 1];
        }
      }
      DedupeStrict(s[1..]);
      if s[0] != s[1] {
        var r := Dedupe(s[1..]);
        forall j | 0 <= j < |r| ensures Less(s[0], r[j]) {
          assert r[j] in s[1..];
          var k :| 0 <= k < |s[1..]| && s[1..][k] == r[j];
          assert Less(s[0], s[1]) && LessEq(s[1], s[k + 1]);
          LessThenLessEq(s[0], s[1], s[k + 1]);
        }
      }
    }
  }

  /** `sorted(set(s))` holds every element of `s` once, in increasing order. */
  lemma SortedUniqueMeaning(s: seq<string>)
    ensures StrictlySorted(SortedUnique(s))
    ensures forall x :: x in SortedUnique(s) <==> x in s
  {
    SortBySorted(s, Id);
    DedupeStrict(SortBy(s, Id));
    forall x ensures x in SortBy(s, Id) <==> x in s {
      assert x in SortBy(s, Id) <==> x in multiset(SortBy(s, Id));
      assert x in s <==> x in multiset(s);
    }
  }

  /** A strictly increasing sequence has no repeated element. */
  lemma StrictlySortedDistinct(s: seq<string>, i: nat, j: nat)
    requires StrictlySorted(s) && i < j < |s|
    ensures s[i] != s[j]
  {
    LessIrreflexive(s[i]);
  }
}
