/**
 * Facts about slices of sequences, stated once for any element type so that
 * proofs about long chains of string functions need not rediscover them.
 */
module SeqFacts {

  /** Taking one more element of a sequence appends that element. */
  lemma TakeOneMore<T>(s: seq<T>, n: nat)
    requires n < |s|
    ensures s[..n + 1] == s[..n] + [s[n]]
  {
  }

  /** Taking every element of a sequence gives the sequence. */
  lemma TakeAll<T>(s: seq<T>)
    ensures s[..|s|] == s
  {
  }

  /** A sequence is its first `k` elements followed by the rest. */
  lemma SplitAt<T>(s: seq<T>, k: nat)
    requires k <= |s|
    ensures s == s[..k] + s[k..]
  {
  }

  /** The `q` elements from `start` on, taken either way. */
  lemma SuffixSlice<T>(a: seq<T>, start: nat, q: nat)
    requires start + q <= |a|
    ensures a[start..start + q] == a[start..][..q]
  {
  }

  /**
   * When the elements from `start` on are `x` followed by `y`, and `mid`
   * lies `|x|` further on, `x` runs from `start` to `mid` and `y` from `mid`.
   */
  lemma SuffixParts<T>(a: seq<T>, start: nat, mid: nat, x: seq<T>, y: seq<T>)
    requires start <= mid <= |a| && a[start..] == x + y && mid - start == |x|
    ensures a[start..mid] == x && a[mid..] == y
  {
    assert a[start..mid] == (x + y)[..|x|];
    assert a[mid..] == (x + y)[|x|..];
  }

  /** Appending one element and then a tail is appending the element-and-tail. */
  lemma SnocThenAppend<T>(a: seq<T>, x: T, b: seq<T>)
    ensures (a + [x]) + b == a + ([x] + b)
  {
  }

  /** Appending one element after a concatenation extends its second part. */
  lemma AppendSnoc<T>(a: seq<T>, b: seq<T>, x: T)
    ensures (a + b) + [x] == a + (b + [x])
  {
  }
}
