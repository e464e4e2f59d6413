/**
 * What the alignment scripts see of a trained word-embedding model: its
 * vocabulary (`wv.index_to_key`, in index order), the training count of each
 * word, its vector, and the model's own neighbour query `most_similar`.
 * Training and the vector arithmetic stay outside the model; vectors and
 * matrices are plain values handed to functions supplied by the caller.
 */
module Embedding {
  import opened Ranking

  type Vector = seq<real>

  type Matrix = seq<seq<real>>

  /** A trained model, as far as the scripts use it. */
  datatype Space = Space(
    vocab: seq<string>,
    count: string -> nat,
    vector: string -> Vector,
    mostSimilar: (string, nat) -> seq<(string, real)>)

  /** The anchors' vectors in one space, one row per anchor: the matrices X and Y. */
  function Rows(s: Space, words: seq<string>): (m: seq<Vector>)
    ensures |m| == |words|
  {
    seq(|words|, i requires 0 <= i < |words| => s.vector(words[i]))
  }

  /** `set(a.wv.index_to_key) & set(b.wv.index_to_key)`. */
  function CommonVocab(a: Space, b: Space): (r: set<string>)
    ensures forall w :: w in r <==> w in a.vocab && w in b.vocab
  {
    set w | w in a.vocab && w in b.vocab
  }

  /**
   * `order` is one iteration order of the set `s`: each member once, nothing
   * else.  Python does not fix the iteration order of a set of strings, so the
   * scripts' use of one is a parameter constrained by this predicate.
   */
  ghost predicate Enumerates(order: seq<string>, s: set<string>) {
    Distinct(order) && forall w :: w in order <==> w in s
  }
}
