/**
 * The keyword-anchored alignment script: anchor words are the words of both
 * vocabularies that contain a domain keyword; with at least two of them the
 * Chinese space is rotated onto the Japanese one, and a query word's
 * neighbours are reported in each native space and, after the rotation, in
 * the Japanese space by a full scan of its vocabulary.  The Procrustes solve,
 * the matrix product and the cosine are numerical collaborators passed in as
 * functions; only what the script does with their results is modelled.
 */
module Result1 {
  import opened Embedding
  import opened Ranking
  import opened PyStrings

  /** The numerical collaborators: `orthogonal_procrustes`, `v @ R`, and cosine similarity. */
  datatype Numerics = Numerics(
    procrustes: (seq<Vector>, seq<Vector>) -> Matrix,
    apply: (Vector, Matrix) -> Vector,
    cosine: (Vector, Vector) -> real)

  /** One printed line of a neighbour list: its rank (from 1), the word and its score. */
  datatype Entry = Entry(rank: nat, word: string, score: real)

  /** A neighbour report: the not-found message, or the ranked list. */
  datatype Neighbours = NotFound | Listed(entries: seq<Entry>)

  /** How the script ends: stopped for want of anchors, or with its three reports. */
  datatype Outcome =
    | TooFewAnchors(found: nat)
    | Reported(anchors: seq<string>, rotation: Matrix,
               chinese: Neighbours, japanese: Neighbours, aligned: Neighbours)

  // ---------------------------------------------------------------------
  // Anchors

  /** `any(k in w for k in keywords)`. */
  predicate MatchesKeyword(w: string, keywords: seq<string>) {
    exists k :: k in keywords && Contains(w, k)
  }

  /**
   * `[w for w in common_vocab if any(k in w for k in keywords)]`, where
   * `common` is the order in which the set is iterated.
   */
  function AnchorWords(common: seq<string>, keywords: seq<string>): (anchors: seq<string>)
    ensures forall w :: w in anchors <==> w in common && MatchesKeyword(w, keywords)
    ensures Distinct(common) ==> Distinct(anchors)
  {
    if common == [] then []
    else
      var init, last := common[..|common| - 1], common[|common| - 1];
      assert forall w :: w in common <==> w in init || w == last;
      assert Distinct(common) ==> Distinct(init) && last !in init;
      AnchorWords(init, keywords) + (if MatchesKeyword(last, keywords) then [last] else [])
  }

  /** `{word: model_ch.wv[word] @ R for word in model_ch.wv.index_to_key}`. */
  function AlignedVectors(ch: Space, rotation: Matrix, apply: (Vector, Matrix) -> Vector): (m: map<string, Vector>)
    ensures forall w :: w in m <==> w in ch.vocab
    ensures forall w :: w in m ==> m[w] == apply(ch.vector(w), rotation)
  {
    map w | w in ch.vocab :: apply(ch.vector(w), rotation)
  }

  // ---------------------------------------------------------------------
  // Neighbour reports

  /** `enumerate(pairs, 1)`. */
  function Numbered(pairs: seq<(string, real)>): (r: seq<Entry>)
    ensures |r| == |pairs|
  {
    seq(|pairs|, i requires 0 <= i < |pairs| => Entry(i + 1, pairs[i].0, pairs[i].1))
  }

  /** A model's own `most_similar`, asked only when the word is in its vocabulary. */
  function NativeNeighbours(s: Space, query: string, topN: nat): (r: Neighbours)
    ensures r.NotFound? <==> query !in s.vocab
    ensures r.Listed? ==> |r.entries| == |s.mostSimilar(query, topN)|
    ensures r.Listed? ==> forall i :: 0 <= i < |r.entries| ==>
      r.entries[i].rank == i + 1 && (r.entries[i].word, r.entries[i].score) == s.mostSimilar(query, topN)[i]
  {
    if query in s.vocab then Listed(Numbered(s.mostSimilar(query, topN))) else NotFound
  }

  function Score(p: (string, real)): real {
    p.1
  }

  /** The similarity of a word of the Japanese space to a fixed rotated vector. */
  function ScoreAgainst(vec: Vector, jp: Space, cosine: (Vector, Vector) -> real): string -> real {
    w => cosine(vec, jp.vector(w))
  }

  /** One (word, score) pair per vocabulary word, in vocabulary order. */
  function Similarities(vocab: seq<string>, score: string -> real): (sims: seq<(string, real)>)
    ensures |sims| == |vocab|
  {
    seq(|vocab|, i requires 0 <= i < |vocab| => (vocab[i], score(vocab[i])))
  }

  /** The top `topN` of the scan, sorted by descending score, numbered from 1. */
  function Ranked(vocab: seq<string>, score: string -> real, topN: nat): seq<Entry> {
    Numbered(Take(SortDesc(Similarities(vocab, score), Score), topN))
  }

  /** The aligned report: only a word of the Chinese vocabulary has a rotated vector to rank against. */
  function AlignedNeighbours(query: string, aligned: map<string, Vector>, jp: Space,
                             cosine: (Vector, Vector) -> real, topN: nat): Neighbours
  {
    if query in aligned then Listed(Ranked(jp.vocab, ScoreAgainst(aligned[query], jp, cosine), topN))
    else NotFound
  }

  /**
   * The scan loop: for every word of the vocabulary, in order, append the
   * pair of the word and its score.
   */
  method Scan(vocab: seq<string>, score: string -> real) returns (sims: seq<(string, real)>)
    ensures |sims| == |vocab|
    ensures forall i :: 0 <= i < |vocab| ==> sims[i] == (vocab[i], score(vocab[i]))
  {
    sims := [];
    for n := 0 to |vocab|
      invariant |sims| == n
      invariant forall i :: 0 <= i < n ==> sims[i] == (vocab[i], score(vocab[i]))
    {
      sims := sims + [(vocab[n], score(vocab[n]))];
    }
  }

  /** The aligned query: scan, sort by descending score, report the first `topN`. */
  method AlignedRetrieval(query: string, aligned: map<string, Vector>, jp: Space,
                          cosine: (Vector, Vector) -> real, topN: nat)
    returns (nb: Neighbours)
    ensures nb == AlignedNeighbours(query, aligned, jp, cosine, topN)
  {
    if query in aligned {
      var vec := aligned[query];
      var sims := Scan(jp.vocab, ScoreAgainst(vec, jp, cosine));
      assert sims == Similarities(jp.vocab, ScoreAgainst(vec, jp, cosine));
      sims := SortDesc(sims, Score);
      nb := Listed(Numbered(Take(sims, topN)));
    } else {
      nb := NotFound;
    }
  }

  /**
   * The script: select the anchors, stop when there are fewer than two,
   * otherwise solve for the rotation from the anchors' vectors, rotate every
   * Chinese vector, and report the query's neighbours three ways.
   */
  method Run(ch: Space, jp: Space, common: seq<string>, keywords: seq<string>,
             query: string, topN: nat, num: Numerics)
    returns (out: Outcome)
    requires Enumerates(common, CommonVocab(ch, jp))
    ensures out.TooFewAnchors? <==> |AnchorWords(common, keywords)| < 2
    ensures out.TooFewAnchors? ==> out.found == |AnchorWords(common, keywords)|
    ensures out.Reported? ==>
      && out.anchors == AnchorWords(common, keywords)
      && Distinct(out.anchors)
      && (forall w :: w in out.anchors <==> w in ch.vocab && w in jp.vocab && MatchesKeyword(w, keywords))
      && out.rotation == num.procrustes(Rows(ch, out.anchors), Rows(jp, out.anchors))
      && out.chinese == NativeNeighbours(ch, query, topN)
      && out.japanese == NativeNeighbours(jp, query, topN)
      && (out.aligned.Listed? <==> query in ch.vocab)
      && out.aligned == AlignedNeighbours(query, AlignedVectors(ch, out.rotation, num.apply), jp, num.cosine, topN)
  {
    var anchors := AnchorWords(common, keywords);
    if |anchors| < 2 {
      return TooFewAnchors(|anchors|);
    }
    var r := num.procrustes(Rows(ch, anchors), Rows(jp, anchors));
    var aligned := AlignedVectors(ch, r, num.apply);
    var chinese := NativeNeighbours(ch, query, topN);
    var japanese := NativeNeighbours(jp, query, topN);
    var alignedReport := AlignedRetrieval(query, aligned, jp, num.cosine, topN);
    out := Reported(anchors, r, chinese, japanese, alignedReport);
  }

  // ---------------------------------------------------------------------
  // What the reports mean

  lemma SimilarityPresent(vocab: seq<string>, score: string -> real, w: string)
    requires w in vocab
    ensures (w, score(w)) in Similarities(vocab, score)
  {
    var i :| 0 <= i < |vocab| && vocab[i] == w;
    assert Similarities(vocab, score)[i] == (w, score(w));
  }

  /**
   * The ranked list of the aligned query: at most `topN` entries, numbered
   * 1, 2, ..., each a vocabulary word with its own score, scores never
   * increasing; no vocabulary word left out scores above a listed one; and
   * among equal scores the sort keeps vocabulary order.
   */
  lemma RankedMeaning(vocab: seq<string>, score: string -> real, topN: nat)
    ensures var report := Ranked(vocab, score, topN);
      && |report| == (if topN < |vocab| then topN else |vocab|)
      && (forall i :: 0 <= i < |report| ==>
            report[i].rank == i + 1 && report[i].word in vocab && report[i].score == score(report[i].word))
      && (forall i, j :: 0 <= i < j < |report| ==> report[i].score >= report[j].score)
      && (forall w :: w in vocab ==>
            (exists i :: 0 <= i < |report| && report[i].word == w) ||
            (forall i :: 0 <= i < |report| ==> report[i].score >= score(w)))
    ensures forall k: real ::
      WithKey(SortDesc(Similarities(vocab, score), Score), Score, k) == WithKey(Similarities(vocab, score), Score, k)
  {
    var sims := Similarities(vocab, score);
    var sorted := SortDesc(sims, Score);
    var top := Take(sorted, topN);
    var report := Ranked(vocab, score, topN);
    SortDescDescending(sims, Score);
    SortDescMembers(sims, Score);
    assert |sorted| == |sims| by {
      SortDescPermutation(sims, Score);
      assert |multiset(sorted)| == |multiset(sims)|;
    }
    forall i | 0 <= i < |report|
      ensures report[i].rank == i + 1 && report[i].word in vocab && report[i].score == score(report[i].word)
    {
      assert report[i] == Entry(i + 1, top[i].0, top[i].1);
      assert top[i] == sorted[i];
      assert sorted[i] in sims;
      var m :| 0 <= m < |sims| && sims[m] == sorted[i];
    }
    forall i, j | 0 <= i < j < |report| ensures report[i].score >= report[j].score {
      assert report[i].score == Score(sorted[i]) && report[j].score == Score(sorted[j]);
    }
    forall w | w in vocab
      ensures (exists i :: 0 <= i < |report| && report[i].word == w) ||
              (forall i :: 0 <= i < |report| ==> report[i].score >= score(w))
    {
      SimilarityPresent(vocab, score, w);
      var m :| 0 <= m < |sorted| && sorted[m] == (w, score(w));
      if m < |report| {
        assert report[m].word == w;
      } else {
        forall i | 0 <= i < |report| ensures report[i].score >= score(w) {
          assert report[i].score == Score(sorted[i]) && Score(sorted[m]) == score(w);
        }
      }
    }
    forall k: real ensures WithKey(sorted, Score, k) == WithKey(sims, Score, k) {
      SortDescStable(sims, Score, k);
    }
  }

  /**
   * Whatever the anchors and the rotation, the aligned query is answered
   * exactly when the word is in the Chinese vocabulary, and then with the
   * ranked scan of the Japanese vocabulary.
   */
  lemma AlignedAnsweredIffChinese(query: string, ch: Space, jp: Space, rotation: Matrix, num: Numerics, topN: nat)
    ensures AlignedNeighbours(query, AlignedVectors(ch, rotation, num.apply), jp, num.cosine, topN).Listed?
      <==> query in ch.vocab
    ensures query in ch.vocab ==>
      AlignedNeighbours(query, AlignedVectors(ch, rotation, num.apply), jp, num.cosine, topN).entries ==
      Ranked(jp.vocab, ScoreAgainst(num.apply(ch.vector(query), rotation), jp, num.cosine), topN)
  {
  }
}
