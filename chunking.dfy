/**
 * Byte-bounded chunking of a text for a segmenter that accepts at most a
 * fixed number of bytes per call.  The chunks are specified at the level of
 * characters: each chunk is the longest run of the remaining characters whose
 * UTF-8 encoding fits in the window.  Both tokenizers work on bytes instead
 * (one backs the window end off continuation bytes, the other shrinks it until
 * the bytes decode); the lemmas at the end are what lets each be proved equal
 * to this specification.
 */
module Chunking {
  import opened Utf8
  import opened Wrappers
  import opened SeqFacts

  /** The concatenation of a list of strings. */
  function Concat(chunks: seq<string>): (r: string)
  {
    if chunks == [] then [] else chunks[0] + Concat(chunks[1..])
  }

  /** The number of leading characters of `t` whose encoding fits in `w` bytes. */
  function MaxFit(t: string, w: nat): (k: nat)
    ensures k <= |t|
  {
    if t == [] || Width(t[0]) > w then 0 else 1 + MaxFit(t[1..], w - Width(t[0]))
  }

  /**
   * The chunks the segmenter sees: the longest prefix that fits, then the
   * chunks of what is left.  A window of 4 bytes holds any one character,
   * so every chunk is non-empty.
   */
  function GreedyChunks(t: string, w: nat): (chunks: seq<string>)
    requires 4 <= w
    decreases |t|
  {
    if t == [] then [] else
      var k := MaxFit(t, w);
      [t[..k]] + GreedyChunks(t[k..], w)
  }

  // ---------------------------------------------------------------------
  // Encoding of prefixes

  lemma EncodeSingle(c: char)
    ensures Encode([c]) == EncodeChar(c)
  {
    assert [c][1..] == [];
  }

  lemma EncodePrefixCons(t: string, k: nat)
    requires 1 <= k <= |t|
    ensures Encode(t[..k]) == EncodeChar(t[0]) + Encode(t[1..][..k - 1])
  {
    assert t[..k][0] == t[0];
    assert t[..k][1..] == t[1..][..k - 1];
  }

  lemma EncodeCons(t: string)
    requires t != []
    ensures Encode(t) == EncodeChar(t[0]) + Encode(t[1..])
  {
  }

  /** The encoding of the whole text splits at every character boundary. */
  lemma EncodeSplit(t: string, k: nat)
    requires k <= |t|
    ensures Encode(t) == Encode(t[..k]) + Encode(t[k..])
  {
    assert t == t[..k] + t[k..];
    EncodeAppend(t[..k], t[k..]);
  }

  // ---------------------------------------------------------------------
  // MaxFit is the longest prefix that fits

  /** A prefix fits in the window exactly when it is no longer than MaxFit. */
  lemma {:induction false} MaxFitIsLongest(t: string, w: nat, k: nat)
    requires k <= |t|
    ensures |Encode(t[..k])| <= w <==> k <= MaxFit(t, w)
    decreases |t|
  {
    if k == 0 {
      assert t[..k] == [];
    } else {
      EncodePrefixCons(t, k);
      if Width(t[0]) <= w {
        MaxFitIsLongest(t[1..], w - Width(t[0]), k - 1);
      }
    }
  }

  lemma MaxFitFits(t: string, w: nat)
    ensures |Encode(t[..MaxFit(t, w)])| <= w
  {
    MaxFitIsLongest(t, w, MaxFit(t, w));
  }

  /** A text whose whole encoding fits is taken in one piece. */
  lemma MaxFitWhole(t: string, w: nat)
    requires |Encode(t)| <= w
    ensures MaxFit(t, w) == |t|
  {
    assert t[..|t|] == t;
    MaxFitIsLongest(t, w, |t|);
  }

  /** Adding the next character to the chunk would overflow the window. */
  lemma MaxFitMaximal(t: string, w: nat)
    requires MaxFit(t, w) < |t|
    ensures |Encode(t[..MaxFit(t, w) + 1])| > w
  {
    MaxFitIsLongest(t, w, MaxFit(t, w) + 1);
  }

  /** A chunk cut short by the window leaves at most 3 bytes of it unused. */
  lemma MaxFitNearlyFull(t: string, w: nat)
    requires MaxFit(t, w) < |t|
    ensures |Encode(t[..MaxFit(t, w)])| > w - 4
  {
    var k := MaxFit(t, w);
    MaxFitMaximal(t, w);
    assert t[..k + 1] == t[..k] + [t[k]];
    EncodeAppend(t[..k], [t[k]]);
    EncodeSingle(t[k]);
  }

  // ---------------------------------------------------------------------
  // Properties of the greedy chunks

  /** The chunks tile the text: nothing lost, nothing repeated, order kept. */
  lemma {:induction false} GreedyTiles(t: string, w: nat)
    requires 4 <= w
    ensures Concat(GreedyChunks(t, w)) == t
    decreases |t|
  {
    if t != [] {
      var k := MaxFit(t, w);
      GreedyTiles(t[k..], w);
      assert t[..k] + t[k..] == t;
    }
  }

  /** Every chunk is non-empty and its encoding fits in the window. */
  lemma {:induction false} GreedyChunksFit(t: string, w: nat)
    requires 4 <= w
    ensures forall i :: 0 <= i < |GreedyChunks(t, w)| ==>
      GreedyChunks(t, w)[i] != [] && |Encode(GreedyChunks(t, w)[i])| <= w
    decreases |t|
  {
    if t != [] {
      var k := MaxFit(t, w);
      MaxFitFits(t, w);
      GreedyChunksFit(t[k..], w);
    }
  }

  /**
   * `a` is cut as late as a window of `w` bytes allows when `b` follows it:
   * the first character of `b` would not have fitted, so the encoding of `a`
   * fills all but at most 3 bytes of the window.
   */
  ghost predicate CutAsLateAsPossible(a: string, b: string, w: nat) {
    b != [] && |Encode(a + [b[0]])| > w && |Encode(a)| > w - 4
  }

  /** Every chunk but the last is cut as late as the window allows. */
  lemma {:induction false} GreedyChunksMaximal(t: string, w: nat)
    requires 4 <= w
    ensures forall i :: 0 <= i < |GreedyChunks(t, w)| - 1 ==>
      CutAsLateAsPossible(GreedyChunks(t, w)[i], GreedyChunks(t, w)[i + 1], w)
    decreases |t|
  {
    if t != [] {
      var k := MaxFit(t, w);
      var rest := GreedyChunks(t[k..], w);
      GreedyChunksMaximal(t[k..], w);
      if rest != [] {
        GreedyChunksFit(t[k..], w);
        assert rest[0] == t[k..][..MaxFit(t[k..], w)];
        assert rest[0][0] == t[k];
        assert t[..k] + [t[k]] == t[..k + 1];
        MaxFitMaximal(t, w);
        MaxFitNearlyFull(t, w);
        assert CutAsLateAsPossible(t[..k], rest[0], w);
      }
      var cs := GreedyChunks(t, w);
      assert cs == [t[..k]] + rest;
      forall i | 0 <= i < |cs| - 1
        ensures CutAsLateAsPossible(cs[i], cs[i + 1], w)
      {
        if i > 0 {
          var j := i - 1;
          assert 0 <= j < |rest| - 1;
          assert CutAsLateAsPossible(rest[j], rest[j + 1], w);
          assert cs[i] == rest[j] && cs[i + 1] == rest[j + 1];
        } else {
          assert cs[0] == t[..k] && cs[1] == rest[0];
        }
      }
    }
  }

  /** A non-empty text whose encoding fits in the window is a single chunk. */
  lemma SingleChunk(t: string, w: nat)
    requires 4 <= w && t != [] && |Encode(t)| <= w
    ensures GreedyChunks(t, w) == [t]
  {
    MaxFitWhole(t, w);
    assert t[..|t|] == t;
    assert t[|t|..] == [];
  }

  /** The chunks' encodings, laid end to end, are the encoding of the text. */
  lemma {:induction false} GreedyBytesTile(t: string, w: nat)
    requires 4 <= w
    ensures ConcatBytes(GreedyChunks(t, w)) == Encode(t)
    decreases |t|
  {
    if t != [] {
      var k := MaxFit(t, w);
      GreedyBytesTile(t[k..], w);
      EncodeSplit(t, k);
    }
  }

  /** The encodings of a list of strings, laid end to end. */
  function ConcatBytes(chunks: seq<string>): (r: seq<Byte>)
  {
    if chunks == [] then [] else Encode(chunks[0]) + ConcatBytes(chunks[1..])
  }

  // ---------------------------------------------------------------------
  // Where the byte-level loops stop

  /**
   * Backing a window end `w` off continuation bytes stops at the end of the
   * greedy chunk: the last byte position at or before `w` that is not a
   * continuation byte is where the longest fitting prefix ends.
   */
  lemma BackoffLands(t: string, w: nat, e: nat)
    requires w < |Encode(t)| && e <= w
    requires !IsContinuation(Encode(t)[e])
    requires forall q :: e < q <= w ==> IsContinuation(Encode(t)[q])
    ensures e == |Encode(t[..MaxFit(t, w)])|
  {
    var k := MaxFit(t, w);
    ChunkEnds(t, w);
    AtBoundary(t, k);
    if |Encode(t[..k])| < e {
      InsideChar(t, k, e);
      assert false;
    }
  }

  /**
   * A window narrower than the text cuts it inside the text: the greedy
   * chunk ends at or before the window end, and one more character would
   * end past it.
   */
  lemma ChunkEnds(t: string, w: nat)
    requires w < |Encode(t)|
    ensures MaxFit(t, w) < |t|
    ensures |Encode(t[..MaxFit(t, w)])| <= w < |Encode(t[..MaxFit(t, w) + 1])|
  {
    assert t[..|t|] == t;
    MaxFitIsLongest(t, w, |t|);
    MaxFitFits(t, w);
    MaxFitMaximal(t, w);
  }

  /** The encoding around character `k`: the characters before it, its own bytes, the rest. */
  lemma CharAt(t: string, k: nat)
    requires k < |t|
    ensures |Encode(t[..k + 1])| == |Encode(t[..k])| + Width(t[k])
    ensures Encode(t) == Encode(t[..k]) + EncodeChar(t[k]) + Encode(t[k + 1..])
  {
    EncodeSplit(t, k);
    EncodeCons(t[k..]);
    assert t[k..][0] == t[k] && t[k..][1..] == t[k + 1..];
    assert t[..k + 1] == t[..k] + [t[k]];
    EncodeAppend(t[..k], [t[k]]);
    EncodeSingle(t[k]);
  }

  /**
   * The bytes up to the end of character `k - 1` decode to the first `k`
   * characters, and the byte there, if any, starts a character.
   */
  lemma AtBoundary(t: string, k: nat)
    requires k <= |t|
    ensures |Encode(t[..k])| <= |Encode(t)|
    ensures k < |t| ==> |Encode(t[..k])| < |Encode(t)|
    ensures Decode(Encode(t)[..|Encode(t[..k])|]) == Some(t[..k])
    ensures k < |t| ==> !IsContinuation(Encode(t)[|Encode(t[..k])|])
  {
    EncodeSplit(t, k);
    assert Encode(t)[..|Encode(t[..k])|] == Encode(t[..k]);
    DecodeEncode(t[..k]);
    if k < |t| {
      CharAt(t, k);
      assert Encode(t)[|Encode(t[..k])|] == EncodeChar(t[k])[0];
    }
  }

  /**
   * A byte position strictly inside character `k` holds a continuation byte,
   * and the bytes before it do not decode.
   */
  lemma InsideChar(t: string, k: nat, e: nat)
    requires k < |t| && |Encode(t[..k])| < e < |Encode(t[..k + 1])|
    ensures e < |Encode(t)|
    ensures IsContinuation(Encode(t)[e])
    ensures Decode(Encode(t)[..e]).None?
  {
    CharAt(t, k);
    var b := |Encode(t[..k])|;
    assert Encode(t)[e] == EncodeChar(t[k])[e - b];
    assert Encode(t)[..e] == Encode(t[..k]) + EncodeChar(t[k])[..e - b];
    DecodeEndsMidChar(t[..k], t[k], e - b);
  }

  /** The window is never narrower than one character, so every chunk takes at least one. */
  lemma MaxFitPositive(t: string, w: nat)
    requires 4 <= w && t != []
    ensures MaxFit(t, w) >= 1
  {
  }

  /**
   * One step of a byte-level chunk loop whose rest of the text is `t`: the
   * next chunk is the greedy one, its bytes come first, and the rest after
   * it is what remains.
   */
  lemma ChunkAdvance(t: string, w: nat)
    requires 4 <= w && t != []
    ensures 1 <= MaxFit(t, w) <= |t|
    ensures Encode(t) == Encode(t[..MaxFit(t, w)]) + Encode(t[MaxFit(t, w)..])
    ensures GreedyChunks(t, w) == [t[..MaxFit(t, w)]] + GreedyChunks(t[MaxFit(t, w)..], w)
  {
    MaxFitPositive(t, w);
    EncodeSplit(t, MaxFit(t, w));
  }

  /** The chunks emitted so far grow by the next greedy chunk of the rest `t`. */
  lemma ChunksSoFar(text: string, t: string, w: nat, done: seq<string>)
    requires 4 <= w && t != []
    requires done + GreedyChunks(t, w) == GreedyChunks(text, w)
    ensures (done + [t[..MaxFit(t, w)]]) + GreedyChunks(t[MaxFit(t, w)..], w) == GreedyChunks(text, w)
  {
    ChunkAdvance(t, w);
    SnocThenAppend(done, t[..MaxFit(t, w)], GreedyChunks(t[MaxFit(t, w)..], w));
  }

  /**
   * Where the back-off loop leaves the window end, in the loop's own terms:
   * a window that covers the rest of the text is not backed off, and one
   * that does not is backed off to the end of the greedy chunk.
   */
  lemma WindowLands(t: string, w: nat, e: nat)
    requires 4 <= w && t != []
    requires |Encode(t)| <= w ==> e == |Encode(t)|
    requires w < |Encode(t)| ==> e <= w && !IsContinuation(Encode(t)[e])
    requires w < |Encode(t)| ==> forall q :: e < q <= w ==> IsContinuation(Encode(t)[q])
    ensures e <= |Encode(t)| && Encode(t)[..e] == Encode(t[..MaxFit(t, w)])
  {
    var k := MaxFit(t, w);
    EncodeSplit(t, k);
    if |Encode(t)| <= w {
      MaxFitWhole(t, w);
      assert t[..k] == t;
    } else {
      BackoffLands(t, w, e);
    }
  }

  /**
   * Shrinking a window end `w` one byte at a time until the bytes decode
   * strictly stops at the end of the greedy chunk, and what decodes is that
   * chunk.
   */
  lemma ShrinkLands(t: string, w: nat, e: nat)
    requires w < |Encode(t)| && e <= w
    requires Decode(Encode(t)[..e]).Some?
    requires forall q :: e < q <= w ==> Decode(Encode(t)[..q]).None?
    ensures e == |Encode(t[..MaxFit(t, w)])|
    ensures Decode(Encode(t)[..e]) == Some(t[..MaxFit(t, w)])
  {
    var k := MaxFit(t, w);
    ChunkEnds(t, w);
    AtBoundary(t, k);
    if |Encode(t[..k])| < e {
      InsideChar(t, k, e);
      assert false;
    }
  }

  /**
   * Where the shrink loop leaves the window end, in the loop's own terms: the
   * window first reaches `top` (the window size, or the end of the text when
   * that is nearer), and the end comes down to the first point, counting
   * down, where the bytes decode.  That point is the end of the greedy
   * chunk, at most three bytes below `top`.
   */
  lemma ShrinkWindowLands(t: string, w: nat, top: nat, e: nat)
    requires 4 <= w && t != []
    requires top == if |Encode(t)| <= w then |Encode(t)| else w
    requires e <= top && Decode(Encode(t)[..e]).Some?
    requires forall q :: e < q <= top ==> Decode(Encode(t)[..q]).None?
    ensures e == |Encode(t[..MaxFit(t, w)])| && Encode(t)[..e] == Encode(t[..MaxFit(t, w)])
    ensures Decode(Encode(t)[..e]) == Some(t[..MaxFit(t, w)])
    ensures top - e <= 3
  {
    var k := MaxFit(t, w);
    EncodeSplit(t, k);
    if |Encode(t)| <= w {
      MaxFitWhole(t, w);
      assert t[..k] == t;
      DecodeEncode(t);
      assert Encode(t)[..top] == Encode(t);
    } else {
      ShrinkLands(t, w, e);
      MaxFitIsLongest(t, w, |t|);
      assert t[..|t|] == t;
      MaxFitNearlyFull(t, w);
    }
  }

  /**
   * Once the byte position reaches the end of the bytes, which encode the
   * rest of the text, the chunks so far are all of them.
   */
  lemma AllChunked(text: string, t: string, w: nat, done: seq<string>, bytes: seq<Byte>, start: nat)
    requires 4 <= w && start == |bytes|
    requires bytes[start..] == Encode(t)
    requires done + GreedyChunks(t, w) == GreedyChunks(text, w)
    ensures done == GreedyChunks(text, w)
  {
    assert |Encode(t)| == 0;
    assert t == [];
    assert done + [] == done;
  }
}
