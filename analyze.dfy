/**
 * The front end of the TF-IDF similarity script: the character filter,
 * removal of fixed phrases, tokenization (jieba for Chinese, Sudachi in
 * byte-bounded windows for Japanese, stopwords dropped in both), and the
 * loop that keeps the documents with enough tokens.
 */
module Analyze {
  import opened Utf8
  import opened Wrappers
  import opened Chunking
  import opened FileNames
  import opened PyStrings
  import opened Corpus
  import opened Lex
  import opened SeqFacts

  /** `SUDACHI_LIMIT`: texts up to this many bytes go to Sudachi whole. */
  const SudachiLimit: nat := 49149

  /** Longer texts are cut into windows of this many bytes. */
  const Window: nat := SudachiLimit - 1000

  /** A document needs this many tokens to be kept. */
  const MinTokens: nat := 5

  // ---------------------------------------------------------------------
  // The character filter

  /**
   * The characters the filter deletes: ASCII digits and letters, fullwidth
   * letters, the listed CJK punctuation and quotation marks, and whitespace.
   */
  predicate IsMark(c: char) {
    || ('0' <= c <= '9') || ('a' <= c <= 'z') || ('A' <= c <= 'Z')
    || ('\U{FF41}' <= c <= '\U{FF5A}') || ('\U{FF21}' <= c <= '\U{FF3A}')
    || c in {'\U{3002}', '\U{3001}', '\U{FF0E}', '\U{30FB}', '\U{300C}', '\U{300D}',
             '\U{FF08}', '\U{FF09}', '\U{300E}', '\U{300F}', '\U{3010}', '\U{3011}',
             '\U{FF3B}', '\U{FF3D}', '\U{3008}', '\U{3009}', '\U{300A}', '\U{300B}',
             '\U{201C}', '\U{201D}', '\U{2018}', '\U{2019}', '\U{FF01}', '\U{FF1F}',
             '\U{FF0C}', '\U{FF1A}', '\U{FF1B}', '\U{2026}'}
    || IsSpace(c)
  }

  /** Deletes every mark, keeping the other characters. */
  function StripMarks(s: string): (r: string)
    ensures |r| <= |s|
    ensures forall c :: c in r <==> c in s && !IsMark(c)
  {
    if s == [] then []
    else
      assert forall c :: c in s <==> c == s[0] || c in s[1..];
      (if IsMark(s[0]) then [] else [s[0]]) + StripMarks(s[1..])
  }

  /** The filter works character by character, so it keeps the order of what it keeps. */
  lemma {:induction false} StripMarksAppend(a: string, b: string)
    ensures StripMarks(a + b) == StripMarks(a) + StripMarks(b)
  {
    if a != [] {
      assert (a + b)[0] == a[0] && (a + b)[1..] == a[1..] + b;
      StripMarksAppend(a[1..], b);
    } else {
      assert a + b == b;
    }
  }

  /** The filter leaves a text unchanged exactly when it holds no mark. */
  lemma {:induction false} StripMarksFixed(s: string)
    ensures StripMarks(s) == s <==> forall i :: 0 <= i < |s| ==> !IsMark(s[i])
  {
    if s != [] {
      if IsMark(s[0]) {
        assert |StripMarks(s)| < |s|;
      } else {
        StripMarksFixed(s[1..]);
        assert s == [s[0]] + s[1..];
        assert StripMarks(s) == [s[0]] + StripMarks(s[1..]);
        assert (forall i :: 0 <= i < |s| ==> !IsMark(s[i])) <==>
               (forall i :: 0 <= i < |s[1..]| ==> !IsMark(s[1..][i])) by {
          forall i | 0 <= i < |s[1..]| ensures s[1..][i] == s[i + 1] { }
          if forall i :: 0 <= i < |s[1..]| ==> !IsMark(s[1..][i]) {
            forall i | 0 <= i < |s| ensures !IsMark(s[i]) {
              if i > 0 {
                assert s[i] == s[1..][i - 1];
              }
            }
          }
        }
      }
    }
  }

  /** Filtering twice deletes nothing more. */
  lemma StripMarksIdempotent(s: string)
    ensures StripMarks(StripMarks(s)) == StripMarks(s)
  {
    var r := StripMarks(s);
    forall i | 0 <= i < |r| ensures !IsMark(r[i]) {
      assert r[i] in r;
    }
    StripMarksFixed(r);
  }

  // ---------------------------------------------------------------------
  // Fixed phrases

  /** Each phrase, in the order given, deleted everywhere from the text left by the earlier ones. */
  function RemovePhrases(t: string, phrases: seq<string>): (r: string)
    ensures |r| <= |t|
  {
    if phrases == [] then t
    else RemoveAll(RemovePhrases(t, phrases[..|phrases| - 1]), phrases[|phrases| - 1])
  }

  /**
   * `remove_skip_phrases`: the phrase set, listed in its iteration order,
   * removed one phrase after another.
   */
  method RemoveSkipPhrases(text: string, phrases: seq<string>) returns (r: string)
    ensures r == RemovePhrases(text, phrases)
  {
    r := text;
    for n := 0 to |phrases|
      invariant r == RemovePhrases(text, phrases[..n])
    {
      TakeOneMore(phrases, n);
      assert phrases[..n + 1][..n] == phrases[..n];
      r := RemoveAll(r, phrases[n]);
    }
    TakeAll(phrases);
  }

  /** A text in which no phrase occurs comes out unchanged; so does any text when there are no phrases. */
  lemma {:induction false} RemovePhrasesAbsent(t: string, phrases: seq<string>)
    requires forall p :: p in phrases ==> !Contains(t, p) || p == []
    ensures RemovePhrases(t, phrases) == t
  {
    if phrases != [] {
      var init := phrases[..|phrases| - 1];
      assert forall p :: p in init ==> p in phrases;
      RemovePhrasesAbsent(t, init);
      RemoveAbsent(t, phrases[|phrases| - 1]);
    }
  }

  /** A text in which the first phrase occurs comes out strictly shorter. */
  lemma {:induction false} RemovePhrasesShortens(t: string, phrases: seq<string>)
    requires phrases != [] && phrases[0] != [] && Contains(t, phrases[0])
    ensures |RemovePhrases(t, phrases)| < |t|
  {
    var init := phrases[..|phrases| - 1];
    if init == [] {
      assert RemovePhrases(t, init) == t;
      RemoveAllShortens(t, phrases[0]);
    } else {
      assert init[0] == phrases[0];
      RemovePhrasesShortens(t, init);
    }
  }

  // ---------------------------------------------------------------------
  // Stopwords

  /** The tokens that are not stopwords, in order. */
  function DropStopwords(ws: seq<string>, stopwords: set<string>): (r: seq<string>)
    ensures |r| <= |ws|
    ensures forall w :: w in r <==> w in ws && w !in stopwords
  {
    if ws == [] then []
    else
      var last := ws[|ws| - 1];
      assert forall w :: w in ws <==> w in ws[..|ws| - 1] || w == last;
      DropStopwords(ws[..|ws| - 1], stopwords) + (if last in stopwords then [] else [last])
  }

  /** The jieba tokens that are neither empty nor stopwords, in order. */
  function ChineseWords(ws: seq<string>, stopwords: set<string>): (r: seq<string>)
    ensures |r| <= |ws|
    ensures forall w :: w in r <==> w in ws && w != [] && w !in stopwords
  {
    if ws == [] then []
    else
      var last := ws[|ws| - 1];
      assert forall w :: w in ws <==> w in ws[..|ws| - 1] || w == last;
      ChineseWords(ws[..|ws| - 1], stopwords) + (if last != [] && last !in stopwords then [last] else [])
  }

  // ---------------------------------------------------------------------
  // Japanese tokenization in byte-bounded windows

  /**
   * The inputs Sudachi is given: the whole text when its encoding fits in
   * `SudachiLimit` bytes, otherwise the greedy chunks of `Window` bytes.
   */
  function SegmenterInputs(text: string): seq<string> {
    if |Encode(text)| <= SudachiLimit then [text] else GreedyChunks(text, Window)
  }

  /** The surfaces Sudachi finds in each input, stopwords dropped, in input order. */
  function ChunkSurfaces(chunks: seq<string>, surfaces: Segmenter, stopwords: set<string>): seq<string> {
    if chunks == [] then []
    else
      ChunkSurfaces(chunks[..|chunks| - 1], surfaces, stopwords)
        + DropStopwords(surfaces(chunks[|chunks| - 1]), stopwords)
  }

  /** What `tokenize_japanese_safely` returns. */
  function SafeTokens(text: string, surfaces: Segmenter, stopwords: set<string>): seq<string> {
    ChunkSurfaces(SegmenterInputs(text), surfaces, stopwords)
  }

  lemma ChunkSurfacesSnoc(done: seq<string>, chunk: string, surfaces: Segmenter, stopwords: set<string>)
    ensures ChunkSurfaces(done + [chunk], surfaces, stopwords) ==
      ChunkSurfaces(done, surfaces, stopwords) + DropStopwords(surfaces(chunk), stopwords)
  {
    assert (done + [chunk])[..|done|] == done;
  }

  /**
   * The inner loop: the window end comes down one byte at a time until the
   * bytes from `start` decode strictly.  An empty window always decodes, so
   * the loop stops.
   */
  method Shrink(bytes: seq<Byte>, start: nat, top: nat) returns (end: nat, chunk: string)
    requires start <= top <= |bytes|
    ensures start <= end <= top
    ensures Decode(bytes[start..end]) == Some(chunk)
    ensures forall q :: end < q <= top ==> Decode(bytes[start..q]).None?
  {
    end := top;
    var decoded := Decode(bytes[start..end]);
    while decoded.None?
      invariant start <= end <= top
      invariant decoded == Decode(bytes[start..end])
      invariant end == start ==> decoded.Some?
      invariant forall q :: end < q <= top ==> Decode(bytes[start..q]).None?
      decreases end - start
    {
      FailsDown(bytes, start, end, top);
      end := end - 1;
      decoded := Decode(bytes[start..end]);
      if end == start {
        EmptyDecodes(bytes[start..end]);
      }
    }
    chunk := decoded.value;
  }

  /** A window end that fails to decode joins the failing ends above it. */
  lemma FailsDown(bytes: seq<Byte>, start: nat, end: nat, top: nat)
    requires start < end <= top <= |bytes|
    requires Decode(bytes[start..end]).None?
    requires forall q :: end < q <= top ==> Decode(bytes[start..q]).None?
    ensures forall q :: end - 1 < q <= top ==> Decode(bytes[start..q]).None?
  {
  }

  lemma EmptyDecodes(b: seq<Byte>)
    requires b == []
    ensures Decode(b) == Some([])
  {
  }

  /**
   * One window of the outer loop, cut at byte `start`, where the bytes of
   * the rest `t` of the text begin: it reaches `top`, the inner loop takes
   * at most three bytes off it, and what decodes is the next greedy chunk.
   */
  lemma ShrinkStep(t: string, bytes: seq<Byte>, start: nat, top: nat, end: nat, chunk: string, w: nat)
    requires 4 <= w
    requires start < |bytes| && bytes[start..] == Encode(t)
    requires top == if start + w < |bytes| then start + w else |bytes|
    requires start <= end <= top && Decode(bytes[start..end]) == Some(chunk)
    requires forall q :: end < q <= top ==> Decode(bytes[start..q]).None?
    ensures t != [] && start < end
    ensures chunk == t[..MaxFit(t, w)]
    ensures bytes[start..end] == Encode(chunk)
    ensures bytes[end..] == Encode(t[MaxFit(t, w)..])
    ensures top - end <= 3
  {
    var e := end - start;
    assert |Encode(t)| > 0;
    forall q | e < q <= top - start ensures Decode(Encode(t)[..q]).None? {
      SuffixSlice(bytes, start, q);
    }
    SuffixSlice(bytes, start, e);
    ShrinkWindowLands(t, w, top - start, e);
    ChunkAdvance(t, w);
    SuffixParts(bytes, start, end, Encode(t[..MaxFit(t, w)]), Encode(t[MaxFit(t, w)..]));
    DecodeEncode(t[..MaxFit(t, w)]);
  }

  /**
   * One window of the long-text loop: `w` bytes from `start` (or up to the
   * end), shrunk until they decode.  In terms of the characters, that is
   * the next greedy chunk of the rest `t`, and `rest` is what follows it.
   */
  method NextWindow(bytes: seq<Byte>, start: nat, w: nat, ghost text: string, ghost t: string, ghost done: seq<string>)
    returns (end: nat, chunk: string, ghost rest: string)
    requires 4 <= w
    requires start < |bytes| && bytes[start..] == Encode(t)
    requires done + GreedyChunks(t, w) == GreedyChunks(text, w)
    ensures start < end <= |bytes|
    ensures chunk == t[..MaxFit(t, w)] && rest == t[MaxFit(t, w)..]
    ensures bytes[end..] == Encode(rest)
    ensures (done + [chunk]) + GreedyChunks(rest, w) == GreedyChunks(text, w)
  {
    var top := if start + w < |bytes| then start + w else |bytes|;
    end, chunk := Shrink(bytes, start, top);
    ShrinkStep(t, bytes, start, top, end, chunk, w);
    rest := t[MaxFit(t, w)..];
    ChunksSoFar(text, t, w, done);
  }

  /**
   * `tokens.extend(...)`: appends the surfaces of one chunk that are not
   * stopwords; after the chunks `done`, that gives the tokens of `done`
   * followed by `chunk`.
   */
  method ExtendSurfaces(tokens: seq<string>, chunk: string, surfaces: Segmenter, stopwords: set<string>,
                        ghost done: seq<string>)
    returns (r: seq<string>)
    requires tokens == ChunkSurfaces(done, surfaces, stopwords)
    ensures r == ChunkSurfaces(done + [chunk], surfaces, stopwords)
  {
    var words := surfaces(chunk);
    r := tokens;
    ghost var added: seq<string> := [];
    var j := 0;
    while j < |words|
      invariant j <= |words|
      invariant added == DropStopwords(words[..j], stopwords)
      invariant r == tokens + added
    {
      DropStopwordsSnoc(words, j, stopwords);
      if words[j] !in stopwords {
        AppendSnoc(tokens, added, words[j]);
        r := r + [words[j]];
        added := added + [words[j]];
      }
      j := j + 1;
    }
    TakeAll(words);
    ChunkSurfacesSnoc(done, chunk, surfaces, stopwords);
  }

  /** Filtering one more word adds it, unless it is a stopword. */
  lemma DropStopwordsSnoc(words: seq<string>, j: nat, stopwords: set<string>)
    requires j < |words|
    ensures DropStopwords(words[..j + 1], stopwords) ==
      DropStopwords(words[..j], stopwords) + (if words[j] in stopwords then [] else [words[j]])
  {
    assert words[..j + 1][..j] == words[..j];
  }

  /**
   * The long-text path: windows of `w` bytes, each starting where the
   * previous one ended, each shrunk until it decodes, each decoded window
   * handed to Sudachi.  The inputs Sudachi sees are the greedy chunks.
   */
  method WindowedSurfaces(text: string, w: nat, surfaces: Segmenter, stopwords: set<string>)
    returns (tokens: seq<string>)
    requires 4 <= w
    ensures tokens == ChunkSurfaces(GreedyChunks(text, w), surfaces, stopwords)
  {
    var bytes := Encode(text);
    tokens := [];
    var start := 0;
    ghost var rest := text;
    ghost var done: seq<string> := [];
    while start < |bytes|
      invariant start <= |bytes|
      invariant bytes[start..] == Encode(rest)
      invariant done + GreedyChunks(rest, w) == GreedyChunks(text, w)
      invariant tokens == ChunkSurfaces(done, surfaces, stopwords)
      decreases |bytes| - start
    {
      var end, chunk, next := NextWindow(bytes, start, w, text, rest, done);
      tokens := ExtendSurfaces(tokens, chunk, surfaces, stopwords, done);
      done := done + [chunk];
      rest := next;
      start := end;
    }
    AllChunked(text, rest, w, done, bytes, start);
  }

  /** `tokenize_japanese_safely`. */
  method TokenizeJapaneseSafely(text: string, surfaces: Segmenter, stopwords: set<string>)
    returns (tokens: seq<string>)
    ensures tokens == SafeTokens(text, surfaces, stopwords)
  {
    var bytes := Encode(text);
    if |bytes| <= SudachiLimit {
      tokens := DropStopwords(surfaces(text), stopwords);
      ChunkSurfacesSnoc([], text, surfaces, stopwords);
      assert [] + [text] == [text];
    } else {
      tokens := WindowedSurfaces(text, Window, surfaces, stopwords);
    }
  }

  /** A text that needs more than one greedy chunk. */
  lemma TwoChunksAtLeast(t: string, w: nat)
    requires 4 <= w && w < |Encode(t)|
    ensures |GreedyChunks(t, w)| >= 2
  {
    var k := MaxFit(t, w);
    assert t[..|t|] == t;
    MaxFitIsLongest(t, w, |t|);
    assert t[k..] != [];
  }

  /**
   * What Sudachi sees: the whole text, once, when it fits in the limit;
   * otherwise at least two non-empty inputs, each within the window, that
   * laid end to end give the text back, as characters and as bytes.
   */
  lemma SegmenterInputsMeaning(text: string)
    ensures |Encode(text)| <= SudachiLimit ==> SegmenterInputs(text) == [text]
    ensures SudachiLimit < |Encode(text)| ==>
      var inputs := SegmenterInputs(text);
      && |inputs| >= 2
      && Concat(inputs) == text
      && ConcatBytes(inputs) == Encode(text)
      && forall j :: 0 <= j < |inputs| ==> inputs[j] != [] && |Encode(inputs[j])| <= Window
  {
    if SudachiLimit < |Encode(text)| {
      TwoChunksAtLeast(text, Window);
      GreedyTiles(text, Window);
      GreedyBytesTile(text, Window);
      GreedyChunksFit(text, Window);
    }
  }

  /** The windowed path would give the same tokens for a text that fits in one window. */
  lemma ShortPathAgrees(text: string, surfaces: Segmenter, stopwords: set<string>)
    requires text != [] && |Encode(text)| <= Window
    ensures SafeTokens(text, surfaces, stopwords) ==
      ChunkSurfaces(GreedyChunks(text, Window), surfaces, stopwords)
  {
    SingleChunk(text, Window);
  }

  /** No token is a stopword. */
  lemma {:induction false} ChunkSurfacesNoStopwords(chunks: seq<string>, surfaces: Segmenter, stopwords: set<string>)
    ensures forall w :: w in ChunkSurfaces(chunks, surfaces, stopwords) ==> w !in stopwords
  {
    if chunks != [] {
      ChunkSurfacesNoStopwords(chunks[..|chunks| - 1], surfaces, stopwords);
    }
  }

  // ---------------------------------------------------------------------
  // `preprocess_and_tokenize`

  /** The text after the character filter and the phrase removal. */
  function Prepared(text: string, phrases: seq<string>): string {
    RemovePhrases(StripMarks(text), phrases)
  }

  /** The tokens of a text in a language. */
  function Tokenized(text: string, lang: Language, phrases: seq<string>, cut: Segmenter,
                     surfaces: Segmenter, stopwords: set<string>): seq<string>
  {
    var t := Prepared(text, phrases);
    if lang == Chinese then ChineseWords(cut(t), stopwords) else SafeTokens(t, surfaces, stopwords)
  }

  method PreprocessAndTokenize(text: string, lang: Language, phrases: seq<string>, cut: Segmenter,
                               surfaces: Segmenter, stopwords: set<string>)
    returns (tokens: seq<string>)
    ensures tokens == Tokenized(text, lang, phrases, cut, surfaces, stopwords)
  {
    var t := StripMarks(text);
    t := RemoveSkipPhrases(t, phrases);
    if lang == Chinese {
      tokens := ChineseWords(cut(t), stopwords);
    } else {
      tokens := TokenizeJapaneseSafely(t, surfaces, stopwords);
    }
  }

  /** In either language no token is a stopword, and no Chinese token is empty. */
  lemma TokenizedNoStopwords(text: string, lang: Language, phrases: seq<string>, cut: Segmenter,
                             surfaces: Segmenter, stopwords: set<string>)
    ensures forall w :: w in Tokenized(text, lang, phrases, cut, surfaces, stopwords) ==> w !in stopwords
    ensures lang == Chinese ==> [] !in Tokenized(text, lang, phrases, cut, surfaces, stopwords)
  {
    ChunkSurfacesNoStopwords(SegmenterInputs(Prepared(text, phrases)), surfaces, stopwords);
  }

  // ---------------------------------------------------------------------
  // The document loop of `main`

  /** How `main` ends. */
  datatype Outcome =
    | MissingCorpus
    | NoTextFiles
    | NoUsableDocuments
    | Ready(rawDocs: seq<string>, filenames: seq<string>)

  function NameOf(d: Document): string {
    d.name
  }

  function First(e: (string, seq<string>)): string {
    e.0
  }

  /** The `.txt` files of the listing, sorted by name. */
  function CorpusFiles(files: seq<Document>): seq<Document> {
    SortBy(TxtFiles(files), NameOf)
  }

  /** Each file's name and tokens, in the language its name indicates. */
  function Entries(docs: seq<Document>, phrases: seq<string>, cut: Segmenter, surfaces: Segmenter,
                   stopwords: set<string>): (r: seq<(string, seq<string>)>)
    ensures |r| == |docs|
  {
    seq(|docs|, i requires 0 <= i < |docs| =>
      (docs[i].name, Tokenized(docs[i].text, DetectLanguageLoose(docs[i].name), phrases, cut, surfaces, stopwords)))
  }

  /** The entries with at least MinTokens tokens, in order. */
  function Kept(entries: seq<(string, seq<string>)>): seq<(string, seq<string>)> {
    if entries == [] then []
    else
      var e := entries[|entries| - 1];
      Kept(entries[..|entries| - 1]) + (if |e.1| >= MinTokens then [e] else [])
  }

  /** The kept documents as `" ".join(tokens)`. */
  function RawDocs(kept: seq<(string, seq<string>)>): (r: seq<string>)
    ensures |r| == |kept|
  {
    seq(|kept|, i requires 0 <= i < |kept| => Join(" ", kept[i].1))
  }

  /** The names of the kept documents. */
  function Names(kept: seq<(string, seq<string>)>): (r: seq<string>)
    ensures |r| == |kept|
  {
    seq(|kept|, i requires 0 <= i < |kept| => kept[i].0)
  }

  /** What `main` computes from a directory listing (`None` when the directory is missing). */
  function Collect(listing: Option<seq<Document>>, phrases: seq<string>, cut: Segmenter,
                   surfaces: Segmenter, stopwords: set<string>): Outcome
  {
    if listing.None? then MissingCorpus
    else if CorpusFiles(listing.value) == [] then NoTextFiles
    else
      var kept := Kept(Entries(CorpusFiles(listing.value), phrases, cut, surfaces, stopwords));
      if kept == [] then NoUsableDocuments else Ready(RawDocs(kept), Names(kept))
  }

  lemma KeptSnoc(entries: seq<(string, seq<string>)>, e: (string, seq<string>))
    ensures Kept(entries + [e]) == Kept(entries) + (if |e.1| >= MinTokens then [e] else [])
  {
    assert (entries + [e])[..|entries|] == entries;
  }

  lemma Grow(kept: seq<(string, seq<string>)>, e: (string, seq<string>))
    ensures RawDocs(kept + [e]) == RawDocs(kept) + [Join(" ", e.1)]
    ensures Names(kept + [e]) == Names(kept) + [e.0]
  {
  }

  /**
   * `main` up to the TF-IDF step: each `.txt` file, in name order, is
   * tokenized in the language its name indicates; a file with fewer than
   * MinTokens tokens is skipped, any other adds its joined tokens to
   * `raw_docs` and its name to `filenames`.
   */
  method CollectDocuments(listing: Option<seq<Document>>, phrases: seq<string>, cut: Segmenter,
                          surfaces: Segmenter, stopwords: set<string>)
    returns (outcome: Outcome)
    ensures outcome == Collect(listing, phrases, cut, surfaces, stopwords)
  {
    if listing.None? {
      return MissingCorpus;
    }
    var corpusFiles := SortBy(TxtFiles(listing.value), NameOf);
    if |corpusFiles| == 0 {
      return NoTextFiles;
    }
    ghost var entries := Entries(corpusFiles, phrases, cut, surfaces, stopwords);
    ghost var kept: seq<(string, seq<string>)> := [];
    var rawDocs: seq<string> := [];
    var filenames: seq<string> := [];
    for n := 0 to |corpusFiles|
      invariant kept == Kept(entries[..n])
      invariant rawDocs == RawDocs(kept) && filenames == Names(kept)
    {
      var d := corpusFiles[n];
      var lang := DetectLanguageLoose(d.name);
      var tokens := PreprocessAndTokenize(d.text, lang, phrases, cut, surfaces, stopwords);
      TakeOneMore(entries, n);
      assert entries[n] == (d.name, tokens);
      KeptSnoc(entries[..n], (d.name, tokens));
      if |tokens| >= MinTokens {
        Grow(kept, (d.name, tokens));
        rawDocs := rawDocs + [Join(" ", tokens)];
        filenames := filenames + [d.name];
        kept := kept + [(d.name, tokens)];
      }
    }
    TakeAll(entries);
    if |rawDocs| == 0 {
      return NoUsableDocuments;
    }
    return Ready(rawDocs, filenames);
  }

  /** An entry is kept exactly when it has at least MinTokens tokens. */
  lemma {:induction false} KeptMembership(entries: seq<(string, seq<string>)>, e: (string, seq<string>))
    ensures e in Kept(entries) <==> e in entries && |e.1| >= MinTokens
  {
    if entries != [] {
      var init := entries[..|entries| - 1];
      var last := entries[|entries| - 1];
      assert entries == init + [last];
      KeptMembership(init, e);
    }
  }

  /** Keeping some entries keeps them in the order of their names. */
  lemma {:induction false} KeptSorted(entries: seq<(string, seq<string>)>)
    requires SortedBy(entries, First)
    ensures SortedBy(Kept(entries), First)
  {
    if entries != [] {
      var init := entries[..|entries| - 1];
      var last := entries[|entries| - 1];
      assert SortedBy(init, First);
      KeptSorted(init);
      forall x | x in Kept(init) ensures LessEq(x.0, last.0) {
        KeptMembership(init, x);
        var j :| 0 <= j < |init| && init[j] == x;
        assert entries[j] == x;
      }
    }
  }

  lemma EntriesSorted(docs: seq<Document>, phrases: seq<string>, cut: Segmenter, surfaces: Segmenter,
                      stopwords: set<string>)
    requires SortedBy(docs, NameOf)
    ensures SortedBy(Entries(docs, phrases, cut, surfaces, stopwords), First)
  {
    var entries := Entries(docs, phrases, cut, surfaces, stopwords);
    forall i, j | 0 <= i < j < |entries| ensures LessEq(First(entries[i]), First(entries[j])) {
      assert First(entries[i]) == NameOf(docs[i]) && First(entries[j]) == NameOf(docs[j]);
    }
  }

  /** The i-th kept document is the joined tokens of a long enough entry bearing the i-th name. */
  lemma KeptAligned(entries: seq<(string, seq<string>)>, i: nat)
    requires i < |Kept(entries)|
    ensures exists j :: (0 <= j < |entries| && entries[j].0 == Names(Kept(entries))[i]
      && |entries[j].1| >= MinTokens && RawDocs(Kept(entries))[i] == Join(" ", entries[j].1))
  {
    var kept := Kept(entries);
    assert kept[i] in kept;
    KeptMembership(entries, kept[i]);
    var j :| 0 <= j < |entries| && entries[j] == kept[i];
  }

  /** The corpus files are the `.txt` files of the listing, in name order. */
  lemma CorpusFilesMeaning(files: seq<Document>)
    ensures forall d :: d in CorpusFiles(files) <==> d in files && EndsWith(d.name, ".txt")
    ensures SortedBy(CorpusFiles(files), NameOf)
  {
    SortBySorted(TxtFiles(files), NameOf);
    forall d ensures d in CorpusFiles(files) <==> d in TxtFiles(files) {
      assert d in CorpusFiles(files) <==> d in multiset(CorpusFiles(files));
      assert d in TxtFiles(files) <==> d in multiset(TxtFiles(files));
    }
  }

  lemma NamesSorted(kept: seq<(string, seq<string>)>)
    requires SortedBy(kept, First)
    ensures SortedBy(Names(kept), Id)
  {
    forall i, j | 0 <= i < j < |kept| ensures LessEq(Id(Names(kept)[i]), Id(Names(kept)[j])) {
      assert LessEq(First(kept[i]), First(kept[j]));
    }
  }

  /** The i-th entry is the i-th document's name and tokens. */
  lemma EntryAt(docs: seq<Document>, phrases: seq<string>, cut: Segmenter, surfaces: Segmenter,
                stopwords: set<string>, j: nat)
    requires j < |docs|
    ensures Entries(docs, phrases, cut, surfaces, stopwords)[j] ==
      (docs[j].name, Tokenized(docs[j].text, DetectLanguageLoose(docs[j].name), phrases, cut, surfaces, stopwords))
  {
  }

  /**
   * When `main` reaches the TF-IDF step, `raw_docs` and `filenames` are
   * index-aligned: the i-th document is the joined tokens of the `.txt` file
   * named i-th, that file has at least MinTokens tokens, and the names are
   * in order.
   */
  lemma ReadyMeaning(listing: Option<seq<Document>>, phrases: seq<string>, cut: Segmenter,
                     surfaces: Segmenter, stopwords: set<string>, i: nat)
    requires Collect(listing, phrases, cut, surfaces, stopwords).Ready?
    ensures var outcome := Collect(listing, phrases, cut, surfaces, stopwords);
      && listing.Some?
      && |outcome.rawDocs| == |outcome.filenames| > 0
      && SortedBy(outcome.filenames, Id)
      && (i < |outcome.filenames| ==>
            exists d :: d in listing.value && EndsWith(d.name, ".txt") && d.name == outcome.filenames[i]
              && |Tokenized(d.text, DetectLanguageLoose(d.name), phrases, cut, surfaces, stopwords)| >= MinTokens
              && outcome.rawDocs[i] == Join(" ", Tokenized(d.text, DetectLanguageLoose(d.name), phrases, cut, surfaces, stopwords)))
  {
    var files := CorpusFiles(listing.value);
    var entries := Entries(files, phrases, cut, surfaces, stopwords);
    CorpusFilesMeaning(listing.value);
    EntriesSorted(files, phrases, cut, surfaces, stopwords);
    KeptSorted(entries);
    NamesSorted(Kept(entries));
    if i < |Kept(entries)| {
      KeptAligned(entries, i);
      var j :| 0 <= j < |entries| && entries[j].0 == Names(Kept(entries))[i]
        && |entries[j].1| >= MinTokens && RawDocs(Kept(entries))[i] == Join(" ", entries[j].1);
      EntryAt(files, phrases, cut, surfaces, stopwords, j);
      assert files[j] in files;
    }
  }

  /** `main` stops early exactly when the directory is missing, or holds no `.txt` file. */
  lemma EarlyStops(listing: Option<seq<Document>>, phrases: seq<string>, cut: Segmenter,
                   surfaces: Segmenter, stopwords: set<string>)
    ensures Collect(listing, phrases, cut, surfaces, stopwords) == MissingCorpus <==> listing.None?
    ensures Collect(listing, phrases, cut, surfaces, stopwords) == NoTextFiles <==>
      listing.Some? && forall d :: d in listing.value ==> !EndsWith(d.name, ".txt")
  {
    if listing.Some? {
      CorpusFilesMeaning(listing.value);
      var files := CorpusFiles(listing.value);
      if files != [] {
        assert files[0] in files;
      }
    }
  }
}
