/**
 * The embedding-training script: text cleaning, tokenization (jieba for
 * Chinese, Sudachi in byte-bounded chunks for Japanese) and the split of the
 * corpus into the two training sets.  The segmenters are parameters: `cut`
 * stands for `jieba.cut`, `dictForms` for the dictionary forms of the
 * morphemes Sudachi finds in one chunk (split mode C).
 */
module Word2Vec {
  import opened Utf8
  import opened Wrappers
  import opened Chunking
  import opened FileNames
  import opened PyStrings
  import opened Corpus
  import opened SeqFacts

  /** Documents with fewer tokens than this are not used for training. */
  const MinCount: nat := 3

  /** The largest input, in UTF-8 bytes, handed to Sudachi at once. */
  const SudachiLimit: nat := 49149

  // ---------------------------------------------------------------------
  // Cleaning

  /** The characters cleaning keeps: CJK ideographs, extension A, hiragana and katakana. */
  predicate IsKept(c: char) {
    || ('\U{4E00}' <= c <= '\U{9FA5}')
    || ('\U{3040}' <= c <= '\U{30FF}')
    || ('\U{3400}' <= c <= '\U{9FFF}')
  }

  /** Every other character becomes a blank. */
  function MaskForeign(s: string): (r: string)
    ensures |r| == |s|
  {
    if s == [] then [] else [if IsKept(s[0]) then s[0] else ' '] + MaskForeign(s[1..])
  }

  /** Every run of whitespace becomes one blank. */
  function CollapseSpaces(s: string): (r: string)
    ensures s == [] <==> r == []
    ensures s != [] ==> (IsSpace(r[0]) <==> IsSpace(s[0]))
    decreases |s|
  {
    if s == [] then []
    else if IsSpace(s[0]) then [' '] + CollapseSpaces(TrimStart(s[1..]))
    else [s[0]] + CollapseSpaces(s[1..])
  }

  /** The cleaning of every document before tokenization. */
  function CleanText(s: string): string {
    Strip(CollapseSpaces(MaskForeign(s)))
  }

  /** The kept characters of `s`, in order. */
  function KeptChars(s: string): string {
    if s == [] then [] else (if IsKept(s[0]) then [s[0]] else []) + KeptChars(s[1..])
  }

  predicate KeptOrBlank(s: string) {
    forall i :: 0 <= i < |s| ==> IsKept(s[i]) || s[i] == ' '
  }

  predicate NoDoubleSpace(s: string) {
    forall i, j :: 0 <= i < |s| && 0 <= j < |s| && j == i + 1 ==> !(IsSpace(s[i]) && IsSpace(s[j]))
  }

  /** What a cleaned text looks like: kept characters separated by single blanks, none at either end. */
  predicate IsClean(s: string) {
    && KeptOrBlank(s)
    && NoDoubleSpace(s)
    && (s != [] ==> !IsSpace(s[0]) && !IsSpace(s[|s| - 1]))
  }

  lemma SpaceNotKept(c: char)
    requires IsSpace(c)
    ensures !IsKept(c)
  {
  }

  lemma {:induction false} KeptAppend(a: string, b: string)
    ensures KeptChars(a + b) == KeptChars(a) + KeptChars(b)
  {
    if a == [] {
      assert a + b == b;
    } else {
      var head := if IsKept(a[0]) then [a[0]] else [];
      assert (a + b)[0] == a[0] && (a + b)[1..] == a[1..] + b;
      KeptAppend(a[1..], b);
      calc {
        KeptChars(a + b);
        head + KeptChars(a[1..] + b);
        head + (KeptChars(a[1..]) + KeptChars(b));
        (head + KeptChars(a[1..])) + KeptChars(b);
      }
    }
  }

  /** Dropping whitespace never drops a kept character. */
  lemma {:induction false} KeptOfSpaces(s: string)
    requires forall i :: 0 <= i < |s| ==> IsSpace(s[i])
    ensures KeptChars(s) == []
  {
    if s != [] {
      SpaceNotKept(s[0]);
      KeptOfSpaces(s[1..]);
    }
  }

  lemma KeptTrimStart(s: string)
    ensures KeptChars(TrimStart(s)) == KeptChars(s)
  {
    var r := TrimStart(s);
    var k := |s| - |r|;
    SplitAt(s, k);
    forall i | 0 <= i < k ensures IsSpace(s[..k][i]) {
      assert s[..k][i] == s[i];
    }
    KeptOfSpaces(s[..k]);
    KeptAppend(s[..k], s[k..]);
  }

  lemma KeptTrimEnd(s: string)
    ensures KeptChars(TrimEnd(s)) == KeptChars(s)
  {
    var r := TrimEnd(s);
    var k := |r|;
    SplitAt(s, k);
    forall i | 0 <= i < |s| - k ensures IsSpace(s[k..][i]) {
      assert s[k..][i] == s[k + i];
    }
    KeptOfSpaces(s[k..]);
    KeptAppend(s[..k], s[k..]);
  }

  lemma {:induction false} KeptMask(s: string)
    ensures KeptChars(MaskForeign(s)) == KeptChars(s)
  {
    if s != [] {
      KeptMask(s[1..]);
    }
  }

  lemma {:induction false} KeptCollapse(s: string)
    ensures KeptChars(CollapseSpaces(s)) == KeptChars(s)
    decreases |s|
  {
    if s != [] && IsSpace(s[0]) {
      var t := TrimStart(s[1..]);
      var rest := CollapseSpaces(t);
      KeptCollapse(t);
      KeptTrimStart(s[1..]);
      KeptCons(' ', rest);
      KeptCons(s[0], s[1..]);
      assert KeptChars(rest) == KeptChars(s[1..]);
    } else if s != [] {
      var rest := CollapseSpaces(s[1..]);
      KeptCollapse(s[1..]);
      KeptCons(s[0], rest);
      KeptCons(s[0], s[1..]);
    }
  }

  lemma KeptCons(c: char, s: string)
    ensures KeptChars([c] + s) == (if IsKept(c) then [c] else []) + KeptChars(s)
  {
    assert ([c] + s)[0] == c && ([c] + s)[1..] == s;
  }

  lemma {:induction false} MaskShape(s: string)
    ensures KeptOrBlank(MaskForeign(s))
  {
    if s != [] {
      MaskShape(s[1..]);
    }
  }

  lemma {:induction false} CollapseShape(s: string)
    requires KeptOrBlank(s)
    ensures KeptOrBlank(CollapseSpaces(s))
    ensures NoDoubleSpace(CollapseSpaces(s))
    decreases |s|
  {
    if s != [] {
      var r := CollapseSpaces(s);
      if IsSpace(s[0]) {
        var t := TrimStart(s[1..]);
        assert t == s[1..][|s[1..]| - |t|..];
        assert KeptOrBlank(t) by {
          forall i | 0 <= i < |t| ensures IsKept(t[i]) || t[i] == ' ' {
            assert t[i] == s[1 + |s[1..]| - |t| + i];
          }
        }
        CollapseShape(t);
        assert r == [' '] + CollapseSpaces(t);
      } else {
        CollapseShape(s[1..]);
        assert r == [s[0]] + CollapseSpaces(s[1..]);
      }
    }
  }

  /** A slice of a text of kept characters and single blanks is one too. */
  lemma SuffixShape(s: string, a: nat)
    requires a <= |s|
    requires KeptOrBlank(s) && NoDoubleSpace(s)
    ensures KeptOrBlank(s[a..]) && NoDoubleSpace(s[a..])
  {
    assert forall i :: 0 <= i < |s[a..]| ==> s[a..][i] == s[a + i];
  }

  lemma PrefixShape(s: string, b: nat)
    requires b <= |s|
    requires KeptOrBlank(s) && NoDoubleSpace(s)
    ensures KeptOrBlank(s[..b]) && NoDoubleSpace(s[..b])
  {
    assert forall i :: 0 <= i < b ==> s[..b][i] == s[i];
  }

  lemma StripShape(s: string)
    requires KeptOrBlank(s) && NoDoubleSpace(s)
    ensures IsClean(Strip(s))
  {
    var t := TrimStart(s);
    SuffixShape(s, |s| - |t|);
    var r := TrimEnd(t);
    assert r == t[..|r|];
    PrefixShape(t, |r|);
    if r != [] {
      assert r[0] == t[0] && !IsSpace(t[0]);
      assert !IsSpace(r[|r| - 1]);
    }
  }

  /** A cleaned text holds only kept characters and single inner blanks, and keeps every kept character in order. */
  lemma CleanTextShape(s: string)
    ensures IsClean(CleanText(s))
    ensures KeptChars(CleanText(s)) == KeptChars(s)
  {
    var m := MaskForeign(s);
    var c := CollapseSpaces(m);
    MaskShape(s);
    CollapseShape(m);
    StripShape(c);
    KeptMask(s);
    KeptCollapse(m);
    KeptTrimStart(c);
    KeptTrimEnd(TrimStart(c));
  }

  lemma {:induction false} MaskClean(s: string)
    requires KeptOrBlank(s)
    ensures MaskForeign(s) == s
  {
    if s != [] {
      MaskClean(s[1..]);
    }
  }

  lemma {:induction false} CollapseClean(s: string)
    requires KeptOrBlank(s) && NoDoubleSpace(s)
    ensures CollapseSpaces(s) == s
    decreases |s|
  {
    if s != [] {
      if IsSpace(s[0]) {
        assert s[0] == ' ';
        if |s| > 1 {
          assert !IsSpace(s[1..][0]);
        }
        assert TrimStart(s[1..]) == s[1..];
      }
      CollapseClean(s[1..]);
    }
  }

  /** Cleaning leaves a text alone exactly when it is already clean; in particular it is idempotent. */
  lemma CleanTextFixed(s: string)
    ensures CleanText(s) == s <==> IsClean(s)
  {
    if IsClean(s) {
      MaskClean(s);
      CollapseClean(s);
      assert TrimStart(s) == s;
      assert TrimEnd(s) == s;
    } else {
      CleanTextShape(s);
    }
  }

  lemma CleanTextIdempotent(s: string)
    ensures CleanText(CleanText(s)) == CleanText(s)
  {
    CleanTextShape(s);
    CleanTextFixed(CleanText(s));
  }

  // ---------------------------------------------------------------------
  // Tokenization

  /** The tokenizer drops empty dictionary forms and lone blanks. */
  predicate KeepWord(w: string) {
    w != [] && w != " "
  }

  /** The dictionary forms the tokenizer keeps, in order. */
  function KeptWords(ws: seq<string>): (r: seq<string>)
    ensures |r| <= |ws|
    ensures forall w :: w in r <==> w in ws && KeepWord(w)
  {
    if ws == [] then []
    else
      var last := ws[|ws| - 1];
      KeptWords(ws[..|ws| - 1]) + (if KeepWord(last) then [last] else [])
  }

  /** The tokens of a sequence of Sudachi inputs, one after the other. */
  function ChunkWords(chunks: seq<string>, dictForms: Segmenter): seq<string> {
    if chunks == [] then []
    else ChunkWords(chunks[..|chunks| - 1], dictForms) + KeptWords(dictForms(chunks[|chunks| - 1]))
  }

  /** The tokens of one document in the given language. */
  function DocumentTokens(text: string, lang: Language, cut: Segmenter, dictForms: Segmenter): seq<string> {
    var cleaned := CleanText(text);
    if lang == Chinese then cut(cleaned)
    else ChunkWords(GreedyChunks(cleaned, SudachiLimit), dictForms)
  }

  /**
   * Moves a window end back while it points at a continuation byte (tested
   * with the mask `& 0b11000000 == 0b10000000`), so that the window ends on a
   * character boundary.  The byte at `start` must begin a character.
   */
  method BackOff(bytes: seq<Byte>, start: nat, top: nat) returns (end: nat)
    requires start < top <= |bytes| && !IsContinuation(bytes[start])
    ensures start <= end <= top
    ensures top == |bytes| ==> end == top
    ensures end < |bytes| ==> !IsContinuation(bytes[end])
    ensures forall q :: end < q <= top && q < |bytes| ==> IsContinuation(bytes[q])
  {
    end := top;
    while end < |bytes| && (bytes[end] as bv8) & 0xC0 == 0x80
      invariant start <= end <= top
      invariant top == |bytes| ==> end == top
      invariant forall q :: end < q <= top && q < |bytes| ==> IsContinuation(bytes[q])
      decreases end
    {
      ContinuationMask(bytes[end]);
      end := end - 1;
    }
    if end < |bytes| {
      ContinuationMask(bytes[end]);
    }
  }

  /** Appends the dictionary forms of one chunk that are neither empty nor a lone blank. */
  method AppendKept(tokens: seq<string>, forms: seq<string>) returns (r: seq<string>)
    ensures r == tokens + KeptWords(forms)
  {
    r := tokens;
    ghost var added: seq<string> := [];
    var j := 0;
    while j < |forms|
      invariant j <= |forms|
      invariant added == KeptWords(forms[..j])
      invariant r == tokens + added
    {
      var word := forms[j];
      assert forms[..j + 1][..j] == forms[..j];
      if word != [] && word != " " {
        AppendSnoc(tokens, added, word);
        r := r + [word];
        added := added + [word];
      }
      j := j + 1;
    }
    assert forms[..|forms|] == forms;
  }

  lemma ChunkWordsSnoc(done: seq<string>, chunk: string, dictForms: Segmenter)
    ensures ChunkWords(done + [chunk], dictForms) == ChunkWords(done, dictForms) + KeptWords(dictForms(chunk))
  {
    assert (done + [chunk])[..|done|] == done;
  }

  /**
   * The window the loop cuts at byte `start`, where the bytes of the rest
   * `t` of the text begin, holds the next greedy chunk of `t`.
   */
  lemma WindowStep(t: string, bytes: seq<Byte>, start: nat, end: nat, limit: nat)
    requires 4 <= limit
    requires start < |bytes| && bytes[start..] == Encode(t)
    requires start <= end <= |bytes| && (end == |bytes| || !IsContinuation(bytes[end]))
    requires start + limit >= |bytes| ==> end == |bytes|
    requires start + limit < |bytes| ==>
      end <= start + limit && forall q :: end < q <= start + limit ==> IsContinuation(bytes[q])
    ensures t != [] && start < end
    ensures bytes[start..end] == Encode(t[..MaxFit(t, limit)])
    ensures bytes[end..] == Encode(t[MaxFit(t, limit)..])
  {
    var e := end - start;
    assert |Encode(t)| > 0;
    if start + limit < |bytes| {
      forall q | e < q <= limit ensures IsContinuation(Encode(t)[q]) {
        assert Encode(t)[q] == bytes[start + q];
      }
      assert Encode(t)[e] == bytes[end];
    }
    WindowLands(t, limit, e);
    ChunkAdvance(t, limit);
    SuffixParts(bytes, start, end, Encode(t[..MaxFit(t, limit)]), Encode(t[MaxFit(t, limit)..]));
  }

  /**
   * One window of the loop: from byte `start`, the end `limit` bytes on (or
   * the end of the text) is backed off continuation bytes, and the bytes
   * up to it are decoded.  In terms of the characters, that is the next
   * greedy chunk of the rest `t`, and `rest` is what follows it.
   */
  method NextWindow(bytes: seq<Byte>, start: nat, limit: nat, ghost text: string, ghost t: string, ghost done: seq<string>)
    returns (end: nat, chunk: string, ghost rest: string)
    requires 4 <= limit
    requires start < |bytes| && bytes[start..] == Encode(t)
    requires done + GreedyChunks(t, limit) == GreedyChunks(text, limit)
    ensures start < end <= |bytes|
    ensures chunk == t[..MaxFit(t, limit)] && rest == t[MaxFit(t, limit)..]
    ensures bytes[end..] == Encode(rest)
    ensures (done + [chunk]) + GreedyChunks(rest, limit) == GreedyChunks(text, limit)
  {
    end := BackOff(bytes, start, if start + limit < |bytes| then start + limit else |bytes|);
    WindowStep(t, bytes, start, end, limit);
    DecodeIgnoreOf(bytes[start..end], t[..MaxFit(t, limit)]);
    chunk := DecodeIgnore(bytes[start..end]);
    rest := t[MaxFit(t, limit)..];
    ChunksSoFar(text, t, limit, done);
  }

  /**
   * Japanese tokenization: the UTF-8 bytes are cut into windows of at most
   * `limit` bytes, each window end backed off continuation bytes so that no
   * character is split, and every window is decoded and handed to Sudachi.
   * The inputs Sudachi sees are exactly the greedy chunks of the text.
   */
  method SudachiTokenize(text: string, limit: nat, dictForms: Segmenter) returns (tokens: seq<string>)
    requires 4 <= limit
    ensures tokens == ChunkWords(GreedyChunks(text, limit), dictForms)
  {
    var bytes := Encode(text);
    tokens := [];
    var start := 0;
    ghost var rest := text;
    ghost var done: seq<string> := [];
    while start < |bytes|
      invariant start <= |bytes|
      invariant bytes[start..] == Encode(rest)
      invariant done + GreedyChunks(rest, limit) == GreedyChunks(text, limit)
      invariant tokens == ChunkWords(done, dictForms)
      decreases |bytes| - start
    {
      var end, chunk, next := NextWindow(bytes, start, limit, text, rest, done);
      tokens := AppendKept(tokens, dictForms(chunk));
      ChunkWordsSnoc(done, chunk, dictForms);
      done := done + [chunk];
      rest := next;
      start := end;
    }
    AllChunked(text, rest, limit, done, bytes, start);
  }

  /** `tokenize_text`: clean, then cut with jieba or chunk through Sudachi. */
  method TokenizeText(text: string, lang: Language, cut: Segmenter, dictForms: Segmenter)
    returns (tokens: seq<string>)
    ensures tokens == DocumentTokens(text, lang, cut, dictForms)
  {
    var cleaned := CleanText(text);
    if lang == Chinese {
      tokens := cut(cleaned);
    } else {
      tokens := SudachiTokenize(cleaned, SudachiLimit, dictForms);
    }
  }

  /** No Japanese token is empty or a lone blank. */
  lemma {:induction false} ChunkWordsKept(chunks: seq<string>, dictForms: Segmenter)
    ensures forall w :: w in ChunkWords(chunks, dictForms) ==> KeepWord(w)
  {
    if chunks != [] {
      ChunkWordsKept(chunks[..|chunks| - 1], dictForms);
    }
  }

  lemma OneInput(t: string, w: nat, dictForms: Segmenter)
    requires 4 <= w && |Encode(t)| <= w
    ensures ChunkWords(GreedyChunks(t, w), dictForms) == if t == [] then [] else KeptWords(dictForms(t))
  {
    if t != [] {
      SingleChunk(t, w);
      ChunkWordsSnoc([], t, dictForms);
      assert [] + [t] == [t];
    }
  }

  /**
   * A cleaned Japanese text of at most SudachiLimit bytes reaches Sudachi in
   * one piece; an empty one is not segmented at all.
   */
  lemma ShortJapaneseText(text: string, cut: Segmenter, dictForms: Segmenter)
    requires |Encode(CleanText(text))| <= SudachiLimit
    ensures DocumentTokens(text, Japanese, cut, dictForms) ==
      if CleanText(text) == [] then [] else KeptWords(dictForms(CleanText(text)))
  {
    OneInput(CleanText(text), SudachiLimit, dictForms);
  }

  /**
   * What Sudachi is given, taken together, is the cleaned text; each piece is
   * non-empty, at most SudachiLimit bytes long, and as long as the limit allows.
   */
  lemma SudachiInputs(text: string)
    ensures Concat(GreedyChunks(CleanText(text), SudachiLimit)) == CleanText(text)
    ensures forall i :: 0 <= i < |GreedyChunks(CleanText(text), SudachiLimit)| ==>
      GreedyChunks(CleanText(text), SudachiLimit)[i] != [] &&
      |Encode(GreedyChunks(CleanText(text), SudachiLimit)[i])| <= SudachiLimit
    ensures forall i :: 0 <= i < |GreedyChunks(CleanText(text), SudachiLimit)| - 1 ==>
      CutAsLateAsPossible(GreedyChunks(CleanText(text), SudachiLimit)[i],
        GreedyChunks(CleanText(text), SudachiLimit)[i + 1], SudachiLimit)
  {
    GreedyTiles(CleanText(text), SudachiLimit);
    GreedyChunksFit(CleanText(text), SudachiLimit);
    GreedyChunksMaximal(CleanText(text), SudachiLimit);
  }

  // ---------------------------------------------------------------------
  // The corpus

  /** The tokens of a document in the language its name indicates. */
  function Tokens(d: Document, cut: Segmenter, dictForms: Segmenter): seq<string> {
    DocumentTokens(d.text, DetectLanguageStrict(d.name), cut, dictForms)
  }

  /** Each document's language and tokens, in listing order. */
  function Entries(docs: seq<Document>, cut: Segmenter, dictForms: Segmenter): (r: seq<(Language, seq<string>)>)
    ensures |r| == |docs|
  {
    seq(|docs|, i requires 0 <= i < |docs| => (DetectLanguageStrict(docs[i].name), Tokens(docs[i], cut, dictForms)))
  }

  /** The token lists of one language that have at least MinCount tokens. */
  function Split(entries: seq<(Language, seq<string>)>, lang: Language): seq<seq<string>> {
    if entries == [] then []
    else
      var e := entries[|entries| - 1];
      Split(entries[..|entries| - 1], lang) + (if e.0 == lang && |e.1| >= MinCount then [e.1] else [])
  }

  /** The token lists, of either language, that have at least MinCount tokens. */
  function LongEnough(entries: seq<(Language, seq<string>)>): seq<seq<string>> {
    if entries == [] then []
    else
      var e := entries[|entries| - 1];
      LongEnough(entries[..|entries| - 1]) + (if |e.1| >= MinCount then [e.1] else [])
  }

  /** The training sentences of one language. */
  function Sentences(docs: seq<Document>, lang: Language, cut: Segmenter, dictForms: Segmenter): seq<seq<string>> {
    Split(Entries(docs, cut, dictForms), lang)
  }

  lemma SplitSnoc(entries: seq<(Language, seq<string>)>, e: (Language, seq<string>), lang: Language)
    ensures Split(entries + [e], lang) == Split(entries, lang) + (if e.0 == lang && |e.1| >= MinCount then [e.1] else [])
    ensures LongEnough(entries + [e]) == LongEnough(entries) + (if |e.1| >= MinCount then [e.1] else [])
  {
    assert (entries + [e])[..|entries|] == entries;
  }

  /** Taking one more document into the entries adds its sentence, if any, to its language. */
  lemma EntryStep(docs: seq<Document>, n: nat, cut: Segmenter, dictForms: Segmenter)
    requires n < |docs|
    ensures forall lang: Language ::
      Split(Entries(docs, cut, dictForms)[..n + 1], lang) ==
      Split(Entries(docs, cut, dictForms)[..n], lang) +
      (if DetectLanguageStrict(docs[n].name) == lang && |Tokens(docs[n], cut, dictForms)| >= MinCount
       then [Tokens(docs[n], cut, dictForms)] else [])
  {
    var entries := Entries(docs, cut, dictForms);
    var e := (DetectLanguageStrict(docs[n].name), Tokens(docs[n], cut, dictForms));
    TakeOneMore(entries, n);
    assert entries[n] == e;
    forall lang: Language {
      SplitSnoc(entries[..n], e, lang);
    }
  }

  /**
   * The corpus loop: every `.txt` file is tokenized in the language its name
   * indicates and, when it has at least MinCount tokens, appended to that
   * language's training sentences.
   */
  method BuildCorpus(files: seq<Document>, cut: Segmenter, dictForms: Segmenter)
    returns (sentencesCh: seq<seq<string>>, sentencesJp: seq<seq<string>>)
    ensures sentencesCh == Sentences(TxtFiles(files), Chinese, cut, dictForms)
    ensures sentencesJp == Sentences(TxtFiles(files), Japanese, cut, dictForms)
  {
    var fileList := TxtFiles(files);
    ghost var entries := Entries(fileList, cut, dictForms);
    sentencesCh, sentencesJp := [], [];
    var n := 0;
    while n < |fileList|
      invariant n <= |fileList|
      invariant sentencesCh == Split(entries[..n], Chinese)
      invariant sentencesJp == Split(entries[..n], Japanese)
    {
      var d := fileList[n];
      var lang := DetectLanguageStrict(d.name);
      var tokens := TokenizeText(d.text, lang, cut, dictForms);
      EntryStep(fileList, n, cut, dictForms);
      if |tokens| >= MinCount {
        if lang == Chinese {
          sentencesCh := sentencesCh + [tokens];
        } else {
          sentencesJp := sentencesJp + [tokens];
        }
      }
      n := n + 1;
    }
    TakeAll(entries);
  }

  /** A sentence of a language is exactly the tokens of a long enough entry of that language. */
  lemma {:induction false} SplitMembership(entries: seq<(Language, seq<string>)>, lang: Language, s: seq<string>)
    ensures s in Split(entries, lang) <==>
      exists i :: 0 <= i < |entries| && entries[i] == (lang, s) && |s| >= MinCount
  {
    if entries != [] {
      var init := entries[..|entries| - 1];
      var e := entries[|entries| - 1];
      assert entries == init + [e];
      SplitSnoc(init, e, lang);
      SplitMembership(init, lang, s);
      if exists i :: 0 <= i < |entries| && entries[i] == (lang, s) && |s| >= MinCount {
        var i :| 0 <= i < |entries| && entries[i] == (lang, s) && |s| >= MinCount;
        if i < |init| {
          assert init[i] == entries[i];
        }
      }
    }
  }

  /** Every long enough token list lands in exactly one of the two training sets. */
  lemma {:induction false} SplitPartition(entries: seq<(Language, seq<string>)>)
    ensures multiset(Split(entries, Chinese)) + multiset(Split(entries, Japanese)) == multiset(LongEnough(entries))
  {
    if entries != [] {
      var init := entries[..|entries| - 1];
      var e := entries[|entries| - 1];
      assert entries == init + [e];
      SplitSnoc(init, e, Chinese);
      SplitSnoc(init, e, Japanese);
      SplitPartition(init);
    }
  }

  /** In terms of the corpus: a Chinese or Japanese training sentence is the token list of a long enough document of that language. */
  lemma SentencesMembership(docs: seq<Document>, lang: Language, cut: Segmenter, dictForms: Segmenter, s: seq<string>)
    ensures s in Sentences(docs, lang, cut, dictForms) <==>
      exists i :: 0 <= i < |docs| && DetectLanguageStrict(docs[i].name) == lang &&
        Tokens(docs[i], cut, dictForms) == s && |s| >= MinCount
  {
    var entries := Entries(docs, cut, dictForms);
    SplitMembership(entries, lang, s);
    assert forall i :: 0 <= i < |docs| ==> entries[i] == (DetectLanguageStrict(docs[i].name), Tokens(docs[i], cut, dictForms));
  }
}
