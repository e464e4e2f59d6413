/**
 * The neighbour-comparison script: the shared vocabulary ordered by combined
 * training count, its first 2000 words as alignment anchors and first 200 as
 * the keywords reported on, the dictionary lookup of definitions, and the
 * loop that builds one report row per keyword from each model's nearest
 * neighbour.  The Procrustes solve is a collaborator passed in as a function.
 */
module Compare {
  import opened Embedding
  import opened Ranking
  import opened Wrappers

  /** How many shared words anchor the alignment. */
  const AnchorCap: nat := 2000

  /** How many shared words get a report row. */
  const KeywordCap: nat := 200

  /** What `get_definition` answers when it has no definition. */
  const NoDefinition: string := "无定义"

  /** The neighbour reported for a word a model does not know. */
  const Placeholder: (string, real) := ("-", 0.0)

  /** One row of the output table, its fields in column order. */
  datatype Row = Row(
    word: string,          // 核心词
    chNeighbour: string,   // 中文模型近邻
    chScore: real,         // 中文相似度
    jpNeighbour: string,   // 日本语模型近邻
    jpScore: real,         // 日本语相似度
    explanation: string)   // 语义差异说明

  /** What the script produces: the ordered vocabulary, the anchors, the rotation and the rows (None where it raises). */
  datatype Report = Report(shared: seq<string>, anchors: seq<string>, rotation: Matrix,
                           keywords: seq<string>, rows: Option<seq<Row>>)

  // ---------------------------------------------------------------------
  // The shared vocabulary

  /** A word's count in the Chinese model plus its count in the Japanese model. */
  function CombinedCount(ch: Space, jp: Space): string -> real {
    w => (ch.count(w) + jp.count(w)) as real
  }

  /**
   * `sorted(list(vocab_ch & vocab_jp), key=combined count, reverse=True)`,
   * where `common` is the order in which `list` meets the set's members.
   */
  function SharedVocab(ch: Space, jp: Space, common: seq<string>): seq<string> {
    SortDesc(common, CombinedCount(ch, jp))
  }

  /** `anchors = shared_vocab[:2000]`. */
  function Anchors(shared: seq<string>): seq<string> {
    Take(shared, AnchorCap)
  }

  /** `keywords = shared_vocab[:200]`. */
  function Keywords(shared: seq<string>): seq<string> {
    Take(shared, KeywordCap)
  }

  /**
   * The shared vocabulary holds each word of both vocabularies exactly once,
   * and nothing else, in order of non-increasing combined count.
   */
  lemma SharedVocabMeaning(ch: Space, jp: Space, common: seq<string>)
    requires Enumerates(common, CommonVocab(ch, jp))
    ensures var shared := SharedVocab(ch, jp, common);
      && Distinct(shared)
      && (forall w :: w in shared <==> w in ch.vocab && w in jp.vocab)
      && (forall i, j :: 0 <= i < j < |shared| ==>
            ch.count(shared[i]) + jp.count(shared[i]) >= ch.count(shared[j]) + jp.count(shared[j]))
  {
    var key := CombinedCount(ch, jp);
    var shared := SortDesc(common, key);
    SortDescMembers(common, key);
    SortDescPermutation(common, key);
    DistinctPermutation(common, shared);
    SortDescDescending(common, key);
    forall i, j | 0 <= i < j < |shared|
      ensures ch.count(shared[i]) + jp.count(shared[i]) >= ch.count(shared[j]) + jp.count(shared[j])
    {
      assert key(shared[i]) >= key(shared[j]);
    }
  }

  /**
   * The anchors are the first min(2000, n) shared words and the keywords
   * the first min(200, n), so the keywords are the first words of the
   * anchors.
   */
  lemma CapsMeaning(shared: seq<string>)
    ensures Anchors(shared) <= shared && |Anchors(shared)| == if |shared| < 2000 then |shared| else 2000
    ensures Keywords(shared) <= shared && |Keywords(shared)| == if |shared| < 200 then |shared| else 200
    ensures Keywords(shared) <= Anchors(shared)
  {
    var k, a := Keywords(shared), Anchors(shared);
    assert k == shared[..|k|] && a == shared[..|a|];
    assert a[..|k|] == k;
  }

  // ---------------------------------------------------------------------
  // Definitions

  /** `dict(zip(df['word'], df['definition']))`: a later row for the same word replaces an earlier one. */
  function Dictionary(entries: seq<(string, string)>): (d: map<string, string>)
    ensures forall w :: w in d <==> exists i :: 0 <= i < |entries| && entries[i].0 == w
  {
    if entries == [] then map[]
    else
      var init, last := entries[..|entries| - 1], entries[|entries| - 1];
      assert forall i :: 0 <= i < |init| ==> init[i] == entries[i];
      Dictionary(init)[last.0 := last.1]
  }

  /** `get_definition`. */
  function Definition(word: string, dict: map<string, string>): string {
    if word == [] || word == "-" then NoDefinition
    else if word in dict then dict[word] else NoDefinition
  }

  /** Row `i` is the last row of the definition file that names `word`. */
  predicate LastNaming(entries: seq<(string, string)>, i: int, word: string) {
    0 <= i < |entries| && entries[i].0 == word && forall j :: i < j < |entries| ==> entries[j].0 != word
  }

  /** The definition a word gets is the one on the last dictionary row naming it. */
  lemma {:induction false} DictionaryLastWins(entries: seq<(string, string)>, i: nat)
    requires i < |entries|
    requires forall j :: i < j < |entries| ==> entries[j].0 != entries[i].0
    ensures entries[i].0 in Dictionary(entries)
    ensures Dictionary(entries)[entries[i].0] == entries[i].1
  {
    var init := entries[..|entries| - 1];
    if i < |entries| - 1 {
      assert init[i] == entries[i];
      DictionaryLastWins(init, i);
    }
  }

  /**
   * `get_definition` on the dictionary read from the definition file: no
   * definition for the empty word, for "-", and for a word no row names;
   * otherwise the definition on the last row that names the word.
   */
  lemma DefinitionMeaning(entries: seq<(string, string)>, word: string)
    ensures (word == [] || word == "-" || forall i :: 0 <= i < |entries| ==> entries[i].0 != word) ==>
      Definition(word, Dictionary(entries)) == NoDefinition
    ensures word != [] && word != "-" ==>
      forall i :: LastNaming(entries, i, word) ==> Definition(word, Dictionary(entries)) == entries[i].1
  {
    forall i | LastNaming(entries, i, word)
      ensures word in Dictionary(entries) && Dictionary(entries)[word] == entries[i].1
    {
      DictionaryLastWins(entries, i);
    }
  }

  // ---------------------------------------------------------------------
  // Rows

  /**
   * `model.wv.most_similar(word, topn=1)[0] if word in model.wv else ("-", 0.0)`.
   * None where the indexing raises IndexError: the model returned no
   * neighbour (a vocabulary of one word has none).
   */
  function TopNeighbour(s: Space, word: string): Option<(string, real)> {
    if word !in s.vocab then Some(Placeholder)
    else if s.mostSimilar(word, 1) == [] then None
    else Some(s.mostSimilar(word, 1)[0])
  }

  /** The explanation column: a template around the two neighbours and their definitions. */
  function Explanation(word: string, chNeighbour: string, chDefinition: string,
                       jpNeighbour: string, jpDefinition: string): string
  {
    "核心词「" + word + "」的中文近邻为「" + chNeighbour + "」，其定义为：" + chDefinition + "。"
    + "日本语近邻为「" + jpNeighbour + "」，定义为：" + jpDefinition + "。"
    + "根据词义来看，中文近邻强调……（此处需要人工补充），"
    + "日语近邻更侧重……（此处需要人工补充）。"
  }

  /** The row for one keyword, or None when looking up a neighbour raises. */
  function RowFor(word: string, ch: Space, jp: Space, dict: map<string, string>): (r: Option<Row>)
    ensures r.Some? <==> TopNeighbour(ch, word).Some? && TopNeighbour(jp, word).Some?
    ensures r.Some? ==> r.value.word == word
  {
    match (TopNeighbour(ch, word), TopNeighbour(jp, word))
    case (Some(c), Some(j)) =>
      Some(Row(word, c.0, c.1, j.0, j.1,
                    Explanation(word, c.0, Definition(c.0, dict), j.0, Definition(j.0, dict))))
    case _ => None
  }

  /**
   * The keyword loop: one row per keyword, appended in keyword order; the
   * script stops with an error at the first keyword whose neighbour lookup
   * raises.
   */
  method BuildRows(keywords: seq<string>, ch: Space, jp: Space, dict: map<string, string>)
    returns (rows: Option<seq<Row>>)
    ensures rows.Some? <==> forall i :: 0 <= i < |keywords| ==> RowFor(keywords[i], ch, jp, dict).Some?
    ensures rows.Some? ==> |rows.value| == |keywords|
    ensures rows.Some? ==> forall i :: 0 <= i < |keywords| ==>
      rows.value[i].word == keywords[i] && RowFor(keywords[i], ch, jp, dict) == Some(rows.value[i])
  {
    var acc: seq<Row> := [];
    for n := 0 to |keywords|
      invariant |acc| == n
      invariant forall i :: 0 <= i < n ==> RowFor(keywords[i], ch, jp, dict) == Some(acc[i])
    {
      var word := keywords[n];
      var chNeighbour := TopNeighbour(ch, word);
      var jpNeighbour := TopNeighbour(jp, word);
      if chNeighbour.None? || jpNeighbour.None? {
        return None;
      }
      var c, j := chNeighbour.value, jpNeighbour.value;
      var chDefNeighbour := Definition(c.0, dict);
      var jpDefNeighbour := Definition(j.0, dict);
      var explanation := Explanation(word, c.0, chDefNeighbour, j.0, jpDefNeighbour);
      acc := acc + [Row(word, c.0, c.1, j.0, j.1, explanation)];
    }
    rows := Some(acc);
  }

  /** A word a model does not know gets the placeholder neighbour, which has no definition. */
  lemma PlaceholderUndefined(s: Space, word: string, dict: map<string, string>)
    requires word !in s.vocab
    ensures TopNeighbour(s, word) == Some(Placeholder)
    ensures Definition(TopNeighbour(s, word).value.0, dict) == NoDefinition
  {
  }

  /**
   * Every keyword is a shared word, so the placeholder never appears in a
   * row: each row reports the models' own nearest neighbours, and a row
   * exists exactly when both models return one.
   */
  lemma KeywordRows(ch: Space, jp: Space, common: seq<string>, dict: map<string, string>, i: nat)
    requires Enumerates(common, CommonVocab(ch, jp))
    requires i < |Keywords(SharedVocab(ch, jp, common))|
    ensures var w := Keywords(SharedVocab(ch, jp, common))[i];
      && w in ch.vocab && w in jp.vocab
      && (RowFor(w, ch, jp, dict).Some? <==> ch.mostSimilar(w, 1) != [] && jp.mostSimilar(w, 1) != [])
      && (RowFor(w, ch, jp, dict).Some? ==>
            var row := RowFor(w, ch, jp, dict).value;
            (row.chNeighbour, row.chScore) == ch.mostSimilar(w, 1)[0] &&
            (row.jpNeighbour, row.jpScore) == jp.mostSimilar(w, 1)[0])
  {
    var shared := SharedVocab(ch, jp, common);
    SharedVocabMeaning(ch, jp, common);
    CapsMeaning(shared);
    assert Keywords(shared)[i] == shared[i];
    assert shared[i] in shared;
  }

  /**
   * The script's discrete steps: order the shared vocabulary, take the
   * anchors and solve for the rotation from their vectors, read the
   * dictionary, take the keywords and build their rows.
   */
  method Run(ch: Space, jp: Space, common: seq<string>, entries: seq<(string, string)>,
             procrustes: (seq<Vector>, seq<Vector>) -> Matrix)
    returns (report: Report)
    requires Enumerates(common, CommonVocab(ch, jp))
    ensures report.shared == SharedVocab(ch, jp, common)
    ensures report.anchors == Anchors(report.shared) && report.keywords == Keywords(report.shared)
    ensures report.keywords <= report.anchors
    ensures report.rotation == procrustes(Rows(ch, report.anchors), Rows(jp, report.anchors))
    ensures forall w :: w in report.keywords ==> w in ch.vocab && w in jp.vocab
    ensures report.rows.Some? <==> forall i :: 0 <= i < |report.keywords| ==>
      RowFor(report.keywords[i], ch, jp, Dictionary(entries)).Some?
    ensures report.rows.Some? ==> |report.rows.value| == |report.keywords|
    ensures report.rows.Some? ==> forall i :: 0 <= i < |report.keywords| ==>
      Some(report.rows.value[i]) == RowFor(report.keywords[i], ch, jp, Dictionary(entries))
  {
    var shared := SortDesc(common, CombinedCount(ch, jp));
    var anchors := Take(shared, AnchorCap);
    var r := procrustes(Rows(ch, anchors), Rows(jp, anchors));
    var dict := Dictionary(entries);
    var keywords := Take(shared, KeywordCap);
    CapsMeaning(shared);
    SharedVocabMeaning(ch, jp, common);
    var rows := BuildRows(keywords, ch, jp, dict);
    report := Report(shared, anchors, r, keywords, rows);
  }
}
