/**
 * The discrete part of the document-map script: the document list read off
 * the word-mover's-distance table, the square distance table filled from its
 * rows, the colour of each document by the language its name indicates, and
 * the edges of the graph handed to community detection.  t-SNE, Louvain, the
 * edge weights and the plotting are left to their libraries.
 */
module WmdTsneLouvain {
  import opened Lex
  import opened FileNames
  import opened SeqFacts
  import opened Wrappers

  /** One row of the distance file: two document names and their distance. */
  datatype Measurement = Measurement(docA: string, docB: string, distance: real)

  /** The plotting colour of a document: red for Japanese, blue for Chinese. */
  datatype Colour = Red | Blue

  // ---------------------------------------------------------------------
  // The document list

  function ColumnA(rows: seq<Measurement>): (r: seq<string>)
    ensures |r| == |rows|
  {
    seq(|rows|, i requires 0 <= i < |rows| => rows[i].docA)
  }

  function ColumnB(rows: seq<Measurement>): (r: seq<string>)
    ensures |r| == |rows|
  {
    seq(|rows|, i requires 0 <= i < |rows| => rows[i].docB)
  }

  /** `sorted(set(df["Document_A"]).union(set(df["Document_B"])))`. */
  function AllDocs(rows: seq<Measurement>): seq<string> {
    SortedUnique(ColumnA(rows) + ColumnB(rows))
  }

  /** A document is listed exactly when some row names it, once, in increasing order. */
  lemma AllDocsMeaning(rows: seq<Measurement>)
    ensures StrictlySorted(AllDocs(rows))
    ensures forall d :: d in AllDocs(rows) <==>
      exists i :: 0 <= i < |rows| && (rows[i].docA == d || rows[i].docB == d)
  {
    var both := ColumnA(rows) + ColumnB(rows);
    SortedUniqueMeaning(both);
    forall d ensures d in both <==> exists i :: 0 <= i < |rows| && (rows[i].docA == d || rows[i].docB == d) {
      if d in both {
        var k :| 0 <= k < |both| && both[k] == d;
        if k < |rows| {
          assert rows[k].docA == d;
        } else {
          assert rows[k - |rows|].docB == d;
        }
      }
      if exists i :: 0 <= i < |rows| && (rows[i].docA == d || rows[i].docB == d) {
        var i :| 0 <= i < |rows| && (rows[i].docA == d || rows[i].docB == d);
        if rows[i].docA == d {
          assert both[i] == d;
        } else {
          assert both[|rows| + i] == d;
        }
      }
    }
  }

  // ---------------------------------------------------------------------
  // The distance table

  /** The row is about the unordered pair {a, b}. */
  predicate Names(r: Measurement, a: string, b: string) {
    (r.docA == a && r.docB == b) || (r.docA == b && r.docB == a)
  }

  /** The distance on the last row about the pair {a, b}, if there is one. */
  function LastDistance(rows: seq<Measurement>, a: string, b: string): Option<real> {
    if rows == [] then None
    else if Names(rows[|rows| - 1], a, b) then Some(rows[|rows| - 1].distance)
    else LastDistance(rows[..|rows| - 1], a, b)
  }

  /** A table cell after `fillna(0)`: the last distance given for the pair, or 0. */
  function FilledDistance(rows: seq<Measurement>, a: string, b: string): real {
    match LastDistance(rows, a, b)
    case None => 0.0
    case Some(d) => d
  }

  /** The filled table over the documents `docs`, keyed by (row label, column label). */
  function DistanceTable(rows: seq<Measurement>, docs: seq<string>): (t: map<(string, string), real>)
    ensures forall a, b :: (a, b) in t <==> a in docs && b in docs
  {
    map a, b | a in docs && b in docs :: (a, b) := FilledDistance(rows, a, b)
  }

  lemma {:induction false} LastDistanceSymmetric(rows: seq<Measurement>, a: string, b: string)
    ensures LastDistance(rows, a, b) == LastDistance(rows, b, a)
  {
    if rows != [] {
      LastDistanceSymmetric(rows[..|rows| - 1], a, b);
    }
  }

  /** The table is symmetric. */
  lemma TableSymmetric(rows: seq<Measurement>, a: string, b: string)
    ensures FilledDistance(rows, a, b) == FilledDistance(rows, b, a)
  {
    LastDistanceSymmetric(rows, a, b);
  }

  /** The cell of a pair is the distance on the last row about that pair. */
  lemma {:induction false} LastRowWins(rows: seq<Measurement>, i: nat, a: string, b: string)
    requires i < |rows| && Names(rows[i], a, b)
    requires forall j :: i < j < |rows| ==> !Names(rows[j], a, b)
    ensures FilledDistance(rows, a, b) == rows[i].distance
  {
    if i < |rows| - 1 {
      var init := rows[..|rows| - 1];
      assert init[i] == rows[i];
      LastRowWins(init, i, a, b);
    }
  }

  /** A pair no row is about, a document and itself included, has distance 0. */
  lemma {:induction false} UnnamedIsZero(rows: seq<Measurement>, a: string, b: string)
    requires forall i :: 0 <= i < |rows| ==> !Names(rows[i], a, b)
    ensures FilledDistance(rows, a, b) == 0.0
  {
    if rows != [] {
      var init := rows[..|rows| - 1];
      assert forall i :: 0 <= i < |init| ==> init[i] == rows[i];
      UnnamedIsZero(init, a, b);
    }
  }

  /** A distance that reaches the table was given on some row about the pair. */
  lemma {:induction false} LastDistanceFrom(rows: seq<Measurement>, a: string, b: string)
    requires LastDistance(rows, a, b).Some?
    ensures exists i :: 0 <= i < |rows| && Names(rows[i], a, b) && rows[i].distance == LastDistance(rows, a, b).value
  {
    if !Names(rows[|rows| - 1], a, b) {
      var init := rows[..|rows| - 1];
      LastDistanceFrom(init, a, b);
      var i :| 0 <= i < |init| && Names(init[i], a, b) && init[i].distance == LastDistance(init, a, b).value;
      assert rows[i] == init[i];
    }
  }

  lemma LastDistanceStep(rows: seq<Measurement>, n: nat, a: string, b: string)
    requires n < |rows|
    ensures LastDistance(rows[..n + 1], a, b) ==
      if Names(rows[n], a, b) then Some(rows[n].distance) else LastDistance(rows[..n], a, b)
  {
    assert rows[..n + 1][..n] == rows[..n];
  }

  /** The cells assigned after the first `n` rows: exactly the pairs those rows are about, with the last distance given. */
  ghost predicate Mirrors(cells: map<(string, string), real>, rows: seq<Measurement>, n: nat)
    requires n <= |rows|
  {
    forall a, b ::
      && ((a, b) in cells <==> LastDistance(rows[..n], a, b).Some?)
      && ((a, b) in cells ==> cells[(a, b)] == LastDistance(rows[..n], a, b).value)
  }

  /** Assigning both cells of row `n` keeps the cells in step with the rows. */
  lemma FillStep(cells: map<(string, string), real>, rows: seq<Measurement>, n: nat)
    requires n < |rows| && Mirrors(cells, rows, n)
    ensures var r := rows[n];
      Mirrors(cells[(r.docA, r.docB) := r.distance][(r.docB, r.docA) := r.distance], rows, n + 1)
  {
    var r := rows[n];
    var next := cells[(r.docA, r.docB) := r.distance][(r.docB, r.docA) := r.distance];
    forall a, b
      ensures && ((a, b) in next <==> LastDistance(rows[..n + 1], a, b).Some?)
              && ((a, b) in next ==> next[(a, b)] == LastDistance(rows[..n + 1], a, b).value)
    {
      LastDistanceStep(rows, n, a, b);
    }
  }

  /** `fillna(0)` over the documents' square table: every cell never assigned is 0. */
  function Fillna(cells: map<(string, string), real>, docs: seq<string>): (t: map<(string, string), real>)
    ensures forall a, b :: (a, b) in t <==> a in docs && b in docs
  {
    map a, b | a in docs && b in docs :: (a, b) := if (a, b) in cells then cells[(a, b)] else 0.0
  }

  /** Once every row is in, filling the gaps with 0 gives the distance table. */
  lemma FillnaTable(cells: map<(string, string), real>, rows: seq<Measurement>, docs: seq<string>)
    requires Mirrors(cells, rows, |rows|)
    ensures Fillna(cells, docs) == DistanceTable(rows, docs)
  {
    assert rows[..|rows|] == rows;
    forall a, b | a in docs && b in docs ensures Fillna(cells, docs)[(a, b)] == DistanceTable(rows, docs)[(a, b)] {
    }
  }

  /**
   * The fill loop: the table starts empty (every cell NaN); each row sets
   * both cells of its pair, later rows overwriting earlier ones; then every
   * cell still empty becomes 0.
   */
  method FillDistances(rows: seq<Measurement>, allDocs: seq<string>) returns (table: map<(string, string), real>)
    ensures table == DistanceTable(rows, allDocs)
    ensures forall a, b :: a in allDocs && b in allDocs ==> table[(a, b)] == table[(b, a)]
  {
    var cells: map<(string, string), real> := map[];
    for n := 0 to |rows|
      invariant Mirrors(cells, rows, n)
    {
      var r := rows[n];
      FillStep(cells, rows, n);
      cells := cells[(r.docA, r.docB) := r.distance];
      cells := cells[(r.docB, r.docA) := r.distance];
    }
    table := Fillna(cells, allDocs);
    FillnaTable(cells, rows, allDocs);
    forall a, b | a in allDocs && b in allDocs ensures table[(a, b)] == table[(b, a)] {
      TableSymmetric(rows, a, b);
    }
  }

  // ---------------------------------------------------------------------
  // Colours

  /** Red when the name's leading digits reach 2025 with no letter after them, blue otherwise. */
  function ColourOf(name: string): Colour {
    if Classify(SplitExtRoot(name), 2025, true) == Japanese then Red else Blue
  }

  /**
   * A document is red exactly when its name starts with digits whose value
   * is at least 2025 and no ASCII letter follows them: the rule of the
   * embedding-training script.
   */
  lemma ColourMeaning(name: string)
    ensures ColourOf(name) == Red <==> DetectLanguageStrict(name) == Japanese
    ensures ColourOf(name) == Red <==>
      var n := DigitRun(name);
      n > 0 && DecimalValue(name[..n]) >= 2025 && (n == |name| || !IsAsciiLetter(name[n]))
  {
    StrictIgnoresExtension(name);
    ClassifyMeaning(name, 2025, true);
  }

  /**
   * The colour loop: `lang_colors[fname]` for every document, then the
   * colour list in document order.
   */
  method LanguageColours(allDocs: seq<string>) returns (langColours: map<string, Colour>, colours: seq<Colour>)
    ensures forall d :: d in langColours <==> d in allDocs
    ensures forall d :: d in langColours ==> langColours[d] == ColourOf(d)
    ensures |colours| == |allDocs| && forall i :: 0 <= i < |allDocs| ==> colours[i] == ColourOf(allDocs[i])
  {
    langColours := map[];
    for n := 0 to |allDocs|
      invariant forall d :: d in langColours <==> d in allDocs[..n]
      invariant forall d :: d in langColours ==> langColours[d] == ColourOf(d)
    {
      assert allDocs[..n + 1] == allDocs[..n] + [allDocs[n]];
      langColours := langColours[allDocs[n] := ColourOf(allDocs[n])];
    }
    assert allDocs[..|allDocs|] == allDocs;
    colours := seq(|allDocs|, i requires 0 <= i < |allDocs| => langColours[allDocs[i]]);
  }

  // ---------------------------------------------------------------------
  // Edges

  /** The table has a cell for every pair of documents. */
  ghost predicate Covers(table: map<(string, string), real>, docs: seq<string>) {
    forall a, b :: a in docs && b in docs ==> (a, b) in table
  }

  /** The edges from `docs[i]` to `docs[k]` for `i < k < n`, in order of `k`, where the distance is positive. */
  function EdgesFrom(docs: seq<string>, table: map<(string, string), real>, i: nat, n: nat): seq<(string, string)>
    requires Covers(table, docs) && i < |docs| && n <= |docs|
  {
    if n <= i + 1 then []
    else
      EdgesFrom(docs, table, i, n - 1)
        + (if table[(docs[i], docs[n - 1])] > 0.0 then [(docs[i], docs[n - 1])] else [])
  }

  /** The edges added by the first `m` passes of the outer loop. */
  function EdgesBefore(docs: seq<string>, table: map<(string, string), real>, m: nat): seq<(string, string)>
    requires Covers(table, docs) && m <= |docs|
  {
    if m == 0 then [] else EdgesBefore(docs, table, m - 1) + EdgesFrom(docs, table, m - 1, |docs|)
  }

  /** The pair (docs[i], docs[j]), i < j, with a positive distance. */
  ghost predicate PositivePair(docs: seq<string>, table: map<(string, string), real>, i: int, j: int) {
    0 <= i < j < |docs| && (docs[i], docs[j]) in table && table[(docs[i], docs[j])] > 0.0
  }

  lemma {:induction false} EdgesFromMeaning(docs: seq<string>, table: map<(string, string), real>, i: nat, n: nat)
    requires Covers(table, docs) && i < |docs| && n <= |docs|
    ensures forall e :: e in EdgesFrom(docs, table, i, n) <==>
      exists k :: i < k < n && PositivePair(docs, table, i, k) && e == (docs[i], docs[k])
  {
    if n > i + 1 {
      EdgesFromMeaning(docs, table, i, n - 1);
    }
  }

  lemma {:induction false} EdgesBeforeMeaning(docs: seq<string>, table: map<(string, string), real>, m: nat)
    requires Covers(table, docs) && m <= |docs|
    ensures forall e :: e in EdgesBefore(docs, table, m) <==>
      exists i, k :: 0 <= i < m && i < k < |docs| && PositivePair(docs, table, i, k) && e == (docs[i], docs[k])
  {
    if m > 0 {
      var earlier, last := EdgesBefore(docs, table, m - 1), EdgesFrom(docs, table, m - 1, |docs|);
      assert EdgesBefore(docs, table, m) == earlier + last;
      EdgesBeforeMeaning(docs, table, m - 1);
      EdgesFromMeaning(docs, table, m - 1, |docs|);
      forall e ensures e in earlier + last <==>
        exists i, k :: 0 <= i < m && i < k < |docs| && PositivePair(docs, table, i, k) && e == (docs[i], docs[k])
      {
        if e in last {
          var k :| m - 1 < k < |docs| && PositivePair(docs, table, m - 1, k) && e == (docs[m - 1], docs[k]);
        }
        if exists i, k :: 0 <= i < m && i < k < |docs| && PositivePair(docs, table, i, k) && e == (docs[i], docs[k]) {
          var i, k :| 0 <= i < m && i < k < |docs| && PositivePair(docs, table, i, k) && e == (docs[i], docs[k]);
          if i < m - 1 {
            assert e in earlier;
          } else {
            assert e in last;
          }
        }
      }
    }
  }

  /** The inner edge loop for document `i`: an edge to each later document at a positive distance. */
  method EdgesFromDoc(allDocs: seq<string>, table: map<(string, string), real>, i: nat) returns (added: seq<(string, string)>)
    requires Covers(table, allDocs) && i < |allDocs|
    ensures added == EdgesFrom(allDocs, table, i, |allDocs|)
  {
    added := [];
    for j := i + 1 to |allDocs|
      invariant added == EdgesFrom(allDocs, table, i, j)
    {
      var a, b := allDocs[i], allDocs[j];
      var dist := table[(a, b)];
      if dist > 0.0 {
        added := added + [(a, b)];
      }
    }
  }

  /**
   * The edge loop: for every pair of documents i < j, an edge (a, b) when
   * their distance is positive.
   */
  method SelectEdges(allDocs: seq<string>, table: map<(string, string), real>) returns (edges: seq<(string, string)>)
    requires Covers(table, allDocs)
    ensures edges == EdgesBefore(allDocs, table, |allDocs|)
  {
    edges := [];
    for i := 0 to |allDocs|
      invariant edges == EdgesBefore(allDocs, table, i)
    {
      var added := EdgesFromDoc(allDocs, table, i);
      edges := edges + added;
    }
  }

  /**
   * An edge joins an earlier document to a later one whose distance is
   * positive, and every such pair is an edge; zero and missing distances
   * give none, and with distinct documents there is no self-loop.
   */
  lemma EdgesMeaning(docs: seq<string>, table: map<(string, string), real>)
    requires Covers(table, docs)
    ensures forall e :: e in EdgesBefore(docs, table, |docs|) <==>
      exists i, j :: 0 <= i < j < |docs| && PositivePair(docs, table, i, j) && e == (docs[i], docs[j])
    ensures StrictlySorted(docs) ==> forall e :: e in EdgesBefore(docs, table, |docs|) ==> e.0 != e.1
  {
    EdgesBeforeMeaning(docs, table, |docs|);
    if StrictlySorted(docs) {
      forall e | e in EdgesBefore(docs, table, |docs|) ensures e.0 != e.1 {
        var i, j :| 0 <= i < j < |docs| && PositivePair(docs, table, i, j) && e == (docs[i], docs[j]);
        StrictlySortedDistinct(docs, i, j);
      }
    }
  }

  // ---------------------------------------------------------------------
  // The script

  /** What the script derives before t-SNE and Louvain. */
  datatype Layout = Layout(allDocs: seq<string>, table: map<(string, string), real>,
                           colours: seq<Colour>, edges: seq<(string, string)>)

  /** All the edges of the graph. */
  function Edges(docs: seq<string>, table: map<(string, string), real>): seq<(string, string)>
    requires Covers(table, docs)
  {
    EdgesBefore(docs, table, |docs|)
  }

  /**
   * The script up to the embedding: documents, filled table, colours, edges.
   * What each of them means is stated by the lemmas beside their loops.
   */
  method Visualise(rows: seq<Measurement>) returns (layout: Layout)
    ensures layout.allDocs == AllDocs(rows)
    ensures layout.table == DistanceTable(rows, layout.allDocs)
    ensures |layout.colours| == |layout.allDocs|
    ensures forall i :: 0 <= i < |layout.allDocs| ==> layout.colours[i] == ColourOf(layout.allDocs[i])
    ensures Covers(layout.table, layout.allDocs)
    ensures layout.edges == Edges(layout.allDocs, layout.table)
  {
    var allDocs := SortedUnique(ColumnA(rows) + ColumnB(rows));
    AllDocsMeaning(rows);
    var table := FillDistances(rows, allDocs);
    var langColours, colours := LanguageColours(allDocs);
    var edges := SelectEdges(allDocs, table);
    layout := Layout(allDocs, table, colours, edges);
  }

  /**
   * Over the documents, an edge joins an earlier and a later document
   * exactly when the last distance given for them is positive.
   */
  lemma RowEdgesMeaning(rows: seq<Measurement>, docs: seq<string>)
    ensures forall e :: e in Edges(docs, DistanceTable(rows, docs)) <==>
      exists i, j :: 0 <= i < j < |docs| && e == (docs[i], docs[j]) && FilledDistance(rows, docs[i], docs[j]) > 0.0
  {
    var table := DistanceTable(rows, docs);
    EdgesBeforeMeaning(docs, table, |docs|);
    forall e ensures e in Edges(docs, table) <==>
      exists i, j :: 0 <= i < j < |docs| && e == (docs[i], docs[j]) && FilledDistance(rows, docs[i], docs[j]) > 0.0
    {
      if e in Edges(docs, table) {
        var i, j :| 0 <= i < |docs| && i < j < |docs| && PositivePair(docs, table, i, j) && e == (docs[i], docs[j]);
        assert table[(docs[i], docs[j])] == FilledDistance(rows, docs[i], docs[j]);
      }
      if exists i, j :: 0 <= i < j < |docs| && e == (docs[i], docs[j]) && FilledDistance(rows, docs[i], docs[j]) > 0.0 {
        var i, j :| 0 <= i < j < |docs| && e == (docs[i], docs[j]) && FilledDistance(rows, docs[i], docs[j]) > 0.0;
        assert table[(docs[i], docs[j])] == FilledDistance(rows, docs[i], docs[j]);
        assert PositivePair(docs, table, i, j);
      }
    }
  }

  // ---------------------------------------------------------------------
  // The graph's nodes

  /** The nodes of a graph built only by `add_edge`: the edges' endpoints. */
  function NodesFromEdges(edges: seq<(string, string)>): (nodes: set<string>)
    ensures forall d :: d in nodes <==> exists k :: 0 <= k < |edges| && (edges[k].0 == d || edges[k].1 == d)
  {
    (set k | 0 <= k < |edges| :: edges[k].0) + (set k | 0 <= k < |edges| :: edges[k].1)
  }

  /**
   * As written, a document whose every row gives a distance of 0 or less is
   * on no edge, so it is not a node of the graph, and community detection
   * assigns it no community: looking it up when colouring the nodes raises.
   */
  lemma IsolatedDocumentNotNode(rows: seq<Measurement>, d: string)
    requires forall i :: 0 <= i < |rows| && (rows[i].docA == d || rows[i].docB == d) ==> rows[i].distance <= 0.0
    ensures var docs := AllDocs(rows);
      d !in NodesFromEdges(Edges(docs, DistanceTable(rows, docs)))
  {
    var docs := AllDocs(rows);
    var table := DistanceTable(rows, docs);
    var edges := Edges(docs, table);
    EdgesMeaning(docs, table);
    forall k | 0 <= k < |edges| ensures edges[k].0 != d && edges[k].1 != d {
      var e := edges[k];
      assert e in edges;
      var i, j :| 0 <= i < j < |docs| && PositivePair(docs, table, i, j) && e == (docs[i], docs[j]);
      assert FilledDistance(rows, e.0, e.1) > 0.0;
      LastDistanceFrom(rows, e.0, e.1);
      var m :| 0 <= m < |rows| && Names(rows[m], e.0, e.1) && rows[m].distance == LastDistance(rows, e.0, e.1).value;
    }
  }

  /** The intended graph: every document a node, whether or not it has an edge. */
  function GraphNodes(docs: seq<string>, edges: seq<(string, string)>): set<string> {
    (set d | d in docs) + NodesFromEdges(edges)
  }

  /** With the documents added as nodes, every document has a community to look up. */
  lemma EveryDocumentIsNode(rows: seq<Measurement>)
    ensures var docs := AllDocs(rows);
      forall d :: d in docs ==> d in GraphNodes(docs, Edges(docs, DistanceTable(rows, docs)))
  {
  }
}
