# Zen corpus pipeline: a Dafny model

The repository studies a corpus of Chinese and Japanese Zen texts. It has five scripts:

- `Word2Vec.py` cleans each text, segments it, and trains one word-embedding model per language. Chinese text goes to jieba; Japanese text goes to Sudachi in windows of at most 49149 UTF-8 bytes.
- `analyze.py` strips marks and skip phrases, drops stopwords, and keeps documents of at least five tokens.
- `result1.py` aligns the two embedding spaces. Its anchor words are the shared words that contain a Buddhist keyword. It then ranks the Japanese neighbours of a query word.
- `compare.py` takes the shared vocabulary ordered by combined training count and caps it. It then writes one row per keyword: the keyword's nearest neighbour in each model, with the neighbours' dictionary definitions.
- `wmd_tsne_louvain.py` turns a file of word mover's distances into a symmetric table. It colours each document by the language its file name indicates and selects the graph edges that Louvain community detection runs on.

The model keeps the discrete logic of these scripts: the text filters, the byte-windowed chunking, the file-name language rule, the corpus partition, anchor selection and capping, the ranked retrieval, the definition lookup and row building, and the distance table and edge selection. The segmenters, the trained models and every numerical routine are parameters: functions the caller supplies.

Modules, one file each:

- `Utf8` (`utf8.dfy`): UTF-8 as in RFC 3629, section 3. It covers encoding, strict decoding, and decoding with `errors="ignore"`.
- `Chunking` (`chunking.dfy`): the greedy byte-bounded chunking. Each chunk is the longest prefix of the remaining text whose encoding fits the window. Both scripts' byte loops are proved to produce exactly these chunks.
- `FileNames` (`filenames.dfy`): the year-prefix language rule. It takes the threshold and the suffix rule as parameters, so the 2025/suffix-veto variant and the 2000/suffix-ignored variant are one definition.
- `Word2Vec` (`word2vec.dfy`) and `Analyze` (`analyze.dfy`): the two front ends.
- `Embedding` (`embedding.dfy`): the part of a trained model the scripts use.
- `Ranking` (`ranking.dfy`): Python's stable descending sort.
- `Result1` (`result1.dfy`), `Compare` (`compare.dfy`) and `WmdTsneLouvain` (`wmd.dfy`): the alignment and plotting scripts.
- Support modules: `PyStrings` (`pystrings.dfy`) covers `strip`, `endswith`, `in`, `replace` and `join`. `Lex` (`lex.dfy`) covers code-point string order and `sorted`. `Corpus` (`corpus.dfy`) covers directory listings. `SeqFacts` (`seqfacts.dfy`) holds sequence lemmas. `Wrappers` (`wrappers.dfy`) holds the `Option` type that lookups and decoders return.

The loops of the source are methods with loop invariants. Each is proved equal to a specification function, and the properties are proved about that function:

- `BackOff`, `SudachiTokenize` and `BuildCorpus` in `Word2Vec`.
- `Shrink`, `TokenizeJapaneseSafely`, `RemoveSkipPhrases` and `CollectDocuments` in `Analyze`.
- `Scan` and `AlignedRetrieval` in `Result1`.
- `BuildRows` in `Compare`.
- `FillDistances`, `LanguageColours` and `SelectEdges` in `WmdTsneLouvain`.

Two points of the code that are easy to misread:

- Decoding in `analyze.py` is strict. Each window is shrunk until `decode("utf-8")` succeeds (analyze.py:82-89), and that is what is modelled; only `Word2Vec.py` decodes with `errors="ignore"`. The properties proved concern text produced by `str.encode`.
- No script combines the anchor steps. `result1.py` filters the common words by keyword without sorting or capping (result1.py:46-47), and `compare.py` sorts by combined count and caps without a keyword filter (compare.py:23-26). Each script is modelled as written.

## Model

| member | source | states |
|---|---|---|
| Utf8.ContinuationMask | Word2Vec.py:41 | a byte is a continuation byte (10xxxxxx) exactly when `b & 0b11000000 == 0b10000000` |
| Utf8.EncodeChar | Word2Vec.py:36 | a character encodes to 1 to 4 bytes: a lead byte that is not a continuation byte, then only continuation bytes |
| Utf8.DecodeEncode | analyze.py:85 | strict decoding of an encoded text gives the text back |
| Utf8.DecodeIgnoreEncode | Word2Vec.py:43 | decoding an encoded text with `errors="ignore"` gives the text back |
| Utf8.DecodeEndsMidChar | analyze.py:83-89 | a byte slice that ends inside a character fails strict decoding, which is why the shrink loop must step back |
| Chunking.MaxFitIsLongest | Word2Vec.py:39-42 | a prefix of k characters fits the window exactly when k is at most the chunk length chosen |
| Chunking.MaxFitNearlyFull | Word2Vec.py:39-42 | a chunk that stops before the end of the text leaves fewer than 4 bytes of its window unused |
| Chunking.GreedyTiles | Word2Vec.py:37-48 | the chunks concatenate to the whole text |
| Chunking.GreedyBytesTile | Word2Vec.py:37-48 | the chunks' encodings concatenate to the text's encoding, so the byte ranges start at 0, abut, and end at the length of the encoding |
| Chunking.GreedyChunksFit | Word2Vec.py:39 | every chunk is non-empty and its encoding fits the window |
| Chunking.GreedyChunksMaximal | Word2Vec.py:39-42 | every chunk but the last is cut as late as the window allows: one more character would not fit |
| Chunking.SingleChunk | analyze.py:73-74 | a non-empty text whose encoding fits the window is a single chunk |
| Chunking.BackoffLands | Word2Vec.py:40-42 | backing the window end off continuation bytes lands exactly on the end of the longest prefix that fits |
| Chunking.ShrinkWindowLands | analyze.py:82-89 | shrinking the window until strict decoding succeeds lands on that same boundary, at most 3 bytes back, and the slice decodes to the chunk |
| FileNames.DigitRun | Word2Vec.py:54 | the length of the leading run of digits matched by `(\d+)` |
| FileNames.LetterRun | Word2Vec.py:54 | the length of the run of ASCII letters matched by `([A-Za-z]*)` |
| FileNames.BeforeFirstDot | analyze.py:60 | `filename.split('.')[0]`: a prefix with no dot, followed by a dot when shorter than the name |
| FileNames.ClassifyMeaning | Word2Vec.py:54-58 | Japanese exactly when there are leading digits whose value reaches the threshold and, when the suffix rule applies, no ASCII letter follows them |
| FileNames.StrictIgnoresExtension | Word2Vec.py:53 | stripping the extension with `splitext` does not change the 2025 classification |
| FileNames.LooseIgnoresExtension | analyze.py:60 | cutting at the first dot does not change the 2000 classification |
| FileNames.DetectLanguageStrict | Word2Vec.py:52-58 | definition of the training script's rule: classify `splitext(name)[0]` with threshold 2025 and the letter-suffix veto; `ClassifyMeaning` says when that gives Japanese, and `StrictIgnoresExtension` shows the extension never matters |
| FileNames.DetectLanguageLoose | analyze.py:58-67 | definition of the analysis script's rule: classify `name.split('.')[0]` with threshold 2000 and no suffix veto; `ClassifyMeaning` says when that gives Japanese, and `StrictImpliesLoose` shows it accepts every name the strict rule does |
| FileNames.StrictImpliesLoose | analyze.py:58-67 | a name Japanese under the 2025 rule is Japanese under the 2000 rule too |
| FileNames.StrictOnYear | Word2Vec.py:52-58 | for a four-digit prefix: Japanese exactly when the year is at least 2025 and no letter follows |
| FileNames.LooseOnYear | analyze.py:58-67 | for a four-digit prefix: Japanese exactly when the year is at least 2000, letters ignored |
| FileNames.StrictExample2025 | Word2Vec.py:52-58 | `2025.txt` is Japanese |
| FileNames.StrictExampleEarly | Word2Vec.py:52-58 | `1999a.txt` is Chinese |
| FileNames.StrictExampleLetter | Word2Vec.py:52-58 | `2030a.txt` is Chinese |
| FileNames.StrictExampleNoDigits | Word2Vec.py:52-58 | `abc.txt` is Chinese |
| FileNames.StrictExampleSuffix | Word2Vec.py:52-58 | `2025a.txt` is Chinese under the 2025 rule |
| FileNames.LooseExampleSuffix | analyze.py:58-67 | `2025a.txt` is Japanese under the 2000 rule |
| FileNames.StrictExampleYear | Word2Vec.py:52-58 | `2000.txt` is Chinese under the 2025 rule |
| FileNames.LooseExampleYear | analyze.py:58-67 | `2000.txt` is Japanese under the 2000 rule |
| PyStrings.TrimStart | Word2Vec.py:27 | `lstrip`: the result is a suffix that starts with no whitespace, and everything removed is whitespace |
| PyStrings.TrimEnd | Word2Vec.py:27 | `rstrip`: the result is a prefix that ends with no whitespace, and everything removed is whitespace |
| PyStrings.RemoveAllShortens | analyze.py:33 | `replace(p, "")` with a non-empty `p` shortens the text exactly when `p` occurs in it |
| PyStrings.RemoveAbsent | analyze.py:33 | `replace(p, "")` leaves the text unchanged when `p` does not occur or is empty |
| Corpus.TxtFiles | Word2Vec.py:66 | a listing entry is kept exactly when its name ends with `.txt`, in listing order |
| Word2Vec.MaskForeign | Word2Vec.py:25 | one character out for each character in, so the length is unchanged; which characters survive is stated by `CleanTextShape` |
| Word2Vec.CleanText | Word2Vec.py:24-27 | definition of `clean_text`: mask, collapse whitespace runs, strip; `CleanTextShape`, `CleanTextFixed` and `CleanTextIdempotent` state what it yields |
| Word2Vec.CleanTextShape | Word2Vec.py:24-27 | the cleaned text holds only characters in U+4E00–U+9FA5, U+3040–U+30FF or U+3400–U+9FFF and single blanks, with no blank at either end; every kept character of the input is there, in order |
| Word2Vec.CleanTextFixed | Word2Vec.py:24-27 | cleaning leaves a text unchanged exactly when it already has that shape |
| Word2Vec.CleanTextIdempotent | Word2Vec.py:24-27 | cleaning twice is cleaning once |
| Word2Vec.KeptWords | Word2Vec.py:45-47 | a dictionary form is kept exactly when it is non-empty and not `" "`, in order |
| Word2Vec.BackOff | Word2Vec.py:39-42 | the end stays within the window, equals the text end when the window reaches it, and is not a continuation byte; every byte stepped over is a continuation byte |
| Word2Vec.AppendKept | Word2Vec.py:44-47 | the tokens grow by exactly the kept dictionary forms of the chunk |
| Word2Vec.NextWindow | Word2Vec.py:38-48 | one window: the end advances past the start, the chunk is the longest prefix of the remaining text that fits, and the bytes after it encode the rest |
| Word2Vec.SudachiTokenize | Word2Vec.py:35-49 | the tokens are the kept dictionary forms of the greedy chunks of the text, in order |
| Word2Vec.TokenizeText | Word2Vec.py:30-49 | jieba's words of the cleaned text for Chinese; the chunked Sudachi tokens of the cleaned text for Japanese |
| Word2Vec.ChunkWordsKept | Word2Vec.py:44-47 | no Japanese token is empty or `" "` |
| Word2Vec.ShortJapaneseText | Word2Vec.py:36-49 | a cleaned text within the limit is segmented once, whole |
| Word2Vec.SudachiInputs | Word2Vec.py:36-48 | the inputs Sudachi gets tile the cleaned text; each is non-empty and at most 49149 bytes, and each but the last is cut as late as possible |
| Word2Vec.BuildCorpus | Word2Vec.py:61-79 | the two sentence lists are, per language, the token lists of the `.txt` files with at least 3 tokens, in listing order |
| Word2Vec.SplitMembership | Word2Vec.py:73-79 | a token list is in a language's sentences exactly when a document classified in that language produced it with at least 3 tokens |
| Word2Vec.SplitPartition | Word2Vec.py:75-79 | the two sentence lists together hold exactly the long-enough token lists: each goes to exactly one language |
| Word2Vec.SentencesMembership | Word2Vec.py:66-79 | a token list is a training sentence of a language exactly when some document classified in that language tokenizes to it with at least 3 tokens |
| Lex.SortBySorted | analyze.py:117 | `sorted` yields names in non-decreasing code-point order |
| Lex.SortBy | analyze.py:117 | `sorted` is a permutation of its input |
| Lex.SortedUniqueMeaning | wmd_tsne_louvain.py:75-76 | `sorted(set(...))` is strictly increasing and holds exactly the input's elements |
| Analyze.StripMarks | analyze.py:98 | a character survives exactly when it is not a digit, ASCII or fullwidth letter, listed mark or whitespace |
| Analyze.StripMarksAppend | analyze.py:98 | the filter works character by character, so the order of the kept characters is the input's |
| Analyze.StripMarksFixed | analyze.py:98 | the filter leaves a text unchanged exactly when it holds no mark |
| Analyze.StripMarksIdempotent | analyze.py:98 | filtering twice is filtering once |
| Analyze.RemovePhrases | analyze.py:30-34 | removing the skip phrases never lengthens the text |
| Analyze.RemoveSkipPhrases | analyze.py:30-34 | the loop removes every occurrence of each phrase in turn |
| Analyze.RemovePhrasesAbsent | analyze.py:30-34 | the text is unchanged when no phrase occurs in it, in particular when there are no phrases |
| Analyze.RemovePhrasesShortens | analyze.py:30-34 | the text gets shorter when the first phrase is non-empty and occurs in it |
| Analyze.DropStopwords | analyze.py:74 | a surface is kept exactly when it is not a stopword, in order |
| Analyze.ChineseWords | analyze.py:101 | a jieba word is kept exactly when it is non-empty and not a stopword |
| Analyze.Shrink | analyze.py:83-89 | the end moves back from the window end to the largest end whose slice decodes strictly, and the chunk is that decoding |
| Analyze.NextWindow | analyze.py:79-92 | one window of 48149 bytes: the chunk is the longest prefix of the remaining text that fits, and the end advances |
| Analyze.ExtendSurfaces | analyze.py:91 | the tokens grow by the chunk's non-stopword surfaces |
| Analyze.WindowedSurfaces | analyze.py:76-93 | the tokens are the non-stopword surfaces of the greedy chunks of the text, in order |
| Analyze.TokenizeJapaneseSafely | analyze.py:70-93 | the tokens are the non-stopword surfaces of the segmenter inputs |
| Analyze.SegmenterInputs | analyze.py:72-92 | definition of the segmenter's inputs: the whole text when its encoding fits 49149 bytes, otherwise the greedy chunks of 48149 bytes; `SegmenterInputsMeaning` states that they tile the text and fit |
| Analyze.SafeTokens | analyze.py:70-93 | definition of what `tokenize_japanese_safely` returns: the non-stopword surfaces of each segmenter input, in order; `TokenizeJapaneseSafely` proves the loop computes it and `ChunkSurfacesNoStopwords` that no stopword survives |
| Analyze.SegmenterInputsMeaning | analyze.py:72-92 | a text within 49149 bytes is segmented once, whole; a longer one in at least two chunks that tile it in characters and in bytes, each non-empty and at most 48149 bytes |
| Analyze.ShortPathAgrees | analyze.py:73-74 | on a non-empty text of at most 48149 bytes the single call and the windowed path give the same tokens |
| Analyze.ChunkSurfacesNoStopwords | analyze.py:91 | no token of the windowed path is a stopword |
| Analyze.PreprocessAndTokenize | analyze.py:96-104 | the tokens are those of the filtered, phrase-free text in the document's language |
| Analyze.TokenizedNoStopwords | analyze.py:96-104 | no token is a stopword in either language, and no Chinese token is empty |
| Analyze.CorpusFilesMeaning | analyze.py:117 | the corpus files are exactly the `.txt` entries, sorted by name |
| Analyze.CollectDocuments | analyze.py:107-144 | the main loop's outcome: a missing corpus, no `.txt` files, no usable document, or the joined token strings with their file names |
| Analyze.Collect | analyze.py:107-144 | definition of the main loop's outcome from a listing; `CollectDocuments` proves the loop computes it, `ReadyMeaning` and `KeptMembership` say which files are kept, and `EarlyStops` says when each early return happens |
| Analyze.KeptMembership | analyze.py:133-139 | a document is kept exactly when it has at least 5 tokens |
| Analyze.KeptAligned | analyze.py:137-139 | `raw_docs[i]` is the space-joined tokens of the file named `filenames[i]` |
| Analyze.ReadyMeaning | analyze.py:116-144 | a result has as many texts as names, at least one; the names are sorted; each name is a `.txt` file with at least 5 tokens, whose text is its joined tokens |
| Analyze.EarlyStops | analyze.py:116-123 | the run stops on a missing corpus exactly when there is no listing, and on no `.txt` file exactly when none of the names ends with `.txt` |
| Embedding.CommonVocab | result1.py:46 | definition of `set(a) & set(b)`: its ensures is the meaning of the intersection, on which `AnchorWords` and `SharedVocabMeaning` build |
| Ranking.SortDescPermutation | result1.py:93 | the sort is a permutation of its input |
| Ranking.SortDescDescending | result1.py:93 | after the sort the keys are non-increasing |
| Ranking.SortDescStable | result1.py:93 | elements with the same key keep their input order |
| Ranking.Take | result1.py:94 | `s[:n]` is the prefix of length min(n, len(s)) |
| Result1.AnchorWords | result1.py:46-47 | a word is an anchor exactly when it is common and contains a keyword; with a repeat-free iteration each anchor occurs once |
| Result1.AlignedVectors | result1.py:60-62 | the aligned table has a key for exactly the Chinese vocabulary, each mapped to its rotated vector |
| Result1.NativeNeighbours | result1.py:69-82 | not found exactly when the query is not in the model's vocabulary; otherwise the model's own `most_similar` list, ranked from 1 |
| Result1.Scan | result1.py:88-92 | exactly one (word, score) pair per Japanese vocabulary word, in vocabulary order |
| Result1.AlignedRetrieval | result1.py:86-97 | the aligned report equals `AlignedNeighbours`: not found, or the ranked top N of the scan |
| Result1.SimilarityPresent | result1.py:89-92 | every vocabulary word's pair is in the scan |
| Result1.RankedMeaning | result1.py:93-95 | the report has min(top_n, vocabulary size) entries ranked from 1 with non-increasing scores; each is a vocabulary word with its own score; an unlisted word scores no higher than any listed one; ties keep vocabulary order |
| Result1.AlignedAnsweredIffChinese | result1.py:86-97 | the aligned query is answered exactly when the query is in the Chinese vocabulary, and the answer ranks the Japanese vocabulary against the rotated query vector |
| Result1.AlignedNeighbours | result1.py:86-97 | definition of the aligned report: not found unless the query has a rotated vector, otherwise the ranked top N of the Japanese vocabulary; `AlignedAnsweredIffChinese` and `AlignedRetrieval` state its meaning |
| Result1.Run | result1.py:46-97 | the script stops with too few anchors exactly when fewer than 2 anchors exist; otherwise it reports distinct anchors from both vocabularies with a keyword, the rotation fitted on their vectors, the two native reports, and an aligned report answered exactly for Chinese words |
| Compare.SharedVocabMeaning | compare.py:21-25 | the shared vocabulary holds each word of both vocabularies exactly once, and nothing else, in non-increasing combined count |
| Compare.SharedVocab | compare.py:21-25 | definition of `shared_vocab`: the descending stable sort by combined count of one iteration order of the common words; `SharedVocabMeaning` states its contents and order |
| Compare.CapsMeaning | compare.py:26 | anchors are the first min(2000, n) shared words and keywords (line 45) the first min(200, n); the keywords are a prefix of the anchors |
| Compare.Dictionary | compare.py:37 | a word has an entry exactly when some row of the definition file names it |
| Compare.DictionaryLastWins | compare.py:37 | a word's entry is the definition on the last row naming it |
| Compare.DefinitionMeaning | compare.py:39-42 | `""`, `"-"` and words with no row get `无定义`; any other word gets the definition on the last row naming it |
| Compare.PlaceholderUndefined | compare.py:48-53 | a word absent from a model gets the neighbour `("-", 0.0)`, whose definition is `无定义` |
| Compare.RowFor | compare.py:48-70 | a keyword yields a row exactly when neither neighbour query comes back empty, and the row's first column is the keyword |
| Compare.TopNeighbour | compare.py:48-49 | definition of one neighbour lookup: the placeholder for an unknown word, none where `most_similar(word, topn=1)` is empty, otherwise its first pair; `KeywordRows` shows a keyword never gets the placeholder |
| Compare.BuildRows | compare.py:46-70 | rows are produced exactly when every keyword yields one: then one row per keyword, in keyword order, each the keyword's own row |
| Compare.KeywordRows | compare.py:45-49 | every keyword is in both vocabularies, so its neighbours are the models' own first results, never the placeholder |
| Compare.Run | compare.py:21-70 | the report's shared vocabulary, anchors, keywords and rotation are the ones above; rows are built exactly when every keyword yields a row, and then they are those rows, one per keyword in order; every keyword is in both vocabularies |
| WmdTsneLouvain.AllDocsMeaning | wmd_tsne_louvain.py:75-76 | the document list is strictly increasing and holds exactly the names in either column |
| WmdTsneLouvain.AllDocs | wmd_tsne_louvain.py:75-76 | definition of `sorted(doc_set)`; `AllDocsMeaning` states it is strictly increasing and holds exactly the named documents |
| WmdTsneLouvain.DistanceTable | wmd_tsne_louvain.py:77-83 | the table has a cell for exactly the pairs of listed documents |
| WmdTsneLouvain.FillStep | wmd_tsne_louvain.py:79-82 | assigning both cells of the next row keeps every assigned cell equal to the last distance given for its pair, and leaves every other cell unassigned |
| WmdTsneLouvain.Fillna | wmd_tsne_louvain.py:83 | `fillna(0)` keeps a cell for exactly the pairs of listed documents |
| WmdTsneLouvain.FillnaTable | wmd_tsne_louvain.py:77-83 | once every row is in, filling the unassigned cells with 0 gives the distance table |
| WmdTsneLouvain.FillDistances | wmd_tsne_louvain.py:77-83 | the fill loop and `fillna(0)` give, for every pair of documents, the last distance given for it or 0, and the table is symmetric |
| WmdTsneLouvain.LastDistanceSymmetric | wmd_tsne_louvain.py:79-82 | the last distance given for (a, b) is the one given for (b, a) |
| WmdTsneLouvain.TableSymmetric | wmd_tsne_louvain.py:81-82 | the filled table is symmetric |
| WmdTsneLouvain.LastRowWins | wmd_tsne_louvain.py:79-82 | a cell holds the distance on the last row about that unordered pair |
| WmdTsneLouvain.UnnamedIsZero | wmd_tsne_louvain.py:77-83 | a pair no row is about, including a document with itself, is 0 |
| WmdTsneLouvain.LastDistanceFrom | wmd_tsne_louvain.py:79-83 | every distance in the table was given on a row about that pair |
| WmdTsneLouvain.ColourMeaning | wmd_tsne_louvain.py:88-96 | a document is red exactly when its leading digits reach 2025 with no letter after them, which is the training script's Japanese rule; otherwise blue |
| WmdTsneLouvain.ColourOf | wmd_tsne_louvain.py:88-96 | definition of one document's colour; `ColourMeaning` states when it is red |
| WmdTsneLouvain.LanguageColours | wmd_tsne_louvain.py:87-97 | every document gets exactly one colour, and the colour list follows the document order |
| WmdTsneLouvain.EdgesFromMeaning | wmd_tsne_louvain.py:38-42 | the inner loop adds an edge to each later document with a positive distance, and no other |
| WmdTsneLouvain.EdgesBeforeMeaning | wmd_tsne_louvain.py:37-42 | after m outer passes, the edges are the positive pairs whose first index is below m |
| WmdTsneLouvain.EdgesFromDoc | wmd_tsne_louvain.py:38-42 | the inner loop for one document adds exactly its edges as `EdgesFrom` defines them, in loop order |
| WmdTsneLouvain.SelectEdges | wmd_tsne_louvain.py:36-42 | the nested loops add the edges `Edges` defines, in loop order |
| WmdTsneLouvain.EdgesMeaning | wmd_tsne_louvain.py:37-42 | an edge joins documents i < j exactly when their distance is positive; with distinct documents there is no self-loop |
| WmdTsneLouvain.Edges | wmd_tsne_louvain.py:37-42 | definition of the whole edge list: the edges of all rows of the nested loop; `EdgesMeaning` states which pairs are edges and `SelectEdges` proves the loops compute it |
| WmdTsneLouvain.RowEdgesMeaning | wmd_tsne_louvain.py:37-42 | over the filled table, an edge joins documents i < j exactly when the last distance given for them is positive, so zero and missing distances give none |
| WmdTsneLouvain.Visualise | wmd_tsne_louvain.py:71-97 | the script's document list, filled table, colours and edges are the ones above |
| WmdTsneLouvain.NodesFromEdges | wmd_tsne_louvain.py:36-42 | a graph built only by `add_edge` has exactly the edges' endpoints as nodes |
| WmdTsneLouvain.IsolatedDocumentNotNode | wmd_tsne_louvain.py:36-48 | a document whose every distance is 0 or less is not a node, so it has no community to look up |
| WmdTsneLouvain.GraphNodes | wmd_tsne_louvain.py:36-48 | definition of the corrected graph's nodes: every document, together with the edges' endpoints |
| WmdTsneLouvain.EveryDocumentIsNode | wmd_tsne_louvain.py:36-48 | with the documents added as nodes, every document is a node, isolated or not; this follows from `GraphNodes` directly and says nothing about the communities Louvain then finds |

## Findings

| source | as written | input that shows it | evidently intended | confidence | as-written member | corrected member |
|---|---|---|---|---|---|---|
| wmd_tsne_louvain.py:36-48 | the graph gets its nodes only from `add_edge`, but every document is looked up in the partition | a distance file naming at least 31 documents, so that t-SNE's perplexity of 30 (line 100) is below the number of samples and the run reaches line 125, in which one document appears only with distance 0: e.g. rows of distance 1.0 for every pair of `d01.txt` … `d30.txt` plus the single row (`d30.txt`, `d31.txt`, 0), which leaves `d31.txt` without an edge | every document is a node of the graph, isolated or not, so each has a community | medium, not executed; the corrected half shows only that adding every document as a node (`G.add_nodes_from(all_docs)`) gives each a node, since Louvain itself is outside the model | WmdTsneLouvain.IsolatedDocumentNotNode | WmdTsneLouvain.EveryDocumentIsNode |

## Left out

- Training, saving and loading of the Word2Vec models (`gensim`) are left out. A trained model is an `Embedding.Space`: its vocabulary in index order, a count per word, a vector per word, and its `most_similar` query, all supplied by the caller.
- `orthogonal_procrustes`, the products with `R`, the cosine arithmetic of `np.dot` and `np.linalg.norm`, and `round` are left out. They are floating-point library numerics, so they are function parameters, and scores are abstract `real` keys. The orthogonality of `R` belongs to the library. NaN scores are not modelled.
- The Sudachi and jieba segmenters are function parameters, and so is jieba's user dictionary. The model promises nothing about the words they produce beyond what the scripts then do with them.
- File and directory I/O, CSV reading and writing, and the loading of stopwords, skip phrases and the definition file are left out. So are `print`, `tqdm` and `exit`. A directory listing is a sequence of documents, with `None` for a missing corpus; the stopwords and skip phrases are parameters; the definition file is a sequence of rows.
- TF-IDF and the cosine-similarity matrix at the end of `analyze.py` are library numerics.
- t-SNE, Louvain `best_partition`, the `1/dist` edge weights, the community colours and all plotting and font discovery are library numerics and presentation.
- Python's iteration order over a set of words is not fixed, so it is a parameter. It is any repeat-free listing of the set's members. It decides the anchor order in `result1.py`, the tie order before the stable sort in `compare.py`, and the order in which `analyze.py` removes its skip phrases. No particular tie order is asserted there.
- `compare.py` uses `tqdm` without importing it, so as written it stops with a NameError at line 47. The model gives the loop's intended behaviour.
- `compare.py` indexes `most_similar(word, topn=1)[0]`. That raises IndexError when the model returns no neighbour, for instance when the vocabulary has one word. This is modelled as `None` for the whole row list.
- `Result1.Run` takes the keyword list as a parameter rather than the literal list at result1.py:20-37, and the reading table at result1.py:38-43 is unused. Lines 99-158 repeat lines 38-97 verbatim, so the same report is computed and printed twice; it is modelled once. Lines 10-16 likewise repeat the imports and model loading of lines 1-7.
- `Compare.Run` does not build `aligned_ch` (compare.py:32-33) and does not compute `ch_def_word` (compare.py:51). Neither is used afterwards.
- `\d` in the file-name patterns is modelled as the ASCII digits. Python's `\d` also matches other Unicode decimal digits, which corpus file names do not use.
- `FileNames.SplitExtRoot` models `os.path.splitext` on bare file names. Directory separators in the name are not modelled.
- The Japanese tokenization properties are proved for text produced by `str.encode`, which is always well-formed UTF-8. On malformed bytes, `analyze.py`'s shrink loop can reach an empty chunk and stop advancing. That case does not arise from the text the scripts read.
- `sims.sort` in `result1.py` sorts a list in place. The model sorts the scanned sequence with the specification function `Ranking.SortDesc`.
