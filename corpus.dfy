/**
 * What the scripts share about the corpus directory: its entries, the `.txt`
 * filter on their names, and segmenters (jieba, Sudachi) as opaque functions.
 */
module Corpus {
  import opened PyStrings

  /** A segmenter: `jieba.cut`, or one field (dictionary form, surface) of the morphemes Sudachi finds in one input. */
  type Segmenter = string -> seq<string>

  /** One entry of the corpus directory: a file name and the file's contents. */
  datatype Document = Document(name: string, text: string)

  /** The entries whose name ends in `.txt`, in listing order. */
  function TxtFiles(files: seq<Document>): (r: seq<Document>)
    ensures forall d :: d in r <==> d in files && EndsWith(d.name, ".txt")
  {
    if files == [] then []
    else
      var last := files[|files| - 1];
      TxtFiles(files[..|files| - 1]) + (if EndsWith(last.name, ".txt") then [last] else [])
  }
}
