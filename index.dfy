/** The document builder of create_index.py: every (text, url) row of the
    scraped CSV is cut into chunks by the text splitter, and each chunk
    becomes a document carrying its row's url as metadata. The splitter is
    the parameter `split`; the embedding and the FAISS index built from the
    documents are not modelled. */
module Index {
  import opened Wrappers
  import opened Seqs

  /** The splitter's configuration (lines 15 to 18). */
  const ChunkSize := 200
  const ChunkOverlap := 20

  /** A value of a column of the CSV: a string, or anything else pandas may
      produce there, such as NaN for an empty field. */
  datatype Cell = Str(value: string) | NotStr

  /** A langchain `Document`: `page_content` and the `url` of its
      metadata. */
  datatype Document = Document(pageContent: string, url: Cell)

  /** The documents for one row's chunks, in chunk order. */
  function ChunkDocuments(chunks: seq<string>, url: Cell): (r: seq<Document>)
    ensures |r| == |chunks|
    ensures forall k :: 0 <= k < |r| ==> r[k] == Document(chunks[k], url)
  {
    seq(|chunks|, k requires 0 <= k < |chunks| => Document(chunks[k], url))
  }

  function RowDocuments(split: string -> seq<string>): ((string, Cell)) -> seq<Document> {
    (row: (string, Cell)) => ChunkDocuments(split(row.0), row.1)
  }

  /** The documents the loop of lines 21 to 25 builds. */
  function Documents(texts: seq<string>, urls: seq<Cell>, split: string -> seq<string>): seq<Document> {
    FlatMap(Zip(texts, urls), RowDocuments(split))
  }

  /** Why the loop of lines 21 to 25 stops: `split_text` raises on a text
      cell that is not a string, such as the NaN pandas reads for an empty
      text field. */
  datatype IndexError = TextNotString

  /** The strings of a column of cells; a cell that is not a string stands
      here as the empty string, which only matters where the loop fails. */
  function Texts(cells: seq<Cell>): (r: seq<string>)
    ensures |r| == |cells|
    ensures forall k :: 0 <= k < |cells| && cells[k].Str? ==> r[k] == cells[k].value
  {
    seq(|cells|, k requires 0 <= k < |cells| => if cells[k].Str? then cells[k].value else "")
  }

  /** Lines 24 and 25: the inner loop, appending a document for every chunk
      of one row. */
  method AppendChunks(documents: seq<Document>, chunks: seq<string>, url: Cell)
    returns (r: seq<Document>)
    ensures r == documents + ChunkDocuments(chunks, url)
  {
    r := documents;
    for j := 0 to |chunks|
      invariant r == documents + ChunkDocuments(chunks[..j], url)
    {
      assert ChunkDocuments(chunks[..j + 1], url) == ChunkDocuments(chunks[..j], url) + [Document(chunks[j], url)];
      r := r + [Document(chunks[j], url)];
    }
    assert chunks[..|chunks|] == chunks;
  }

  /** Lines 21 to 25: the nested loop that appends a document for every chunk
      of every zipped row. A row whose text is not a string ends the script
      before any index is built. */
  method BuildDocuments(texts: seq<Cell>, urls: seq<Cell>, split: string -> seq<string>)
    returns (r: Result<seq<Document>, IndexError>)
    ensures r.Failure? <==> exists i :: 0 <= i < Min(|texts|, |urls|) && texts[i].NotStr?
    ensures r.Success? ==> r.value == Documents(Texts(texts), urls, split)
  {
    var rows := Zip(texts, urls);
    ghost var pairs := Zip(Texts(texts), urls);
    var documents := [];
    for i := 0 to |rows|
      invariant forall k :: 0 <= k < i ==> texts[k].Str?
      invariant documents == FlatMap(pairs[..i], RowDocuments(split))
    {
      var (cell, url) := rows[i];
      if cell.NotStr? {
        return Failure(TextNotString);
      }
      var chunks := split(cell.value);
      documents := AppendChunks(documents, chunks, url);
      assert pairs[i] == (cell.value, url);
      RowStep(pairs, i, split);
    }
    assert pairs[..|pairs|] == pairs;
    return Success(documents);
  }

  /** One row more: its chunks' documents go at the end. */
  lemma RowStep(pairs: seq<(string, Cell)>, i: nat, split: string -> seq<string>)
    requires i < |pairs|
    ensures FlatMap(pairs[..i + 1], RowDocuments(split))
         == FlatMap(pairs[..i], RowDocuments(split)) + ChunkDocuments(split(pairs[i].0), pairs[i].1)
  {
    assert pairs[..i + 1] == pairs[..i] + [pairs[i]];
    FlatMapSnoc(pairs[..i], pairs[i], RowDocuments(split));
  }

  /** A document exists exactly for each chunk of each paired row, and it
      carries that chunk unmodified and that row's url. */
  lemma DocumentsOrigin(texts: seq<string>, urls: seq<Cell>, split: string -> seq<string>, d: Document)
    ensures d in Documents(texts, urls, split) <==>
      exists i, j :: 0 <= i < Min(|texts|, |urls|) && 0 <= j < |split(texts[i])|
        && d == Document(split(texts[i])[j], urls[i])
  {
    var rows := Zip(texts, urls);
    FlatMapMembers(rows, RowDocuments(split), d);
    if d in Documents(texts, urls, split) {
      var i :| 0 <= i < |rows| && d in RowDocuments(split)(rows[i]);
      var j :| 0 <= j < |split(texts[i])| && d == ChunkDocuments(split(texts[i]), urls[i])[j];
      assert d == Document(split(texts[i])[j], urls[i]);
    }
    if exists i, j :: 0 <= i < Min(|texts|, |urls|) && 0 <= j < |split(texts[i])|
        && d == Document(split(texts[i])[j], urls[i]) {
      var i, j :| 0 <= i < Min(|texts|, |urls|) && 0 <= j < |split(texts[i])|
        && d == Document(split(texts[i])[j], urls[i]);
      assert d == RowDocuments(split)(rows[i])[j];
    }
  }

  /** The number of chunks the splitter cuts the texts into, together. */
  function ChunkCount(texts: seq<string>, split: string -> seq<string>): nat
    decreases |texts|
  {
    if texts == [] then 0 else ChunkCount(texts[..|texts| - 1], split) + |split(texts[|texts| - 1])|
  }

  lemma {:induction false} SumLengthsIsChunkCount(texts: seq<string>, urls: seq<Cell>, split: string -> seq<string>)
    requires |texts| == |urls|
    ensures SumLengths(Zip(texts, urls), RowDocuments(split)) == ChunkCount(texts, split)
    decreases |texts|
  {
    if texts != [] {
      var n := |texts| - 1;
      var rows := Zip(texts, urls);
      assert rows[..n] == Zip(texts[..n], urls[..n]);
      SumLengthsIsChunkCount(texts[..n], urls[..n], split);
    }
  }

  /** There are as many documents as the paired rows have chunks: a row the
      splitter cuts into no chunks contributes none. */
  lemma DocumentCount(texts: seq<string>, urls: seq<Cell>, split: string -> seq<string>)
    ensures |Documents(texts, urls, split)| == ChunkCount(texts[..Min(|texts|, |urls|)], split)
  {
    var n := Min(|texts|, |urls|);
    var rows := Zip(texts, urls);
    assert rows == Zip(texts[..n], urls[..n]);
    FlatMapLength(rows, RowDocuments(split));
    SumLengthsIsChunkCount(texts[..n], urls[..n], split);
  }

  /** Documents are in row order, and within a row in chunk order: chunk `j`
      of row `i` follows all the chunks of the rows before it. */
  lemma DocumentAt(texts: seq<string>, urls: seq<Cell>, split: string -> seq<string>, i: nat, j: nat)
    requires i < Min(|texts|, |urls|) && j < |split(texts[i])|
    ensures ChunkCount(texts[..i], split) + j < |Documents(texts, urls, split)|
    ensures Documents(texts, urls, split)[ChunkCount(texts[..i], split) + j] == Document(split(texts[i])[j], urls[i])
  {
    var rows := Zip(texts, urls);
    FlatMapAt(rows, RowDocuments(split), i, j);
    assert rows[..i] == Zip(texts[..i], urls[..i]);
    SumLengthsIsChunkCount(texts[..i], urls[..i], split);
  }

  /** The documents of rows given one after another are those of the first
      rows followed by those of the rest. */
  lemma DocumentsAppend(t1: seq<string>, t2: seq<string>, u1: seq<Cell>, u2: seq<Cell>, split: string -> seq<string>)
    requires |t1| == |u1|
    ensures Documents(t1 + t2, u1 + u2, split) == Documents(t1, u1, split) + Documents(t2, u2, split)
  {
    ZipAppend(t1, t2, u1, u2);
    FlatMapAppend(Zip(t1, u1), Zip(t2, u2), RowDocuments(split));
  }

  /** As with `zip`, texts without a url and urls without a text are
      ignored. */
  lemma SurplusRowsIgnored(texts: seq<string>, urls: seq<Cell>, moreTexts: seq<string>, moreUrls: seq<Cell>, split: string -> seq<string>)
    requires |texts| == |urls|
    ensures Documents(texts + moreTexts, urls, split) == Documents(texts, urls, split)
    ensures Documents(texts, urls + moreUrls, split) == Documents(texts, urls, split)
  {
    ZipIgnoresSurplus(texts, urls, moreTexts, moreUrls);
  }

  /** If the splitter never yields a chunk longer than `ChunkSize`, neither
      is any document's content. */
  lemma ChunkSizeBound(texts: seq<string>, urls: seq<Cell>, split: string -> seq<string>, d: Document)
    requires forall t, c :: c in split(t) ==> |c| <= ChunkSize
    requires d in Documents(texts, urls, split)
    ensures |d.pageContent| <= ChunkSize
  {
    DocumentsOrigin(texts, urls, split, d);
    var i, j :| 0 <= i < Min(|texts|, |urls|) && 0 <= j < |split(texts[i])|
      && d == Document(split(texts[i])[j], urls[i]);
    assert split(texts[i])[j] in split(texts[i]);
  }
}
