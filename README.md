# sozoku-rag in Dafny

sozoku-rag is a small retrieval-augmented question-answering service about
Japanese inheritance tax. Four scripts form a pipeline:

- `get_all_links.py` collects the `kihon` links of a National Tax Agency
  index page into a URL list file.
- `scrape.py` reads that list. For every page it writes one CSV row per
  `<h2>` heading that has a following paragraph, with the paragraph text
  normalised.
- `create_index.py` cuts each CSV text into chunks and makes one document per
  chunk, tagged with its row's url, for a vector index.
- `main.py` serves `/chat`. It retrieves documents for the query, streams the
  language model's answer to a prompt holding the query and the retrieved
  text, and ends with the distinct source URLs.

This project models the logic of those scripts and proves what it promises.
Network access, HTML parsing, the embedding service, the vector index and the
language model are external. They enter the model as inputs:

- the anchors' `href` values;
- a `fetch` function from a URL to a page's title and heading/paragraph pairs;
- a `split` function standing for the text splitter;
- a `search` function from a query to scored documents;
- an `llm` function from a prompt to its fragments.

Modules:

- `Wrappers` holds `Option` and `Result`.
- `Text` holds the Python string operations the scripts use: `strip`,
  `replace`, `split`, `in`, `join`, file lines, and string `<`.
- `Seqs` holds flattening and `zip`.
- `Links`, `Scrape`, `Index` and `Chat` model one script each.

Where a script only computes values, the model is functions and lemmas. Where
a script builds its output in a loop, the model is a method with loop
invariants, proved equal to a specification function. The lemmas then state
what the script promises about that function. The one exception is the
write loop of get_all_links.py:25-26: it only appends each link and a
newline, and is modelled by the function `Text.WriteLines`, which
`Links.LinkFile` uses.

The model follows the code; in particular:

- The site prefix is added to every `href`, not only to relative ones.
- A heading takes the next `<p>` sibling, which need not be the element
  right after it.
- Newlines in a paragraph are deleted, not collapsed into a space.
- No score threshold is applied to the retrieved documents.
- Only an empty query gets the 400 answer.

## Model

| member | source | states |
|---|---|---|
| Links.FilteredLinks | get_all_links.py:18 | definition: the set comprehension of line 18, `split('#')[0]` of every link that contains the keyword. |
| Links.Yields | get_all_links.py:15-18 | definition: an `href` yields a link when site plus `href` contains the keyword and cuts at `#` to that link. |
| Links.CollectLinks | get_all_links.py:15-21 | definition: the collector with the script's own site `https://www.nta.go.jp` and keyword `kihon`. |
| Links.LinkFile | get_all_links.py:24-26 | definition: the content of the URL list file, each sorted link followed by a newline, or the collector's failure. |
| Links.Candidates | get_all_links.py:15 | Succeeds exactly when every anchor has an `href`, since `str + None` raises. The result then has one link per anchor, in order, each exactly the site followed by the `href`, even when the `href` is already absolute. |
| Links.BeforeHash | get_all_links.py:18 | `split('#')[0]` holds no `#`. It is a prefix of the link, and where it is shorter the link continues with `#`. |
| Links.BeforeHashIdempotent | get_all_links.py:18 | Cutting at `#` twice gives the same as cutting once. |
| Links.Filtered | get_all_links.py:18 | Has exactly the elements of the set comprehension: the links containing the keyword, each cut before `#`. It is no longer than the list of links. |
| Links.Insert | get_all_links.py:21 | Adding a link to a strictly increasing list keeps it strictly increasing. The result holds exactly the old elements and the new one. |
| Links.SortedDistinct | get_all_links.py:18-21 | `sorted` of a set: strictly increasing in Python's string order, with the same elements as the input, and no longer than it. |
| Links.StrictlyIncreasingDistinct | get_all_links.py:21 | A strictly increasing list has no duplicates. |
| Links.StrictlyIncreasingUnique | get_all_links.py:21 | Two strictly increasing lists with the same elements are equal, so the sorted output is fixed by the set alone. |
| Links.FilteredCandidates | get_all_links.py:15-18 | A link is in the filtered set exactly when some `href`, prefixed with the site, contains the keyword and cuts to that link. |
| Links.Collect | get_all_links.py:15-21 | Fails exactly when an anchor has no `href`. Otherwise the links are strictly increasing, at most one per anchor, and a link is listed exactly when some `href` yields it: site plus `href` contains the keyword and cuts to it. |
| Links.CollectedLinksHaveNoFragment | get_all_links.py:18-21 | No collected link contains `#`, and cutting it again leaves it unchanged. |
| Links.CollectIgnoresAnchorOrder | get_all_links.py:15-21 | Anchor lists with the same elements give the same output, whatever their order or repetitions. |
| Links.CutAtHash | get_all_links.py:18 | A `#`-free link followed by `#` and anything cuts back to the link. |
| Links.KeywordTestedBeforeCut | get_all_links.py:18 | The keyword is tested before the cut. An `href` whose only keyword follows a `#` still yields the link without its fragment, although that link need not contain the keyword. |
| Links.SiteKeywordAfterHash | get_all_links.py:15-18 | The script's own instance: `path#kihon` is collected as `https://www.nta.go.jp` followed by `path`. |
| Text.Contains | get_all_links.py:18 | definition: Python's `sub in s` on strings, `sub` starting at some position of `s`. |
| Text.OccursAt | get_all_links.py:18 | definition: `sub` occurs in `s` starting at position `k`. |
| Text.ContainsOccurrence | get_all_links.py:18 | A string that contains `sub` has an occurrence of it at some position. With `Text.ContainsAt`, `sub in s` holds exactly when `sub` starts at some position of `s`. |
| Text.ReplaceChar | scrape.py:32 | definition: `s.replace(c, t)` for one character `c`, each occurrence becoming `t`, every other character kept in order. |
| Text.Join | main.py:30 | definition: `sep.join(xs)`, the pieces with the separator between neighbours. |
| Text.Lines | scrape.py:7-8 | definition: the lines iteration over a text file yields, each up to and including its newline, the last one possibly without. |
| Text.WriteLines | get_all_links.py:25-26 | definition: the file content of writing every string followed by a newline. |
| Text.Less | get_all_links.py:21 | definition: Python's `<` on `str`, lexicographic by code point with a proper prefix first. |
| Text.Concat | main.py:105 | definition: the text a stream of fragments delivers, its fragments one after another. |
| Text.Strip | scrape.py:8 | `strip()` leaves no whitespace at either end. The whitespace set is Python's `isspace`. |
| Text.StripIsMiddle | scrape.py:8 | What `strip()` keeps is a middle part of the string: everything it removes, at either end, is whitespace. |
| Text.StripEmptyIffAllSpace | scrape.py:32 | `strip()` gives the empty string exactly when the string is whitespace only. |
| Text.StripOfTrimmed | scrape.py:8 | A string with no whitespace at either end is left unchanged by `strip()`. |
| Text.StripSpaceSuffix | scrape.py:8 | Stripping a trimmed line with its newline gives the line back. |
| Text.ReplaceCharMembers | scrape.py:32 | `replace` of one character leaves only characters of the replacement and characters of the input other than the replaced one. |
| Text.ReplaceCharAbsent | scrape.py:32 | Replacing a character that does not occur changes nothing. |
| Text.ReplaceCharAppend | scrape.py:32 | `replace` distributes over concatenation. |
| Text.SplitOn | get_all_links.py:18 | No piece of `split` on one character holds the separator. |
| Text.SplitOnCount | get_all_links.py:18 | `split` of one character gives one piece more than there are occurrences of it. |
| Text.SplitJoin | main.py:30 | For a non-empty list of pieces, splitting a join on its one-character separator gives the pieces back when no piece holds the separator (the empty list joins to `""`, which splits to `[""]`). |
| Text.JoinSplit | get_all_links.py:18 | Joining the pieces of a one-character `split` with that character gives the string back. |
| Text.JoinEmpty | main.py:94-95 | A join with a non-empty separator is empty exactly when there are no pieces or a single empty piece. |
| Text.LinesCons | scrape.py:8 | A first line without a newline is read back as that line with its newline, before the lines of the rest. |
| Text.LinesOfWriteLines | get_all_links.py:25-26 | Reading back, line by line, lines written each with a newline gives as many lines as were written, line k being written line k with its newline, when no line holds a newline. |
| Text.LessTransitive | get_all_links.py:21 | Python's string order is transitive. |
| Text.LessTotal | get_all_links.py:21 | Python's string order is total on distinct strings. |
| Text.LessAsymmetric | get_all_links.py:21 | Python's string order is asymmetric. |
| Text.LessIrreflexive | get_all_links.py:21 | No string is less than itself. |
| Text.ConcatAppend | main.py:105 | The text of a stream of fragments is the text of its first part followed by that of the rest. |
| Scrape.ReadUrls | scrape.py:7-8 | definition: the list comprehension of line 8, every line of the file stripped. |
| Scrape.NormalizeChars | scrape.py:32 | definition: the reference one-pass normalisation, U+3000 and `\n` deleted, `,` turned into U+FF0C, any other character kept. |
| Scrape.RecordLine | scrape.py:35-36 | definition: the f-string of line 36, title, text and url separated by commas and ended by a newline. |
| Scrape.SectionRecord | scrape.py:26-36 | definition: the row of one heading, none when it has no paragraph, otherwise page title plus stripped heading, normalised paragraph and page URL. |
| Scrape.SectionRecords | scrape.py:26-37 | definition: the rows of a page's headings, in heading order. |
| Scrape.Records | scrape.py:16-37 | definition: the rows of the fetched page of every URL, in URL order. |
| Scrape.Render | scrape.py:35-37 | definition: the CSV lines of a list of rows, one after another. |
| Scrape.Normalize | scrape.py:32 | The normalised paragraph holds no `,`, no newline and no U+3000. |
| Scrape.NormalizeIsOnePass | scrape.py:32 | The three chained `replace` calls equal one pass over the stripped text. The pass deletes U+3000 and newlines and turns `,` into `，`, keeping every other character in order. |
| Scrape.NormalizedIsTrimmed | scrape.py:32 | A normalised text has no whitespace at either end. |
| Scrape.EmptyTextIffBlank | scrape.py:32-36 | The normalised text is empty exactly when the paragraph is whitespace only, and line 36 then writes an empty text field. |
| Scrape.NormalizeIdempotent | scrape.py:32 | Normalising a normalised text changes nothing. |
| Scrape.ScrapePage | scrape.py:22-37 | The lines written for one page are the rendering of that page's rows: one per heading with a paragraph, in heading order. |
| Scrape.ScrapeUrls | scrape.py:11-37 | The CSV content is the header `title,text,url` followed by the rows of every page, in the order of the URLs. |
| Scrape.Scrape | scrape.py:7-37 | The CSV written for a URL list file is the header followed by the rows of the pages of its stripped lines, in file order. |
| Scrape.UrlListRoundTrip | scrape.py:8 | Reading the URL list file gives the written links back when no link holds a `\n` or `\r` or has whitespace at an end. |
| Scrape.LinkFileReadBack | get_all_links.py:24-26 | The URL list file the link collector writes reads back as exactly the collected links, under the same condition. |
| Scrape.SectionRecordsMembers | scrape.py:26-36 | A page's rows are exactly the headings with a paragraph. The title is the page title plus the stripped heading, the text is the normalised paragraph, and the url is the page URL. |
| Scrape.SectionRecordsAppend | scrape.py:26-37 | Rows follow the heading order. |
| Scrape.HeadingWithoutParagraph | scrape.py:31 | A heading with no paragraph writes no row. |
| Scrape.EveryHeadingWithParagraph | scrape.py:26-37 | When every heading has a paragraph, there is one row per heading, and row k comes from heading k. |
| Scrape.RecordsAppend | scrape.py:16 | Pages are processed in the order of the URL list. |
| Scrape.RecordsStep | scrape.py:16-37 | Processing one more URL appends the rows of its page to the rows so far. |
| Scrape.RenderAppend | scrape.py:35-37 | Rows written one after another give their lines one after another. |
| Scrape.RecordsWellFormed | scrape.py:32-36 | Every row's text is free of `,`, newlines and U+3000. Its url is one of the listed URLs, unchanged. |
| Scrape.RecordLineFields | scrape.py:36 | A row whose title and url hold no comma splits on `,` into its three fields. |
| Scrape.RecordLineFieldCount | scrape.py:35-36 | Only the text is escaped. A line splits into three fields plus one per comma of the title and of the url. |
| Index.Documents | create_index.py:21-25 | definition: on the strings of the texts, the documents of every chunk of every row that `zip` pairs, rows in order and chunks in order within a row. |
| Index.ChunkDocuments | create_index.py:24-25 | One document per chunk, in chunk order, each holding the chunk and the row's url. |
| Index.Texts | create_index.py:11 | The text column as strings, position by position, for every cell that holds a string. |
| Index.AppendChunks | create_index.py:24-25 | The inner loop appends, after the documents so far, one document per chunk of the row, in chunk order, each with the row's url. |
| Index.BuildDocuments | create_index.py:21-25 | Fails exactly when some zipped row's text is not a string, since `split_text` raises on it. Otherwise the nested loop builds exactly the documents of every chunk of every zipped row, in order. |
| Index.RowStep | create_index.py:22-25 | One more zipped row appends the documents of its chunks to the documents so far. |
| Index.DocumentsOrigin | create_index.py:22-25 | A document exists exactly for each chunk of a paired row. It holds that chunk unmodified and that row's url. |
| Index.DocumentCount | create_index.py:23-25 | There are as many documents as the paired rows have chunks. |
| Index.DocumentAt | create_index.py:21-25 | Chunk j of row i is at position j after all chunks of the earlier rows: row order first, then chunk order. |
| Index.DocumentsAppend | create_index.py:21-25 | The documents of consecutive rows are those of the first rows followed by those of the rest. |
| Index.SurplusRowsIgnored | create_index.py:22 | As with `zip`, texts without a url and urls without a text give no documents. |
| Index.ChunkSizeBound | create_index.py:15-17 | If the splitter keeps chunks within 200 characters, so are all document contents. |
| Seqs.Zip | create_index.py:22 | `zip` pairs equal positions, as many as the shorter list has. |
| Chat.Contents | main.py:30 | The page contents of the retrieved documents, one per document, in order. |
| Chat.Context | main.py:30 | definition: the page contents joined with newlines. |
| Chat.Prompt | main.py:31-78 | definition: the prompt f-string, the instructions followed by the query and the context at their headings. |
| Chat.AttributedUrls | main.py:93 | definition: the set comprehension of line 93, the url of every retrieved document whose url is a string not containing `url`. |
| Chat.Enumerates | main.py:94 | definition: a list holding each element of a set exactly once, the order the iteration of line 94 may take. |
| Chat.Sources | main.py:94-96 | definition: the final fragment, the heading and the newline-joined urls, sent only when that join is non-empty. |
| Chat.AnswerStream | main.py:82-96 | definition: the stream of the answer generator, the not-found message when nothing is retrieved, otherwise the model's fragments for the prompt followed by the sources in some order of the attributed urls. |
| Chat.Retained | main.py:84 | Every retrieved document is kept, in retrieval order, whatever its score. |
| Chat.RetainedIgnoresScores | main.py:84 | Hits that differ only in their scores give the same documents. |
| Chat.ContextRoundTrip | main.py:30 | The context holds every retrieved content, in order. When at least one document is retrieved, splitting it on newlines gives the contents back when none holds a newline. |
| Chat.PromptHoldsQueryAndContext | main.py:74-77 | The prompt contains the query and the context. |
| Chat.GenerateResponseStream | main.py:29-80 | Emits the model's fragments for the prompt made from the query and the context, unchanged and in order. |
| Chat.AttributedUrlsMembers | main.py:93 | A url is attributed exactly when some retrieved document carries it as a string and it does not contain `url`. |
| Chat.HeaderRowNotAttributed | main.py:93 | A document with url `url`, as the CSV header row gives, is never attributed. |
| Chat.NonStringUrlNotAttributed | main.py:93 | A document whose url is not a string is never attributed. |
| Chat.UrlSubstringDropped | main.py:93 | Any url containing `url` is dropped, genuine URLs included. |
| Chat.RepeatedUrlOnce | main.py:93 | A url retrieved again adds nothing. |
| Chat.Enumerate | main.py:94 | Iterating the url set lists each of its elements exactly once, in some order. |
| Chat.SourcesSentIffNonEmptyUrl | main.py:94-96 | The sources fragment is sent exactly when some attributed url is non-empty. |
| Chat.SourcesListEachUrlOnce | main.py:94-96 | When no url holds a newline, the lines of the listed sources are exactly the attributed urls, each once. |
| Chat.ChatWithRagAndLlmStream | main.py:82-96 | With no hits the stream is the single not-found message and the model is not used. Otherwise the stream is the model's fragments for the prompt, unchanged and in order. They are followed, when the joined url list is non-empty, by one fragment of heading and urls. |
| Chat.ChatEndpoint | main.py:99-105 | An empty query, and only an empty query, gets `400 Query is required`. Any other query gets the stream above. |
| Chat.StreamBody | main.py:86-96 | The streamed body is the not-found message, or the model's text followed by the heading and the urls joined by newlines when that list is non-empty. |

## Left out

- Fetching, HTML parsing, `find_next_sibling('p')` and the one-second pause (get_all_links.py:8-12, scrape.py:18-25, 28, 43) are external I/O and library behaviour. A page is an input value: a title and its headings with optional paragraphs.
- An anchor without an `href` makes `str + None` raise, which ends the script; this is modelled as the error result `MissingHref`. Scripts that stop on a failed request are not modelled.
- Python's universal newlines (a `\r\n` or `\r` line end read as `\n`) are left out: lines end only at `\n`. `Scrape.UrlListRoundTrip` and `Scrape.LinkFileReadBack` therefore ask that no link holds a `\r`, so that what they state holds of Python as well.
- The debugging `print` of every row (scrape.py:40) writes to the console, not to the file, and is left out.
- Loading the CSV with pandas (create_index.py:8) is foreign library behaviour. Texts and urls are input lists of cells: a string, or `NotStr` for anything else, such as the NaN pandas reads for an empty field. Such an empty text field is what `Scrape.Normalize` gives for a whitespace-only paragraph (`Scrape.EmptyTextIffBlank`). The `TypeError` that `split_text` then raises (create_index.py:23) is the failure `TextNotString` of `Index.BuildDocuments`. Which CSV fields pandas reads as NaN is not modelled.
- The text splitter (create_index.py:15-18, 23) is the input function `split`. Its sizes appear only as the constants `Index.ChunkSize` and `Index.ChunkOverlap`, and the chunk size also as the precondition of `Index.ChunkSizeBound`. The overlap between consecutive chunks is the splitter's own behaviour and is not modelled.
- The embeddings, building, saving and loading the FAISS index, and the similarity search (create_index.py:30-36, main.py:22-23, 83) are remote services and an opaque format. The search is the input function `search`, and scores are carried but never used.
- The language model (main.py:24, 79) is the input function `llm`, from a prompt to its fragments.
- Chat.Prompt: the fixed instructions of main.py:31-73 are represented by their first sentence. Only the interpolation of query and context is modelled exactly.
- The FastAPI app, CORS, the request model and `StreamingResponse` (main.py:10-19, 26-27, 98-105) are framework code. A request without a `query` field is refused by the framework before the handler runs, so only the empty-query answer is modelled. The streamed body is the sequence of its fragments.
- Generators are modelled as the finished sequence of what they yield; laziness and interleaving with the client are not.
- Set iteration order (main.py:93-94) is not fixed by Python: the model states "some order listing each url once" instead of one order.
- crassify.py is not part of this model: it is an interactive console loop around a model call and float-valued validation.
