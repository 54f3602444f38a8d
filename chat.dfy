/** The answer stream of main.py: the documents the vector search retrieves
    for a query become the context of a prompt, the language model's
    fragments are passed on as they come, and a final fragment lists the
    distinct source URLs. The search and the model are the parameters
    `search` and `llm`; the HTTP framework is reduced to the empty-query
    check and the fragments of the streamed body. */
module Chat {
  import opened Text
  import opened Index

  /** The single fragment sent when nothing is retrieved (line 87). */
  const NotFound := "関連する情報が見つかりませんでした。"

  /** What precedes the URL list in the last fragment (line 96). */
  const SourcesHeading := "\n\n### 出典元URL:\n\n"

  /** The substring whose presence excludes a url from the sources
      (line 93). */
  const UrlWord := "url"

  const QueryRequired := "Query is required"

  /** The opening sentence of the instructions of lines 31 to 73. */
  const Instructions := "税務の専門家として、相続税に関する次の質問に対し、詳しくかつ正確に回答してください。"

  /** A search hit: the document and its distance score. */
  datatype Scored = Scored(doc: Document, score: real)

  /** What the endpoint answers: an HTTP error, or a body streamed as a
      sequence of text fragments. */
  datatype Response = BadRequest(status: int, detail: string) | Streaming(fragments: seq<string>)

  /** Line 84: the documents of the hits, in the order found, whatever their
      score. */
  function Retained(results: seq<Scored>): (docs: seq<Document>)
    ensures |docs| == |results|
    ensures forall i :: 0 <= i < |results| ==> docs[i] == results[i].doc
  {
    seq(|results|, i requires 0 <= i < |results| => results[i].doc)
  }

  /** The scores play no part: hits with the same documents give the same
      documents. */
  lemma RetainedIgnoresScores(r1: seq<Scored>, r2: seq<Scored>)
    requires |r1| == |r2| && forall i :: 0 <= i < |r1| ==> r1[i].doc == r2[i].doc
    ensures Retained(r1) == Retained(r2)
  {
    assert forall i :: 0 <= i < |r1| ==> Retained(r1)[i] == Retained(r2)[i];
  }

  function Contents(docs: seq<Document>): (r: seq<string>)
    ensures |r| == |docs| && forall i :: 0 <= i < |docs| ==> r[i] == docs[i].pageContent
  {
    seq(|docs|, i requires 0 <= i < |docs| => docs[i].pageContent)
  }

  /** Line 30: the page contents joined with newlines. */
  function Context(docs: seq<Document>): string {
    Join("\n", Contents(docs))
  }

  /** The context keeps every retrieved content, in retrieval order: when no
      content holds a newline, splitting the context on newlines gives them
      back. */
  lemma ContextRoundTrip(docs: seq<Document>)
    requires docs != []
    requires forall i :: 0 <= i < |docs| ==> '\n' !in docs[i].pageContent
    ensures SplitOn(Context(docs), '\n') == Contents(docs)
  {
    SplitJoin(Contents(docs), '\n');
  }

  /** Lines 31 to 78: the prompt, with the query and then the context
      interpolated under their headings. */
  function Prompt(query: string, context: string): string {
    Instructions + "\n    # 質問\n    " + query + "\n    # 関連情報\n    " + context + "\n    "
  }

  /** The prompt holds the query and the context. */
  lemma PromptHoldsQueryAndContext(query: string, context: string)
    ensures Contains(Prompt(query, context), query)
    ensures Contains(Prompt(query, context), context)
  {
    var before := Instructions + "\n    # 質問\n    ";
    var middle := "\n    # 関連情報\n    ";
    var p := Prompt(query, context);
    assert p == before + query + middle + context + "\n    ";
    assert p[|before|..|before| + |query|] == query;
    ContainsAt(p, query, |before|);
    var at := |before| + |query| + |middle|;
    assert p[at..at + |context|] == context;
    ContainsAt(p, context, at);
  }

  /** Lines 29 to 80: the model's fragments for the prompt built from the
      query and the documents, passed on one by one. */
  method GenerateResponseStream(query: string, docs: seq<Document>, llm: string -> seq<string>)
    returns (fragments: seq<string>)
    ensures fragments == llm(Prompt(query, Context(docs)))
  {
    var prompt := Prompt(query, Context(docs));
    var chunks := llm(prompt);
    fragments := [];
    for k := 0 to |chunks|
      invariant fragments == chunks[..k]
    {
      assert chunks[..k + 1] == chunks[..k] + [chunks[k]];
      fragments := fragments + [chunks[k]];
    }
    assert chunks[..|chunks|] == chunks;
  }

  /** Line 93: the urls of the retrieved documents that are strings and do
      not contain `url`. */
  function AttributedUrls(docs: seq<Document>): set<string> {
    set i | 0 <= i < |docs| && docs[i].url.Str? && !Contains(docs[i].url.value, UrlWord) :: docs[i].url.value
  }

  /** A url is attributed exactly when some retrieved document carries it
      as a string without `url` in it. */
  lemma AttributedUrlsMembers(docs: seq<Document>, u: string)
    ensures u in AttributedUrls(docs) <==>
      (exists d :: d in docs && d.url == Str(u)) && !Contains(u, UrlWord)
  {
    if exists d :: d in docs && d.url == Str(u) {
      var d :| d in docs && d.url == Str(u);
      var i :| 0 <= i < |docs| && docs[i] == d;
      assert docs[i].url.value == u;
    }
  }

  /** The header line of the CSV, read as a data row, gives documents whose
      url is the string `url`; they are never attributed. */
  lemma HeaderRowNotAttributed(docs: seq<Document>, content: string)
    ensures AttributedUrls(docs + [Document(content, Str(UrlWord))]) == AttributedUrls(docs)
  {
    var all := docs + [Document(content, Str(UrlWord))];
    assert StartsWith(UrlWord, UrlWord);
    assert forall i :: 0 <= i < |docs| ==> all[i] == docs[i];
  }

  /** A document whose url is no string is never attributed. */
  lemma NonStringUrlNotAttributed(docs: seq<Document>, content: string)
    ensures AttributedUrls(docs + [Document(content, NotStr)]) == AttributedUrls(docs)
  {
    var all := docs + [Document(content, NotStr)];
    assert forall i :: 0 <= i < |docs| ==> all[i] == docs[i];
  }

  /** The test is on the substring: a genuine URL with `url` anywhere in it
      is dropped as well, wherever it was retrieved. */
  lemma UrlSubstringDropped(docs: seq<Document>, u: string)
    requires Contains(u, UrlWord)
    ensures u !in AttributedUrls(docs)
  {
    AttributedUrlsMembers(docs, u);
  }

  /** A url retrieved again adds nothing: each url counts once. */
  lemma RepeatedUrlOnce(docs: seq<Document>, i: nat, content: string)
    requires i < |docs|
    ensures AttributedUrls(docs + [Document(content, docs[i].url)]) == AttributedUrls(docs)
  {
    var all := docs + [Document(content, docs[i].url)];
    assert forall k :: 0 <= k < |docs| ==> all[k] == docs[k];
    assert all[|docs|].url == all[i].url;
  }

  /** `order` lists every element of `s` exactly once. */
  predicate Enumerates(order: seq<string>, s: set<string>) {
    && |order| == |s|
    && (forall x :: x in order ==> x in s)
    && (forall x :: x in s ==> x in order)
    && (forall i, j :: 0 <= i < j < |order| ==> order[i] != order[j])
  }

  /** Line 94: iteration over a set, in an order the set does not fix. */
  method Enumerate(s: set<string>) returns (order: seq<string>)
    ensures Enumerates(order, s)
  {
    order := [];
    var rest := s;
    while rest != {}
      invariant rest <= s
      invariant forall x :: x in order <==> x in s && x !in rest
      invariant forall i, j :: 0 <= i < j < |order| ==> order[i] != order[j]
      invariant |order| + |rest| == |s|
      decreases |rest|
    {
      var x :| x in rest;
      order := order + [x];
      rest := rest - {x};
    }
  }

  /** Lines 94 to 96: the closing fragment, sent only when the joined URL
      list is not empty. */
  function Sources(order: seq<string>): seq<string> {
    var urls := Join("\n", order);
    if urls == "" then [] else [SourcesHeading + urls]
  }

  /** The sources fragment is sent exactly when some attributed url is
      not the empty string. */
  lemma SourcesSentIffNonEmptyUrl(order: seq<string>, s: set<string>)
    requires Enumerates(order, s)
    ensures Sources(order) != [] <==> exists u :: u in s && u != ""
  {
    JoinEmpty("\n", order);
    if |order| >= 2 {
      assert order[0] != order[1];
      assert order[0] in s && order[1] in s;
    } else if |order| == 1 {
      assert order[0] in s;
      assert forall u :: u in s ==> u == order[0];
    }
  }

  /** When no url holds a newline, the lines of the URL list are exactly the
      attributed urls, each once. */
  lemma SourcesListEachUrlOnce(order: seq<string>, s: set<string>)
    requires Enumerates(order, s) && s != {}
    requires forall u :: u in s ==> '\n' !in u
    ensures SplitOn(Join("\n", order), '\n') == order
  {
    assert order != [] by {
      var u :| u in s;
      assert u in order;
    }
    SplitJoin(order, '\n');
  }

  /** What the stream of lines 82 to 96 is: the not-found fragment alone when
      nothing was retrieved; otherwise the model's fragments, unchanged and
      in order, then the sources fragment for some order of the attributed
      urls. */
  ghost predicate AnswerStream(query: string, results: seq<Scored>, llm: string -> seq<string>, stream: seq<string>) {
    var docs := Retained(results);
    if results == [] then stream == [NotFound]
    else exists order ::
      Enumerates(order, AttributedUrls(docs)) && stream == llm(Prompt(query, Context(docs))) + Sources(order)
  }

  /** Lines 82 to 96. */
  method ChatWithRagAndLlmStream(query: string, search: string -> seq<Scored>, llm: string -> seq<string>)
    returns (stream: seq<string>)
    ensures AnswerStream(query, search(query), llm, stream)
  {
    var results := search(query);
    var docs := Retained(results);
    if docs == [] {
      stream := [NotFound];
      return;
    }
    stream := [];
    var fragments := GenerateResponseStream(query, docs, llm);
    for k := 0 to |fragments|
      invariant stream == fragments[..k]
    {
      assert fragments[..k + 1] == fragments[..k] + [fragments[k]];
      stream := stream + [fragments[k]];
    }
    assert fragments[..|fragments|] == fragments;
    var uniqueUrls := AttributedUrls(docs);
    var order := Enumerate(uniqueUrls);
    var urls := Join("\n", order);
    if urls != "" {
      stream := stream + [SourcesHeading + urls];
    } else {
      assert stream + [] == stream;
    }
  }

  /** Lines 99 to 105: an empty query is refused with status 400; any other
      query is answered with the stream. */
  method ChatEndpoint(query: string, search: string -> seq<Scored>, llm: string -> seq<string>)
    returns (response: Response)
    ensures query == "" <==> response == BadRequest(400, QueryRequired)
    ensures query != "" ==> response.Streaming? && AnswerStream(query, search(query), llm, response.fragments)
  {
    if query == "" {
      return BadRequest(400, QueryRequired);
    }
    var stream := ChatWithRagAndLlmStream(query, search, llm);
    response := Streaming(stream);
  }

  /** The body the client reads: the not-found message, or the model's text
      followed, when there are attributed urls, by the heading and the urls
      one per line. */
  lemma StreamBody(query: string, results: seq<Scored>, llm: string -> seq<string>, stream: seq<string>)
    requires AnswerStream(query, results, llm, stream)
    ensures results == [] ==> Concat(stream) == NotFound
    ensures results != [] ==> exists order ::
      && Enumerates(order, AttributedUrls(Retained(results)))
      && Concat(stream) == Concat(llm(Prompt(query, Context(Retained(results)))))
                           + (if Join("\n", order) == "" then "" else SourcesHeading + Join("\n", order))
  {
    if results == [] {
      assert stream[1..] == [];
    } else {
      var docs := Retained(results);
      var order :| Enumerates(order, AttributedUrls(docs))
        && stream == llm(Prompt(query, Context(docs))) + Sources(order);
      var sources := Sources(order);
      ConcatAppend(llm(Prompt(query, Context(docs))), sources);
      if sources != [] {
        assert sources[1..] == [];
      }
    }
  }
}
