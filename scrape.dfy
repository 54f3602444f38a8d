/** The content scraper of scrape.py: it reads the URL list file, takes each
    page's title and its `<h2>` headings with the paragraph that follows
    each, normalises the paragraph text and writes one CSV row per heading
    that has a paragraph, after a fixed header. Fetching and HTML parsing are
    not modelled: `fetch` gives, for a URL, the page as the parser sees it. */
module Scrape {
  import opened Wrappers
  import opened Text
  import opened Seqs
  import Links

  /** The first line of the CSV file (line 13). */
  const Header := "title,text,url\n"

  /** U+3000, deleted from paragraph text. */
  const IdeographicSpace := '\U{3000}'

  /** U+FF0C, which replaces every `,` of paragraph text. */
  const FullWidthComma := '\U{FF0C}'

  /** One `<h2>` of a page: its text, and the text of the `<p>` sibling that
      `find_next_sibling('p')` finds after it, if there is one. */
  datatype Section = Section(heading: string, paragraph: Option<string>)

  /** A fetched page as far as the scraper reads it: the `<title>` text and
      the `<h2>` sections in document order. */
  datatype Page = Page(title: string, sections: seq<Section>)

  /** One CSV row: `title,text,url`. */
  datatype Record = Record(title: string, text: string, url: string)

  /** Line 8: the URL list file read line by line, each line stripped. */
  function ReadUrls(content: string): seq<string> {
    var lines := Lines(content);
    seq(|lines|, i requires 0 <= i < |lines| => Strip(lines[i]))
  }

  /** Line 32: the paragraph text stripped, every U+3000 and every newline
      deleted (in that order), every `,` replaced by U+FF0C. */
  function Normalize(raw: string): (r: string)
    ensures ',' !in r && '\n' !in r && IdeographicSpace !in r
  {
    var stripped := Strip(raw);
    var noIdeographicSpace := ReplaceChar(stripped, IdeographicSpace, "");
    var noNewline := ReplaceChar(noIdeographicSpace, '\n', "");
    var r := ReplaceChar(noNewline, ',', [FullWidthComma]);
    ReplaceCharMembers(stripped, IdeographicSpace, "");
    ReplaceCharMembers(noIdeographicSpace, '\n', "");
    ReplaceCharMembers(noNewline, ',', [FullWidthComma]);
    assert IdeographicSpace !in noIdeographicSpace;
    assert IdeographicSpace !in noNewline && '\n' !in noNewline;
    assert FullWidthComma != IdeographicSpace && FullWidthComma != '\n' && FullWidthComma != ',';
    r
  }

  /** What line 32 does to one character of the stripped text. */
  function NormalizeChar(c: char): string {
    if c == IdeographicSpace || c == '\n' then ""
    else if c == ',' then [FullWidthComma]
    else [c]
  }

  /** A single pass over the text, character by character, as an independent
      statement of what the three `replace` calls do together. */
  function NormalizeChars(s: string): string {
    FlatMap(s, NormalizeChar)
  }

  lemma NormalizeCharsAppend(a: string, b: string)
    ensures NormalizeChars(a + b) == NormalizeChars(a) + NormalizeChars(b)
  {
    FlatMapAppend(a, b, NormalizeChar);
  }

  lemma ReplaceOne(x: char, c: char, t: string)
    ensures ReplaceChar([x], c, t) == if x == c then t else [x]
  {
    assert [x][1..] == [];
    var h := if x == c then t else [x];
    assert h + [] == h;
  }

  /** The three chained `replace` calls applied to one character. */
  lemma ReplacesOnChar(c: char)
    ensures ReplaceChar(ReplaceChar(ReplaceChar([c], IdeographicSpace, ""), '\n', ""), ',', [FullWidthComma])
         == NormalizeChar(c)
  {
    ReplaceOne(c, IdeographicSpace, "");
    if c != IdeographicSpace {
      ReplaceOne(c, '\n', "");
      if c != '\n' {
        ReplaceOne(c, ',', [FullWidthComma]);
      }
    }
  }

  lemma {:induction false} ReplacesAreOnePass(s: string)
    ensures ReplaceChar(ReplaceChar(ReplaceChar(s, IdeographicSpace, ""), '\n', ""), ',', [FullWidthComma])
         == NormalizeChars(s)
    decreases |s|
  {
    if s != [] {
      var c, rest := s[0], s[1..];
      assert s == [c] + rest;
      ReplaceCharAppend([c], rest, IdeographicSpace, "");
      var a1, b1 := ReplaceChar([c], IdeographicSpace, ""), ReplaceChar(rest, IdeographicSpace, "");
      ReplaceCharAppend(a1, b1, '\n', "");
      var a2, b2 := ReplaceChar(a1, '\n', ""), ReplaceChar(b1, '\n', "");
      ReplaceCharAppend(a2, b2, ',', [FullWidthComma]);
      ReplacesOnChar(c);
      ReplacesAreOnePass(rest);
      NormalizeCharsAppend([c], rest);
      NormalizeCharsOfOne(c);
    }
  }

  /** Normalisation keeps every character of the stripped text except U+3000
      and newline, in order, with U+FF0C in place of each `,`. */
  lemma NormalizeIsOnePass(raw: string)
    ensures Normalize(raw) == NormalizeChars(Strip(raw))
  {
    ReplacesAreOnePass(Strip(raw));
  }

  /** A character that is not whitespace gives one non-whitespace
      character. */
  lemma NormalizeNonSpace(c: char)
    requires !IsSpace(c)
    ensures |NormalizeChar(c)| == 1 && !IsSpace(NormalizeChar(c)[0])
  {
  }

  lemma NormalizeCharsOfOne(c: char)
    ensures NormalizeChars([c]) == NormalizeChar(c)
  {
    FlatMapSnoc([], c, NormalizeChar);
    assert [] + [c] == [c];
  }

  /** Normalising a text with no whitespace at either end leaves none
      there. */
  lemma NormalizeCharsTrimmed(t: string)
    requires Trimmed(t)
    ensures Trimmed(NormalizeChars(t))
  {
    if t != [] {
      var first, last := t[0], t[|t| - 1];
      NormalizeNonSpace(first);
      NormalizeNonSpace(last);
      assert t == [first] + t[1..];
      NormalizeCharsAppend([first], t[1..]);
      NormalizeCharsOfOne(first);
      assert t == t[..|t| - 1] + [last];
      NormalizeCharsAppend(t[..|t| - 1], [last]);
      NormalizeCharsOfOne(last);
    }
  }

  /** A paragraph gives an empty text field exactly when it is whitespace
      only: line 36 then writes `title,,url`. */
  lemma EmptyTextIffBlank(raw: string)
    ensures Normalize(raw) == "" <==> AllSpace(raw)
  {
    NormalizeIsOnePass(raw);
    StripEmptyIffAllSpace(raw);
    var t := Strip(raw);
    if t != [] {
      NormalizeNonSpace(t[0]);
      assert t == [t[0]] + t[1..];
      NormalizeCharsAppend([t[0]], t[1..]);
      NormalizeCharsOfOne(t[0]);
    }
  }


  /** A normalised text has no whitespace at either end. */
  lemma NormalizedIsTrimmed(raw: string)
    ensures Trimmed(Normalize(raw))
  {
    NormalizeIsOnePass(raw);
    NormalizeCharsTrimmed(Strip(raw));
  }

  /** Normalising a normalised text changes nothing. */
  lemma NormalizeIdempotent(raw: string)
    ensures Normalize(Normalize(raw)) == Normalize(raw)
  {
    var n := Normalize(raw);
    NormalizedIsTrimmed(raw);
    StripOfTrimmed(n);
    ReplaceCharAbsent(n, IdeographicSpace, "");
    ReplaceCharAbsent(n, '\n', "");
    ReplaceCharAbsent(n, ',', [FullWidthComma]);
  }

  /** Lines 35 and 36: a row as the CSV line it is written as. Only the text
      field has had its commas replaced. */
  function RecordLine(r: Record): string {
    r.title + "," + r.text + "," + r.url + "\n"
  }

  /** The row one heading gives, if it has a paragraph (lines 27 to 36). */
  function SectionRecord(title: string, s: Section, url: string): seq<Record> {
    match s.paragraph
    case None => []
    case Some(p) => [Record(title + Strip(s.heading), Normalize(p), url)]
  }

  function SectionRows(title: string, url: string): Section -> seq<Record> {
    s => SectionRecord(title, s, url)
  }

  /** The rows of one page, in heading order (the inner loop). */
  function SectionRecords(title: string, sections: seq<Section>, url: string): seq<Record> {
    FlatMap(sections, SectionRows(title, url))
  }

  function PageRows(fetch: string -> Page): string -> seq<Record> {
    url => SectionRecords(fetch(url).title, fetch(url).sections, url)
  }

  /** The rows of all pages, in the order of the URL list (the outer loop). */
  function Records(urls: seq<string>, fetch: string -> Page): seq<Record> {
    FlatMap(urls, PageRows(fetch))
  }

  /** The CSV lines of the rows, one after another. */
  function Render(records: seq<Record>): string {
    FlatMap(records, RecordLine)
  }

  /** Lines 23 to 37: the lines written for one fetched page (the inner
      loop). */
  method ScrapePage(url: string, page: Page) returns (out: string)
    ensures out == Render(SectionRecords(page.title, page.sections, url))
  {
    out := "";
    for j := 0 to |page.sections|
      invariant out == Render(SectionRecords(page.title, page.sections[..j], url))
    {
      var h2 := page.sections[j];
      var h2Text := Strip(h2.heading);
      ghost var done := SectionRecords(page.title, page.sections[..j], url);
      assert page.sections[..j + 1] == page.sections[..j] + [h2];
      FlatMapSnoc(page.sections[..j], h2, SectionRows(page.title, url));
      if h2.paragraph.Some? {
        var pText := Normalize(h2.paragraph.value);
        var fullTitle := page.title + h2Text;
        out := out + (fullTitle + "," + pText + "," + url + "\n");
        FlatMapSnoc(done, Record(fullTitle, pText, url), RecordLine);
      } else {
        assert done + [] == done;
      }
    }
    assert page.sections[..|page.sections|] == page.sections;
  }

  /** Lines 11 to 37: the CSV content for the URLs read from the list. */
  method ScrapeUrls(urls: seq<string>, fetch: string -> Page) returns (csv: string)
    ensures csv == Header + Render(Records(urls, fetch))
  {
    csv := Header;
    for i := 0 to |urls|
      invariant csv == Header + Render(Records(urls[..i], fetch))
    {
      var url := urls[i];
      var page := fetch(url);
      var lines := ScrapePage(url, page);
      RecordsStep(urls, i, fetch);
      RenderAppend(Records(urls[..i], fetch), SectionRecords(page.title, page.sections, url));
      csv := csv + lines;
    }
    assert urls[..|urls|] == urls;
  }

  lemma RecordsStep(urls: seq<string>, i: nat, fetch: string -> Page)
    requires i < |urls|
    ensures Records(urls[..i + 1], fetch)
         == Records(urls[..i], fetch) + SectionRecords(fetch(urls[i]).title, fetch(urls[i]).sections, urls[i])
  {
    assert urls[..i + 1] == urls[..i] + [urls[i]];
    FlatMapSnoc(urls[..i], urls[i], PageRows(fetch));
  }

  lemma RenderAppend(a: seq<Record>, b: seq<Record>)
    ensures Render(a + b) == Render(a) + Render(b)
  {
    FlatMapAppend(a, b, RecordLine);
  }

  /** Lines 8 to 37: the content of the CSV file for the URL list file
      `listing`, with `fetch` standing for the request and the parse. */
  method Scrape(listing: string, fetch: string -> Page) returns (csv: string)
    ensures csv == Header + Render(Records(ReadUrls(listing), fetch))
  {
    var urls := ReadUrls(listing);
    csv := ScrapeUrls(urls, fetch);
  }

  /** The URL list file that get_all_links.py writes reads back as the same
      links, provided no link holds a line end (`\n`, or `\r`, which
      Python's universal newlines also read as one) or starts or ends with
      whitespace. */
  lemma UrlListRoundTrip(links: seq<string>)
    requires forall k :: 0 <= k < |links| ==> '\n' !in links[k] && '\r' !in links[k] && Trimmed(links[k])
    ensures ReadUrls(WriteLines(links)) == links
  {
    LinesOfWriteLines(links);
    forall k | 0 <= k < |links|
      ensures Strip(links[k] + "\n") == links[k]
    {
      StripSpaceSuffix(links[k], '\n');
    }
  }

  /** The file get_all_links.py writes is read back by line 8 as the links
      it collected, when none of them holds a line end or starts or ends
      with whitespace. */
  lemma LinkFileReadBack(hrefs: seq<Option<string>>)
    requires Links.CollectLinks(hrefs).Success?
    requires forall k :: 0 <= k < |Links.CollectLinks(hrefs).value| ==>
      '\n' !in Links.CollectLinks(hrefs).value[k] && '\r' !in Links.CollectLinks(hrefs).value[k]
      && Trimmed(Links.CollectLinks(hrefs).value[k])
    ensures Links.LinkFile(hrefs).Success?
    ensures ReadUrls(Links.LinkFile(hrefs).value) == Links.CollectLinks(hrefs).value
  {
    UrlListRoundTrip(Links.CollectLinks(hrefs).value);
  }

  /** The rows of a page are exactly the headings that have a paragraph:
      title with the stripped heading appended, normalised paragraph, URL. */
  lemma SectionRecordsMembers(title: string, sections: seq<Section>, url: string, r: Record)
    ensures r in SectionRecords(title, sections, url) <==>
      exists i :: 0 <= i < |sections| && sections[i].paragraph.Some?
        && r == Record(title + Strip(sections[i].heading), Normalize(sections[i].paragraph.value), url)
  {
    FlatMapMembers(sections, SectionRows(title, url), r);
    forall i | 0 <= i < |sections|
      ensures r in SectionRows(title, url)(sections[i]) <==>
        sections[i].paragraph.Some?
        && r == Record(title + Strip(sections[i].heading), Normalize(sections[i].paragraph.value), url)
    {
      InSectionRecord(title, sections[i], url, r);
    }
  }

  lemma InSectionRecord(title: string, s: Section, url: string, r: Record)
    ensures r in SectionRows(title, url)(s) <==>
      s.paragraph.Some? && r == Record(title + Strip(s.heading), Normalize(s.paragraph.value), url)
  {
    assert SectionRows(title, url)(s) == SectionRecord(title, s, url);
  }

  /** Rows follow heading order: the rows of two runs of headings are the
      rows of the first run followed by those of the second. */
  lemma SectionRecordsAppend(title: string, s1: seq<Section>, s2: seq<Section>, url: string)
    ensures SectionRecords(title, s1 + s2, url) == SectionRecords(title, s1, url) + SectionRecords(title, s2, url)
  {
    FlatMapAppend(s1, s2, SectionRows(title, url));
  }

  /** A heading without a paragraph writes no row. */
  lemma HeadingWithoutParagraph(title: string, sections: seq<Section>, heading: string, url: string)
    ensures SectionRecords(title, sections + [Section(heading, None)], url) == SectionRecords(title, sections, url)
  {
    FlatMapSnoc(sections, Section(heading, None), SectionRows(title, url));
  }

  /** When every heading has a paragraph, the k-th row is made from the k-th
      heading. */
  lemma EveryHeadingWithParagraph(title: string, sections: seq<Section>, url: string)
    requires forall i :: 0 <= i < |sections| ==> sections[i].paragraph.Some?
    ensures |SectionRecords(title, sections, url)| == |sections|
    ensures forall i :: 0 <= i < |sections| ==>
      SectionRecords(title, sections, url)[i]
        == Record(title + Strip(sections[i].heading), Normalize(sections[i].paragraph.value), url)
  {
    FlatMapSingletons(sections, SectionRows(title, url));
  }

  /** The pages are processed in the order of the URL list. */
  lemma RecordsAppend(u1: seq<string>, u2: seq<string>, fetch: string -> Page)
    ensures Records(u1 + u2, fetch) == Records(u1, fetch) + Records(u2, fetch)
  {
    FlatMapAppend(u1, u2, PageRows(fetch));
  }

  /** Every row's text is comma-free, newline-free and free of U+3000, and
      its URL is one of the listed URLs, unchanged. */
  lemma RecordsWellFormed(urls: seq<string>, fetch: string -> Page, r: Record)
    requires r in Records(urls, fetch)
    ensures ',' !in r.text && '\n' !in r.text && IdeographicSpace !in r.text && r.url in urls
  {
    FlatMapMembers(urls, PageRows(fetch), r);
    var i :| 0 <= i < |urls| && r in PageRows(fetch)(urls[i]);
    var page := fetch(urls[i]);
    SectionRecordsMembers(page.title, page.sections, urls[i], r);
  }

  /** When neither the title nor the URL holds a comma, the line splits on
      `,` back into the row's three fields. */
  lemma RecordLineFields(r: Record)
    requires ',' !in r.title && ',' !in r.text && ',' !in r.url
    ensures SplitOn(RecordLine(r), ',') == [r.title, r.text, r.url + "\n"]
  {
    var fields := [r.title, r.text, r.url + "\n"];
    assert fields[1..] == [r.text, r.url + "\n"];
    assert fields[1..][1..] == [r.url + "\n"];
    assert Join([','], fields[1..][1..]) == r.url + "\n";
    assert Join([','], fields[1..]) == r.text + [','] + (r.url + "\n");
    assert Join([','], fields) == RecordLine(r);
    SplitJoin(fields, ',');
  }

  /** Only the text field is escaped: a line splits on `,` into three
      fields plus one for each comma of the title and of the URL. */
  lemma RecordLineFieldCount(r: Record)
    requires ',' !in r.text
    ensures |SplitOn(RecordLine(r), ',')| == 3 + multiset(r.title)[','] + multiset(r.url)[',']
  {
    assert RecordLine(r) == r.title + [','] + r.text + [','] + r.url + ['\n'];
    SplitOnCount(RecordLine(r), ',');
  }
}
