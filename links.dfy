/** The link collector of get_all_links.py: from the `href` attributes of the
    anchors on the seed page to the sorted, de-duplicated list of `kihon`
    links written one per line to the URL list file. Fetching and parsing the
    seed page are not modelled; the anchors' `href` values are the input. */
module Links {
  import opened Wrappers
  import opened Text

  /** The scheme and host prefixed to every `href`. */
  const Site := "https://www.nta.go.jp"

  /** The substring a link must contain to be kept. */
  const Keyword := "kihon"

  /** An anchor without an `href` gives `None`, and `str + None` raises a
      TypeError that ends the script. */
  datatype LinkError = MissingHref

  /** The list comprehension building the candidate links: `site` put in
      front of every `href`, already absolute or not. The script's site and
      keyword are the constants above; the functions below take them as
      parameters. */
  function Candidates(site: string, hrefs: seq<Option<string>>): (r: Result<seq<string>, LinkError>)
    ensures r.Success? <==> forall i :: 0 <= i < |hrefs| ==> hrefs[i].Some?
    ensures r.Success? ==> |r.value| == |hrefs|
    ensures r.Success? ==> forall i :: 0 <= i < |hrefs| ==> hrefs[i].Some? && r.value[i] == site + hrefs[i].value
    decreases |hrefs|
  {
    if hrefs == [] then Success([])
    else if hrefs[0].None? then Failure(MissingHref)
    else
      match Candidates(site, hrefs[1..])
      case Success(rest) => Success([site + hrefs[0].value] + rest)
      case Failure(e) => Failure(e)
  }

  /** `link.split('#')[0]`: the link cut before its first `#`. */
  function BeforeHash(link: string): (r: string)
    ensures '#' !in r
    ensures |r| <= |link| && r == link[..|r|]
    ensures |r| < |link| ==> link[|r|] == '#'
  {
    SplitOn(link, '#')[0]
  }

  /** Cutting at `#` a second time changes nothing. */
  lemma BeforeHashIdempotent(link: string)
    ensures BeforeHash(BeforeHash(link)) == BeforeHash(link)
  {
  }

  /** The set comprehension: the links containing the keyword, each cut
      before its first `#`. The keyword test sees the whole link. */
  function FilteredLinks(links: seq<string>, keyword: string): set<string> {
    set l | l in links && Contains(l, keyword) :: BeforeHash(l)
  }

  /** The same links as a sequence, in the order of the anchors. */
  function Filtered(links: seq<string>, keyword: string): (r: seq<string>)
    ensures forall x :: x in r <==> x in FilteredLinks(links, keyword)
    ensures |r| <= |links|
    decreases |links|
  {
    if links == [] then []
    else
      var rest := Filtered(links[1..], keyword);
      assert FilteredLinks(links, keyword) == FilteredLinks(links[..1], keyword) + FilteredLinks(links[1..], keyword) by {
        assert links == links[..1] + links[1..];
      }
      if Contains(links[0], keyword) then [BeforeHash(links[0])] + rest else rest
  }

  /** Strictly increasing in Python's string order, hence free of duplicates. */
  predicate StrictlyIncreasing(xs: seq<string>) {
    forall i, j :: 0 <= i < j < |xs| ==> Less(xs[i], xs[j])
  }

  lemma StrictlyIncreasingDistinct(xs: seq<string>, i: int, j: int)
    requires StrictlyIncreasing(xs) && 0 <= i < j < |xs|
    ensures xs[i] != xs[j]
  {
    LessIrreflexive(xs[i]);
  }

  /** Puts `x` into a strictly increasing sequence unless it is there already. */
  function Insert(x: string, xs: seq<string>): (r: seq<string>)
    requires StrictlyIncreasing(xs)
    ensures StrictlyIncreasing(r)
    ensures forall y :: y in r <==> y == x || y in xs
    ensures |r| <= |xs| + 1
    decreases |xs|
  {
    if xs == [] then [x]
    else if x == xs[0] then xs
    else if Less(x, xs[0]) then
      PrependSmallest(x, xs);
      [x] + xs
    else
      LessTotal(x, xs[0]);
      var rest := Insert(x, xs[1..]);
      assert forall y :: y in rest ==> Less(xs[0], y);
      [xs[0]] + rest
  }

  lemma PrependSmallest(x: string, xs: seq<string>)
    requires StrictlyIncreasing(xs) && xs != [] && Less(x, xs[0])
    ensures StrictlyIncreasing([x] + xs)
  {
    forall j | 0 <= j < |xs|
      ensures Less(x, xs[j])
    {
      if j > 0 {
        LessTransitive(x, xs[0], xs[j]);
      }
    }
  }

  /** `sorted(set(xs))`: the distinct elements of `xs` in increasing order. */
  function SortedDistinct(xs: seq<string>): (r: seq<string>)
    ensures StrictlyIncreasing(r)
    ensures forall y :: y in r <==> y in xs
    ensures |r| <= |xs|
    decreases |xs|
  {
    if xs == [] then [] else Insert(xs[0], SortedDistinct(xs[1..]))
  }

  lemma TailMember(a: seq<string>, b: seq<string>, y: string)
    requires StrictlyIncreasing(a) && StrictlyIncreasing(b)
    requires forall y :: y in a <==> y in b
    requires a != [] && b != [] && a[0] == b[0]
    requires y in a[1..]
    ensures y in b[1..]
  {
    var k :| 0 <= k < |a| - 1 && a[1..][k] == y;
    StrictlyIncreasingDistinct(a, 0, k + 1);
    assert y in a;
    var m :| 0 <= m < |b| && b[m] == y;
    assert b[1..][m - 1] == y;
  }

  /** There is one strictly increasing sequence per set of strings, so the
      result of `sorted` is fixed by the elements alone. */
  lemma {:induction false} StrictlyIncreasingUnique(a: seq<string>, b: seq<string>)
    requires StrictlyIncreasing(a) && StrictlyIncreasing(b)
    requires forall y :: y in a <==> y in b
    ensures a == b
    decreases |a|
  {
    assert a != [] ==> a[0] in a;
    assert b != [] ==> b[0] in b;
    if a != [] && b != [] {
      if a[0] != b[0] {
        var i :| 0 <= i < |b| && b[i] == a[0];
        var j :| 0 <= j < |a| && a[j] == b[0];
        assert Less(a[0], b[0]) by {
          if j == 0 { assert false; }
        }
        assert Less(b[0], a[0]) by {
          if i == 0 { assert false; }
        }
        LessAsymmetric(a[0], b[0]);
        assert false;
      }
      forall y
        ensures y in a[1..] <==> y in b[1..]
      {
        if y in a[1..] {
          TailMember(a, b, y);
        }
        if y in b[1..] {
          TailMember(b, a, y);
        }
      }
      StrictlyIncreasingUnique(a[1..], b[1..]);
      assert a == [a[0]] + a[1..] && b == [b[0]] + b[1..];
    }
  }

  /** The link an `href` contributes to the output, as line 18 treats it:
      kept when the whole prefixed link contains the keyword, then cut. */
  predicate Yields(site: string, keyword: string, href: string, x: string) {
    Contains(site + href, keyword) && x == BeforeHash(site + href)
  }

  lemma FilteredFromHref(site: string, keyword: string, hrefs: seq<Option<string>>, links: seq<string>, x: string)
    requires Candidates(site, hrefs) == Success(links)
    requires x in FilteredLinks(links, keyword)
    ensures exists i :: 0 <= i < |hrefs| && hrefs[i].Some? && Yields(site, keyword, hrefs[i].value, x)
  {
    var l :| l in links && Contains(l, keyword) && x == BeforeHash(l);
    var i :| 0 <= i < |links| && links[i] == l;
    assert hrefs[i].Some? && l == site + hrefs[i].value;
    assert Yields(site, keyword, hrefs[i].value, x);
  }

  lemma HrefInFiltered(site: string, keyword: string, hrefs: seq<Option<string>>, links: seq<string>, x: string, i: int)
    requires Candidates(site, hrefs) == Success(links)
    requires 0 <= i < |hrefs| && hrefs[i].Some? && Yields(site, keyword, hrefs[i].value, x)
    ensures x in FilteredLinks(links, keyword)
  {
    assert links[i] in links && links[i] == site + hrefs[i].value;
  }

  /** The filtered set of the candidate links, in terms of the `href`s. */
  lemma FilteredCandidates(site: string, keyword: string, hrefs: seq<Option<string>>, links: seq<string>)
    requires Candidates(site, hrefs) == Success(links)
    ensures forall x :: x in FilteredLinks(links, keyword) <==>
      exists i :: 0 <= i < |hrefs| && hrefs[i].Some? && Yields(site, keyword, hrefs[i].value, x)
  {
    forall x
      ensures x in FilteredLinks(links, keyword) <==>
        exists i :: 0 <= i < |hrefs| && hrefs[i].Some? && Yields(site, keyword, hrefs[i].value, x)
    {
      if x in FilteredLinks(links, keyword) {
        FilteredFromHref(site, keyword, hrefs, links, x);
      }
      if exists i :: 0 <= i < |hrefs| && hrefs[i].Some? && Yields(site, keyword, hrefs[i].value, x) {
        var i :| 0 <= i < |hrefs| && hrefs[i].Some? && Yields(site, keyword, hrefs[i].value, x);
        HrefInFiltered(site, keyword, hrefs, links, x, i);
      }
    }
  }

  /** Lines 15 to 21 for a given site and keyword: the candidate links
      filtered, cut and sorted. */
  function Collect(site: string, keyword: string, hrefs: seq<Option<string>>): (r: Result<seq<string>, LinkError>)
    ensures r.Success? <==> forall i :: 0 <= i < |hrefs| ==> hrefs[i].Some?
    ensures r.Success? ==> StrictlyIncreasing(r.value) && |r.value| <= |hrefs|
    ensures r.Success? ==> forall x :: x in r.value <==>
      exists i :: 0 <= i < |hrefs| && hrefs[i].Some? && Yields(site, keyword, hrefs[i].value, x)
  {
    match Candidates(site, hrefs)
    case Failure(e) => Failure(e)
    case Success(links) =>
      FilteredCandidates(site, keyword, hrefs, links);
      Success(SortedDistinct(Filtered(links, keyword)))
  }

  /** The links get_all_links.py collects from the anchors' `href`s. */
  function CollectLinks(hrefs: seq<Option<string>>): Result<seq<string>, LinkError> {
    Collect(Site, Keyword, hrefs)
  }

  /** Lines 24 to 26: the URL list file, one link and a newline per link. */
  function LinkFile(hrefs: seq<Option<string>>): Result<string, LinkError> {
    match CollectLinks(hrefs)
    case Failure(e) => Failure(e)
    case Success(links) => Success(WriteLines(links))
  }

  /** No collected link contains `#`, and cutting one again leaves it as it is. */
  lemma CollectedLinksHaveNoFragment(site: string, keyword: string, hrefs: seq<Option<string>>)
    requires Collect(site, keyword, hrefs).Success?
    ensures forall x :: x in Collect(site, keyword, hrefs).value ==> '#' !in x && BeforeHash(x) == x
  {
    forall x | x in Collect(site, keyword, hrefs).value
      ensures '#' !in x && BeforeHash(x) == x
    {
      var i :| 0 <= i < |hrefs| && hrefs[i].Some? && Yields(site, keyword, hrefs[i].value, x);
      BeforeHashIdempotent(site + hrefs[i].value);
    }
  }

  lemma YieldedBySameHref(site: string, keyword: string, hrefs1: seq<Option<string>>, hrefs2: seq<Option<string>>, x: string, i: int)
    requires forall h :: h in hrefs1 <==> h in hrefs2
    requires 0 <= i < |hrefs1| && hrefs1[i].Some? && Yields(site, keyword, hrefs1[i].value, x)
    ensures exists k :: 0 <= k < |hrefs2| && hrefs2[k].Some? && Yields(site, keyword, hrefs2[k].value, x)
  {
    assert hrefs1[i] in hrefs1;
    var k :| 0 <= k < |hrefs2| && hrefs2[k] == hrefs1[i];
  }

  /** The output does not depend on the order or the repetition of the
      anchors: anchor lists with the same elements give the same links. */
  lemma CollectIgnoresAnchorOrder(site: string, keyword: string, hrefs1: seq<Option<string>>, hrefs2: seq<Option<string>>)
    requires forall h :: h in hrefs1 <==> h in hrefs2
    ensures Collect(site, keyword, hrefs1) == Collect(site, keyword, hrefs2)
  {
    var r1, r2 := Collect(site, keyword, hrefs1), Collect(site, keyword, hrefs2);
    assert forall i :: 0 <= i < |hrefs1| ==> hrefs1[i] in hrefs1;
    assert forall i :: 0 <= i < |hrefs2| ==> hrefs2[i] in hrefs2;
    if r1.Success? {
      forall x
        ensures x in r1.value <==> x in r2.value
      {
        if x in r1.value {
          var i :| 0 <= i < |hrefs1| && hrefs1[i].Some? && Yields(site, keyword, hrefs1[i].value, x);
          YieldedBySameHref(site, keyword, hrefs1, hrefs2, x, i);
        }
        if x in r2.value {
          var i :| 0 <= i < |hrefs2| && hrefs2[i].Some? && Yields(site, keyword, hrefs2[i].value, x);
          YieldedBySameHref(site, keyword, hrefs2, hrefs1, x, i);
        }
      }
      StrictlyIncreasingUnique(r1.value, r2.value);
    } else {
      assert r1.error == MissingHref && r2.error == MissingHref;
    }
  }

  lemma SiteHasNoHash()
    ensures '#' !in Site
  {
    assert forall i :: 0 <= i < |Site| ==> Site[i] != '#';
  }

  /** Cutting a `#`-free link followed by `#` and anything gives the link. */
  lemma CutAtHash(link: string, rest: string)
    requires '#' !in link
    ensures BeforeHash(link + "#" + rest) == link
  {
    var full := link + "#" + rest;
    var cut := BeforeHash(full);
    assert full[|link|] == '#';
    assert forall i :: 0 <= i < |link| ==> full[i] == link[i];
    assert forall i :: 0 <= i < |cut| ==> cut[i] == full[i];
  }

  /** The keyword is looked for before the fragment is cut: an `href` whose
      only occurrence of the keyword follows a `#` still yields its link,
      which need not contain the keyword. */
  lemma KeywordTestedBeforeCut(site: string, keyword: string, path: string)
    requires '#' !in site && '#' !in path
    ensures Collect(site, keyword, [Some(path + "#" + keyword)]) == Success([site + path])
  {
    var link := site + path;
    var full := site + (path + "#" + keyword);
    assert full == link + "#" + keyword;
    assert '#' !in link;
    assert Contains(full, keyword) by {
      assert full[|link| + 1..|link| + 1 + |keyword|] == keyword;
      ContainsAt(full, keyword, |link| + 1);
    }
    CutAtHash(link, keyword);
    var anchors := [Some(path + "#" + keyword)];
    assert anchors[1..] == [];
    assert Candidates(site, anchors[1..]) == Success([]);
    assert [site + anchors[0].value] + [] == [full];
    assert Candidates(site, anchors) == Success([full]);
    assert Filtered([full], keyword) == [link];
    assert SortedDistinct([link]) == [link];
  }

  /** The script's own instance: `/a.htm#kihon` is collected as
      `https://www.nta.go.jp/a.htm`. */
  lemma SiteKeywordAfterHash(path: string)
    requires '#' !in path
    ensures CollectLinks([Some(path + "#" + Keyword)]) == Success([Site + path])
  {
    SiteHasNoHash();
    KeywordTestedBeforeCut(Site, Keyword, path);
  }
}
