/** The listing side of the SNUH crawler (`data_py/uni.py`): turning one
    rendered listing page into candidate records, and walking all pages. */
module UniListing {
  import opened Common
  import opened Text
  import opened Candidates
  import opened Pagination

  const SnuhOrigin := "https://www.snuh.org"
  /** The section every relative href is resolved against, after the origin. */
  const SnuhSection := "/health/nMedInfo/"

  /** `full_url.replace('/./', '/')`: a single left-to-right pass. It never
      lengthens the URL, and changes it exactly when a `/./` occurs. */
  function Collapse(s: string): (r: string)
    ensures |r| <= |s|
    ensures r == s <==> !Contains(s, "/./")
  {
    ReplaceUnchangedIff(s, "/./", "/");
    ReplaceAll(s, "/./", "/")
  }

  /** The href rules of `get_disease_list_from_page`, in the order the source
      tries them. There is no rule for absolute hrefs. Whatever the href,
      the URL lies on the site's origin. */
  function UniUrl(href: string): (r: string)
    ensures StartsWith(r, SnuhOrigin)
  {
    var rest :=
      if StartsWith(href, "./") then SnuhSection + href[2..]
      else if StartsWith(href, "/") then href
      else SnuhSection + href;
    OriginIsSafe();
    DotSegmentFreePrefix(SnuhOrigin, rest, "/");
    Collapse(SnuhOrigin + rest)
  }

  lemma OriginIsSafe()
    ensures NoDotSegmentStart(SnuhOrigin)
    ensures NoDotSegmentStart("/health/nMedInfo")
    ensures SnuhSection == "/health/nMedInfo" + "/"
  {
  }

  /** A relative path free of dot segments is appended to the section base
      verbatim. */
  lemma SectionPathVerbatim(x: string)
    requires !StartsWith(x, "./") && !Contains(x, "/./")
    ensures Collapse(SnuhOrigin + SnuhSection + x) == SnuhOrigin + SnuhSection + x
  {
    OriginIsSafe();
    assert SnuhOrigin + SnuhSection + x == SnuhOrigin + ("/health/nMedInfo" + ("/" + x));
    DotSegmentFreePrefix(SnuhOrigin, "/health/nMedInfo" + ("/" + x), "/");
    DotSegmentFreePrefix("/health/nMedInfo", "/" + x, "/");
    assert !Contains("/" + x, "/./") by {
      assert ("/" + x)[1..] == x;
      if |x| >= 2 {
        assert x[..2] == ("/" + x)[..3][1..];
      }
    }
    assert ReplaceAll("/" + x, "/./", "/") == "/" + x;
  }

  /** Rule 1: `./x` resolves to the section base followed by `x`. */
  lemma DotRelativeHref(x: string)
    requires !StartsWith(x, "./") && !Contains(x, "/./")
    ensures UniUrl("./" + x) == SnuhOrigin + SnuhSection + x
  {
    assert StartsWith("./" + x, "./");
    assert ("./" + x)[2..] == x;
    assert UniUrl("./" + x) == Collapse(SnuhOrigin + (SnuhSection + x));
    assert SnuhOrigin + (SnuhSection + x) == SnuhOrigin + SnuhSection + x;
    SectionPathVerbatim(x);
  }

  /** Rule 2: a root-relative href is appended to the origin. */
  lemma RootRelativeHref(href: string)
    requires StartsWith(href, "/") && !Contains(href, "/./")
    ensures UniUrl(href) == SnuhOrigin + href
  {
    assert !StartsWith(href, "./") by {
      assert href[0] == href[..1][0] == '/';
      if |href| >= 2 {
        assert href[..2][0] == '/';
      }
    }
    assert UniUrl(href) == Collapse(SnuhOrigin + href);
    assert Collapse(SnuhOrigin + href) == SnuhOrigin + Collapse(href) by {
      OriginIsSafe();
      DotSegmentFreePrefix(SnuhOrigin, href, "/");
    }
    assert ReplaceAll(href, "/./", "/") == href;
  }

  /** Rule 3: any other href, an absolute one included, is appended to the
      section base: `uni.py` has no exemption for `http...` hrefs. */
  lemma BareHref(href: string)
    requires !StartsWith(href, "./") && !StartsWith(href, "/") && !Contains(href, "/./")
    ensures UniUrl(href) == SnuhOrigin + SnuhSection + href
    ensures StartsWith(href, "http") ==> UniUrl(href) != href
  {
    assert UniUrl(href) == Collapse(SnuhOrigin + (SnuhSection + href));
    assert SnuhOrigin + (SnuhSection + href) == SnuhOrigin + SnuhSection + href;
    SectionPathVerbatim(href);
  }

  /** The collapse is one pass, not a fixpoint: `/././` becomes `/./`. */
  lemma CollapseSinglePass(s: string)
    requires s == "/././"
    ensures Collapse(s) == "/./"
  {
    assert StartsWith(s, "/./");
    var t := s[3..];
    assert t == "./";
    assert Collapse(s) == "/" + ReplaceAll(t, "/./", "/");
  }

  /** One `div.item` of the `thumbType04` container: the stripped text of
      its first `strong`, and the `href` of its first `a` that has one. */
  datatype UniItem = UniItem(strong: Option<string>, href: Option<string>)

  /** A rendered listing page: the items of its `div.thumbType04`, or None
      when the page has no such container. */
  datatype UniListingDoc = UniListingDoc(container: Option<seq<UniItem>>)

  /** An item contributes a record iff it has a `strong`, a link, and a
      non-empty name. */
  predicate Usable(it: UniItem)
  {
    it.strong.Some? && it.href.Some? && it.strong.value != ""
  }

  function RecordOf(it: UniItem, page: int): Candidate
    requires Usable(it)
  {
    Candidate(it.strong.value, UniUrl(it.href.value), page)
  }

  /** What one item contributes: its record, if it is usable. */
  function ItemRecord(it: UniItem, page: int): (r: seq<Candidate>)
  {
    if Usable(it) then [RecordOf(it, page)] else []
  }

  /** The `for item in items` loop. */
  function ItemRecords(items: seq<UniItem>, page: int): (r: seq<Candidate>)
    ensures |r| <= |items|
    ensures r == [] <==> forall it :: it in items ==> !Usable(it)
    ensures forall c :: c in r ==> c.name != "" && c.page == page
  {
    if items == [] then []
    else
      var rest := ItemRecords(items[1..], page);
      assert forall it :: it in items[1..] ==> it in items;
      ItemRecord(items[0], page) + rest
  }

  /** Every record is that of one of the items. */
  lemma {:induction false} ItemRecordsFrom(items: seq<UniItem>, page: int, c: Candidate)
    requires c in ItemRecords(items, page)
    ensures exists it :: it in items && Usable(it) && c == RecordOf(it, page)
  {
    var head := items[0];
    if c !in ItemRecords(items[1..], page) {
      assert c in ItemRecord(head, page);
    } else {
      ItemRecordsFrom(items[1..], page, c);
      var it :| it in items[1..] && Usable(it) && c == RecordOf(it, page);
      assert it in items;
    }
  }

  /** One step of the loop: the first item's record, then the rest. */
  lemma ItemRecordsCons(items: seq<UniItem>, page: int)
    requires items != []
    ensures ItemRecords(items, page) == ItemRecord(items[0], page) + ItemRecords(items[1..], page)
  {
  }

  /** Records come out in item order: the loop distributes over item lists. */
  lemma {:induction false} ItemRecordsAppend(a: seq<UniItem>, b: seq<UniItem>, page: int)
    ensures ItemRecords(a + b, page) == ItemRecords(a, page) + ItemRecords(b, page)
  {
    if a == [] {
      assert a + b == b;
    } else {
      ConsSplit(a, b);
      ItemRecordsCons(a + b, page);
      ItemRecordsCons(a, page);
      ItemRecordsAppend(a[1..], b, page);
      SeqAssoc(ItemRecord(a[0], page), ItemRecords(a[1..], page), ItemRecords(b, page));
    }
  }

  /** `get_disease_list_from_page`: a failed render and a missing container
      both give `([], False)`; otherwise the flag says whether any record was
      found, and every record carries the page index. */
  function ExtractListing(page: Fetch<UniListingDoc>, index: nat): (r: Listing)
    ensures r.hasData <==> r.records != []
    ensures page.FetchFailed? || page.doc.container.None? ==> r == Listing([], false)
    ensures forall c :: c in r.records ==> c.name != "" && c.page == index
  {
    match page
    case FetchFailed => Listing([], false)
    case Rendered(doc) =>
      match doc.container
      case None => Listing([], false)
      case Some(items) =>
        var records := ItemRecords(items, index);
        Listing(records, |records| > 0)
  }

  /** Every candidate of a listing page points into the site. */
  lemma ExtractListingOnSite(page: Fetch<UniListingDoc>, index: nat, c: Candidate)
    requires c in ExtractListing(page, index).records
    ensures StartsWith(c.url, SnuhOrigin)
  {
    var items := page.doc.container.value;
    ItemRecordsFrom(items, index, c);
    var it :| it in items && Usable(it) && c == RecordOf(it, index);
  }

  /** `get_all_disease_list` of `uni.py`: distinct URLs, all on the site,
      all with a name, all from a page no later than the ceiling. */
  function CollectCandidates(pages: seq<Fetch<UniListingDoc>>, maxPages: nat): (r: seq<Candidate>)
    ensures DistinctUrls(r)
    ensures forall c :: c in r ==> c.name != "" && StartsWith(c.url, SnuhOrigin)
    ensures forall c :: c in r ==> 1 <= c.page <= maxPages
  {
    var listings := Oracle(pages, ExtractListing);
    var crawl := Paginate(listings, maxPages);
    var r := CollectAll(listings, maxPages);
    assert forall c :: c in r ==> c.name != "" && StartsWith(c.url, SnuhOrigin) && 1 <= c.page <= maxPages by {
      forall c | c in r
        ensures c.name != "" && StartsWith(c.url, SnuhOrigin) && 1 <= c.page <= maxPages
      {
        assert c in crawl.found;
        GatheredFrom(listings, 1, crawl.fetched, c);
        var k :| 1 <= k <= crawl.fetched && c in PageAt(listings, k).records;
        assert PageAt(listings, k) == ExtractListing(pages[k - 1], k);
        ExtractListingOnSite(pages[k - 1], k, c);
      }
    }
    r
  }
}
