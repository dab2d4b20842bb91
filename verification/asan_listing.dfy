/** The listing side of the Asan Medical Center crawler (`data_py/asan.py`):
    collecting the `diseaseDetail.do` links of one listing page, and walking
    all pages. */
module AsanListing {
  import opened Common
  import opened Text
  import opened Candidates
  import opened Pagination

  const AsanOrigin := "https://www.amc.seoul.kr"
  /** The directory relative hrefs are resolved against, below the origin. */
  const AsanDirectory := "/asan/healthinfo/disease/"
  /** The marker that identifies a link to a disease detail page. */
  const DetailMarker := "diseaseDetail.do"

  /** The href rules of `get_disease_list_from_page`, absolute hrefs first.
      No dot-segment clean-up happens here. An absolute href is kept as it
      is; every other one lands on the site's origin. Either way the result
      is an `http` URL. */
  function AsanUrl(href: string): (r: string)
    ensures StartsWith(href, "http") ==> r == href
    ensures !StartsWith(href, "http") ==> StartsWith(r, AsanOrigin)
    ensures StartsWith(r, "http")
  {
    if StartsWith(href, "http") then href
    else
      var origin := AsanOrigin;
      assert StartsWith(origin, origin) && StartsWith(origin, "http");
      StartsWithAppend(origin, SitePath(href), origin);
      StartsWithAppend(origin, SitePath(href), "http");
      origin + SitePath(href)
  }

  /** The path a non-absolute href resolves to: `./x` and bare `x` go under
      the disease directory, `/x` is taken as it is. Either way it is a
      root-relative path of the site. */
  function SitePath(href: string): (r: string)
    ensures StartsWith(r, "/")
  {
    var directory := AsanDirectory;
    assert StartsWith(directory, "/");
    if StartsWith(href, "./") then
      StartsWithAppend(directory, href[2..], "/");
      directory + href[2..]
    else if StartsWith(href, "/") then href
    else
      StartsWithAppend(directory, href, "/");
      directory + href
  }

  /** Rule 2: `./x` resolves under the disease directory, for every `x`. */
  lemma AsanDotRelativeHref(x: string)
    ensures AsanUrl("./" + x) == AsanOrigin + AsanDirectory + x
  {
    var href := "./" + x;
    assert href[0] == '.' && href[..2] == "./" && href[2..] == x;
    assert !StartsWith(href, "http") by {
      if |href| >= 4 {
        assert href[..4][0] == '.';
      }
    }
  }

  /** Rule 3: a root-relative href is appended to the origin as it is. */
  lemma AsanRootRelativeHref(x: string)
    ensures AsanUrl("/" + x) == AsanOrigin + "/" + x
  {
    var href := "/" + x;
    assert href[0] == '/' && href[..1] == "/";
    assert !StartsWith(href, "http") by {
      if |href| >= 4 {
        assert href[..4][0] == '/';
      }
    }
    assert !StartsWith(href, "./") by {
      if |href| >= 2 {
        assert href[..2][0] == '/';
      }
    }
  }

  /** Rule 4: any other href is appended to the disease directory. */
  lemma AsanBareHref(href: string)
    requires !StartsWith(href, "http") && !StartsWith(href, "./") && !StartsWith(href, "/")
    ensures AsanUrl(href) == AsanOrigin + AsanDirectory + href
  {
  }

  /** Unlike `uni.py`, no dot-segment clean-up happens: a `/./` in the href
      is still in the URL built from it. */
  lemma AsanKeepsDotSegments(href: string)
    requires Contains(href, "/./") && !StartsWith(href, "./")
    ensures Contains(AsanUrl(href), "/./")
  {
    if !StartsWith(href, "http") {
      var path := SitePath(href);
      assert Contains(path, "/./") by {
        if !StartsWith(href, "/") {
          ContainsAfterPrefix(AsanDirectory, href, "/./");
        }
      }
      ContainsAfterPrefix(AsanOrigin, path, "/./");
    }
  }

  /** Resolving a resolved URL again changes nothing. */
  lemma AsanUrlIdempotent(href: string)
    ensures AsanUrl(AsanUrl(href)) == AsanUrl(href)
  {
  }

  /** The marker that selected a link is still in the path built from it. */
  lemma SitePathKeepsMarker(href: string)
    requires Contains(href, DetailMarker)
    ensures Contains(SitePath(href), DetailMarker)
  {
    var marker := DetailMarker;
    assert marker != [] && marker[0] == 'd';
    if StartsWith(href, "./") {
      assert href[0] == '.' && href[1] == '/' by {
        assert href[..2] == "./";
      }
      ContainsPastTwo(href, marker);
      ContainsAfterPrefix(AsanDirectory, href[2..], marker);
    } else if !StartsWith(href, "/") {
      ContainsAfterPrefix(AsanDirectory, href, marker);
    }
  }

  /** The marker that selected a link is still in the URL built from it. */
  lemma AsanUrlKeepsMarker(href: string)
    requires Contains(href, DetailMarker)
    ensures Contains(AsanUrl(href), DetailMarker)
  {
    if !StartsWith(href, "http") {
      SitePathKeepsMarker(href);
      ContainsAfterPrefix(AsanOrigin, SitePath(href), DetailMarker);
    }
  }

  /** One `<a>` element of the rendered page: its `href` attribute, if any,
      and its text as `get_text(strip=True)` returns it. */
  datatype Anchor = Anchor(href: Option<string>, text: string)

  /** The `find_all('a', href=lambda x: x and 'diseaseDetail.do' in x)` filter. */
  predicate IsDetailLink(a: Anchor)
  {
    a.href.Some? && Contains(a.href.value, DetailMarker)
  }

  /** What one link contributes: its record, unless its text is empty. */
  function LinkRecord(a: Anchor, page: int): (r: seq<Candidate>)
    requires IsDetailLink(a)
  {
    if a.text != "" then [Candidate(a.text, AsanUrl(a.href.value), page)] else []
  }

  /** The `for link in disease_links` loop over the anchors of the page, in
      document order: anchors that are not detail links were never found,
      and a link with empty text is skipped. */
  function LinkRecords(anchors: seq<Anchor>, page: int): (r: seq<Candidate>)
    ensures |r| <= |anchors|
    ensures r == [] <==> forall a :: a in anchors ==> !(IsDetailLink(a) && a.text != "")
    ensures forall c :: c in r ==> c.name != "" && c.page == page
  {
    if anchors == [] then []
    else
      var a := anchors[0];
      var rest := LinkRecords(anchors[1..], page);
      assert forall b :: b in anchors[1..] ==> b in anchors;
      (if IsDetailLink(a) then LinkRecord(a, page) else []) + rest
  }

  /** Every record is that of one of the anchors. */
  lemma {:induction false} LinkRecordsFrom(anchors: seq<Anchor>, page: int, c: Candidate)
    requires c in LinkRecords(anchors, page)
    ensures exists a :: a in anchors && IsDetailLink(a) && c == Candidate(a.text, AsanUrl(a.href.value), page)
  {
    var head := anchors[0];
    if c !in LinkRecords(anchors[1..], page) {
      assert c in LinkRecord(head, page) && IsDetailLink(head);
    } else {
      LinkRecordsFrom(anchors[1..], page, c);
      var a :| a in anchors[1..] && IsDetailLink(a) && c == Candidate(a.text, AsanUrl(a.href.value), page);
      assert a in anchors;
    }
  }

  /** The records one anchor contributes. */
  function AnchorRecords(a: Anchor, page: int): seq<Candidate>
  {
    if IsDetailLink(a) then LinkRecord(a, page) else []
  }

  /** One step of the loop: the first anchor's record, then the rest. */
  lemma LinkRecordsCons(anchors: seq<Anchor>, page: int)
    requires anchors != []
    ensures LinkRecords(anchors, page) == AnchorRecords(anchors[0], page) + LinkRecords(anchors[1..], page)
  {
  }

  /** Records come out in document order. */
  lemma {:induction false} LinkRecordsAppend(a: seq<Anchor>, b: seq<Anchor>, page: int)
    ensures LinkRecords(a + b, page) == LinkRecords(a, page) + LinkRecords(b, page)
  {
    if a == [] {
      assert a + b == b;
    } else {
      ConsSplit(a, b);
      LinkRecordsCons(a + b, page);
      LinkRecordsCons(a, page);
      LinkRecordsAppend(a[1..], b, page);
      SeqAssoc(AnchorRecords(a[0], page), LinkRecords(a[1..], page), LinkRecords(b, page));
    }
  }

  /** `get_disease_list_from_page` of `asan.py`: a failed render or a page
      without detail links gives `([], False)`; otherwise the flag says
      whether a named link was found. */
  function ExtractListing(page: Fetch<seq<Anchor>>, index: nat): (r: Listing)
    ensures r.hasData <==> r.records != []
    ensures page.FetchFailed? ==> r == Listing([], false)
    ensures page.Rendered? && (forall a :: a in page.doc ==> !IsDetailLink(a)) ==> r == Listing([], false)
    ensures forall c :: c in r.records ==> c.name != "" && c.page == index
  {
    match page
    case FetchFailed => Listing([], false)
    case Rendered(anchors) =>
      if forall a :: a in anchors ==> !IsDetailLink(a) then Listing([], false)
      else
        var records := LinkRecords(anchors, index);
        Listing(records, |records| > 0)
  }

  /** Every candidate of a listing page is an `http` URL of a detail page. */
  lemma ExtractListingUrls(page: Fetch<seq<Anchor>>, index: nat, c: Candidate)
    requires c in ExtractListing(page, index).records
    ensures StartsWith(c.url, "http") && Contains(c.url, DetailMarker)
  {
    LinkRecordsFrom(page.doc, index, c);
    var a :| a in page.doc && IsDetailLink(a) && c == Candidate(a.text, AsanUrl(a.href.value), index);
    AsanUrlKeepsMarker(a.href.value);
  }

  /** `get_all_disease_list` of `asan.py`: distinct URLs, each a named link
      to a detail page, each from a page no later than the ceiling. */
  function CollectCandidates(pages: seq<Fetch<seq<Anchor>>>, maxPages: nat): (r: seq<Candidate>)
    ensures DistinctUrls(r)
    ensures forall c :: c in r ==> c.name != "" && StartsWith(c.url, "http") && Contains(c.url, DetailMarker)
    ensures forall c :: c in r ==> 1 <= c.page <= maxPages
  {
    var listings := Oracle(pages, ExtractListing);
    var crawl := Paginate(listings, maxPages);
    var r := CollectAll(listings, maxPages);
    assert forall c :: c in r ==>
      c.name != "" && StartsWith(c.url, "http") && Contains(c.url, DetailMarker) && 1 <= c.page <= maxPages by {
      forall c | c in r
        ensures c.name != "" && StartsWith(c.url, "http") && Contains(c.url, DetailMarker) && 1 <= c.page <= maxPages
      {
        assert c in crawl.found;
        GatheredFrom(listings, 1, crawl.fetched, c);
        var k :| 1 <= k <= crawl.fetched && c in PageAt(listings, k).records;
        assert PageAt(listings, k) == ExtractListing(pages[k - 1], k);
        ExtractListingUrls(pages[k - 1], k, c);
      }
    }
    r
  }
}
