// Link discovery and the crawl (get_post_links_from_page,
// fetch_all_post_urls and scrape_all in rando_scrapper/scraper.py). The
// HTTP session is a function from a URL to the page it serves, or None when
// the request fails or answers with an error status.

module Links {
  import opened Options
  import opened Text
  import opened Seqs
  import opened Extract

  const BASE_URL: string := "https://randoromandie.com"

  /** The default page bound of the crawl. */
  const MAX_PAGES: int := 200

  // ---------------------------------------------------------------------
  // The post path pattern `^/\d{4}/\d{2}/\d{2}/[^/]+/?$`

  predicate DigitsAt(p: string, i: nat, n: nat) {
    i + n <= |p| && forall k :: i <= k < i + n ==> IsDigit(p[k])
  }

  /** `[^/]+/?$` on the rest of the path; `$` also matches before a final newline. */
  predicate SlugTail(r: string) {
    (r != [] && '/' !in r)
    || (|r| >= 2 && r[|r| - 1] == '/' && '/' !in r[..|r| - 1])
    || (|r| >= 3 && r[|r| - 2..] == "/\n" && '/' !in r[..|r| - 2])
  }

  /** A WordPress date-based post path: /YYYY/MM/DD/slug, with an optional final slash. */
  predicate IsDatePath(p: string)
    ensures IsDatePath(p) ==> |p| >= 13 && p[12] != '/'
  {
    |p| >= 12 && p[0] == '/' && DigitsAt(p, 1, 4) && p[5] == '/' && DigitsAt(p, 6, 2)
    && p[8] == '/' && DigitsAt(p, 9, 2) && p[11] == '/' && SlugTail(p[12..])
  }

  lemma DatePathAccepts()
    ensures IsDatePath("/2026/02/09/slug")
    ensures IsDatePath("/2026/02/09/slug/")
  {
    assert "/2026/02/09/slug/"[12..] == "slug/";
    assert "slug/"[..4] == "slug";
  }

  lemma DatePathRejects()
    ensures !IsDatePath("/2026/02/slug")
    ensures !IsDatePath("/2026/02/09/")
    ensures !IsDatePath("/2026/02/09/a/b")
  {
    var p := "/2026/02/09/a/b";
    assert p[12..] == "a/b";
    assert "a/b"[..2] == "a/" && "a/b"[..1] == "a";
  }

  // ---------------------------------------------------------------------
  // get_post_links_from_page

  /** The path with one trailing slash removed. */
  function TrimSlash(path: string): (r: string)
    ensures EndsWith(path, "/") ==> r + "/" == path
    ensures !EndsWith(path, "/") ==> r == path
  {
    if EndsWith(path, "/") then path[..|path| - 1] else path
  }

  /** The absolute URL an anchor stands for, when it is a post of the site:
      a rooted path is joined to the base, anything else keeps the stripped href. */
  function Candidate(a: Anchor, base: string): (r: Option<string>)
    ensures r.Some? ==> Contains(r.value, "randoromandie.com") && IsDatePath(TrimSlash(a.path))
  {
    var href := Strip(a.href);
    var path := TrimSlash(a.path);
    var full := if StartsWith(path, "/") then base + path else href;
    if Contains(full, "randoromandie.com") && IsDatePath(path) then Some(full) else None
  }

  /** The values of the Some entries, in order. */
  function Somes(os: seq<Option<string>>): (r: seq<string>)
    ensures forall u :: u in r <==> Some(u) in os
  {
    if os == [] then []
    else
      var p := os[..|os| - 1];
      assert os == p + [os[|os| - 1]];
      Somes(p) + match os[|os| - 1] { case Some(u) => [u] case None => [] }
  }

  lemma SomesSnoc(os: seq<Option<string>>, o: Option<string>)
    ensures Somes(os + [o]) == Somes(os) + match o { case Some(u) => [u] case None => [] }
  {
    assert (os + [o])[..|os|] == os;
  }

  /** What each anchor stands for, in document order. */
  function Picks(anchors: seq<Anchor>, pick: Anchor -> Option<string>): (r: seq<Option<string>>)
    ensures |r| == |anchors|
    ensures forall i :: 0 <= i < |anchors| ==> r[i] == pick(anchors[i])
  {
    seq(|anchors|, i requires 0 <= i < |anchors| => pick(anchors[i]))
  }

  lemma PicksSnoc(anchors: seq<Anchor>, pick: Anchor -> Option<string>, i: int)
    requires 0 <= i < |anchors|
    ensures Picks(anchors[..i + 1], pick) == Picks(anchors[..i], pick) + [pick(anchors[i])]
  {
  }

  function CandidateOf(base: string): Anchor -> Option<string> {
    a => Candidate(a, base)
  }

  /** The post URLs of the anchors, in document order, repeats included. */
  function Candidates(anchors: seq<Anchor>, base: string): seq<string> {
    Somes(Picks(anchors, CandidateOf(base)))
  }

  /** A URL is a candidate iff some anchor stands for it. */
  lemma CandidatesMembers(anchors: seq<Anchor>, base: string)
    ensures forall u :: u in Candidates(anchors, base) <==>
              exists i :: 0 <= i < |anchors| && Candidate(anchors[i], base) == Some(u)
  {
    var picks := Picks(anchors, CandidateOf(base));
    forall u | Some(u) in picks
      ensures exists i :: 0 <= i < |anchors| && Candidate(anchors[i], base) == Some(u)
    {
      var i :| 0 <= i < |picks| && picks[i] == Some(u);
      assert picks[i] == Candidate(anchors[i], base);
    }
  }

  /** One more anchor adds the URL it stands for, if any. */
  lemma CandidatesSnoc(anchors: seq<Anchor>, base: string, i: int)
    requires 0 <= i < |anchors|
    ensures Candidates(anchors[..i + 1], base) ==
              Candidates(anchors[..i], base) + match Candidate(anchors[i], base) { case Some(u) => [u] case None => [] }
  {
    var pick := CandidateOf(base);
    PicksSnoc(anchors, pick, i);
    SomesSnoc(Picks(anchors[..i], pick), pick(anchors[i]));
  }

  /** The list get_post_links_from_page returns. */
  function PostLinksOf(page: Page, base: string): seq<string> {
    Dedup(Candidates(page.anchors, base))
  }

  /** The loop over the anchors, with its `seen` set and its `links` list. */
  method PostLinks(page: Page, base: string) returns (links: seq<string>)
    ensures links == PostLinksOf(page, base)
  {
    var anchors := page.anchors;
    var seen: set<string> := {};
    links := [];
    for i := 0 to |anchors|
      invariant links == Dedup(Candidates(anchors[..i], base))
      invariant forall u :: u in seen <==> u in links
    {
      CandidatesSnoc(anchors, base, i);
      var c := Candidate(anchors[i], base);
      ghost var prev := Candidates(anchors[..i], base);
      if c.Some? {
        var full := c.value;
        DedupSnoc(prev, full);
        if full !in seen {
          seen := seen + {full};
          links := links + [full];
        }
      } else {
        assert prev + [] == prev;
      }
    }
    assert anchors[..|anchors|] == anchors;
  }

  /** The links are duplicate-free, in first-seen order, and are exactly the
      post URLs of the page's anchors; each names the site and has a post path. */
  lemma {:induction false} PostLinksSpec(page: Page, base: string)
    ensures Distinct(PostLinksOf(page, base))
    ensures forall u :: u in PostLinksOf(page, base) <==>
              exists i :: 0 <= i < |page.anchors| && Candidate(page.anchors[i], base) == Some(u)
    ensures forall u :: u in PostLinksOf(page, base) ==> Contains(u, "randoromandie.com")
    ensures forall i, j :: 0 <= i < j < |PostLinksOf(page, base)| ==>
              var c := Candidates(page.anchors, base);
              FirstIndex(c, PostLinksOf(page, base)[i]) < FirstIndex(c, PostLinksOf(page, base)[j])
  {
    var c := Candidates(page.anchors, base);
    CandidatesMembers(page.anchors, base);
    forall i, j | 0 <= i < j < |Dedup(c)|
      ensures FirstIndex(c, Dedup(c)[i]) < FirstIndex(c, Dedup(c)[j])
    {
      DedupFirstSeenOrder(c, i, j);
    }
    forall u | u in Dedup(c) ensures Contains(u, "randoromandie.com") {
      var i :| 0 <= i < |page.anchors| && Candidate(page.anchors[i], base) == Some(u);
    }
  }

  /** "/YYYY/MM/DD/slug/" and "/YYYY/MM/DD/slug" give the same URL, so the
      two spellings of one post are counted once. */
  lemma SlashVariantsAgree(h1: string, h2: string, p: string, base: string)
    requires StartsWith(p, "/") && !EndsWith(p, "/")
    ensures Candidate(Anchor(h1, p + "/"), base) == Candidate(Anchor(h2, p), base)
  {
    assert (p + "/")[|p + "/"| - 1..] == "/";
    assert (p + "/")[..|p|] == p;
    assert StartsWith(p + "/", "/") by {
      assert (p + "/")[..1] == p[..1];
    }
  }

  // ---------------------------------------------------------------------
  // fetch_all_post_urls

  /** The address of listing page n: the site root for page 1. */
  function PageUrl(n: int): (r: string)
    ensures StartsWith(r, BASE_URL + "/") && EndsWith(r, "/")
  {
    if n > 1 then BASE_URL + "/page/" + NatToString(n) + "/" else BASE_URL + "/"
  }

  /** Distinct pages have distinct addresses, so no listing page is
      requested twice. */
  lemma PageUrlInjective(m: int, n: int)
    requires m >= 1 && n >= 1 && PageUrl(m) == PageUrl(n)
    ensures m == n
  {
    var pre := BASE_URL + "/page/";
    if m > 1 && n > 1 {
      var sm := NatToString(m);
      var sn := NatToString(n);
      assert PageUrl(m) == pre + sm + "/";
      assert PageUrl(n) == pre + sn + "/";
      assert |sm| == |sn|;
      assert sm == PageUrl(m)[|pre|..|pre| + |sm|];
      assert sn == PageUrl(n)[|pre|..|pre| + |sn|];
    }
  }

  /** What the crawl sees of each listing page: its links, or None when the fetch fails. */
  type Listing = int -> Option<seq<string>>

  /** The links of listing page n, or None when fetching it fails. */
  function LinksOfPage(fetch: string -> Option<Page>, n: int): Option<seq<string>> {
    match fetch(PageUrl(n))
    case None => None
    case Some(p) => Some(PostLinksOf(p, BASE_URL))
  }

  function ListingOf(fetch: string -> Option<Page>): Listing {
    n => LinksOfPage(fetch, n)
  }

  /** Page n was fetched and lists at least one post, so the crawl goes on. */
  predicate Continues(pages: Listing, n: int) {
    pages(n).Some? && pages(n).value != []
  }

  /** The first page from n on that is not crawled past: a failed fetch, a
      page without links, or maxPages + 1. */
  function StopPage(pages: Listing, n: int, maxPages: int): (s: int)
    requires n >= 1
    ensures n <= s
    ensures s <= if n <= maxPages then maxPages + 1 else n
    ensures forall k :: n <= k < s ==> Continues(pages, k)
    ensures s <= maxPages ==> !Continues(pages, s)
    decreases maxPages - n
  {
    if n > maxPages || !Continues(pages, n) then n else StopPage(pages, n + 1, maxPages)
  }

  /** Every link of pages 1 .. b - 1 that were crawled. */
  function UnionLinks(pages: Listing, b: int): set<string>
    decreases b
  {
    if b <= 1 then {}
    else UnionLinks(pages, b - 1) + if Continues(pages, b - 1) then SetOf(pages(b - 1).value) else {}
  }

  /** A URL is collected iff some crawled page before b lists it. */
  lemma {:induction false} UnionLinksMembers(pages: Listing, b: int, x: string)
    ensures x in UnionLinks(pages, b) <==>
              exists k :: 1 <= k < b && Continues(pages, k) && x in pages(k).value
    decreases b
  {
    if b > 1 {
      UnionLinksMembers(pages, b - 1, x);
      if x in UnionLinks(pages, b) && x !in UnionLinks(pages, b - 1) {
        assert Continues(pages, b - 1) && x in pages(b - 1).value;
      }
      if exists k :: 1 <= k < b && Continues(pages, k) && x in pages(k).value {
        var k :| 1 <= k < b && Continues(pages, k) && x in pages(k).value;
        if k == b - 1 {
          assert x in SetOf(pages(b - 1).value);
        }
      }
    }
  }

  /** A crawl that has reached a page that does not continue it has reached its stop. */
  lemma StopPageAt(pages: Listing, maxPages: int, page: int)
    requires 1 <= page <= StopPage(pages, 1, maxPages)
    requires page > maxPages || !Continues(pages, page)
    ensures page == StopPage(pages, 1, maxPages)
  {
  }

  /** A page within the bound that continues the crawl lies before the stop. */
  lemma StopPageAfter(pages: Listing, maxPages: int, page: int)
    requires 1 <= page <= StopPage(pages, 1, maxPages)
    requires page <= maxPages && Continues(pages, page)
    ensures page < StopPage(pages, 1, maxPages)
  {
  }

  /** The number of listing pages the crawl requests: those before the stop,
      plus the stopping page itself when the bound did not stop it. */
  function Requests(pages: Listing, maxPages: int): (n: nat)
    ensures n <= if maxPages > 0 then maxPages else 0
  {
    var s := StopPage(pages, 1, maxPages);
    if s <= maxPages then s else s - 1
  }

  /** One more page that continues the crawl adds its links to the collection. */
  lemma UnionLinksStep(pages: Listing, page: int)
    requires page >= 1 && Continues(pages, page)
    ensures UnionLinks(pages, page + 1) == UnionLinks(pages, page) + SetOf(pages(page).value)
  {
  }

  /** The addresses of listing pages 1 .. n, in request order. */
  function PageUrls(n: nat): (r: seq<string>)
    ensures |r| == n
    ensures forall k :: 0 <= k < n ==> r[k] == PageUrl(k + 1)
  {
    seq(n, k requires 0 <= k < n => PageUrl(k + 1))
  }

  lemma PageUrlsSnoc(n: nat)
    ensures PageUrls(n + 1) == PageUrls(n) + [PageUrl(n + 1)]
  {
  }

  /** The listing the crawl sees at page n is what the fetch of that page yields. */
  lemma ListingAt(fetch: string -> Option<Page>, n: int)
    ensures fetch(PageUrl(n)).None? ==> ListingOf(fetch)(n) == None
    ensures fetch(PageUrl(n)).Some? ==>
              ListingOf(fetch)(n) == Some(PostLinksOf(fetch(PageUrl(n)).value, BASE_URL))
  {
  }

  /** The pagination loop: pages 1, 2, ... up to maxPages, stopping at the
      first failed fetch or the first page that lists no post at all; the
      result is Python's sorted() of every link collected on the way. */
  method FetchAllPostUrls(fetch: string -> Option<Page>, maxPages: int)
    returns (urls: seq<string>, ghost requested: seq<string>)
    ensures urls == Crawl(fetch, maxPages)
    ensures requested == PageUrls(Requests(ListingOf(fetch), maxPages))
  {
    ghost var pages := ListingOf(fetch);
    var allUrls: set<string> := {};
    var page := 1;
    requested := [];
    ghost var stop := StopPage(pages, 1, maxPages);
    while page <= maxPages
      invariant 1 <= page <= stop
      invariant allUrls == UnionLinks(pages, page)
      invariant requested == PageUrls(page - 1)
      decreases maxPages - page
    {
      var url := PageUrl(page);
      requested := requested + [url];
      PageUrlsSnoc(page - 1);
      var r := fetch(url);
      ListingAt(fetch, page);
      if r.None? {
        StopPageAt(pages, maxPages, page);
        break;
      }
      var links := PostLinks(r.value, BASE_URL);
      if links == [] {
        StopPageAt(pages, maxPages, page);
        break;
      }
      StopPageAfter(pages, maxPages, page);
      UnionLinksStep(pages, page);
      allUrls := allUrls + SetOf(links);
      page := page + 1;
    }
    if page > maxPages {
      StopPageAt(pages, maxPages, page);
    }
    urls := SortSet(allUrls);
  }

  /** What fetch_all_post_urls returns: the sorted links of the crawled pages. */
  ghost function Crawl(fetch: string -> Option<Page>, maxPages: int): seq<string> {
    var pages := ListingOf(fetch);
    SortedOf(UnionLinks(pages, StopPage(pages, 1, maxPages)))
  }

  /** The crawl's result is sorted, without repeats, and holds exactly the
      links listed by the pages before the stop. */
  lemma CrawlMembers(fetch: string -> Option<Page>, maxPages: int)
    ensures SortedStrict(Crawl(fetch, maxPages))
    ensures forall u :: u in Crawl(fetch, maxPages) <==>
              exists k :: 1 <= k < StopPage(ListingOf(fetch), 1, maxPages) && Continues(ListingOf(fetch), k)
                          && u in ListingOf(fetch)(k).value
  {
    var pages := ListingOf(fetch);
    var b := StopPage(pages, 1, maxPages);
    forall u ensures u in Crawl(fetch, maxPages) <==>
                     exists k :: 1 <= k < b && Continues(pages, k) && u in pages(k).value {
      UnionLinksMembers(pages, b, u);
    }
  }

  /** A page that only repeats links already collected adds nothing, yet
      it does not stop the crawl: only a failed fetch or an empty page does. */
  lemma RepeatsDoNotStop(pages: Listing, k: int, maxPages: int)
    requires 1 <= k <= maxPages && k <= StopPage(pages, 1, maxPages)
    requires pages(k).Some? && pages(k).value != []
    requires SetOf(pages(k).value) <= UnionLinks(pages, k)
    ensures StopPage(pages, 1, maxPages) > k
    ensures UnionLinks(pages, k + 1) == UnionLinks(pages, k)
  {
    assert Continues(pages, k);
  }

  // ---------------------------------------------------------------------
  // scrape_all

  function UrlsOf(hikes: seq<Hike>): (r: seq<string>)
    ensures |r| == |hikes|
    ensures forall i :: 0 <= i < |hikes| ==> r[i] == hikes[i].url
  {
    seq(|hikes|, i requires 0 <= i < |hikes| => hikes[i].url)
  }

  /** The hike a post URL yields, or None when its fetch or its parse fails. */
  function HikeAt(fetch: string -> Option<Page>, url: string): (r: Option<Hike>)
    ensures r.Some? ==> r.value.url == url
  {
    match fetch(url)
    case None => None
    case Some(page) => HikeOf(url, page)
  }

  /** What scrape_all gets for each post URL. */
  type Scraper = string -> Option<Hike>

  function ScraperOf(fetch: string -> Option<Page>): Scraper {
    u => HikeAt(fetch, u)
  }

  /** Every hike a scraper yields carries the URL it was scraped from. */
  ghost predicate KeepsUrl(scrape: Scraper) {
    forall u :: scrape(u).Some? ==> scrape(u).value.url == u
  }

  lemma ScraperKeepsUrl(fetch: string -> Option<Page>)
    ensures KeepsUrl(ScraperOf(fetch))
  {
    forall u | ScraperOf(fetch)(u).Some? ensures ScraperOf(fetch)(u).value.url == u {
      assert ScraperOf(fetch)(u) == HikeAt(fetch, u);
    }
  }

  /** The hikes of the URLs, in order, skipping every URL whose fetch or parse fails. */
  function HikesOf(scrape: Scraper, urls: seq<string>): (r: seq<Hike>)
    ensures |r| <= |urls|
    ensures forall i :: 0 <= i < |r| ==> Some(r[i]) in Found(scrape, urls)
  {
    if urls == [] then []
    else
      var p := urls[..|urls| - 1];
      var hs := HikesOf(scrape, p);
      var u := urls[|urls| - 1];
      FoundSnoc(scrape, p, u);
      match scrape(u)
      case None => hs
      case Some(h) => hs + [h]
  }

  /** The scraper's answer for each URL, in order. */
  function Found(scrape: Scraper, urls: seq<string>): (r: seq<Option<Hike>>)
    ensures |r| == |urls|
    ensures forall i :: 0 <= i < |urls| ==> r[i] == scrape(urls[i])
  {
    seq(|urls|, i requires 0 <= i < |urls| => scrape(urls[i]))
  }

  lemma FoundSnoc(scrape: Scraper, p: seq<string>, u: string)
    ensures Found(scrape, p + [u]) == Found(scrape, p) + [scrape(u)]
  {
    assert |Found(scrape, p + [u])| == |p| + 1;
    forall i | 0 <= i < |p| + 1 ensures Found(scrape, p + [u])[i] == (Found(scrape, p) + [scrape(u)])[i] {
      if i < |p| {
        assert (p + [u])[i] == p[i];
      }
    }
  }

  lemma UrlsOfSnoc(hs: seq<Hike>, h: Hike)
    ensures UrlsOf(hs + [h]) == UrlsOf(hs) + [h.url]
  {
  }

  /** The hikes of urls + [u]: those of urls, then u's if it yields one. */
  lemma HikesOfSnoc(scrape: Scraper, urls: seq<string>, u: string)
    requires KeepsUrl(scrape)
    ensures UrlsOf(HikesOf(scrape, urls + [u])) ==
              UrlsOf(HikesOf(scrape, urls)) + if scrape(u).Some? then [u] else []
  {
    assert (urls + [u])[..|urls|] == urls;
    if scrape(u).Some? {
      UrlsOfSnoc(HikesOf(scrape, urls), scrape(u).value);
    }
  }

  /** The scraped hikes keep the order of their URLs. */
  lemma {:induction false} HikesOfOrder(scrape: Scraper, urls: seq<string>)
    requires KeepsUrl(scrape)
    ensures IsSubseq(UrlsOf(HikesOf(scrape, urls)), urls)
  {
    if urls != [] {
      var p := urls[..|urls| - 1];
      var u := urls[|urls| - 1];
      HikesOfOrder(scrape, p);
      assert urls == p + [u];
      HikesOfSnoc(scrape, p, u);
      SubseqExtend(UrlsOf(HikesOf(scrape, p)), p, u);
    }
  }

  /** A URL yields a scraped hike iff it is in the list and its fetch and
      parse succeed. */
  lemma {:induction false} HikesOfUrls(scrape: Scraper, urls: seq<string>)
    requires KeepsUrl(scrape)
    ensures forall u :: u in UrlsOf(HikesOf(scrape, urls)) <==> u in urls && scrape(u).Some?
  {
    if urls != [] {
      var p := urls[..|urls| - 1];
      var u := urls[|urls| - 1];
      HikesOfUrls(scrape, p);
      assert urls == p + [u];
      HikesOfSnoc(scrape, p, u);
    }
  }

  /** scrape_all: collect the post URLs, then fetch and parse each one,
      skipping the ones that fail. It works through the crawled URLs
      in sorted order. */
  method ScrapeAll(fetch: string -> Option<Page>) returns (hikes: seq<Hike>)
    ensures hikes == HikesOf(ScraperOf(fetch), Crawl(fetch, MAX_PAGES))
  {
    var urls;
    ghost var requested;
    urls, requested := FetchAllPostUrls(fetch, MAX_PAGES);
    hikes := ScrapeUrls(fetch, urls);
  }

  /** The loop of scrape_all over the post URLs. */
  method ScrapeUrls(fetch: string -> Option<Page>, urls: seq<string>) returns (hikes: seq<Hike>)
    ensures hikes == HikesOf(ScraperOf(fetch), urls)
  {
    hikes := [];
    for i := 0 to |urls|
      invariant hikes == HikesOf(ScraperOf(fetch), urls[..i])
    {
      assert urls[..i + 1][..i] == urls[..i];
      var hike := ScrapeOne(fetch, urls[i]);
      if hike.Some? {
        hikes := hikes + [hike.value];
      }
    }
    assert urls[..|urls|] == urls;
  }

  /** One iteration of scrape_all: fetch the post, then parse it; a failure of either skips it. */
  method ScrapeOne(fetch: string -> Option<Page>, url: string) returns (hike: Option<Hike>)
    ensures hike == HikeAt(fetch, url)
  {
    var response := fetch(url);
    if response.None? {
      return None;
    }
    hike := ParseHikePage(url, response.value);
  }

  /** The scraped hikes have distinct URLs, in the sorted order of the crawl. */
  lemma ScrapedUrlsSorted(fetch: string -> Option<Page>, urls: seq<string>)
    requires SortedStrict(urls)
    ensures SortedStrict(UrlsOf(HikesOf(ScraperOf(fetch), urls)))
  {
    ScraperKeepsUrl(fetch);
    HikesOfOrder(ScraperOf(fetch), urls);
    SortedSubseq(UrlsOf(HikesOf(ScraperOf(fetch), urls)), urls);
  }

  lemma {:induction false} SortedSubseq(a: seq<string>, b: seq<string>)
    requires SortedStrict(b) && IsSubseq(a, b)
    ensures SortedStrict(a)
    decreases |b|
  {
    if a != [] && b != [] {
      var b' := b[..|b| - 1];
      if a[|a| - 1] == b[|b| - 1] {
        var a' := a[..|a| - 1];
        SortedSubseq(a', b');
        SubseqMembers(a', b');
        forall i | 0 <= i < |a'| ensures StrLess(a[i], a[|a| - 1]) {
          assert a[i] == a'[i] && a[i] in b';
          var k :| 0 <= k < |b'| && b'[k] == a[i];
        }
      } else {
        SortedSubseq(a, b');
      }
    }
  }
}
