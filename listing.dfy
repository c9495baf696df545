/**
 * The listing crawler (scraper_mangas_links.py): builds the urls of a range
 * of index pages and concatenates the manga links found on each. The HTTP
 * request and the HTML parse are a `fetch` parameter, and `urljoin` is an
 * opaque `join` parameter.
 */
module ListingCrawler {
  import opened Wrappers
  import opened Decimal

  /** The url of the index pages, waiting for a page number. */
  const BaseUrl: string := "https://mangalivre.net/series/index/nome/todos?page="

  /** Python's `range(start, end + 1)` has this many elements. */
  function RangeLength(start: int, end: int): nat {
    if end + 1 - start > 0 then end + 1 - start else 0
  }

  /**
   * `_set_range_pages`: the guard `(start <= 0 or end <= 0) and start < end`
   * gives `[]`; otherwise one url per number of `range(start, end + 1)`.
   */
  function SetRangePages(start: int, end: int): (r: seq<string>)
    ensures start > end ==> r == []
    ensures start < end && (start <= 0 || end <= 0) ==> r == []
    ensures (start == end || (0 < start < end)) ==>
              |r| == end - start + 1
              && forall i :: 0 <= i < |r| ==> r[i] == BaseUrl + IntToDecimal(start + i)
  {
    if (start <= 0 || end <= 0) && start < end then []
    else seq(RangeLength(start, end), i => BaseUrl + IntToDecimal(start + i))
  }

  /** A url made of a prefix and a page number splits back into the two. */
  lemma NumberedUrl(urls: seq<string>, prefix: string, start: int, i: nat)
    requires i < |urls| && urls[i] == prefix + IntToDecimal(start + i)
    ensures |prefix| <= |urls[i]|
    ensures urls[i][..|prefix|] == prefix
    ensures ParseInt(urls[i][|prefix|..]) == Some(start + i)
  {
    assert urls[i][|prefix|..] == IntToDecimal(start + i);
    IntRoundTrip(start + i);
  }

  /** Every generated url is the index url followed by the page number, which reads back. */
  lemma RangePagesNumbered(start: int, end: int, i: nat)
    requires i < |SetRangePages(start, end)|
    ensures |BaseUrl| <= |SetRangePages(start, end)[i]|
    ensures SetRangePages(start, end)[i][..|BaseUrl|] == BaseUrl
    ensures ParseInt(SetRangePages(start, end)[i][|BaseUrl|..]) == Some(start + i)
  {
    NumberedUrl(SetRangePages(start, end), BaseUrl, start, i);
  }

  /** The generated urls are pairwise different. */
  lemma RangePagesDistinct(start: int, end: int, i: nat, j: nat)
    requires i < j < |SetRangePages(start, end)|
    ensures SetRangePages(start, end)[i] != SetRangePages(start, end)[j]
  {
    RangePagesNumbered(start, end, i);
    RangePagesNumbered(start, end, j);
  }

  /**
   * With `start == end` the guard's `start < end` is false, so even a page
   * number that is not positive yields exactly one url.
   */
  lemma SinglePageEvenWhenNotPositive(n: int)
    ensures SetRangePages(n, n) == [BaseUrl + IntToDecimal(n)]
  {
  }

  /** The HTTP status and the `href` of every `a.link-block` of one index page. */
  datatype Response = Response(status: int, hrefs: seq<Option<string>>)

  /** `_get_mangas_links`: the joined links of a page answered with 200, else nothing. */
  function GetMangasLinks(pageUrl: string, fetch: string -> Response,
                          join: (string, Option<string>) -> string): (r: seq<string>)
    ensures fetch(pageUrl).status != 200 ==> r == []
    ensures fetch(pageUrl).status == 200 ==>
              |r| == |fetch(pageUrl).hrefs|
              && forall k :: 0 <= k < |r| ==> r[k] == join(BaseUrl, fetch(pageUrl).hrefs[k])
  {
    var res := fetch(pageUrl);
    if res.status == 200 then seq(|res.hrefs|, k requires 0 <= k < |res.hrefs| => join(BaseUrl, res.hrefs[k]))
    else []
  }

  /** The links of the pages, page after page. */
  function LinksOf(pages: seq<string>, fetch: string -> Response,
                   join: (string, Option<string>) -> string): seq<string>
  {
    if pages == [] then []
    else LinksOf(pages[..|pages| - 1], fetch, join) + GetMangasLinks(pages[|pages| - 1], fetch, join)
  }

  /** The number of links each page brings, added up. */
  function TotalLinks(pages: seq<string>, fetch: string -> Response,
                      join: (string, Option<string>) -> string): nat
  {
    if pages == [] then 0
    else TotalLinks(pages[1..], fetch, join) + |GetMangasLinks(pages[0], fetch, join)|
  }

  /** `get_mangas_links_in_range`: `+=` of each page's links, in page order. */
  method GetMangasLinksInRange(start: int, end: int, fetch: string -> Response,
                               join: (string, Option<string>) -> string)
    returns (all: seq<string>)
    ensures all == LinksOf(SetRangePages(start, end), fetch, join)
    ensures |all| == TotalLinks(SetRangePages(start, end), fetch, join)
  {
    var pages := SetRangePages(start, end);
    all := [];
    var i := 0;
    while i < |pages|
      invariant 0 <= i <= |pages|
      invariant all == LinksOf(pages[..i], fetch, join)
    {
      assert pages[..i + 1][..i] == pages[..i];
      all := all + GetMangasLinks(pages[i], fetch, join);
      i := i + 1;
    }
    assert pages[..i] == pages;
    LinksOfLength(pages, fetch, join);
  }

  /** The links of two runs of pages are those of the first, then those of the second. */
  lemma {:induction false} LinksOfAppend(a: seq<string>, b: seq<string>, fetch: string -> Response,
                                         join: (string, Option<string>) -> string)
    ensures LinksOf(a + b, fetch, join) == LinksOf(a, fetch, join) + LinksOf(b, fetch, join)
    decreases |b|
  {
    if b != [] {
      var b' := b[..|b| - 1];
      assert (a + b)[..|a + b| - 1] == a + b';
      LinksOfAppend(a, b', fetch, join);
    } else {
      assert a + b == a;
    }
  }

  /** One page's links, as the accumulated result. */
  lemma LinksOfSingle(u: string, fetch: string -> Response, join: (string, Option<string>) -> string)
    ensures LinksOf([u], fetch, join) == GetMangasLinks(u, fetch, join)
  {
    assert [u][..0] == [];
  }

  /** The result is as long as the per-page results together. */
  lemma {:induction false} LinksOfLength(pages: seq<string>, fetch: string -> Response,
                                         join: (string, Option<string>) -> string)
    ensures |LinksOf(pages, fetch, join)| == TotalLinks(pages, fetch, join)
  {
    if pages != [] {
      LinksOfLength(pages[1..], fetch, join);
      LinksOfAppend([pages[0]], pages[1..], fetch, join);
      LinksOfSingle(pages[0], fetch, join);
      assert [pages[0]] + pages[1..] == pages;
    }
  }

  /** A page answered with a status other than 200 contributes no link. */
  lemma FailedPageContributesNothing(before: seq<string>, u: string, after: seq<string>,
                                     fetch: string -> Response, join: (string, Option<string>) -> string)
    requires fetch(u).status != 200
    ensures LinksOf(before + [u] + after, fetch, join) == LinksOf(before + after, fetch, join)
  {
    LinksOfAppend(before + [u], after, fetch, join);
    LinksOfAppend(before, [u], fetch, join);
    LinksOfSingle(u, fetch, join);
    LinksOfAppend(before, after, fetch, join);
  }

  /**
   * Page `k`'s links sit, in their own order, right after the links of the
   * pages before it.
   */
  lemma PageLinksInPlace(pages: seq<string>, k: nat, fetch: string -> Response,
                         join: (string, Option<string>) -> string)
    requires k < |pages|
    ensures var at := |LinksOf(pages[..k], fetch, join)|;
            var mine := GetMangasLinks(pages[k], fetch, join);
            at + |mine| <= |LinksOf(pages, fetch, join)|
            && LinksOf(pages, fetch, join)[at..at + |mine|] == mine
  {
    assert pages == pages[..k] + [pages[k]] + pages[k + 1..];
    LinksOfAppend(pages[..k] + [pages[k]], pages[k + 1..], fetch, join);
    LinksOfAppend(pages[..k], [pages[k]], fetch, join);
    LinksOfSingle(pages[k], fetch, join);
  }
}
