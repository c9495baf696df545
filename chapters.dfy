/**
 * The chapter scraper (scraper_mangas_chapters.py): opens each chapter in
 * the reader, reads its page count and chapter number, clicks through its
 * pages collecting the image links, and files them under the chapter number.
 */
module ChapterScraper {
  import opened Wrappers
  import opened Text
  import opened Decimal
  import opened Browser

  /** A chapter url that does not contain this is not a reader page of the site. */
  const UrlBaseReader: string := "https://mangalivre.net/ler/"

  /**
   * `get_number_of_pages` on a view: 0 when the wait times out, otherwise
   * `int(text)`, whose `ValueError` on text that is not a number is not caught.
   */
  function PageCountOf(view: ReaderView): (r: Result<int>)
    ensures view.pageCount.None? ==> r == Ok(0)
    ensures view.pageCount.Some? ==>
              && (r.Ok? <==> ParseInt(view.pageCount.value).Some?)
              && (r.Ok? ==> ParseInt(view.pageCount.value) == Some(r.value))
              && (r.Fail? ==> r.fault == ValueError)
  {
    match view.pageCount
    case None => Ok(0)
    case Some(text) =>
      match ParseInt(text)
      case None => Fail(ValueError)
      case Some(n) => Ok(n)
  }

  /** `get_number_of_chapter` on a view: the text as it is, `""` when the wait times out. */
  function ChapterNumberOf(view: ReaderView): (number: string)
    ensures view.chapterNumber.None? ==> number == ""
    ensures view.chapterNumber.Some? ==> number == view.chapterNumber.value
  {
    match view.chapterNumber
    case None => ""
    case Some(text) => text
  }

  /** `range(number_of_pages - 1)` runs this many times: one click per page but the last. */
  function Clicks(numberOfPages: int): (k: nat)
    ensures numberOfPages <= 1 ==> k == 0
    ensures numberOfPages > 1 ==> k == numberOfPages - 1
  {
    if numberOfPages > 1 then numberOfPages - 1 else 0
  }

  /** The `src` read at each of `count` pages, starting with the page on screen at `from`. */
  function Window(srcs: seq<string>, from: nat, count: nat): (w: seq<string>)
    ensures |w| == count
    ensures forall i :: 0 <= i < count ==> w[i] == SrcAt(srcs, from + i)
  {
    seq(count, i requires 0 <= i => SrcAt(srcs, from + i))
  }

  /** The links `if page_link:` keeps: the non-empty ones, in order. */
  function NonEmpty(links: seq<string>): seq<string> {
    if links == [] then []
    else (if links[0] != "" then [links[0]] else []) + NonEmpty(links[1..])
  }

  /** The pages `get_pages` collects when it starts at `from` and reads `count` pages. */
  function PagesOf(srcs: seq<string>, from: nat, count: nat): seq<string> {
    NonEmpty(Window(srcs, from, count))
  }

  /** Keeping the non-empty links of one more link is one more loop step. */
  lemma {:induction false} NonEmptySnoc(links: seq<string>, link: string)
    ensures NonEmpty(links + [link]) == NonEmpty(links) + (if link != "" then [link] else [])
    decreases |links|
  {
    if links == [] {
      assert [link][1..] == [];
    } else {
      assert (links + [link])[1..] == links[1..] + [link];
      NonEmptySnoc(links[1..], link);
    }
  }

  /**
   * The kept links are non-empty, include every non-empty link, and are
   * all of the links exactly when none is empty.
   */
  lemma {:induction false} NonEmptyShape(links: seq<string>)
    ensures forall k :: 0 <= k < |NonEmpty(links)| ==> NonEmpty(links)[k] != ""
    ensures forall k :: 0 <= k < |links| && links[k] != "" ==> links[k] in NonEmpty(links)
    ensures |NonEmpty(links)| <= |links|
    ensures |NonEmpty(links)| == |links| <==> forall k :: 0 <= k < |links| ==> links[k] != ""
  {
    if links != [] {
      NonEmptyShape(links[1..]);
      assert forall k :: 1 <= k < |links| ==> links[k] == links[1..][k - 1];
      if |NonEmpty(links)| == |links| {
        assert links[0] != "";
      }
    }
  }

  /** Every non-empty link is kept as often as it was read. */
  lemma {:induction false} NonEmptyCount(links: seq<string>)
    ensures multiset(NonEmpty(links)) == multiset(links)["" := 0]
  {
    if links != [] {
      NonEmptyCount(links[1..]);
      assert links == [links[0]] + links[1..];
      ConsRemoveAll(links[0], links[1..], "");
    }
  }

  /** The kept links come in the order of the links. */
  lemma {:induction false} NonEmptyInOrder(links: seq<string>)
    ensures IsSubsequence(NonEmpty(links), links)
  {
    if links != [] {
      NonEmptyInOrder(links[1..]);
      var rest := NonEmpty(links[1..]);
      if links[0] != "" {
        assert NonEmpty(links) == [links[0]] + rest;
        assert ([links[0]] + rest)[1..] == rest;
      } else {
        assert NonEmpty(links) == rest;
        assert rest == [] || IsSubsequence(rest, links[1..]);
      }
    }
  }

  /**
   * What `get_pages(n)` collects, read from page 0: every non-empty `src`
   * read, as often as it was read, in page order, and nothing else; so at
   * most one link per click, and exactly one when every page read has a `src`.
   */
  lemma ChapterPagesShape(srcs: seq<string>, numberOfPages: int)
    ensures var pages := PagesOf(srcs, 0, Clicks(numberOfPages));
            && |pages| <= Clicks(numberOfPages)
            && (forall k :: 0 <= k < |pages| ==> pages[k] != "")
            && IsSubsequence(pages, Window(srcs, 0, Clicks(numberOfPages)))
            && multiset(pages) == multiset(Window(srcs, 0, Clicks(numberOfPages)))["" := 0]
            && (|pages| == Clicks(numberOfPages) <==>
                forall i :: 0 <= i < Clicks(numberOfPages) ==> SrcAt(srcs, i) != "")
  {
    var w := Window(srcs, 0, Clicks(numberOfPages));
    NonEmptyShape(w);
    NonEmptyInOrder(w);
    NonEmptyCount(w);
    assert forall i :: 0 <= i < |w| ==> w[i] == SrcAt(srcs, i);
  }

  /** A count of at most one clicks nothing and collects nothing. */
  lemma NoPagesForSmallCount(srcs: seq<string>, numberOfPages: int)
    requires numberOfPages <= 1
    ensures Clicks(numberOfPages) == 0 && PagesOf(srcs, 0, Clicks(numberOfPages)) == []
  {
  }

  /**
   * Each page is read before its click, so the page shown after the last
   * click, page `n - 1`, is never read: changing its `src` changes nothing.
   */
  lemma LastPageNeverRead(srcs: seq<string>, numberOfPages: nat, other: string)
    requires 1 <= numberOfPages <= |srcs|
    ensures PagesOf(srcs[numberOfPages - 1 := other], 0, Clicks(numberOfPages)) == PagesOf(srcs, 0, Clicks(numberOfPages))
  {
    var changed := srcs[numberOfPages - 1 := other];
    assert Window(changed, 0, Clicks(numberOfPages)) == Window(srcs, 0, Clicks(numberOfPages));
  }

  /** A page count shown as a decimal number reads back as that number. */
  lemma PageCountReadsBack(view: ReaderView, n: int)
    requires view.pageCount == Some(IntToDecimal(n))
    ensures PageCountOf(view) == Ok(n)
  {
    IntRoundTrip(n);
  }

  /**
   * A page count that starts with one of the information separators U+001C
   * to U+001F is a `ValueError`, although `str.isspace()` calls them whitespace.
   */
  lemma SeparatorCountFails(view: ReaderView)
    requires view.pageCount.Some? && view.pageCount.value != []
    requires '\U{1C}' <= view.pageCount.value[0] <= '\U{1F}'
    ensures PageCountOf(view) == Fail(ValueError)
  {
    SeparatorNotSkipped(view.pageCount.value);
  }

  /** What reading one chapter yields: its number, the clicks made and the pages collected. */
  datatype ChapterRead = ChapterRead(number: string, clicks: nat, pages: seq<string>)

  /**
   * One round of `get_all_chapters` on the view of a chapter: the count
   * read first, then the number, then the pages for that count; a count that
   * is not a number ends the round with its failure.
   */
  function ReadChapter(view: ReaderView): Result<ChapterRead> {
    match PageCountOf(view)
    case Fail(f) => Fail(f)
    case Ok(n) => Ok(ChapterRead(ChapterNumberOf(view), Clicks(n), PagesOf(view.srcs, 0, Clicks(n))))
  }

  /**
   * A round fails, with `ValueError`, exactly when the page count is not a
   * number; otherwise it files the pages `get_pages` collects for the count
   * under the chapter number, after one click per page but the last.
   */
  lemma ReadChapterShape(view: ReaderView)
    ensures ReadChapter(view).Fail? <==> view.pageCount.Some? && ParseInt(view.pageCount.value).None?
    ensures ReadChapter(view).Fail? ==> ReadChapter(view).fault == ValueError
    ensures ReadChapter(view).Ok? ==>
              var c := ReadChapter(view).value;
              && c.number == ChapterNumberOf(view)
              && c.clicks == Clicks(PageCountOf(view).value)
              && c.pages == PagesOf(view.srcs, 0, c.clicks)
              && |c.pages| <= c.clicks
  {
    if ReadChapter(view).Ok? {
      ChapterPagesShape(view.srcs, PageCountOf(view).value);
    }
  }

  /** The round of each url, as the site renders it. */
  function ReadOf(site: string -> ReaderView): string -> Result<ChapterRead> {
    u => ReadChapter(site(u))
  }

  /**
   * `get_all_chapters` from session state `s` with the chapters `acc` filed
   * so far, `read` giving each url's round: the state it leaves, and the
   * dict or the failure that ends it.
   */
  function Walk(read: string -> Result<ChapterRead>, s: Snapshot, urls: seq<string>, acc: map<string, seq<string>>)
    : (Snapshot, Result<map<string, seq<string>>>)
    decreases |urls|
  {
    if urls == [] then (s, Ok(acc))
    else
      match read(urls[0])
      case Fail(f) => (Snapshot(urls[0], 0, s.clicks), Fail(f))
      case Ok(c) => Walk(read, Snapshot(urls[0], c.clicks, s.clicks + c.clicks), urls[1..], acc[c.number := c.pages])
  }

  /** The first round of a walk: it ends the walk, or files its entry and the walk goes on. */
  lemma WalkStep(read: string -> Result<ChapterRead>, s: Snapshot, urls: seq<string>, acc: map<string, seq<string>>)
    requires urls != []
    ensures read(urls[0]).Fail? ==> Walk(read, s, urls, acc) == (Snapshot(urls[0], 0, s.clicks), Fail(read(urls[0]).fault))
    ensures read(urls[0]).Ok? ==>
              var c := read(urls[0]).value;
              Walk(read, s, urls, acc) == Walk(read, Snapshot(urls[0], c.clicks, s.clicks + c.clicks), urls[1..], acc[c.number := c.pages])
  {
  }

  /** The walk fails exactly when the round of some url fails. */
  lemma {:induction false} WalkFailsIff(read: string -> Result<ChapterRead>, s: Snapshot, urls: seq<string>,
                                        acc: map<string, seq<string>>)
    ensures Walk(read, s, urls, acc).1.Fail? <==> exists i :: 0 <= i < |urls| && read(urls[i]).Fail?
    decreases |urls|
  {
    if urls != [] {
      match read(urls[0])
      case Fail(_) =>
      case Ok(c) =>
        var rest := urls[1..];
        WalkFailsIff(read, Snapshot(urls[0], c.clicks, s.clicks + c.clicks), rest, acc[c.number := c.pages]);
        assert forall i :: 0 <= i < |rest| ==> rest[i] == urls[i + 1];
        assert forall i :: 1 <= i < |urls| ==> urls[i] == rest[i - 1];
    }
  }

  /** For the chapter scraper, the walk fails exactly when some page count is not a number. */
  lemma ScrapeFailsIff(site: string -> ReaderView, s: Snapshot, urls: seq<string>)
    ensures Walk(ReadOf(site), s, urls, map[]).1.Fail? <==>
              exists i :: 0 <= i < |urls| && site(urls[i]).pageCount.Some?
                                          && ParseInt(site(urls[i]).pageCount.value).None?
  {
    WalkFailsIff(ReadOf(site), s, urls, map[]);
    assert forall i :: 0 <= i < |urls| ==> ReadOf(site)(urls[i]) == ReadChapter(site(urls[i]));
  }

  /** The chapter numbers of the rounds that succeed. */
  function Labels(read: string -> Result<ChapterRead>, urls: seq<string>): (labels: set<string>)
    ensures forall i :: 0 <= i < |urls| && read(urls[i]).Ok? ==> read(urls[i]).value.number in labels
    ensures forall l :: l in labels ==>
              exists i :: 0 <= i < |urls| && read(urls[i]).Ok? && read(urls[i]).value.number == l
  {
    set i | 0 <= i < |urls| && read(urls[i]).Ok? :: read(urls[i]).value.number
  }

  /** The labels of a run of urls whose first round succeeds: the first one's, and those of the rest. */
  lemma LabelsCons(read: string -> Result<ChapterRead>, urls: seq<string>)
    requires urls != [] && read(urls[0]).Ok?
    ensures Labels(read, urls) == {read(urls[0]).value.number} + Labels(read, urls[1..])
  {
    var rest := urls[1..];
    assert forall i :: 0 <= i < |rest| ==> rest[i] == urls[i + 1];
    forall l | l in Labels(read, urls) ensures l in {read(urls[0]).value.number} + Labels(read, rest) {
      var i :| 0 <= i < |urls| && read(urls[i]).Ok? && read(urls[i]).value.number == l;
      if i > 0 {
        assert rest[i - 1] == urls[i];
      }
    }
  }

  /** Filing one more entry adds at most one key. */
  lemma FileOne(acc: map<string, seq<string>>, key: string, pages: seq<string>)
    ensures acc[key := pages].Keys == acc.Keys + {key}
    ensures |acc[key := pages]| <= |acc| + 1
  {
    if key in acc {
      assert acc[key := pages].Keys == acc.Keys;
    } else {
      assert acc[key := pages].Keys == acc.Keys + {key};
    }
  }

  /** A walk that succeeds files one entry per chapter number it reads, besides those it started with. */
  lemma {:induction false} WalkKeys(read: string -> Result<ChapterRead>, s: Snapshot, urls: seq<string>,
                                    acc: map<string, seq<string>>)
    requires Walk(read, s, urls, acc).1.Ok?
    ensures Walk(read, s, urls, acc).1.value.Keys == acc.Keys + Labels(read, urls)
    decreases |urls|
  {
    if urls != [] {
      var c := read(urls[0]).value;
      var s' := Snapshot(urls[0], c.clicks, s.clicks + c.clicks);
      var acc' := acc[c.number := c.pages];
      assert Walk(read, s, urls, acc) == Walk(read, s', urls[1..], acc');
      FileOne(acc, c.number, c.pages);
      WalkKeys(read, s', urls[1..], acc');
      LabelsCons(read, urls);
      assert acc'.Keys + Labels(read, urls[1..]) == acc.Keys + Labels(read, urls);
    }
  }

  /** A walk that succeeds holds at most one entry per url besides those it started with. */
  lemma {:induction false} WalkSize(read: string -> Result<ChapterRead>, s: Snapshot, urls: seq<string>,
                                    acc: map<string, seq<string>>)
    requires Walk(read, s, urls, acc).1.Ok?
    ensures |Walk(read, s, urls, acc).1.value| <= |acc| + |urls|
    decreases |urls|
  {
    if urls != [] {
      var c := read(urls[0]).value;
      var s' := Snapshot(urls[0], c.clicks, s.clicks + c.clicks);
      var acc' := acc[c.number := c.pages];
      assert Walk(read, s, urls, acc) == Walk(read, s', urls[1..], acc');
      FileOne(acc, c.number, c.pages);
      WalkSize(read, s', urls[1..], acc');
    }
  }

  /** The entry of a chapter whose number no later url shows holds that chapter's pages. */
  lemma {:induction false} WalkLastWins(read: string -> Result<ChapterRead>, s: Snapshot, urls: seq<string>,
                                        acc: map<string, seq<string>>, i: nat)
    requires Walk(read, s, urls, acc).1.Ok?
    requires i < |urls| && read(urls[i]).Ok?
    requires forall j :: i < j < |urls| && read(urls[j]).Ok? ==> read(urls[j]).value.number != read(urls[i]).value.number
    ensures var c := read(urls[i]).value;
            c.number in Walk(read, s, urls, acc).1.value && Walk(read, s, urls, acc).1.value[c.number] == c.pages
    decreases |urls|
  {
    var c := read(urls[0]).value;
    var s' := Snapshot(urls[0], c.clicks, s.clicks + c.clicks);
    var rest := urls[1..];
    assert forall j :: 0 <= j < |rest| ==> rest[j] == urls[j + 1];
    if i == 0 {
      WalkUntouched(read, s', rest, acc[c.number := c.pages], c.number);
    } else {
      WalkLastWins(read, s', rest, acc[c.number := c.pages], i - 1);
    }
  }

  /** An entry whose chapter number no url shows keeps the value it started with. */
  lemma {:induction false} WalkUntouched(read: string -> Result<ChapterRead>, s: Snapshot, urls: seq<string>,
                                         acc: map<string, seq<string>>, key: string)
    requires Walk(read, s, urls, acc).1.Ok?
    requires key in acc
    requires forall j :: 0 <= j < |urls| && read(urls[j]).Ok? ==> read(urls[j]).value.number != key
    ensures key in Walk(read, s, urls, acc).1.value
    ensures Walk(read, s, urls, acc).1.value[key] == acc[key]
    decreases |urls|
  {
    if urls != [] {
      var c := read(urls[0]).value;
      var rest := urls[1..];
      assert forall j :: 0 <= j < |rest| ==> rest[j] == urls[j + 1];
      WalkUntouched(read, Snapshot(urls[0], c.clicks, s.clicks + c.clicks), rest, acc[c.number := c.pages], key);
    }
  }

  /** Two chapters read with the same number leave one entry, the second one's pages. */
  lemma SameNumberOverwrites(read: string -> Result<ChapterRead>, s: Snapshot, first: string, second: string)
    requires read(first).Ok? && read(second).Ok?
    requires read(first).value.number == read(second).value.number
    ensures Walk(read, s, [first, second], map[]).1 == Ok(map[read(second).value.number := read(second).value.pages])
  {
    var urls := [first, second];
    assert urls[0] == first && urls[1..] == [second];
    assert [second][0] == second && [second][1..] == [];
    var c1 := read(first).value;
    var c2 := read(second).value;
    var s1 := Snapshot(first, c1.clicks, s.clicks + c1.clicks);
    var s2 := Snapshot(second, c2.clicks, s1.clicks + c2.clicks);
    var m1: map<string, seq<string>> := map[][c1.number := c1.pages];
    assert Walk(read, s, urls, map[]) == Walk(read, s1, [second], m1);
    assert Walk(read, s1, [second], m1) == Walk(read, s2, [], m1[c2.number := c2.pages]);
    assert m1[c2.number := c2.pages] == map[c2.number := c2.pages];
  }

  /**
   * A chapter whose number timed out is filed under `""`, so all such
   * chapters overwrite one another.
   */
  lemma TimedOutFiledUnderEmpty(site: string -> ReaderView, u: string)
    requires site(u).chapterNumber.None? && PageCountOf(site(u)).Ok?
    ensures ReadOf(site)(u).Ok? && ReadOf(site)(u).value.number == ""
  {
  }

  /** The chapter scraper, driving one browser session. */
  class ScraperChapters {
    const browser: Session

    constructor (browser: Session)
      ensures this.browser == browser
    {
      this.browser := browser;
    }

    /**
     * `go_to_the_chapter`: navigates to `url` even when it is not a reader
     * url; that case only prints the warning.
     */
    method GoToTheChapter(url: string) returns (warned: bool)
      modifies browser
      ensures warned == !Contains(url, UrlBaseReader)
      ensures browser.Snap() == Snapshot(url, 0, old(browser.clicks))
    {
      warned := !Contains(url, UrlBaseReader);
      browser.Get(url);
    }

    /** `get_number_of_pages` for the chapter on screen. */
    method GetNumberOfPages() returns (r: Result<int>)
      ensures r == PageCountOf(browser.site(browser.currentUrl))
    {
      var text := browser.WaitForPageCount();
      if text.None? {
        return Ok(0);
      }
      var n := ParseInt(text.value);
      if n.None? {
        return Fail(ValueError);
      }
      return Ok(n.value);
    }

    /** `get_number_of_chapter` for the chapter on screen. */
    method GetNumberOfChapter() returns (number: string)
      ensures number == ChapterNumberOf(browser.site(browser.currentUrl))
    {
      var text := browser.WaitForChapterNumber();
      if text.None? {
        return "";
      }
      return text.value;
    }

    /**
     * `get_pages`: `range(number_of_pages - 1)` rounds, each reading the
     * image on screen, keeping its `src` when non-empty, then clicking next.
     */
    method GetPages(numberOfPages: int) returns (pages: seq<string>)
      modifies browser
      ensures browser.currentUrl == old(browser.currentUrl)
      ensures browser.cursor == old(browser.cursor) + Clicks(numberOfPages)
      ensures browser.clicks == old(browser.clicks) + Clicks(numberOfPages)
      ensures pages == PagesOf(browser.site(browser.currentUrl).srcs, old(browser.cursor), Clicks(numberOfPages))
    {
      var srcs := browser.site(browser.currentUrl).srcs;
      var from := browser.cursor;
      pages := [];
      var i := 0;
      while i < numberOfPages - 1
        invariant 0 <= i <= Clicks(numberOfPages)
        invariant browser.currentUrl == old(browser.currentUrl)
        invariant browser.cursor == from + i && browser.clicks == old(browser.clicks) + i
        invariant pages == PagesOf(srcs, from, i)
      {
        var link := browser.ImageSrc();
        NonEmptySnoc(Window(srcs, from, i), link);
        assert Window(srcs, from, i + 1) == Window(srcs, from, i) + [link];
        if link != "" {
          pages := pages + [link];
        }
        browser.ClickNext();
        i := i + 1;
      }
    }

    /**
     * One round of `get_all_chapters`' loop: navigate to `url`, read the
     * count, then the number, then the pages for the count just read.
     */
    method VisitChapter(url: string) returns (round: Result<ChapterRead>)
      modifies browser
      ensures round == ReadChapter(browser.site(url))
      ensures round.Fail? ==> browser.Snap() == Snapshot(url, 0, old(browser.clicks))
      ensures round.Ok? ==> browser.Snap() == Snapshot(url, round.value.clicks, old(browser.clicks) + round.value.clicks)
    {
      var _ := GoToTheChapter(url);
      var numberOfPages := GetNumberOfPages();
      if numberOfPages.Fail? {
        return Fail(numberOfPages.fault);
      }
      var numberOfChapter := GetNumberOfChapter();
      var chapterPages := GetPages(numberOfPages.value);
      round := Ok(ChapterRead(numberOfChapter, Clicks(numberOfPages.value), chapterPages));
    }

    /**
     * `get_all_chapters`: for each url in turn, one round, whose pages are
     * filed under the chapter number; a later chapter with the same number
     * overwrites, and a count that is not a number ends the walk.
     */
    method GetAllChapters(urls: seq<string>) returns (r: Result<map<string, seq<string>>>)
      modifies browser
      ensures (browser.Snap(), r) == Walk(ReadOf(browser.site), old(browser.Snap()), urls, map[])
    {
      ghost var read := ReadOf(browser.site);
      var all: map<string, seq<string>> := map[];
      var i := 0;
      while i < |urls|
        invariant 0 <= i <= |urls|
        invariant Walk(read, browser.Snap(), urls[i..], all) == Walk(read, old(browser.Snap()), urls, map[])
      {
        ghost var before := browser.Snap();
        ghost var rest := urls[i..];
        assert rest[0] == urls[i] && rest[1..] == urls[i + 1..];
        var round := VisitChapter(urls[i]);
        assert read(urls[i]) == round;
        WalkStep(read, before, rest, all);
        if round.Fail? {
          return Fail(round.fault);
        }
        var c := round.value;
        assert browser.Snap() == Snapshot(rest[0], c.clicks, before.clicks + c.clicks);
        assert Walk(read, before, rest, all) == Walk(read, browser.Snap(), rest[1..], all[c.number := c.pages]);
        all := all[c.number := c.pages];
        i := i + 1;
      }
      r := Ok(all);
    }
  }
}
