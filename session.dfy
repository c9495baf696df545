/**
 * A stand-in for the Firefox WebDriver session the chapter scraper drives:
 * each url shows a reader view, `get` navigates and shows its first page,
 * and clicking "next" moves to the following page.
 */
module Browser {
  import opened Wrappers

  /**
   * What a chapter url renders in the reader: the texts of the page-count
   * and chapter-number elements (`None` when waiting for them times out)
   * and the image `src` of each page, first page first.
   */
  datatype ReaderView = ReaderView(pageCount: Option<string>, chapterNumber: Option<string>, srcs: seq<string>)

  /** The `src` of page `k` (from 0); past the last page the image has none, read as `""`. */
  function SrcAt(srcs: seq<string>, k: nat): (src: string)
    ensures k < |srcs| ==> src == srcs[k]
    ensures k >= |srcs| ==> src == ""
  {
    if k < |srcs| then srcs[k] else ""
  }

  /** The observable state of the session: current url, page shown, clicks made so far. */
  datatype Snapshot = Snapshot(url: string, cursor: nat, clicks: nat)

  class Session {
    /** What each url renders. */
    const site: string -> ReaderView
    var currentUrl: string
    /** The page of the current chapter on screen, from 0. */
    var cursor: nat
    /** How many times "next" has been clicked in this session. */
    var clicks: nat

    constructor (site: string -> ReaderView)
      ensures this.site == site
      ensures currentUrl == "" && cursor == 0 && clicks == 0
    {
      this.site := site;
      currentUrl := "";
      cursor := 0;
      clicks := 0;
    }

    function Snap(): Snapshot
      reads this
    {
      Snapshot(currentUrl, cursor, clicks)
    }

    /** The reader view of the current url. */
    function View(): ReaderView
      reads this
    {
      site(currentUrl)
    }

    /** `get(url)`: navigates to `url`, showing its first page. */
    method Get(url: string)
      modifies this
      ensures currentUrl == url && cursor == 0 && clicks == old(clicks)
    {
      currentUrl := url;
      cursor := 0;
    }

    /** Waiting until the page-count element is visible: its text, or `None` on a timeout. */
    method WaitForPageCount() returns (text: Option<string>)
      ensures text == site(currentUrl).pageCount
    {
      text := site(currentUrl).pageCount;
    }

    /** Waiting until the chapter-number element is visible: its text, or `None` on a timeout. */
    method WaitForChapterNumber() returns (text: Option<string>)
      ensures text == site(currentUrl).chapterNumber
    {
      text := site(currentUrl).chapterNumber;
    }

    /** `get_attribute("src")` of the image on screen. */
    method ImageSrc() returns (src: string)
      ensures cursor < |site(currentUrl).srcs| ==> src == site(currentUrl).srcs[cursor]
      ensures cursor >= |site(currentUrl).srcs| ==> src == ""
    {
      src := SrcAt(site(currentUrl).srcs, cursor);
    }

    /** `click()` on the "next page" button. */
    method ClickNext()
      modifies this
      ensures currentUrl == old(currentUrl)
      ensures cursor == old(cursor) + 1 && clicks == old(clicks) + 1
    {
      cursor := cursor + 1;
      clicks := clicks + 1;
    }
  }
}
