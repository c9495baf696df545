/**
 * The extractor of scraper_mangas_info.py, which reads the page the browser
 * rendered. Every lookup it wraps in `try ... except AttributeError` falls
 * back to a default; what escapes that `except` is a failure.
 */
module BrowserInfo {
  import opened Wrappers
  import opened Text
  import opened Dom
  import opened MangaModel

  /** The status of a manga without the completed marker. */
  const Ongoing: string := "em lançamento"

  /**
   * `_get_manga_cover`: `""` without `div#series-data`; without `img.cover`
   * the `.get("src")` outside the `try` raises; otherwise the `src`
   * attribute, `None` when the image has none.
   */
  function GetMangaCover(page: Page): (r: Result<Option<string>>)
    ensures page.seriesData.None? ==> r == Ok(Some(""))
    ensures page.seriesData.Some? && page.seriesData.value.cover.None? ==> r == Fail(AttributeError)
    ensures page.seriesData.Some? && page.seriesData.value.cover.Some? ==>
              r == Ok(page.seriesData.value.cover.value.src)
  {
    match page.seriesData
    case None => Ok(Some(""))
    case Some(data) =>
      match data.cover
      case None => Fail(AttributeError)
      case Some(img) => Ok(img.src)
  }

  /**
   * `_get_manga_status`: the lowercased text of `i.complete-series`, or
   * "em lançamento" when the marker or `div#series-data` is missing.
   */
  function GetMangaStatus(page: Page): (r: string)
    ensures (page.seriesData.None? || page.seriesData.value.completeMarker.None?) ==> r == Ongoing
    ensures page.seriesData.Some? && page.seriesData.value.completeMarker.Some? ==>
              r == Lower(page.seriesData.value.completeMarker.value)
    ensures forall i :: 0 <= i < |r| ==> !('A' <= r[i] <= 'Z')
  {
    match page.seriesData
    case None => Ongoing
    case Some(data) =>
      match data.completeMarker
      case None => Ongoing
      case Some(text) => Lower(text)
  }

  /** One author text node as the loop rewrites it: stripped, runs of spaces made single. */
  function NormalizeAuthor(text: string): string {
    CollapseSpaces(Strip(text))
  }

  /**
   * The normalised author is empty exactly when the text is blank, and
   * otherwise starts and ends with a character that is not whitespace.
   */
  lemma NormalizeAuthorEnds(text: string)
    ensures NormalizeAuthor(text) == [] <==> IsBlank(text)
    ensures var a := NormalizeAuthor(text); a == [] || (!IsSpace(a[0]) && !IsSpace(a[|a| - 1]))
  {
    var u := Strip(text);
    if u != [] {
      assert !IsSpace(u[0]) && !IsSpace(u[|u| - 1]);
      CollapseKeepsEnds(u);
    } else {
      CollapseEmpty();
    }
  }

  /**
   * The normalised author is single-spaced and has no whitespace at either
   * end, is empty exactly when the text is blank, and normalising it again
   * leaves it unchanged.
   */
  lemma NormalizeAuthorShape(text: string)
    ensures SingleSpaced(NormalizeAuthor(text))
    ensures Strip(NormalizeAuthor(text)) == NormalizeAuthor(text)
    ensures NormalizeAuthor(text) == [] <==> IsBlank(text)
    ensures NormalizeAuthor(NormalizeAuthor(text)) == NormalizeAuthor(text)
  {
    var a := NormalizeAuthor(text);
    CollapseSingleSpaced(Strip(text));
    NormalizeAuthorEnds(text);
    StripTrimmed(a);
    CollapseSingleSpacedFixed(a);
  }

  /** The author the loop settles on: the last qualifying text node, normalised, or `""`. */
  function AuthorOf(children: seq<Child>): string {
    var k := LastQualifyingIndex(children);
    if k < 0 then "" else NormalizeAuthor(children[k].text)
  }

  /** One more child either replaces the author, when it qualifies, or leaves it. */
  lemma AuthorOfSnoc(children: seq<Child>, c: Child)
    ensures AuthorOf(children + [c]) == if Qualifies(c) then NormalizeAuthor(c.text) else AuthorOf(children)
  {
    assert (children + [c])[..|children|] == children;
  }

  /**
   * `_get_manga_author`: `""` without `div#series-data`; iterating a missing
   * `span.series-author` raises `TypeError`, which the `except` does not
   * catch; otherwise the author the loop over its children settles on.
   */
  method GetMangaAuthor(page: Page) returns (r: Result<string>)
    ensures page.seriesData.None? ==> r == Ok("")
    ensures page.seriesData.Some? && page.seriesData.value.author.None? ==> r == Fail(TypeError)
    ensures page.seriesData.Some? && page.seriesData.value.author.Some? ==>
              r == Ok(AuthorOf(page.seriesData.value.author.value))
  {
    if page.seriesData.None? {
      return Ok("");
    }
    var span := page.seriesData.value.author;
    if span.None? {
      return Fail(TypeError);
    }
    var author := LoopAuthor(span.value);
    return Ok(author);
  }

  /**
   * The loop of `_get_manga_author`: every qualifying direct text child
   * overwrites the author with its normalised text, so the last one wins.
   */
  method LoopAuthor(children: seq<Child>) returns (author: string)
    ensures author == AuthorOf(children)
  {
    author := "";
    var i := 0;
    while i < |children|
      invariant 0 <= i <= |children|
      invariant author == AuthorOf(children[..i])
    {
      AuthorOfSnoc(children[..i], children[i]);
      assert children[..i + 1] == children[..i] + [children[i]];
      var tag := children[i];
      if tag.TextNode? && !IsBlank(tag.text) {
        var tagAuthor := Strip(tag.text);
        var lineAuthor := DropEmpty(Split(tagAuthor, ' '));
        author := Join(' ', lineAuthor);
      }
      i := i + 1;
    }
    assert children[..i] == children;
  }

  /** The author is `""` exactly when no direct child is a non-blank text node. */
  lemma AuthorEmptyIff(children: seq<Child>)
    ensures AuthorOf(children) == "" <==> forall i :: 0 <= i < |children| ==> !Qualifies(children[i])
  {
    var k := LastQualifyingIndex(children);
    if k >= 0 {
      NormalizeAuthorShape(children[k].text);
    }
  }

  /**
   * `_get_manga_categories`: `[]` without `div#series-data` or without
   * `div.carousel`; otherwise the non-blank space-free lines of its text.
   */
  function GetMangaCategories(page: Page): (r: seq<string>)
    ensures (page.seriesData.None? || page.seriesData.value.carousel.None?) ==> r == []
    ensures page.seriesData.Some? && page.seriesData.value.carousel.Some? ==>
              r == SplitCategories(page.seriesData.value.carousel.value)
  {
    match page.seriesData
    case None => []
    case Some(data) =>
      match data.carousel
      case None => []
      case Some(text) => SplitCategories(text)
  }

  /** `_get_manga_description`: the inner `span`'s text, `""` when any node on the way is missing. */
  function GetMangaDescription(page: Page): (r: string)
    ensures (|| page.seriesData.None?
             || page.seriesData.value.description.None?
             || page.seriesData.value.description.value.inner.None?) ==> r == ""
    ensures (&& page.seriesData.Some?
             && page.seriesData.value.description.Some?
             && page.seriesData.value.description.value.inner.Some?) ==>
              r == page.seriesData.value.description.value.inner.value
  {
    match page.seriesData
    case None => ""
    case Some(data) =>
      match data.description
      case None => ""
      case Some(span) =>
        match span.inner
        case None => ""
        case Some(text) => text
  }

  /** `_get_manga_alternative_titles`: one text per `li`, in order, `[]` when the list is missing. */
  function GetMangaAlternativeTitles(page: Page): (r: seq<string>)
    ensures (page.seriesData.None? || page.seriesData.value.synonyms.None?) ==> r == []
    ensures page.seriesData.Some? && page.seriesData.value.synonyms.Some? ==>
              r == page.seriesData.value.synonyms.value
  {
    match page.seriesData
    case None => []
    case Some(data) =>
      match data.synonyms
      case None => []
      case Some(items) => items
  }

  /** A chapter `li` has both the label `span` and the link it needs. */
  predicate Complete(item: ChapterItem) {
    item.capText.Some? && item.link.Some?
  }

  /**
   * `_get_manga_list_chapters`: `[]` without `div#chapter-list` or its
   * `ul`; otherwise one stub per `li`, in order, with no pages, a page count
   * of 0, the label text as it is and the link resolved against the current
   * url, unless some `li` lacks its label or link, in which case the
   * `AttributeError` discards everything built so far and gives `[]`.
   */
  method GetMangaListChapters(page: Page, currentUrl: string, join: (string, Option<string>) -> string)
    returns (chapters: seq<Chapter>)
    ensures (page.chapterList.None? || page.chapterList.value.items.None?) ==> chapters == []
    ensures page.chapterList.Some? && page.chapterList.value.items.Some? ==>
              var items := page.chapterList.value.items.value;
              && ((exists i :: 0 <= i < |items| && !Complete(items[i])) ==> chapters == [])
              && ((forall i :: 0 <= i < |items| ==> Complete(items[i])) ==>
                    && |chapters| == |items|
                    && forall i :: 0 <= i < |items| ==>
                         && chapters[i].pages == []
                         && chapters[i].numberOfPages == 0
                         && chapters[i].numberOfChapter == items[i].capText.value
                         && chapters[i].url == join(currentUrl, items[i].link.value.href))
  {
    if page.chapterList.None? || page.chapterList.value.items.None? {
      return [];
    }
    var items := page.chapterList.value.items.value;
    var all: seq<Chapter> := [];
    var i := 0;
    while i < |items|
      invariant 0 <= i <= |items|
      invariant |all| == i
      invariant forall j :: 0 <= j < i ==> Complete(items[j])
      invariant forall j :: 0 <= j < i ==>
                  all[j] == Chapter(items[j].capText.value, join(currentUrl, items[j].link.value.href), [], 0)
    {
      var item := items[i];
      if item.link.None? {
        return [];
      }
      var chapterUrl := join(currentUrl, item.link.value.href);
      if item.capText.None? {
        return [];
      }
      all := all + [Chapter(item.capText.value, chapterUrl, [], 0)];
      i := i + 1;
    }
    chapters := all;
  }
}
