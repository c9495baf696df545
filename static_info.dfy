/**
 * The extractor of scraper_mangas_infos.py, which parses the page fetched
 * over plain HTTP. Nothing is caught: a missing container makes the lookup
 * on `None` raise, so it is a failure rather than an empty value.
 */
module StaticInfo {
  import opened Wrappers
  import opened Text
  import opened Dom
  import BrowserInfo

  /** The status of a manga without the completed marker, capitalised here. */
  const Ongoing: string := "Em lançamento"

  /** `_get_manga_cover`: the `src` of `img.cover`; a missing `div#series-data` or image fails. */
  function GetMangaCover(page: Page): (r: Result<Option<string>>)
    ensures r.Ok? <==> page.seriesData.Some? && page.seriesData.value.cover.Some?
    ensures r.Ok? ==> r.value == page.seriesData.value.cover.value.src
    ensures r.Fail? ==> r.fault == AttributeError
  {
    match page.seriesData
    case None => Fail(AttributeError)
    case Some(data) =>
      match data.cover
      case None => Fail(AttributeError)
      case Some(img) => Ok(img.src)
  }

  /**
   * `_get_manga_status`: the marker's text as it is, "Em lançamento" without
   * a marker; a missing `div#series-data` fails.
   */
  function GetMangaStatus(page: Page): (r: Result<string>)
    ensures page.seriesData.None? ==> r == Fail(AttributeError)
    ensures page.seriesData.Some? && page.seriesData.value.completeMarker.None? ==> r == Ok(Ongoing)
    ensures page.seriesData.Some? && page.seriesData.value.completeMarker.Some? ==>
              r == Ok(page.seriesData.value.completeMarker.value)
  {
    match page.seriesData
    case None => Fail(AttributeError)
    case Some(data) =>
      match data.completeMarker
      case None => Ok(Ongoing)
      case Some(text) => Ok(text)
  }

  /** The author the loop settles on: the last qualifying text node, stripped only, or `""`. */
  function AuthorOf(children: seq<Child>): string {
    var k := LastQualifyingIndex(children);
    if k < 0 then "" else Strip(children[k].text)
  }

  /** One more child either replaces the author, when it qualifies, or leaves it. */
  lemma AuthorOfSnoc(children: seq<Child>, c: Child)
    ensures AuthorOf(children + [c]) == if Qualifies(c) then Strip(c.text) else AuthorOf(children)
  {
    assert (children + [c])[..|children|] == children;
  }

  /**
   * `_get_manga_author`: a missing `div#series-data` fails with
   * `AttributeError`, a missing `span.series-author` with `TypeError`;
   * otherwise the author the loop over its children settles on.
   */
  method GetMangaAuthor(page: Page) returns (r: Result<string>)
    ensures page.seriesData.None? ==> r == Fail(AttributeError)
    ensures page.seriesData.Some? && page.seriesData.value.author.None? ==> r == Fail(TypeError)
    ensures page.seriesData.Some? && page.seriesData.value.author.Some? ==>
              r == Ok(AuthorOf(page.seriesData.value.author.value))
  {
    if page.seriesData.None? {
      return Fail(AttributeError);
    }
    var span := page.seriesData.value.author;
    if span.None? {
      return Fail(TypeError);
    }
    var author := LoopAuthor(span.value);
    return Ok(author);
  }

  /**
   * The loop of `_get_manga_author`: every qualifying direct text child
   * overwrites the author with its stripped text, so the last one wins.
   */
  method LoopAuthor(children: seq<Child>) returns (author: string)
    ensures author == AuthorOf(children)
  {
    author := "";
    var i := 0;
    while i < |children|
      invariant 0 <= i <= |children|
      invariant author == AuthorOf(children[..i])
    {
      AuthorOfSnoc(children[..i], children[i]);
      assert children[..i + 1] == children[..i] + [children[i]];
      var tag := children[i];
      if tag.TextNode? && !IsBlank(tag.text) {
        author := Strip(tag.text);
      }
      i := i + 1;
    }
    assert children[..i] == children;
  }

  /**
   * The author has no whitespace at either end, is `""` exactly when no
   * child qualifies, and otherwise is the stripped text of the last
   * qualifying child.
   */
  lemma AuthorShape(children: seq<Child>)
    ensures Strip(AuthorOf(children)) == AuthorOf(children)
    ensures AuthorOf(children) == "" <==> forall i :: 0 <= i < |children| ==> !Qualifies(children[i])
  {
    StripTrimmed(AuthorOf(children));
  }

  /** A lone qualifying child is the author, stripped. */
  lemma AuthorOfSingle(c: Child)
    requires Qualifies(c)
    ensures AuthorOf([c]) == Strip(c.text)
  {
    assert LastQualifyingIndex([c]) == 0;
  }

  /**
   * The author is one contiguous piece of the last qualifying text, where
   * its leading whitespace ends: inner runs of spaces are kept, unlike in
   * the browser extractor.
   */
  lemma AuthorIsSlice(children: seq<Child>, text: string, left: string, author: string)
    requires LastQualifyingIndex(children) >= 0
    requires text == children[LastQualifyingIndex(children)].text
    requires left == StripLeft(text) && author == AuthorOf(children)
    ensures |text| - |left| + |author| <= |text|
    ensures author == text[|text| - |left|..|text| - |left| + |author|]
  {
    StripSlice(text, left, author);
  }

  /** The browser extractor's author is this extractor's author with runs of spaces collapsed. */
  lemma BrowserAuthorCollapses(children: seq<Child>)
    ensures BrowserInfo.AuthorOf(children) == CollapseSpaces(AuthorOf(children))
  {
  }

  /**
   * `_get_manga_categories`: the non-blank space-free lines of
   * `div.carousel`'s text; a missing `div#series-data` or carousel fails.
   */
  function GetMangaCategories(page: Page): (r: Result<seq<string>>)
    ensures r.Ok? <==> page.seriesData.Some? && page.seriesData.value.carousel.Some?
    ensures r.Ok? ==> r.value == SplitCategories(page.seriesData.value.carousel.value)
    ensures r.Fail? ==> r.fault == AttributeError
  {
    match page.seriesData
    case None => Fail(AttributeError)
    case Some(data) =>
      match data.carousel
      case None => Fail(AttributeError)
      case Some(text) => Ok(SplitCategories(text))
  }

  /** `_get_manga_description`: the inner `span`'s text; any node missing on the way fails. */
  function GetMangaDescription(page: Page): (r: Result<string>)
    ensures r.Ok? <==> && page.seriesData.Some?
                       && page.seriesData.value.description.Some?
                       && page.seriesData.value.description.value.inner.Some?
    ensures r.Ok? ==> r.value == page.seriesData.value.description.value.inner.value
    ensures r.Fail? ==> r.fault == AttributeError
  {
    match page.seriesData
    case None => Fail(AttributeError)
    case Some(data) =>
      match data.description
      case None => Fail(AttributeError)
      case Some(span) =>
        match span.inner
        case None => Fail(AttributeError)
        case Some(text) => Ok(text)
  }

  /** `_get_manga_alternative_titles`: one text per `li`, in order; a missing list fails. */
  function GetMangaAlternativeTitles(page: Page): (r: Result<seq<string>>)
    ensures r.Ok? <==> page.seriesData.Some? && page.seriesData.value.synonyms.Some?
    ensures r.Ok? ==> r.value == page.seriesData.value.synonyms.value
    ensures r.Fail? ==> r.fault == AttributeError
  {
    match page.seriesData
    case None => Fail(AttributeError)
    case Some(data) =>
      match data.synonyms
      case None => Fail(AttributeError)
      case Some(items) => Ok(items)
  }

  /** Where this extractor returns a status, the browser one returns it lowercased. */
  lemma StatusAgreesUpToCase(page: Page)
    requires GetMangaStatus(page).Ok?
    ensures BrowserInfo.GetMangaStatus(page) == Lower(GetMangaStatus(page).value)
  {
    if page.seriesData.value.completeMarker.None? {
      assert |Ongoing| == |BrowserInfo.Ongoing|;
      forall i | 0 <= i < |Ongoing| ensures LowerChar(Ongoing[i]) == BrowserInfo.Ongoing[i] {
      }
      assert Lower(Ongoing) == BrowserInfo.Ongoing;
    }
  }

  /**
   * Where this extractor succeeds, the browser one gives the same value;
   * where the container is missing, the browser one falls back to its default.
   */
  lemma ListsAgreeOrDefault(page: Page)
    ensures GetMangaCategories(page).Ok? ==> BrowserInfo.GetMangaCategories(page) == GetMangaCategories(page).value
    ensures GetMangaCategories(page).Fail? ==> BrowserInfo.GetMangaCategories(page) == []
    ensures GetMangaAlternativeTitles(page).Ok? ==>
              BrowserInfo.GetMangaAlternativeTitles(page) == GetMangaAlternativeTitles(page).value
    ensures GetMangaAlternativeTitles(page).Fail? ==> BrowserInfo.GetMangaAlternativeTitles(page) == []
    ensures GetMangaDescription(page).Ok? ==> BrowserInfo.GetMangaDescription(page) == GetMangaDescription(page).value
    ensures GetMangaDescription(page).Fail? ==> BrowserInfo.GetMangaDescription(page) == ""
  {
  }
}
