/**
 * What the HTML parser finds on a manga page, reduced to the nodes the
 * extractors look up. A lookup that can come back empty (`find` returning
 * `None`, an attribute `get` returning `None`) is an `Option`.
 */
module Dom {
  import opened Wrappers
  import opened Text

  /** A direct child of a tag: a text node (whose `name` is `None`) or a tag. */
  datatype Child = TextNode(text: string) | TagNode(name: string)

  /** `span.series-title`, with the text of the `h1` inside it. */
  datatype TitleSpan = TitleSpan(h1: Option<string>)

  /** `img.cover`, with its `src` attribute. */
  datatype CoverImg = CoverImg(src: Option<string>)

  /** `span.series-desc`, with the text of the `span` inside it. */
  datatype DescSpan = DescSpan(inner: Option<string>)

  /** The lookups made inside `div#series-data`. */
  datatype SeriesData = SeriesData(
    title: Option<TitleSpan>,
    cover: Option<CoverImg>,
    completeMarker: Option<string>,  // the text of `i.complete-series`
    author: Option<seq<Child>>,      // the direct children of `span.series-author`
    carousel: Option<string>,        // the text of `div.carousel`
    description: Option<DescSpan>,
    synonyms: Option<seq<string>>)   // the texts of the `li` of `ol.series-synom`

  /** `a.link-dark` inside a chapter `li`, with its `href` attribute. */
  datatype ChapterLink = ChapterLink(href: Option<string>)

  /** One `li` of the chapter list: the text of its `span.cap-text` and its link. */
  datatype ChapterItem = ChapterItem(capText: Option<string>, link: Option<ChapterLink>)

  /** `div#chapter-list`, with the `li` of the `ul.full-chapters-list` inside it. */
  datatype ChapterListDiv = ChapterListDiv(items: Option<seq<ChapterItem>>)

  /** A parsed manga page. */
  datatype Page = Page(seriesData: Option<SeriesData>, chapterList: Option<ChapterListDiv>)

  /**
   * `_get_manga_title`, the same in both extractors: the text of the `h1`
   * inside `span.series-title` inside `div#series-data`. There is no
   * fallback: any of the three missing raises `AttributeError`.
   */
  function GetMangaTitle(page: Page): (r: Result<string>)
    ensures r.Ok? <==> && page.seriesData.Some?
                       && page.seriesData.value.title.Some?
                       && page.seriesData.value.title.value.h1.Some?
    ensures r.Ok? ==> r.value == page.seriesData.value.title.value.h1.value
    ensures r.Fail? ==> r.fault == AttributeError
  {
    match page.seriesData
    case None => Fail(AttributeError)
    case Some(data) =>
      match data.title
      case None => Fail(AttributeError)
      case Some(span) =>
        match span.h1
        case None => Fail(AttributeError)
        case Some(text) => Ok(text)
  }

  /** The author loops keep a child when it is a text node that is not blank. */
  predicate Qualifies(c: Child) {
    c.TextNode? && !IsBlank(c.text)
  }

  /** The position of the last qualifying child, or -1 when none qualifies. */
  function LastQualifyingIndex(children: seq<Child>): (k: int)
    ensures -1 <= k < |children|
    ensures k >= 0 ==> Qualifies(children[k])
    ensures forall j :: k < j < |children| ==> !Qualifies(children[j])
  {
    if children == [] then -1
    else if Qualifies(children[|children| - 1]) then |children| - 1
    else
      var prefix := children[..|children| - 1];
      assert forall j :: 0 <= j < |prefix| ==> prefix[j] == children[j];
      LastQualifyingIndex(prefix)
  }

  /** The lines of `text` once every space is removed. */
  function CategoryLines(text: string): seq<string> {
    Split(RemoveChar(text, ' '), '\n')
  }

  /** The lines that are not blank, in their order. */
  function KeepNonBlank(lines: seq<string>): (r: seq<string>)
    ensures forall k :: 0 <= k < |r| ==> !IsBlank(r[k]) && r[k] in lines
    ensures forall k :: 0 <= k < |lines| && !IsBlank(lines[k]) ==> lines[k] in r
    ensures IsSubsequence(r, lines)
  {
    if lines == [] then []
    else
      var rest := KeepNonBlank(lines[1..]);
      assert forall k :: 1 <= k < |lines| ==> lines[k] == lines[1..][k - 1];
      if IsBlank(lines[0]) then rest else [lines[0]] + rest
  }

  /** Each line that is not blank is kept as often as it occurs; blank lines are dropped. */
  lemma {:induction false} KeepNonBlankCount(lines: seq<string>)
    ensures forall x :: multiset(KeepNonBlank(lines))[x] == if IsBlank(x) then 0 else multiset(lines)[x]
  {
    if lines != [] {
      KeepNonBlankCount(lines[1..]);
      assert lines == [lines[0]] + lines[1..];
      FilterCountStep(lines[0], lines[1..], KeepNonBlank(lines[1..]), IsBlank);
    }
  }

  /**
   * One step of a filter that drops what `drop` holds of: if `rest` counts
   * the kept elements of `xs`, then putting `x` in front when it is kept
   * counts the kept elements of `[x] + xs`.
   */
  lemma FilterCountStep<T>(x: T, xs: seq<T>, rest: seq<T>, drop: T -> bool)
    requires forall y :: multiset(rest)[y] == if drop(y) then 0 else multiset(xs)[y]
    ensures forall y :: multiset((if drop(x) then [] else [x]) + rest)[y] ==
                        if drop(y) then 0 else multiset([x] + xs)[y]
  {
    forall y ensures multiset((if drop(x) then [] else [x]) + rest)[y] == if drop(y) then 0 else multiset([x] + xs)[y] {
      assert multiset([x] + xs)[y] == multiset([x])[y] + multiset(xs)[y];
    }
  }

  /**
   * `[c for c in text.replace(" ", "").split("\n") if c.strip() != ""]`:
   * no category holds a space or a line break or is blank, every non-blank
   * line is kept as often as it occurs, in document order, and the lines
   * rejoin to the text without its spaces.
   */
  function SplitCategories(text: string): (r: seq<string>)
    ensures forall k :: 0 <= k < |r| ==> ' ' !in r[k] && '\n' !in r[k] && !IsBlank(r[k])
    ensures forall x :: multiset(r)[x] == if IsBlank(x) then 0 else multiset(CategoryLines(text))[x]
    ensures IsSubsequence(r, CategoryLines(text))
  {
    var lines := CategoryLines(text);
    var r := KeepNonBlank(lines);
    assert forall k :: 0 <= k < |r| ==> ' ' !in r[k] by {
      forall k | 0 <= k < |r| ensures ' ' !in r[k] {
        var m :| 0 <= m < |lines| && lines[m] == r[k];
        SplitKeepsAbsent(RemoveChar(text, ' '), '\n', ' ', m);
      }
    }
    KeepNonBlankCount(lines);
    r
  }

  /** A character missing from the text is missing from every piece of its split. */
  lemma {:induction false} SplitKeepsAbsent(s: string, sep: char, c: char, m: nat)
    requires c !in s
    requires m < |Split(s, sep)|
    ensures c !in Split(s, sep)[m]
  {
    if s != [] {
      var rest := Split(s[1..], sep);
      if s[0] == sep {
        if m > 0 { SplitKeepsAbsent(s[1..], sep, c, m - 1); }
      } else if m == 0 {
        SplitKeepsAbsent(s[1..], sep, c, 0);
      } else {
        SplitKeepsAbsent(s[1..], sep, c, m);
      }
    }
  }

  /** The category lines rejoin to the carousel text with its spaces removed. */
  lemma CategoryLinesRejoin(text: string)
    ensures Join('\n', CategoryLines(text)) == RemoveChar(text, ' ')
  {
    JoinSplitIdentity(RemoveChar(text, ' '), '\n');
  }
}
