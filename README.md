# ml_webscraping in Dafny

ml_webscraping collects manga data from the MangaLivre site
(`https://mangalivre.net`). The model covers its sequential parts:

- **The listing crawler** (`scraper_mangas_links.py`). It builds the urls of a range of index pages. It then concatenates the manga links found on each page, in page order.
- **The JSON store** (`json_database.py`). It merges new titles into the list of known titles: only titles not yet listed are appended, in order. It also saves each manga under a file name derived from its title.
- **Two metadata extractors** that read a manga's page.
  - `scraper_mangas_info.py` reads the page the browser rendered. Most missing elements fall back to a default: `""`, `[]` or "em lançamento".
  - `scraper_mangas_infos.py` parses the page fetched over HTTP and has a single fallback: a missing `i.complete-series` gives the status "Em lançamento". Any other missing element is an uncaught exception.
- **The chapter scraper** (`scraper_mangas_chapters.py`). It drives a browser session through each chapter in the reader. For each chapter it:
  - reads the page count and the chapter number;
  - clicks "next" once per page but the last, keeping each non-empty image `src` it sees;
  - files the pages in a dict keyed by the chapter number.

The modules follow the program:

| module | file | what it holds |
|---|---|---|
| `Wrappers` | `wrappers.dfy` | `Option` for Python's `None`; `Result` for a value or an escaping exception (`AttributeError`, `TypeError`, `ValueError`) |
| `Text` | `text.dfy` | the `str` methods the scrapers call: `strip`, `split`, `join`, `replace`, ASCII `lower`, `in` |
| `Decimal` | `decimal.dfy` | `str(i)` and `int(text)` for integers |
| `MangaModel` | `model.dfy` | the chapter and manga records |
| `Dom` | `dom.dfy` | the parsed manga page, with an `Option` for each lookup that can miss; the title, author-candidate and category rules both extractors share |
| `ListingCrawler` | `listing.dfy` | `_set_range_pages`, `_get_mangas_links` and `get_mangas_links_in_range` |
| `JsonStore` | `store.dfy` | the title-list merge, the slug, and the store as a class over a `seq` and a `map` |
| `BrowserInfo` | `browser_info.dfy` | the extractors of `ScraperMangasInfo` |
| `StaticInfo` | `static_info.dfy` | the extractors of `scraper_mangas_infos.py`, related to the browser ones |
| `Browser` | `session.dfy` | a stand-in for the WebDriver session: what each url shows, the current url, the page on screen and the clicks made |
| `ChapterScraper` | `chapters.dfy` | `ScraperChaptersMangaLivre` as a class over that session, with `get_all_chapters` specified by the function `Walk` |

Loops in the source become methods with `while` loops. Each loop is proved against a specification function, and the properties are proved as lemmas about those functions:

- `get_mangas_links_in_range` against `LinksOf`;
- `update_list_title` against `Merge`;
- both `_get_manga_author` loops against `AuthorOf`;
- `_get_manga_list_chapters` directly;
- `get_pages` against `PagesOf`;
- `get_all_chapters` against `Walk`.

A few places where the code does something other than what its docstrings or comments say. The model follows the code in each case:

- `_set_range_pages` (scraper_mangas_links.py:32) returns `[]` only when some bound is not positive AND `start < end`. `start == end <= 0` still gives one url, and `start > end` gives `[]` only because the range is empty. The docstring says an invalid range gives `[]`. The lemma `SinglePageEvenWhenNotPositive` shows the case.
- In `ScraperMangasInfo._get_manga_author`, a missing `span.series-author` makes `for tag in None` raise `TypeError`. The `except AttributeError` does not catch it, so the extractor fails instead of returning `""`. Only a missing `div#series-data` gives `""`.
- In `ScraperMangasInfo._get_manga_cover`, `.get("src")` is outside the `try`. A missing `img.cover` therefore raises, while a missing `div#series-data` gives `""`.
- `get_number_of_pages` catches only the wait timeout. `int()` on page-count text that is not a number raises `ValueError`, which ends `get_all_chapters` as a whole.
- The slug lowercases the title, so two titles that differ only in case save to the same file (`SlugIgnoresCase`).

## Model

| member | source | states |
|---|---|---|
| ListingCrawler.SetRangePages | scraper_mangas_links.py:20-34 | start > end gives no url. start < end with a bound that is not positive gives no url. Otherwise there are end - start + 1 urls, the i-th being the index url followed by the decimal number start + i |
| ListingCrawler.SinglePageEvenWhenNotPositive | scraper_mangas_links.py:32-34 | start == end yields exactly one url, even for a page number that is not positive, which the docstring calls invalid |
| ListingCrawler.RangePagesNumbered | scraper_mangas_links.py:34 | every generated url starts with the index url, and what follows it reads back with `int()` as its page number |
| ListingCrawler.RangePagesDistinct | scraper_mangas_links.py:34 | no page url is generated twice |
| ListingCrawler.GetMangasLinks | scraper_mangas_links.py:37-52 | a response other than 200 gives no link; a 200 gives one link per `a.link-block`, in order, each resolved against the index url |
| ListingCrawler.LinksOf | scraper_mangas_links.py:71-76 | the links of each page url, concatenated in page order; `LinksOfAppend`, `LinksOfLength` and `PageLinksInPlace` state its properties |
| ListingCrawler.GetMangasLinksInRange | scraper_mangas_links.py:55-76 | the result is the links of each page of the range, concatenated in page order; its length is the sum of the pages' link counts |
| ListingCrawler.LinksOfAppend | scraper_mangas_links.py:73-74 | the links of two runs of pages are the first run's followed by the second's |
| ListingCrawler.LinksOfLength | scraper_mangas_links.py:71-76 | the number of links collected is the sum of the number each page brings |
| ListingCrawler.FailedPageContributesNothing | scraper_mangas_links.py:48-52 | removing a page answered with a status other than 200 does not change the result |
| ListingCrawler.PageLinksInPlace | scraper_mangas_links.py:73-74 | each page's links appear contiguously, in their own order, right after the links of the pages before it |
| JsonStore.AddIfAbsent | json_database.py:64-65 | one loop step: the title is appended iff the list lacks it; `Merge` folds it over the new titles |
| JsonStore.Merge | json_database.py:63-65 | the loop's list after each new title: the title is appended iff the list built so far lacks it. `MergeAppendsNovel` through `MergeIdempotent` state its properties |
| JsonStore.Novel | json_database.py:63-65 | the titles the merge appends are exactly those among the new titles that the old list lacks |
| JsonStore.MergeAppendsNovel | json_database.py:60-66 | the merged list is the old list followed by the new titles it lacked, each once, in order of first appearance |
| JsonStore.MergeKeepsPrefix | json_database.py:60-66 | the old list is a prefix of the merged list |
| JsonStore.MergeMembers | json_database.py:63-65 | a title is in the merged list iff it was in the old list or among the new titles |
| JsonStore.NovelNoDuplicates | json_database.py:63-65 | no title is appended twice, even one repeated in the new titles, because each title is looked up in the growing list |
| JsonStore.MergeNoDuplicates | json_database.py:63-65 | a list without duplicates stays without duplicates |
| JsonStore.MergeOfListed | json_database.py:63-65 | merging titles that are all already listed leaves the list unchanged |
| JsonStore.MergeIdempotent | json_database.py:63-65 | merging the same titles twice gives the same list as merging them once |
| JsonStore.JsonDb.constructor | json_database.py:7-17 | a store opened over a title list holds that list and no manga document yet |
| JsonStore.JsonDb.UpdateListTitle | json_database.py:48-66 | the stored list becomes the merge of the old list with the new titles; no manga document changes |
| JsonStore.Slug | json_database.py:78 | `"-".join(title.lower().split(" ")) + ".json"`; `SlugShape`, `SlugInjective` and `SlugIgnoresCase` state its properties |
| JsonStore.SlugShape | json_database.py:78 | the file name is the title lowercased, with each space replaced by exactly one hyphen, followed by `.json`; it holds no space |
| JsonStore.SlugInjective | json_database.py:78 | among titles with no capital and no hyphen, different titles get different file names |
| JsonStore.SlugIgnoresCase | json_database.py:78 | two titles of the same length that agree at each position up to ASCII case get the same file name |
| JsonStore.DocumentPath | json_database.py:79 | the store directory, a `/` and the slug: the file `save_manga` writes; `SaveManga` and `SaveTwice` are stated over it |
| JsonStore.JsonDb.SaveManga | json_database.py:69-80 | the manga's file, named after its title, now holds the record; every other file is unchanged |
| JsonStore.SaveTwice | json_database.py:78-80 | two saves of the same title leave only the second record in its file and add at most one file |
| Dom.GetMangaTitle | scraper_mangas_info.py:102-113 | the `h1` text inside `span.series-title` inside `div#series-data`; fails with `AttributeError` iff one of the three is missing. The static extractor (scraper_mangas_infos.py:40-45) has the same rule |
| Dom.LastQualifyingIndex | scraper_mangas_info.py:164-165 | the position of the last direct child that is a non-blank text node, or -1 when none is |
| Dom.CategoryLines | scraper_mangas_info.py:195 | `text.replace(" ", "").split("\n")`, the lines both extractors (also scraper_mangas_infos.py:80) take the categories from; `CategoryLinesRejoin` and `SplitCategories` are stated over it |
| Dom.KeepNonBlank | scraper_mangas_info.py:194-197 | every line kept is non-blank and was a line; every non-blank line is kept; the kept lines come in their order |
| Dom.KeepNonBlankCount | scraper_mangas_info.py:194-197 | a non-blank line is kept as many times as it occurs, and a blank one never |
| Dom.SplitCategories | scraper_mangas_info.py:194-197 | no category holds a space or a line break or is blank; each non-blank line of the space-free text is kept as often as it occurs, and the categories come in document order |
| Dom.CategoryLinesRejoin | scraper_mangas_info.py:195 | the lines the categories are taken from rejoin to the carousel text without its spaces |
| BrowserInfo.GetMangaCover | scraper_mangas_info.py:115-129 | `""` without `div#series-data`; a failure when `img.cover` is missing; otherwise its `src`, `None` when the image has none |
| BrowserInfo.GetMangaStatus | scraper_mangas_info.py:131-148 | "em lançamento" when `div#series-data` or the completed marker is missing; otherwise the marker's text lowercased, with no ASCII capital left |
| BrowserInfo.NormalizeAuthor | scraper_mangas_info.py:166-172 | the text of one qualifying node: stripped, split on single spaces, empty pieces dropped, rejoined with one space. `NormalizeAuthorEnds` and `NormalizeAuthorShape` state its properties |
| BrowserInfo.NormalizeAuthorEnds | scraper_mangas_info.py:165-172 | the rewritten text node is empty iff the node is blank, and otherwise has no whitespace at either end |
| BrowserInfo.NormalizeAuthorShape | scraper_mangas_info.py:166-172 | the author is single-spaced, has no whitespace at either end, is empty iff the node is blank, and normalising it again changes nothing |
| BrowserInfo.GetMangaAuthor | scraper_mangas_info.py:150-177 | `""` without `div#series-data`; `TypeError` when `span.series-author` is missing; otherwise the normalised text of the last non-blank direct text child |
| BrowserInfo.AuthorOf | scraper_mangas_info.py:163-172 | the normalised text of the last qualifying child, `""` when none qualifies; `LoopAuthor` and `AuthorEmptyIff` state its properties |
| BrowserInfo.LoopAuthor | scraper_mangas_info.py:163-172 | the loop's final author is the normalised text of the last qualifying child, or `""` |
| BrowserInfo.AuthorEmptyIff | scraper_mangas_info.py:163-172 | the author is `""` iff no direct child is a non-blank text node |
| BrowserInfo.GetMangaCategories | scraper_mangas_info.py:179-202 | `[]` when `div#series-data` or the carousel is missing; otherwise the categories of its text |
| BrowserInfo.GetMangaDescription | scraper_mangas_info.py:204-222 | the inner `span`'s text; `""` when any node on the way is missing |
| BrowserInfo.GetMangaAlternativeTitles | scraper_mangas_info.py:224-242 | one text per `li` of the synonym list, in order; `[]` when the list or `div#series-data` is missing |
| BrowserInfo.GetMangaListChapters | scraper_mangas_info.py:244-280 | `[]` without the list. Otherwise one stub per `li`, in order, with no pages, a count of 0, the label verbatim and the link resolved against the current url. All or nothing: a single `li` without its label or its link makes the result `[]` |
| StaticInfo.GetMangaCover | scraper_mangas_infos.py:48-52 | the `src` of `img.cover`; fails with `AttributeError` iff `div#series-data` or the image is missing |
| StaticInfo.GetMangaStatus | scraper_mangas_infos.py:55-61 | fails without `div#series-data`; "Em lançamento", capitalised, without the marker; otherwise the marker's text verbatim |
| StaticInfo.GetMangaAuthor | scraper_mangas_infos.py:64-72 | `AttributeError` without `div#series-data`; `TypeError` without `span.series-author`; otherwise the stripped text of the last non-blank direct text child |
| StaticInfo.AuthorOf | scraper_mangas_infos.py:68-72 | the stripped text of the last qualifying child, `""` when none qualifies; `LoopAuthor`, `AuthorShape` and `AuthorIsSlice` state its properties |
| StaticInfo.LoopAuthor | scraper_mangas_infos.py:68-72 | the loop's final author is the stripped text of the last qualifying child, or `""` |
| StaticInfo.AuthorShape | scraper_mangas_infos.py:68-72 | the author has no whitespace at either end and is `""` iff no direct child is a non-blank text node |
| StaticInfo.AuthorOfSingle | scraper_mangas_infos.py:69-71 | a lone non-blank text child is the author, stripped |
| StaticInfo.AuthorIsSlice | scraper_mangas_infos.py:68-72 | the author is one contiguous piece of the last qualifying text, starting where its leading whitespace ends, so inner runs of spaces are kept |
| StaticInfo.BrowserAuthorCollapses | scraper_mangas_infos.py:68-72 | the browser extractor's author is this extractor's author with its runs of spaces collapsed |
| StaticInfo.GetMangaCategories | scraper_mangas_infos.py:75-83 | fails iff `div#series-data` or the carousel is missing; otherwise the same categories the browser extractor finds |
| StaticInfo.GetMangaDescription | scraper_mangas_infos.py:86-91 | the inner `span`'s text; fails iff any node on the way is missing |
| StaticInfo.GetMangaAlternativeTitles | scraper_mangas_infos.py:94-100 | one text per `li`, in order; fails iff the list or `div#series-data` is missing |
| StaticInfo.StatusAgreesUpToCase | scraper_mangas_infos.py:55-61 | where the static extractor gives a status, the browser one gives it lowercased, the default included |
| StaticInfo.ListsAgreeOrDefault | scraper_mangas_infos.py:75-100 | where the static extractor finds categories, a description or alternative titles, the browser one finds the same; where the static one fails, the browser one gives its default |
| Browser.SrcAt | scraper_mangas_chapters.py:185-189 | the `src` of a page of the chapter; `""` past the last page |
| Browser.Session.constructor | scraper_mangas_chapters.py:69-75 | a new session shows no url and has made no click |
| Browser.Session.Get | scraper_mangas_chapters.py:92 | navigating shows the url's first page; the clicks made so far are kept |
| Browser.Session.WaitForPageCount | scraper_mangas_chapters.py:117-119 | the page-count text of the url on screen, `None` when the wait times out |
| Browser.Session.WaitForChapterNumber | scraper_mangas_chapters.py:150-155 | the chapter-number text of the url on screen, `None` when the wait times out |
| Browser.Session.ImageSrc | scraper_mangas_chapters.py:185-189 | the `src` of the page on screen; `""` past the last page |
| Browser.Session.ClickNext | scraper_mangas_chapters.py:194-198 | the next page is on screen, one more click has been made, and the url is unchanged |
| ChapterScraper.PageCountOf | scraper_mangas_chapters.py:114-128 | 0 on a timeout; otherwise the text's `int()` value, and a `ValueError` exactly when the text is not an integer |
| ChapterScraper.SeparatorCountFails | scraper_mangas_chapters.py:114-121 | a page count starting with one of U+001C to U+001F raises `ValueError`, which the `except TimeoutException` does not catch |
| ChapterScraper.PageCountReadsBack | scraper_mangas_chapters.py:120 | a page count shown as `str(n)` is read as n |
| ChapterScraper.ChapterNumberOf | scraper_mangas_chapters.py:147-162 | the chapter-number text verbatim; `""` on a timeout |
| ChapterScraper.Clicks | scraper_mangas_chapters.py:183 | `range(n - 1)` runs n - 1 times for n > 1 and never for n <= 1 |
| ChapterScraper.Window | scraper_mangas_chapters.py:183-189 | the i-th source read is the `src` of the page i clicks after the start |
| ChapterScraper.NonEmpty | scraper_mangas_chapters.py:189-191 | the `if page_link:` filter over the sources read; `NonEmptyShape`, `NonEmptyCount` and `NonEmptyInOrder` state its properties |
| ChapterScraper.PagesOf | scraper_mangas_chapters.py:183-191 | the non-empty sources of the pages read from a start page for a number of clicks; `ChapterPagesShape` states its properties |
| ChapterScraper.NonEmptyShape | scraper_mangas_chapters.py:189-191 | the kept links are non-empty; every non-empty link is kept; no more are kept than read, and as many iff none read was empty |
| ChapterScraper.NonEmptyCount | scraper_mangas_chapters.py:189-191 | each non-empty link is kept as many times as it was read, and `""` never |
| ChapterScraper.NonEmptyInOrder | scraper_mangas_chapters.py:189-191 | the kept links come in the order they were read |
| ChapterScraper.ChapterPagesShape | scraper_mangas_chapters.py:164-200 | from page 0 the pages collected are the non-empty `src`s of the first max(n-1, 0) pages, each as often as it was read, in order; one per click iff each of those pages has a `src` |
| ChapterScraper.NoPagesForSmallCount | scraper_mangas_chapters.py:183 | a count of at most 1 makes no click and collects nothing |
| ChapterScraper.LastPageNeverRead | scraper_mangas_chapters.py:183-198 | the page on screen after the final click (page n - 1) is never read: changing its `src` changes nothing |
| ChapterScraper.ReadChapter | scraper_mangas_chapters.py:219-222 | one round on a chapter's reader view: count, number, pages and the clicks made; `ReadChapterShape` states its properties |
| ChapterScraper.ReadChapterShape | scraper_mangas_chapters.py:218-223 | one round fails, with `ValueError`, iff the count text is present and not an integer. Otherwise it files the pages collected for the count just read under the chapter number, with at most one page per click |
| ChapterScraper.Walk | scraper_mangas_chapters.py:216-225 | the loop over the urls: each round's pages filed under its number, stopping at the first failing round; `WalkStep` through `TimedOutFiledUnderEmpty` state its properties |
| ChapterScraper.WalkStep | scraper_mangas_chapters.py:216-223 | a failing first round ends the walk with its fault, on the url's first page; a succeeding one files its pages and goes on from the round's last page |
| ChapterScraper.WalkFailsIff | scraper_mangas_chapters.py:216-225 | the walk fails iff the round of some url fails |
| ChapterScraper.ScrapeFailsIff | scraper_mangas_chapters.py:218-223 | over the stand-in session, where every image and next-button lookup succeeds, `get_all_chapters` fails iff some chapter shows a page count that is not an integer |
| ChapterScraper.Labels | scraper_mangas_chapters.py:223 | the chapter numbers of the rounds that succeed, and no other |
| ChapterScraper.WalkKeys | scraper_mangas_chapters.py:216-225 | a successful walk's keys are exactly the chapter numbers it read |
| ChapterScraper.WalkSize | scraper_mangas_chapters.py:216-225 | a successful walk holds at most one entry per url |
| ChapterScraper.WalkLastWins | scraper_mangas_chapters.py:223 | the entry of a chapter number holds the pages of the last url that showed it |
| ChapterScraper.WalkUntouched | scraper_mangas_chapters.py:223 | an entry whose number no later url shows keeps its pages |
| ChapterScraper.SameNumberOverwrites | scraper_mangas_chapters.py:223 | two chapters with the same number leave one entry, holding the second one's pages |
| ChapterScraper.TimedOutFiledUnderEmpty | scraper_mangas_chapters.py:156-160 | a chapter whose number timed out is filed under `""`, so all such chapters overwrite one another |
| ChapterScraper.ScraperChapters.constructor | scraper_mangas_chapters.py:52-75 | the scraper drives the session it is given |
| ChapterScraper.ScraperChapters.GoToTheChapter | scraper_mangas_chapters.py:77-92 | navigates to the url even when it is not a reader url; the warning is printed iff the url lacks the reader prefix |
| ChapterScraper.ScraperChapters.GetNumberOfPages | scraper_mangas_chapters.py:94-128 | the page count of the chapter on screen, as `PageCountOf` defines it |
| ChapterScraper.ScraperChapters.GetNumberOfChapter | scraper_mangas_chapters.py:130-162 | the chapter number of the chapter on screen, as `ChapterNumberOf` defines it |
| ChapterScraper.ScraperChapters.GetPages | scraper_mangas_chapters.py:164-200 | exactly max(n-1, 0) clicks, the url unchanged. The result is the non-empty `src`s of the pages read, starting from the page on screen, in order |
| ChapterScraper.ScraperChapters.VisitChapter | scraper_mangas_chapters.py:219-222 | one loop round: navigate, count, number, pages. The session ends on the chapter's url after the round's clicks, or at its first page when the count fails |
| ChapterScraper.ScraperChapters.GetAllChapters | scraper_mangas_chapters.py:202-225 | the dict and the final session are those of the walk over the urls in order: a later chapter with the same number overwrites, and a count that is not an integer ends everything |
| Text.Strip | scraper_mangas_info.py:165-166 | no whitespace is left at either end, and the result is empty iff the text is blank |
| Text.StripSlice | scraper_mangas_infos.py:71 | the strip is the contiguous piece of the text that starts where the leading whitespace ends |
| Text.StripTrimmed | scraper_mangas_infos.py:71 | text with no whitespace at either end strips to itself |
| Text.Split | scraper_mangas_info.py:167 | always at least one piece and no piece holds the separator |
| Text.Join | scraper_mangas_info.py:172 | `sep.join(parts)`; `JoinSplitIdentity`, `JoinSingleSpaced` and `JoinLast` state its properties |
| Text.JoinSplitIdentity | scraper_mangas_info.py:195 | joining the split pieces with the same character gives back the text |
| Text.Replace | scraper_mangas_info.py:195 | same length; each occurrence of the replaced character becomes the new one and every other character is kept |
| Text.RemoveChar | scraper_mangas_info.py:195 | `replace(c, "")`: the character is gone, every other character is kept as often as it occurs, and the order is kept |
| Text.DropEmpty | scraper_mangas_info.py:168-171 | every piece kept is non-empty and was a piece |
| Text.DropEmptyCount | scraper_mangas_info.py:168-171 | each non-empty piece is kept as many times as it occurs, and the empty piece never |
| Text.DropEmptyInOrder | scraper_mangas_info.py:168-171 | the kept pieces come in their order |
| Text.CollapseSpaces | scraper_mangas_info.py:167-172 | `" ".join(p for p in s.split(" ") if p != "")`; `CollapseSingleSpaced`, `CollapseSingleSpacedFixed` and `CollapseKeepsEnds` state its properties |
| Text.CollapseSingleSpaced | scraper_mangas_info.py:167-172 | split on spaces, dropping empties and joining with one space gives a single-spaced text |
| Text.CollapseSingleSpacedFixed | scraper_mangas_info.py:167-172 | a single-spaced text is unchanged by it |
| Text.CollapseKeepsEnds | scraper_mangas_info.py:166-172 | it keeps the first and last characters when neither is a space |
| Text.Lower | scraper_mangas_info.py:143 | same length; each ASCII capital becomes its small letter and everything else is kept |
| Text.Contains | scraper_mangas_chapters.py:89 | `sub in s` holds iff `sub` occurs at some position of `s` |
| Decimal.IntToDecimal | scraper_mangas_links.py:34 | `str(i)`: a minus sign iff i is negative, then digits only |
| Decimal.ParseInt | scraper_mangas_chapters.py:120 | `int(text)`: an optional sign and ASCII digits, with the whitespace `int()` skips around them (`str.isspace()`'s, except U+001C to U+001F), `None` otherwise; `IntRoundTrip` and `SeparatorNotSkipped` state its properties |
| Decimal.SeparatorNotSkipped | scraper_mangas_chapters.py:120 | text starting with one of U+001C to U+001F is not an integer for `int()`, although `strip()` would remove that character |
| Decimal.IntRoundTrip | scraper_mangas_chapters.py:120 | `int(str(i)) == i` for every integer |
| Decimal.IntToDecimalInjective | scraper_mangas_links.py:34 | different integers have different decimal texts |

## Left out

- Selenium is not modelled: launching Firefox, `WebDriverWait` polling, locating elements by CSS selector and dispatching clicks. The session in `Browser` stands in for it. A url's reader view is fixed for the walk. A wait timeout is a `None` in that view.
- `_wait_for_list_load` and `_go_to_the_manga` (scraper_mangas_info.py:34-68) are left out. The scrolling loop ends only when the remotely reported page height stops changing, which the page decides.
- `get_manga_info` in both extractors is left out. It is glue that calls the extractors; in `ScraperMangasInfo` it passes a `cover=` argument that `MangaModel` does not accept.
- HTTP via `requests.get` and HTML parsing by BeautifulSoup are inputs, not modelled internals. A listing page is a `Response`, whose status and `href`s come from a `fetch` parameter; a manga page is a `Dom.Page`.
- `urljoin` is a `join` parameter, not modelled.
- File and JSON work in `json_database.py` is left out: `os.makedirs`, `open`, `dumps` and `loads`, and with them `create_db_dir` and `save_list_titles`. The list file is a `seq` field and the manga files are a `map` from path to record.
- `manga.to_json()` (json_database.py:80) is not modelled, because `MangaModel` has no such method. `SaveManga` stores the record itself.
- `time.sleep` is left out; it does not change any result.
- `close_browser` in both scraper classes is left out; it only ends the process.
- `print` calls are not modelled. The warning of `go_to_the_chapter` is the returned flag `warned`; the other prints only accompany a returned default.
- `manga_model.py` is a record with no behaviour of its own and becomes `MangaModel`.
- `app.py` is left out; it is an ad-hoc driver script.
- Text.Lower: covers ASCII letters only. Python's `str.lower` also changes accented and other non-ASCII capitals, and those are left as they are here.
- ChapterScraper.PageCountOf: `int()` is modelled as an optional sign and ASCII digits, with the whitespace `int()` skips around them (that of `str.isspace()` except U+001C to U+001F). The underscores between digits and the non-ASCII decimal digits that Python also accepts are read as a `ValueError`.
- ChapterScraper.ScraperChapters.GetPages: the image and next-button lookups (scraper_mangas_chapters.py:185, 194) are taken to succeed. The `NoSuchElementException` they raise when the element is missing is not modelled, so `ScrapeFailsIff` holds only over the stand-in session.
- Browser.Session.ImageSrc: past the chapter's last page the image is read as having no `src` (`""`). A real reader might raise there instead; the scraper never reads past page n - 2 when n is the count the reader shows.
