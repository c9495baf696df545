/** The records the scrapers produce and the store keeps (manga_model.py). */
module MangaModel {

  /**
   * A chapter entry: the label shown for it, its absolute url, the page-image
   * urls collected for it and its page count. `_get_manga_list_chapters`
   * creates it with no pages and a count of 0.
   */
  datatype Chapter = Chapter(numberOfChapter: string, url: string, pages: seq<string>, numberOfPages: int)

  /** The fields of `MangaModel`, in the order its constructor takes them. */
  datatype Manga = Manga(
    title: string,
    alternativeTitles: seq<string>,
    url: string,
    status: string,
    author: string,
    categories: seq<string>,
    description: string,
    chapters: map<string, seq<string>>)
}
