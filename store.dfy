/**
 * The JSON store (json_database.py): the list of known titles and one
 * document per manga, kept in memory. The list file's content is a `seq`,
 * the documents are a `map` from file path to the saved record.
 */
module JsonStore {
  import opened Text
  import opened MangaModel

  /** Directory of the manga documents. */
  const DbDir: string := "json_db"

  /** One loop step of `update_list_title`: `append` when `title not in` the list. */
  function AddIfAbsent(list: seq<string>, title: string): seq<string> {
    if title in list then list else list + [title]
  }

  /** The list `update_list_title` leaves: each new title tried in turn against the growing list. */
  function Merge(list: seq<string>, titles: seq<string>): seq<string>
    decreases |titles|
  {
    if titles == [] then list else Merge(AddIfAbsent(list, titles[0]), titles[1..])
  }

  /**
   * Reference for what the merge appends: the titles that are neither in the
   * old list nor earlier in `titles`, in the order they first appear.
   */
  function Novel(list: seq<string>, titles: seq<string>): (r: seq<string>)
    ensures forall t :: t in r <==> t in titles && t !in list
  {
    if titles == [] then []
    else
      var init := titles[..|titles| - 1];
      var t := titles[|titles| - 1];
      assert titles == init + [t];
      Novel(list, init) + (if t !in list && t !in init then [t] else [])
  }

  predicate NoDuplicates(s: seq<string>) {
    forall i, j :: 0 <= i < j < |s| ==> s[i] != s[j]
  }

  /** Trying one more title at the end is one more loop step. */
  lemma {:induction false} MergeSnoc(list: seq<string>, titles: seq<string>, t: string)
    ensures Merge(list, titles + [t]) == AddIfAbsent(Merge(list, titles), t)
    decreases |titles|
  {
    if titles != [] {
      assert (titles + [t])[1..] == titles[1..] + [t];
      MergeSnoc(AddIfAbsent(list, titles[0]), titles[1..], t);
    } else {
      assert (titles + [t])[1..] == [];
    }
  }

  /** The merge keeps the old list and appends exactly the novel titles. */
  lemma {:induction false} MergeAppendsNovel(list: seq<string>, titles: seq<string>)
    ensures Merge(list, titles) == list + Novel(list, titles)
    decreases |titles|
  {
    if titles != [] {
      var init := titles[..|titles| - 1];
      var t := titles[|titles| - 1];
      assert titles == init + [t];
      MergeAppendsNovel(list, init);
      MergeSnoc(list, init, t);
      assert t in list + Novel(list, init) <==> t in list || t in init;
    }
  }

  /** The old list is a prefix of the new one. */
  lemma MergeKeepsPrefix(list: seq<string>, titles: seq<string>)
    ensures list <= Merge(list, titles)
  {
    MergeAppendsNovel(list, titles);
  }

  /** A title ends up in the list exactly when it was in the old list or among the new titles. */
  lemma MergeMembers(list: seq<string>, titles: seq<string>)
    ensures forall t :: t in Merge(list, titles) <==> t in list || t in titles
  {
    MergeAppendsNovel(list, titles);
  }

  /** No title is appended twice, even one repeated in the new titles. */
  lemma {:induction false} NovelNoDuplicates(list: seq<string>, titles: seq<string>)
    ensures NoDuplicates(Novel(list, titles))
    decreases |titles|
  {
    if titles != [] {
      var init := titles[..|titles| - 1];
      NovelNoDuplicates(list, init);
    }
  }

  /** A list without duplicates stays without duplicates. */
  lemma MergeNoDuplicates(list: seq<string>, titles: seq<string>)
    requires NoDuplicates(list)
    ensures NoDuplicates(Merge(list, titles))
  {
    MergeAppendsNovel(list, titles);
    NovelNoDuplicates(list, titles);
    var n := Novel(list, titles);
    var r := list + n;
    forall i, j | 0 <= i < j < |r| ensures r[i] != r[j] {
      if j >= |list| && i < |list| {
        assert r[j] == n[j - |list|] && r[j] in n;
      } else if i >= |list| {
        assert r[j] == n[j - |list|] && r[i] == n[i - |list|];
      }
    }
  }

  /** Merging titles that are all already listed changes nothing. */
  lemma MergeOfListed(list: seq<string>, titles: seq<string>)
    requires forall t :: t in titles ==> t in list
    ensures Merge(list, titles) == list
  {
    MergeAppendsNovel(list, titles);
  }

  /** Merging the same titles a second time changes nothing. */
  lemma MergeIdempotent(list: seq<string>, titles: seq<string>)
    ensures Merge(Merge(list, titles), titles) == Merge(list, titles)
  {
    MergeMembers(list, titles);
    MergeOfListed(Merge(list, titles), titles);
  }

  /** `"-".join(title.lower().split(" ")) + ".json"`, the file name of a manga's document. */
  function Slug(title: string): string {
    Join('-', Split(Lower(title), ' ')) + ".json"
  }

  /**
   * The slug is the lowercased title with each space replaced by exactly one
   * hyphen, followed by `.json`; it holds no space.
   */
  lemma {:induction false} SlugShape(title: string)
    ensures |Slug(title)| == |title| + 5
    ensures Slug(title)[|title|..] == ".json"
    ensures forall i :: 0 <= i < |title| ==>
              Slug(title)[i] == if title[i] == ' ' then '-' else LowerChar(title[i])
    ensures ' ' !in Slug(title)
  {
    var low := Lower(title);
    JoinSplit(low, ' ', '-');
    var body := Replace(low, ' ', '-');
    assert Slug(title) == body + ".json";
    forall i | 0 <= i < |title| ensures body[i] == if title[i] == ' ' then '-' else LowerChar(title[i]) {
      assert low[i] == LowerChar(title[i]);
    }
  }

  /** A title with no capital letter and no hyphen is the only one with its slug among such titles. */
  lemma SlugInjective(a: string, b: string)
    requires forall i :: 0 <= i < |a| ==> a[i] != '-' && !('A' <= a[i] <= 'Z')
    requires forall i :: 0 <= i < |b| ==> b[i] != '-' && !('A' <= b[i] <= 'Z')
    requires Slug(a) == Slug(b)
    ensures a == b
  {
    SlugShape(a);
    SlugShape(b);
    forall i | 0 <= i < |a| ensures a[i] == b[i] {
      assert Slug(a)[i] == Slug(b)[i];
    }
  }

  /** Titles that differ only in case share one file: saving one overwrites the other. */
  lemma SlugIgnoresCase(a: string, b: string)
    requires |a| == |b| && forall i :: 0 <= i < |a| ==> LowerChar(a[i]) == LowerChar(b[i])
    ensures Slug(a) == Slug(b)
  {
    assert Lower(a) == Lower(b);
  }

  /** The path `save_manga` opens for a manga. */
  function DocumentPath(title: string): string {
    DbDir + "/" + Slug(title)
  }

  /** The files of the store: the list of titles and the manga documents. */
  class JsonDb {
    var listTitles: seq<string>
    var documents: map<string, Manga>

    constructor (listTitles: seq<string>)
      ensures this.listTitles == listTitles && documents == map[]
    {
      this.listTitles := listTitles;
      documents := map[];
    }

    /** `update_list_title`: appends every new title not yet listed, in order. */
    method UpdateListTitle(newListTitles: seq<string>)
      modifies this
      ensures listTitles == Merge(old(listTitles), newListTitles)
      ensures documents == old(documents)
    {
      var outdated := listTitles;
      var i := 0;
      while i < |newListTitles|
        invariant 0 <= i <= |newListTitles|
        invariant Merge(outdated, newListTitles[i..]) == Merge(listTitles, newListTitles)
      {
        var title := newListTitles[i];
        assert newListTitles[i..][1..] == newListTitles[i + 1..];
        if title !in outdated {
          outdated := outdated + [title];
        }
        i := i + 1;
      }
      listTitles := outdated;
    }

    /** `save_manga`: writes the record to its slug's file, replacing what was there. */
    method SaveManga(manga: Manga)
      modifies this
      ensures documents == old(documents)[DocumentPath(manga.title) := manga]
      ensures listTitles == old(listTitles)
    {
      documents := documents[DocumentPath(manga.title) := manga];
    }
  }

  /** Two saves under the same title leave only the second record, and no other file changes. */
  method SaveTwice(db: JsonDb, first: Manga, second: Manga)
    requires first.title == second.title
    modifies db
    ensures db.documents == old(db.documents)[DocumentPath(second.title) := second]
    ensures |db.documents| <= |old(db.documents)| + 1
  {
    db.SaveManga(first);
    db.SaveManga(second);
  }
}
