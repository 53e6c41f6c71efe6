/**
 * bookmarks_list_to_json (main.py:41-59): one JSON object per bookmark, in list order,
 * with the keys "name", "frequency" (an integer) and "modulation" in that order, the
 * list dumped with indent=4.
 */
module Serializer {
  import opened Wrappers
  import opened Json
  import opened Bookmarks

  const NameKey := "name"
  const FrequencyKey := "frequency"
  const ModulationKey := "modulation"

  /** The dictionary built for one bookmark (main.py:53-57). */
  function BookmarkObject(b: Bookmark): (j: Json)
    ensures ReadBookmark(j) == Some(b)
  {
    JObject([(NameKey, JString(b.name)), (FrequencyKey, JInt(b.frequency)), (ModulationKey, JString(b.modulation))])
  }

  /** The list of dictionaries for a list of bookmarks, one per bookmark, in order. */
  function Document(bookmarks: seq<Bookmark>): (j: Json)
    ensures ReadDocument(j) == Some(bookmarks)
  {
    ReadBookmarksObjects(bookmarks);
    JArray(seq(|bookmarks|, i requires 0 <= i < |bookmarks| => BookmarkObject(bookmarks[i])))
  }

  /** The JSON text of a list of bookmarks. */
  method BookmarksListToJson(bookmarksList: seq<Bookmark>) returns (text: string)
    ensures text == Dumps(Document(bookmarksList))
  {
    var bookmarksJson: seq<Json> := [];
    for i := 0 to |bookmarksList|
      invariant |bookmarksJson| == i
      invariant forall k :: 0 <= k < i ==> bookmarksJson[k] == BookmarkObject(bookmarksList[k])
    {
      var bookmark := bookmarksList[i];
      var bookmarkJson := JObject([(NameKey, JString(bookmark.name)),
                                   (FrequencyKey, JInt(bookmark.frequency)),
                                   (ModulationKey, JString(bookmark.modulation))]);
      bookmarksJson := bookmarksJson + [bookmarkJson];
    }
    assert JArray(bookmarksJson) == Document(bookmarksList);
    text := Dumps(JArray(bookmarksJson));
  }

  // ---------------------------------------------------------------------------
  // Reading a document back, the inverse of Document
  // ---------------------------------------------------------------------------

  /** The bookmark an object stands for, if it has exactly the three keys in order, with a string, an integer and a string. */
  function ReadBookmark(j: Json): (r: Option<Bookmark>)
  {
    match j
    case JObject(members) =>
      if |members| == 3
         && members[0].0 == NameKey && members[0].1.JString?
         && members[1].0 == FrequencyKey && members[1].1.JInt?
         && members[2].0 == ModulationKey && members[2].1.JString?
      then Some(Bookmark(members[0].1.s, members[1].1.n, members[2].1.s))
      else None
    case _ => None
  }

  function ReadBookmarks(items: seq<Json>): (r: Option<seq<Bookmark>>)
  {
    if items == [] then Some([])
    else
      match (ReadBookmark(items[0]), ReadBookmarks(items[1..]))
      case (Some(b), Some(rest)) => Some([b] + rest)
      case _ => None
  }

  /** The bookmarks a document stands for, if it is an array of bookmark objects. */
  function ReadDocument(j: Json): (r: Option<seq<Bookmark>>)
  {
    match j
    case JArray(items) => ReadBookmarks(items)
    case _ => None
  }

  lemma {:induction false} ReadBookmarksObjects(bookmarks: seq<Bookmark>)
    ensures ReadBookmarks(seq(|bookmarks|, i requires 0 <= i < |bookmarks| => BookmarkObject(bookmarks[i]))) == Some(bookmarks)
  {
    var items := seq(|bookmarks|, i requires 0 <= i < |bookmarks| => BookmarkObject(bookmarks[i]));
    if bookmarks != [] {
      var tail := bookmarks[1..];
      assert items[1..] == seq(|tail|, i requires 0 <= i < |tail| => BookmarkObject(tail[i]));
      ReadBookmarksObjects(tail);
      assert [bookmarks[0]] + tail == bookmarks;
    }
  }

  lemma {:induction false} ReadBookmarksOnlyObjects(items: seq<Json>, bookmarks: seq<Bookmark>)
    requires ReadBookmarks(items) == Some(bookmarks)
    ensures items == seq(|bookmarks|, i requires 0 <= i < |bookmarks| => BookmarkObject(bookmarks[i]))
  {
    if items != [] {
      var rest := ReadBookmarks(items[1..]).value;
      ReadBookmarksOnlyObjects(items[1..], rest);
      assert bookmarks == [ReadBookmark(items[0]).value] + rest;
      var members := items[0].members;
      assert members == [members[0], members[1], members[2]];
    }
  }

  /** Only documents of that shape are read: what is read is exactly what Document writes. */
  lemma ReadDocumentOnlyDocuments(j: Json, bookmarks: seq<Bookmark>)
    requires ReadDocument(j) == Some(bookmarks)
    ensures j == Document(bookmarks)
  {
    ReadBookmarksOnlyObjects(j.items, bookmarks);
  }

  /** One object per bookmark, in input order, keys name, frequency, modulation, the frequency an integer. */
  lemma DocumentShape(bookmarks: seq<Bookmark>, i: nat)
    requires i < |bookmarks|
    ensures Document(bookmarks).JArray? && |Document(bookmarks).items| == |bookmarks|
    ensures Document(bookmarks).items[i].JObject?
    ensures var members := Document(bookmarks).items[i].members;
      && |members| == 3
      && members[0] == (NameKey, JString(bookmarks[i].name))
      && members[1] == (FrequencyKey, JInt(bookmarks[i].frequency))
      && members[2] == (ModulationKey, JString(bookmarks[i].modulation))
  {
  }

  /** An empty list is written as "[]". */
  lemma EmptyListText()
    ensures Dumps(Document([])) == "[]"
  {
  }
}
