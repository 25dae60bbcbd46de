/** The single-table queries of the bookmark DAO that select bookmarks by id
    or by canonical verse ordinal. Results are sets of rows: the DAO's
    ordering clauses do not affect which rows come back. */
module OrdinalQueries {
  import opened Results
  import opened Entities
  import RowIds

  /** A bookmark covers a verse when the verse lies in its inclusive range. */
  predicate Covers(b: Bookmark, verseOrdinal: int) {
    b.kjvOrdinalStart <= verseOrdinal <= b.kjvOrdinalEnd
  }

  /** `bookmarkById`: the row with the given id, if any. */
  function BookmarkById(st: Store, bookmarkId: int): (r: Option<Bookmark>)
    requires WellKeyed(st)
    ensures r.Some? <==> exists b :: b in AllBookmarks(st) && b.id == bookmarkId
    ensures r.Some? ==> r.value in AllBookmarks(st) && r.value.id == bookmarkId
  {
    if bookmarkId in st.bookmarks then Some(st.bookmarks[bookmarkId]) else None
  }

  /** `bookmarksByIds`: `WHERE id IN (:bookmarkIds)`. */
  function BookmarksByIds(st: Store, bookmarkIds: seq<int>): (r: set<Bookmark>)
    requires WellKeyed(st)
    ensures forall b :: b in r <==> b in AllBookmarks(st) && b.id in bookmarkIds
  {
    set k | k in st.bookmarks && k in bookmarkIds :: st.bookmarks[k]
  }

  /** Duplicate ids collapse and ids with no row contribute nothing: the
      result depends only on which stored ids the list mentions. */
  lemma BookmarksByIdsDependsOnlyOnStoredIds(st: Store, a: seq<int>, b: seq<int>)
    requires WellKeyed(st)
    requires forall k :: k in st.bookmarks ==> (k in a <==> k in b)
    ensures BookmarksByIds(st, a) == BookmarksByIds(st, b)
  {
  }

  /** One row per distinct stored id that the list names. */
  lemma BookmarksByIdsSize(st: Store, bookmarkIds: seq<int>)
    requires WellKeyed(st)
    ensures |BookmarksByIds(st, bookmarkIds)| == |st.bookmarks.Keys * Listed(bookmarkIds)|
  {
    var keys := st.bookmarks.Keys * Listed(bookmarkIds);
    assert BookmarksByIds(st, bookmarkIds) == set k | k in keys :: st.bookmarks[k];
    InjectiveImageSize(st.bookmarks, keys);
  }

  /** `bookmarksForKjvOrdinal`: the bookmarks whose range covers the verse. */
  function BookmarksForKjvOrdinal(st: Store, verseId: int): (r: set<Bookmark>)
    ensures forall b :: b in r <==> b in AllBookmarks(st) && Covers(b, verseId)
  {
    set k | k in st.bookmarks && st.bookmarks[k].kjvOrdinalStart <= verseId
                               && verseId <= st.bookmarks[k].kjvOrdinalEnd :: st.bookmarks[k]
  }

  /** `bookmarksForKjvOrdinalStart`: the bookmarks starting exactly at the verse. */
  function BookmarksForKjvOrdinalStart(st: Store, start: int): (r: set<Bookmark>)
    ensures forall b :: b in r <==> b in AllBookmarks(st) && b.kjvOrdinalStart == start
  {
    set k | k in st.bookmarks && st.bookmarks[k].kjvOrdinalStart == start :: st.bookmarks[k]
  }

  /** A bookmark starting at a verse covers that verse, as long as its range
      is not reversed. */
  lemma StartingBookmarksCoverTheirStart(st: Store, start: int)
    requires RangesOrdered(st)
    ensures BookmarksForKjvOrdinalStart(st, start) <= BookmarksForKjvOrdinal(st, start)
  {
  }

  /** `hasBookmarksForVerse(Int)`: `count(*) > 0` over the rows that cover
      the verse, computed by a scan that stops at the first match. */
  method HasBookmarksForVerse(st: Store, verseOrdinal: int) returns (found: bool)
    ensures found <==> BookmarksForKjvOrdinal(st, verseOrdinal) != {}
  {
    var rest := st.bookmarks.Keys;
    found := false;
    while rest != {} && !found
      invariant rest <= st.bookmarks.Keys
      invariant found ==> BookmarksForKjvOrdinal(st, verseOrdinal) != {}
      invariant !found ==> forall k :: k in st.bookmarks.Keys - rest ==> !Covers(st.bookmarks[k], verseOrdinal)
      decreases rest
    {
      // The picked key is only a witness: it shows the solver that the
      // non-empty set `rest` has an element to choose.
      ghost var someKey := RowIds.PickOne(rest);
      var k :| k in rest;
      if Covers(st.bookmarks[k], verseOrdinal) {
        assert st.bookmarks[k] in BookmarksForKjvOrdinal(st, verseOrdinal);
        found := true;
      }
      rest := rest - {k};
    }
    if !found {
      RowIds.NoElementsMeansEmpty(BookmarksForKjvOrdinal(st, verseOrdinal));
    }
  }
}
