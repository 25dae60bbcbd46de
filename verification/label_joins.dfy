/** The DAO queries that join bookmarks and labels through the association
    table, and the relations between them. */
module LabelJoins {
  import opened Entities
  import opened OrdinalQueries
  import RowIds

  /** `bookmarksWithLabel(Long, String)`: Bookmark joined to BookmarkToLabel
      on the bookmark id and to Label on the label id, for one label id. */
  function BookmarksWithLabel(st: Store, labelId: int): (r: set<Bookmark>)
    requires WellKeyed(st)
    ensures forall b :: b in r <==>
              b in AllBookmarks(st) && BookmarkToLabel(b.id, labelId) in st.links && labelId in st.labels
  {
    set k | k in st.bookmarks && BookmarkToLabel(k, labelId) in st.links && labelId in st.labels
      :: st.bookmarks[k]
  }

  /** `labelsForBookmark`: Label joined to BookmarkToLabel on the label id and
      to Bookmark on the bookmark id, for one bookmark id. */
  function LabelsForBookmark(st: Store, bookmarkId: int): (r: set<Label>)
    requires WellKeyed(st)
    ensures forall l :: l in r <==>
              l in AllLabels(st) && BookmarkToLabel(bookmarkId, l.id) in st.links && bookmarkId in st.bookmarks
  {
    set k | k in st.labels && BookmarkToLabel(bookmarkId, k) in st.links && bookmarkId in st.bookmarks
      :: st.labels[k]
  }

  /** `unlabelledBookmarks`: the bookmarks with no association row at all
      (`NOT EXISTS` against BookmarkToLabel; the Label table is not consulted). */
  function UnlabelledBookmarks(st: Store): (r: set<Bookmark>)
    requires WellKeyed(st)
    ensures forall b :: b in r <==>
              b in AllBookmarks(st) && forall p :: p in st.links ==> p.bookmarkId != b.id
  {
    set k | k in st.bookmarks && (forall p :: p in st.links ==> p.bookmarkId != k) :: st.bookmarks[k]
  }

  /** `bookmarksForVerseStartWithLabel(Long, Int)`: the same join as
      `bookmarksWithLabel`, further restricted to one start ordinal. */
  function BookmarksForVerseStartWithLabel(st: Store, labelId: int, startOrdinal: int): (r: set<Bookmark>)
    requires WellKeyed(st)
    ensures forall b :: b in r <==>
              && b in AllBookmarks(st)
              && BookmarkToLabel(b.id, labelId) in st.links && labelId in st.labels
              && b.kjvOrdinalStart == startOrdinal
  {
    set k | k in st.bookmarks && BookmarkToLabel(k, labelId) in st.links && labelId in st.labels
                               && st.bookmarks[k].kjvOrdinalStart == startOrdinal
      :: st.bookmarks[k]
  }

  /** The duplicate-anchor query is the intersection of the label query and
      the exact-start query. */
  lemma VerseStartWithLabelIsIntersection(st: Store, labelId: int, startOrdinal: int)
    requires WellKeyed(st)
    ensures BookmarksForVerseStartWithLabel(st, labelId, startOrdinal)
         == BookmarksWithLabel(st, labelId) * BookmarksForKjvOrdinalStart(st, startOrdinal)
  {
  }

  /** Label membership is symmetric: label `labelId` is among the labels of
      bookmark `bookmarkId` exactly when that bookmark is among the bookmarks
      of the label, and both mean that the pair is associated and both rows
      exist. */
  lemma LabelMembershipSymmetric(st: Store, bookmarkId: int, labelId: int)
    requires WellKeyed(st)
    ensures (exists l :: l in LabelsForBookmark(st, bookmarkId) && l.id == labelId)
        <==> (exists b :: b in BookmarksWithLabel(st, labelId) && b.id == bookmarkId)
    ensures (exists b :: b in BookmarksWithLabel(st, labelId) && b.id == bookmarkId)
        <==> BookmarkToLabel(bookmarkId, labelId) in st.links && bookmarkId in st.bookmarks && labelId in st.labels
  {
    if BookmarkToLabel(bookmarkId, labelId) in st.links && bookmarkId in st.bookmarks && labelId in st.labels {
      assert st.labels[labelId] in LabelsForBookmark(st, bookmarkId);
      assert st.bookmarks[bookmarkId] in BookmarksWithLabel(st, labelId);
    }
  }

  /** An unlabelled bookmark is in no label's result. */
  lemma UnlabelledDisjointFromLabelled(st: Store, labelId: int)
    requires WellKeyed(st)
    ensures UnlabelledBookmarks(st) !! BookmarksWithLabel(st, labelId)
  {
    forall b | b in UnlabelledBookmarks(st) && b in BookmarksWithLabel(st, labelId)
      ensures false
    {
      StoredBookmarkIsKeyedById(st, b);
    }
  }

  /** When every association names an existing label, each bookmark is either
      unlabelled or returned for some label, and nothing else is returned. */
  lemma UnlabelledAndLabelledPartitionAll(st: Store)
    requires WellKeyed(st)
    requires LinksNameExistingLabels(st)
    ensures forall b :: b in AllBookmarks(st) <==>
              b in UnlabelledBookmarks(st) || exists labelId :: b in BookmarksWithLabel(st, labelId)
  {
    forall b | b in AllBookmarks(st) && b !in UnlabelledBookmarks(st)
      ensures exists labelId :: b in BookmarksWithLabel(st, labelId)
    {
      StoredBookmarkIsKeyedById(st, b);
      var p :| p in st.links && p.bookmarkId == b.id;
      assert b in BookmarksWithLabel(st, p.labelId);
    }
  }

  /** A bookmark all of whose associations point at missing labels is in
      neither the unlabelled result nor any label's result. */
  lemma DanglingOnlyBookmarkInNeither(st: Store, b: Bookmark)
    requires WellKeyed(st)
    requires b in AllBookmarks(st)
    requires exists p :: p in st.links && p.bookmarkId == b.id
    requires forall p :: p in st.links && p.bookmarkId == b.id ==> p.labelId !in st.labels
    ensures b !in UnlabelledBookmarks(st)
    ensures forall labelId :: b !in BookmarksWithLabel(st, labelId)
  {
    StoredBookmarkIsKeyedById(st, b);
  }
}
