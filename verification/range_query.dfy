/** `bookmarksForKjvOrdinalRange`: the range query, as SQLite evaluates its
    WHERE clause, next to the interval-overlap query it is meant to be. */
module RangeQuery {
  import opened Entities
  import opened OrdinalQueries

  /** The value SQLite gives a comparison: 1 when it holds, 0 otherwise. */
  function B2i(c: bool): int {
    if c then 1 else 0
  }

  /** SQLite's `a <= b <= c`. All comparison operators share one precedence
      level and group left to right, so this is `(a <= b) <= c`: the 0/1
      value of the first comparison, compared with `c`. */
  predicate ChainLe(a: int, b: int, c: int) {
    B2i(a <= b) <= c
  }

  /** The third clause, which has no chain and reads the same either way. */
  predicate ThirdClause(b: Bookmark, rangeStart: int, rangeEnd: int) {
    b.kjvOrdinalStart <= rangeEnd && rangeStart >= b.kjvOrdinalEnd
  }

  /** The WHERE clause of the range query as SQLite evaluates it. */
  predicate MatchesRangeAsWritten(b: Bookmark, rangeStart: int, rangeEnd: int) {
    || ChainLe(rangeStart, b.kjvOrdinalStart, rangeEnd)
    || ChainLe(rangeStart, b.kjvOrdinalEnd, rangeEnd)
    || ThirdClause(b, rangeStart, rangeEnd)
    || (ChainLe(b.kjvOrdinalStart, rangeStart, b.kjvOrdinalEnd) && ChainLe(b.kjvOrdinalStart, rangeEnd, b.kjvOrdinalEnd))
  }

  /** The same four clauses with every chain read as interval membership,
      as a reader of the query would take them. */
  predicate MatchesRangeReadAsIntervals(b: Bookmark, rangeStart: int, rangeEnd: int) {
    || (rangeStart <= b.kjvOrdinalStart <= rangeEnd)
    || (rangeStart <= b.kjvOrdinalEnd <= rangeEnd)
    || ThirdClause(b, rangeStart, rangeEnd)
    || (b.kjvOrdinalStart <= rangeStart <= b.kjvOrdinalEnd && b.kjvOrdinalStart <= rangeEnd <= b.kjvOrdinalEnd)
  }

  /** Inclusive interval overlap of a bookmark with `[rangeStart, rangeEnd]`. */
  predicate Overlaps(b: Bookmark, rangeStart: int, rangeEnd: int) {
    b.kjvOrdinalStart <= rangeEnd && b.kjvOrdinalEnd >= rangeStart
  }

  /** `bookmarksForKjvOrdinalRange` as written. */
  function BookmarksForKjvOrdinalRange(st: Store, rangeStart: int, rangeEnd: int): (r: set<Bookmark>)
    ensures forall b :: b in r <==> b in AllBookmarks(st) && MatchesRangeAsWritten(b, rangeStart, rangeEnd)
  {
    set k | k in st.bookmarks && MatchesRangeAsWritten(st.bookmarks[k], rangeStart, rangeEnd) :: st.bookmarks[k]
  }

  /** The range query as intended: exactly the bookmarks overlapping the range. */
  function BookmarksOverlappingRange(st: Store, rangeStart: int, rangeEnd: int): (r: set<Bookmark>)
    ensures forall b :: b in r <==> b in AllBookmarks(st) && Overlaps(b, rangeStart, rangeEnd)
  {
    set k | k in st.bookmarks && st.bookmarks[k].kjvOrdinalStart <= rangeEnd
                               && st.bookmarks[k].kjvOrdinalEnd >= rangeStart :: st.bookmarks[k]
  }

  /** Completeness for one bookmark: when the range start and the bookmark's
      start are not negative, the clause as written accepts every
      overlapping bookmark. Neither `rangeStart <= rangeEnd` nor an ordered
      bookmark range is needed. */
  lemma AsWrittenAcceptsEveryOverlap(b: Bookmark, rangeStart: int, rangeEnd: int)
    requires 0 <= rangeStart && 0 <= b.kjvOrdinalStart
    requires Overlaps(b, rangeStart, rangeEnd)
    ensures MatchesRangeAsWritten(b, rangeStart, rangeEnd)
  {
    if rangeEnd <= 0 {
      // The bookmark starts at 0 = rangeEnd; the fourth clause, or the
      // third when the bookmark is the single verse 0, accepts it.
      assert b.kjvOrdinalStart == 0 && rangeEnd == 0;
    }
  }

  /** Completeness of the range query: every stored bookmark that overlaps
      the range is returned. */
  lemma RangeQueryComplete(st: Store, rangeStart: int, rangeEnd: int)
    requires 0 <= rangeStart
    requires StartsNonNegative(st)
    ensures BookmarksOverlappingRange(st, rangeStart, rangeEnd) <= BookmarksForKjvOrdinalRange(st, rangeStart, rangeEnd)
  {
    forall b | b in BookmarksOverlappingRange(st, rangeStart, rangeEnd)
      ensures b in BookmarksForKjvOrdinalRange(st, rangeStart, rangeEnd)
    {
      AsWrittenAcceptsEveryOverlap(b, rangeStart, rangeEnd);
    }
  }

  /** The boundary cases: a bookmark ending exactly at the range start, or
      starting exactly at the range end, is returned. */
  lemma RangeQueryIncludesBoundaries(st: Store, rangeStart: int, rangeEnd: int)
    requires 0 <= rangeStart <= rangeEnd
    requires OrdinalsNonNegative(st) && RangesOrdered(st)
    ensures forall b :: b in AllBookmarks(st) && (b.kjvOrdinalEnd == rangeStart || b.kjvOrdinalStart == rangeEnd) ==>
                        b in BookmarksForKjvOrdinalRange(st, rangeStart, rangeEnd)
  {
    RangeQueryComplete(st, rangeStart, rangeEnd);
  }

  /** How much the query over-returns: once the range end is at least 1 the
      first clause holds for every row, so the whole table comes back. */
  lemma AsWrittenReturnsEverythingForPositiveEnd(st: Store, rangeStart: int, rangeEnd: int)
    requires 1 <= rangeEnd
    ensures BookmarksForKjvOrdinalRange(st, rangeStart, rangeEnd) == AllBookmarks(st)
  {
  }

  /** Exactness fails: bookmark [20, 30] does not overlap [5, 10], yet the
      query as written returns it. */
  lemma AsWrittenOverReturns()
    ensures var b := Bookmark(1, 20, 30, 0, "");
            var st := Store(map[1 := b], map[], {});
            b in BookmarksForKjvOrdinalRange(st, 5, 10) && !Overlaps(b, 5, 10)
  {
    var b := Bookmark(1, 20, 30, 0, "");
    var st := Store(map[1 := b], map[], {});
    assert MatchesRangeAsWritten(st.bookmarks[1], 5, 10);
  }

  /** The sign of the range start matters: with `rangeStart = -1`, bookmark
      [0, 0] overlaps [-1, 0] and is missed. */
  lemma NegativeRangeStartMissesOverlap()
    ensures var b := Bookmark(1, 0, 0, 0, "");
            Overlaps(b, -1, 0) && !MatchesRangeAsWritten(b, -1, 0)
  {
  }

  /** Reading the chains as intervals does not rescue the query: the third
      clause then adds every bookmark that ends at or before the range start. */
  lemma ReadAsIntervalsIsOverlapOrEarlier(b: Bookmark, rangeStart: int, rangeEnd: int)
    requires b.kjvOrdinalStart <= b.kjvOrdinalEnd && rangeStart <= rangeEnd
    ensures MatchesRangeReadAsIntervals(b, rangeStart, rangeEnd) <==>
            Overlaps(b, rangeStart, rangeEnd) || b.kjvOrdinalEnd <= rangeStart
  {
  }

  /** Bookmark [1, 2] lies wholly before [100, 200] but satisfies the third
      clause under either reading. */
  lemma ThirdClauseSelectsEarlierBookmarks()
    ensures var b := Bookmark(1, 1, 2, 0, "");
            MatchesRangeReadAsIntervals(b, 100, 200) && !Overlaps(b, 100, 200)
  {
  }

  /** Under SQLite's grouping, and with non-negative starts, the third clause
      is latent: every row it accepts either overlaps the range or is
      already accepted by the first clause. Its defect shows only once the
      chains are fixed. (Without `0 <= kjvOrdinalEnd`, the reversed
      bookmark [0, -1] and the range [0, 0] escape this.) */
  lemma ThirdClauseLatentAsWritten(b: Bookmark, rangeStart: int, rangeEnd: int)
    requires 0 <= rangeStart && 0 <= b.kjvOrdinalStart && 0 <= b.kjvOrdinalEnd
    requires ThirdClause(b, rangeStart, rangeEnd)
    ensures Overlaps(b, rangeStart, rangeEnd) || ChainLe(rangeStart, b.kjvOrdinalStart, rangeEnd)
  {
  }

  /** A point query is the overlap query of a one-verse range. */
  lemma {:induction false} PointQueryIsOneVerseOverlap(st: Store, verseId: int)
    ensures BookmarksForKjvOrdinal(st, verseId) == BookmarksOverlappingRange(st, verseId, verseId)
  {
  }

  /** Two bookmarks sharing verse 120: the range [110, 119] overlaps only the
      first, [120, 120] overlaps both, and the query as written returns both
      for either range. */
  lemma SharedBoundaryExample()
    ensures var a := Bookmark(1, 100, 120, 0, "");
            var b := Bookmark(2, 120, 150, 0, "");
            var st := Store(map[1 := a, 2 := b], map[], {});
            && BookmarksOverlappingRange(st, 110, 119) == {a}
            && BookmarksOverlappingRange(st, 120, 120) == {a, b}
            && BookmarksForKjvOrdinalRange(st, 110, 119) == {a, b}
  {
    var a := Bookmark(1, 100, 120, 0, "");
    var b := Bookmark(2, 120, 150, 0, "");
    var st := Store(map[1 := a, 2 := b], map[], {});
    assert st.bookmarks[1] == a && st.bookmarks[2] == b;
    assert st.bookmarks.Keys == {1, 2};
    assert AllBookmarks(st) == {a, b};
  }
}
