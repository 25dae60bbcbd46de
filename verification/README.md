# Bookmark DAO of And Bible, modelled in Dafny

This project models `BookmarkDao`, the Room data-access interface through which
And Bible stores and queries bookmarks and labels. The database is treated as
an immutable in-memory relational store with three tables:

- bookmarks, each with a range of canonical (KJV) verse ordinals `kjvOrdinalStart..kjvOrdinalEnd` and a `createdAt` time;
- labels, each with a name and a `bookmarkStyle`;
- the `BookmarkToLabel` association pairs.

The whole store is the value `Entities.Store`. Each SQL query of the DAO is a
set comprehension over it. Each insert, update and delete is a pure function
from a store to the next store, plus the id or row count the DAO returns.

Modules follow the parts of the DAO:

- `Entities`: the rows, the store, and the invariants the callers keep. `WellKeyed` says every row sits under its own id. `ReferentialIntegrity` says both ends of every association exist.
- `OrdinalQueries`: lookup by id and by verse ordinal, and the existence check.
- `RangeQuery`: the range query as SQLite evaluates it, next to the interval-overlap query it is meant to be.
- `LabelJoins`: the joins through the association table, and the unlabelled anti-join.
- `Mutations`: insert, update and delete of all three tables, and the batch association delete with its row count.
- `SpeakLabels`: the reserved SPEAK label, and get-or-create on top of it.
- `RowIds` and `Results` are helpers. `RowIds` holds the largest and smallest id and the id an insert assigns. `Results` holds the option and result types.

Results are sets of rows, not lists. The `ORDER BY :orderBy` clauses bind the
ordering as a parameter, so SQLite sorts by a constant and the order is not
part of the model.

The range query writes `:rangeStart <= kjvOrdinalStart <= :rangeEnd`. In
SQLite all comparison operators share one precedence level and group left to
right, and a comparison yields 0 or 1. So this is `(rangeStart <= start) <= rangeEnd`,
not interval membership. `RangeQuery.ChainLe` models exactly that.

Two results follow:

- Completeness. The query returns every overlapping bookmark whenever the range start and the bookmark starts are not negative. The bookmark ends may be anything.
- No exactness. Once `rangeEnd >= 1`, the query returns the whole table.

The overlap query the code is evidently meant to run is
`RangeQuery.BookmarksOverlappingRange`. Its contract states exactness.

Most operations require `WellKeyed(st)`. This is the representation invariant
of the map-based tables: every row is stored under its own id. The empty store
has it, and every operation keeps it, so it is not a demand the DAO makes of
its callers.

The model follows the code, or an assumption about the schema, where a stricter contract might be expected:

- `update` of an absent id does nothing. It does not fail.
- `insert` does not reject a reversed range.
- A label's style is `Speak` or `Other(name)`, where the name is that of any other style. The type `Entities.OtherStyleName` excludes the name `SPEAK`, so the SPEAK style has exactly one representation.
- `delete` of a bookmark or label is modelled as leaving its associations in place. This is an assumption about the schema: the entity declarations, which would say whether a delete cascades or is blocked by a foreign key, are not part of this model. Referential integrity is a predicate, with lemmas saying which operations keep it.

## Model

| member | source | states |
|---|---|---|
| Entities.AllBookmarks | db/src/main/java/net/bible/android/database/bookmarks/BookmarksDao.kt:36-37 | every stored bookmark is returned, and in a well-keyed store there is one row per id |
| Entities.AllLabels | db/src/main/java/net/bible/android/database/bookmarks/BookmarksDao.kt:118-119 | every stored label is returned, and in a well-keyed store there is one row per id |
| OrdinalQueries.BookmarkById | db/src/main/java/net/bible/android/database/bookmarks/BookmarksDao.kt:41-42 | a row comes back exactly when some stored bookmark has that id, and it is that bookmark |
| OrdinalQueries.BookmarksByIds | db/src/main/java/net/bible/android/database/bookmarks/BookmarksDao.kt:44-45 | a bookmark is returned iff it is stored and its id occurs in the list |
| OrdinalQueries.BookmarksByIdsDependsOnlyOnStoredIds | db/src/main/java/net/bible/android/database/bookmarks/BookmarksDao.kt:44-45 | two id lists naming the same stored ids give the same result, so duplicates collapse and unknown ids contribute nothing |
| OrdinalQueries.BookmarksByIdsSize | db/src/main/java/net/bible/android/database/bookmarks/BookmarksDao.kt:44-45 | the result has one row per distinct stored id in the list |
| OrdinalQueries.BookmarksForKjvOrdinal | db/src/main/java/net/bible/android/database/bookmarks/BookmarksDao.kt:60-61 | a bookmark is returned iff it is stored and its range contains the verse |
| OrdinalQueries.BookmarksForKjvOrdinalStart | db/src/main/java/net/bible/android/database/bookmarks/BookmarksDao.kt:65-66 | a bookmark is returned iff it is stored and starts exactly at the given ordinal |
| OrdinalQueries.HasBookmarksForVerse | db/src/main/java/net/bible/android/database/bookmarks/BookmarksDao.kt:70-71 | the existence check is true iff the point query for the same ordinal is non-empty |
| OrdinalQueries.StartingBookmarksCoverTheirStart | db/src/main/java/net/bible/android/database/bookmarks/BookmarksDao.kt:65-66 | with forward ranges, every bookmark starting at a verse is also returned by the point query for that verse |
| RangeQuery.BookmarksForKjvOrdinalRange | db/src/main/java/net/bible/android/database/bookmarks/BookmarksDao.kt:47-53 | a bookmark is returned iff it is stored and satisfies one of the four clauses, each chained comparison grouped left to right with 0/1 results |
| RangeQuery.AsWrittenAcceptsEveryOverlap | db/src/main/java/net/bible/android/database/bookmarks/BookmarksDao.kt:47-53 | under SQLite's grouping of chained comparisons, the WHERE clause accepts every bookmark overlapping the range when the range start and the bookmark start are not negative |
| RangeQuery.RangeQueryComplete | db/src/main/java/net/bible/android/database/bookmarks/BookmarksDao.kt:47-53 | with a non-negative range start and no bookmark starting below 0, every stored bookmark overlapping the range is in the range query's result |
| RangeQuery.RangeQueryIncludesBoundaries | db/src/main/java/net/bible/android/database/bookmarks/BookmarksDao.kt:47-53 | bookmarks ending exactly at the range start or starting exactly at the range end are returned |
| RangeQuery.AsWrittenReturnsEverythingForPositiveEnd | db/src/main/java/net/bible/android/database/bookmarks/BookmarksDao.kt:48 | for any range end of at least 1, the first clause holds for every row, so the query returns the whole table |
| RangeQuery.AsWrittenOverReturns | db/src/main/java/net/bible/android/database/bookmarks/BookmarksDao.kt:47-53 | bookmark [20, 30] is returned for range [5, 10] although it does not overlap it |
| RangeQuery.NegativeRangeStartMissesOverlap | db/src/main/java/net/bible/android/database/bookmarks/BookmarksDao.kt:47-53 | with range [-1, 0], the overlapping bookmark [0, 0] is rejected, so completeness needs a non-negative range start |
| RangeQuery.ReadAsIntervalsIsOverlapOrEarlier | db/src/main/java/net/bible/android/database/bookmarks/BookmarksDao.kt:47-53 | even with the chains read as intervals, the four clauses select the overlapping bookmarks plus those ending at or before the range start |
| RangeQuery.ThirdClauseSelectsEarlierBookmarks | db/src/main/java/net/bible/android/database/bookmarks/BookmarksDao.kt:50 | bookmark [1, 2] satisfies the third clause for range [100, 200] without overlapping it |
| RangeQuery.ThirdClauseLatentAsWritten | db/src/main/java/net/bible/android/database/bookmarks/BookmarksDao.kt:48-50 | with non-negative ordinals and range start, a bookmark the third clause accepts either overlaps the range or is already accepted by the first clause |
| RangeQuery.BookmarksOverlappingRange | db/src/main/java/net/bible/android/database/bookmarks/BookmarksDao.kt:47-53 | the corrected range query returns exactly the stored bookmarks with `start <= rangeEnd` and `end >= rangeStart` |
| RangeQuery.PointQueryIsOneVerseOverlap | db/src/main/java/net/bible/android/database/bookmarks/BookmarksDao.kt:60-61 | the point query equals the corrected range query over the one-verse range, so it returns exactly the bookmarks with `start <= x <= end` |
| RangeQuery.SharedBoundaryExample | db/src/main/java/net/bible/android/database/bookmarks/BookmarksDao.kt:47-53 | for [100, 120] and [120, 150], range [110, 119] overlaps only the first and [120, 120] overlaps both; the query as written returns both for [110, 119] |
| LabelJoins.BookmarksWithLabel | db/src/main/java/net/bible/android/database/bookmarks/BookmarksDao.kt:106-112 | a bookmark is returned iff it is stored, associated with the label id, and that label exists |
| LabelJoins.LabelsForBookmark | db/src/main/java/net/bible/android/database/bookmarks/BookmarksDao.kt:127-133 | a label is returned iff it is stored, associated with the bookmark id, and that bookmark exists |
| LabelJoins.UnlabelledBookmarks | db/src/main/java/net/bible/android/database/bookmarks/BookmarksDao.kt:96-101 | a bookmark is returned iff it is stored and no association names it, whether or not the label exists |
| LabelJoins.BookmarksForVerseStartWithLabel | db/src/main/java/net/bible/android/database/bookmarks/BookmarksDao.kt:74-80 | a bookmark is returned iff it is stored, associated with the label id, that label exists, and it starts exactly at the given ordinal |
| LabelJoins.VerseStartWithLabelIsIntersection | db/src/main/java/net/bible/android/database/bookmarks/BookmarksDao.kt:74-80 | the start-with-label query equals the label query intersected with the exact-start query |
| LabelJoins.LabelMembershipSymmetric | db/src/main/java/net/bible/android/database/bookmarks/BookmarksDao.kt:106-133 | a label is among a bookmark's labels iff the bookmark is among the label's bookmarks iff the pair is associated and both rows exist |
| LabelJoins.UnlabelledDisjointFromLabelled | db/src/main/java/net/bible/android/database/bookmarks/BookmarksDao.kt:96-112 | no unlabelled bookmark is returned for any label |
| LabelJoins.UnlabelledAndLabelledPartitionAll | db/src/main/java/net/bible/android/database/bookmarks/BookmarksDao.kt:96-112 | when every association names an existing label, the unlabelled bookmarks together with those of all labels are exactly the stored bookmarks |
| LabelJoins.DanglingOnlyBookmarkInNeither | db/src/main/java/net/bible/android/database/bookmarks/BookmarksDao.kt:96-112 | a bookmark whose only associations name missing labels is neither unlabelled nor returned for any label |
| Mutations.InsertBookmark | db/src/main/java/net/bible/android/database/bookmarks/BookmarksDao.kt:84 | insert fails iff the entity names an id already taken; otherwise the returned id was free, the new row is fetched back by it, and it is the only row added |
| Mutations.InsertThenDeleteBookmarkRestores | db/src/main/java/net/bible/android/database/bookmarks/BookmarksDao.kt:84-94 | deleting the row an insert just added gives back the original store |
| Mutations.UpdateBookmark | db/src/main/java/net/bible/android/database/bookmarks/BookmarksDao.kt:86-87 | the row with the entity's id now holds the entity, every other row is kept, and an absent id leaves the store unchanged |
| Mutations.UpdateBookmarkDate | db/src/main/java/net/bible/android/database/bookmarks/BookmarksDao.kt:88-92 | the returned bookmark is the entity with only `createdAt` set to `now`; it replaces the row with that id and no other row changes |
| Mutations.DeleteBookmark | db/src/main/java/net/bible/android/database/bookmarks/BookmarksDao.kt:94 | only the row with the entity's id is removed; associations and labels are kept |
| Mutations.DeletedBookmarkIsInvisible | db/src/main/java/net/bible/android/database/bookmarks/BookmarksDao.kt:94 | after the delete the bookmark is absent from lookup by id, from every label's result and from the table, and it has no labels |
| Mutations.DeleteBookmarkIntegrity | db/src/main/java/net/bible/android/database/bookmarks/BookmarksDao.kt:94 | deleting a bookmark keeps referential integrity iff no association names it |
| Mutations.InsertLabel | db/src/main/java/net/bible/android/database/bookmarks/BookmarksDao.kt:121 | insert fails iff the entity names an id already taken; otherwise the returned id was free and exactly that label row is added |
| Mutations.InsertThenDeleteLabelRestores | db/src/main/java/net/bible/android/database/bookmarks/BookmarksDao.kt:121-125 | deleting the label an insert just added gives back the original store |
| Mutations.UpdateLabel | db/src/main/java/net/bible/android/database/bookmarks/BookmarksDao.kt:123 | the label row with the entity's id now holds the entity, every other row is kept, and an absent id changes nothing |
| Mutations.DeleteLabel | db/src/main/java/net/bible/android/database/bookmarks/BookmarksDao.kt:125 | only the label with the entity's id is removed; associations and bookmarks are kept |
| Mutations.DeletedLabelIsInvisible | db/src/main/java/net/bible/android/database/bookmarks/BookmarksDao.kt:125 | after the delete the label returns no bookmarks and is no bookmark's label |
| Mutations.InsertLink | db/src/main/java/net/bible/android/database/bookmarks/BookmarksDao.kt:135 | under the assumed schema (the pair as key, no enforced foreign key), inserting an association fails iff the pair is present; otherwise exactly that pair is added |
| Mutations.InsertThenDeleteLinkRestores | db/src/main/java/net/bible/android/database/bookmarks/BookmarksDao.kt:135-137 | deleting an association just inserted reports one row and gives back the original store |
| Mutations.InsertLinks | db/src/main/java/net/bible/android/database/bookmarks/BookmarksDao.kt:141 | under the assumed schema (the pair as key, no enforced foreign key), the batch fails as a whole iff a pair repeats or is present; otherwise every listed pair is added and the table grows by the list's length |
| Mutations.InsertLinksKeepsIntegrity | db/src/main/java/net/bible/android/database/bookmarks/BookmarksDao.kt:141 | a batch whose pairs name existing rows keeps referential integrity |
| Mutations.BatchInsertThenDeleteRestores | db/src/main/java/net/bible/android/database/bookmarks/BookmarksDao.kt:139-141 | after a batch insert, deleting the same list removes one row per pair and restores the association table; meanwhile each listed label is among its bookmark's labels |
| Mutations.InsertThenDeleteLinks | db/src/main/java/net/bible/android/database/bookmarks/BookmarksDao.kt:139-141 | inserting a batch and then deleting the same list reports one row per pair and gives back the original store |
| Mutations.DeleteLink | db/src/main/java/net/bible/android/database/bookmarks/BookmarksDao.kt:137 | the pair is gone afterwards and the count is 1 iff it was present |
| Mutations.DeleteLinks | db/src/main/java/net/bible/android/database/bookmarks/BookmarksDao.kt:139 | the count is the number of distinct listed pairs that were present; afterwards none remain, and every other association and table is unchanged |
| SpeakLabels.SpeakLabel | db/src/main/java/net/bible/android/database/bookmarks/BookmarksDao.kt:143-144 | a stored label of style SPEAK is returned, and nothing is returned iff no stored label has that style |
| SpeakLabels.GetOrCreateSpeakLabel | db/src/main/java/net/bible/android/database/bookmarks/BookmarksDao.kt:145-149 | the result always has style SPEAK; an existing SPEAK label leaves the store unchanged; otherwise exactly one label is added, with an empty name and a fresh id |
| SpeakLabels.GetOrCreateSpeakLabelTwice | db/src/main/java/net/bible/android/database/bookmarks/BookmarksDao.kt:145-149 | two calls in sequence return the same id, and the second leaves the store unchanged |
| SpeakLabels.GetOrCreateKeepsSpeakLabelUnique | db/src/main/java/net/bible/android/database/bookmarks/BookmarksDao.kt:145-149 | starting from at most one SPEAK label, afterwards the returned label is the only one |

## Findings

| source | as written | input that shows it | evidently intended | confidence | as-written member | corrected member |
|---|---|---|---|---|---|---|
| db/src/main/java/net/bible/android/database/bookmarks/BookmarksDao.kt:48-51 | chained comparisons `:rangeStart <= kjvOrdinalStart <= :rangeEnd` group as `(rangeStart <= start) <= rangeEnd`, a 0/1 value compared with the range end | bookmark [20, 30] and range [5, 10]: the first clause is `1 <= 10`, so the bookmark is returned; for any range end of at least 1, every bookmark is | interval membership, so that the query returns exactly the bookmarks overlapping the range | high for the grouping, which is SQLite's documented operator rule; not executed | RangeQuery.AsWrittenOverReturns | RangeQuery.BookmarksOverlappingRange |
| db/src/main/java/net/bible/android/database/bookmarks/BookmarksDao.kt:50 | `kjvOrdinalStart <= :rangeEnd AND :rangeStart >= kjvOrdinalEnd` holds for bookmarks that end at or before the range start | bookmark [1, 2] and range [100, 200] satisfy the clause; they do not overlap. Under SQLite's grouping with non-negative ordinals the clause changes no result, because the first clause already accepts every such bookmark (`RangeQuery.ThirdClauseLatentAsWritten`); it starts to matter once the first two clauses are corrected | a bookmark enclosing the range, which the fourth clause already covers, so overlap alone | medium: the clause's purpose is inferred; not executed | RangeQuery.ThirdClauseSelectsEarlierBookmarks | RangeQuery.BookmarksOverlappingRange |

## Left out

- The verse-level wrappers are left out: `bookmarksForVerseRange`, `bookmarksInBook`, `bookmarksForVerse`, `bookmarksStartingAtVerse`, `hasBookmarksForVerse(Verse)` and `bookmarksForVerseStartWithLabel(Verse, Label)`. They convert through an external versification library (`converter`, `KJVA`), which is not part of this model. Of these, `bookmarksInBook` ignores its `book` argument and queries `KJVA.allVerses`.
- Result order is left out. `allBookmarks`, `unlabelledBookmarks` and `bookmarksWithLabel` sort by a bound parameter, which is a constant to SQLite, and `BookmarkSortOrder.sqlString` is not part of this model. `allLabelsSortedByName` sorts by name. These queries are modelled as the sets `Entities.AllBookmarks` and `Entities.AllLabels`, and as the set-valued join functions.
- Room, SQLite storage, transactions and concurrency are left out. The model is sequential, so the check-then-insert race in `getOrCreateSpeakLabel` is not modelled.
- The entity classes are not part of this model, and neither are their key, foreign-key and cascade declarations. Inserts assume an auto-generated primary key, where id 0 means "not set". They also assume the default ABORT conflict strategy. The association table is assumed to be keyed by its pair. The schema is assumed to have no cascade on delete and no enforced foreign key. Referential integrity is the explicit predicate `ReferentialIntegrity`.
- The row ids returned by `insert(BookmarkToLabel)` and `insert(List<BookmarkToLabel>)` are not modelled. The association table is a set of pairs.
- A fresh id is one more than the largest id in the table. The AUTOINCREMENT rule, which never reuses an id once deleted, is not modelled.
- The clock is left out: `updateBookmarkDate` takes the current time as the integer `now` (milliseconds).
- `updateBookmarkDate` mutates the caller's entity object in place. The model returns the updated value instead.
- `bookmarkById` on a missing id yields `null` from the generated code despite its non-null type. It is modelled as `None`.
- Integer widths are left out. Ordinals (`Int`) and ids (`Long`) are unbounded integers. The only arithmetic is the `+ 1` of a fresh id, whose overflow at the largest `Long` is not modelled.
- `speakLabel` with several SPEAK labels may return any of them. The model returns the one with the lowest id, and its contract only promises some SPEAK label.
- NULL columns are not modelled. Every ordinal is assumed present.
- Mutations.DeleteBookmark: `next.links == st.links` holds only for a schema without cascading or enforced foreign keys. The entity declarations decide this and are not part of this model; with `ON DELETE CASCADE` the associations naming the bookmark would go too, and with an enforced `RESTRICT` key the delete would fail.
- Mutations.DeleteLabel: `next.links == st.links` holds only for a schema without cascading or enforced foreign keys, for the same reason as for bookmarks.
- OrdinalQueries.BookmarksByIds: the list is unbounded in the model. Room expands `IN (:bookmarkIds)` into one host parameter per id, and SQLite rejects a statement with more than `SQLITE_MAX_VARIABLE_NUMBER` parameters (999 before SQLite 3.32.0, 32766 since), so a long enough list throws instead of returning rows. That failure is not modelled.
- Mutations.InsertLink: success for a pair naming a missing bookmark or label holds only for a schema without an enforced foreign key. With one, SQLite aborts the statement with a constraint error. The entity declarations decide this and are not part of this model.
- Mutations.InsertLinks: success for a list holding a pair that names a missing bookmark or label likewise holds only without an enforced foreign key. With one, the failing pair aborts, and Room rolls back the whole batch.
- SpeakLabels.SpeakLabel: the style column is assumed to hold the enumeration constant's name, as the query's `'SPEAK'` literal expects. The type converter that decides this is not part of this model. If the column held the constant's ordinal instead, the query would never match, and `getOrCreateSpeakLabel` would insert a new label on every call.
