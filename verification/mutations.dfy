/** The insert, update and delete operations of the bookmark DAO, as pure
    functions from a store to the next store. Updates and deletes address a
    row by its primary key and do nothing when no row has that key. Deletes
    are modelled for a schema without cascading or enforced foreign keys, so
    they leave the association table as it is. */
module Mutations {
  import opened Results
  import opened Entities
  import opened OrdinalQueries
  import opened LabelJoins
  import RowIds

  // ---------------------------------------------------------------- bookmarks

  /** `insert(Bookmark)`: stores the entity under the id it is assigned and
      returns that id. Fails when the entity names an id already taken. */
  function InsertBookmark(st: Store, entity: Bookmark): (r: Result<(Store, int)>)
    requires WellKeyed(st)
    ensures r.Err? <==> entity.id != 0 && entity.id in st.bookmarks
    ensures r.Ok? ==>
              var (next, id) := r.value;
              && id !in st.bookmarks
              && (entity.id != 0 ==> id == entity.id)
              && WellKeyed(next)
              && BookmarkById(next, id) == Some(entity.(id := id))
              && AllBookmarks(next) == AllBookmarks(st) + {entity.(id := id)}
              && next.labels == st.labels && next.links == st.links
  {
    match RowIds.AssignId(st.bookmarks.Keys, entity.id)
    case None => Err(ConstraintViolation)
    case Some(id) =>
      var row := entity.(id := id);
      var next := st.(bookmarks := st.bookmarks[id := row]);
      AllBookmarksAfterPut(st, id, row);
      Ok((next, id))
  }

  /** `update(Bookmark)`: replaces the row whose id is the entity's id. */
  function UpdateBookmark(st: Store, entity: Bookmark): (next: Store)
    requires WellKeyed(st)
    ensures WellKeyed(next)
    ensures entity.id in st.bookmarks ==> BookmarkById(next, entity.id) == Some(entity)
    ensures entity.id !in st.bookmarks ==> next == st
    ensures next.bookmarks.Keys == st.bookmarks.Keys
    ensures forall k :: k in st.bookmarks && k != entity.id ==> next.bookmarks[k] == st.bookmarks[k]
    ensures next.labels == st.labels && next.links == st.links
  {
    if entity.id in st.bookmarks then st.(bookmarks := st.bookmarks[entity.id := entity]) else st
  }

  /** `updateBookmarkDate`: stamps the entity with the current time `now`,
      stores it with `update`, and returns it. */
  function UpdateBookmarkDate(st: Store, entity: Bookmark, now: int): (r: (Store, Bookmark))
    requires WellKeyed(st)
    ensures r.1.createdAt == now
    ensures WellKeyed(r.0)
    ensures r.1.id == entity.id && r.1.kjvOrdinalStart == entity.kjvOrdinalStart
         && r.1.kjvOrdinalEnd == entity.kjvOrdinalEnd && r.1.payload == entity.payload
    ensures entity.id in st.bookmarks ==> BookmarkById(r.0, entity.id) == Some(r.1)
    ensures entity.id !in st.bookmarks ==> r.0 == st
    ensures r.0.bookmarks.Keys == st.bookmarks.Keys
    ensures forall k :: k in st.bookmarks && k != entity.id ==> r.0.bookmarks[k] == st.bookmarks[k]
    ensures r.0.labels == st.labels && r.0.links == st.links
  {
    var touched := entity.(createdAt := now);
    (UpdateBookmark(st, touched), touched)
  }

  /** `delete(Bookmark)`: removes the row whose id is the entity's id. With
      no cascading or enforced foreign key assumed, its associations stay. */
  function DeleteBookmark(st: Store, entity: Bookmark): (next: Store)
    requires WellKeyed(st)
    ensures WellKeyed(next)
    ensures next.bookmarks.Keys == st.bookmarks.Keys - {entity.id}
    ensures forall k :: k in next.bookmarks ==> next.bookmarks[k] == st.bookmarks[k]
    ensures next.labels == st.labels && next.links == st.links
  {
    st.(bookmarks := st.bookmarks - {entity.id})
  }

  /** Deleting the row an insert just added gives back the store. */
  lemma InsertThenDeleteBookmarkRestores(st: Store, entity: Bookmark)
    requires WellKeyed(st)
    requires InsertBookmark(st, entity).Ok?
    ensures var (next, id) := InsertBookmark(st, entity).value;
            DeleteBookmark(next, entity.(id := id)) == st
  {
    var id := RowIds.AssignId(st.bookmarks.Keys, entity.id).value;
    var row := entity.(id := id);
    assert InsertBookmark(st, entity) == Ok((st.(bookmarks := st.bookmarks[id := row]), id));
    assert st.bookmarks[id := row] - {id} == st.bookmarks;
  }

  /** After a delete the bookmark is gone from every query, even if its
      associations remain: each join also requires the bookmark row. */
  lemma DeletedBookmarkIsInvisible(st: Store, entity: Bookmark, labelId: int)
    requires WellKeyed(st)
    ensures var next := DeleteBookmark(st, entity);
            && BookmarkById(next, entity.id).None?
            && LabelsForBookmark(next, entity.id) == {}
            && (forall b :: b in BookmarksWithLabel(next, labelId) ==> b.id != entity.id)
            && (forall b :: b in AllBookmarks(next) ==> b.id != entity.id)
  {
    var next := DeleteBookmark(st, entity);
    RowIds.NoElementsMeansEmpty(LabelsForBookmark(next, entity.id));
  }

  /** Without a cascade, deleting a bookmark keeps referential integrity
      exactly when no association names it. */
  lemma DeleteBookmarkIntegrity(st: Store, entity: Bookmark)
    requires WellKeyed(st) && ReferentialIntegrity(st)
    ensures ReferentialIntegrity(DeleteBookmark(st, entity)) <==>
            forall p :: p in st.links ==> p.bookmarkId != entity.id
  {
  }

  // ------------------------------------------------------------------- labels

  /** `insert(Label)`: stores the entity under the id it is assigned and
      returns that id. Fails when the entity names an id already taken. */
  function InsertLabel(st: Store, entity: Label): (r: Result<(Store, int)>)
    requires WellKeyed(st)
    ensures r.Err? <==> entity.id != 0 && entity.id in st.labels
    ensures r.Ok? ==>
              var (next, id) := r.value;
              && id !in st.labels
              && (entity.id != 0 ==> id == entity.id)
              && WellKeyed(next)
              && AllLabels(next) == AllLabels(st) + {entity.(id := id)}
              && next.bookmarks == st.bookmarks && next.links == st.links
  {
    match RowIds.AssignId(st.labels.Keys, entity.id)
    case None => Err(ConstraintViolation)
    case Some(id) =>
      var row := entity.(id := id);
      var next := st.(labels := st.labels[id := row]);
      AllLabelsAfterPut(st, id, row);
      Ok((next, id))
  }

  /** `update(Label)`: replaces the row whose id is the entity's id. */
  function UpdateLabel(st: Store, entity: Label): (next: Store)
    requires WellKeyed(st)
    ensures WellKeyed(next)
    ensures entity.id in st.labels ==> entity in AllLabels(next)
    ensures entity.id !in st.labels ==> next == st
    ensures next.labels.Keys == st.labels.Keys
    ensures forall k :: k in st.labels && k != entity.id ==> next.labels[k] == st.labels[k]
    ensures next.bookmarks == st.bookmarks && next.links == st.links
  {
    if entity.id in st.labels then
      var next := st.(labels := st.labels[entity.id := entity]);
      assert next.labels[entity.id] == entity;
      next
    else st
  }

  /** `delete(Label)`: removes the row whose id is the entity's id. With no
      cascading or enforced foreign key assumed, its associations stay. */
  function DeleteLabel(st: Store, entity: Label): (next: Store)
    requires WellKeyed(st)
    ensures WellKeyed(next)
    ensures next.labels.Keys == st.labels.Keys - {entity.id}
    ensures forall k :: k in next.labels ==> next.labels[k] == st.labels[k]
    ensures next.bookmarks == st.bookmarks && next.links == st.links
  {
    st.(labels := st.labels - {entity.id})
  }

  /** Deleting the label an insert just added gives back the store. */
  lemma InsertThenDeleteLabelRestores(st: Store, entity: Label)
    requires WellKeyed(st)
    requires InsertLabel(st, entity).Ok?
    ensures var (next, id) := InsertLabel(st, entity).value;
            DeleteLabel(next, entity.(id := id)) == st
  {
    var id := RowIds.AssignId(st.labels.Keys, entity.id).value;
    var row := entity.(id := id);
    assert InsertLabel(st, entity) == Ok((st.(labels := st.labels[id := row]), id));
    assert st.labels[id := row] - {id} == st.labels;
  }

  /** After a delete the label returns no bookmarks and is no bookmark's label. */
  lemma DeletedLabelIsInvisible(st: Store, entity: Label, bookmarkId: int)
    requires WellKeyed(st)
    ensures var next := DeleteLabel(st, entity);
            && BookmarksWithLabel(next, entity.id) == {}
            && (forall l :: l in LabelsForBookmark(next, bookmarkId) ==> l.id != entity.id)
  {
    var next := DeleteLabel(st, entity);
    RowIds.NoElementsMeansEmpty(BookmarksWithLabel(next, entity.id));
  }

  // ------------------------------------------------------------- associations

  /** No element of the list occurs twice. */
  predicate Distinct<T(==)>(s: seq<T>) {
    forall i, j :: 0 <= i < j < |s| ==> s[i] != s[j]
  }

  /** A list without repeats has as many distinct elements as entries. */
  lemma {:induction false} DistinctListedSize<T>(s: seq<T>)
    requires Distinct(s)
    ensures |Listed(s)| == |s|
  {
    if s != [] {
      var init := s[..|s| - 1];
      assert Distinct(init);
      DistinctListedSize(init);
      assert s == init + [s[|s| - 1]];
      assert Listed(s) == Listed(init) + {s[|s| - 1]};
      assert s[|s| - 1] !in Listed(init);
    } else {
      assert Listed(s) == {};
    }
  }

  /** `insert(BookmarkToLabel)`: adds one association. The pair is the key,
      so inserting a present pair fails. With no enforced foreign key
      assumed, a pair naming a missing bookmark or label is accepted. */
  function InsertLink(st: Store, entity: BookmarkToLabel): (r: Result<Store>)
    ensures r.Err? <==> entity in st.links
    ensures r.Ok? ==> r.value.links == st.links + {entity} && |r.value.links| == |st.links| + 1
    ensures r.Ok? ==> r.value.bookmarks == st.bookmarks && r.value.labels == st.labels
  {
    if entity in st.links then Err(ConstraintViolation)
    else Ok(st.(links := st.links + {entity}))
  }

  /** Deleting an association just inserted removes one row and gives back
      the store. */
  lemma InsertThenDeleteLinkRestores(st: Store, entity: BookmarkToLabel)
    requires InsertLink(st, entity).Ok?
    ensures DeleteLink(InsertLink(st, entity).value, entity) == (st, 1)
  {
    assert (st.links + {entity}) - {entity} == st.links;
  }

  /** `insert(List<BookmarkToLabel>)`: adds every association of the list in
      one transaction; a key conflict with the table or within the list
      fails the whole batch and nothing is added. As for one association,
      pairs naming missing rows are accepted. */
  function InsertLinks(st: Store, entities: seq<BookmarkToLabel>): (r: Result<Store>)
    ensures r.Err? <==> !Distinct(entities) || exists p :: p in entities && p in st.links
    ensures r.Ok? ==> r.value.links == st.links + Listed(entities)
    ensures r.Ok? ==> |r.value.links| == |st.links| + |entities|
    ensures r.Ok? ==> r.value.bookmarks == st.bookmarks && r.value.labels == st.labels
  {
    if !Distinct(entities) || exists p :: p in entities && p in st.links then Err(ConstraintViolation)
    else
      DistinctListedSize(entities);
      Ok(st.(links := st.links + Listed(entities)))
  }

  /** Inserting associations whose ends exist keeps referential integrity. */
  lemma InsertLinksKeepsIntegrity(st: Store, entities: seq<BookmarkToLabel>)
    requires ReferentialIntegrity(st)
    requires forall p :: p in entities ==> p.bookmarkId in st.bookmarks && p.labelId in st.labels
    requires InsertLinks(st, entities).Ok?
    ensures ReferentialIntegrity(InsertLinks(st, entities).value)
  {
  }

  /** After a successful batch insert, deleting the same list (the effect
      `DeleteLinks` states) removes one row per listed pair and gives back
      the association table. Meanwhile, with both ends stored, each listed
      pair's label is among its bookmark's labels. */
  lemma BatchInsertThenDeleteRestores(st: Store, entities: seq<BookmarkToLabel>)
    requires WellKeyed(st)
    requires InsertLinks(st, entities).Ok?
    ensures var next := InsertLinks(st, entities).value;
            && next.links - Listed(entities) == st.links
            && |next.links * Listed(entities)| == |entities|
            && forall p :: p in entities && p.bookmarkId in st.bookmarks && p.labelId in st.labels ==>
                 st.labels[p.labelId] in LabelsForBookmark(next, p.bookmarkId)
  {
    var next := InsertLinks(st, entities).value;
    assert next.links * Listed(entities) == Listed(entities);
    DistinctListedSize(entities);
  }

  /** `delete(BookmarkToLabel)`: removes one association and returns how many
      rows went: 1 when the pair was stored, 0 otherwise. */
  function DeleteLink(st: Store, entity: BookmarkToLabel): (r: (Store, nat))
    ensures r.0.links == st.links - {entity}
    ensures r.1 == |st.links| - |r.0.links|
    ensures r.1 == 1 <==> entity in st.links
    ensures r.1 <= 1
    ensures r.0.bookmarks == st.bookmarks && r.0.labels == st.labels
  {
    if entity in st.links then (st.(links := st.links - {entity}), 1) else (st, 0)
  }

  /** One more deleted pair: the remaining table loses it, and the count of
      removed rows grows by one exactly when it was still there. */
  lemma DeleteLinksStep<T>(table: set<T>, entities: seq<T>, i: nat)
    requires i < |entities|
    ensures (table - Listed(entities[..i])) - {entities[i]} == table - Listed(entities[..i + 1])
    ensures |table * Listed(entities[..i + 1])|
         == |table * Listed(entities[..i])| + (if entities[i] in table - Listed(entities[..i]) then 1 else 0)
  {
    var p := entities[i];
    var before := Listed(entities[..i]);
    assert entities[..i + 1] == entities[..i] + [p];
    assert Listed(entities[..i + 1]) == before + {p};
    if p in table - before {
      assert table * (before + {p}) == (table * before) + {p};
    } else {
      assert table * (before + {p}) == table * before;
    }
  }

  /** A set splits into the part outside and the part inside another set. */
  lemma SplitSize<T>(a: set<T>, b: set<T>)
    ensures |a| == |a - b| + |a * b|
  {
    assert a == (a - b) + (a * b);
  }

  /** `delete(List<BookmarkToLabel>)`: deletes each listed association in
      turn and returns the total row count: the number of distinct listed
      pairs that were stored. Every other association is kept. */
  method DeleteLinks(st: Store, entities: seq<BookmarkToLabel>) returns (next: Store, count: nat)
    ensures next.links == st.links - Listed(entities)
    ensures count == |st.links * Listed(entities)|
    ensures count == |st.links| - |next.links|
    ensures next.bookmarks == st.bookmarks && next.labels == st.labels
  {
    next := st;
    count := 0;
    var i := 0;
    while i < |entities|
      invariant 0 <= i <= |entities|
      invariant next.links == st.links - Listed(entities[..i])
      invariant count == |st.links * Listed(entities[..i])|
      invariant next.bookmarks == st.bookmarks && next.labels == st.labels
    {
      DeleteLinksStep(st.links, entities, i);
      var step := DeleteLink(next, entities[i]);
      next := step.0;
      count := count + step.1;
      i := i + 1;
    }
    assert entities[..i] == entities;
    SplitSize(st.links, Listed(entities));
  }

  /** A batch insert followed by a batch delete of the same list, run
      through `DeleteLinks` itself: one row per pair is counted and the
      store is back where it started. */
  method InsertThenDeleteLinks(st: Store, entities: seq<BookmarkToLabel>) returns (next: Store, count: nat)
    requires InsertLinks(st, entities).Ok?
    ensures next == st
    ensures count == |entities|
  {
    var inserted := InsertLinks(st, entities).value;
    next, count := DeleteLinks(inserted, entities);
    assert inserted.links * Listed(entities) == Listed(entities);
    DistinctListedSize(entities);
    assert next.links == st.links;
  }
}
