/** The three tables of the bookmark database and the in-memory store that
    holds them. */
module Entities {
  import RowIds

  /** The name under which a style other than SPEAK is stored. The model
      assumes the column holds the enumeration constant's name, as the
      `'SPEAK'` literal of the SPEAK-label query expects; then no other style
      is stored as "SPEAK". */
  type OtherStyleName = s: string | s != "SPEAK" witness ""

  /** The style tag of a label. Only the reserved SPEAK style is read by a
      query; every other constant of the enumeration is assumed kept by its name. */
  datatype BookmarkStyle = Speak | Other(styleName: OtherStyleName)

  /** A bookmark row: an inclusive range of canonical (KJV) verse ordinals and
      its creation time in milliseconds. `payload` stands for the remaining
      columns, which no query reads. */
  datatype Bookmark = Bookmark(
    id: int,
    kjvOrdinalStart: int,
    kjvOrdinalEnd: int,
    createdAt: int,
    payload: string)

  /** A label row. Names need not be unique. */
  datatype Label = Label(id: int, name: string, bookmarkStyle: BookmarkStyle)

  /** A row of the association table; the pair is its whole key. */
  datatype BookmarkToLabel = BookmarkToLabel(bookmarkId: int, labelId: int)

  /** The database. Each entity table maps a primary key to its row. */
  datatype Store = Store(
    bookmarks: map<int, Bookmark>,
    labels: map<int, Label>,
    links: set<BookmarkToLabel>)

  /** A database with no rows. */
  const EmptyStore := Store(map[], map[], {})

  /** Every row sits under its own id column. All operations keep this. */
  predicate WellKeyed(st: Store) {
    && (forall k :: k in st.bookmarks ==> st.bookmarks[k].id == k)
    && (forall k :: k in st.labels ==> st.labels[k].id == k)
  }

  /** Every association names a label that exists. */
  predicate LinksNameExistingLabels(st: Store) {
    forall p :: p in st.links ==> p.labelId in st.labels
  }

  /** Referential integrity of the association table: both ends of every
      pair exist. The model assumes a schema whose deletes neither cascade
      to nor are blocked by associations, so this is an invariant the
      callers keep, not one the DAO enforces. */
  predicate ReferentialIntegrity(st: Store) {
    forall p :: p in st.links ==> p.bookmarkId in st.bookmarks && p.labelId in st.labels
  }

  /** No bookmark starts at a negative ordinal. */
  predicate StartsNonNegative(st: Store) {
    forall k :: k in st.bookmarks ==> 0 <= st.bookmarks[k].kjvOrdinalStart
  }

  /** Canonical ordinals count verses from the start of the Bible, so they
      are never negative. */
  predicate OrdinalsNonNegative(st: Store) {
    forall k :: k in st.bookmarks ==> 0 <= st.bookmarks[k].kjvOrdinalStart && 0 <= st.bookmarks[k].kjvOrdinalEnd
  }

  /** Every bookmark range runs forwards. */
  predicate RangesOrdered(st: Store) {
    forall k :: k in st.bookmarks ==> st.bookmarks[k].kjvOrdinalStart <= st.bookmarks[k].kjvOrdinalEnd
  }

  /** The empty database satisfies the store invariants. */
  lemma EmptyStoreIsValid()
    ensures WellKeyed(EmptyStore) && ReferentialIntegrity(EmptyStore)
  {
  }

  /** The set of elements of a list. */
  function Listed<T>(s: seq<T>): set<T> {
    set x | x in s
  }

  /** A map takes distinct keys to distinct values, so the values of a set
      of keys are as many as the keys. */
  lemma {:induction false} InjectiveImageSize<T>(m: map<int, T>, keys: set<int>)
    requires keys <= m.Keys
    requires forall j, k :: j in keys && k in keys && m[j] == m[k] ==> j == k
    ensures |set k | k in keys :: m[k]| == |keys|
    decreases keys
  {
    if keys != {} {
      var k := RowIds.PickOne(keys);
      var rest := keys - {k};
      InjectiveImageSize(m, rest);
      var restValues := set j | j in rest :: m[j];
      assert (set j | j in keys :: m[j]) == restValues + {m[k]};
      assert m[k] !in restValues;
    } else {
      ImageOfNoKeys(m, keys);
    }
  }

  /** No keys, no values. */
  lemma ImageOfNoKeys<T>(m: map<int, T>, keys: set<int>)
    requires keys <= m.Keys
    ensures keys == {} ==> |set k | k in keys :: m[k]| == 0
  {
    RowIds.NoElementsMeansEmpty(set k | k in keys :: m[k]);
  }

  /** In a well-keyed store no two ids hold the same row. */
  lemma RowCounts(st: Store)
    ensures WellKeyed(st) ==> |set k | k in st.bookmarks :: st.bookmarks[k]| == |st.bookmarks.Keys|
    ensures WellKeyed(st) ==> |set k | k in st.labels :: st.labels[k]| == |st.labels.Keys|
  {
    if WellKeyed(st) {
      InjectiveImageSize(st.bookmarks, st.bookmarks.Keys);
      InjectiveImageSize(st.labels, st.labels.Keys);
    }
  }

  /** `allBookmarks`: the rows of the Bookmark table, order aside. Every
      stored row comes back, once. */
  function AllBookmarks(st: Store): (r: set<Bookmark>)
    ensures forall k :: k in st.bookmarks ==> st.bookmarks[k] in r
    ensures WellKeyed(st) ==> |r| == |st.bookmarks.Keys|
  {
    RowCounts(st);
    set k | k in st.bookmarks :: st.bookmarks[k]
  }

  /** `allLabelsSortedByName`: the rows of the Label table, order aside.
      Every stored row comes back, once. */
  function AllLabels(st: Store): (r: set<Label>)
    ensures forall k :: k in st.labels ==> st.labels[k] in r
    ensures WellKeyed(st) ==> |r| == |st.labels.Keys|
  {
    RowCounts(st);
    set k | k in st.labels :: st.labels[k]
  }

  /** Putting a row under a fresh key adds exactly that row to the table. */
  lemma AllBookmarksAfterPut(st: Store, id: int, row: Bookmark)
    requires id !in st.bookmarks
    ensures AllBookmarks(st.(bookmarks := st.bookmarks[id := row])) == AllBookmarks(st) + {row}
  {
    var next := st.(bookmarks := st.bookmarks[id := row]);
    forall b | b in AllBookmarks(next) ensures b in AllBookmarks(st) + {row} {
      var k :| k in next.bookmarks && next.bookmarks[k] == b;
      if k != id {
        assert st.bookmarks[k] == b;
      }
    }
    forall b | b in AllBookmarks(st) + {row} ensures b in AllBookmarks(next) {
      if b == row {
        assert next.bookmarks[id] == b;
      } else {
        var k :| k in st.bookmarks && st.bookmarks[k] == b;
        assert next.bookmarks[k] == b;
      }
    }
  }

  /** Putting a row under a fresh key adds exactly that row to the table. */
  lemma AllLabelsAfterPut(st: Store, id: int, row: Label)
    requires id !in st.labels
    ensures AllLabels(st.(labels := st.labels[id := row])) == AllLabels(st) + {row}
  {
    var next := st.(labels := st.labels[id := row]);
    forall l | l in AllLabels(next) ensures l in AllLabels(st) + {row} {
      var k :| k in next.labels && next.labels[k] == l;
      if k != id {
        assert st.labels[k] == l;
      }
    }
    forall l | l in AllLabels(st) + {row} ensures l in AllLabels(next) {
      if l == row {
        assert next.labels[id] == l;
      } else {
        var k :| k in st.labels && st.labels[k] == l;
        assert next.labels[k] == l;
      }
    }
  }

  /** In a well-keyed store a bookmark row is found under its own id. */
  lemma StoredBookmarkIsKeyedById(st: Store, b: Bookmark)
    requires WellKeyed(st)
    ensures b in AllBookmarks(st) <==> b.id in st.bookmarks && st.bookmarks[b.id] == b
  {
  }

  /** In a well-keyed store a label row is found under its own id. */
  lemma StoredLabelIsKeyedById(st: Store, l: Label)
    requires WellKeyed(st)
    ensures l in AllLabels(st) <==> l.id in st.labels && st.labels[l.id] == l
  {
  }
}
