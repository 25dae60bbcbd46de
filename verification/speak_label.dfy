/** The reserved SPEAK label: the lookup, and get-or-create on top of it. */
module SpeakLabels {
  import opened Results
  import opened Entities
  import opened Mutations
  import RowIds

  /** The ids of the labels whose style is SPEAK. */
  function SpeakLabelIds(st: Store): set<int> {
    set k | k in st.labels && st.labels[k].bookmarkStyle == Speak
  }

  /** At most one label carries the SPEAK style. */
  predicate AtMostOneSpeakLabel(st: Store) {
    forall j, k :: j in SpeakLabelIds(st) && k in SpeakLabelIds(st) ==> j == k
  }

  /** Without SPEAK ids, no stored label has the SPEAK style. */
  lemma NoSpeakIdsNoSpeakLabel(st: Store)
    requires SpeakLabelIds(st) == {}
    ensures forall l :: l in AllLabels(st) ==> l.bookmarkStyle != Speak
  {
    forall l | l in AllLabels(st) ensures l.bookmarkStyle != Speak {
      var k :| k in st.labels && st.labels[k] == l;
      assert k !in SpeakLabelIds(st);
    }
  }

  /** `speakLabel`: a label with the SPEAK style, or none when there is none.
      The query ends in `LIMIT 1` without an ordering, so any such label may
      come back; the model returns the one with the lowest id, which a scan of
      the table in rowid order meets first. */
  function SpeakLabel(st: Store): (r: Option<Label>)
    ensures r.Some? ==> r.value in AllLabels(st) && r.value.bookmarkStyle == Speak
    ensures r.None? <==> forall l :: l in AllLabels(st) ==> l.bookmarkStyle != Speak
  {
    var ids := SpeakLabelIds(st);
    if ids == {} then
      NoSpeakIdsNoSpeakLabel(st);
      None
    else
      var id := RowIds.Min(ids);
      assert st.labels[id] in AllLabels(st);
      Some(st.labels[id])
  }

  /** `getOrCreateSpeakLabel`: the SPEAK label if there is one; otherwise a
      new label with an empty name and the SPEAK style, inserted without an
      id so that it gets a fresh one. */
  function GetOrCreateSpeakLabel(st: Store): (r: (Store, Label))
    requires WellKeyed(st)
    ensures r.1.bookmarkStyle == Speak
    ensures WellKeyed(r.0) && r.1 in AllLabels(r.0)
    ensures SpeakLabel(st).Some? ==> r.0 == st && r.1 == SpeakLabel(st).value
    ensures SpeakLabel(st).None? ==>
              && r.1.name == ""
              && r.1.id !in st.labels
              && r.0.labels == st.labels[r.1.id := r.1]
              && AllLabels(r.0) == AllLabels(st) + {r.1}
              && r.0.bookmarks == st.bookmarks && r.0.links == st.links
  {
    match SpeakLabel(st)
    case Some(l) => (st, l)
    case None =>
      var unsaved := Label(0, "", Speak);
      var (next, id) := InsertLabel(st, unsaved).value;
      var saved := unsaved.(id := id);
      assert next.labels == st.labels[id := saved];
      (next, saved)
  }

  /** A second call finds the label the first one returned or created: same
      id, and the store does not change. */
  lemma GetOrCreateSpeakLabelTwice(st: Store)
    requires WellKeyed(st)
    ensures var (once, first) := GetOrCreateSpeakLabel(st);
            var (twice, second) := GetOrCreateSpeakLabel(once);
            twice == once && second.id == first.id
  {
    var (once, first) := GetOrCreateSpeakLabel(st);
    var (twice, second) := GetOrCreateSpeakLabel(once);
    if SpeakLabel(st).None? {
      assert second in AllLabels(st) + {first};
    }
  }

  /** When no SPEAK label exists, the created one is the only one after. */
  lemma CreatedSpeakLabelIsOnlyOne(st: Store)
    requires WellKeyed(st)
    requires SpeakLabel(st).None?
    ensures var (next, got) := GetOrCreateSpeakLabel(st);
            SpeakLabelIds(next) == {got.id}
  {
    var (next, got) := GetOrCreateSpeakLabel(st);
    forall k | k in st.labels ensures st.labels[k].bookmarkStyle != Speak {
      assert st.labels[k] in AllLabels(st);
    }
    assert next.labels == st.labels[got.id := got];
  }

  /** When a SPEAK label exists and is the only one, it is the one found. */
  lemma FoundSpeakLabelIsOnlyOne(st: Store)
    requires WellKeyed(st)
    requires AtMostOneSpeakLabel(st)
    requires SpeakLabel(st).Some?
    ensures var (next, got) := GetOrCreateSpeakLabel(st);
            SpeakLabelIds(next) == {got.id}
  {
    var got := SpeakLabel(st).value;
    StoredLabelIsKeyedById(st, got);
    assert got.id in SpeakLabelIds(st);
  }

  /** Get-or-create never makes a second SPEAK label: afterwards the returned
      label is the only one, when there was at most one before. */
  lemma GetOrCreateKeepsSpeakLabelUnique(st: Store)
    requires WellKeyed(st)
    requires AtMostOneSpeakLabel(st)
    ensures var (next, got) := GetOrCreateSpeakLabel(st);
            SpeakLabelIds(next) == {got.id}
  {
    if SpeakLabel(st).None? {
      CreatedSpeakLabelIsOnlyOne(st);
    } else {
      FoundSpeakLabelIsOnlyOne(st);
    }
  }
}
