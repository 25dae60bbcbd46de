/** Row identifiers: the largest and smallest id of a table, and how an insert
    picks the id of its new row. */
module RowIds {
  import opened Results

  /** A set without elements is the empty set. */
  lemma NoElementsMeansEmpty<T>(s: set<T>)
    ensures (forall e :: e !in s) ==> s == {}
  {
    if forall e :: e !in s {
      assert forall e :: e in s <==> e in {};
    }
  }

  /** Some element of a non-empty set. */
  lemma PickOne<T>(s: set<T>) returns (y: T)
    requires s != {}
    ensures y in s
  {
    NoElementsMeansEmpty(s);
    var e :| e in s;
    y := e;
  }

  lemma {:induction false} MaxExists(s: set<int>)
    requires s != {}
    ensures exists m :: m in s && forall x :: x in s ==> x <= m
  {
    var y := PickOne(s);
    if s != {y} {
      MaxExists(s - {y});
      assert forall x :: x in s ==> x == y || x in s - {y};
      var m :| m in s - {y} && forall x :: x in s - {y} ==> x <= m;
      if y > m {
        assert forall x :: x in s ==> x <= y;
      } else {
        assert forall x :: x in s ==> x <= m;
      }
    } else {
      assert forall x :: x in s ==> x <= y;
    }
  }

  lemma {:induction false} MinExists(s: set<int>)
    requires s != {}
    ensures exists m :: m in s && forall x :: x in s ==> m <= x
  {
    var y := PickOne(s);
    if s != {y} {
      MinExists(s - {y});
      assert forall x :: x in s ==> x == y || x in s - {y};
      var m :| m in s - {y} && forall x :: x in s - {y} ==> m <= x;
      if y < m {
        assert forall x :: x in s ==> y <= x;
      } else {
        assert forall x :: x in s ==> m <= x;
      }
    } else {
      assert forall x :: x in s ==> y <= x;
    }
  }

  /** The largest element of a non-empty set of ids. */
  function Max(s: set<int>): (m: int)
    requires s != {}
    ensures m in s
    ensures forall x :: x in s ==> x <= m
  {
    MaxExists(s);
    var m :| m in s && forall x :: x in s ==> x <= m;
    m
  }

  /** The smallest element of a non-empty set of ids: the row a scan in
      rowid order meets first. */
  function Min(s: set<int>): (m: int)
    requires s != {}
    ensures m in s
    ensures forall x :: x in s ==> m <= x
  {
    MinExists(s);
    var m :| m in s && forall x :: x in s ==> m <= x;
    m
  }

  /** The id SQLite gives a row inserted without one: one more than the
      largest id in the table, or 1 when the table is empty. */
  function NextId(keys: set<int>): (id: int)
    ensures id !in keys
    ensures forall k :: k in keys ==> k < id
    ensures keys == {} ==> id == 1
  {
    if keys == {} then 1 else Max(keys) + 1
  }

  /** The id an insert of a row whose id column is `requested` ends up with:
      0 means "not set" and a fresh id is generated; any other id is kept,
      and the insert aborts when a row with that id already exists. */
  function AssignId(keys: set<int>, requested: int): (r: Option<int>)
    ensures r.None? <==> requested != 0 && requested in keys
    ensures r.Some? ==> r.value !in keys
    ensures r.Some? && requested != 0 ==> r.value == requested
  {
    if requested == 0 then Some(NextId(keys))
    else if requested in keys then None
    else Some(requested)
  }
}
