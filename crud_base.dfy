/** The generic repository `CRUDBase` over one table of the database.

    The session's table is a `Table` object: its `rows` in storage order and
    the next value of the auto-increment primary key. The queries of the
    repository (`get`, `get_multi`) are functions of the rows; `create`,
    `update` and `remove` are methods that change the table. */
module Crud {
  import opened Common

  /** The filter `column == v` on one record. */
  predicate Matches(r: Row, key: string, v: Value) {
    key in r && r[key] == v
  }

  predicate HasId(r: Row) {
    "id" in r && r["id"].Int?
  }

  function IdOf(r: Row): int
    requires HasId(r)
  {
    r["id"].i
  }

  predicate AllHaveIds(rows: seq<Row>) {
    forall i :: 0 <= i < |rows| ==> HasId(rows[i])
  }

  /** The primary-key invariant: every record has an integer id, and no two
      records share one. */
  predicate UniqueIds(rows: seq<Row>) {
    && AllHaveIds(rows)
    && forall i, j :: 0 <= i < j < |rows| ==> IdOf(rows[i]) != IdOf(rows[j])
  }

  /** `query(model).filter(model.key == v).first()`. Without an `order_by`
      the database may return any matching record, so the contract promises
      a matching one and no more. */
  function First(rows: seq<Row>, key: string, v: Value): (r: Option<Row>)
    ensures r.Some? ==> r.value in rows && Matches(r.value, key, v)
    ensures r.None? <==> forall i :: 0 <= i < |rows| ==> !Matches(rows[i], key, v)
  {
    if rows == [] then None
    else if Matches(rows[0], key, v) then Some(rows[0])
    else First(rows[1..], key, v)
  }

  /** `CRUDBase.get`: the record with primary key `id`, if there is one. */
  function Get(rows: seq<Row>, id: int): (r: Option<Row>)
    ensures r.Some? ==> r.value in rows && HasId(r.value) && IdOf(r.value) == id
    ensures r.None? <==> forall i :: 0 <= i < |rows| ==> !(HasId(rows[i]) && IdOf(rows[i]) == id)
  {
    First(rows, "id", Int(id))
  }

  /** `CRUDBase.get_multi`: `offset(skip).limit(limit)` over the rows in
      storage order. */
  function GetMulti(rows: seq<Row>, skip: nat, limit: nat): (page: seq<Row>)
    ensures |page| <= limit
    ensures skip >= |rows| ==> page == []
    ensures skip < |rows| ==> |page| == Min(limit, |rows| - skip)
    ensures |page| > 0 ==> skip + |page| <= |rows|
    ensures forall i :: 0 <= i < |page| ==> skip + i < |rows| && page[i] == rows[skip + i]
  {
    if skip >= |rows| then [] else rows[skip..Min(skip + limit, |rows|)]
  }

  /** The record after `setattr(db_obj, field, data[field])` for every
      attribute `field` of the record that `data` holds. */
  function Overwrite(obj: Row, data: Row): (r: Row)
    ensures r.Keys == obj.Keys
  {
    map field | field in obj :: if field in data then data[field] else obj[field]
  }

  /** The table once the session has written a modified record back over the
      stored record with the same primary key. */
  function Put(rows: seq<Row>, r: Row): (out: seq<Row>)
    requires AllHaveIds(rows) && HasId(r)
    ensures |out| == |rows|
    ensures forall i :: 0 <= i < |rows| ==> out[i] == rows[i] || out[i] == r
  {
    seq(|rows|, i requires 0 <= i < |rows| => if IdOf(rows[i]) == IdOf(r) then r else rows[i])
  }

  /** The table once the session has deleted the record with primary key `id`. */
  function Delete(rows: seq<Row>, id: int): (out: seq<Row>)
    ensures forall r :: r in out ==> r in rows && !(HasId(r) && IdOf(r) == id)
    ensures forall r :: r in rows && !(HasId(r) && IdOf(r) == id) ==> r in out
    ensures |out| <= |rows|
  {
    if rows == [] then []
    else if HasId(rows[0]) && IdOf(rows[0]) == id then Delete(rows[1..], id)
    else [rows[0]] + Delete(rows[1..], id)
  }

  // ---------------------------------------------------------------------
  // Lemmas about the queries

  /** Under the primary-key invariant, `get` on a stored id finds exactly
      that record. */
  lemma GetUnique(rows: seq<Row>, i: int)
    requires UniqueIds(rows) && 0 <= i < |rows|
    ensures Get(rows, IdOf(rows[i])) == Some(rows[i])
  {
    var r := Get(rows, IdOf(rows[i]));
    assert HasId(rows[i]) && IdOf(rows[i]) == IdOf(rows[i]);
    var j :| 0 <= j < |rows| && rows[j] == r.value;
    assert IdOf(rows[j]) == IdOf(rows[i]);
  }

  /** Two consecutive pages are the page that spans both: pagination neither
      skips nor repeats a record. */
  lemma {:induction false} GetMultiAdjacent(rows: seq<Row>, skip: nat, a: nat, b: nat)
    ensures GetMulti(rows, skip, a) + GetMulti(rows, skip + a, b) == GetMulti(rows, skip, a + b)
  {
    var p, q, w := GetMulti(rows, skip, a), GetMulti(rows, skip + a, b), GetMulti(rows, skip, a + b);
    assert |p| + |q| == |w|;
    forall k | 0 <= k < |w|
      ensures (p + q)[k] == w[k]
    {
      if k < |p| {
        assert (p + q)[k] == p[k];
      } else {
        assert (p + q)[k] == q[k - |p|];
      }
    }
  }

  /** Listing the whole table returns it; the page after it is empty. */
  lemma GetMultiWhole(rows: seq<Row>, n: nat)
    ensures GetMulti(rows, 0, |rows|) == rows
    ensures GetMulti(rows, |rows|, n) == []
  {
  }

  // ---------------------------------------------------------------------
  // Lemmas about writing a record back

  lemma PutKeepsIds(rows: seq<Row>, r: Row)
    requires AllHaveIds(rows) && HasId(r)
    ensures |Put(rows, r)| == |rows|
    ensures AllHaveIds(Put(rows, r))
    ensures forall i :: 0 <= i < |rows| ==> IdOf(Put(rows, r)[i]) == IdOf(rows[i])
  {
  }

  /** Writing a record back changes only the record with its id: `get` finds
      the new version under that id and the old answer under every other. */
  lemma PutGet(rows: seq<Row>, r: Row, id: int)
    requires UniqueIds(rows) && HasId(r) && Get(rows, IdOf(r)).Some?
    ensures UniqueIds(Put(rows, r))
    ensures Get(Put(rows, r), id) == if id == IdOf(r) then Some(r) else Get(rows, id)
  {
    var out := Put(rows, r);
    PutKeepsIds(rows, r);
    assert UniqueIds(out);
    var k :| 0 <= k < |rows| && rows[k] == Get(rows, IdOf(r)).value;
    if id == IdOf(r) {
      assert out[k] == r;
      GetUnique(out, k);
    } else {
      match Get(rows, id)
      case None =>
      case Some(x) =>
        var j :| 0 <= j < |rows| && rows[j] == x;
        assert out[j] == x;
        GetUnique(rows, j);
        GetUnique(out, j);
    }
  }

  /** Every record of the table keeps its attributes and values, except the
      one written back. */
  lemma PutFrame(rows: seq<Row>, r: Row, i: int)
    requires AllHaveIds(rows) && HasId(r) && 0 <= i < |rows|
    ensures IdOf(rows[i]) != IdOf(r) ==> Put(rows, r)[i] == rows[i]
    ensures IdOf(rows[i]) == IdOf(r) ==> Put(rows, r)[i] == r
  {
  }

  // ---------------------------------------------------------------------
  // Lemmas about partial updates

  /** The update keeps the record's attribute set; it overwrites exactly the
      attributes present in the update data and keeps every other value. */
  lemma OverwriteFields(obj: Row, data: Row)
    ensures Overwrite(obj, data).Keys == obj.Keys
    ensures forall f :: f in obj && f in data ==> Overwrite(obj, data)[f] == data[f]
    ensures forall f :: f in obj && f !in data ==> Overwrite(obj, data)[f] == obj[f]
  {
  }

  /** Keys of the update data that are not attributes of the record are
      ignored: dropping them changes nothing. */
  lemma OverwriteIgnoresForeignKeys(obj: Row, data: Row)
    ensures Overwrite(obj, data) == Overwrite(obj, map f | f in data && f in obj :: data[f])
  {
  }

  /** An empty update changes nothing, and applying an update twice is the
      same as applying it once. */
  lemma OverwriteEmptyAndIdempotent(obj: Row, data: Row)
    ensures Overwrite(obj, map[]) == obj
    ensures Overwrite(Overwrite(obj, data), data) == Overwrite(obj, data)
  {
    var once := Overwrite(obj, data);
    assert Overwrite(obj, map[]).Keys == obj.Keys;
    assert Overwrite(once, data).Keys == once.Keys;
  }

  // ---------------------------------------------------------------------
  // Lemmas about deleting

  /** Deleting an id that is not stored leaves the table as it was. */
  lemma {:induction false} DeleteAbsent(rows: seq<Row>, id: int)
    requires Get(rows, id).None?
    ensures Delete(rows, id) == rows
  {
    if rows != [] {
      assert !(HasId(rows[0]) && IdOf(rows[0]) == id);
      assert Get(rows[1..], id).None? by {
        forall i | 0 <= i < |rows[1..]|
          ensures !(HasId(rows[1..][i]) && IdOf(rows[1..][i]) == id)
        {
          assert rows[1..][i] == rows[i + 1];
        }
      }
      DeleteAbsent(rows[1..], id);
      assert rows == [rows[0]] + rows[1..];
    }
  }

  /** The records after the first keep the primary-key invariant, and none
      of them shares the first record's id. */
  lemma TailUnique(rows: seq<Row>)
    requires UniqueIds(rows) && rows != []
    ensures UniqueIds(rows[1..])
    ensures forall r :: r in rows[1..] ==> IdOf(r) != IdOf(rows[0])
  {
    var tail := rows[1..];
    forall i, j | 0 <= i < j < |tail|
      ensures IdOf(tail[i]) != IdOf(tail[j])
    {
      assert tail[i] == rows[i + 1] && tail[j] == rows[j + 1];
    }
    forall r | r in tail
      ensures IdOf(r) != IdOf(rows[0])
    {
      var i :| 0 <= i < |tail| && tail[i] == r;
      assert tail[i] == rows[i + 1];
    }
  }

  /** A record in front of a table with unique ids keeps them unique when
      no record of the table shares its id. */
  lemma ConsUnique(x: Row, d: seq<Row>)
    requires HasId(x) && UniqueIds(d)
    requires forall r :: r in d ==> IdOf(r) != IdOf(x)
    ensures UniqueIds([x] + d)
  {
    var out := [x] + d;
    forall i, j | 0 <= i < j < |out|
      ensures IdOf(out[i]) != IdOf(out[j])
    {
      assert out[j] == d[j - 1] && d[j - 1] in d;
      if i > 0 {
        assert out[i] == d[i - 1];
      }
    }
  }

  /** Deleting keeps the primary-key invariant. */
  lemma {:induction false} DeleteUnique(rows: seq<Row>, id: int)
    requires UniqueIds(rows)
    ensures UniqueIds(Delete(rows, id))
  {
    if rows != [] {
      var tail := rows[1..];
      TailUnique(rows);
      DeleteUnique(tail, id);
      var d := Delete(tail, id);
      if IdOf(rows[0]) != id {
        assert Delete(rows, id) == [rows[0]] + d;
        ConsUnique(rows[0], d);
      }
    }
  }

  /** Deleting a stored id removes exactly one record. */
  lemma {:induction false} DeleteCount(rows: seq<Row>, id: int)
    requires UniqueIds(rows)
    ensures |Delete(rows, id)| == if Get(rows, id).Some? then |rows| - 1 else |rows|
  {
    if rows != [] {
      var tail := rows[1..];
      TailUnique(rows);
      DeleteCount(tail, id);
      assert rows == [rows[0]] + tail;
      if IdOf(rows[0]) == id {
        DeleteAbsent(tail, id);
        assert Get(tail, id).None?;
      } else {
        if Get(tail, id).Some? {
          assert Get(tail, id).value in rows;
        }
        if Get(rows, id).Some? {
          var k :| 0 <= k < |rows| && rows[k] == Get(rows, id).value;
          assert tail[k - 1] == rows[k];
        }
      }
    }
  }

  /** `remove` after `remove` of the same id finds nothing and changes
      nothing: `get` finds no record with a deleted id. */
  lemma RemoveIdempotent(rows: seq<Row>, id: int)
    ensures Get(Delete(rows, id), id).None?
    ensures Delete(Delete(rows, id), id) == Delete(rows, id)
  {
    var d := Delete(rows, id);
    DeleteAbsent(d, id);
  }

  /** Deleting one id leaves `get` of every other id as it was. */
  lemma DeleteFrame(rows: seq<Row>, id: int, other: int)
    requires UniqueIds(rows) && other != id
    ensures Get(Delete(rows, id), other) == Get(rows, other)
  {
    var d := Delete(rows, id);
    DeleteUnique(rows, id);
    match Get(rows, other)
    case None =>
    case Some(x) =>
      var j :| 0 <= j < |rows| && rows[j] == x;
      GetUnique(rows, j);
      assert x in d;
      var k :| 0 <= k < |d| && d[k] == x;
      GetUnique(d, k);
  }

  // ---------------------------------------------------------------------
  // The table

  class Table {
    /** The stored records, in storage order. */
    var rows: seq<Row>
    /** The next value of the auto-increment primary key. */
    var nextId: int

    ghost predicate Valid()
      reads this
    {
      && UniqueIds(rows)
      && 1 <= nextId
      && forall i :: 0 <= i < |rows| ==> 1 <= IdOf(rows[i]) < nextId
    }

    constructor ()
      ensures Valid() && rows == [] && nextId == 1
    {
      rows := [];
      nextId := 1;
    }

    /** `CRUDBase.create`: `db.add` of a new record built from the input
        fields, which the database gives the next primary key. */
    method Create(objIn: Row) returns (dbObj: Row)
      requires Valid() && "id" !in objIn
      modifies this
      ensures Valid()
      ensures dbObj == objIn["id" := Int(old(nextId))]
      ensures rows == old(rows) + [dbObj] && nextId == old(nextId) + 1
      ensures Get(rows, IdOf(dbObj)) == Some(dbObj)
    {
      dbObj := objIn["id" := Int(nextId)];
      rows := rows + [dbObj];
      nextId := nextId + 1;
      GetUnique(rows, |rows| - 1);
    }

    /** `CRUDBase.update`: a sparse overwrite of the stored record `dbObj`,
        one attribute at a time, then committed. */
    method Update(dbObj: Row, objIn: Row) returns (updated: Row)
      requires Valid() && dbObj in rows && "id" !in objIn
      modifies this
      ensures Valid() && nextId == old(nextId)
      ensures updated == Overwrite(dbObj, objIn)
      ensures HasId(updated) && IdOf(updated) == IdOf(dbObj)
      ensures rows == Put(old(rows), updated)
    {
      var fields := dbObj.Keys;
      updated := dbObj;
      while fields != {}
        invariant fields <= dbObj.Keys
        invariant updated.Keys == dbObj.Keys
        invariant forall f :: f in dbObj ==>
          updated[f] == if f in objIn && f !in fields then objIn[f] else dbObj[f]
        decreases fields
      {
        var field :| field in fields;
        if field in objIn {
          updated := updated[field := objIn[field]];
        }
        fields := fields - {field};
      }
      assert updated == Overwrite(dbObj, objIn);
      ghost var k :| 0 <= k < |rows| && rows[k] == dbObj;
      PutGet(rows, updated, IdOf(updated));
      PutKeepsIds(rows, updated);
      rows := Put(rows, updated);
    }

    /** `CRUDBase.remove`: delete the record with primary key `id` and return
        it, or return nothing when there is none. */
    method Remove(id: int) returns (obj: Option<Row>)
      requires Valid()
      modifies this
      ensures Valid() && nextId == old(nextId)
      ensures obj == Get(old(rows), id)
      ensures rows == Delete(old(rows), id)
      ensures obj.None? ==> rows == old(rows)
      ensures obj.Some? ==> |rows| == |old(rows)| - 1 && Get(rows, id).None?
    {
      obj := Get(rows, id);
      DeleteUnique(rows, id);
      DeleteCount(rows, id);
      RemoveIdempotent(rows, id);
      if obj.Some? {
        rows := Delete(rows, id);
      } else {
        DeleteAbsent(rows, id);
      }
    }
  }
}
