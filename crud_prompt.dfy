/** `CRUDPrompt`: the generic repository over the `prompts` table, plus
    creation with an owner and listing by owner. */
module PromptCrud {
  import opened Common
  import opened Crud
  import opened PromptModel
  import opened PromptSchemas

  /** The record `create_with_owner` builds, before the database gives it an
      id: every column of `Prompt` but the key, with no response yet. */
  function NewPromptRow(objIn: PromptCreate, userId: int): (r: Row)
    ensures "id" !in r && r.Keys + {"id"} == PromptColumns
    ensures r["response"] == Null
  {
    map["prompt" := Str(objIn.prompt), "user_id" := Int(userId), "response" := Null]
  }

  /** `create_with_owner`: one new prompt holding the input's text, the given
      owner and no response. The owner id is not checked. */
  method CreateWithOwner(t: Table, objIn: PromptCreate, userId: int) returns (dbObj: Row)
    requires t.Valid()
    modifies t
    ensures t.Valid() && t.nextId == old(t.nextId) + 1
    ensures t.rows == old(t.rows) + [dbObj]
    ensures IsPromptRow(dbObj) && dbObj["id"] == Int(old(t.nextId))
    ensures dbObj["prompt"] == Str(objIn.prompt) && dbObj["user_id"] == Int(userId)
    ensures dbObj["response"] == Null
    ensures dbObj == NewPromptRow(objIn, userId)["id" := Int(old(t.nextId))]
  {
    dbObj := t.Create(NewPromptRow(objIn, userId));
    assert dbObj.Keys == PromptColumns;
  }

  /** The filter `Prompt.user_id == user_id`, in table order. */
  function OwnedBy(rows: seq<Row>, userId: int): (out: seq<Row>)
    ensures forall r :: r in out <==> r in rows && Matches(r, "user_id", Int(userId))
    ensures |out| <= |rows|
  {
    if rows == [] then []
    else if Matches(rows[0], "user_id", Int(userId)) then [rows[0]] + OwnedBy(rows[1..], userId)
    else OwnedBy(rows[1..], userId)
  }

  /** `get_multi_by_owner`: at most `limit` prompts of that owner, from the
      table's records. */
  function GetMultiByOwner(rows: seq<Row>, userId: int, skip: nat, limit: nat): (page: seq<Row>)
    ensures |page| <= limit
    ensures skip >= |OwnedBy(rows, userId)| ==> page == []
    ensures skip < |OwnedBy(rows, userId)| ==> |page| == Min(limit, |OwnedBy(rows, userId)| - skip)
    ensures forall i :: 0 <= i < |page| ==> page[i] in rows && Matches(page[i], "user_id", Int(userId))
    ensures forall i :: 0 <= i < |page| ==>
      skip + i < |OwnedBy(rows, userId)| && page[i] == OwnedBy(rows, userId)[skip + i]
  {
    var owned := OwnedBy(rows, userId);
    var page := GetMulti(owned, skip, limit);
    assert forall i :: 0 <= i < |page| ==> page[i] in owned;
    page
  }

  // ---------------------------------------------------------------------
  // Lemmas

  /** Filtering keeps table order: the owner's records of two stretches of
      the table are those of the first followed by those of the second. */
  lemma {:induction false} OwnedByAppend(a: seq<Row>, b: seq<Row>, userId: int)
    ensures OwnedBy(a + b, userId) == OwnedBy(a, userId) + OwnedBy(b, userId)
  {
    if a == [] {
      assert a + b == b;
    } else {
      assert (a + b)[0] == a[0];
      assert (a + b)[1..] == a[1..] + b;
      OwnedByAppend(a[1..], b, userId);
    }
  }

  /** The page of one owner is exactly the `skip`-offset slice of that
      owner's records, in table order, so consecutive pages tile them. */
  lemma OwnerPages(rows: seq<Row>, userId: int, skip: nat, a: nat, b: nat)
    ensures GetMultiByOwner(rows, userId, skip, a) + GetMultiByOwner(rows, userId, skip + a, b)
         == GetMultiByOwner(rows, userId, skip, a + b)
    ensures GetMultiByOwner(rows, userId, 0, |rows|) == OwnedBy(rows, userId)
  {
    GetMultiAdjacent(OwnedBy(rows, userId), skip, a, b);
    var owned := OwnedBy(rows, userId);
    assert GetMulti(owned, 0, |rows|) == owned[0..|owned|];
  }

  /** Because the owner is not checked, creating a prompt keeps the foreign
      key exactly when the given owner is a stored user. */
  lemma CreateWithOwnerForeignKey(prompts: seq<Row>, users: seq<Row>, objIn: PromptCreate, userId: int, id: int)
    requires PromptTable(prompts) && OwnersExist(prompts, users)
    ensures var r := NewPromptRow(objIn, userId)["id" := Int(id)];
      && PromptTable(prompts + [r])
      && (OwnersExist(prompts + [r], users) <==> Get(users, userId).Some?)
  {
    var r := NewPromptRow(objIn, userId)["id" := Int(id)];
    assert r.Keys == PromptColumns;
    var all := prompts + [r];
    assert all[|prompts|] == r;
    assert forall i :: 0 <= i < |prompts| ==> all[i] == prompts[i];
  }
}
