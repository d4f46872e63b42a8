/** The `/prompts` endpoints: list, create, read, update and delete, over
    the `prompts` table, with no authorization check. */
module PromptEndpoints {
  import opened Common
  import opened Crud
  import opened Http
  import opened PromptModel
  import opened PromptSchemas
  import opened PromptCrud

  const PromptNotFound := "Prompt not found"

  /** `PromptCreatePayload`: `PromptCreate` plus the owner's id, which the
      client must send. */
  datatype PromptCreatePayload = PromptCreatePayload(prompt: string, userId: int)

  function PromptOuts(page: seq<Row>): seq<PromptOut>
    requires PromptTable(page)
  {
    seq(|page|, i requires 0 <= i < |page| => ToPromptOut(page[i]))
  }

  /** `read_prompts`: a page of at most `limit` prompts of every owner. */
  function ReadPrompts(rows: seq<Row>, skip: Option<int>, limit: Option<int>): (r: Response<seq<PromptOut>>)
    requires PromptTable(rows)
    ensures r.Ok? <==> skip.GetOr(0) >= 0 && 1 <= limit.GetOr(10) <= 100
    ensures r.Error? ==> r == Error(422, ValidationFailed)
    ensures r.Ok? ==> r.status == 200 && |r.body| <= limit.GetOr(10)
    ensures r.Ok? && skip.GetOr(0) >= |rows| ==> r.body == []
    ensures r.Ok? && skip.GetOr(0) < |rows| ==> |r.body| == Min(limit.GetOr(10), |rows| - skip.GetOr(0))
    ensures r.Ok? ==> forall i :: 0 <= i < |r.body| ==>
      skip.GetOr(0) + i < |rows| && r.body[i] == ToPromptOut(rows[skip.GetOr(0) + i])
  {
    match PageParams(skip, limit)
    case Reject(s, d) => Error(s, d)
    case Accept((sk, lim)) =>
      var page := GetMulti(rows, sk, lim);
      assert PromptTable(page) by {
        forall i | 0 <= i < |page|
          ensures IsPromptRow(page[i])
        {
          assert page[i] == rows[sk + i];
        }
      }
      Ok(200, PromptOuts(page))
  }

  /** `create_prompt`: only the prompt text and the payload's owner id are
      stored, the response starts empty, and the owner is not checked. */
  method CreatePrompt(t: Table, payload: PromptCreatePayload) returns (resp: Response<PromptOut>)
    requires t.Valid() && PromptTable(t.rows)
    modifies t
    ensures t.Valid() && PromptTable(t.rows)
    ensures |payload.prompt| < 5 ==>
      resp == Error(422, ValidationFailed) && t.rows == old(t.rows) && t.nextId == old(t.nextId)
    ensures |payload.prompt| >= 5 ==>
      && resp == Ok(201, PromptOut(old(t.nextId), payload.userId, payload.prompt, None))
      && t.rows == old(t.rows) + [NewPromptRow(PromptCreate(payload.prompt), payload.userId)["id" := Int(old(t.nextId))]]
      && t.nextId == old(t.nextId) + 1
  {
    var promptObjIn := PromptCreate(payload.prompt);
    if !ValidPromptCreate(promptObjIn) {
      resp := Error(422, ValidationFailed);
      return;
    }
    ghost var before := t.rows;
    var prompt := CreateWithOwner(t, promptObjIn, payload.userId);
    assert t.rows[|before|] == prompt;
    assert forall i :: 0 <= i < |before| ==> t.rows[i] == before[i];
    resp := Ok(201, ToPromptOut(prompt));
  }

  /** `read_prompt`: 404 when no prompt has the id, otherwise that prompt,
      whoever owns it. */
  function ReadPrompt(rows: seq<Row>, promptId: int): (r: Response<PromptOut>)
    requires PromptTable(rows)
    ensures (r.Error? && r.status == 422) <==> promptId < 1
    ensures r.Error? <==> promptId < 1 || forall i :: 0 <= i < |rows| ==> !(HasId(rows[i]) && IdOf(rows[i]) == promptId)
    ensures r.Error? && 1 <= promptId ==> r == Error(404, PromptNotFound)
    ensures r.Ok? ==> r.status == 200 && r.body.id == promptId
    ensures r.Ok? ==> exists i :: 0 <= i < |rows| && r.body == ToPromptOut(rows[i])
  {
    match Lookup(rows, promptId, PromptNotFound)
    case Reject(s, d) => Error(s, d)
    case Accept(prompt) => Ok(200, ToPromptOut(prompt))
  }

  /** `update_prompt`: 404 for an unknown id; otherwise only the response may
      change, and the prompt text and owner stay as they were. */
  method UpdatePrompt(t: Table, promptId: int, promptIn: PromptUpdate) returns (resp: Response<PromptOut>)
    requires t.Valid() && PromptTable(t.rows)
    modifies t
    ensures t.Valid() && PromptTable(t.rows) && t.nextId == old(t.nextId)
    ensures match Lookup(old(t.rows), promptId, PromptNotFound)
      case Reject(s, d) => resp == Error(s, d) && t.rows == old(t.rows)
      case Accept(dbPrompt) =>
        var r := Overwrite(dbPrompt, PromptUpdateDict(promptIn));
        && IsPromptRow(r)
        && r["prompt"] == dbPrompt["prompt"] && r["user_id"] == dbPrompt["user_id"]
        && resp == Ok(200, ToPromptOut(r))
        && t.rows == Put(old(t.rows), r)
  {
    var v := Lookup(t.rows, promptId, PromptNotFound);
    if v.Reject? {
      resp := Error(v.status, v.detail);
      return;
    }
    ghost var before := t.rows;
    var dbPrompt := v.value;
    assert dbPrompt in before;
    PromptUpdateKeepsText(dbPrompt, promptIn);
    var prompt := t.Update(dbPrompt, PromptUpdateDict(promptIn));
    forall j | 0 <= j < |before|
      ensures IsPromptRow(t.rows[j])
    {
      PutFrame(before, prompt, j);
    }
    resp := Ok(200, ToPromptOut(prompt));
  }

  /** `delete_prompt`: 404 for an unknown id, otherwise 204 and exactly that
      prompt is gone. */
  method DeletePrompt(t: Table, promptId: int) returns (resp: Response<()>)
    requires t.Valid() && PromptTable(t.rows)
    modifies t
    ensures t.Valid() && PromptTable(t.rows) && t.nextId == old(t.nextId)
    ensures match Lookup(old(t.rows), promptId, PromptNotFound)
      case Reject(s, d) => resp == Error(s, d) && t.rows == old(t.rows)
      case Accept(_) =>
        && resp == Ok(204, ())
        && t.rows == Delete(old(t.rows), promptId)
        && Get(t.rows, promptId).None?
        && |t.rows| == |old(t.rows)| - 1
  {
    var v := Lookup(t.rows, promptId, PromptNotFound);
    if v.Reject? {
      resp := Error(v.status, v.detail);
      return;
    }
    ghost var before := t.rows;
    DeleteCount(before, promptId);
    RemoveIdempotent(before, promptId);
    var _ := t.Remove(promptId);
    assert PromptTable(t.rows) by {
      forall i | 0 <= i < |t.rows|
        ensures IsPromptRow(t.rows[i])
      {
        assert t.rows[i] in before;
      }
    }
    resp := Ok(204, ());
  }
}
