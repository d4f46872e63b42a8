/** The `prompts` table: the column set of `Prompt` and its foreign key to
    `users.id`. */
module PromptModel {
  import opened Common
  import opened Crud

  const PromptColumns: set<string> := {"id", "prompt", "response", "user_id"}

  /** A record of the `prompts` table: `prompt` is non-NULL text, `response`
      is text or NULL, `user_id` is a non-NULL integer. */
  predicate IsPromptRow(r: Row) {
    && r.Keys == PromptColumns
    && r["id"].Int?
    && r["prompt"].Str?
    && (r["response"].Str? || r["response"].Null?)
    && r["user_id"].Int?
  }

  predicate PromptTable(rows: seq<Row>) {
    forall i :: 0 <= i < |rows| ==> IsPromptRow(rows[i])
  }

  /** The foreign key `user_id -> users.id`: every prompt's owner is stored. */
  predicate OwnersExist(prompts: seq<Row>, users: seq<Row>)
    requires PromptTable(prompts)
  {
    forall i :: 0 <= i < |prompts| ==> Get(users, prompts[i]["user_id"].i).Some?
  }

  lemma PromptTableHasIds(rows: seq<Row>)
    requires PromptTable(rows)
    ensures AllHaveIds(rows)
  {
    forall i | 0 <= i < |rows|
      ensures HasId(rows[i])
    {
      assert "id" in PromptColumns;
    }
  }

  /** Removing a user does not cascade to that user's prompts: if the
      foreign key held and some prompt names the deleted user as owner, the
      key no longer holds. */
  lemma DeleteOwnerOrphans(prompts: seq<Row>, users: seq<Row>, k: int)
    requires PromptTable(prompts) && OwnersExist(prompts, users) && 0 <= k < |prompts|
    ensures !OwnersExist(prompts, Delete(users, prompts[k]["user_id"].i))
  {
    var id := prompts[k]["user_id"].i;
    var remaining := Delete(users, id);
    forall i | 0 <= i < |remaining|
      ensures !(HasId(remaining[i]) && IdOf(remaining[i]) == id)
    {
      assert remaining[i] in remaining;
    }
  }
}
