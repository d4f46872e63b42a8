/** The request and response shapes of prompts: `PromptCreate`,
    `PromptUpdate` and the `Prompt` response model. */
module PromptSchemas {
  import opened Common
  import opened Crud
  import opened PromptModel

  const PromptMinLength := 5

  /** A `PromptCreate`: the prompt text is its only field. */
  datatype PromptCreate = PromptCreate(prompt: string)

  /** A `PromptUpdate`: `response` is its only field. The outer `None` means
      the field is not set, `Some(None)` that it is set to null. */
  datatype PromptUpdate = PromptUpdate(response: Option<Option<string>>)

  /** The `Prompt` response model. */
  datatype PromptOut = PromptOut(id: int, userId: int, prompt: string, response: Option<string>)

  predicate ValidPromptCreate(p: PromptCreate) {
    PromptMinLength <= |p.prompt|
  }

  /** The column value of an optional text: the text, or NULL. */
  function TextOrNull(s: Option<string>): Value {
    if s.Some? then Str(s.value) else Null
  }

  /** `prompt_in.dict(exclude_unset=True)`. */
  function PromptUpdateDict(u: PromptUpdate): (d: Row)
    ensures d.Keys <= {"response"}
    ensures "response" in d <==> u.response.Some?
    ensures u.response.Some? ==> d["response"] == TextOrNull(u.response.value)
  {
    if u.response.Some? then map["response" := TextOrNull(u.response.value)] else map[]
  }

  /** The response body the `Prompt` response model makes of a stored prompt. */
  function ToPromptOut(r: Row): PromptOut
    requires IsPromptRow(r)
  {
    PromptOut(r["id"].i, r["user_id"].i, r["prompt"].s,
              if r["response"].Str? then Some(r["response"].s) else None)
  }

  /** No update through `PromptUpdate` can change a prompt's text, owner or
      id; only `response` may change, and an empty body changes nothing. */
  lemma PromptUpdateKeepsText(row: Row, u: PromptUpdate)
    requires IsPromptRow(row)
    ensures var r := Overwrite(row, PromptUpdateDict(u));
      && IsPromptRow(r)
      && r["prompt"] == row["prompt"]
      && r["user_id"] == row["user_id"]
      && r["id"] == row["id"]
      && r["response"] == (if u.response.Some? then TextOrNull(u.response.value) else row["response"])
      && (u.response.None? ==> r == row)
  {
    var r := Overwrite(row, PromptUpdateDict(u));
    assert r.Keys == PromptColumns;
    if u.response.None? {
      OverwriteEmptyAndIdempotent(row, map[]);
    }
  }
}
