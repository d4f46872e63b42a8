/** What FastAPI does around a handler: the validation of query and path
    parameters, and the responses a handler produces. */
module Http {
  import opened Common
  import opened Crud

  /** A handler's response: a status and a body, or an `HTTPException`
      (status and detail message). */
  datatype Response<T> = Ok(status: int, body: T) | Error(status: int, detail: string)

  /** The decision a handler reaches before it touches the repository: go on
      with a value, or answer with an error. */
  datatype Verdict<T> = Accept(value: T) | Reject(status: int, detail: string)

  /** The detail of a 422 answer to a request that fails validation; the
      body FastAPI actually sends is not part of this model. */
  const ValidationFailed := "validation error"

  const DefaultSkip := 0
  const DefaultLimit := 10
  const MaxLimit := 100

  /** `skip: int = Query(0, ge=0)` and `limit: int = Query(10, ge=1, le=100)`. */
  function PageParams(skip: Option<int>, limit: Option<int>): (v: Verdict<(nat, nat)>)
    ensures v.Accept? <==> skip.GetOr(0) >= 0 && 1 <= limit.GetOr(10) <= 100
    ensures v.Accept? ==> v.value.0 == skip.GetOr(0) && v.value.1 == limit.GetOr(10)
    ensures v.Reject? ==> v == Reject(422, ValidationFailed)
  {
    var s, l := skip.GetOr(DefaultSkip), limit.GetOr(DefaultLimit);
    if s < 0 || l < 1 || l > MaxLimit then Reject(422, ValidationFailed) else Accept((s, l))
  }

  /** A path id declared `Path(..., ge=1)`, then `get(id)` and the handler's
      404 check. */
  function Lookup(rows: seq<Row>, id: int, notFound: string): (v: Verdict<Row>)
    ensures (v.Reject? && v.status == 422) <==> id < 1
    ensures v.Reject? <==> id < 1 || forall i :: 0 <= i < |rows| ==> !(HasId(rows[i]) && IdOf(rows[i]) == id)
    ensures v.Reject? ==> v == if id < 1 then Reject(422, ValidationFailed) else Reject(404, notFound)
    ensures v.Accept? ==> v.value in rows && HasId(v.value) && IdOf(v.value) == id
  {
    if id < 1 then Reject(422, ValidationFailed)
    else match Get(rows, id)
      case None => Reject(404, notFound)
      case Some(r) => Accept(r)
  }
}
