/** Shared vocabulary of the model: optional values, handler outcomes and the
    "first row of a filtered table" lookup that every store uses. */
module Common {

  /** Identifiers are UUIDs in the service; any infinite type of keys will do. */
  type UserId = nat

  datatype Option<T> = None | Some(value: T) {
    function GetOr(default: T): T {
      match this
      case Some(v) => v
      case None => default
    }
  }

  /** What a handler raises instead of returning: an HTTPException with its
      status code and detail text, or an exception the handler does not turn
      into an HTTP error (an ORM or library error), named by its kind. */
  datatype Failure = Http(status: int, detail: string) | Crash(reason: string)

  datatype Result<T> = Ok(value: T) | Err(failure: Failure)

  /** The position of the first row satisfying `p`: what `.first()` returns
      on a filtered query, with the table's order taken as the sequence order. */
  function FirstMatch<T>(rows: seq<T>, p: T -> bool): (r: Option<nat>)
    ensures r.Some? ==> r.value < |rows| && p(rows[r.value])
    ensures r.Some? ==> forall j :: 0 <= j < r.value ==> !p(rows[j])
    ensures r.None? <==> forall j :: 0 <= j < |rows| ==> !p(rows[j])
  {
    if rows == [] then None
    else if p(rows[0]) then Some(0)
    else match FirstMatch(rows[1..], p)
      case None => None
      case Some(k) => Some(k + 1)
  }

  /** A match found in a prefix stays the first match when rows are appended. */
  lemma {:induction false} FirstMatchAppend<T>(rows: seq<T>, more: seq<T>, p: T -> bool)
    requires FirstMatch(rows, p).Some?
    ensures FirstMatch(rows + more, p) == FirstMatch(rows, p)
  {
    if !p(rows[0]) {
      assert (rows + more)[1..] == rows[1..] + more;
      FirstMatchAppend(rows[1..], more, p);
    }
  }
}
