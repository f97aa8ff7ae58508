/** Option and Result, the failure-carrying datatypes the rest of the model returns. */
module Wrappers {

  /** A value that may be missing: JavaScript's `undefined` on one side, a value on the other. */
  datatype Option<T> = None | Some(value: T) {

    /** The wrapped value, or `default` when there is none. */
    function GetOr(default: T): T {
      match this
      case Some(v) => v
      case None => default
    }
  }

  /** The outcome of a request handler or a schema check: a value, or the error it raised. */
  datatype Result<T, E> = Ok(value: T) | Err(error: E) {

    predicate IsFailure() {
      Err?
    }

    function PropagateFailure<U>(): Result<U, E>
      requires Err?
    {
      Err(error)
    }

    function Extract(): T
      requires Ok?
    {
      value
    }
  }
}

/** Identifiers and instants shared by every store of the backend. */
module Ids {

  /** A user's `_id`. */
  type UserId = nat

  /** An organisation's `_id`. */
  type OrgId = nat

  /** A JavaScript `Date` time value: milliseconds since the epoch, UTC. */
  type Millis = int

  /** An id above every key of `xs`, so that no stored document has it. */
  function FreshId<T>(xs: seq<T>, key: T -> nat): (id: nat)
    ensures forall i | 0 <= i < |xs| :: key(xs[i]) < id
  {
    if xs == [] then 0
    else
      var rest := FreshId(xs[1..], key);
      if key(xs[0]) < rest then rest else key(xs[0]) + 1
  }

  /** A latitude or longitude, carried as an opaque number and never computed with. */
  type Coordinate = int
}

/** What a request handler can fail with, and JavaScript's falsiness of an optional string. */
module Responses {
  import opened Wrappers

  /** A failed request: an `ApiError` with its status, or an error the handler does not catch. */
  datatype Failure = Api(status: nat) | Unhandled

  /** `!value` for a string that may be `undefined`: missing, or the empty string. */
  predicate Falsy(v: Option<string>) {
    v.None? || v.value == ""
  }
}
