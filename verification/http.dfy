/** What every route shares: the authenticated caller, the HTTP reply, and the two access
    rules the routes repeat. Authentication itself (the `authenticate` middleware) is not
    part of this model: a route receives the caller's id and role from the verified token. */
module Http {
  import opened Common
  import opened Store

  /** `req.user`: the id and role carried by the caller's token. */
  datatype Caller = Caller(id: int, role: Role)

  /** A JSON reply: a value with a success status, or an `{ error }` body with an error status. */
  datatype Reply<+T> = Success(status: int, value: T) | Refusal(status: int, message: string)

  /** The reply of a route that may write, and the store after it. */
  datatype Handled<+T> = Handled(reply: Reply<T>, store: Store)

  const Ok200: int := 200
  const Created201: int := 201
  const NoContent204: int := 204
  const BadRequest400: int := 400
  const Unauthorized401: int := 401
  const Forbidden403: int := 403

  /** Whose data a list read targets (`GET /medications`, `/appointments`, `/vitals`): the
      caller unless another id is requested; another id is granted to any caregiver, with no
      check that the two are linked, and refused (None) to a patient. */
  function TargetUser(caller: Caller, requested: Option<int>): (target: Option<int>)
    ensures target.None? <==>
      requested.Some? && requested.value != caller.id && caller.role != Caregiver
    ensures requested.None? ==> target == Some(caller.id)
    ensures requested.Some? && target.Some? ==> target.value == requested.value
  {
    match requested
    case None => Some(caller.id)
    case Some(id) =>
      if id == caller.id then Some(caller.id)
      else if caller.role != Caregiver then None
      else Some(id)
  }

  /** The check of the `/patient/:patientId` routes: a patient may only name themself;
      a caregiver may name anyone. */
  predicate PatientMismatch(caller: Caller, patientId: int) {
    caller.role == Patient && caller.id != patientId
  }

  /** A service error caught by a route that answers it with 400 and the error's message. */
  function BadRequest<T>(e: Error): Reply<T> {
    Refusal(BadRequest400, Message(e))
  }
}
