/** The `/vitals` routes. */
module VitalsRoutes {
  import opened Common
  import opened Store
  import opened Http
  import opened VitalsService

  /** The JSON body of `POST /vitals`. */
  datatype VitalBody = VitalBody(
    kind: Option<string>, value: Option<Scalar>, unit: Option<string>, notes: Option<string>)

  /** `POST /vitals`: without a truthy type, value and unit, 400 and nothing logged; otherwise
      the reading is logged against the caller, whatever the body says. */
  function PostVital(st: Store, caller: Caller, body: VitalBody, now: Instant): (r: Handled<Vital>)
    ensures !(Truthy(body.kind) && ScalarTruthy(body.value) && Truthy(body.unit)) ==>
      r == Handled(Refusal(BadRequest400, "Missing required fields"), st)
    ensures Truthy(body.kind) && ScalarTruthy(body.value) && Truthy(body.unit) ==>
      && r.reply.Success? && r.reply.status == Created201
      && r.reply.value.userId == caller.id
      && r.reply.value.kind == body.kind.value && r.reply.value.value == body.value.value
      && r.reply.value.unit == body.unit.value && r.reply.value.notes == body.notes
      && r.store.vitals == st.vitals + [r.reply.value]
      && r.store == LogVital(st, caller.id, body.kind.value, body.value.value, body.unit.value,
                             body.notes, now).store
    ensures Valid(st) ==> Valid(r.store)
  {
    if !(Truthy(body.kind) && ScalarTruthy(body.value) && Truthy(body.unit)) then
      Handled(Refusal(BadRequest400, "Missing required fields"), st)
    else
      var o := LogVital(st, caller.id, body.kind.value, body.value.value, body.unit.value,
                        body.notes, now);
      Handled(Success(Created201, o.result.value), o.store)
  }

  /** `GET /vitals?type=&userId=`: the target's readings with the type filter passed on
      unchanged, or 403 "Unauthorized". */
  function ListVitals(st: Store, caller: Caller, kind: Option<string>, userId: Option<int>): (r: Reply<seq<Vital>>)
    ensures r.Refusal? <==> userId.Some? && userId.value != caller.id && caller.role != Caregiver
    ensures r.Refusal? ==> r == Refusal(Forbidden403, "Unauthorized")
    ensures userId.None? || userId.value == caller.id ==>
      r == Success(Ok200, GetVitals(st, caller.id, kind))
    ensures caller.role == Caregiver && userId.Some? ==>
      r == Success(Ok200, GetVitals(st, userId.value, kind))
  {
    match TargetUser(caller, userId)
    case None => Refusal(Forbidden403, "Unauthorized")
    case Some(target) => Success(Ok200, GetVitals(st, target, kind))
  }
}
