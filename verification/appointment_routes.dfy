/** The `/appointments` routes. Deleting checks nothing beyond authentication: any caller may
    delete any appointment. */
module AppointmentRoutes {
  import opened Common
  import opened Store
  import opened Http
  import opened AppointmentService

  /** `GET /appointments?userId=`: the target's appointments, or 403 "Unauthorized". */
  function ListAppointments(st: Store, caller: Caller, userId: Option<int>): (r: Reply<seq<Appointment>>)
    ensures r.Refusal? <==> userId.Some? && userId.value != caller.id && caller.role != Caregiver
    ensures r.Refusal? ==> r == Refusal(Forbidden403, "Unauthorized")
    ensures userId.None? || userId.value == caller.id ==>
      r == Success(Ok200, GetAppointments(st, caller.id))
    ensures caller.role == Caregiver && userId.Some? ==>
      r == Success(Ok200, GetAppointments(st, userId.value))
  {
    match TargetUser(caller, userId)
    case None => Refusal(Forbidden403, "Unauthorized")
    case Some(target) => Success(Ok200, GetAppointments(st, target))
  }

  /** The JSON body of `POST /appointments`; an absent or empty date is `None`. */
  datatype AppointmentBody = AppointmentBody(
    doctorName: Option<string>, dateTime: Option<Instant>, location: Option<string>,
    notes: Option<string>, patientId: Option<int>)

  /** `if (patientId)`: present and not 0. */
  predicate NamesPatient(body: AppointmentBody) {
    body.patientId.Some? && body.patientId.value != 0
  }

  /** `POST /appointments`: without a doctor name or a date, 400 and nothing created; a
      `patientId` from anyone but a caregiver is 403, even the caller's own id; otherwise the
      appointment is created for `patientId` when a caregiver gave one, else for the caller. */
  function PostAppointment(st: Store, caller: Caller, body: AppointmentBody, now: Instant): (r: Handled<Appointment>)
    ensures !Truthy(body.doctorName) || body.dateTime.None? ==>
      r == Handled(Refusal(BadRequest400, "Doctor name and date are required"), st)
    ensures Truthy(body.doctorName) && body.dateTime.Some? && NamesPatient(body) && caller.role != Caregiver ==>
      r == Handled(Refusal(Forbidden403, "Only caregivers can create appointments for others"), st)
    ensures r.reply.Success? ==>
      && r.reply.status == Created201
      && r.reply.value.userId == (if NamesPatient(body) then body.patientId.value else caller.id)
      && r.reply.value.doctorName == body.doctorName.value
      && r.reply.value.dateTime == body.dateTime.value
      && r.reply.value.location == body.location
      && r.reply.value.notes == body.notes
      && r.store.appointments == st.appointments + [r.reply.value]
      && r.store == CreateAppointment(st, r.reply.value.userId, body.doctorName.value,
                                      body.dateTime.value, body.location, body.notes, now).store
    ensures r.reply.Refusal? ==> r.store == st
    ensures (Truthy(body.doctorName) && body.dateTime.Some? &&
             (!NamesPatient(body) || caller.role == Caregiver)) ==> r.reply.Success?
    ensures Valid(st) ==> Valid(r.store)
  {
    if !Truthy(body.doctorName) || body.dateTime.None? then
      Handled(Refusal(BadRequest400, "Doctor name and date are required"), st)
    else if NamesPatient(body) && caller.role != Caregiver then
      Handled(Refusal(Forbidden403, "Only caregivers can create appointments for others"), st)
    else
      var target := if NamesPatient(body) then body.patientId.value else caller.id;
      var o := CreateAppointment(st, target, body.doctorName.value, body.dateTime.value,
                                 body.location, body.notes, now);
      Handled(Success(Created201, o.result.value), o.store)
  }

  /** `DELETE /appointments/:id`: always 204. */
  function DeleteAppointmentRoute(st: Store, caller: Caller, id: int): (r: Handled<()>)
    ensures r.reply == Success(NoContent204, ())
    ensures forall a :: a in r.store.appointments <==> a in st.appointments && a.id != id
    ensures r.store == DeleteAppointment(st, id).store
    ensures Valid(st) ==> Valid(r.store)
  {
    Handled(Success(NoContent204, ()), DeleteAppointment(st, id).store)
  }
}
