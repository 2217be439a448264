/** The dose-log routes, mounted at `/doses`. Posting a dose checks nothing beyond
    authentication: any caller may log against any medication. */
module DoseRoutes {
  import opened Common
  import opened Store
  import opened Http
  import opened DoseService

  /** The JSON body of `POST /doses`. */
  datatype DoseBody = DoseBody(
    medicationId: int, scheduledDatetime: Instant, status: DoseStatus,
    actualDatetime: Option<Instant>, scheduleId: Option<int>, notes: Option<string>)

  /** `POST /doses`: the body's fields go to `logDose` unchanged and its log comes back with
      201; `logDose` has no failing path here (no database constraint is modelled). */
  function PostDose(st: Store, caller: Caller, body: DoseBody, now: Instant): (r: Handled<DoseLog>)
    ensures var o := LogDose(st, body.medicationId, body.scheduledDatetime, body.status,
                             body.actualDatetime, body.scheduleId, body.notes, now);
      r.store == o.store && r.reply == Success(Created201, o.result.value)
    ensures r.reply.Success? && r.reply.status == Created201
    ensures var log := r.reply.value;
      && log.medicationId == body.medicationId && log.scheduledDatetime == body.scheduledDatetime
      && log.status == body.status && log.scheduleId == body.scheduleId && log.notes == body.notes
      && (body.actualDatetime.Some? ==> log.actualDatetime == body.actualDatetime.value)
      && r.store.doseLogs == st.doseLogs + [log]
  {
    var o := LogDose(st, body.medicationId, body.scheduledDatetime, body.status,
                     body.actualDatetime, body.scheduleId, body.notes, now);
    Handled(Success(Created201, o.result.value), o.store)
  }

  /** `GET /doses/patient/:patientId/recent`: 403 "Access denied" exactly when a patient names
      someone else; otherwise the patient's latest logs with the default limit. */
  function RecentDoses(st: Store, caller: Caller, patientId: int): (r: Reply<seq<NamedLog>>)
    ensures r.Refusal? <==> PatientMismatch(caller, patientId)
    ensures r.Refusal? ==> r == Refusal(Forbidden403, "Access denied")
    ensures r.Success? ==> r == Success(Ok200, GetDoseLogs(st, patientId, DefaultLogLimit))
    ensures r.Success? ==> |r.value| <= DefaultLogLimit
  {
    if PatientMismatch(caller, patientId) then Refusal(Forbidden403, "Access denied")
    else Success(Ok200, GetDoseLogs(st, patientId, DefaultLogLimit))
  }
}
