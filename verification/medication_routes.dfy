/** The `/medications` routes. Only the list reads and creation check who the caller is;
    updating, deleting and adding a schedule check nothing beyond authentication. */
module MedicationRoutes {
  import opened Common
  import opened Store
  import opened Http
  import opened MedicationService

  /** `GET /medications?userId=`: the target's medications, or 403 "Unauthorized". */
  function ListMedications(st: Store, caller: Caller, userId: Option<int>): (r: Reply<seq<Medication>>)
    ensures r.Refusal? <==> userId.Some? && userId.value != caller.id && caller.role != Caregiver
    ensures r.Refusal? ==> r == Refusal(Forbidden403, "Unauthorized")
    ensures userId.None? || userId.value == caller.id ==>
      r == Success(Ok200, GetMedicationsByPatient(st, caller.id))
    ensures caller.role == Caregiver && userId.Some? ==>
      r == Success(Ok200, GetMedicationsByPatient(st, userId.value))
  {
    match TargetUser(caller, userId)
    case None => Refusal(Forbidden403, "Unauthorized")
    case Some(target) => Success(Ok200, GetMedicationsByPatient(st, target))
  }

  /** The JSON body of `POST /medications`; an absent `patientId` is `None`. */
  datatype MedicationBody = MedicationBody(
    patientId: Option<int>, name: string, dosage: string, frequency: string,
    instructions: Option<string>, startDate: string, endDate: Option<string>,
    currentSupply: Option<int>, refillThreshold: Option<int>)

  /** `req.user.role === 'patient' && req.user.id !== patientId`: a patient may only create
      for themself, and a body without `patientId` never names the caller. */
  predicate PatientRefused(caller: Caller, patientId: Option<int>) {
    caller.role == Patient && patientId != Some(caller.id)
  }

  /** `POST /medications`: a patient naming anyone else, or no one, gets 403 "Access denied";
      a caregiver who names no patient gets 400, because the medication row cannot be stored
      without its owner; otherwise the medication is created for `patientId` (a caregiver may
      name anyone). A refused request creates nothing. */
  function PostMedication(st: Store, caller: Caller, body: MedicationBody, now: Instant): (r: Handled<Medication>)
    ensures PatientRefused(caller, body.patientId) ==>
      r == Handled(Refusal(Forbidden403, "Access denied"), st)
    ensures !PatientRefused(caller, body.patientId) && body.patientId.None? ==>
      r == Handled(BadRequest(NullPatientId), st)
    ensures r.reply.Success? <==> body.patientId.Some? && !PatientMismatch(caller, body.patientId.value)
    ensures r.reply.Success? ==>
      && r.reply.status == Created201
      && r.reply.value.patientId == body.patientId.value
      && r.store.medications == st.medications + [r.reply.value]
    ensures body.patientId.Some? && !PatientMismatch(caller, body.patientId.value) ==>
      var o := CreateMedication(st, body.patientId.value, body.name, body.dosage, body.frequency,
                                body.instructions, body.startDate, body.endDate,
                                body.currentSupply, body.refillThreshold, now);
      r == Handled(Success(Created201, o.result.value), o.store)
    ensures Valid(st) ==> Valid(r.store)
  {
    if PatientRefused(caller, body.patientId) then
      Handled(Refusal(Forbidden403, "Access denied"), st)
    else if body.patientId.None? then
      Handled(BadRequest(NullPatientId), st)
    else
      var o := CreateMedication(st, body.patientId.value, body.name, body.dosage, body.frequency,
                                body.instructions, body.startDate, body.endDate,
                                body.currentSupply, body.refillThreshold, now);
      Handled(Success(Created201, o.result.value), o.store)
  }

  /** `GET /medications/patient/:patientId`: 403 "Access denied" exactly when a patient names
      someone else; otherwise that patient's medications. */
  function PatientMedications(st: Store, caller: Caller, patientId: int): (r: Reply<seq<Medication>>)
    ensures r.Refusal? <==> PatientMismatch(caller, patientId)
    ensures r.Refusal? ==> r == Refusal(Forbidden403, "Access denied")
    ensures r.Success? ==> r == Success(Ok200, GetMedicationsByPatient(st, patientId))
  {
    if PatientMismatch(caller, patientId) then Refusal(Forbidden403, "Access denied")
    else Success(Ok200, GetMedicationsByPatient(st, patientId))
  }

  /** `PATCH /medications/:id`: the updated row, or 400 with the service's error. */
  function PatchMedication(st: Store, caller: Caller, id: int, patch: Patch, now: Instant): (r: Handled<Medication>)
    ensures var o := UpdateMedication(st, id, patch, now);
      && r.store == o.store
      && (o.result.Ok? ==> r.reply == Success(Ok200, o.result.value))
      && (o.result.Err? ==> r.reply == Refusal(BadRequest400, Message(o.result.error)))
    ensures patch.IsEmpty() || !HasMedication(st.medications, id) ==>
      r.reply.Refusal? && r.reply.status == BadRequest400 && r.store == st
  {
    var o := UpdateMedication(st, id, patch, now);
    match o.result
    case Ok(m) => Handled(Success(Ok200, m), o.store)
    case Err(e) => Handled(BadRequest(e), o.store)
  }

  /** `DELETE /medications/:id`: 204, or 400 "Medication not found" with nothing removed. */
  function DeleteMedicationRoute(st: Store, caller: Caller, id: int): (r: Handled<()>)
    ensures !HasMedication(st.medications, id) ==>
      r == Handled(Refusal(BadRequest400, "Medication not found"), st)
    ensures HasMedication(st.medications, id) ==>
      && r.reply == Success(NoContent204, ())
      && forall m :: m in r.store.medications <==> m in st.medications && m.id != id
    ensures r.store == DeleteMedication(st, id).store
    ensures Valid(st) ==> Valid(r.store)
  {
    var o := DeleteMedication(st, id);
    match o.result
    case Ok(_) => Handled(Success(NoContent204, ()), o.store)
    case Err(e) => Handled(BadRequest(e), o.store)
  }

  /** `POST /medications/:id/schedule`: 201 with the new schedule row. */
  function PostSchedule(
    st: Store, caller: Caller, medicationId: int, scheduledTime: TimeOfDay, daysOfWeek: Option<seq<int>>
  ): (r: Handled<Schedule>)
    ensures r.reply.Success? && r.reply.status == Created201
    ensures r.reply.value.medicationId == medicationId && r.reply.value.scheduledTime == scheduledTime
    ensures r.reply.value.daysOfWeek == daysOfWeek
    ensures r.store.schedules == st.schedules + [r.reply.value]
    ensures var o := AddMedicationSchedule(st, medicationId, scheduledTime, daysOfWeek);
      r == Handled(Success(Created201, o.result.value), o.store)
    ensures Valid(st) ==> Valid(r.store)
  {
    var o := AddMedicationSchedule(st, medicationId, scheduledTime, daysOfWeek);
    Handled(Success(Created201, o.result.value), o.store)
  }

  /** `GET /medications/patient/:patientId/schedule/today`: the same patient check, then the
      day's schedule. */
  function TodaySchedule(st: Store, caller: Caller, patientId: int, today: Day): (r: Reply<seq<TodayRow>>)
    ensures r.Refusal? <==> PatientMismatch(caller, patientId)
    ensures r.Refusal? ==> r == Refusal(Forbidden403, "Access denied")
    ensures r.Success? ==> r == Success(Ok200, GetTodaySchedule(st, patientId, today))
  {
    if PatientMismatch(caller, patientId) then Refusal(Forbidden403, "Access denied")
    else Success(Ok200, GetTodaySchedule(st, patientId, today))
  }
}
