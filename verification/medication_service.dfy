/** The medication service: medication rows, their reminder schedules, partial updates,
    deletion, and the projection of a patient's schedules onto one day merged with that
    day's dose logs. */
module MedicationService {
  import opened Common
  import opened Store
  import opened Sorting

  /** `createMedication`: appends one medication row for the patient, active, with the
      given fields. */
  function CreateMedication(
    st: Store, patientId: int, name: string, dosage: string, frequency: string,
    instructions: Option<string>, startDate: string, endDate: Option<string>,
    currentSupply: Option<int>, refillThreshold: Option<int>, now: Instant
  ): (r: Outcome<Medication>)
    ensures r.result.Ok?
    ensures var m := r.result.value;
      && r.store.medications == st.medications + [m]
      && m.id == st.nextMedicationId
      && m.patientId == patientId && m.name == name && m.dosage == dosage
      && m.frequency == frequency && m.instructions == instructions
      && m.startDate == startDate && m.endDate == endDate
      && m.currentSupply == currentSupply && m.refillThreshold == refillThreshold
      && m.isActive && m.createdAt == now
    ensures r.store == st.(medications := r.store.medications,
                           nextMedicationId := st.nextMedicationId + 1)
    ensures Valid(st) ==> Valid(r.store)
  {
    var m := Medication(st.nextMedicationId, patientId, name, dosage, frequency, instructions,
                        startDate, endDate, true, currentSupply, refillThreshold, now, now);
    assert Valid(st) ==> Keyed(st.medications + [m], MedicationId, st.nextMedicationId + 1) by {
      if Valid(st) { AppendKeyed(st.medications, MedicationId, st.nextMedicationId, m); }
    }
    Outcome(Ok(m), st.(medications := st.medications + [m], nextMedicationId := st.nextMedicationId + 1))
  }

  /** `getMedicationsByPatient`: exactly the patient's medication rows, newest first. */
  function GetMedicationsByPatient(st: Store, patientId: int): (r: seq<Medication>)
    ensures forall m :: m in r <==> m in st.medications && m.patientId == patientId
    ensures forall m :: multiset(r)[m] == if m.patientId == patientId then multiset(st.medications)[m] else 0
    ensures Sorted(r, (m: Medication) => m.createdAt, Descending)
  {
    var keep := (m: Medication) => m.patientId == patientId;
    FilterMultiset(st.medications, keep);
    var r := SortBy(Filter(st.medications, keep), (m: Medication) => m.createdAt, Descending);
    assert forall m :: m in r <==> m in multiset(r);
    r
  }

  /** The columns a PATCH body names, with their new values. A nullable column can be set
      to NULL (`Some(None)`). */
  datatype Patch = Patch(
    patientId: Option<int>,
    name: Option<string>,
    dosage: Option<string>,
    frequency: Option<string>,
    instructions: Option<Option<string>>,
    startDate: Option<string>,
    endDate: Option<Option<string>>,
    isActive: Option<bool>,
    currentSupply: Option<Option<int>>,
    refillThreshold: Option<Option<int>>)
  {
    /** No column named: the generated `SET` list is empty, which is not valid SQL. */
    predicate IsEmpty() {
      && patientId.None? && name.None? && dosage.None? && frequency.None?
      && instructions.None? && startDate.None? && endDate.None? && isActive.None?
      && currentSupply.None? && refillThreshold.None?
    }

    /** The row after `SET <named columns>, updated_at = NOW()`. */
    function ApplyTo(m: Medication, now: Instant): Medication {
      m.(patientId := patientId.GetOr(m.patientId),
         name := name.GetOr(m.name),
         dosage := dosage.GetOr(m.dosage),
         frequency := frequency.GetOr(m.frequency),
         instructions := instructions.GetOr(m.instructions),
         startDate := startDate.GetOr(m.startDate),
         endDate := endDate.GetOr(m.endDate),
         isActive := isActive.GetOr(m.isActive),
         currentSupply := currentSupply.GetOr(m.currentSupply),
         refillThreshold := refillThreshold.GetOr(m.refillThreshold),
         updatedAt := now)
    }
  }

  /** `m'` is `m` with every column the patch names set to the patch's value, every other
      column kept, and `updated_at` set to `now`. */
  predicate PatchedFrom(m': Medication, m: Medication, p: Patch, now: Instant) {
    && m'.id == m.id
    && m'.createdAt == m.createdAt
    && m'.updatedAt == now
    && (if p.patientId.Some? then m'.patientId == p.patientId.value else m'.patientId == m.patientId)
    && (if p.name.Some? then m'.name == p.name.value else m'.name == m.name)
    && (if p.dosage.Some? then m'.dosage == p.dosage.value else m'.dosage == m.dosage)
    && (if p.frequency.Some? then m'.frequency == p.frequency.value else m'.frequency == m.frequency)
    && (if p.instructions.Some? then m'.instructions == p.instructions.value else m'.instructions == m.instructions)
    && (if p.startDate.Some? then m'.startDate == p.startDate.value else m'.startDate == m.startDate)
    && (if p.endDate.Some? then m'.endDate == p.endDate.value else m'.endDate == m.endDate)
    && (if p.isActive.Some? then m'.isActive == p.isActive.value else m'.isActive == m.isActive)
    && (if p.currentSupply.Some? then m'.currentSupply == p.currentSupply.value else m'.currentSupply == m.currentSupply)
    && (if p.refillThreshold.Some? then m'.refillThreshold == p.refillThreshold.value else m'.refillThreshold == m.refillThreshold)
  }

  predicate HasMedication(meds: seq<Medication>, id: int) {
    exists i :: 0 <= i < |meds| && meds[i].id == id
  }

  /** The index of the first row with the given id. */
  function FirstWithId(meds: seq<Medication>, id: int): (i: nat)
    requires HasMedication(meds, id)
    ensures i < |meds| && meds[i].id == id
    ensures forall j :: 0 <= j < i ==> meds[j].id != id
  {
    if meds[0].id == id then 0
    else
      assert HasMedication(meds[1..], id) by {
        var k :| 0 <= k < |meds| && meds[k].id == id;
        assert meds[1..][k - 1].id == id;
      }
      1 + FirstWithId(meds[1..], id)
  }

  /** `UPDATE medications SET … WHERE id = $n`: the rows with that id take the patch, the
      others are kept, in place. */
  function PatchRows(meds: seq<Medication>, id: int, patch: Patch, now: Instant): (r: seq<Medication>)
    ensures |r| == |meds|
    ensures forall i :: 0 <= i < |meds| ==> r[i].id == meds[i].id
    ensures forall i :: 0 <= i < |meds| && meds[i].id != id ==> r[i] == meds[i]
    ensures forall i :: 0 <= i < |meds| && meds[i].id == id ==> PatchedFrom(r[i], meds[i], patch, now)
  {
    seq(|meds|, i requires 0 <= i < |meds| =>
      if meds[i].id == id then patch.ApplyTo(meds[i], now) else meds[i])
  }

  /** `updateMedication`: an empty patch is a malformed statement; an unknown id fails with
      "Medication not found"; otherwise exactly the rows with that id take the patch and
      `updated_at`, and the first of them is returned. */
  function UpdateMedication(st: Store, id: int, patch: Patch, now: Instant): (r: Outcome<Medication>)
    ensures patch.IsEmpty() ==> r == Outcome(Err(MalformedUpdate), st)
    ensures !patch.IsEmpty() && !HasMedication(st.medications, id) ==>
      r == Outcome(Err(MedicationNotFound), st)
    ensures !patch.IsEmpty() && HasMedication(st.medications, id) ==>
      && r.result.Ok?
      && r.result.value.id == id
      && r.store == st.(medications := r.store.medications)
      && |r.store.medications| == |st.medications|
      && r.result.value in r.store.medications
      && (forall i :: 0 <= i < |st.medications| && st.medications[i].id != id ==>
            r.store.medications[i] == st.medications[i])
      && (forall i :: 0 <= i < |st.medications| && st.medications[i].id == id ==>
            PatchedFrom(r.store.medications[i], st.medications[i], patch, now))
    ensures Valid(st) ==> Valid(r.store)
  {
    if patch.IsEmpty() then Outcome(Err(MalformedUpdate), st)
    else if !HasMedication(st.medications, id) then Outcome(Err(MedicationNotFound), st)
    else
      var meds := PatchRows(st.medications, id, patch, now);
      var k := FirstWithId(st.medications, id);
      assert Valid(st) ==> Keyed(meds, MedicationId, st.nextMedicationId) by {
        if Valid(st) { SameIdsKeyed(st.medications, meds, MedicationId, st.nextMedicationId); }
      }
      Outcome(Ok(meds[k]), st.(medications := meds))
  }

  /** `WHERE id <> $1`, the rows a delete by id keeps. */
  function OtherThan(id: int): Medication -> bool {
    (m: Medication) => m.id != id
  }

  /** `deleteMedication`: an unknown id fails with "Medication not found"; otherwise exactly
      the rows with that id are gone and the rest keep their order. */
  function DeleteMedication(st: Store, id: int): (r: Outcome<()>)
    ensures !HasMedication(st.medications, id) ==> r == Outcome(Err(MedicationNotFound), st)
    ensures HasMedication(st.medications, id) ==>
      && r.result.Ok?
      && r.store == st.(medications := r.store.medications)
      && (forall m :: m in r.store.medications <==> m in st.medications && m.id != id)
      && r.store.medications == Filter(st.medications, OtherThan(id))
    ensures Valid(st) ==> Valid(r.store)
  {
    if !HasMedication(st.medications, id) then Outcome(Err(MedicationNotFound), st)
    else
      var keep := OtherThan(id);
      var meds := Filter(st.medications, keep);
      assert Valid(st) ==> Keyed(meds, MedicationId, st.nextMedicationId) by {
        if Valid(st) { FilterKeyed(st.medications, keep, MedicationId, st.nextMedicationId); }
      }
      Outcome(Ok(()), st.(medications := meds))
  }

  /** `addMedicationSchedule`: appends one schedule row for the medication. */
  function AddMedicationSchedule(
    st: Store, medicationId: int, scheduledTime: TimeOfDay, daysOfWeek: Option<seq<int>>
  ): (r: Outcome<Schedule>)
    ensures r.result.Ok?
    ensures var s := r.result.value;
      && r.store.schedules == st.schedules + [s]
      && s.id == st.nextScheduleId
      && s.medicationId == medicationId && s.scheduledTime == scheduledTime
      && s.daysOfWeek == daysOfWeek
    ensures r.store == st.(schedules := r.store.schedules, nextScheduleId := st.nextScheduleId + 1)
    ensures Valid(st) ==> Valid(r.store)
  {
    var s := Schedule(st.nextScheduleId, medicationId, scheduledTime, daysOfWeek);
    assert Valid(st) ==> Keyed(st.schedules + [s], ScheduleId, st.nextScheduleId + 1) by {
      if Valid(st) { AppendKeyed(st.schedules, ScheduleId, st.nextScheduleId, s); }
    }
    Outcome(Ok(s), st.(schedules := st.schedules + [s], nextScheduleId := st.nextScheduleId + 1))
  }

  /** Deleting a medication just created succeeds and gives back the medication table as
      it was; only the id sequence has moved on. */
  lemma {:induction false} CreateThenDelete(
    st: Store, patientId: int, name: string, dosage: string, frequency: string,
    instructions: Option<string>, startDate: string, endDate: Option<string>,
    currentSupply: Option<int>, refillThreshold: Option<int>, now: Instant
  )
    requires Valid(st)
    ensures var c := CreateMedication(st, patientId, name, dosage, frequency, instructions,
                                      startDate, endDate, currentSupply, refillThreshold, now);
      DeleteMedication(c.store, c.result.value.id)
        == Outcome(Ok(()), st.(nextMedicationId := st.nextMedicationId + 1))
  {
    var c := CreateMedication(st, patientId, name, dosage, frequency, instructions,
                              startDate, endDate, currentSupply, refillThreshold, now);
    var m := c.result.value;
    var keep := OtherThan(m.id);
    assert HasMedication(c.store.medications, m.id) by {
      assert c.store.medications[|st.medications|] == m;
    }
    assert forall x :: x in st.medications ==> keep(x) by {
      forall x | x in st.medications ensures keep(x) {
        var i :| 0 <= i < |st.medications| && st.medications[i] == x;
        assert MedicationId(st.medications[i]) < st.nextMedicationId;
      }
    }
    FilterDropsAppended(st.medications, m, keep);
  }

  /** One row of the day's schedule: a (medication, schedule) pair and, when a dose log for
      that day matched, its status and actual time. A NULL status means nothing was logged. */
  datatype TodayRow = TodayRow(
    medicationId: int,
    name: string,
    dosage: string,
    scheduledTime: TimeOfDay,
    scheduleId: int,
    status: Option<DoseStatus>,
    actualDatetime: Option<Instant>)

  /** The left-join condition: same medication, same schedule, scheduled on `today`.
      A log without a schedule id never matches. */
  predicate LogMatches(l: DoseLog, m: Medication, s: Schedule, today: Day) {
    l.medicationId == m.id && DateOf(l.scheduledDatetime) == today && l.scheduleId == Some(s.id)
  }

  /** The row of a pair for which no log matched. */
  function OpenRow(m: Medication, s: Schedule): TodayRow {
    TodayRow(m.id, m.name, m.dosage, s.scheduledTime, s.id, None, None)
  }

  /** The row of a pair joined with one matching log. */
  function LoggedRow(m: Medication, s: Schedule, l: DoseLog): TodayRow {
    TodayRow(m.id, m.name, m.dosage, s.scheduledTime, s.id, Some(l.status), Some(l.actualDatetime))
  }

  /** The pair enters the join: the schedule belongs to an active medication of the patient. */
  predicate ActiveSlot(m: Medication, s: Schedule, patientId: int) {
    m.patientId == patientId && m.isActive && s.medicationId == m.id
  }

  predicate NoLogFor(logs: seq<DoseLog>, m: Medication, s: Schedule, today: Day) {
    forall l :: l in logs ==> !LogMatches(l, m, s, today)
  }

  /** `row` is a row the left join produces for the pair. */
  ghost predicate SlotRow(row: TodayRow, m: Medication, s: Schedule, logs: seq<DoseLog>, today: Day) {
    || (NoLogFor(logs, m, s, today) && row == OpenRow(m, s))
    || (exists l :: l in logs && LogMatches(l, m, s, today) && row == LoggedRow(m, s, l))
  }

  /** `row` is a row of the day's schedule: it comes from a pair of a patient's active
      medication and one of its schedules. */
  ghost predicate IsTodayRow(row: TodayRow, st: Store, patientId: int, today: Day) {
    exists m, s :: m in st.medications && s in st.schedules && ActiveSlot(m, s, patientId)
      && SlotRow(row, m, s, st.doseLogs, today)
  }

  /** The matching logs of one pair, as joined rows. */
  function LoggedRows(m: Medication, s: Schedule, logs: seq<DoseLog>, today: Day): seq<TodayRow> {
    if |logs| == 0 then []
    else
      (if LogMatches(logs[0], m, s, today) then [LoggedRow(m, s, logs[0])] else [])
      + LoggedRows(m, s, logs[1..], today)
  }

  /** The rows of one pair: its matching logs, or one row with a NULL status. */
  function SlotRows(m: Medication, s: Schedule, logs: seq<DoseLog>, today: Day): seq<TodayRow> {
    var logged := LoggedRows(m, s, logs, today);
    if |logged| == 0 then [OpenRow(m, s)] else logged
  }

  /** The rows of one medication: those of each of its schedules. */
  function MedicationRows(m: Medication, schedules: seq<Schedule>, logs: seq<DoseLog>, today: Day): seq<TodayRow> {
    if |schedules| == 0 then []
    else
      (if schedules[0].medicationId == m.id then SlotRows(m, schedules[0], logs, today) else [])
      + MedicationRows(m, schedules[1..], logs, today)
  }

  /** `medications m JOIN medication_schedules ms LEFT JOIN dose_logs dl ...
      WHERE m.patient_id = $1 AND m.is_active = true`, before ordering. */
  function JoinRows(meds: seq<Medication>, schedules: seq<Schedule>, logs: seq<DoseLog>,
                    patientId: int, today: Day): seq<TodayRow> {
    if |meds| == 0 then []
    else
      (if meds[0].patientId == patientId && meds[0].isActive
       then MedicationRows(meds[0], schedules, logs, today) else [])
      + JoinRows(meds[1..], schedules, logs, patientId, today)
  }

  lemma {:induction false} LoggedRowsMembers(m: Medication, s: Schedule, logs: seq<DoseLog>, today: Day)
    ensures forall row :: row in LoggedRows(m, s, logs, today) <==>
      exists l :: l in logs && LogMatches(l, m, s, today) && row == LoggedRow(m, s, l)
    ensures |LoggedRows(m, s, logs, today)| == 0 <==> NoLogFor(logs, m, s, today)
  {
    if |logs| > 0 {
      LoggedRowsMembers(m, s, logs[1..], today);
      assert logs == [logs[0]] + logs[1..];
      forall row | (exists l :: l in logs && LogMatches(l, m, s, today) && row == LoggedRow(m, s, l))
        ensures row in LoggedRows(m, s, logs, today)
      {
        var l :| l in logs && LogMatches(l, m, s, today) && row == LoggedRow(m, s, l);
        if l != logs[0] {
          assert l in logs[1..];
        }
      }
      if !NoLogFor(logs, m, s, today) {
        var l :| l in logs && LogMatches(l, m, s, today);
        assert LoggedRow(m, s, l) in LoggedRows(m, s, logs, today);
      }
    }
  }

  lemma SlotRowsMembers(m: Medication, s: Schedule, logs: seq<DoseLog>, today: Day)
    ensures forall row :: row in SlotRows(m, s, logs, today) <==> SlotRow(row, m, s, logs, today)
  {
    LoggedRowsMembers(m, s, logs, today);
  }

  lemma {:induction false} MedicationRowsMembers(m: Medication, schedules: seq<Schedule>, logs: seq<DoseLog>, today: Day)
    ensures forall row :: row in MedicationRows(m, schedules, logs, today) <==>
      exists s :: s in schedules && s.medicationId == m.id && SlotRow(row, m, s, logs, today)
  {
    if |schedules| > 0 {
      MedicationRowsMembers(m, schedules[1..], logs, today);
      SlotRowsMembers(m, schedules[0], logs, today);
      assert schedules == [schedules[0]] + schedules[1..];
      forall row | (exists s :: s in schedules && s.medicationId == m.id && SlotRow(row, m, s, logs, today))
        ensures row in MedicationRows(m, schedules, logs, today)
      {
        var s :| s in schedules && s.medicationId == m.id && SlotRow(row, m, s, logs, today);
        if s != schedules[0] {
          assert s in schedules[1..];
        }
      }
    }
  }

  lemma {:induction false} JoinRowsMembers(meds: seq<Medication>, schedules: seq<Schedule>,
                                           logs: seq<DoseLog>, patientId: int, today: Day)
    ensures forall row :: row in JoinRows(meds, schedules, logs, patientId, today) <==>
      exists m, s :: m in meds && s in schedules && ActiveSlot(m, s, patientId)
        && SlotRow(row, m, s, logs, today)
  {
    if |meds| > 0 {
      JoinRowsMembers(meds[1..], schedules, logs, patientId, today);
      MedicationRowsMembers(meds[0], schedules, logs, today);
      assert meds == [meds[0]] + meds[1..];
      forall row | (exists m, s :: m in meds && s in schedules && ActiveSlot(m, s, patientId)
                      && SlotRow(row, m, s, logs, today))
        ensures row in JoinRows(meds, schedules, logs, patientId, today)
      {
        var m, s :| m in meds && s in schedules && ActiveSlot(m, s, patientId)
                    && SlotRow(row, m, s, logs, today);
        if m != meds[0] {
          assert m in meds[1..];
        }
      }
    }
  }

  /** `getTodaySchedule`: the day's rows in `scheduled_time` order. A row is listed exactly when
      it pairs an active medication of the patient with one of its schedules and either a
      matching log of `today` or, when none matched, a NULL status. `days_of_week` is not
      consulted, and the store is only read. */
  function GetTodaySchedule(st: Store, patientId: int, today: Day): (r: seq<TodayRow>)
    ensures Sorted(r, (row: TodayRow) => row.scheduledTime, Ascending)
    ensures multiset(r) == multiset(JoinRows(st.medications, st.schedules, st.doseLogs, patientId, today))
    ensures forall row :: row in r <==> IsTodayRow(row, st, patientId, today)
    ensures forall m, s :: m in st.medications && s in st.schedules && ActiveSlot(m, s, patientId) ==>
      && (NoLogFor(st.doseLogs, m, s, today) ==> OpenRow(m, s) in r)
      && (forall l :: l in st.doseLogs && LogMatches(l, m, s, today) ==> LoggedRow(m, s, l) in r)
    ensures forall row :: row in r && row.status.None? ==>
      exists m, s :: m in st.medications && s in st.schedules && ActiveSlot(m, s, patientId)
        && NoLogFor(st.doseLogs, m, s, today) && row == OpenRow(m, s)
  {
    var joined := JoinRows(st.medications, st.schedules, st.doseLogs, patientId, today);
    JoinRowsMembers(st.medications, st.schedules, st.doseLogs, patientId, today);
    var r := SortBy(joined, (row: TodayRow) => row.scheduledTime, Ascending);
    assert forall row :: row in r <==> row in multiset(r);
    assert forall row :: row in joined <==> row in multiset(joined);
    r
  }

  /** A row the left join produces for a pair carries the ids of that pair. */
  lemma SlotRowKeys(row: TodayRow, m: Medication, s: Schedule, logs: seq<DoseLog>, today: Day)
    requires SlotRow(row, m, s, logs, today)
    ensures row.medicationId == m.id && row.scheduleId == s.id
  {
  }

  /** Every row of a medication carries its id and the id of one of the given schedules. */
  lemma MedicationRowsKeys(m: Medication, schedules: seq<Schedule>, logs: seq<DoseLog>, today: Day)
    ensures forall row :: row in MedicationRows(m, schedules, logs, today) ==>
      row.medicationId == m.id && exists s :: s in schedules && row.scheduleId == s.id
  {
    MedicationRowsMembers(m, schedules, logs, today);
    forall row | row in MedicationRows(m, schedules, logs, today)
      ensures row.medicationId == m.id && exists s :: s in schedules && row.scheduleId == s.id
    {
      var s :| s in schedules && s.medicationId == m.id && SlotRow(row, m, s, logs, today);
      SlotRowKeys(row, m, s, logs, today);
    }
  }

  /** Every joined row carries the id of one of the given medications. */
  lemma JoinRowsKeys(meds: seq<Medication>, schedules: seq<Schedule>, logs: seq<DoseLog>,
                     patientId: int, today: Day)
    ensures forall row :: row in JoinRows(meds, schedules, logs, patientId, today) ==>
      exists m :: m in meds && row.medicationId == m.id
  {
    JoinRowsMembers(meds, schedules, logs, patientId, today);
    forall row | row in JoinRows(meds, schedules, logs, patientId, today)
      ensures exists m :: m in meds && row.medicationId == m.id
    {
      var m, s :| m in meds && s in schedules && ActiveSlot(m, s, patientId)
                  && SlotRow(row, m, s, logs, today);
      SlotRowKeys(row, m, s, logs, today);
    }
  }

  /** A row with a NULL status occurs in a pair's rows once when it is that pair's open row
      and nothing was logged, and not at all otherwise. */
  lemma SlotRowsOpenCount(m: Medication, s: Schedule, logs: seq<DoseLog>, today: Day, x: TodayRow)
    requires x.status.None?
    ensures multiset(SlotRows(m, s, logs, today))[x]
      == if NoLogFor(logs, m, s, today) && x == OpenRow(m, s) then 1 else 0
  {
    var logged := LoggedRows(m, s, logs, today);
    LoggedRowsMembers(m, s, logs, today);
    if |logged| > 0 {
      forall row | row in logged ensures row.status.Some? {
        var l :| l in logs && LogMatches(l, m, s, today) && row == LoggedRow(m, s, l);
      }
      assert x !in logged;
    }
  }

  /** With unique schedule ids, a row with a NULL status occurs at most once among a
      medication's rows. */
  lemma {:induction false} MedicationRowsOpenAtMostOnce(m: Medication, schedules: seq<Schedule>,
                                                        logs: seq<DoseLog>, today: Day, x: TodayRow, next: int)
    requires x.status.None?
    requires Keyed(schedules, ScheduleId, next)
    ensures multiset(MedicationRows(m, schedules, logs, today))[x] <= 1
  {
    if |schedules| > 0 {
      var tail := schedules[1..];
      TailKeyed(schedules, ScheduleId, next);
      MedicationRowsOpenAtMostOnce(m, tail, logs, today, x, next);
      var rest := MedicationRows(m, tail, logs, today);
      if schedules[0].medicationId == m.id {
        SlotRowsOpenCount(m, schedules[0], logs, today, x);
        if x == OpenRow(m, schedules[0]) {
          assert forall s :: s in tail ==> s.id != schedules[0].id by {
            forall s | s in tail ensures s.id != schedules[0].id {
              var k :| 0 <= k < |tail| && tail[k] == s;
              assert ScheduleId(schedules[0]) != ScheduleId(schedules[k + 1]);
            }
          }
          MedicationRowsKeys(m, tail, logs, today);
          assert x !in rest;
        }
      }
    }
  }

  /** With unique medication and schedule ids, a row with a NULL status occurs at most once
      in the join. */
  lemma {:induction false} JoinRowsOpenAtMostOnce(meds: seq<Medication>, schedules: seq<Schedule>,
                                                  logs: seq<DoseLog>, patientId: int, today: Day,
                                                  x: TodayRow, nextMedication: int, nextSchedule: int)
    requires x.status.None?
    requires Keyed(meds, MedicationId, nextMedication)
    requires Keyed(schedules, ScheduleId, nextSchedule)
    ensures multiset(JoinRows(meds, schedules, logs, patientId, today))[x] <= 1
  {
    if |meds| > 0 {
      var tail := meds[1..];
      TailKeyed(meds, MedicationId, nextMedication);
      JoinRowsOpenAtMostOnce(tail, schedules, logs, patientId, today, x, nextMedication, nextSchedule);
      var rest := JoinRows(tail, schedules, logs, patientId, today);
      if meds[0].patientId == patientId && meds[0].isActive {
        var head := MedicationRows(meds[0], schedules, logs, today);
        MedicationRowsOpenAtMostOnce(meds[0], schedules, logs, today, x, nextSchedule);
        MedicationRowsKeys(meds[0], schedules, logs, today);
        if x in head {
          assert forall m :: m in tail ==> m.id != meds[0].id by {
            forall m | m in tail ensures m.id != meds[0].id {
              var k :| 0 <= k < |tail| && tail[k] == m;
              assert MedicationId(meds[0]) != MedicationId(meds[k + 1]);
            }
          }
          JoinRowsKeys(tail, schedules, logs, patientId, today);
          assert x !in rest;
        }
      }
    }
  }

  /** In a consistent store, an active pair of the patient with nothing logged that day is
      listed exactly once, with a NULL status. */
  lemma OpenRowListedOnce(st: Store, patientId: int, today: Day, m: Medication, s: Schedule)
    requires Valid(st)
    requires m in st.medications && s in st.schedules && ActiveSlot(m, s, patientId)
    requires NoLogFor(st.doseLogs, m, s, today)
    ensures multiset(GetTodaySchedule(st, patientId, today))[OpenRow(m, s)] == 1
  {
    JoinRowsOpenAtMostOnce(st.medications, st.schedules, st.doseLogs, patientId, today,
                           OpenRow(m, s), st.nextMedicationId, st.nextScheduleId);
    assert OpenRow(m, s) in GetTodaySchedule(st, patientId, today);
  }

  /** Two matching logs that give the same row each contribute it. */
  lemma {:induction false} LoggedRowsTwice(m: Medication, s: Schedule, logs: seq<DoseLog>, today: Day,
                                           i: nat, j: nat)
    requires i < j < |logs|
    requires LogMatches(logs[i], m, s, today) && LogMatches(logs[j], m, s, today)
    requires LoggedRow(m, s, logs[i]) == LoggedRow(m, s, logs[j])
    ensures multiset(LoggedRows(m, s, logs, today))[LoggedRow(m, s, logs[i])] >= 2
  {
    var x := LoggedRow(m, s, logs[i]);
    if i == 0 {
      LoggedRowsMembers(m, s, logs[1..], today);
      assert logs[1..][j - 1] == logs[j];
      assert x in LoggedRows(m, s, logs[1..], today);
    } else {
      LoggedRowsTwice(m, s, logs[1..], today, i - 1, j - 1);
    }
  }

  /** One step of `MedicationRows`: the first schedule's rows, then the rest's. */
  lemma MedicationRowsUnfold(m: Medication, schedules: seq<Schedule>, logs: seq<DoseLog>, today: Day)
    requires |schedules| > 0
    ensures MedicationRows(m, schedules, logs, today)
      == (if schedules[0].medicationId == m.id then SlotRows(m, schedules[0], logs, today) else [])
         + MedicationRows(m, schedules[1..], logs, today)
  {
  }

  /** One step of `JoinRows`: the first medication's rows, then the rest's. */
  lemma JoinRowsUnfold(meds: seq<Medication>, schedules: seq<Schedule>, logs: seq<DoseLog>,
                       patientId: int, today: Day)
    requires |meds| > 0
    ensures JoinRows(meds, schedules, logs, patientId, today)
      == (if meds[0].patientId == patientId && meds[0].isActive
          then MedicationRows(meds[0], schedules, logs, today) else [])
         + JoinRows(meds[1..], schedules, logs, patientId, today)
  {
  }

  /** A schedule of the medication contributes its rows as one contiguous block. */
  lemma {:induction false} MedicationRowsSplit(m: Medication, schedules: seq<Schedule>,
                                               logs: seq<DoseLog>, today: Day, k: nat)
    requires k < |schedules| && schedules[k].medicationId == m.id
    ensures exists a, b ::
      MedicationRows(m, schedules, logs, today) == a + SlotRows(m, schedules[k], logs, today) + b
  {
    var head := if schedules[0].medicationId == m.id then SlotRows(m, schedules[0], logs, today) else [];
    var rest := MedicationRows(m, schedules[1..], logs, today);
    var block := SlotRows(m, schedules[k], logs, today);
    MedicationRowsUnfold(m, schedules, logs, today);
    if k == 0 {
      assert block == head;
      BlockAtFront(MedicationRows(m, schedules, logs, today), block, rest);
    } else {
      assert schedules[1..][k - 1] == schedules[k];
      MedicationRowsSplit(m, schedules[1..], logs, today, k - 1);
      BlockInTail(MedicationRows(m, schedules, logs, today), head, rest, block);
    }
  }

  /** An active medication of the patient contributes its rows as one contiguous block. */
  lemma {:induction false} JoinRowsSplit(meds: seq<Medication>, schedules: seq<Schedule>,
                                         logs: seq<DoseLog>, patientId: int, today: Day, k: nat)
    requires k < |meds| && meds[k].patientId == patientId && meds[k].isActive
    ensures exists a, b ::
      JoinRows(meds, schedules, logs, patientId, today) == a + MedicationRows(meds[k], schedules, logs, today) + b
  {
    var head := if meds[0].patientId == patientId && meds[0].isActive
                then MedicationRows(meds[0], schedules, logs, today) else [];
    var rest := JoinRows(meds[1..], schedules, logs, patientId, today);
    var block := MedicationRows(meds[k], schedules, logs, today);
    JoinRowsUnfold(meds, schedules, logs, patientId, today);
    if k == 0 {
      assert block == head;
      BlockAtFront(JoinRows(meds, schedules, logs, patientId, today), block, rest);
    } else {
      assert meds[1..][k - 1] == meds[k];
      JoinRowsSplit(meds[1..], schedules, logs, patientId, today, k - 1);
      BlockInTail(JoinRows(meds, schedules, logs, patientId, today), head, rest, block);
    }
  }

  /** A block of a sequence occurs in it at least as often as in the block. */
  lemma CountInBlock<T>(s: seq<T>, a: seq<T>, block: seq<T>, b: seq<T>, x: T)
    requires s == a + block + b
    ensures multiset(s)[x] >= multiset(block)[x]
  {
    CountAppend(a + block, b, x);
    CountAppend(a, block, x);
  }

  /** A medication's rows include, with their multiplicity, the rows of each of its schedules. */
  lemma MedicationRowsAtLeast(m: Medication, schedules: seq<Schedule>,
                              logs: seq<DoseLog>, today: Day, k: nat, x: TodayRow)
    requires k < |schedules| && schedules[k].medicationId == m.id
    ensures multiset(MedicationRows(m, schedules, logs, today))[x]
      >= multiset(SlotRows(m, schedules[k], logs, today))[x]
  {
    MedicationRowsSplit(m, schedules, logs, today, k);
    var a, b :| MedicationRows(m, schedules, logs, today) == a + SlotRows(m, schedules[k], logs, today) + b;
    CountInBlock(MedicationRows(m, schedules, logs, today), a, SlotRows(m, schedules[k], logs, today), b, x);
  }

  /** The join includes, with their multiplicity, the rows of each active medication of the
      patient. */
  lemma JoinRowsAtLeast(meds: seq<Medication>, schedules: seq<Schedule>,
                        logs: seq<DoseLog>, patientId: int, today: Day, k: nat, x: TodayRow)
    requires k < |meds| && meds[k].patientId == patientId && meds[k].isActive
    ensures multiset(JoinRows(meds, schedules, logs, patientId, today))[x]
      >= multiset(MedicationRows(meds[k], schedules, logs, today))[x]
  {
    JoinRowsSplit(meds, schedules, logs, patientId, today, k);
    var a, b :| JoinRows(meds, schedules, logs, patientId, today)
      == a + MedicationRows(meds[k], schedules, logs, today) + b;
    CountInBlock(JoinRows(meds, schedules, logs, patientId, today), a,
                 MedicationRows(meds[k], schedules, logs, today), b, x);
  }

  /** The day's schedule has one row per matching log: two logs of the same dose with the same
      status and time are listed twice, not merged. */
  lemma RepeatedLogListedTwice(st: Store, patientId: int, today: Day, mi: nat, si: nat, i: nat, j: nat)
    requires mi < |st.medications| && si < |st.schedules|
    requires ActiveSlot(st.medications[mi], st.schedules[si], patientId)
    requires i < j < |st.doseLogs|
    requires LogMatches(st.doseLogs[i], st.medications[mi], st.schedules[si], today)
    requires LogMatches(st.doseLogs[j], st.medications[mi], st.schedules[si], today)
    requires st.doseLogs[i].status == st.doseLogs[j].status
    requires st.doseLogs[i].actualDatetime == st.doseLogs[j].actualDatetime
    ensures var x := LoggedRow(st.medications[mi], st.schedules[si], st.doseLogs[i]);
      multiset(GetTodaySchedule(st, patientId, today))[x] >= 2
  {
    var (m, s) := (st.medications[mi], st.schedules[si]);
    var x := LoggedRow(m, s, st.doseLogs[i]);
    LoggedRowsTwice(m, s, st.doseLogs, today, i, j);
    assert SlotRows(m, s, st.doseLogs, today) == LoggedRows(m, s, st.doseLogs, today);
    MedicationRowsAtLeast(m, st.schedules, st.doseLogs, today, si, x);
    JoinRowsAtLeast(st.medications, st.schedules, st.doseLogs, patientId, today, mi, x);
  }

  /** The two schedule tables differ at most in their `days_of_week` columns. */
  predicate SameExceptDays(a: seq<Schedule>, b: seq<Schedule>) {
    |a| == |b| && forall i :: 0 <= i < |a| ==> b[i] == a[i].(daysOfWeek := b[i].daysOfWeek)
  }

  lemma {:induction false} LoggedRowsIgnoreDays(m: Medication, s: Schedule, s': Schedule,
                                                logs: seq<DoseLog>, today: Day)
    requires s' == s.(daysOfWeek := s'.daysOfWeek)
    ensures LoggedRows(m, s, logs, today) == LoggedRows(m, s', logs, today)
  {
    if |logs| > 0 {
      LoggedRowsIgnoreDays(m, s, s', logs[1..], today);
    }
  }

  lemma {:induction false} MedicationRowsIgnoreDays(m: Medication, a: seq<Schedule>, b: seq<Schedule>,
                                                    logs: seq<DoseLog>, today: Day)
    requires SameExceptDays(a, b)
    ensures MedicationRows(m, a, logs, today) == MedicationRows(m, b, logs, today)
  {
    if |a| > 0 {
      LoggedRowsIgnoreDays(m, a[0], b[0], logs, today);
      MedicationRowsIgnoreDays(m, a[1..], b[1..], logs, today);
    }
  }

  lemma {:induction false} JoinRowsIgnoreDays(meds: seq<Medication>, a: seq<Schedule>, b: seq<Schedule>,
                                              logs: seq<DoseLog>, patientId: int, today: Day)
    requires SameExceptDays(a, b)
    ensures JoinRows(meds, a, logs, patientId, today) == JoinRows(meds, b, logs, patientId, today)
  {
    if |meds| > 0 {
      MedicationRowsIgnoreDays(meds[0], a, b, logs, today);
      JoinRowsIgnoreDays(meds[1..], a, b, logs, patientId, today);
    }
  }

  /** The day's schedule does not depend on any schedule's `days_of_week`: every schedule is
      projected onto every day. */
  lemma DaysOfWeekIgnored(st: Store, schedules: seq<Schedule>, patientId: int, today: Day)
    requires SameExceptDays(st.schedules, schedules)
    ensures GetTodaySchedule(st.(schedules := schedules), patientId, today)
         == GetTodaySchedule(st, patientId, today)
  {
    JoinRowsIgnoreDays(st.medications, st.schedules, schedules, st.doseLogs, patientId, today);
  }
}
