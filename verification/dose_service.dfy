/** The dose-logging service: recording a dose event, with the supply decrement that follows
    a taken dose, and reading a patient's most recent dose logs. */
module DoseService {
  import opened Common
  import opened Store
  import opened Sorting

  /** The number of logs `getDoseLogs` returns when its caller gives no limit. */
  const DefaultLogLimit: nat := 50

  /** `current_supply > 0` holds: NULL compares as unknown, so a NULL supply does not. */
  predicate HasSupply(m: Medication) {
    m.currentSupply.Some? && m.currentSupply.value > 0
  }

  predicate SupplyNonNegative(m: Medication) {
    m.currentSupply.None? || m.currentSupply.value >= 0
  }

  /** `UPDATE medications SET current_supply = current_supply - 1
      WHERE id = $1 AND current_supply > 0`. */
  function TakeOne(meds: seq<Medication>, id: int): seq<Medication> {
    seq(|meds|, i requires 0 <= i < |meds| =>
      if meds[i].id == id && HasSupply(meds[i])
      then meds[i].(currentSupply := Some(meds[i].currentSupply.value - 1))
      else meds[i])
  }

  /** `logDose`: appends one dose log (its actual time defaults to `now`) and, for a taken dose,
      lowers that medication's supply by one unless it is already 0 or NULL. The two writes
      are separate statements; no duplicate check is made. */
  function LogDose(
    st: Store, medicationId: int, scheduledDatetime: Instant, status: DoseStatus,
    actualDatetime: Option<Instant>, scheduleId: Option<int>, notes: Option<string>, now: Instant
  ): (r: Outcome<DoseLog>)
    ensures r.result.Ok?
    ensures var log := r.result.value;
      && r.store.doseLogs == st.doseLogs + [log]
      && log.id == st.nextDoseLogId
      && log.medicationId == medicationId
      && log.scheduleId == scheduleId
      && log.scheduledDatetime == scheduledDatetime
      && log.status == status
      && log.notes == notes
      && (actualDatetime.None? ==> log.actualDatetime == now)
      && (actualDatetime.Some? ==> log.actualDatetime == actualDatetime.value)
    ensures r.store == st.(doseLogs := r.store.doseLogs, medications := r.store.medications,
                           nextDoseLogId := st.nextDoseLogId + 1)
    ensures status != Taken ==> r.store.medications == st.medications
    ensures |r.store.medications| == |st.medications|
    ensures forall i :: 0 <= i < |st.medications| ==>
      var (m, m') := (st.medications[i], r.store.medications[i]);
      && m'.(currentSupply := m.currentSupply) == m
      && (status == Taken && m.id == medicationId && HasSupply(m) ==>
            m'.currentSupply == Some(m.currentSupply.value - 1))
      && (!(status == Taken && m.id == medicationId && HasSupply(m)) ==> m' == m)
    ensures forall i :: 0 <= i < |st.medications| && SupplyNonNegative(st.medications[i]) ==>
      SupplyNonNegative(r.store.medications[i])
    ensures Valid(st) ==> Valid(r.store)
  {
    var log := DoseLog(st.nextDoseLogId, medicationId, scheduleId, scheduledDatetime,
                       actualDatetime.GetOr(now), status, notes);
    var meds := if status == Taken then TakeOne(st.medications, medicationId) else st.medications;
    var st' := st.(doseLogs := st.doseLogs + [log], medications := meds,
                   nextDoseLogId := st.nextDoseLogId + 1);
    assert Valid(st) ==> Valid(st') by {
      if Valid(st) {
        AppendKeyed(st.doseLogs, DoseLogId, st.nextDoseLogId, log);
        SameIdsKeyed(st.medications, meds, MedicationId, st.nextMedicationId);
      }
    }
    Outcome(Ok(log), st')
  }

  /** Logging the same taken dose twice appends two logs and applies the guarded decrement
      twice: a supply of `n >= 0` ends at `n - 2`, or at 0 when `n < 2`. */
  lemma TakenTwice(
    st: Store, medicationId: int, scheduledDatetime: Instant,
    actualDatetime: Option<Instant>, scheduleId: Option<int>, notes: Option<string>,
    now: Instant, now': Instant, i: nat)
    requires i < |st.medications|
    requires st.medications[i].id == medicationId
    requires st.medications[i].currentSupply.Some? && st.medications[i].currentSupply.value >= 0
    ensures var first := LogDose(st, medicationId, scheduledDatetime, Taken, actualDatetime,
                                 scheduleId, notes, now);
            var second := LogDose(first.store, medicationId, scheduledDatetime, Taken,
                                  actualDatetime, scheduleId, notes, now');
            var n := st.medications[i].currentSupply.value;
            && |second.store.doseLogs| == |st.doseLogs| + 2
            && second.store.doseLogs[|st.doseLogs|].(id := 0, actualDatetime := 0)
               == second.store.doseLogs[|st.doseLogs| + 1].(id := 0, actualDatetime := 0)
            && second.store.medications[i].currentSupply == Some(if n >= 2 then n - 2 else 0)
  {
    var first := LogDose(st, medicationId, scheduledDatetime, Taken, actualDatetime,
                         scheduleId, notes, now);
    var second := LogDose(first.store, medicationId, scheduledDatetime, Taken,
                          actualDatetime, scheduleId, notes, now');
    assert first.store.medications[i].id == medicationId;
    assert second.store.doseLogs == st.doseLogs + [first.result.value] + [second.result.value];
  }

  /** One patient log joined with the name of its medication. */
  datatype NamedLog = NamedLog(log: DoseLog, medicationName: string)

  /** The log's medication row belongs to the patient and carries the given name. */
  ghost predicate OwnedBy(v: NamedLog, meds: seq<Medication>, patientId: int) {
    exists m :: m in meds && m.id == v.log.medicationId && m.patientId == patientId
                && m.name == v.medicationName
  }

  /** The join rows contributed by one log: one per medication row it matches. */
  function NamesFor(log: DoseLog, meds: seq<Medication>, patientId: int): seq<NamedLog> {
    if |meds| == 0 then []
    else
      (if meds[0].id == log.medicationId && meds[0].patientId == patientId
       then [NamedLog(log, meds[0].name)] else [])
      + NamesFor(log, meds[1..], patientId)
  }

  /** `dose_logs dl JOIN medications m ON dl.medication_id = m.id WHERE m.patient_id = $1`. */
  function PatientLogs(logs: seq<DoseLog>, meds: seq<Medication>, patientId: int): seq<NamedLog> {
    if |logs| == 0 then []
    else NamesFor(logs[0], meds, patientId) + PatientLogs(logs[1..], meds, patientId)
  }

  lemma {:induction false} NamesForMembers(log: DoseLog, meds: seq<Medication>, patientId: int)
    ensures forall v :: v in NamesFor(log, meds, patientId) <==> v.log == log && OwnedBy(v, meds, patientId)
  {
    if |meds| > 0 {
      NamesForMembers(log, meds[1..], patientId);
      assert meds == [meds[0]] + meds[1..];
      forall v: NamedLog | v.log == log && OwnedBy(v, meds, patientId)
        ensures v in NamesFor(log, meds, patientId)
      {
        var m :| m in meds && m.id == v.log.medicationId && m.patientId == patientId
                 && m.name == v.medicationName;
        if m != meds[0] {
          assert m in meds[1..];
        }
      }
    }
  }

  /** The join holds exactly the patient's logs, each with its medication's name. */
  lemma {:induction false} PatientLogsMembers(logs: seq<DoseLog>, meds: seq<Medication>, patientId: int)
    ensures forall v :: v in PatientLogs(logs, meds, patientId) <==> v.log in logs && OwnedBy(v, meds, patientId)
  {
    if |logs| > 0 {
      NamesForMembers(logs[0], meds, patientId);
      PatientLogsMembers(logs[1..], meds, patientId);
      assert logs == [logs[0]] + logs[1..];
    }
  }

  /** `getDoseLogs`: the patient's logs, latest `actual_datetime` first, at most `limit`. */
  function GetDoseLogs(st: Store, patientId: int, limit: nat): (r: seq<NamedLog>)
    ensures |r| == Min(|PatientLogs(st.doseLogs, st.medications, patientId)|, limit)
    ensures multiset(r) <= multiset(PatientLogs(st.doseLogs, st.medications, patientId))
    ensures forall v :: v in r ==> v.log in st.doseLogs && OwnedBy(v, st.medications, patientId)
    ensures Sorted(r, (v: NamedLog) => v.log.actualDatetime, Descending)
    ensures |PatientLogs(st.doseLogs, st.medications, patientId)| <= limit ==>
      forall v: NamedLog :: v.log in st.doseLogs && OwnedBy(v, st.medications, patientId) ==> v in r
    ensures forall v, w ::
      v in multiset(PatientLogs(st.doseLogs, st.medications, patientId)) - multiset(r) && w in r ==>
        v.log.actualDatetime <= w.log.actualDatetime
  {
    var joined := PatientLogs(st.doseLogs, st.medications, patientId);
    PatientLogsMembers(st.doseLogs, st.medications, patientId);
    SortedTop(joined, (v: NamedLog) => v.log.actualDatetime, Descending, limit)
  }
}
