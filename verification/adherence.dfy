/** How dose logging and the day's schedule fit together: a logged dose replaces the
    not-yet-logged row of its (medication, schedule) pair on its own day, and on no other. */
module Adherence {
  import opened Common
  import opened Store
  import opened MedicationService
  import opened DoseService

  /** After a dose is logged for a schedule of an active medication, that day's schedule shows
      the log's status for the pair and no longer a NULL one; any other day on which the pair
      had no log still shows it with a NULL status. */
  lemma LoggedDoseListedToday(
    st: Store, patientId: int, i: nat, s: Schedule, scheduledDatetime: Instant,
    status: DoseStatus, actualDatetime: Option<Instant>, notes: Option<string>, now: Instant,
    other: Day)
    requires i < |st.medications| && s in st.schedules
    requires ActiveSlot(st.medications[i], s, patientId)
    ensures var m := st.medications[i];
      var o := LogDose(st, m.id, scheduledDatetime, status, actualDatetime, Some(s.id), notes, now);
      var today := DateOf(scheduledDatetime);
      && LoggedRow(m, s, o.result.value) in GetTodaySchedule(o.store, patientId, today)
      && OpenRow(m, s) !in GetTodaySchedule(o.store, patientId, today)
      && (other != today && NoLogFor(st.doseLogs, m, s, other) ==>
            OpenRow(m, s) in GetTodaySchedule(o.store, patientId, other))
  {
    var m := st.medications[i];
    var o := LogDose(st, m.id, scheduledDatetime, status, actualDatetime, Some(s.id), notes, now);
    var today := DateOf(scheduledDatetime);
    var log := o.result.value;
    var m' := o.store.medications[i];
    assert m' in o.store.medications && ActiveSlot(m', s, patientId);
    assert LoggedRow(m', s, log) == LoggedRow(m, s, log) && OpenRow(m', s) == OpenRow(m, s);
    assert log in o.store.doseLogs && LogMatches(log, m', s, today);
    LogListed(o.store, patientId, today, m', s, log);
    OpenRowGone(o.store, patientId, today, m', s, log);
    if other != today && NoLogFor(st.doseLogs, m, s, other) {
      assert NoLogFor(o.store.doseLogs, m', s, other);
      OpenRowListed(o.store, patientId, other, m', s);
    }
  }

  /** A matching log of an active pair is listed on its day. */
  lemma LogListed(st: Store, patientId: int, today: Day, m: Medication, s: Schedule, l: DoseLog)
    requires m in st.medications && s in st.schedules && ActiveSlot(m, s, patientId)
    requires l in st.doseLogs && LogMatches(l, m, s, today)
    ensures LoggedRow(m, s, l) in GetTodaySchedule(st, patientId, today)
  {
  }

  /** Once a log matches a pair on a day, the pair's NULL-status row is gone from that day. */
  lemma OpenRowGone(st: Store, patientId: int, today: Day, m: Medication, s: Schedule, l: DoseLog)
    requires l in st.doseLogs && LogMatches(l, m, s, today)
    ensures OpenRow(m, s) !in GetTodaySchedule(st, patientId, today)
  {
    assert forall m2, s2 :: OpenRow(m2, s2) == OpenRow(m, s) ==> LogMatches(l, m2, s2, today);
  }

  /** An active pair with no log on a day is listed on that day with a NULL status. */
  lemma OpenRowListed(st: Store, patientId: int, today: Day, m: Medication, s: Schedule)
    requires m in st.medications && s in st.schedules && ActiveSlot(m, s, patientId)
    requires NoLogFor(st.doseLogs, m, s, today)
    ensures OpenRow(m, s) in GetTodaySchedule(st, patientId, today)
  {
  }
}
