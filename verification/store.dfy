/** The relational store the backend queries: one sequence of rows per table, in insertion
    order, and the next value of each table's SERIAL id. Column defaults of the schema are
    applied on insert: `is_active` is true, `created_at`, `updated_at`, `sent_at` and
    `recorded_at` are the insertion instant, and `read_at` is NULL. */
module Store {
  import opened Common
  import Sorting

  datatype User = User(
    id: int,
    email: string,
    passwordHash: string,
    name: string,
    role: Role,
    timezone: string,
    pushToken: Option<string>,
    updatedAt: Instant)

  datatype Medication = Medication(
    id: int,
    patientId: int,
    name: string,
    dosage: string,
    frequency: string,
    instructions: Option<string>,
    startDate: string,
    endDate: Option<string>,
    isActive: bool,
    currentSupply: Option<int>,
    refillThreshold: Option<int>,
    createdAt: Instant,
    updatedAt: Instant)

  /** A row of `medication_schedules`: a recurring time of day for one medication. */
  datatype Schedule = Schedule(
    id: int,
    medicationId: int,
    scheduledTime: TimeOfDay,
    daysOfWeek: Option<seq<int>>)

  /** The `status` column of `dose_logs`. Nothing rejects `upcoming` on the way in. */
  datatype DoseStatus = Taken | Missed | Skipped | Upcoming

  datatype DoseLog = DoseLog(
    id: int,
    medicationId: int,
    scheduleId: Option<int>,
    scheduledDatetime: Instant,
    actualDatetime: Instant,
    status: DoseStatus,
    notes: Option<string>)

  /** A row of `patient_caregivers`; the pair is the table's unique key. */
  datatype Link = Link(patientId: int, caregiverId: int)

  /** The JSON `data` column of a notification. */
  datatype Payload =
    | Location(latitude: Option<Scalar>, longitude: Option<Scalar>)
    | Json(text: string)

  /** A row of `notifications`; `kind` is the `type` column. */
  datatype Notification = Notification(
    id: int,
    userId: int,
    kind: string,
    title: string,
    body: string,
    data: Option<Payload>,
    sentAt: Instant,
    readAt: Option<Instant>)

  /** A row of `vitals`; `kind` is the `type` column. */
  datatype Vital = Vital(
    id: int,
    userId: int,
    kind: string,
    value: Scalar,
    unit: string,
    recordedAt: Instant,
    notes: Option<string>)

  datatype Appointment = Appointment(
    id: int,
    userId: int,
    doctorName: string,
    location: Option<string>,
    dateTime: Instant,
    notes: Option<string>,
    createdAt: Instant)

  datatype Store = Store(
    users: seq<User>,
    medications: seq<Medication>,
    schedules: seq<Schedule>,
    doseLogs: seq<DoseLog>,
    links: seq<Link>,
    notifications: seq<Notification>,
    vitals: seq<Vital>,
    appointments: seq<Appointment>,
    nextUserId: int,
    nextMedicationId: int,
    nextScheduleId: int,
    nextDoseLogId: int,
    nextNotificationId: int,
    nextVitalId: int,
    nextAppointmentId: int)

  /** The empty database: every SERIAL starts at 1. */
  const Empty: Store := Store([], [], [], [], [], [], [], [], 1, 1, 1, 1, 1, 1, 1)

  /** The result of a call that may write: what the service returns or throws, and the store
      after it. */
  datatype Outcome<+T> = Outcome(result: Result<T>, store: Store)

  /** Every id of `rows` is distinct and below the table's next SERIAL value. */
  predicate Keyed<T>(rows: seq<T>, idOf: T -> int, next: int) {
    && (forall i :: 0 <= i < |rows| ==> idOf(rows[i]) < next)
    && (forall i, j :: 0 <= i < j < |rows| ==> idOf(rows[i]) != idOf(rows[j]))
  }

  predicate UniqueEmails(users: seq<User>) {
    forall i, j :: 0 <= i < j < |users| ==> users[i].email != users[j].email
  }

  predicate UniqueLinks(links: seq<Link>) {
    forall i, j :: 0 <= i < j < |links| ==> links[i] != links[j]
  }

  function UserId(u: User): int { u.id }
  function MedicationId(m: Medication): int { m.id }
  function ScheduleId(s: Schedule): int { s.id }
  function DoseLogId(l: DoseLog): int { l.id }
  function NotificationId(n: Notification): int { n.id }
  function VitalId(v: Vital): int { v.id }
  function AppointmentId(a: Appointment): int { a.id }

  /** The integrity the schema and the services keep: SERIAL ids are unique and fresh, e-mail
      addresses are unique, and a patient-caregiver pair is stored at most once. */
  predicate Valid(st: Store) {
    && Keyed(st.users, UserId, st.nextUserId)
    && Keyed(st.medications, MedicationId, st.nextMedicationId)
    && Keyed(st.schedules, ScheduleId, st.nextScheduleId)
    && Keyed(st.doseLogs, DoseLogId, st.nextDoseLogId)
    && Keyed(st.notifications, NotificationId, st.nextNotificationId)
    && Keyed(st.vitals, VitalId, st.nextVitalId)
    && Keyed(st.appointments, AppointmentId, st.nextAppointmentId)
    && UniqueEmails(st.users)
    && UniqueLinks(st.links)
  }

  /** Appending a row that carries the next SERIAL value, then advancing it, keeps ids unique
      and fresh. */
  lemma AppendKeyed<T>(rows: seq<T>, idOf: T -> int, next: int, row: T)
    requires Keyed(rows, idOf, next)
    requires idOf(row) == next
    ensures Keyed(rows + [row], idOf, next + 1)
  {
    var r := rows + [row];
    forall i, j | 0 <= i < j < |r| ensures idOf(r[i]) != idOf(r[j]) {
      if j == |rows| {
        assert idOf(r[i]) < next;
      } else {
        assert r[i] == rows[i] && r[j] == rows[j];
      }
    }
  }

  /** Appending rows that carry the next SERIAL values in order keeps ids unique and fresh. */
  lemma AppendRunKeyed<T>(rows: seq<T>, more: seq<T>, idOf: T -> int, next: int)
    requires Keyed(rows, idOf, next)
    requires forall k :: 0 <= k < |more| ==> idOf(more[k]) == next + k
    ensures Keyed(rows + more, idOf, next + |more|)
  {
    var r := rows + more;
    forall i, j | 0 <= i < j < |r| ensures idOf(r[i]) != idOf(r[j]) {
      if j >= |rows| && i < |rows| {
        assert idOf(r[i]) < next && r[j] == more[j - |rows|];
      } else if i >= |rows| {
        assert r[i] == more[i - |rows|] && r[j] == more[j - |rows|];
      } else {
        assert r[i] == rows[i] && r[j] == rows[j];
      }
    }
    forall i | 0 <= i < |r| ensures idOf(r[i]) < next + |more| {
      if i >= |rows| {
        assert r[i] == more[i - |rows|];
      }
    }
  }

  /** Rewriting rows in place without touching their ids keeps ids unique and fresh. */
  lemma SameIdsKeyed<T>(rows: seq<T>, rows': seq<T>, idOf: T -> int, next: int)
    requires Keyed(rows, idOf, next)
    requires |rows'| == |rows|
    requires forall i :: 0 <= i < |rows| ==> idOf(rows'[i]) == idOf(rows[i])
    ensures Keyed(rows', idOf, next)
  {
  }

  /** Storing a run of notifications that carry the next SERIAL values, then advancing the
      counter past them, keeps the store consistent. */
  lemma AppendNotificationsValid(st: Store, more: seq<Notification>)
    requires Valid(st)
    requires forall k :: 0 <= k < |more| ==> more[k].id == st.nextNotificationId + k
    ensures Valid(st.(notifications := st.notifications + more,
                      nextNotificationId := st.nextNotificationId + |more|))
  {
    AppendRunKeyed(st.notifications, more, NotificationId, st.nextNotificationId);
  }

  /** Deleting rows (keeping the rest in order) keeps ids unique and fresh. */
  lemma {:induction false} FilterKeyed<T(!new)>(rows: seq<T>, keep: T -> bool, idOf: T -> int, next: int)
    requires Keyed(rows, idOf, next)
    ensures Keyed(Sorting.Filter(rows, keep), idOf, next)
  {
    if |rows| > 0 {
      var tail := rows[1..];
      TailKeyed(rows, idOf, next);
      FilterKeyed(tail, keep, idOf, next);
      var rest := Sorting.Filter(tail, keep);
      if keep(rows[0]) {
        forall x | x in rest ensures idOf(x) != idOf(rows[0]) {
          var k :| 0 <= k < |tail| && tail[k] == x;
          assert rows[k + 1] == x;
        }
        ConsKeyed(rows[0], rest, idOf, next);
        assert Sorting.Filter(rows, keep) == [rows[0]] + rest;
      } else {
        assert Sorting.Filter(rows, keep) == rest;
      }
    }
  }

  lemma TailKeyed<T>(rows: seq<T>, idOf: T -> int, next: int)
    requires Keyed(rows, idOf, next) && |rows| > 0
    ensures Keyed(rows[1..], idOf, next)
  {
    var tail := rows[1..];
    forall i, j | 0 <= i < j < |tail| ensures idOf(tail[i]) != idOf(tail[j]) {
      assert tail[i] == rows[i + 1] && tail[j] == rows[j + 1];
    }
  }

  lemma ConsKeyed<T>(h: T, rest: seq<T>, idOf: T -> int, next: int)
    requires Keyed(rest, idOf, next) && idOf(h) < next
    requires forall x :: x in rest ==> idOf(x) != idOf(h)
    ensures Keyed([h] + rest, idOf, next)
  {
    var r := [h] + rest;
    forall i, j | 0 <= i < j < |r| ensures idOf(r[i]) != idOf(r[j]) {
      if i == 0 {
        assert r[j] in rest;
      } else {
        assert r[i] == rest[i - 1] && r[j] == rest[j - 1];
      }
    }
  }

  /** Two keyed sequences with no id in common concatenate to a keyed sequence. */
  lemma AppendDisjointKeyed<T>(a: seq<T>, b: seq<T>, idOf: T -> int, next: int)
    requires Keyed(a, idOf, next) && Keyed(b, idOf, next)
    requires forall x, y :: x in a && y in b ==> idOf(x) != idOf(y)
    ensures Keyed(a + b, idOf, next)
  {
    var c := a + b;
    forall i, j | 0 <= i < j < |c| ensures idOf(c[i]) != idOf(c[j]) {
      if j < |a| {
        assert c[i] == a[i] && c[j] == a[j];
      } else if i >= |a| {
        assert c[i] == b[i - |a|] && c[j] == b[j - |a|];
      } else {
        assert c[i] in a && c[j] in b;
      }
    }
  }

  /** Dropping the first link keeps the links unique. */
  lemma TailUniqueLinks(links: seq<Link>)
    requires UniqueLinks(links) && |links| > 0
    ensures UniqueLinks(links[1..])
  {
    var tail := links[1..];
    forall i, j | 0 <= i < j < |tail| ensures tail[i] != tail[j] {
      assert tail[i] == links[i + 1] && tail[j] == links[j + 1];
    }
  }

  /** The empty database is consistent. */
  lemma EmptyValid()
    ensures Valid(Empty)
  {
  }
}
