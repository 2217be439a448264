/** The appointment service: booking, listing a user's appointments in date order, and
    deleting by id. */
module AppointmentService {
  import opened Common
  import opened Store
  import opened Sorting

  /** `createAppointment`: appends exactly one appointment with the given fields. */
  function CreateAppointment(
    st: Store, userId: int, doctorName: string, dateTime: Instant,
    location: Option<string>, notes: Option<string>, now: Instant
  ): (r: Outcome<Appointment>)
    ensures r.result.Ok?
    ensures var a := r.result.value;
      && r.store.appointments == st.appointments + [a]
      && a.id == st.nextAppointmentId
      && a.userId == userId && a.doctorName == doctorName && a.dateTime == dateTime
      && a.location == location && a.notes == notes && a.createdAt == now
    ensures r.store == st.(appointments := r.store.appointments,
                           nextAppointmentId := st.nextAppointmentId + 1)
    ensures Valid(st) ==> Valid(r.store)
  {
    var a := Appointment(st.nextAppointmentId, userId, doctorName, location, dateTime, notes, now);
    assert Valid(st) ==> Keyed(st.appointments + [a], AppointmentId, st.nextAppointmentId + 1) by {
      if Valid(st) { AppendKeyed(st.appointments, AppointmentId, st.nextAppointmentId, a); }
    }
    Outcome(Ok(a), st.(appointments := st.appointments + [a],
                       nextAppointmentId := st.nextAppointmentId + 1))
  }

  /** `getAppointments`: exactly the user's appointments, earliest `date_time` first. */
  function GetAppointments(st: Store, userId: int): (r: seq<Appointment>)
    ensures forall a :: a in r <==> a in st.appointments && a.userId == userId
    ensures forall a :: multiset(r)[a] == if a.userId == userId then multiset(st.appointments)[a] else 0
    ensures Sorted(r, (a: Appointment) => a.dateTime, Ascending)
  {
    var keep := (a: Appointment) => a.userId == userId;
    FilterMultiset(st.appointments, keep);
    var r := SortBy(Filter(st.appointments, keep), (a: Appointment) => a.dateTime, Ascending);
    assert forall a :: a in r <==> a in multiset(r);
    r
  }

  /** `WHERE id <> $1`, the rows a delete by id keeps. */
  function OtherThan(id: int): Appointment -> bool {
    (a: Appointment) => a.id != id
  }

  /** `deleteAppointment`: removes the rows with that id, of whichever user, and keeps the
      rest in order; an unknown id changes nothing and is not an error. */
  function DeleteAppointment(st: Store, id: int): (r: Outcome<()>)
    ensures r.result.Ok?
    ensures r.store == st.(appointments := r.store.appointments)
    ensures forall a :: a in r.store.appointments <==> a in st.appointments && a.id != id
    ensures r.store.appointments == Filter(st.appointments, OtherThan(id))
    ensures (forall a :: a in st.appointments ==> a.id != id) ==> r.store == st
    ensures Valid(st) ==> Valid(r.store)
  {
    var keep := OtherThan(id);
    if forall a :: a in st.appointments ==> a.id != id then
      FilterKeepsAll(st.appointments, keep);
      Outcome(Ok(()), st)
    else
      assert Valid(st) ==> Keyed(Filter(st.appointments, keep), AppointmentId, st.nextAppointmentId) by {
        if Valid(st) { FilterKeyed(st.appointments, keep, AppointmentId, st.nextAppointmentId); }
      }
      Outcome(Ok(()), st.(appointments := Filter(st.appointments, keep)))
  }

  /** Deleting an appointment just booked gives back the appointment table as it was; only
      the id sequence has moved on. */
  lemma {:induction false} BookThenCancel(
    st: Store, userId: int, doctorName: string, dateTime: Instant,
    location: Option<string>, notes: Option<string>, now: Instant
  )
    requires Valid(st)
    ensures var c := CreateAppointment(st, userId, doctorName, dateTime, location, notes, now);
      DeleteAppointment(c.store, c.result.value.id).store
        == st.(nextAppointmentId := st.nextAppointmentId + 1)
  {
    var c := CreateAppointment(st, userId, doctorName, dateTime, location, notes, now);
    var a := c.result.value;
    var keep := OtherThan(a.id);
    assert forall x :: x in st.appointments ==> keep(x) by {
      forall x | x in st.appointments ensures keep(x) {
        var i :| 0 <= i < |st.appointments| && st.appointments[i] == x;
        assert AppointmentId(st.appointments[i]) < st.nextAppointmentId;
      }
    }
    FilterDropsAppended(st.appointments, a, keep);
  }
}
