/** The notification service: storing a notification, reading and marking a user's
    notifications, and the SOS alert that fans out to a patient's linked caregivers. */
module NotificationService {
  import opened Common
  import opened Store
  import opened Sorting

  /** The name an SOS alert uses when the patient row or its name is missing. */
  const DefaultPatientName: string := "Patient"
  const SosKind: string := "sos"
  const NoLocationText: string := "Location not available"
  const MapsLinkPrefix: string := "Location: https://maps.google.com/?q="

  /** `sendNotification`: stores exactly one notification for the user, whether or not the
      user has a push token (the push itself is only logged). */
  function SendNotification(
    st: Store, userId: int, kind: string, title: string, body: string,
    data: Option<Payload>, now: Instant
  ): (r: Outcome<Notification>)
    ensures r.result.Ok?
    ensures var n := r.result.value;
      && r.store.notifications == st.notifications + [n]
      && n.id == st.nextNotificationId
      && n.userId == userId && n.kind == kind && n.title == title && n.body == body
      && n.data == data && n.sentAt == now && n.readAt.None?
    ensures r.store == st.(notifications := r.store.notifications,
                           nextNotificationId := st.nextNotificationId + 1)
    ensures Valid(st) ==> Valid(r.store)
  {
    var n := Notification(st.nextNotificationId, userId, kind, title, body, data, now, None);
    assert Valid(st) ==> Keyed(st.notifications + [n], NotificationId, st.nextNotificationId + 1) by {
      if Valid(st) { AppendKeyed(st.notifications, NotificationId, st.nextNotificationId, n); }
    }
    Outcome(Ok(n), st.(notifications := st.notifications + [n],
                       nextNotificationId := st.nextNotificationId + 1))
  }

  /** `WHERE user_id = $1`. */
  function AddressedTo(userId: int): Notification -> bool {
    (n: Notification) => n.userId == userId
  }

  /** The user's notifications, in table order. */
  function Inbox(st: Store, userId: int): seq<Notification> {
    Filter(st.notifications, AddressedTo(userId))
  }

  /** `getNotifications`: the user's notifications, latest `sent_at` first, at most `limit`;
      every one it leaves out was sent no later than every one it returns. */
  function GetNotifications(st: Store, userId: int, limit: nat): (r: seq<Notification>)
    ensures |r| == Min(|Inbox(st, userId)|, limit)
    ensures multiset(r) <= multiset(Inbox(st, userId))
    ensures forall n :: n in r ==> n in st.notifications && n.userId == userId
    ensures Sorted(r, (n: Notification) => n.sentAt, Descending)
    ensures |Inbox(st, userId)| <= limit ==>
      forall n :: n in st.notifications && n.userId == userId ==> n in r
    ensures forall n, n' :: n in multiset(Inbox(st, userId)) - multiset(r) && n' in r ==>
      n.sentAt <= n'.sentAt
  {
    var mine := Inbox(st, userId);
    SortedTop(mine, (n: Notification) => n.sentAt, Descending, limit)
  }

  /** `markAsRead`: sets `read_at` to `now` on the rows with that id owned by that user, even
      if already read; a notification of another user is left alone and nothing fails. */
  function MarkAsRead(st: Store, notificationId: int, userId: int, now: Instant): (r: Outcome<()>)
    ensures r.result.Ok?
    ensures r.store == st.(notifications := r.store.notifications)
    ensures |r.store.notifications| == |st.notifications|
    ensures forall i :: 0 <= i < |st.notifications| ==>
      var (n, n') := (st.notifications[i], r.store.notifications[i]);
      && (n.id == notificationId && n.userId == userId ==> n' == n.(readAt := Some(now)))
      && (n.id != notificationId || n.userId != userId ==> n' == n)
    ensures Valid(st) ==> Valid(r.store)
  {
    var ns := seq(|st.notifications|, i requires 0 <= i < |st.notifications| =>
      var n := st.notifications[i];
      if n.id == notificationId && n.userId == userId then n.(readAt := Some(now)) else n);
    assert Valid(st) ==> Keyed(ns, NotificationId, st.nextNotificationId) by {
      if Valid(st) { SameIdsKeyed(st.notifications, ns, NotificationId, st.nextNotificationId); }
    }
    Outcome(Ok(()), st.(notifications := ns))
  }

  /** Write then read: a notification just sent is among the user's listed notifications
      whenever the user had fewer than `limit` before it. */
  lemma {:induction false} SentNotificationListed(
    st: Store, userId: int, kind: string, title: string, body: string,
    data: Option<Payload>, now: Instant, limit: nat
  )
    requires |Inbox(st, userId)| < limit
    ensures var r := SendNotification(st, userId, kind, title, body, data, now);
      r.result.value in GetNotifications(r.store, userId, limit)
  {
    var r := SendNotification(st, userId, kind, title, body, data, now);
    var n := r.result.value;
    assert r.store.notifications == st.notifications + [n];
    assert |Inbox(r.store, userId)| <= limit by {
      FilterAppend(st.notifications, [n], AddressedTo(userId));
      assert [n][1..] == [];
    }
    assert n in r.store.notifications && n.userId == userId;
  }

  /** Mark then read: after `markAsRead`, every notification of that user with that id that
      the user can list carries the read time. */
  lemma {:induction false} MarkedAsRead(st: Store, notificationId: int, userId: int, now: Instant, limit: nat)
    ensures var r := MarkAsRead(st, notificationId, userId, now);
      forall n :: n in GetNotifications(r.store, userId, limit) && n.id == notificationId ==>
        n.readAt == Some(now)
  {
    var r := MarkAsRead(st, notificationId, userId, now);
    forall n | n in GetNotifications(r.store, userId, limit) && n.id == notificationId
      ensures n.readAt == Some(now)
    {
      var i :| 0 <= i < |r.store.notifications| && r.store.notifications[i] == n;
      assert st.notifications[i].id == n.id && st.notifications[i].userId == n.userId;
    }
  }

  /** The user rows a link of the patient names as caregiver:
      `users u JOIN patient_caregivers pc ON u.id = pc.caregiver_id WHERE pc.patient_id = $1`. */
  function CaregiverRows(users: seq<User>, links: seq<Link>, patientId: int): seq<User> {
    if |links| == 0 then []
    else
      (if links[0].patientId == patientId
       then Filter(users, (u: User) => u.id == links[0].caregiverId) else [])
      + CaregiverRows(users, links[1..], patientId)
  }

  /** `if (caregiver.push_token)`: a token is present and not empty. */
  predicate HasPushToken(u: User) {
    Truthy(u.pushToken)
  }

  /** The caregivers an SOS alert is stored for: linked ones that have a push token. */
  function Recipients(st: Store, patientId: int): (r: seq<User>)
    ensures forall u :: u in r <==>
      u in st.users && Link(patientId, u.id) in st.links && HasPushToken(u)
  {
    CaregiverRowsMembers(st.users, st.links, patientId);
    Filter(CaregiverRows(st.users, st.links, patientId), HasPushToken)
  }

  lemma {:induction false} CaregiverRowsMembers(users: seq<User>, links: seq<Link>, patientId: int)
    ensures forall u :: u in CaregiverRows(users, links, patientId) <==>
      u in users && Link(patientId, u.id) in links
  {
    if |links| > 0 {
      CaregiverRowsMembers(users, links[1..], patientId);
      assert links == [links[0]] + links[1..];
    }
  }

  /** With unique user ids and unique links, no caregiver is joined twice. */
  lemma {:induction false} CaregiverRowsKeyed(users: seq<User>, links: seq<Link>, patientId: int, next: int)
    requires Keyed(users, UserId, next)
    requires UniqueLinks(links)
    ensures Keyed(CaregiverRows(users, links, patientId), UserId, next)
  {
    if |links| > 0 {
      var tail := links[1..];
      TailUniqueLinks(links);
      CaregiverRowsKeyed(users, tail, patientId, next);
      CaregiverRowsMembers(users, tail, patientId);
      var rest := CaregiverRows(users, tail, patientId);
      if links[0].patientId == patientId {
        var head := Filter(users, (u: User) => u.id == links[0].caregiverId);
        FilterKeyed(users, (u: User) => u.id == links[0].caregiverId, UserId, next);
        assert forall x, y :: x in head && y in rest ==> x.id != y.id;
        AppendDisjointKeyed(head, rest, UserId, next);
      }
    }
  }

  /** `SELECT name FROM users WHERE id = $1`, first row, `|| 'Patient'`. */
  function PatientName(users: seq<User>, patientId: int): (name: string)
    ensures name != ""
    ensures (exists i :: 0 <= i < |users| && users[i].id == patientId) ==>
      exists i :: 0 <= i < |users| && users[i].id == patientId
        && (forall j :: 0 <= j < i ==> users[j].id != patientId)
        && name == (if users[i].name == "" then DefaultPatientName else users[i].name)
    ensures (forall u :: u in users ==> u.id != patientId) ==> name == DefaultPatientName
  {
    if |users| == 0 then DefaultPatientName
    else if users[0].id == patientId then
      (if users[0].name == "" then DefaultPatientName else users[0].name)
    else
      var name := PatientName(users[1..], patientId);
      assert forall i :: 1 <= i < |users| ==> users[i] == users[1..][i - 1];
      name
  }

  /** The location fragment: a map link when both coordinates are truthy, else a fixed text.
      The fixed text appears exactly when a coordinate is missing or falsy, and a link carries
      both coordinates, in order, after its prefix. */
  function LocationText(latitude: Option<Scalar>, longitude: Option<Scalar>): (text: string)
    ensures text == NoLocationText <==> !(ScalarTruthy(latitude) && ScalarTruthy(longitude))
    ensures text != NoLocationText ==>
      && |MapsLinkPrefix| <= |text|
      && text[..|MapsLinkPrefix|] == MapsLinkPrefix
      && text[|MapsLinkPrefix|..] == latitude.value.Render() + "," + longitude.value.Render()
  {
    if ScalarTruthy(latitude) && ScalarTruthy(longitude) then
      var coordinates := latitude.value.Render() + "," + longitude.value.Render();
      var link := MapsLinkPrefix + coordinates;
      assert link[8] != NoLocationText[8];
      assert link[..|MapsLinkPrefix|] == MapsLinkPrefix && link[|MapsLinkPrefix|..] == coordinates;
      link
    else NoLocationText
  }

  function SosTitle(name: string): string {
    "SOS from " + name
  }

  function SosBody(name: string, location: string): string {
    "EMERGENCY! " + name + " needs help. " + location
  }

  /** The stored SOS alert for one caregiver. */
  predicate IsSosAlert(n: Notification, id: int, caregiver: User, name: string,
                       latitude: Option<Scalar>, longitude: Option<Scalar>, now: Instant) {
    && n.id == id && n.userId == caregiver.id && n.kind == SosKind
    && n.title == SosTitle(name)
    && n.body == SosBody(name, LocationText(latitude, longitude))
    && n.data == Some(Location(latitude, longitude))
    && n.sentAt == now && n.readAt.None?
  }

  /** The alerts an SOS stores, stated directly: one per recipient, in order, with
      consecutive ids from the next free one. */
  function SosBatch(st: Store, patientId: int, latitude: Option<Scalar>, longitude: Option<Scalar>,
                    now: Instant): seq<Notification>
  {
    var name := PatientName(st.users, patientId);
    Alerts(Recipients(st, patientId), st.nextNotificationId, SosTitle(name),
           SosBody(name, LocationText(latitude, longitude)), Some(Location(latitude, longitude)), now)
  }

  /** The SOS alerts: the `k`-th is the alert for the `k`-th recipient, with the `k`-th next
      id; in a consistent store they go to distinct caregivers. */
  lemma SosBatchAlerts(st: Store, patientId: int, latitude: Option<Scalar>, longitude: Option<Scalar>,
                       now: Instant)
    ensures var (batch, rs) := (SosBatch(st, patientId, latitude, longitude, now), Recipients(st, patientId));
      && |batch| == |rs|
      && (forall k :: 0 <= k < |rs| ==>
            IsSosAlert(batch[k], st.nextNotificationId + k, rs[k], PatientName(st.users, patientId),
                       latitude, longitude, now))
      && (Valid(st) ==> forall i, j :: 0 <= i < j < |batch| ==> batch[i].userId != batch[j].userId)
  {
    var name := PatientName(st.users, patientId);
    AlertsAt(Recipients(st, patientId), st.nextNotificationId, SosTitle(name),
             SosBody(name, LocationText(latitude, longitude)), Some(Location(latitude, longitude)), now);
    if Valid(st) {
      RecipientsDistinct(st, patientId);
    }
  }

  /** Storing the SOS alerts keeps a consistent store consistent: the store
      `sendSOSNotification` leaves is consistent whenever the one it started from was. */
  lemma SosBatchValid(st: Store, patientId: int, latitude: Option<Scalar>,
                      longitude: Option<Scalar>, now: Instant)
    requires Valid(st)
    ensures Valid(st.(notifications := st.notifications + SosBatch(st, patientId, latitude, longitude, now),
                      nextNotificationId := st.nextNotificationId + |Recipients(st, patientId)|))
  {
    var name := PatientName(st.users, patientId);
    AlertsAt(Recipients(st, patientId), st.nextNotificationId, SosTitle(name),
             SosBody(name, LocationText(latitude, longitude)), Some(Location(latitude, longitude)), now);
    AppendNotificationsValid(st, SosBatch(st, patientId, latitude, longitude, now));
  }

  /** `sendSOSNotification`: walks the linked caregivers and stores one `sos` notification for
      each that has a push token, in join order; caregivers without a token and unlinked users
      get nothing, and nothing else in the store changes. */
  method SendSOSNotification(
    st: Store, patientId: int, latitude: Option<Scalar>, longitude: Option<Scalar>, now: Instant
  ) returns (st': Store)
    ensures st' == st.(notifications := st.notifications + SosBatch(st, patientId, latitude, longitude, now),
                       nextNotificationId := st.nextNotificationId + |Recipients(st, patientId)|)
  {
    var caregivers := CaregiverRows(st.users, st.links, patientId);
    var name := PatientName(st.users, patientId);
    var title, body, data := SosTitle(name), SosBody(name, LocationText(latitude, longitude)),
                             Some(Location(latitude, longitude));
    var added := AlertEach(caregivers, st.nextNotificationId, title, body, data, now);
    st' := st.(notifications := st.notifications + added,
               nextNotificationId := st.nextNotificationId + |added|);
  }

  /** The alerts stored for the caregivers `cs`, in order, with consecutive ids from
      `firstId`. */
  function Alerts(cs: seq<User>, firstId: int, title: string, body: string,
                  data: Option<Payload>, now: Instant): (r: seq<Notification>)
    ensures |r| == |cs|
  {
    if |cs| == 0 then []
    else
      Alerts(cs[..|cs| - 1], firstId, title, body, data, now)
        + [Notification(firstId + |cs| - 1, cs[|cs| - 1].id, SosKind, title, body, data, now, None)]
  }

  /** One more caregiver adds one more alert, with the next id, at the end. */
  lemma AlertsSnoc(cs: seq<User>, c: User, firstId: int, title: string, body: string,
                   data: Option<Payload>, now: Instant)
    ensures Alerts(cs + [c], firstId, title, body, data, now)
      == Alerts(cs, firstId, title, body, data, now)
         + [Notification(firstId + |cs|, c.id, SosKind, title, body, data, now, None)]
  {
    assert (cs + [c])[..|cs|] == cs;
  }

  /** The alert at position `k` is the one for the `k`-th caregiver, with id `firstId + k`. */
  lemma {:induction false} AlertsAt(cs: seq<User>, firstId: int, title: string, body: string,
                                    data: Option<Payload>, now: Instant)
    ensures forall k :: 0 <= k < |cs| ==>
      Alerts(cs, firstId, title, body, data, now)[k]
        == Notification(firstId + k, cs[k].id, SosKind, title, body, data, now, None)
  {
    if |cs| > 0 {
      var init := cs[..|cs| - 1];
      AlertsAt(init, firstId, title, body, data, now);
      forall k | 0 <= k < |init| ensures cs[k] == init[k] { }
    }
  }

  /** What the SOS loop stores after walking the caregiver rows `cs`: an alert for each row
      with a token, in row order, with consecutive ids from `firstId`. */
  function SosAlerts(cs: seq<User>, firstId: int, title: string, body: string,
                     data: Option<Payload>, now: Instant): seq<Notification>
  {
    if |cs| == 0 then []
    else
      var sent := SosAlerts(cs[..|cs| - 1], firstId, title, body, data, now);
      var c := cs[|cs| - 1];
      if HasPushToken(c)
      then sent + [Notification(firstId + |sent|, c.id, SosKind, title, body, data, now, None)]
      else sent
  }

  /** One step of `SosAlerts`: the last row adds an alert exactly when it has a token. */
  lemma SosAlertsSnoc(cs: seq<User>, firstId: int, title: string, body: string,
                      data: Option<Payload>, now: Instant)
    requires |cs| > 0
    ensures var sent := SosAlerts(cs[..|cs| - 1], firstId, title, body, data, now);
      var c := cs[|cs| - 1];
      SosAlerts(cs, firstId, title, body, data, now)
        == if HasPushToken(c)
           then sent + [Notification(firstId + |sent|, c.id, SosKind, title, body, data, now, None)]
           else sent
  {
  }

  /** The loop's alerts are those for the rows with a token, in order. */
  lemma {:induction false} SosAlertsFiltered(cs: seq<User>, firstId: int, title: string, body: string,
                                             data: Option<Payload>, now: Instant)
    ensures SosAlerts(cs, firstId, title, body, data, now)
      == Alerts(Filter(cs, HasPushToken), firstId, title, body, data, now)
  {
    if |cs| > 0 {
      var init, c := cs[..|cs| - 1], cs[|cs| - 1];
      var f := Filter(init, HasPushToken);
      SosAlertsFiltered(init, firstId, title, body, data, now);
      SosAlertsSnoc(cs, firstId, title, body, data, now);
      FilterSnoc(cs, HasPushToken);
      if HasPushToken(c) {
        AlertsSnoc(f, c, firstId, title, body, data, now);
      } else {
        assert f + [] == f;
      }
    }
  }

  /** The loop of `sendSOSNotification`: one alert, with consecutive ids from `firstId`, for
      each caregiver row that has a push token, in row order. */
  method AlertEach(
    caregivers: seq<User>, firstId: int, title: string, body: string,
    data: Option<Payload>, now: Instant
  ) returns (added: seq<Notification>)
    ensures added == Alerts(Filter(caregivers, HasPushToken), firstId, title, body, data, now)
  {
    added := [];
    var i := 0;
    while i < |caregivers|
      invariant 0 <= i <= |caregivers|
      invariant added == SosAlerts(caregivers[..i], firstId, title, body, data, now)
    {
      var c := caregivers[i];
      assert caregivers[..i + 1][..i] == caregivers[..i];
      if HasPushToken(c) {
        added := added + [Notification(firstId + |added|, c.id, SosKind, title, body, data, now, None)];
      }
      i := i + 1;
    }
    assert caregivers[..i] == caregivers;
    SosAlertsFiltered(caregivers, firstId, title, body, data, now);
  }

  /** In a consistent store no caregiver is an SOS recipient twice. */
  lemma RecipientsDistinct(st: Store, patientId: int)
    requires Valid(st)
    ensures forall i, j :: 0 <= i < j < |Recipients(st, patientId)| ==>
      Recipients(st, patientId)[i].id != Recipients(st, patientId)[j].id
  {
    CaregiverRowsKeyed(st.users, st.links, patientId, st.nextUserId);
    FilterKeyed(CaregiverRows(st.users, st.links, patientId), HasPushToken, UserId, st.nextUserId);
  }
}
