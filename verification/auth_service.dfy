/** The account service: registration, login, caregiver-patient linking and the list of a
    caregiver's patients. Password hashing and token signing are foreign libraries: the
    hash arrives as a value, the password check as a predicate, and a token is modelled by
    the claims it signs. */
module AuthService {
  import opened Common
  import opened Store

  const DefaultTimezone: string := "UTC"

  /** The claims `generateToken` signs; the signature and the 7-day expiry are not modelled. */
  datatype Token = Token(id: int, email: string, role: Role, timezone: string)

  /** The user columns the service returns (never the password hash or the push token). */
  datatype PublicUser = PublicUser(id: int, email: string, name: string, role: Role, timezone: string)

  datatype Session = Session(user: PublicUser, token: Token)

  function Public(u: User): PublicUser {
    PublicUser(u.id, u.email, u.name, u.role, u.timezone)
  }

  function TokenFor(u: User): Token {
    Token(u.id, u.email, u.role, u.timezone)
  }

  predicate EmailTaken(users: seq<User>, email: string) {
    exists u :: u in users && u.email == email
  }

  /** The first row with the given e-mail (and, when `role` is given, that role). */
  function FindByEmail(users: seq<User>, email: string, role: Option<Role>): (r: Option<User>)
    ensures r.Some? ==> r.value in users && r.value.email == email
    ensures r.Some? && role.Some? ==> r.value.role == role.value
    ensures r.None? <==> forall u :: u in users ==> !(u.email == email && (role.None? || u.role == role.value))
    ensures UniqueEmails(users) && r.Some? ==> forall u :: u in users && u.email == email ==> u == r.value
  {
    if |users| == 0 then None
    else if users[0].email == email && (role.None? || users[0].role == role.value) then
      assert UniqueEmails(users) ==> forall u :: u in users[1..] ==> u.email != email by {
        if UniqueEmails(users) {
          forall u | u in users[1..] ensures u.email != email {
            var k :| 0 <= k < |users[1..]| && users[1..][k] == u;
            assert users[k + 1] == u;
          }
        }
      }
      Some(users[0])
    else
      assert users == [users[0]] + users[1..];
      assert UniqueEmails(users) ==> UniqueEmails(users[1..]) by {
        if UniqueEmails(users) {
          forall i, j | 0 <= i < j < |users[1..]| ensures users[1..][i].email != users[1..][j].email {
            assert users[1..][i] == users[i + 1] && users[1..][j] == users[j + 1];
          }
        }
      }
      FindByEmail(users[1..], email, role)
  }

  /** `registerUser`: a taken e-mail fails with "User already exists" and writes nothing;
      otherwise exactly one user is added, its time zone defaulting to UTC, and the session
      returned is that user's. */
  function RegisterUser(
    st: Store, email: string, passwordHash: string, name: string, role: Role,
    timezone: Option<string>, now: Instant
  ): (r: Outcome<Session>)
    ensures EmailTaken(st.users, email) ==> r == Outcome(Err(UserAlreadyExists), st)
    ensures !EmailTaken(st.users, email) ==>
      && r.result.Ok?
      && |r.store.users| == |st.users| + 1
      && r.store.users[..|st.users|] == st.users
      && (var u := r.store.users[|st.users|];
          && u.id == st.nextUserId && u.email == email && u.passwordHash == passwordHash
          && u.name == name && u.role == role && u.pushToken.None?
          && (timezone.None? ==> u.timezone == DefaultTimezone)
          && (timezone.Some? ==> u.timezone == timezone.value)
          && r.result.value == Session(Public(u), TokenFor(u)))
      && r.store == st.(users := r.store.users, nextUserId := st.nextUserId + 1)
    ensures Valid(st) ==> Valid(r.store)
  {
    if EmailTaken(st.users, email) then Outcome(Err(UserAlreadyExists), st)
    else
      var u := User(st.nextUserId, email, passwordHash, name, role, timezone.GetOr(DefaultTimezone),
                    None, now);
      var users := st.users + [u];
      assert users[..|st.users|] == st.users;
      assert Valid(st) ==> Keyed(users, UserId, st.nextUserId + 1) && UniqueEmails(users) by {
        if Valid(st) {
          AppendKeyed(st.users, UserId, st.nextUserId, u);
          forall i, j | 0 <= i < j < |users| ensures users[i].email != users[j].email {
            if j == |st.users| {
              assert users[i] in st.users;
            } else {
              assert users[i] == st.users[i] && users[j] == st.users[j];
            }
          }
        }
      }
      Outcome(Ok(Session(Public(u), TokenFor(u))), st.(users := users, nextUserId := st.nextUserId + 1))
  }

  /** `loginUser`: an unknown e-mail and a failing password check give the same
      "Invalid credentials" error; otherwise the session of the account with that e-mail. */
  function LoginUser(
    st: Store, email: string, password: string, passwordMatches: (string, string) -> bool
  ): (r: Result<Session>)
    ensures r.Err? ==> r.error == InvalidCredentials
    ensures !EmailTaken(st.users, email) ==> r.Err?
    ensures r.Ok? ==>
      exists u :: u in st.users && u.email == email
        && passwordMatches(password, u.passwordHash) && r.value == Session(Public(u), TokenFor(u))
    ensures UniqueEmails(st.users) ==>
      (r.Ok? <==> exists u :: u in st.users && u.email == email && passwordMatches(password, u.passwordHash))
  {
    match FindByEmail(st.users, email, None)
    case None => Err(InvalidCredentials)
    case Some(u) =>
      if !passwordMatches(password, u.passwordHash) then Err(InvalidCredentials)
      else Ok(Session(Public(u), TokenFor(u)))
  }

  /** Register then log in: in a consistent store, logging in to an account just registered
      returns the session registration returned exactly when the password matches the stored
      hash, and "Invalid credentials" otherwise. */
  lemma {:induction false} RegisterThenLogin(
    st: Store, email: string, password: string, passwordHash: string, name: string, role: Role,
    timezone: Option<string>, now: Instant, passwordMatches: (string, string) -> bool
  )
    requires Valid(st)
    ensures var r := RegisterUser(st, email, passwordHash, name, role, timezone, now);
      r.result.Ok? ==>
        LoginUser(r.store, email, password, passwordMatches)
          == (if passwordMatches(password, passwordHash) then r.result else Err(InvalidCredentials))
  {
    var r := RegisterUser(st, email, passwordHash, name, role, timezone, now);
    if r.result.Ok? {
      var u := r.store.users[|st.users|];
      assert u in r.store.users && u.email == email;
      assert FindByEmail(r.store.users, email, None) == Some(u);
    }
  }

  /** `linkPatientToCaregiver`: unless a patient account has that e-mail, fails with
      "Patient not found" and writes nothing; otherwise the pair is in the link table, added
      once (`ON CONFLICT DO NOTHING`). */
  function LinkPatientToCaregiver(st: Store, caregiverId: int, patientEmail: string): (r: Outcome<()>)
    ensures (forall u :: u in st.users && u.email == patientEmail ==> u.role != Patient) ==>
      r == Outcome(Err(PatientNotFound), st)
    ensures (exists u :: u in st.users && u.email == patientEmail && u.role == Patient) ==> r.result.Ok?
    ensures r.result.Err? ==> r == Outcome(Err(PatientNotFound), st)
    ensures r.result.Ok? ==>
      exists p :: p in st.users && p.email == patientEmail && p.role == Patient
        && r.store.links == (if Link(p.id, caregiverId) in st.links then st.links
                             else st.links + [Link(p.id, caregiverId)])
    ensures r.store == st.(links := r.store.links)
    ensures Valid(st) ==> Valid(r.store)
  {
    match FindByEmail(st.users, patientEmail, Some(Patient))
    case None => Outcome(Err(PatientNotFound), st)
    case Some(p) =>
      var link := Link(p.id, caregiverId);
      var links := if link in st.links then st.links else st.links + [link];
      assert UniqueLinks(st.links) ==> UniqueLinks(links) by {
        if UniqueLinks(st.links) && link !in st.links {
          forall i, j | 0 <= i < j < |links| ensures links[i] != links[j] {
            if j == |st.links| {
              assert links[i] in st.links;
            } else {
              assert links[i] == st.links[i] && links[j] == st.links[j];
            }
          }
        }
      }
      Outcome(Ok(()), st.(links := links))
  }

  /** `users u JOIN patient_caregivers pc ON u.id = pc.patient_id WHERE pc.caregiver_id = $1`. */
  function PatientRows(users: seq<User>, links: seq<Link>, caregiverId: int): seq<User> {
    if |links| == 0 then []
    else
      (if links[0].caregiverId == caregiverId
       then Sorting.Filter(users, (u: User) => u.id == links[0].patientId) else [])
      + PatientRows(users, links[1..], caregiverId)
  }

  lemma {:induction false} PatientRowsMembers(users: seq<User>, links: seq<Link>, caregiverId: int)
    ensures forall u :: u in PatientRows(users, links, caregiverId) <==>
      u in users && Link(u.id, caregiverId) in links
  {
    if |links| > 0 {
      PatientRowsMembers(users, links[1..], caregiverId);
      assert links == [links[0]] + links[1..];
    }
  }

  /** The public columns of each row, in order. */
  function Publics(rows: seq<User>): (r: seq<PublicUser>)
    ensures |r| == |rows| && forall i :: 0 <= i < |rows| ==> r[i] == Public(rows[i])
    ensures forall u :: u in rows ==> Public(u) in r
    ensures forall v :: v in r ==> exists u :: u in rows && v == Public(u)
  {
    var r := seq(|rows|, i requires 0 <= i < |rows| => Public(rows[i]));
    assert forall u :: u in rows ==> Public(u) in r by {
      forall u | u in rows ensures Public(u) in r {
        var i :| 0 <= i < |rows| && rows[i] == u;
        assert r[i] == Public(u);
      }
    }
    assert forall v :: v in r ==> exists u :: u in rows && v == Public(u) by {
      forall v | v in r ensures exists u :: u in rows && v == Public(u) {
        var i :| 0 <= i < |r| && r[i] == v;
        assert rows[i] in rows;
      }
    }
    r
  }

  /** With unique user ids and unique links, the join lists no patient twice. */
  lemma {:induction false} PatientRowsKeyed(users: seq<User>, links: seq<Link>, caregiverId: int, next: int)
    requires Keyed(users, UserId, next)
    requires UniqueLinks(links)
    ensures Keyed(PatientRows(users, links, caregiverId), UserId, next)
  {
    if |links| > 0 {
      var tail := links[1..];
      TailUniqueLinks(links);
      PatientRowsKeyed(users, tail, caregiverId, next);
      PatientRowsMembers(users, tail, caregiverId);
      var rest := PatientRows(users, tail, caregiverId);
      if links[0].caregiverId == caregiverId {
        var head := Sorting.Filter(users, (u: User) => u.id == links[0].patientId);
        FilterKeyed(users, (u: User) => u.id == links[0].patientId, UserId, next);
        assert forall x, y :: x in head && y in rest ==> x.id != y.id;
        AppendDisjointKeyed(head, rest, UserId, next);
      }
    }
  }

  /** `getLinkedPatients`: exactly the users linked to the caregiver as patients, nobody else,
      and in a consistent store each of them once. */
  function GetLinkedPatients(st: Store, caregiverId: int): (r: seq<PublicUser>)
    ensures forall u :: u in st.users && Link(u.id, caregiverId) in st.links ==> Public(u) in r
    ensures forall v :: v in r ==>
      exists u :: u in st.users && Link(u.id, caregiverId) in st.links && v == Public(u)
    ensures Valid(st) ==> forall i, j :: 0 <= i < j < |r| ==> r[i].id != r[j].id
  {
    var rows := PatientRows(st.users, st.links, caregiverId);
    PatientRowsMembers(st.users, st.links, caregiverId);
    var r := Publics(rows);
    assert Valid(st) ==> forall i, j :: 0 <= i < j < |r| ==> r[i].id != r[j].id by {
      if Valid(st) {
        PatientRowsKeyed(st.users, st.links, caregiverId, st.nextUserId);
      }
    }
    r
  }

  /** Linking twice leaves the store exactly as linking once does. */
  lemma LinkIdempotent(st: Store, caregiverId: int, patientEmail: string)
    ensures var once := LinkPatientToCaregiver(st, caregiverId, patientEmail);
      LinkPatientToCaregiver(once.store, caregiverId, patientEmail) == once
  {
    var once := LinkPatientToCaregiver(st, caregiverId, patientEmail);
    assert once.store.users == st.users;
  }

  /** After a successful link the caregiver's patient list contains the patient. */
  lemma LinkedPatientListed(st: Store, caregiverId: int, patientEmail: string)
    ensures var r := LinkPatientToCaregiver(st, caregiverId, patientEmail);
      r.result.Ok? ==>
        exists p :: p in st.users && p.email == patientEmail && p.role == Patient
          && Public(p) in GetLinkedPatients(r.store, caregiverId)
  {
    var r := LinkPatientToCaregiver(st, caregiverId, patientEmail);
    if r.result.Ok? {
      var p :| p in st.users && p.email == patientEmail && p.role == Patient
        && r.store.links == (if Link(p.id, caregiverId) in st.links then st.links
                             else st.links + [Link(p.id, caregiverId)]);
      assert Link(p.id, caregiverId) in r.store.links;
      assert p in r.store.users;
    }
  }
}
