/** The `/auth` routes. The body's `role` arrives as text; the password hash is a parameter
    (`hash`) because bcrypt is not modelled. The two caregiver-only routes sit behind
    `requireRole('caregiver')`, which appears here as a precondition. */
module AuthRoutes {
  import opened Common
  import opened Store
  import opened Http
  import opened AuthService

  /** The role names the register route accepts. */
  function RoleNamed(name: string): (r: Option<Role>)
    ensures r == Some(Patient) <==> name == "patient"
    ensures r == Some(Caregiver) <==> name == "caregiver"
    ensures r.None? <==> name != "patient" && name != "caregiver"
  {
    if name == "patient" then Some(Patient)
    else if name == "caregiver" then Some(Caregiver)
    else None
  }

  /** The JSON body of `POST /auth/register`. */
  datatype RegisterBody = RegisterBody(
    email: Option<string>, password: Option<string>, name: Option<string>,
    role: Option<string>, timezone: Option<string>)

  predicate RegisterComplete(b: RegisterBody) {
    Truthy(b.email) && Truthy(b.password) && Truthy(b.name) && Truthy(b.role)
  }

  /** `POST /auth/register`: missing fields, then an unknown role, are refused with 400 before
      the store is read; a taken e-mail is 400 "User already exists"; otherwise 201 with the
      new account's session. */
  function RegisterRoute(st: Store, body: RegisterBody, hash: string -> string, now: Instant): (r: Handled<Session>)
    ensures !RegisterComplete(body) ==> r == Handled(Refusal(BadRequest400, "Missing required fields"), st)
    ensures RegisterComplete(body) && RoleNamed(body.role.value).None? ==>
      r == Handled(Refusal(BadRequest400, "Invalid role"), st)
    ensures RegisterComplete(body) && RoleNamed(body.role.value).Some? ==>
      var o := RegisterUser(st, body.email.value, hash(body.password.value), body.name.value,
                            RoleNamed(body.role.value).value, body.timezone, now);
      && r.store == o.store
      && (o.result.Ok? ==> r.reply == Success(Created201, o.result.value))
      && (o.result.Err? ==> r.reply == Refusal(BadRequest400, "User already exists"))
    ensures r.reply.Success? ==>
      && r.reply.status == Created201
      && r.reply.value.user.email == body.email.value
      && !EmailTaken(st.users, body.email.value)
      && Public(r.store.users[|st.users|]) == r.reply.value.user
    ensures r.reply.Refusal? ==> r.store == st && r.reply.status == BadRequest400
    ensures Valid(st) ==> Valid(r.store)
  {
    if !RegisterComplete(body) then Handled(Refusal(BadRequest400, "Missing required fields"), st)
    else
      match RoleNamed(body.role.value)
      case None => Handled(Refusal(BadRequest400, "Invalid role"), st)
      case Some(role) =>
        var o := RegisterUser(st, body.email.value, hash(body.password.value), body.name.value,
                              role, body.timezone, now);
        match o.result
        case Ok(session) => Handled(Success(Created201, session), o.store)
        case Err(e) => Handled(BadRequest(e), o.store)
  }

  /** `POST /auth/login`: a missing e-mail or password is 400; any failure after that is 401
      "Invalid credentials"; otherwise 200 with the session. */
  function LoginRoute(
    st: Store, email: Option<string>, password: Option<string>,
    passwordMatches: (string, string) -> bool
  ): (r: Reply<Session>)
    ensures !(Truthy(email) && Truthy(password)) ==> r == Refusal(BadRequest400, "Missing email or password")
    ensures Truthy(email) && Truthy(password) && r.Refusal? ==>
      r == Refusal(Unauthorized401, "Invalid credentials")
    ensures Truthy(email) && Truthy(password) && UniqueEmails(st.users) ==>
      (r.Success? <==> exists u :: u in st.users && u.email == email.value
                                   && passwordMatches(password.value, u.passwordHash))
    ensures r.Success? ==>
      r.status == Ok200 &&
      exists u :: u in st.users && u.email == email.value && r.value == Session(Public(u), TokenFor(u))
  {
    if !(Truthy(email) && Truthy(password)) then Refusal(BadRequest400, "Missing email or password")
    else
      match LoginUser(st, email.value, password.value, passwordMatches)
      case Ok(session) => Success(Ok200, session)
      case Err(e) => Refusal(Unauthorized401, Message(e))
  }

  /** `POST /auth/link-patient`: a missing e-mail is 400; an e-mail no patient has is 400
      "Patient not found"; otherwise 201 and the patient is then among the caller's patients. */
  function LinkPatientRoute(st: Store, caller: Caller, patientEmail: Option<string>): (r: Handled<string>)
    requires caller.role == Caregiver
    ensures !Truthy(patientEmail) ==> r == Handled(Refusal(BadRequest400, "Missing patient email"), st)
    ensures Truthy(patientEmail) ==>
      var o := LinkPatientToCaregiver(st, caller.id, patientEmail.value);
      && r.store == o.store
      && (o.result.Ok? ==> r.reply == Success(Created201, "Patient linked successfully"))
      && (o.result.Err? ==> r.reply == Refusal(BadRequest400, "Patient not found"))
    ensures (Truthy(patientEmail) &&
             exists u :: u in st.users && u.email == patientEmail.value && u.role == Patient) ==>
      r.reply == Success(Created201, "Patient linked successfully")
    ensures r.reply.Success? ==>
      exists p :: p in st.users && p.email == patientEmail.value && p.role == Patient
        && Public(p) in GetLinkedPatients(r.store, caller.id)
    ensures Valid(st) ==> Valid(r.store)
  {
    if !Truthy(patientEmail) then Handled(Refusal(BadRequest400, "Missing patient email"), st)
    else
      var o := LinkPatientToCaregiver(st, caller.id, patientEmail.value);
      if o.result.Err? then Handled(BadRequest(o.result.error), o.store)
      else
        LinkedPatientListed(st, caller.id, patientEmail.value);
        Handled(Success(Created201, "Patient linked successfully"), o.store)
  }

  /** `GET /auth/linked-patients`: 200 with the caller's linked patients, each once in a
      consistent store. */
  function LinkedPatientsRoute(st: Store, caller: Caller): (r: Reply<seq<PublicUser>>)
    requires caller.role == Caregiver
    ensures r.Success? && r.status == Ok200
    ensures forall u :: u in st.users && Link(u.id, caller.id) in st.links ==> Public(u) in r.value
    ensures forall v :: v in r.value ==>
      exists u :: u in st.users && Link(u.id, caller.id) in st.links && v == Public(u)
    ensures Valid(st) ==> forall i, j :: 0 <= i < j < |r.value| ==> r.value[i].id != r.value[j].id
  {
    Success(Ok200, GetLinkedPatients(st, caller.id))
  }

  /** `UPDATE users SET push_token = $1, updated_at = NOW() WHERE id = $2`. */
  function SetPushToken(users: seq<User>, id: int, token: string, now: Instant): seq<User> {
    seq(|users|, i requires 0 <= i < |users| =>
      if users[i].id == id then users[i].(pushToken := Some(token), updatedAt := now) else users[i])
  }

  /** `POST /auth/push-token`: a missing token is 400; otherwise only the caller's row changes,
      in its token and its update time, and 200 "Push token saved". */
  function PushTokenRoute(st: Store, caller: Caller, pushToken: Option<string>, now: Instant): (r: Handled<string>)
    ensures !Truthy(pushToken) ==> r == Handled(Refusal(BadRequest400, "Missing push token"), st)
    ensures Truthy(pushToken) ==>
      && r.reply == Success(Ok200, "Push token saved")
      && r.store == st.(users := r.store.users)
      && |r.store.users| == |st.users|
      && (forall i :: 0 <= i < |st.users| && st.users[i].id != caller.id ==> r.store.users[i] == st.users[i])
      && (forall i :: 0 <= i < |st.users| && st.users[i].id == caller.id ==>
            r.store.users[i] == st.users[i].(pushToken := pushToken, updatedAt := now))
    ensures Valid(st) ==> Valid(r.store)
  {
    if !Truthy(pushToken) then Handled(Refusal(BadRequest400, "Missing push token"), st)
    else
      var users := SetPushToken(st.users, caller.id, pushToken.value, now);
      assert Valid(st) ==> Keyed(users, UserId, st.nextUserId) by {
        if Valid(st) { SameIdsKeyed(st.users, users, UserId, st.nextUserId); }
      }
      Handled(Success(Ok200, "Push token saved"), st.(users := users))
  }
}
