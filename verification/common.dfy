/** Values shared by every service and route: optional values, service results with the
    error texts the services throw, clock values and JavaScript truthiness of request fields. */
module Common {

  /** A nullable column or an absent request field. */
  datatype Option<+T> = None | Some(value: T) {
    function GetOr(default: T): T {
      match this
      case Some(v) => v
      case None => default
    }
  }

  /** The errors the services throw. */
  datatype Error =
    | MedicationNotFound
    | MalformedUpdate
    | UserAlreadyExists
    | InvalidCredentials
    | PatientNotFound
    | NullPatientId

  /** The `error.message` a route copies into its JSON body. A malformed UPDATE and a
      medication row without its owning patient carry the database's own error texts, which
      are left abstract here. */
  function Message(e: Error): string {
    match e
    case MedicationNotFound => "Medication not found"
    case MalformedUpdate => "syntax error in UPDATE"
    case UserAlreadyExists => "User already exists"
    case InvalidCredentials => "Invalid credentials"
    case PatientNotFound => "Patient not found"
    case NullPatientId => "null value in column patient_id violates not-null constraint"
  }

  /** The outcome of a service call: a value, or the error it throws. */
  datatype Result<+T> = Ok(value: T) | Err(error: Error)

  /** A timestamp, in seconds, in the database session's time zone. */
  type Instant = int
  /** A calendar day, as a day number. */
  type Day = int
  /** A time of day (a TIME column), in seconds after midnight. */
  type TimeOfDay = int

  const SecondsPerDay: int := 86400

  /** `DATE(t)`: the calendar day a timestamp falls on. */
  function DateOf(t: Instant): Day {
    t / SecondsPerDay
  }

  /** JavaScript truthiness of an optional string: absent and "" are falsy. */
  predicate Truthy(s: Option<string>) {
    s.Some? && s.value != ""
  }

  /** A JSON scalar of unknown type (a coordinate, a vital reading), kept as its text. */
  datatype Scalar = Number(rendered: string) | Text(text: string) {
    /** How a template literal renders the value. */
    function Render(): string {
      match this
      case Number(r) => r
      case Text(t) => t
    }
  }

  /** JavaScript truthiness of an optional scalar: absent, 0, NaN and "" are falsy. */
  predicate ScalarTruthy(v: Option<Scalar>) {
    match v
    case None => false
    case Some(Number(r)) => r != "0" && r != "NaN"
    case Some(Text(t)) => t != ""
  }

  /** The two roles a user account can have. */
  datatype Role = Patient | Caregiver

  function Min(a: int, b: int): int {
    if a <= b then a else b
  }
}
