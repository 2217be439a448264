# Medicare backend — a Dafny model of its services and routes

Medicare is a medication-adherence backend. Patients keep medications with recurring
schedules and log each dose as taken, missed or skipped. They also record vitals, book
appointments and raise an SOS. Caregivers link themselves to patients by e-mail. They then
read those patients' data and receive their SOS alerts. The Express routes check the caller
and the request body, then call a service. The service runs SQL against PostgreSQL.

This project models the services and routes as pure functions over an immutable `Store`.
The store holds one sequence of rows per table, in insertion order, and the next value of
each table's SERIAL id. A call that may write returns an `Outcome`: the service's value or
error, and the store after it. A route returns a `Handled`: the HTTP reply, and the store
after it. `Valid` is the integrity the schema and the code keep:

- ids are unique and below the next SERIAL value;
- e-mail addresses are unique;
- a patient–caregiver pair is stored once.

Every writing operation, in the services and in the routes that call them, is proved to preserve `Valid`.

Modules, following the source:

- `Common`: results and error messages, instants and days, JavaScript truthiness.
- `Sorting`: `WHERE`, `ORDER BY` and `LIMIT`.
- `Store`: the tables, the row types, and `Valid`.
- One module per service: `DoseService`, `MedicationService`, `NotificationService`,
  `AuthService`, `AppointmentService`, `VitalsService`.
- `Adherence`: how dose logging and the day's schedule fit together.
- `Http`: the caller, replies and status codes, and the two access rules the routes share.
- One module per route file: `MedicationRoutes`, `DoseRoutes`, `AppointmentRoutes`,
  `VitalsRoutes`, `AuthRoutes`.

Some things become parameters:

- the current instant and the current day;
- the password hash and the password check (bcrypt);
- the authenticated caller (`req.user`).

Instants are whole seconds, and `DateOf` maps an instant to its day.

The model follows the code, including where it does something a reader might not expect:

- `logDose` does not check that the medication exists. It never fails with "not found".
- Creating a medication, a schedule, a vital or an appointment never fails. Foreign keys and
  column checks live in migration files that are not part of this model.
- `getTodaySchedule` ignores `days_of_week`. Every schedule appears on every day
  (`MedicationService.DaysOfWeekIgnored`).
- A caregiver may read any patient's data by id. The routes do not check that the two are linked
  (`Http.TargetUser`).
- `deleteAppointment` deletes by id alone, whoever owns the appointment.
- `markAsRead` sets `read_at` again on a notification that is already read.

## Model

| member | source | states |
|---|---|---|
| DoseService.LogDose | backend/src/services/doseService.ts:13-39 | Logging a dose appends one log with the given fields; its actual time defaults to now. A taken dose lowers only that medication's supply, by one, and only while the supply is positive. A non-negative supply stays non-negative. No other table changes, and consistency is kept. |
| DoseService.TakenTwice | backend/src/services/doseService.ts:21-36 | The same taken dose logged twice gives two identical logs, apart from their ids and times. There is no duplicate check. The supply drops by two, but never below zero. |
| DoseService.NamesForMembers | backend/src/services/doseService.ts:43-48 | Each log is joined with exactly the names of the medications that share its medication id. |
| DoseService.PatientLogsMembers | backend/src/services/doseService.ts:43-49 | A joined row is listed exactly when its log belongs to a medication of the patient. |
| DoseService.GetDoseLogs | backend/src/services/doseService.ts:41-53 | Returns at most `limit` of the patient's joined logs, latest actual time first, each row at most as often as the join yields it. When the patient has no more than `limit` logs, all are returned. Every log left out is no later than every log returned. |
| MedicationService.CreateMedication | backend/src/services/medicationService.ts:24-43 | Creates one active medication for the patient with the given fields and the next id. Nothing else changes, and consistency is kept. |
| MedicationService.GetMedicationsByPatient | backend/src/services/medicationService.ts:45-52 | Lists exactly the patient's medications, every copy, newest creation time first. |
| MedicationService.FirstWithId | backend/src/services/medicationService.ts:71-75 | Gives the position of the first row with the id: that row has the id and no earlier row does. |
| MedicationService.PatchRows | backend/src/services/medicationService.ts:54-69 | Rows with the id take exactly the columns the patch names, plus the update time. Every other column and every other row is unchanged, and every id is kept. |
| MedicationService.UpdateMedication | backend/src/services/medicationService.ts:54-76 | An empty patch is a malformed statement and writes nothing. An unknown id fails with "Medication not found" and writes nothing. Otherwise a patched row with that id is returned and consistency is kept. |
| MedicationService.DeleteMedication | backend/src/services/medicationService.ts:78-84 | An unknown id fails and removes nothing. Otherwise exactly the rows with that id are gone, the rest keep their order, and consistency is kept. |
| MedicationService.AddMedicationSchedule | backend/src/services/medicationService.ts:86-99 | Adds one schedule row for the medication with the given time and days, and the next id. Consistency is kept. |
| MedicationService.CreateThenDelete | backend/src/services/medicationService.ts:24-84 | In a consistent store, deleting a medication just created succeeds. It restores the medication table exactly, and only the id counter has advanced. |
| MedicationService.LoggedRowsMembers | backend/src/services/medicationService.ts:104-117 | The joined rows of one (medication, schedule) pair are exactly its logs scheduled on that day. |
| MedicationService.SlotRowsMembers | backend/src/services/medicationService.ts:104-117 | Left-join semantics for one pair: its logs of the day, or a single row with a NULL status when there are none. |
| MedicationService.MedicationRowsMembers | backend/src/services/medicationService.ts:104-117 | A medication's rows are exactly the left-join rows of each of its own schedules. |
| MedicationService.JoinRowsMembers | backend/src/services/medicationService.ts:104-117 | The joined rows are exactly those that pair an active medication of the patient with one of its schedules. |
| MedicationService.GetTodaySchedule | backend/src/services/medicationService.ts:101-122 | The day's rows, in schedule-time order. Every active pair of the patient appears, with each log of that day or with a NULL status when none exists. Every NULL-status row comes from a pair that has no log. Nothing else appears, and each row occurs as often as the join yields it. |
| MedicationService.JoinRowsOpenAtMostOnce | backend/src/services/medicationService.ts:111-116 | With unique medication and schedule ids, the join yields any NULL-status row at most once. |
| MedicationService.OpenRowListedOnce | backend/src/services/medicationService.ts:101-122 | In a consistent store, an active pair with nothing logged that day is listed exactly once, with a NULL status. |
| MedicationService.LoggedRowsTwice | backend/src/services/medicationService.ts:113-115 | Two matching logs that give the same row both contribute it to the left join. |
| MedicationService.RepeatedLogListedTwice | backend/src/services/medicationService.ts:101-122 | Two logs of the same dose with the same status and time are listed as two rows, not merged into one. |
| MedicationService.LoggedRowsIgnoreDays | backend/src/services/medicationService.ts:104-117 | A pair's joined logs do not depend on the schedule's `days_of_week`. |
| MedicationService.MedicationRowsIgnoreDays | backend/src/services/medicationService.ts:104-117 | A medication's rows do not depend on any schedule's `days_of_week`. |
| MedicationService.JoinRowsIgnoreDays | backend/src/services/medicationService.ts:104-117 | The whole join does not depend on any schedule's `days_of_week`. |
| MedicationService.DaysOfWeekIgnored | backend/src/services/medicationService.ts:101-122 | Two stores that differ only in `days_of_week` give the same day's schedule. |
| Adherence.LoggedDoseListedToday | backend/src/services/doseService.ts:21-26 | After a dose is logged for an active schedule, that day's schedule lists the logged row and no longer a NULL-status row for the pair. Another day without a log still lists the NULL-status row. |
| NotificationService.SendNotification | backend/src/services/notificationService.ts:18-44 | Stores exactly one unread notification for the user with the given fields, whether or not the user has a push token. Consistency is kept. |
| NotificationService.GetNotifications | backend/src/services/notificationService.ts:46-52 | Returns at most `limit` of the user's notifications, latest first, each at most as often as it is stored. All are returned when the user has no more than `limit`. Every one left out was sent no later than every one returned. |
| NotificationService.MarkAsRead | backend/src/services/notificationService.ts:54-59 | Only rows with that id owned by that user get the read time; every other row and column is unchanged. Nothing fails, and consistency is kept. |
| NotificationService.SentNotificationListed | backend/src/services/notificationService.ts:18-52 | A notification just sent is in the user's list whenever the user had fewer than `limit` before it. |
| NotificationService.MarkedAsRead | backend/src/services/notificationService.ts:46-59 | After marking, every listed notification of the user with that id carries the read time. |
| NotificationService.Recipients | backend/src/services/notificationService.ts:63-80 | The SOS recipients are exactly the linked caregivers that have a non-empty push token. |
| NotificationService.CaregiverRowsMembers | backend/src/services/notificationService.ts:63-69 | The join gives exactly the users that a link of the patient names as caregiver. |
| NotificationService.CaregiverRowsKeyed | backend/src/services/notificationService.ts:63-69 | With unique user ids and unique links, the join returns no caregiver twice. |
| NotificationService.PatientName | backend/src/services/notificationService.ts:71-72 | Gives the name of the first user row with the patient's id when that name is non-empty, and "Patient" otherwise. |
| NotificationService.LocationText | backend/src/services/notificationService.ts:74-76 | The fixed "Location not available" text appears exactly when a coordinate is missing or falsy. Otherwise the text is the map-link prefix followed by the two coordinates, in order. |
| NotificationService.SendSOSNotification | backend/src/services/notificationService.ts:61-92 | The SOS stores one alert for each linked caregiver with a push token, in join order, with consecutive ids. No other table changes. |
| NotificationService.SosBatchAlerts | backend/src/services/notificationService.ts:79-91 | The k-th SOS alert goes to the k-th recipient, with the k-th next id, the SOS title and body, the location data, and no read time. In a consistent store the recipients are distinct. |
| NotificationService.SosBatchValid | backend/src/services/notificationService.ts:61-92 | Storing the SOS alerts keeps a consistent store consistent. |
| NotificationService.Alerts | backend/src/services/notificationService.ts:79-91 | There is one alert per caregiver. |
| NotificationService.AlertsAt | backend/src/services/notificationService.ts:79-91 | The alert at position k is for the k-th caregiver and has id `firstId + k`. |
| NotificationService.SosAlertsFiltered | backend/src/services/notificationService.ts:79-91 | Walking the rows and skipping those without a token equals alerting the token holders in order. |
| NotificationService.AlertEach | backend/src/services/notificationService.ts:79-91 | The loop stores the alerts for exactly the caregiver rows with a push token, in order, with consecutive ids. |
| NotificationService.RecipientsDistinct | backend/src/services/notificationService.ts:63-69 | In a consistent store no caregiver receives the same SOS twice. |
| AuthService.FindByEmail | backend/src/services/authService.ts:119-128 | Gives a user with that e-mail, and that role when one is asked for, exactly when one exists. With unique e-mails it is the only such user. |
| AuthService.RegisterUser | backend/src/services/authService.ts:44-76 | A taken e-mail fails with "User already exists" and writes nothing. Otherwise it adds exactly one user, with time zone UTC when none is given and no push token. It returns that user's public fields and token, and keeps consistency, including unique e-mails. |
| AuthService.LoginUser | backend/src/services/authService.ts:78-112 | An unknown e-mail and a wrong password both fail with "Invalid credentials". Otherwise it returns the session of the account with that e-mail. The store is only read. |
| AuthService.RegisterThenLogin | backend/src/services/authService.ts:44-112 | In a consistent store, logging in to an account just registered returns the registration session exactly when the password matches the stored hash. Otherwise it gives "Invalid credentials". |
| AuthService.LinkPatientToCaregiver | backend/src/services/authService.ts:114-137 | Fails with "Patient not found", writing nothing, exactly when no patient account has that e-mail. Otherwise it succeeds and the pair is stored exactly once. Consistency is kept. |
| AuthService.PatientRowsMembers | backend/src/services/authService.ts:140-146 | The join gives exactly the users that a link of the caregiver names as patient. |
| AuthService.GetLinkedPatients | backend/src/services/authService.ts:139-149 | Lists exactly the public fields of the users linked to the caregiver as patients. In a consistent store no patient is listed twice. |
| AuthService.PatientRowsKeyed | backend/src/services/authService.ts:140-146 | With unique user ids and unique links, the join yields each patient at most once. |
| AuthService.LinkIdempotent | backend/src/services/authService.ts:130-136 | Linking twice leaves the store exactly as linking once does. |
| AuthService.LinkedPatientListed | backend/src/services/authService.ts:114-149 | After a successful link, the caregiver's patient list contains the patient. |
| AppointmentService.CreateAppointment | backend/src/services/appointmentService.ts:13-27 | Appends exactly one appointment with the given fields and the next id. Consistency is kept. |
| AppointmentService.GetAppointments | backend/src/services/appointmentService.ts:29-35 | Lists exactly the user's appointments, every copy, earliest first. |
| AppointmentService.DeleteAppointment | backend/src/services/appointmentService.ts:37-39 | Exactly the rows with that id are gone, whoever owns them. The rest keep their order, and an unknown id changes nothing. |
| AppointmentService.BookThenCancel | backend/src/services/appointmentService.ts:13-39 | In a consistent store, cancelling an appointment just booked restores the appointment table exactly. |
| VitalsService.LogVital | backend/src/services/vitalsService.ts:13-27 | Appends exactly one reading with the given fields and the next id. Consistency is kept. |
| VitalsService.GetVitals | backend/src/services/vitalsService.ts:29-42 | Lists exactly the user's readings, every copy, of the given type when one is given, latest first. |
| VitalsService.LogVitalKeepsOthers | backend/src/services/vitalsService.ts:13-42 | A reading logged for one user leaves every other user's listing unchanged. |
| Http.TargetUser | backend/src/routes/vitalsRoutes.ts:26-41 | A list read targets the caller unless another id is named. Another id is granted to any caregiver and refused exactly to a patient. |
| MedicationRoutes.ListMedications | backend/src/routes/medicationRoutes.ts:11-32 | A patient naming someone else gets 403 "Unauthorized". Otherwise the reply is 200 with the target's medications. |
| MedicationRoutes.PostMedication | backend/src/routes/medicationRoutes.ts:35-60 | A patient gets 403 "Access denied" unless the body names that patient; a missing `patientId` never does. A caregiver who names no patient gets 400, because the row has no owner. Nothing is created in either case. Otherwise the reply is 201 with the medication `createMedication` creates from the body's fields for the named patient, and the store is the one it leaves. Consistency is kept. |
| MedicationRoutes.PatientMedications | backend/src/routes/medicationRoutes.ts:63-77 | The reply is 403 "Access denied" exactly when a patient names someone else. Otherwise it is 200 with that patient's medications. |
| MedicationRoutes.PatchMedication | backend/src/routes/medicationRoutes.ts:80-90 | The reply is 200 with the updated row, or 400 with the service's error message and the store unchanged. |
| MedicationRoutes.DeleteMedicationRoute | backend/src/routes/medicationRoutes.ts:93-101 | The reply is 204 after the delete, or 400 "Medication not found" with nothing removed. The store is the one `deleteMedication` leaves, and consistency is kept. |
| MedicationRoutes.PostSchedule | backend/src/routes/medicationRoutes.ts:104-119 | The reply is 201 with the schedule row the service added, with the given medication, time and days. The store is the one the service leaves, and consistency is kept. |
| MedicationRoutes.TodaySchedule | backend/src/routes/medicationRoutes.ts:122-136 | The reply is 403 exactly when a patient names someone else. Otherwise it is 200 with the day's schedule. |
| DoseRoutes.PostDose | backend/src/routes/doseRoutes.ts:10-27 | The reply is always 201 with the logged dose and the store `logDose` leaves. |
| DoseRoutes.RecentDoses | backend/src/routes/doseRoutes.ts:30-44 | The reply is 403 "Access denied" exactly when a patient names someone else. Otherwise it is 200 with at most 50 of the patient's latest logs. |
| AppointmentRoutes.ListAppointments | backend/src/routes/appointmentRoutes.ts:10-30 | A patient naming someone else gets 403 "Unauthorized". Otherwise the reply is 200 with the target's appointments. |
| AppointmentRoutes.PostAppointment | backend/src/routes/appointmentRoutes.ts:33-60 | A missing doctor name or date gives 400. A patient booking for someone else gives 403. Otherwise the reply is 201, booked for the named patient or the caller with the body's doctor, date, location and notes. The store is the one `createAppointment` leaves. A refused request writes nothing. Consistency is kept. |
| AppointmentRoutes.DeleteAppointmentRoute | backend/src/routes/appointmentRoutes.ts:63-70 | The reply is always 204, after deleting every appointment with that id. The store is the one `deleteAppointment` leaves, and consistency is kept. |
| VitalsRoutes.PostVital | backend/src/routes/vitalsRoutes.ts:8-21 | A falsy type, value or unit gives 400 "Missing required fields" and writes nothing. Otherwise the reading is logged for the caller with the body's fields, the store is the one `logVital` leaves, and the reply is 201. Consistency is kept. |
| VitalsRoutes.ListVitals | backend/src/routes/vitalsRoutes.ts:24-48 | A patient naming someone else gets 403 "Unauthorized". Otherwise the reply is 200 with the target's readings. |
| AuthRoutes.RoleNamed | backend/src/routes/authRoutes.ts:17-19 | Only "patient" and "caregiver" name a role. |
| AuthRoutes.RegisterRoute | backend/src/routes/authRoutes.ts:9-26 | Missing fields, then an unknown role, give 400 before the store is read. A taken e-mail gives 400 "User already exists". Otherwise the reply is 201 with the new account's session. Consistency is kept. |
| AuthRoutes.LoginRoute | backend/src/routes/authRoutes.ts:29-42 | A missing e-mail or password gives 400. Any login failure gives 401 "Invalid credentials". Otherwise the reply is 200 with the session. Nothing is written. |
| AuthRoutes.LinkPatientRoute | backend/src/routes/authRoutes.ts:45-58 | A missing e-mail gives 400. An e-mail no patient has gives 400 "Patient not found". When a patient has the e-mail, the reply is 201 and that patient is then among the caller's patients. The store is the service's, and consistency is kept. |
| AuthRoutes.LinkedPatientsRoute | backend/src/routes/authRoutes.ts:61-68 | The reply is 200 with exactly the caller's linked patients, each once in a consistent store. |
| AuthRoutes.PushTokenRoute | backend/src/routes/authRoutes.ts:71-88 | A missing token gives 400 and writes nothing. Otherwise only the caller's row changes, the reply is 200 "Push token saved", and consistency is kept. |

## Left out

- The `authenticate` middleware and JWT verification: the middleware is not part of this model. A route receives the caller's id and role as a `Caller`.
- `requireRole('caregiver')` on the link routes: the middleware is not part of this model. `LinkPatientRoute` and `LinkedPatientsRoute` require a caregiver caller instead.
- The JWT itself: a `Token` is the payload `generateToken` signs. The signature and expiry are not modelled.
- Password hashing and checking (bcrypt): they are parameters of the model.
- Database failures: the model's store never fails. Each route's `catch` would answer such a failure with the status it uses for service errors. That is 400 for creating, patching, deleting and scheduling a medication, logging a dose, registering and linking; 401 for login; and 500 for the other routes.
- Foreign keys, NOT NULL and CHECK constraints, and cascading deletes: the migration SQL is not part of this model.
- Sending push notifications: the source only logs them to the console.
- `notificationRoutes.ts`, `server.ts`, the migration script and the mobile app: they are outside the modelled core.
- Concurrency between requests: every call is modelled as atomic and sequential.
- Time zones: `DateOf` takes the database session's day boundary as whole 86400-second days.
- Query strings: `parseInt` of a `userId` query is modelled as an already parsed `Option<int>`. An empty or non-numeric value is `None`, and JavaScript's NaN comparisons are not modelled.
- `null` in JSON bodies: a missing field and `null` are the same `None`. So a `null` time zone defaults to UTC here, while the source would store NULL. The required fields are assumed present: a medication's name, dosage, frequency and start date, a schedule's time, and a dose's medication id, scheduled time and status. The source would forward a missing one as NULL, and what follows depends on NOT NULL constraints this model leaves out.
- `MedicationService.UpdateMedication`: the error for an empty patch is a fixed "malformed update" message standing in for PostgreSQL's syntax error. The `Patch` covers the medication's editable columns only. A body naming any other key is not modelled: an unknown key, `id`, `created_at` (which would move the row in the `created_at` order of `GetMedicationsByPatient`), or `updated_at` (which collides with the fixed `updated_at = NOW()` and fails).
- Queries without `ORDER BY` return rows in an order PostgreSQL does not specify. The model fixes table order, then join order. So the `rows[0]` of `loginUser`, `linkPatientToCaregiver`, `updateMedication`'s `RETURNING` and `PatientName`, the order of `getLinkedPatients`, and the order of the SOS alerts with their consecutive ids are one order the database may produce, not a promise of the source.
- `MedicationRoutes.PostMedication`: `patientId` is a parsed number or absent. A `patientId` sent as a JSON string is not modelled; the source's strict `!==` refuses even a patient's own id sent that way. The 400 for a caregiver without `patientId` stands for the database rejecting a medication row with no owning patient, whose exact error text is left abstract.
- `ORDER BY` ties: rows with equal keys may come back in any order. The contracts promise only key order and the multiset of rows, which for the medication schedule is exactly the join's.
- `NotificationService.SendSOSNotification`: its contract states the store it leaves. That the store stays consistent is stated by `NotificationService.SosBatchValid`, not by the method.
