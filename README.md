# YouFlow booking server, modelled in Dafny

YouFlow is an appointment-booking server. Businesses offer services and publish availability
slots, and signed-in customers reserve, cancel and reschedule them. This project models the
server's core and proves properties of it:

- **The booking transaction engine** (`reservation.service.ts`).
  - `ReservationModel` expresses each transaction as one atomic step over a `Store`. A store holds
    the slots' statuses, the reservations by id, and the next id of the reservations' sequence.
  - `ReservationService.BookingEngine` is a class over the same three tables as mutable fields.
    Its methods run the source's reads and writes in order, and each is proved equal to its step
    in `ReservationModel`.
  - The central property is the occupancy invariant (`ReservationModel.Occupancy`): a slot is
    booked exactly when one pending or confirmed reservation refers to it. Create keeps it.
    Cancel and reschedule keep it only for a reservation that is still active. The source never
    checks that, so the model exhibits the states where it breaks (see "Findings").
- **The reservation controller**: the body checks that run before each service call, and the
  table from the service's thrown message to the HTTP status. End-to-end lemmas compose each
  table with the engine.
- **The request validators** (`validation.ts`). The email check is proved equal to what its
  regular expression describes. Each validator calls `next` exactly when all of its checks pass,
  and otherwise answers the first failing check's message.
- **The service-layer guards** for slots and service offerings.
- **The parameterised-SQL builders** of the four repositories. The `fields`/`values`/`paramIndex`
  pushes are a loop-free sequence of `Sql.PushIf` calls. They are proved to keep placeholder
  `$k` naming `values[k-1]`, with the id at `$(n+1)`. Each statement is represented by its text
  and value list.
- **The error handler and the authentication middleware.** JWT verification is a function
  parameter standing for `jwt.verify`.
- **The migration runner**: which `.sql` files are pending and in what order, and the
  all-or-nothing application of each file together with its record.

JavaScript semantics the guards depend on are modelled in `Js`:

- truthiness;
- `Number.isInteger`;
- the `\s` character class and `trim()`;
- `includes()`;
- UTF-16 `length`.

Every time value is an integer, so `new Date(...)` parsing and the database's `NOW()` are
parameters or left out.

## Model

| member | source | states |
|---|---|---|
| ReservationModel.Create | server/src/services/reservation.service.ts:10-49 | An unknown slot fails with "Slot not found" and a booked slot with "Slot already booked", both leaving the store unchanged. Otherwise it adds one pending reservation with the given user and slot, books that slot, returns the inserted row, and changes nothing else. |
| ReservationModel.Get | server/src/services/reservation.service.ts:51-57 | Returns the stored row iff the id exists, else "Reservation not found". |
| ReservationModel.Cancel | server/src/services/reservation.service.ts:72-102 | An unknown id fails with "Reservation not found" and changes nothing. Otherwise the reservation becomes cancelled whatever its prior status, its slot becomes available, and nothing else changes. |
| ReservationModel.Reschedule | server/src/services/reservation.service.ts:105-160 | Errors come in the order reservation, new slot missing, new slot booked, and each leaves the store unchanged. On success the slot id is replaced and the status kept; the old slot is freed, then the new one booked. |
| ReservationModel.UpdateStatus | server/src/services/reservation.service.ts:63-69 | Sets only the reservation's status and never changes a slot. An unknown id fails with "Reservation not found". |
| ReservationModel.Delete | server/src/services/reservation.service.ts:162-167 | Removes only that reservation and never changes a slot. An unknown id fails with "Reservation not found". |
| ReservationModel.OccupancyCounts | server/src/services/reservation.service.ts:25-39 | Under the invariant, a slot has at most one active reservation, and it is booked iff it has exactly one. |
| ReservationModel.CreatePreservesOccupancy | server/src/services/reservation.service.ts:21-39 | Create keeps the occupancy invariant and the well-formedness of ids. |
| ReservationModel.CancelActivePreservesOccupancy | server/src/services/reservation.service.ts:78-93 | Cancelling an active or unknown reservation keeps the invariant. |
| ReservationModel.RescheduleActivePreservesOccupancy | server/src/services/reservation.service.ts:112-149 | Rescheduling an active or unknown reservation keeps the invariant. |
| ReservationModel.UpdateStatusPreservesOccupancy | server/src/services/reservation.service.ts:63-69 | A status change that keeps the reservation active (or keeps it inactive) keeps the invariant. |
| ReservationModel.DeleteInactivePreservesOccupancy | server/src/services/reservation.service.ts:162-167 | Deleting an inactive or unknown reservation keeps the invariant. |
| ReservationModel.CancelInactiveFreesHeldSlot | server/src/services/reservation.service.ts:84-93 | Cancelling an inactive reservation whose slot is now held by another active reservation frees the slot, which breaks the invariant. |
| ReservationModel.DoubleCancelScenario | server/src/services/reservation.service.ts:84-93 | Book slot 1 as R1, cancel R1, book slot 1 as R2, cancel R1 again: slot 1 is available while R2 is pending on it. |
| ReservationModel.RescheduleInactiveBooksEmptySlot | server/src/services/reservation.service.ts:118-149 | Rescheduling an inactive reservation books the new slot with no active reservation on it. |
| ReservationModel.DeactivatingStatusStrandsSlot | server/src/services/reservation.service.ts:63-69 | Setting an active reservation to cancelled or completed leaves its slot booked with no holder. |
| ReservationModel.DeleteActiveStrandsSlot | server/src/services/reservation.service.ts:162-167 | Deleting an active reservation leaves its slot booked with no holder. |
| ReservationModel.CancelChecked | server/src/services/reservation.service.ts:84-93 | The corrected cancel: refuses an inactive reservation with the store unchanged, and otherwise is Cancel. |
| ReservationModel.RescheduleChecked | server/src/services/reservation.service.ts:118-149 | The corrected reschedule: refuses an inactive reservation with the store unchanged, and otherwise is Reschedule. |
| ReservationModel.CancelCheckedPreservesOccupancy | server/src/services/reservation.service.ts:84-93 | The corrected cancel keeps the invariant for every id. |
| ReservationModel.RescheduleCheckedPreservesOccupancy | server/src/services/reservation.service.ts:118-149 | The corrected reschedule keeps the invariant for every id and slot. |
| ReservationService.BookingEngine.CreateReservation | server/src/services/reservation.service.ts:10-49 | The reads and writes on the fields give exactly ReservationModel.Create's result and store, and keep the invariant. |
| ReservationService.BookingEngine.GetReservationById | server/src/services/reservation.service.ts:51-57 | Returns ReservationModel.Get of the current tables and changes nothing. |
| ReservationService.BookingEngine.UpdateReservationStatus | server/src/services/reservation.service.ts:63-69 | Equals ReservationModel.UpdateStatus, and keeps the invariant when activeness is unchanged. |
| ReservationService.BookingEngine.CancelReservation | server/src/services/reservation.service.ts:72-102 | Equals ReservationModel.Cancel, and keeps the invariant for an active or unknown reservation. |
| ReservationService.BookingEngine.RescheduleReservation | server/src/services/reservation.service.ts:105-160 | Equals ReservationModel.Reschedule, and keeps the invariant for an active or unknown reservation. |
| ReservationService.BookingEngine.CancelReservationChecked | server/src/services/reservation.service.ts:72-102 | Equals ReservationModel.CancelChecked, and keeps the invariant unconditionally. |
| ReservationService.BookingEngine.RescheduleReservationChecked | server/src/services/reservation.service.ts:105-160 | Equals ReservationModel.RescheduleChecked, and keeps the invariant unconditionally. |
| ReservationService.BookingEngine.DeleteReservation | server/src/services/reservation.service.ts:162-167 | Equals ReservationModel.Delete, and keeps the invariant for an inactive or unknown reservation. |
| ReservationController.Raised | server/src/services/reservation.service.ts:22 | Each service error is thrown as an Error carrying its message. |
| ReservationController.CreateDispatch | server/src/controllers/reservation.controller.ts:8-23 | A falsy slot_id answers 400 before the login check, and a missing user answers 401. The service is called iff both are present, with the claims' user id and the body's slot_id. |
| ReservationController.CreateReply | server/src/controllers/reservation.controller.ts:25-35 | 201 with the row iff success; 404 iff "Slot not found"; 409 iff "Slot already booked"; 500 with a fixed message for anything else. |
| ReservationController.CreateEndpoint | server/src/controllers/reservation.controller.ts:6-37 | For a signed-in user and a non-zero slot id: 201, 404 or 409 exactly as the slot is free, unknown or booked. |
| ReservationController.GetReply | server/src/controllers/reservation.controller.ts:55-63 | 200 iff success; 404 iff "Reservation not found"; otherwise 500. |
| ReservationController.GetEndpoint | server/src/controllers/reservation.controller.ts:53-65 | 200 iff the id exists, 404 iff not. |
| ReservationController.UpdateStatusDispatch | server/src/controllers/reservation.controller.ts:70-78 | A falsy status answers 400 without a service call. Any truthy value is passed on unchanged. |
| ReservationController.UpdateStatusReply | server/src/controllers/reservation.controller.ts:78-86 | 200 iff success; 404 iff "Reservation not found"; otherwise 500. |
| ReservationController.UpdateStatusEndpoint | server/src/controllers/reservation.controller.ts:68-87 | 200 with the new status iff the id exists; 404 iff not. |
| ReservationController.CancelReply | server/src/controllers/reservation.controller.ts:93-101 | 204 with no body iff success; 404 iff "Reservation not found"; otherwise 500. |
| ReservationController.CancelEndpoint | server/src/controllers/reservation.controller.ts:90-102 | 204 iff the id exists, 404 iff not. |
| ReservationController.RescheduleDispatch | server/src/controllers/reservation.controller.ts:107-115 | A falsy slot_id answers 400 without a service call. |
| ReservationController.RescheduleReply | server/src/controllers/reservation.controller.ts:115-129 | 200 iff success; 404 iff either not-found message; 409 iff "New slot already booked"; otherwise 500. |
| ReservationController.RescheduleEndpoint | server/src/controllers/reservation.controller.ts:105-131 | 200 iff the reservation exists and the new slot exists and is free; 404 iff either is missing; 409 iff the slot is booked. |
| Validation.IsValidEmail | server/src/middleware/validation.ts:4-7 | An accepted address has at least five characters, does not start with "@" and contains no white space. |
| Validation.EmailField | server/src/middleware/validation.ts:24 | A body field passes the format test iff it is a string matching the regular expression, and a passing field is truthy. |
| Validation.PasswordField | server/src/middleware/validation.ts:10-12 | A passing field is truthy; for a string of Basic Multilingual Plane characters, it passes iff it has at least six characters. Arrays and objects pass by their numeric `length`. |
| Validation.RegistrationAcceptsArrayPassword | server/src/middleware/validation.ts:10-12 | The length test ignores the type, so a valid email with a six-element array password is accepted. |
| Validation.IsValidEmailMatchesPattern | server/src/middleware/validation.ts:4-7 | The positional email test accepts exactly the strings the regular expression describes. |
| Validation.ValidateRegistration | server/src/middleware/validation.ts:15-39 | `next` iff all four checks pass. Otherwise it answers the first failing one, in the order email present, format, password present, length. |
| Validation.RegistrationAccepts | server/src/middleware/validation.ts:4-39 | A string email and password pass iff the email matches the pattern and the password has at least 6 UTF-16 code units. |
| Validation.NamePresentIffNotBlank | server/src/middleware/validation.ts:45 | The trim-based name test holds iff the name is a string with a character that is not white space. |
| Validation.ValidateBusiness | server/src/middleware/validation.ts:42-56 | `next` iff the name is a non-blank string of at most 255 code units, the length being of the untrimmed name. Otherwise "required" before "too long". |
| Validation.ValidateService | server/src/middleware/validation.ts:59-78 | `next` iff business_id is a non-zero integer, the name is non-blank, and duration_minutes is a positive integer. Otherwise the messages come in that order. |
| Validation.ValidateSlot | server/src/middleware/validation.ts:81-118 | `next` iff service_id is a non-zero integer, both times are present and parse, and end > start. Otherwise the six messages come in source order. |
| Validation.EmptySlotRejected | server/src/middleware/validation.ts:112-115 | Equal start and end are rejected. |
| Validation.ValidateReservation | server/src/middleware/validation.ts:121-130 | `next` iff slot_id is a non-zero integer, so 0 is rejected. |
| Js.Utf16Length | server/src/middleware/validation.ts:11 | The length is between the character count and twice it, and equals the count when all characters are in the Basic Multilingual Plane. |
| Js.TrimEmptyIffBlank | server/src/middleware/validation.ts:45 | `trim()` gives "" iff every character is white space. |
| Js.IncludesIffOccurs | server/src/middleware/errorHandler.ts:25 | `includes` holds iff the text occurs at some index. |
| SlotService.CreateSlot | server/src/services/slot.service.ts:15-22 | Fails with "End time must be after start time" iff end <= start. The store is reached only with end > start. |
| SlotService.GetSlotById | server/src/services/slot.service.ts:24-30 | The first selected row iff one exists, else "Slot not found". |
| SlotService.UpdateSlot | server/src/services/slot.service.ts:36-47 | The range error iff both times are supplied and end <= start, before any store call. Otherwise a null row gives "Slot not found". |
| SlotService.UpdateKeepsRange | server/src/services/slot.service.ts:36-47 | When an update supplies both times or neither, a stored slot with start < end still has start < end after a successful update. |
| SlotService.OneSidedUpdateUnchecked | server/src/services/slot.service.ts:38-40 | An update supplying only an end before the stored start is accepted, and writes an inverted range. |
| SlotService.DeleteSlot | server/src/services/slot.service.ts:49-54 | "Slot not found" iff no row was deleted. |
| ServiceService.CreateService | server/src/services/service.service.ts:17-22 | Fails with "Duration must be positive" iff duration <= 0. The store is reached only with a positive duration. |
| ServiceService.GetServiceById | server/src/services/service.service.ts:25-31 | The first selected row iff one exists, else "Service not found". |
| ServiceService.UpdateService | server/src/services/service.service.ts:39-49 | The duration error iff a duration <= 0 is supplied, taking precedence over "Service not found". An absent duration passes. |
| ServiceService.DeleteService | server/src/services/service.service.ts:52-57 | "Service not found" iff no row was deleted. |
| Sql.PushIf | server/src/repositories/slot.repository.ts:69-72 | Appends a clause and value only for a supplied field, keeping clause i as `column = $(i+1)` with values[i] its value and paramIndex one past the count. |
| Sql.ClauseRoundTrip | server/src/repositories/slot.repository.ts:70 | A pushed clause reads back as its column and placeholder number. |
| Sql.UpdateBindsColumns | server/src/repositories/slot.repository.ts:88-94 | In a planned UPDATE, each SET clause's placeholder $(i+1) binds the value supplied for its column, and the last value, $(n+1), is the id. |
| Sql.SelectBindsFilters | server/src/repositories/slot.repository.ts:43-57 | Each WHERE condition's placeholder binds the value of its own filter. |
| Sql.ListingShape | server/src/repositories/service.repository.ts:46-54 | An unfiltered listing binds no value and its text is `SELECT * FROM t ORDER BY o`. A listing with one filter has the text `SELECT * FROM t WHERE c = $1 ORDER BY o`, its condition reads back as c at $1, and its only value is the filter's. |
| Sql.FirstRow | server/src/repositories/slot.repository.ts:33-36 | Null iff no row matched, else the first row. |
| Sql.Removed | server/src/repositories/slot.repository.ts:99-102 | True iff the row count is non-null and positive. |
| SlotRepository.Update | server/src/repositories/slot.repository.ts:64-97 | With no field supplied, a read-back of the id and no write. Otherwise the supplied fields in the order start_time, end_time, status at $1..$n, then `updated_at = NOW()`, and the id as the (n+1)-th value and last placeholder. |
| SlotRepository.FindAll | server/src/repositories/slot.repository.ts:39-62 | Conditions service_id then status, numbered consecutively, with falsy filters ignored, WHERE omitted iff none, and order by start_time ascending. |
| ReservationRepository.Create | server/src/repositories/reservation.repository.ts:21-27 | Inserts only user_id and slot_id; status is left to the table default. |
| ReservationRepository.Update | server/src/repositories/reservation.repository.ts:57-80 | Status absent gives a read-back and no write. Otherwise `status = $1, updated_at = NOW()` with values [status, id]. |
| ReservationRepository.FindAll | server/src/repositories/reservation.repository.ts:35-55 | Conditions user_id then status, falsy ones ignored, WHERE omitted iff none, and order by created_at descending. |
| ServiceRepository.Create | server/src/repositories/service.repository.ts:30-36 | Five columns in order, with description null when omitted. |
| ServiceRepository.FindAll | server/src/repositories/service.repository.ts:45-56 | A listing of services in created_at descending order with a condition iff the business id is truthy. That one condition reads back as business_id at $1, and $1 binds the id. |
| ServiceRepository.Update | server/src/repositories/service.repository.ts:59-97 | The fields name, description, price, duration_minutes in order at consecutive placeholders, the id last, and a read-back when none is supplied. |
| ServiceRepository.SetList | server/src/repositories/service.repository.ts:60-82 | The SET list holds clause i as `column = $(i+1)` for the i-th supplied field in the order name, description, price, duration_minutes, values[i] is its value, and paramIndex is one past the count. |
| BusinessRepository.Create | server/src/repositories/business.repository.ts:24-30 | owner_id from the input, and description null when omitted. |
| BusinessRepository.FindAll | server/src/repositories/business.repository.ts:39-49 | A listing of businesses in created_at descending order with a condition iff the owner id is truthy. That one condition reads back as owner_id at $1, and $1 binds the id. |
| BusinessRepository.Update | server/src/repositories/business.repository.ts:52-80 | name then description at consecutive placeholders, the id last, and a read-back when none is supplied. |
| ErrorHandler.NewAppError | server/src/middleware/errorHandler.ts:7-11 | The error is named "AppError" and carries the given message and status code. |
| ErrorHandler.Handle | server/src/middleware/errorHandler.ts:15-37 | An AppError answers its own code and message, before any message test. Then the unique text gives 409, the foreign-key text 400, and anything else 500. |
| ErrorHandler.AppErrorRoundTrip | server/src/middleware/errorHandler.ts:7-22 | A constructed AppError comes back with the code and message it was built with, whatever the message says. |
| ErrorHandler.PlainErrorStatus | server/src/middleware/errorHandler.ts:25-36 | For a plain error: 409 iff the unique text occurs in the message; 400 iff only the foreign-key text does; 500 iff neither does. |
| ErrorHandler.NotFound | server/src/middleware/errorHandler.ts:40-42 | Always 404. |
| Auth.BearerToken | server/src/middleware/auth.ts:22-27 | A token iff the header is present and starts with "Bearer ", and the header is that prefix followed by the token. |
| Auth.BearerTokenRoundTrip | server/src/middleware/auth.ts:27 | The token is recovered from any header "Bearer " + token. |
| Auth.Request.Authenticate | server/src/middleware/auth.ts:19-36 | A missing or non-Bearer header gives 401 "Missing or invalid token". A failed verification gives 401 "Invalid or expired token" with `req.user` untouched. `next` iff verification succeeds, and then `req.user` is the decoded claims. |
| Auth.RequireAdmin | server/src/middleware/auth.ts:39-45 | `next` iff a user is set whose role is exactly "admin", else 403. |
| Migrate.SortNames | server/src/db/migrate.ts:53 | The sort orders the names and is a permutation of its input. |
| Migrate.SqlFiles | server/src/db/migrate.ts:52 | Keeps exactly the entries ending in ".sql". |
| Migrate.Candidates | server/src/db/migrate.ts:51-53 | Sorted, a permutation of the ".sql" entries, and containing exactly them. |
| Migrate.Pending | server/src/db/migrate.ts:56 | Exactly the candidates not yet applied, still sorted. |
| Migrate.PendingDistinct | server/src/db/migrate.ts:56 | Distinct candidates give distinct pending files. |
| Migrate.Completed | server/src/db/migrate.ts:64-66 | The loop completes at most every pending file, and every file it completes has a script that succeeds. |
| Migrate.CompletedStopsAtFirstFailure | server/src/db/migrate.ts:64-66 | For distinct, unrecorded files, the run commits exactly the files before the first failing script. |
| Migrate.MigrateAbortsAtFirstFailure | server/src/db/migrate.ts:47-68 | For distinct directory entries, the files committed are exactly the pending ones before the first failing script. |
| Migrate.MigrationDb.constructor | server/src/db/migrate.ts:10-19 | An empty migrations table with no committed scripts. |
| Migrate.MigrationDb.RunMigration | server/src/db/migrate.ts:28-45 | Succeeds iff the script runs and the name is not yet recorded. Then the script and its record commit together; otherwise neither does. Names stay unique. |
| Migrate.MigrationDb.RunInOrder | server/src/db/migrate.ts:64-66 | Runs the files in list order and stops at the first failure, rethrowing its name. The committed records are exactly the completed prefix. |
| Migrate.MigrationDb.Migrate | server/src/db/migrate.ts:47-68 | Applies the completed prefix of the pending files. With nothing pending, nothing changes. |

## Left out

- Concurrency: the `FOR UPDATE` row locks, lock ordering and connection pooling. Each transaction is one atomic step.
- SQL execution. Statements are modelled as their text and values; the database's evaluation is not modelled.
  - `NOW()` and the timestamp and `RETURNING *` columns outside the modelled rows are not represented.
  - A failure of the database itself inside a transaction is not modelled. Every error the engine throws is raised before its first write, so the modelled ROLLBACK restores nothing.
- The table schemas and migration files are not part of this model:
  - a new reservation's status is taken to be pending, the table default;
  - whatever the database does with a status string other than the four values is unknown.
- ReservationModel.UpdateStatus: the source passes any truthy body value to the database unchecked (`status as any`). The model takes one of the four statuses.
- Route-parameter ids (`Number(req.params.id)`) are integers here; a non-numeric id, which becomes NaN, is not modelled.
- ReservationController.CreateEndpoint: the JSON slot_id reaches SQL as it is. The end-to-end lemmas take it as an integer, and other JSON values are not converted.
- `jwt.verify` is a function parameter. Signing, hashing and the login service (`auth.service.ts`) are foreign calls.
- `new Date(...)` parsing is a function parameter, and times are integers.
- Validation.EmailField: a non-string body field is taken as not matching. The source converts it to text first, so an array holding one matching string would pass.
- Validation.PasswordField: an object's `length` counts only when it is a number. A string `length` such as "10" is converted to a number by `>=` in the source, and the model takes it as absent.
- ErrorHandler.Handle: every thrown value is taken to be an `Error` with a text message. A thrown non-Error value has no `message`, so `err.message.includes` would itself throw; that path is not modelled.
- ServiceService.UpdateService: a JSON `null` duration passes `!== undefined` and `null <= 0` in the source, so it is rejected there. The model's optional integer cannot be null.
- Migrate.NameLeq: compares characters by code point. JavaScript's default sort compares UTF-16 code units, which differs only for names with characters outside the Basic Multilingual Plane.
- Migrate: reading the directory and the files, creating the `migrations` table, and console output are I/O. `getAppliedMigrations`'s ORDER BY only affects membership tests, so it is not modelled.
- The list operations (`listReservations`, `listSlots`, `listServices`) pass straight to the repositories' `findAll`, which is modelled.
- The other controllers and the route files are Express wiring. That includes the reservation routes, which do not mount `validateReservation`.
- Not modelled, for reasons outside the server's core logic:
  - `business.service.ts`, a passthrough to its repository;
  - `config/env.ts`, which reads the environment;
  - `app.ts`, `index.ts` and the health route, which are process bootstrapping;
  - the client application, which is UI state and HTTP wrappers.

## Findings

| source | as written | input that shows it | evidently intended | confidence | as-written member | corrected member |
|---|---|---|---|---|---|---|
| server/src/services/reservation.service.ts:84-93 | cancel does not check the reservation's status, so re-cancelling frees its slot again | book slot 1 as R1, cancel R1, book slot 1 as R2, cancel R1 again: slot 1 is available while R2 is still pending on it | only an active reservation can be cancelled, so a slot is freed only by its holder | not executed | ReservationModel.DoubleCancelScenario | ReservationModel.CancelChecked |
| server/src/services/reservation.service.ts:118-149 | reschedule does not check the reservation's status; moving a cancelled one books the new slot and frees the old one | cancel R1 on slot 1, then reschedule R1 to a free slot 2: slot 2 is booked with no active reservation on it | only an active reservation can be moved | not executed | ReservationModel.RescheduleInactiveBooksEmptySlot | ReservationModel.RescheduleChecked |

CancelChecked and RescheduleChecked are proved to keep the occupancy invariant for every input
(ReservationModel.CancelCheckedPreservesOccupancy and
ReservationModel.RescheduleCheckedPreservesOccupancy). The engine offers them as
BookingEngine.CancelReservationChecked and BookingEngine.RescheduleReservationChecked.
