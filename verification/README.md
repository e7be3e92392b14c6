# BookMyCut booking core in Dafny

BookMyCut is a hair-salon booking system: a Spring backend that keeps
users, weekly stylist hours, one-off schedule exceptions, services,
appointments and in-app notifications, and an Angular front end whose
booking form proposes free slots. This project models the booking core
of both halves as pure functions over immutable records and proves what
the code promises about it.

What is modelled:

- **Stores.** Every table (`usuarios`, `citas`, `disponibilidades`,
  `excepciones_horario`, `servicios`, `notificaciones`) is a sequence of
  records plus a next-key counter (`Store.Db`). The repository queries are
  functions over those sequences whose contracts state exactly which rows
  they return.
- **Booking engine** (`AppointmentService`). `createAppointment` runs its
  checks in the source's order: client, stylist, time order, past,
  exceptions, weekly hours, overlap, services and price. It then saves a
  confirmed appointment and notifies client and stylist.
  `updateAppointment`, `deleteAppointment` and the lookups are modelled
  as well.
- **Administration.** Weekly hours (`AvailabilityService`) and schedule
  exceptions (`ScheduleExceptionService`).
- **Notifications.** Read state and reminders (`NotificationService`),
  plus the daily reminder sweep (`ReminderScheduler`).
- **Accounts and tokens.** Registration, login and the find-or-create of
  public clients (`AuthService`), and the token claims and signing-key
  stretching (`JwtUtil`).
- **Controller decisions.** Authorisation and dispatch in the appointment,
  user and stylist-service controllers. The exception-to-status mapping
  is `ErrorHandler`; the phone validator is `PhoneValidator`.
- **Front end.** The booking form's helpers (`CitaForm`): time parsing
  and formatting, slot generation, hour selection, the calendar grid,
  greyed-out days and the client-side phone check. The list page's
  pagination and action buttons are `CitasList`.

Representation choices:

- Dates are day numbers (0 is 1970-01-01).
- Times of day are minutes since midnight.
- Money is integer cents, since prices have scale 2.
- Instants are milliseconds since the epoch.
- The current date and time are a `Clock` parameter.
- Randomly generated passwords are parameters.
- Java exceptions are the `Error` datatype, one constructor per exception
  class. A failed service operation returns `Err` and leaves the store
  unchanged. A controller that makes two service calls keeps the first
  call's effect when the second fails: `createPublicCita` keeps a newly
  created client account when the booking is refused
  (`AppointmentController.FailedPublicBookingKeepsAccount`).
- The update map of `updateAppointment` is an `UpdateRequest` of four
  `Field`s, one per key (`estado`, `fecha`, `horaInicio`, `horaFin`). A
  key is absent, present with a JSON null, present with a text that does
  not parse, or present with its value. The keys are read in that order,
  and the first null or unreadable value fails as an internal error (a
  500): a null pointer, an unknown status name at `valueOf`, or a date
  or time that `parse` rejects.
- The update map of `updateUsuario` is a `UserUpdate`: each key is
  absent, present with a JSON null, or present with its value. Only
  `telefono` may be null. A null on any other key is a null pointer and
  becomes a 500 that rolls the transaction back.

Behaviour worth knowing:

- **Method-security refusals are 500s.** A `@PreAuthorize` refusal throws
  inside the controller call, and the global handler's catch-all turns
  it into a 500. Where a URL rule in the security configuration refuses
  first, the answer is a 403. So a client's token on `associateServices`
  gets a 500 (`StylistServiceController.RefusalStatuses`), while a
  stylist's token on `POST /citas` gets a 403.

- **Touching exception windows are refused.** The code compares closed
  intervals, so 10:00-11:00 is refused by an unavailable exception
  starting at 11:00 (`BookingScenarios.TouchingExceptionRefused`).
- **Phone example.** The validator's doc comment gives `123456789` as
  valid, but its pattern rejects it
  (`PhoneValidator.DocumentedExampleRejected`).

## Model

| member | source | states |
|---|---|---|
| Calendar.DayOfWeekValue | src/backend/src/main/java/com/bookmycut/entities/Availability.java:28-31 | Every weekday has an ISO number between 1 (Monday) and 7 (Sunday). |
| Calendar.DayOfWeekOf | src/backend/src/main/java/com/bookmycut/entities/Availability.java:28-31 | Every ISO number from 1 to 7 names exactly the weekday that has that number. |
| Calendar.DayOfWeekValueInjective | src/backend/src/main/java/com/bookmycut/entities/Availability.java:28-31 | Two weekdays with the same number are the same weekday. |
| Calendar.WeekdayOf | src/backend/src/main/java/com/bookmycut/service/AppointmentService.java:477 | The weekday `date.getDayOfWeek()` gives for a day number: day 0 (1970-01-01) is a Thursday and the number advances by one each day, modulo 7. |
| Calendar.WeekdayPeriodic | src/backend/src/main/java/com/bookmycut/service/AppointmentService.java:477 | The weekday repeats every seven days, and consecutive days never share a weekday. |
| Calendar.CivilAnchors | src/backend/src/main/java/com/bookmycut/service/AppointmentService.java:477 | The day numbering agrees with the calendar at two known dates: 1970-01-01 is a Thursday and 2024-12-16 a Monday. |
| Calendar.DaysFromCivilNext | src/frontend/src/app/components/citas/cita-form/cita-form.component.ts:537-538 | Within a month, the next day of the month is the next day number. |
| Calendar.DaysInMonth | src/frontend/src/app/components/citas/cita-form/cita-form.component.ts:526 | The last day of a month (`new Date(y, m + 1, 0)`) lies between 28 and 31. |
| Calendar.JsDay | src/frontend/src/app/components/citas/cita-form/cita-form.component.ts:581 | JavaScript's `getDay()` is a Sunday-first index in 0..6. |
| Calendar.JsDayAgreesWithWeekday | src/frontend/src/app/components/citas/cita-form/cita-form.component.ts:580-583 | The Sunday-first index equals the server's ISO weekday number modulo 7, so both halves agree on the weekday of a date. |
| Calendar.IsPastIffBeforeNow | src/backend/src/main/java/com/bookmycut/service/AppointmentService.java:373-380 | The two-part past test (earlier date, or same date and earlier start) says exactly that the requested instant is before now, so a start equal to now is accepted. |
| Entities.ParseRole | src/backend/src/main/java/com/bookmycut/entities/User.java:107-111 | A role string parses only when it is the exact name of a role, and it parses to that role. |
| Entities.ParseRoleRoundTrip | src/backend/src/main/java/com/bookmycut/entities/User.java:107-111 | Parsing a role's name gives the role back. |
| Entities.ParseStatus | src/backend/src/main/java/com/bookmycut/entities/Appointment.java:86-90 | `valueOf` accepts only CONFIRMADA, CANCELADA or FINALIZADA exactly, and returns the status with that name. |
| Entities.ParseStatusRoundTrip | src/backend/src/main/java/com/bookmycut/entities/Appointment.java:86-90 | Parsing a status's name gives the status back. |
| Text.TrimStart | src/backend/src/main/java/com/bookmycut/service/AuthService.java:64 | The result is the input minus a prefix of trimmable characters, and it starts with a non-trimmable one. |
| Text.TrimEnd | src/backend/src/main/java/com/bookmycut/service/AuthService.java:64 | The result is the input minus a suffix of trimmable characters, and it ends with a non-trimmable one. |
| Text.Trim | src/backend/src/main/java/com/bookmycut/service/AuthService.java:64 | Java's `trim()` result is no longer than the input and has no trimmable character at either end. |
| Text.TrimEmptyIffBlank | src/backend/src/main/java/com/bookmycut/service/AuthService.java:64 | `trim().isEmpty()` holds exactly when every character is trimmable. |
| Text.TrimOfTrimmed | src/backend/src/main/java/com/bookmycut/service/AuthService.java:98 | Trimming a string that already starts and ends with content changes nothing. |
| Text.ToLower | src/backend/src/main/java/com/bookmycut/service/AuthService.java:98 | Lower-casing keeps the length and maps every character through the ASCII lower-case mapping. |
| Text.ToUpper | src/backend/src/main/java/com/bookmycut/controller/UserController.java:344-347 | Upper-casing keeps the length and maps every character through the ASCII upper-case mapping. |
| Text.ToLowerIdempotent | src/backend/src/main/java/com/bookmycut/service/AuthService.java:98 | Lower-casing twice is lower-casing once. |
| Text.UpperOfLower | src/backend/src/main/java/com/bookmycut/controller/AppointmentController.java:119-126 | Upper-casing ignores an earlier lower-casing, so the status filter is case-blind. |
| Text.ContainsIgnoreCaseBasics | src/backend/src/main/java/com/bookmycut/repositories/AppointmentRepository.java:92-94 | `LIKE '%x%'` on lower-cased text matches the empty pattern and the text itself. |
| Seqs.Filter | src/backend/src/main/java/com/bookmycut/repositories/AppointmentRepository.java:40-49 | A query keeps exactly the rows satisfying its condition. |
| Seqs.FilterAll | src/backend/src/main/java/com/bookmycut/repositories/AppointmentRepository.java:90-96 | A condition every row meets returns the table unchanged. |
| Seqs.FilterNone | src/backend/src/main/java/com/bookmycut/repositories/AppointmentRepository.java:90-96 | A condition no row meets returns nothing. |
| Seqs.FilterAppend | src/backend/src/main/java/com/bookmycut/repositories/AppointmentRepository.java:40-49 | Querying two stretches of a table is querying each and concatenating. |
| Seqs.CountIsFilterLength | src/backend/src/main/java/com/bookmycut/repositories/NotificationRepository.java:22 | A count query counts exactly the rows a find query with the same condition returns. |
| Seqs.SumOfAppend | src/backend/src/main/java/com/bookmycut/service/AppointmentService.java:562-566 | Summing over two concatenated lists is adding the two sums. |
| Seqs.DistinctIffNoLoss | src/backend/src/main/java/com/bookmycut/controller/StylistServiceController.java:138-142 | A list has no repeated element exactly when its set of elements is as large as the list. |
| Seqs.IndexWhere | src/backend/src/main/java/com/bookmycut/service/AppointmentService.java:599-603 | A `findById` returns the first matching position, and reports absence only when no row matches. |
| UserRepository.FindById | src/backend/src/main/java/com/bookmycut/service/AppointmentService.java:342-346 | `findById` returns a stored user with that key, and returns nothing exactly when no user has it. |
| UserRepository.IndexOfId | src/backend/src/main/java/com/bookmycut/controller/UserController.java:371 | `save` overwrites the first row with the key, the same row `findById` returns. |
| UserRepository.IndexOfEmail | src/backend/src/main/java/com/bookmycut/repositories/UserRepository.java:15 | The first user with that exact e-mail; none exactly when no user has it. |
| UserRepository.FindByEmail | src/backend/src/main/java/com/bookmycut/repositories/UserRepository.java:15 | `findByEmail` returns a stored user with that e-mail, and nothing exactly when no user has it. |
| UserRepository.FindByUsernameOrEmail | src/backend/src/main/java/com/bookmycut/repositories/UserRepository.java:25-26 | `findByUsernameOrEmail` returns the single user whose username or e-mail is the identifier. It returns empty when none has it. It finds a user exactly when one row matches, so when two users match the single-result query fails. |
| AppointmentRepository.OverlapsSymmetric | src/backend/src/main/java/com/bookmycut/repositories/AppointmentRepository.java:43 | The overlap test gives the same answer whichever window is the stored one. |
| AppointmentRepository.TouchingWindowsDoNotOverlap | src/backend/src/main/java/com/bookmycut/repositories/AppointmentRepository.java:43 | Back-to-back windows (one ends when the other starts) never overlap. |
| AppointmentRepository.OverlapsIffSharedMinute | src/backend/src/main/java/com/bookmycut/repositories/AppointmentRepository.java:43 | For non-empty windows, overlap means exactly that some minute lies in both half-open windows. |
| AppointmentRepository.FindOverlapping | src/backend/src/main/java/com/bookmycut/repositories/AppointmentRepository.java:40-49 | Returns exactly the rows with that stylist and date whose status is not CANCELADA and whose window overlaps the requested one. FINALIZADA rows still block. |
| AppointmentRepository.FindOverlappingExcluding | src/backend/src/main/java/com/bookmycut/repositories/AppointmentRepository.java:54-65 | Returns exactly the plain overlap result minus the appointment with the excluded key. |
| AppointmentRepository.FindByStylistAndDate | src/backend/src/main/java/com/bookmycut/repositories/AppointmentRepository.java:23 | Returns exactly the appointments of that stylist on that date. |
| AppointmentRepository.InsertByStart | src/backend/src/main/java/com/bookmycut/repositories/AppointmentRepository.java:67 | Inserting into a list ordered by start time keeps it ordered and adds exactly that one element. |
| AppointmentRepository.SortByStart | src/backend/src/main/java/com/bookmycut/repositories/AppointmentRepository.java:67 | `ORDER BY startTime` returns a permutation of its input, ordered by start time. |
| AppointmentRepository.FindByDateAndStatusOrderByStartTime | src/backend/src/main/java/com/bookmycut/repositories/AppointmentRepository.java:67 | Returns exactly the appointments with that date and status, earliest start first. |
| AppointmentRepository.FindWithAdvancedFilters | src/backend/src/main/java/com/bookmycut/repositories/AppointmentRepository.java:109-122 | Returns exactly the appointments meeting every given criterion. A null criterion imposes nothing; names match as case-blind substrings; date and status match exactly. Each appointment is listed once. |
| AppointmentRepository.NoCriteriaMatchesAll | src/backend/src/main/java/com/bookmycut/repositories/AppointmentRepository.java:111-115 | With every criterion null the search returns the whole table. |
| AppointmentRepository.ServiceNameExcludesServiceless | src/backend/src/main/java/com/bookmycut/repositories/AppointmentRepository.java:110-113 | Any service-name criterion, even an empty one, drops appointments without services, because the joined service name is then null. |
| ScheduleExceptionRepository.FindByDateAndStylistOrNull | src/backend/src/main/java/com/bookmycut/repositories/ScheduleExceptionRepository.java:19-23 | Returns exactly the exceptions on that date that name the stylist or name nobody. |
| ScheduleExceptionRepository.FindByStylistAndDate | src/backend/src/main/java/com/bookmycut/repositories/ScheduleExceptionRepository.java:17 | Returns exactly the exceptions naming that stylist on that date, so global ones are not included. |
| ScheduleExceptionRepository.FindByStylist | src/backend/src/main/java/com/bookmycut/repositories/ScheduleExceptionRepository.java:16 | Returns exactly the exceptions naming that stylist. |
| ScheduleExceptionRepository.FindByDate | src/backend/src/main/java/com/bookmycut/repositories/ScheduleExceptionRepository.java:15 | Returns exactly the exceptions on that date, global or not. |
| ScheduleExceptionRepository.ScopeOfExceptions | src/backend/src/main/java/com/bookmycut/repositories/ScheduleExceptionRepository.java:17-19 | A global exception is seen by every stylist on its date but is not one of a stylist's own exceptions. A stylist's exception is never seen by another stylist, and no exception is seen on another date. |
| AvailabilityRepository.FindByStylist | src/backend/src/main/java/com/bookmycut/repositories/AvailabilityRepository.java:13 | Returns exactly the weekly rows of that stylist. |
| AvailabilityRepository.FindByStylistAndDayOfWeek | src/backend/src/main/java/com/bookmycut/repositories/AvailabilityRepository.java:15 | Returns exactly the weekly rows of that stylist on that weekday. |
| ServiceOfferRepository.FindAllById | src/backend/src/main/java/com/bookmycut/service/AppointmentService.java:393 | `findAllById` returns exactly the stored services whose key is among the requested ids. |
| ServiceOfferRepository.KnownIdsStep | src/backend/src/main/java/com/bookmycut/service/AppointmentService.java:393-394 | Removing the first stored service removes its key from the set of known requested ids, and nothing else. |
| ServiceOfferRepository.FindAllByIdCount | src/backend/src/main/java/com/bookmycut/service/AppointmentService.java:393-394 | With unique keys, `findAllById` returns one row per distinct known requested id, so duplicates in the request collapse. |
| ServiceOfferRepository.FindAllByIdComplete | src/backend/src/main/java/com/bookmycut/service/AppointmentService.java:394-397 | With unique keys, the size check passes exactly when the requested ids are all known and pairwise distinct. |
| AppointmentMapper.ToEntity | src/backend/src/main/java/com/bookmycut/mappers/AppointmentMapper.java:78-98 | Copies date, start, end, phone and price from the request and takes client and stylist from the arguments. The status is always CONFIRMADA, and a null service list leaves the empty default. |
| AppointmentMapper.ToDto | src/backend/src/main/java/com/bookmycut/mappers/AppointmentMapper.java:26-67 | Null maps to null. Otherwise every field is copied and the status becomes its enum name. Each service keeps its key, name, duration and price, in order. The client's and the stylist's key and name are filled exactly when that user is stored. |
| AppointmentMapper.ToDtoInjective | src/backend/src/main/java/com/bookmycut/mappers/AppointmentMapper.java:26-67 | For appointments whose client and stylist are stored, equal transfer objects mean equal appointments: the mapping loses nothing. |
| AppointmentMapper.ToDtoList | src/backend/src/main/java/com/bookmycut/mappers/AppointmentMapper.java:106-113 | Null maps to null; a list maps element by element, keeping length and order. |
| AppointmentMapper.CreatedAppointmentReadsBack | src/backend/src/main/java/com/bookmycut/mappers/AppointmentMapper.java:26-98 | An appointment built from a request reads back with the request's date, times, phone and price, the two users' names, and status CONFIRMADA. |
| AppointmentService.DayNameInjective | src/backend/src/main/java/com/bookmycut/service/AppointmentService.java:574-584 | Distinct weekdays get distinct Spanish names in the "no availability" message. |
| AppointmentService.CheckExceptions | src/backend/src/main/java/com/bookmycut/service/AppointmentService.java:483-499 | Passes exactly when no exception blocks the request. A failure is one of the two conflict messages, and the whole-day message only arises from a whole-day unavailable exception. |
| AppointmentService.ValidateStylistAvailability | src/backend/src/main/java/com/bookmycut/service/AppointmentService.java:474-523 | Passes exactly when no applicable exception blocks the request and some weekly row on that weekday contains it. A failure is a conflict exactly when an exception blocks; otherwise it is a bad request. |
| AppointmentService.ValidateNoOverlap | src/backend/src/main/java/com/bookmycut/service/AppointmentService.java:535-554 | Passes exactly when no stored non-cancelled appointment of that stylist and date overlaps the request. The excluded key, when given, does not count. A failure is the slot-taken conflict. |
| AppointmentService.CalculateTotalPrice | src/backend/src/main/java/com/bookmycut/service/AppointmentService.java:562-566 | A single service costs its unit price; positive prices give a total of at least one cent per service. |
| AppointmentService.PositivePricesSum | src/backend/src/main/java/com/bookmycut/service/AppointmentService.java:562-566 | The sum of one price is that price, and a sum of positive prices is at least their count. |
| AppointmentService.TotalPriceAdditive | src/backend/src/main/java/com/bookmycut/service/AppointmentService.java:562-566 | The total of a split list is the sum of the totals of its parts, so it does not depend on how the services are grouped. |
| AppointmentService.ResolveServices | src/backend/src/main/java/com/bookmycut/service/AppointmentService.java:391-399 | Fails with NotFound exactly when a non-empty id list resolves to fewer services than ids. Otherwise the result has one service per id, and they are exactly the stored services requested. |
| AppointmentService.ResolvePrice | src/backend/src/main/java/com/bookmycut/service/AppointmentService.java:402-408 | Services decide the price, overriding any caller price. Without services the caller's price is used, and without either the request is a bad request. |
| AppointmentService.CheckRequest | src/backend/src/main/java/com/bookmycut/service/AppointmentService.java:341-380 | Passes exactly when the client is a stored CLIENTE, the stylist a stored ESTILISTA, the end follows the start and the start is not past. Otherwise it gives the first failing check's error: NotFound for a missing user, BadRequest with the source's message for the rest. |
| AppointmentService.CheckSlot | src/backend/src/main/java/com/bookmycut/service/AppointmentService.java:382-388 | An availability failure is passed on unchanged. Otherwise it passes exactly when every stored appointment that clashes with the window is the excluded one, and fails with the slot-taken conflict. |
| AppointmentService.Charge | src/backend/src/main/java/com/bookmycut/service/AppointmentService.java:390-408 | Unknown services are NotFound; no services and no price is a BadRequest. Succeeds exactly when the services resolve and there are services or a price. The charged services are the resolved ones, priced by their sum, or else at the caller's price. |
| AppointmentService.CreateAppointment | src/backend/src/main/java/com/bookmycut/service/AppointmentService.java:336-463 | The error is that of the first failing stage: request checks, then availability and overlap, then services and price. Succeeds exactly when every check passes. A success appends one confirmed appointment under the next key, with the requested parties, slot and phone, the resolved services and the price rule. It then appends the client's and the stylist's confirmation notices, and nothing else in the store changes. |
| AppointmentService.SaveBooking | src/backend/src/main/java/com/bookmycut/service/AppointmentService.java:410-453 | For a stored client and stylist: saves the confirmed appointment under the next key, with exactly the given services and price, then the client's notice and the stylist's. It keeps every key unique. |
| AppointmentService.AppendKeepsNoDoubleBooking | src/backend/src/main/java/com/bookmycut/service/AppointmentService.java:383-423 | Saving an appointment that clashes with no stored one keeps every stylist free of overlapping non-cancelled bookings. |
| AppointmentService.CreateKeepsNoDoubleBooking | src/backend/src/main/java/com/bookmycut/service/AppointmentService.java:383-423 | A successful booking never creates a double booking. |
| AppointmentService.AppendKeepsValid | src/backend/src/main/java/com/bookmycut/service/AppointmentService.java:423 | Saving under the next key keeps every table's keys unique and below their counters. |
| AppointmentService.IndexOf | src/backend/src/main/java/com/bookmycut/service/AppointmentService.java:599-603 | The position of the appointment with a key; absent exactly when no appointment has it. |
| AppointmentService.Updated | src/backend/src/main/java/com/bookmycut/service/AppointmentService.java:599-665 | Found exactly when the key is stored and every present value reads. The result keeps key, parties, price, services and phone; date and times are the given ones or the stored ones; a given status is the one its name parses to. |
| AppointmentService.CheckUpdate | src/backend/src/main/java/com/bookmycut/service/AppointmentService.java:667-689 | A non-increasing window is a BadRequest on every update. A moved slot in the past is a BadRequest with the past-update message. A moved slot otherwise gets the slot checks, excluding the appointment itself. A kept slot passes, unless a reactivation is re-checked for overlap. |
| AppointmentService.SaveUpdate | src/backend/src/main/java/com/bookmycut/service/AppointmentService.java:611-691 | Rewrites the row in place and changes only appointments and notifications. Only a change into CANCELADA from another status appends notices: one to the client and one to the stylist, both "Cita cancelada". |
| AppointmentService.ApplyUpdate | src/backend/src/main/java/com/bookmycut/service/AppointmentService.java:595-701 | An unknown key is NotFound. A null or unreadable value is an internal error. A failing check gives its own error. Succeeds exactly when all checks pass, and then returns the updated appointment and the store with that row rewritten and any cancellation notices appended. |
| AppointmentService.UpdateAppointmentAsWritten | src/backend/src/main/java/com/bookmycut/service/AppointmentService.java:595-701 | The update as written: it succeeds exactly when all of its checks pass, and a change of status alone is never checked for overlap. With a valid stored window, a status-only change succeeds exactly when the status name parses, whatever the other bookings. |
| AppointmentService.UpdateAppointment | src/backend/src/main/java/com/bookmycut/service/AppointmentService.java:595-701 | The corrected update: it succeeds exactly when all checks pass, reactivations included. A result in a blocking status clashes with no other appointment unless it kept its own still-blocking slot. |
| AppointmentService.ApplyUpdateKeepsNoDoubleBooking | src/backend/src/main/java/com/bookmycut/service/AppointmentService.java:667-689 | An accepted update keeps every stylist free of overlapping non-cancelled bookings, whenever its overlap was checked or it is not a status-only reactivation. |
| AppointmentService.AsWrittenKeepsNoDoubleBookingOtherwise | src/backend/src/main/java/com/bookmycut/service/AppointmentService.java:611-689 | The update as written creates no double booking on any input other than a status-only reactivation. |
| AppointmentService.UpdateKeepsNoDoubleBooking | src/backend/src/main/java/com/bookmycut/service/AppointmentService.java:685-689 | The corrected update never creates a double booking. |
| AppointmentService.ReactivationDoubleBooks | src/backend/src/main/java/com/bookmycut/service/AppointmentService.java:611-689 | Takes a cancelled 10:00-11:00 appointment whose slot was rebooked. A status-only update to CONFIRMADA is accepted as written and leaves two confirmed overlapping bookings; the corrected update refuses it. |
| AppointmentService.DeleteAppointment | src/backend/src/main/java/com/bookmycut/service/AppointmentService.java:710-726 | Fails with NotFound exactly when no appointment has the key. Otherwise exactly one row, the first with the key, is removed, and no other table changes. With unique keys, what remains is exactly the appointments with another key. |
| AppointmentService.DeleteTwiceNotFound | src/backend/src/main/java/com/bookmycut/service/AppointmentService.java:714-720 | Deleting the same appointment a second time reports NotFound. |
| AppointmentService.GetAppointmentById | src/backend/src/main/java/com/bookmycut/service/AppointmentService.java:111-125 | Returns the stored appointment with the key, and fails with NotFound exactly when there is none. |
| AppointmentService.GetAppointmentsByClient | src/backend/src/main/java/com/bookmycut/service/AppointmentService.java:133-148 | Fails exactly when the user is unknown; otherwise returns exactly that client's appointments. |
| AppointmentService.GetAppointmentsByStylist | src/backend/src/main/java/com/bookmycut/service/AppointmentService.java:182-197 | Fails exactly when the user is unknown; otherwise returns exactly that stylist's appointments. |
| AppointmentService.GetAppointmentsByDate | src/backend/src/main/java/com/bookmycut/service/AppointmentService.java:231-241 | Returns exactly the appointments on that date. |
| AppointmentService.GetAppointmentsByStylistAndDate | src/backend/src/main/java/com/bookmycut/service/AppointmentService.java:251-266 | Fails exactly when the user is unknown; otherwise returns exactly that stylist's appointments on that date. |
| BookingScenarios.FirstBookingSucceeds | src/backend/src/test/java/com/bookmycut/service/AppointmentServiceTest.java:142-204 | On a Monday with 09:00-18:00 hours, a 10:00-11:00 booking of two services is confirmed at the sum of their prices. |
| BookingScenarios.BothServicesFound | src/backend/src/main/java/com/bookmycut/service/AppointmentService.java:393 | Both requested services are found, in catalogue order. |
| BookingScenarios.OverlappingBookingConflicts | src/backend/src/test/java/com/bookmycut/service/AppointmentServiceTest.java:327-353 | After that booking, a 10:30-11:30 request is a slot-taken conflict. |
| BookingScenarios.FullDayClosureRefusesAll | src/backend/src/main/java/com/bookmycut/service/AppointmentService.java:486-490 | A whole-day closure that applies to the stylist refuses, as a conflict, every request that passed the earlier checks. |
| BookingScenarios.TouchingExceptionRefused | src/backend/src/main/java/com/bookmycut/service/AppointmentService.java:492-497 | A 10:00-11:00 request is refused by an unavailable exception starting at 11:00, because the windows are compared as closed intervals. |
| BookingScenarios.AvailabilityBoundaries | src/backend/src/main/java/com/bookmycut/service/AppointmentService.java:513-516 | A request equal to the weekly window passes; one minute more at either end is outside the hours. |
| BookingScenarios.UnknownServiceNotFound | src/backend/src/test/java/com/bookmycut/service/AppointmentServiceTest.java:355-375 | A request naming an unknown service is NotFound. |
| BookingScenarios.StatusOnlyCancellation | src/backend/src/main/java/com/bookmycut/service/AppointmentService.java:611-643 | Cancelling by status alone succeeds without re-validation and notifies client and stylist. |
| AvailabilityService.GetAllAvailabilities | src/backend/src/main/java/com/bookmycut/service/AvailabilityService.java:35-53 | Without a stylist, every row. With a stored stylist, the stylist repository lookup `findByStylist` for that user: their rows only, in table order. With an unknown one, NotFound. It succeeds exactly when no stylist was given or the given one is stored. |
| AvailabilityService.GetAvailabilityById | src/backend/src/main/java/com/bookmycut/service/AvailabilityService.java:84-97 | Returns the row with the key, and fails with NotFound exactly when there is none. |
| AvailabilityService.CreateAvailability | src/backend/src/main/java/com/bookmycut/service/AvailabilityService.java:100-137 | Succeeds exactly when the user exists, is a stylist, the window is non-empty and the weekday is still free for them. An unknown user is NotFound; other failures are bad requests. Success appends exactly the requested row under the next key. |
| AvailabilityService.CreatedRowListed | src/backend/src/main/java/com/bookmycut/service/AvailabilityService.java:99-137 | After a successful creation, listing by the same stylist succeeds and shows the new row next to every row the stylist had before. |
| AvailabilityService.CreateKeepsInvariants | src/backend/src/main/java/com/bookmycut/service/AvailabilityService.java:116-130 | Creation keeps keys unique and at most one row per stylist and weekday. |
| AvailabilityService.UpdateAvailability | src/backend/src/main/java/com/bookmycut/service/AvailabilityService.java:140-162 | Fails exactly for an unknown key or a non-increasing window. A stored row with end not after start gives the bad request "end after start" before anything is written. Otherwise only that row changes: weekday and hours are overwritten, and its key and stylist are kept. |
| AvailabilityService.UpdateKeepsValid | src/backend/src/main/java/com/bookmycut/service/AvailabilityService.java:151-155 | Updating keeps the keys unique. |
| AvailabilityService.UpdateCanDuplicateWeekday | src/backend/src/main/java/com/bookmycut/service/AvailabilityService.java:151-155 | Update does not re-check the weekday: moving a Tuesday row to Monday leaves two Monday rows for one stylist. |
| AvailabilityService.DeleteAvailability | src/backend/src/main/java/com/bookmycut/service/AvailabilityService.java:165-176 | Fails with NotFound exactly when no row has the key. Otherwise it removes exactly the rows with that key and touches no other table. |
| ScheduleExceptionService.GetAllExceptions | src/backend/src/main/java/com/bookmycut/service/ScheduleExceptionService.java:32-56 | Fails exactly when a stylist filter names an unknown user. Otherwise returns exactly the exceptions meeting the given stylist and date filters. |
| ScheduleExceptionService.GetExceptionById | src/backend/src/main/java/com/bookmycut/service/ScheduleExceptionService.java:58-71 | Returns the exception with the key, and fails with NotFound exactly when there is none. |
| ScheduleExceptionService.ResolveStylist | src/backend/src/main/java/com/bookmycut/service/ScheduleExceptionService.java:85-89 | An absent stylist gives a global exception, a known one is kept, and an unknown one is NotFound. |
| ScheduleExceptionService.CreateException | src/backend/src/main/java/com/bookmycut/service/ScheduleExceptionService.java:74-106 | Succeeds exactly when the stylist resolves and present bounds are ordered; equal bounds and one-sided windows are accepted. The stylist check comes first. Success appends the request's fields with the caller as administrator. |
| ScheduleExceptionService.CreateThenGet | src/backend/src/main/java/com/bookmycut/service/ScheduleExceptionService.java:74-106 | Creation keeps keys unique and windows ordered, and a lookup of the new key returns the created exception. |
| ScheduleExceptionService.UpdateException | src/backend/src/main/java/com/bookmycut/service/ScheduleExceptionService.java:109-142 | An unknown key is NotFound. Otherwise succeeds exactly when the stylist resolves and the bounds are ordered. It overwrites every field but key and administrator, and an absent stylist makes the exception global. |
| ScheduleExceptionService.UpdateKeepsInvariants | src/backend/src/main/java/com/bookmycut/service/ScheduleExceptionService.java:109-142 | Updating keeps keys unique and every stored window ordered. |
| ScheduleExceptionService.DeleteException | src/backend/src/main/java/com/bookmycut/service/ScheduleExceptionService.java:145-156 | Fails with NotFound exactly when no exception has the key; otherwise removes exactly the rows with that key. |
| ScheduleExceptionService.DeleteTwiceNotFound | src/backend/src/main/java/com/bookmycut/service/ScheduleExceptionService.java:145-156 | Deleting the same exception a second time reports NotFound. |
| NotificationService.CreateNotification | src/backend/src/main/java/com/bookmycut/service/NotificationService.java:86-114 | Fails with NotFound exactly when the user is unknown. Otherwise it appends one unread notification with the given recipient, title, type and appointment, under the next key. |
| NotificationService.GetUnreadCount | src/backend/src/main/java/com/bookmycut/service/NotificationService.java:74-83 | The number of the user's unread notifications, or 0 when the user is unknown. |
| NotificationService.CreateNotificationCountsAsUnread | src/backend/src/main/java/com/bookmycut/service/NotificationService.java:86-100 | A created notification raises its recipient's unread count by one. |
| NotificationService.CountAppend | src/backend/src/main/java/com/bookmycut/repositories/NotificationRepository.java:22 | Counting over appended notifications adds the counts. |
| NotificationService.IndexOf | src/backend/src/main/java/com/bookmycut/service/NotificationService.java:158-159 | The position of the notification with a key; absent exactly when none has it. |
| NotificationService.MarkAsRead | src/backend/src/main/java/com/bookmycut/service/NotificationService.java:155-173 | Fails with NotFound exactly when the notification is missing or belongs to someone else. Otherwise the result is the stored row with its read flag set to true, and the store is the old store with exactly that row replaced by it. |
| NotificationService.ReadIfOwned | src/backend/src/main/java/com/bookmycut/service/NotificationService.java:182-183 | A row keeps every field but its read flag. The flag is set exactly when it was already set or the row belongs to the user. |
| NotificationService.MarkAsReadIdempotent | src/backend/src/main/java/com/bookmycut/service/NotificationService.java:155-173 | Marking the same notification read a second time leaves the store as the first call left it. |
| NotificationService.MarkAllAsRead | src/backend/src/main/java/com/bookmycut/service/NotificationService.java:176-190 | Fails exactly when the user is unknown. Otherwise the table keeps its length and order. Each of the user's rows becomes itself with the read flag set, and every other row stays exactly as it was. All other tables and counters are untouched. |
| NotificationService.NoUnreadLeft | src/backend/src/main/java/com/bookmycut/service/NotificationService.java:182-184 | A list in which all of a user's notifications are read has no unread one for that user. |
| NotificationService.MarkAllAsReadLeavesNoneUnread | src/backend/src/main/java/com/bookmycut/service/NotificationService.java:176-190 | After marking everything read the user's unread count is 0. |
| NotificationService.DeleteNotification | src/backend/src/main/java/com/bookmycut/service/NotificationService.java:193-209 | Fails with NotFound exactly when the notification is missing or someone else's; otherwise it removes only that row. |
| NotificationService.DeleteNotificationRemovesIt | src/backend/src/main/java/com/bookmycut/service/NotificationService.java:193-209 | After deletion the store holds exactly the notifications with other keys. |
| NotificationService.HasReminderForAppointment | src/backend/src/main/java/com/bookmycut/service/NotificationService.java:214-226 | True exactly when some reminder notification carries the appointment's key. |
| NotificationService.HasReminderForAppointmentToday | src/backend/src/main/java/com/bookmycut/service/NotificationService.java:232-256 | True exactly when such a reminder was created between today's 00:00:00 and 23:59:59 inclusive. That implies the unrestricted check. |
| NotificationService.LastSecondReminderNotSeen | src/backend/src/main/java/com/bookmycut/service/NotificationService.java:234-251 | A reminder created half a second after 23:59:59 counts as sent but not as sent today. |
| NotificationService.NotifyPair | src/backend/src/main/java/com/bookmycut/service/AppointmentService.java:427-453 | The client's notification, then the stylist's, inside one try block. Nothing else changes, at most two rows are appended, and both are tied to the appointment. An unknown client skips both; an unknown stylist keeps the client's. |
| NotificationService.SendAppointmentReminder | src/backend/src/main/java/com/bookmycut/service/NotificationService.java:117-152 | More than 24 hours before the start, the call is exactly the pair creation: the client's "Recordatorio de cita" notice, then the stylist's, errors swallowed. With both users stored, exactly those two rows are appended. Otherwise the store is unchanged. Existing notifications are always kept. |
| NotificationService.ReminderReachesBoth | src/backend/src/main/java/com/bookmycut/service/NotificationService.java:117-150 | When the reminder is sent to two different stored users, the client's and the stylist's unread counts each rise by exactly one. |
| ReminderScheduler.Due | src/backend/src/main/java/com/bookmycut/service/AppointmentReminderScheduler.java:45-49 | The sweep visits exactly the confirmed appointments of tomorrow, earliest first. |
| ReminderScheduler.Visit | src/backend/src/main/java/com/bookmycut/service/AppointmentReminderScheduler.java:57-133 | An appointment already reminded today is skipped with no change. Otherwise the visit is exactly the pair creation: the client's "Recordatorio de cita mañana" notice, then the stylist's. It only appends notifications, each a reminder for that appointment, and afterwards the appointment counts as reminded today. |
| ReminderScheduler.SendAppointmentReminders | src/backend/src/main/java/com/bookmycut/service/AppointmentReminderScheduler.java:41-133 | The sweep equals the fold of visits over the due appointments in order. It only appends notifications, each a reminder for a due appointment. Every due appointment with a known client ends up reminded today. On a store with unique keys, every due appointment that was unreminded and has both users stored gets its client notice immediately followed by its stylist notice. When all were already reminded, the store is unchanged, so a second run on the same day adds nothing. |
| ReminderScheduler.Sweep | src/backend/src/main/java/com/bookmycut/service/AppointmentReminderScheduler.java:54-65 | The fold of visits changes nothing but the notification table and its counter. |
| ReminderScheduler.SweepFacts | src/backend/src/main/java/com/bookmycut/service/AppointmentReminderScheduler.java:41-133 | The fold over the due appointments has every property listed for the sweep. |
| ReminderScheduler.SweepInvAt | src/backend/src/main/java/com/bookmycut/service/AppointmentReminderScheduler.java:54-65 | The sweep's invariant holds after each prefix of the due appointments. |
| ReminderScheduler.DueKeysDistinct | src/backend/src/main/java/com/bookmycut/service/AppointmentReminderScheduler.java:45-49 | With unique appointment keys in the store, no two due appointments share a key. |
| ReminderScheduler.FreshVisitSendsPair | src/backend/src/main/java/com/bookmycut/service/AppointmentReminderScheduler.java:86-133 | Visiting an unreminded appointment with both users stored appends the client's notice immediately followed by the stylist's. |
| ReminderScheduler.NotRemindedYet | src/backend/src/main/java/com/bookmycut/service/AppointmentReminderScheduler.java:77-81 | With distinct keys, reminders appended for earlier appointments do not make a later one look reminded already. |
| ReminderScheduler.PairsPersist | src/backend/src/main/java/com/bookmycut/service/AppointmentReminderScheduler.java:54-65 | Appending more notifications keeps every pair already sent. |
| ReminderScheduler.Step | src/backend/src/main/java/com/bookmycut/service/AppointmentReminderScheduler.java:54-64 | The sweep's loop invariant survives visiting one more appointment. |
| ReminderScheduler.ReminderStaysVisible | src/backend/src/main/java/com/bookmycut/service/AppointmentReminderScheduler.java:77-81 | A reminder seen today stays seen once more notifications are appended. |
| JwtUtil.GenerateTokenForRole | src/backend/src/main/java/com/bookmycut/util/JwtUtil.java:95-97 | The one-role form issues a single authority that is `ROLE_` followed by the role, with the given subject and user key. |
| JwtUtil.AuthorityInjective | src/backend/src/main/java/com/bookmycut/util/JwtUtil.java:95-97 | Distinct roles give distinct authorities. |
| JwtUtil.RoleTokenGrantsOnlyItsRole | src/backend/src/main/java/com/bookmycut/util/JwtUtil.java:95-97 | A one-role token carries the prefixed authority of its own role and of no other, so a `hasRole` check passes for that role alone. |
| JwtUtil.SigningKey | src/backend/src/main/java/com/bookmycut/util/JwtUtil.java:27-39 | A secret of 32 bytes or more is used unchanged. A shorter non-empty one becomes exactly 32 bytes with byte i equal to secret[i mod n]. An empty one fails. |
| JwtUtil.StretchedKeyRepeatsSecret | src/backend/src/main/java/com/bookmycut/util/JwtUtil.java:31-36 | A stretched key begins with the secret and repeats with the secret's length as period. |
| AuthService.ResponseFor | src/backend/src/main/java/com/bookmycut/service/AuthService.java:117-130 | The response carries the user's key and role and a Bearer token. The token's subject is the username or e-mail, and its one authority is the role. |
| AuthService.SaveNewUser | src/backend/src/main/java/com/bookmycut/service/AuthService.java:103 | The save fails exactly when a unique column (username or e-mail) collides. Otherwise the user is appended under the next key. |
| AuthService.NewAccount | src/backend/src/main/java/com/bookmycut/service/AuthService.java:80-101 | The account built is an active CLIENTE with the request's name, e-mail, password and phone. Its username is the supplied one when non-blank, else the trimmed lower-cased e-mail. |
| AuthService.Register | src/backend/src/main/java/com/bookmycut/service/AuthService.java:59-135 | A blank e-mail is a bad request; a taken e-mail or supplied username is a conflict. Succeeds exactly when those checks pass and the built account collides with no stored one on a unique column; such a collision, possible through the derived username, is an internal error. Success adds exactly that account under the next key and answers with its response. |
| AuthService.AuthIdentifier | src/backend/src/main/java/com/bookmycut/service/AuthService.java:163-166 | Authentication uses the username when it is non-blank and the e-mail otherwise. |
| AuthService.Login | src/backend/src/main/java/com/bookmycut/service/AuthService.java:145-201 | Every failure is Unauthorized. An unknown identifier or an inactive user fails before any credential check. Success is exactly a matched active user whose credentials the authentication parameter accepts, and returns that user's response. |
| AuthService.RegisterThenLogin | src/backend/src/main/java/com/bookmycut/service/AuthService.java:59-201 | A user just registered, with credentials the authentication accepts, can log in with the token's subject, which is the username, and receives their own response. This holds when no earlier account's username or e-mail equals that username. |
| AuthService.RefreshClient | src/backend/src/main/java/com/bookmycut/service/AuthService.java:224-249 | Name and phone are overwritten only when given and different, and the client is saved in place; nothing else changes. |
| AuthService.NewClient | src/backend/src/main/java/com/bookmycut/service/AuthService.java:259-280 | A new client is an active CLIENTE with that e-mail and phone. It gets the lower-cased trimmed e-mail as username, and the given password, exactly when a non-blank password is supplied; otherwise the random password. |
| AuthService.FindOrCreateClientUser | src/backend/src/main/java/com/bookmycut/service/AuthService.java:216-302 | An existing e-mail owned by a non-client is a conflict. An existing client is refreshed in place. For an unknown e-mail, a null name is an internal error. With a name, it succeeds exactly when the new client collides with no stored username, and then appends that one client. The result is always a client with that e-mail. |
| AuthService.FindOrCreateClientUserWithResult | src/backend/src/main/java/com/bookmycut/service/AuthService.java:314-350 | The flag is true exactly when no user had the e-mail beforehand. The outcome otherwise matches the plain find-or-create. |
| AuthService.RefreshTwice | src/backend/src/main/java/com/bookmycut/service/AuthService.java:224-249 | Refreshing a client twice with the same values changes nothing the second time. |
| AuthService.IndexOfEmailAfterWrite | src/backend/src/main/java/com/bookmycut/service/AuthService.java:245 | Saving a user in place with the same e-mail keeps it the first match for that e-mail. |
| AuthService.IndexOfEmailAfterAppend | src/backend/src/main/java/com/bookmycut/service/AuthService.java:282 | Appending the first user with an e-mail makes it the match for that e-mail. |
| AuthService.FindOrCreateIdempotent | src/backend/src/main/java/com/bookmycut/service/AuthService.java:314-350 | Repeating find-or-create returns the same user with the flag false, and the store stays as the first call left it. |
| ErrorHandler.Handle | src/backend/src/main/java/com/bookmycut/exception/GlobalExceptionHandler.java:33-163 | Statuses are 400, 401, 403, 404, 409 or 500. A 500 is returned exactly for unexpected exceptions, and 4xx for every named one. NotFound, BadRequest, Forbidden and Conflict pass their message through. Unauthorized and unexpected failures get fixed messages. |
| ErrorHandler.StatusDeterminesKind | src/backend/src/main/java/com/bookmycut/exception/GlobalExceptionHandler.java:33-163 | Two exceptions get the same status exactly when they are of the same kind. |
| ErrorHandler.HiddenTextNotRevealed | src/backend/src/main/java/com/bookmycut/exception/GlobalExceptionHandler.java:63-163 | For 401 and 500 the response does not depend on the exception's own message. |
| ErrorHandler.VisibleFailuresDistinguished | src/backend/src/main/java/com/bookmycut/exception/GlobalExceptionHandler.java:33-103 | Two different visible failures (404, 400, 403, 409) never produce the same response. |
| PhoneValidator.StripSpaces | src/backend/src/main/java/com/bookmycut/util/PhoneNumberValidator.java:34 | The cleaned phone holds exactly the input's non-whitespace characters. |
| PhoneValidator.PatternOnStripped | src/backend/src/main/java/com/bookmycut/util/PhoneNumberValidator.java:17-19 | On a string without whitespace the pattern matches exactly an optional `+34` or `0034`, then 6-9, then eight digits. |
| PhoneValidator.IsValid | src/backend/src/main/java/com/bookmycut/util/PhoneNumberValidator.java:27-37 | A null or blank phone is valid. Otherwise the phone is valid exactly when its cleaned form is well formed, which gives a cleaned length of 9, 12 or 13. |
| PhoneValidator.SpaceInsensitive | src/backend/src/main/java/com/bookmycut/util/PhoneNumberValidator.java:34 | Inserting a whitespace character anywhere never changes the verdict. |
| PhoneValidator.StripInsert | src/backend/src/main/java/com/bookmycut/util/PhoneNumberValidator.java:34 | Removing whitespace ignores an inserted whitespace character. |
| PhoneValidator.BlankInsert | src/backend/src/main/java/com/bookmycut/util/PhoneNumberValidator.java:29 | Inserting a trimmable character does not change blankness. |
| PhoneValidator.StripNoSpaces | src/backend/src/main/java/com/bookmycut/util/PhoneNumberValidator.java:34 | A phone without whitespace is its own cleaned form. |
| PhoneValidator.VerdictOfPlain | src/backend/src/main/java/com/bookmycut/util/PhoneNumberValidator.java:27-37 | For a phone with no whitespace and a non-blank start, the verdict is exactly well-formedness. |
| PhoneValidator.DocumentedExampleRejected | src/backend/src/main/java/com/bookmycut/util/PhoneNumberValidator.java:9-19 | The doc comment's example `123456789` is rejected, because the first digit must be 6-9. |
| PhoneValidator.AcceptedShapes | src/backend/src/main/java/com/bookmycut/util/PhoneNumberValidator.java:9-19 | Every prefix (`""`, `+34`, `0034`) followed by a subscriber number is accepted. |
| AppointmentController.Caller | src/backend/src/main/java/com/bookmycut/controller/AppointmentController.java:112-116 | An absent principal gives no caller. A present one gives the user it names, or fails when there is none. |
| AppointmentController.RequiredCaller | src/backend/src/main/java/com/bookmycut/controller/AppointmentController.java:398-401 | An authenticated principal must name a stored user; otherwise the request fails as an internal error. |
| AppointmentController.StatusFilter | src/backend/src/main/java/com/bookmycut/controller/AppointmentController.java:119-126 | An absent, empty or unrecognised `estado` gives no status filter. Otherwise the filter is the status whose name is the upper-cased value. |
| AppointmentController.StatusFilterIgnoresCase | src/backend/src/main/java/com/bookmycut/controller/AppointmentController.java:119-126 | The status filter does not depend on the case of the value. |
| AppointmentController.Caught | src/backend/src/main/java/com/bookmycut/controller/AppointmentController.java:204-207 | Any failure inside the listing becomes a bare internal error. |
| AppointmentController.ListAppointments | src/backend/src/main/java/com/bookmycut/controller/AppointmentController.java:84-208 | Failures are bare 500s, and an anonymous caller without stylist or date gets an empty list. A client or stylist sees exactly their own appointments. An administrator's advanced search returns exactly the appointments meeting its criteria. |
| AppointmentController.UnknownStylistIsServerError | src/backend/src/main/java/com/bookmycut/controller/AppointmentController.java:129-207 | An anonymous listing by an unknown stylist is a 500, not a 404. |
| AppointmentController.PaginatedAdminIgnoresDate | src/backend/src/main/java/com/bookmycut/controller/AppointmentController.java:149-174 | A paginated administrator listing with only a date returns every appointment: the date is ignored. |
| AppointmentController.ModifyImpliesView | src/backend/src/main/java/com/bookmycut/controller/AppointmentController.java:472-481 | Whoever may modify an appointment may also view it. |
| AppointmentController.GetCitaById | src/backend/src/main/java/com/bookmycut/controller/AppointmentController.java:234-263 | An unknown key is NotFound. Otherwise the appointment is returned exactly to an administrator, its client or its stylist, and anyone else is Forbidden. |
| AppointmentController.Authorize | src/backend/src/main/java/com/bookmycut/controller/AppointmentController.java:472-483 | An unknown key is NotFound before any permission check. Otherwise only an administrator or the owning client passes. |
| AppointmentController.UpdateCita | src/backend/src/main/java/com/bookmycut/controller/AppointmentController.java:470-484 | The permission check's error is returned unchanged. Once an administrator or the owning client passes it, the result is exactly the service update as written. |
| AppointmentController.UpdateCitaKeepsNoDoubleBooking | src/backend/src/main/java/com/bookmycut/controller/AppointmentController.java:470-484 | An update through the endpoint creates no double booking, except by a status-only reactivation. |
| AppointmentController.UpdateCitaDoubleBooks | src/backend/src/main/java/com/bookmycut/controller/AppointmentController.java:472-484 | An administrator's `{"estado": "CONFIRMADA"}` on a cancelled appointment whose slot was rebooked is accepted and leaves two confirmed overlapping bookings. The corrected endpoint refuses it as a conflict. |
| AppointmentController.UpdateCitaCorrected | src/backend/src/main/java/com/bookmycut/controller/AppointmentController.java:470-484 | The endpoint with the corrected service update: the same permission check, then exactly the corrected update. |
| AppointmentController.UpdateCitaCorrectedKeepsNoDoubleBooking | src/backend/src/main/java/com/bookmycut/controller/AppointmentController.java:470-484 | The corrected endpoint never creates a double booking. |
| AppointmentController.StylistCannotModify | src/backend/src/main/java/com/bookmycut/controller/AppointmentController.java:472-536 | A stylist who is not the client is refused update and delete. |
| AppointmentController.DeleteCita | src/backend/src/main/java/com/bookmycut/controller/AppointmentController.java:517-545 | Deletion goes through only for an administrator or the owning client, after the NotFound check. A permission failure is returned unchanged. A permitted deletion is exactly the service's delete of that appointment. |
| AppointmentController.DeleteCitaRemovesExactly | src/backend/src/main/java/com/bookmycut/controller/AppointmentController.java:525-537 | With unique appointment keys, a permitted deletion leaves every other table alone and keeps exactly the appointments with another key. |
| AppointmentController.OwnBooking | src/backend/src/main/java/com/bookmycut/controller/AppointmentController.java:402-405 | A client's request gets the client's own key; an administrator's is left as sent. |
| AppointmentController.CreateCita | src/backend/src/main/java/com/bookmycut/controller/AppointmentController.java:386-416 | A stylist's token is refused. Otherwise a caller lookup failure is returned unchanged, and a found caller gets exactly the service's create of their own booking. A client's booking always has the client as its client. |
| AppointmentController.ClientIdIgnoredForClients | src/backend/src/main/java/com/bookmycut/controller/AppointmentController.java:402-407 | For a client caller the client key sent makes no difference to the outcome, so a client cannot book for someone else. |
| AppointmentController.CreateCitaKeepsNoDoubleBooking | src/backend/src/main/java/com/bookmycut/controller/AppointmentController.java:386-416 | A booking through the endpoint never creates a double booking. |
| AppointmentController.PublicBooking | src/backend/src/main/java/com/bookmycut/controller/AppointmentController.java:310-319 | The booking request copies stylist, date, times, price and services from the public form. The client is the found or created account, and the phone is the one given on the form. |
| AppointmentController.CreatePublicCita | src/backend/src/main/java/com/bookmycut/controller/AppointmentController.java:290-354 | The client is found or created first, and that effect stays even when the booking fails. Once the client is settled, the booking succeeds exactly when the service's create of `PublicBooking` does. It then has the same store and appointment, and on failure the same error. A token is returned exactly when the client was new and a non-blank password was given, and it is that client's response. |
| AppointmentController.PublicBookingKeepsNoDoubleBooking | src/backend/src/main/java/com/bookmycut/controller/AppointmentController.java:301-321 | A public booking never leaves two active appointments of one stylist overlapping, whether or not it succeeds. |
| AppointmentController.FailedPublicBookingKeepsAccount | src/backend/src/main/java/com/bookmycut/controller/AppointmentController.java:301-321 | When the booking itself fails, the newly created client account remains in the store. |
| CitasList.OfferedActionsPermitted | src/frontend/src/app/components/citas/citas-list/citas-list.component.ts:291-303 | An offered edit or cancel is one the server permits. A stylist is never offered one; a client only on a CONFIRMADA appointment. |
| CitasList.ServerAllowsWhatPageHides | src/frontend/src/app/components/citas/citas-list/citas-list.component.ts:291-303 | A client's cancelled appointment has its buttons hidden, though the server would accept the client's change. |
| CitasList.PageNumbers | src/frontend/src/app/components/citas/citas-list/citas-list.component.ts:311-323 | The pages shown are a contiguous ascending range inside [0, totalPages), at most five. When the current page is valid, there are min(5, totalPages) of them and they include it. |
| UserController.ApplyFields | src/backend/src/main/java/com/bookmycut/controller/UserController.java:336-369 | Keys are read in the source's order. A null name or role is a server error. A role that does not parse after upper-casing is then a bad request, and a null flag or password a server error. Otherwise only the given fields change, and a promotion is reported exactly when the role becomes ESTILISTA from another role. |
| UserController.CreateEach | src/backend/src/main/java/com/bookmycut/controller/UserController.java:450-467 | Each weekday's default row is created unless that create fails, which is skipped. Only the availability table grows, and only by default rows. |
| UserController.CreateEachCoversDays | src/backend/src/main/java/com/bookmycut/controller/UserController.java:450-467 | After the loop, every weekday in the list has a default row for the stylist, created now or before. |
| UserController.CreateDefaultAvailabilities | src/backend/src/main/java/com/bookmycut/controller/UserController.java:431-477 | A stylist with any weekly row gets nothing. Otherwise Monday to Friday 10:00-18:30 rows are created, and failures never propagate. |
| UserController.DefaultWeekProvisioned | src/backend/src/main/java/com/bookmycut/controller/UserController.java:434-457 | A stylist with no rows ends with a 10:00-18:30 row on each of Monday to Friday. |
| UserController.UpdateUsuario | src/backend/src/main/java/com/bookmycut/controller/UserController.java:322-398 | Succeeds exactly when the user exists and the body has no null outside the phone and no unknown role. An unknown user is NotFound, and any other refusal is the error of applying the fields. On success the row is overwritten by the applied user. The default week is then added exactly when that was a promotion to ESTILISTA, so availabilities change only by default rows. |
| UserController.RoleRefusalStatuses | src/backend/src/main/java/com/bookmycut/controller/UserController.java:344-357 | A null role gets a 500, while a role text naming no role gets a 400. |
| UserController.PromotionProvisionsDefaultWeek | src/backend/src/main/java/com/bookmycut/controller/UserController.java:351-376 | Promoting a user without weekly rows to stylist, in a body with no null keys, gives them the default week. |
| UserController.ToggleUserActive | src/backend/src/main/java/com/bookmycut/controller/UserController.java:402-425 | Flips only the active flag of that user; an unknown user is NotFound. |
| UserController.ToggleTwiceRestores | src/backend/src/main/java/com/bookmycut/controller/UserController.java:411-413 | Toggling twice restores the store. |
| UserController.UpdateProfile | src/backend/src/main/java/com/bookmycut/controller/UserController.java:226-285 | Anonymous is Unauthorized, an unknown user NotFound, a failing lookup its own error, and a wrong current password Unauthorized. It succeeds exactly when none of these applies. Then only name and password change, and the caller's row is rewritten in place. |
| UserController.ProfileUpdateKeepsCallerFound | src/backend/src/main/java/com/bookmycut/controller/UserController.java:226-285 | A profile update does not touch username or e-mail, so afterwards the same principal finds exactly the updated account. |
| StylistServiceController.AssociateServices | src/backend/src/main/java/com/bookmycut/controller/StylistServiceController.java:108-153 | Checks in order: a client's token, a stylist acting for someone else, an unknown target, a non-stylist target, missing or empty ids, an id count mismatch. A client's token is refused by `@PreAuthorize` alone, so it becomes a server error (500). Success replaces only the target's service list, by exactly the requested known services. |
| StylistServiceController.RefusalStatuses | src/backend/src/main/java/com/bookmycut/controller/StylistServiceController.java:109-123 | A client's token gets a 500, while a stylist acting for another stylist gets a 403. |
| StylistServiceController.AssociationAcceptsExactly | src/backend/src/main/java/com/bookmycut/controller/StylistServiceController.java:132-145 | For a permitted caller and stylist target, the association succeeds exactly when the ids are non-empty, pairwise distinct and all known. The new list then holds exactly those services. |
| StylistServiceController.RepeatedIdRefused | src/backend/src/main/java/com/bookmycut/controller/StylistServiceController.java:138-142 | Requesting the same known service twice is refused, because the query returns it once. |
| CitaForm.JsTrimStart | src/frontend/src/app/components/citas/cita-form/cita-form.component.ts:472 | Leading JavaScript whitespace is removed and nothing else. |
| CitaForm.JsTrimEnd | src/frontend/src/app/components/citas/cita-form/cita-form.component.ts:472 | Trailing JavaScript whitespace is removed and nothing else. |
| CitaForm.StripJsSpaces | src/frontend/src/app/components/citas/cita-form/cita-form.component.ts:474 | The cleaned phone holds exactly the non-whitespace characters. |
| CitaForm.TrimThenStrip | src/frontend/src/app/components/citas/cita-form/cita-form.component.ts:472-474 | Trimming before removing all whitespace makes no difference. |
| CitaForm.StripSpacePrefix | src/frontend/src/app/components/citas/cita-form/cita-form.component.ts:474 | Leading whitespace disappears when all whitespace is removed. |
| CitaForm.StripSpaceSuffix | src/frontend/src/app/components/citas/cita-form/cita-form.component.ts:474 | Trailing whitespace disappears when all whitespace is removed. |
| CitaForm.ClientPatternIsWellFormed | src/frontend/src/app/components/citas/cita-form/cita-form.component.ts:476 | The form's pattern accepts exactly the numbers the server's pattern accepts once whitespace is gone. |
| CitaForm.PhoneValid | src/frontend/src/app/components/citas/cita-form/cita-form.component.ts:468-482 | An empty value is left to `required`. Otherwise the value is valid exactly when its whitespace-free form is well formed. |
| CitaForm.PhoneValidatorsAgree | src/frontend/src/app/components/citas/cita-form/cita-form.component.ts:468-482 | On a non-blank phone whose whitespace both languages classify alike, form and server give the same verdict. |
| CitaForm.SpacesOnlyPhoneDisagrees | src/frontend/src/app/components/citas/cita-form/cita-form.component.ts:469-478 | A phone of one space is accepted by the server as blank but rejected by the form. |
| CitaForm.NoBreakSpaceDisagrees | src/frontend/src/app/components/citas/cita-form/cita-form.component.ts:474 | A number behind a no-break space is rejected by the server but accepted by the form. |
| CitaForm.ServerRejectsNoBreakSpace | src/backend/src/main/java/com/bookmycut/util/PhoneNumberValidator.java:34-36 | The server never accepts a ten-character phone that starts with a no-break space. |
| CitaForm.ClientStripsNoBreakSpace | src/frontend/src/app/components/citas/cita-form/cita-form.component.ts:474 | The form accepts any subscriber number behind a no-break space. |
| CitaForm.Split | src/frontend/src/app/components/citas/cita-form/cita-form.component.ts:901 | `split` always gives at least one piece, and a string without the separator is its own single piece. |
| CitaForm.SplitFirst | src/frontend/src/app/components/citas/cita-form/cita-form.component.ts:901 | A separator-free first piece is split off the front. |
| CitaForm.SplitJoin | src/frontend/src/app/components/citas/cita-form/cita-form.component.ts:901 | Two separator-free pieces joined by the separator split back apart. |
| CitaForm.SplitJoin3 | src/frontend/src/app/components/citas/cita-form/cita-form.component.ts:901 | Three separator-free pieces joined by the separator split back apart. |
| CitaForm.LeadingDigits | src/frontend/src/app/components/citas/cita-form/cita-form.component.ts:905-906 | The longest prefix of decimal digits: all digits, followed by a non-digit or the end. |
| CitaForm.ParseInt | src/frontend/src/app/components/citas/cita-form/cita-form.component.ts:905-906 | `parseInt` is NaN exactly when no digit follows the leading whitespace and sign. |
| CitaForm.DigitChar | src/frontend/src/app/components/citas/cita-form/cita-form.component.ts:913 | The character of a digit is a decimal digit whose value is that digit. |
| CitaForm.Decimal | src/frontend/src/app/components/citas/cita-form/cita-form.component.ts:913 | `String(n)` is a non-empty digit string, one digit long exactly below 10. |
| CitaForm.Pad2 | src/frontend/src/app/components/citas/cita-form/cita-form.component.ts:913 | `padStart(2, '0')` gives at least two digits. |
| CitaForm.FormatTime | src/frontend/src/app/components/citas/cita-form/cita-form.component.ts:910-914 | The label is at least five characters with the colon third from the end. |
| CitaForm.DecimalValue | src/frontend/src/app/components/citas/cita-form/cita-form.component.ts:913 | The decimal string of n reads back as n. |
| CitaForm.LeadingZeroValue | src/frontend/src/app/components/citas/cita-form/cita-form.component.ts:913 | A padding zero does not change a digit string's value. |
| CitaForm.LeadingDigitsOfDigits | src/frontend/src/app/components/citas/cita-form/cita-form.component.ts:905-906 | A digit string is all leading digits. |
| CitaForm.ParseDigits | src/frontend/src/app/components/citas/cita-form/cita-form.component.ts:905-906 | `parseInt` of a plain digit string is its value. |
| CitaForm.ParsePad2 | src/frontend/src/app/components/citas/cita-form/cita-form.component.ts:905-913 | `parseInt` reads a padded number back. |
| CitaForm.NoColon | src/frontend/src/app/components/citas/cita-form/cita-form.component.ts:901 | A digit string holds no colon. |
| CitaForm.ParseFormatRoundTrip | src/frontend/src/app/components/citas/cita-form/cita-form.component.ts:887-914 | `parseTime(formatTime(m)) == m` for every non-negative m, including counts past midnight. |
| CitaForm.ParseIgnoresSeconds | src/frontend/src/app/components/citas/cita-form/cita-form.component.ts:899-907 | The seconds of the server's `HH:mm:ss` are ignored. |
| CitaForm.FormatTimeInjective | src/frontend/src/app/components/citas/cita-form/cita-form.component.ts:910-914 | Distinct minute counts get distinct labels. |
| CitaForm.ThreeCaseIsOverlap | src/frontend/src/app/components/citas/cita-form/cita-form.component.ts:872-874 | For an ordered slot and an ordered appointment, the form's three-case test is exactly the server's overlap test. |
| CitaForm.GenerateSlots | src/frontend/src/app/components/citas/cita-form/cita-form.component.ts:829-885 | The offered starts are exactly the 30-minute grid points before the end that no non-cancelled appointment meets in their first 30 minutes, in strictly ascending order. |
| CitaForm.GridGap | src/frontend/src/app/components/citas/cita-form/cita-form.component.ts:881 | The grid point after t is exactly one step later, and no grid point lies between. |
| CitaForm.Duration | src/frontend/src/app/components/citas/cita-form/cita-form.component.ts:955-957 | The length of the booking is the sum of the selected durations, or 60 when that sum is 0, and is always positive. |
| CitaForm.SelectHour | src/frontend/src/app/components/citas/cita-form/cita-form.component.ts:916-965 | Accepted exactly when the hour is still offered and falls in no non-cancelled appointment; otherwise the fixed message. The end is the start plus the duration, with no clamp at midnight. |
| CitaForm.OfferedSlotSelectable | src/frontend/src/app/components/citas/cita-form/cita-form.component.ts:921-948 | The second check of `seleccionarHora` never fires for an offered hour. |
| CitaForm.LastSlotOverruns | src/frontend/src/app/components/citas/cita-form/cita-form.component.ts:846-957 | A 09:00-10:00 window offers 09:30, yet the default hour booked there ends at 10:30, outside the hours the server requires. |
| CitaForm.OfferedSlotCanStillClash | src/frontend/src/app/components/citas/cita-form/cita-form.component.ts:848-874 | Only a slot's first 30 minutes are checked: 09:30 is offered next to a 10:00-11:00 booking, though a 60-minute booking from 09:30 overlaps it. |
| CitaForm.HasUnavailableException | src/frontend/src/app/components/citas/cita-form/cita-form.component.ts:640-667 | False while no stylist is chosen. Otherwise true exactly when an unavailable exception on that day is global or belongs to the stylist, whatever its window. |
| CitaForm.NotGreyedPassesExceptionCheck | src/frontend/src/app/components/citas/cita-form/cita-form.component.ts:640-667 | A day the form leaves selectable has no exception that makes the server refuse a request. |
| CitaForm.FullDayExceptionAgrees | src/frontend/src/app/components/citas/cita-form/cita-form.component.ts:640-667 | A whole-day unavailable exception both greys the day out and makes the server refuse any request that day. |
| CitaForm.PartialExceptionGreysWholeDay | src/frontend/src/app/components/citas/cita-form/cita-form.component.ts:652-666 | A 12:00-13:00 unavailable exception greys out the whole day, though the server would accept 09:00-10:00. |
| CitaForm.MondayIndex | src/frontend/src/app/components/citas/cita-form/cita-form.component.ts:580-583 | `getDayOfWeek` maps the Sunday-first index to a Monday-first one in 0..6. |
| CitaForm.MondayIndexAgrees | src/frontend/src/app/components/citas/cita-form/cita-form.component.ts:580-583 | `getDayOfWeek` and the grid's `(getDay() + 6) % 7` agree, and both equal the ISO weekday number minus one. |
| CitaForm.NextMonth | src/frontend/src/app/components/citas/cita-form/cita-form.component.ts:563-570 | `mesSiguiente` moves exactly one month forward, wrapping December to January of the next year. |
| CitaForm.PrevMonth | src/frontend/src/app/components/citas/cita-form/cita-form.component.ts:554-561 | `mesAnterior` moves exactly one month back, wrapping January to December of the previous year. |
| CitaForm.MonthNavigationInverse | src/frontend/src/app/components/citas/cita-form/cita-form.component.ts:554-570 | Going forward then back, or back then forward, returns to the same month. |
| CitaForm.Lead | src/frontend/src/app/components/citas/cita-form/cita-form.component.ts:527 | The number of blank cells before the 1st is less than seven. |
| CitaForm.BuildMonth | src/frontend/src/app/components/citas/cita-form/cita-form.component.ts:523-552 | Every row has seven cells, and there are just enough rows for the lead and the days, so there is no all-blank row. Cell k of the grid is blank before the lead, then day k - lead + 1 up to the month's last day, then blank. |

## Left out

- Transactions: every operation is atomic. The model does not follow a
  failing notification marking the shared transaction rollback-only,
  which could undo the swallowed failures in `createAppointment` and in
  the reminder sweep.
- Concurrency: the `@Async` reminder, the `@Scheduled` trigger, WebSocket
  push and check-then-insert races on bookings cannot be expressed in a
  sequential model.
- Persistence mechanics: flushes, the native inserts into
  `clientes`/`estilistas`, paging and `Sort` are left out. Paged queries
  are modelled by their unpaged results.
- UserController.UpdateUsuario: an invalid role is modelled as changing
  nothing. In the source, JPA dirty checking could still commit name and
  phone changes set before the 400, because the method is transactional.
- Text.ToLower: maps ASCII letters only. Java's `toLowerCase()` also
  maps other letters (`İ`, `Ñ`), so a username derived from an e-mail
  with such letters differs.
- Text.ToUpper: maps ASCII letters only. Java's `toUpperCase()` also maps
  other letters, such as the dotless `ı` to `I`. So `"confırmada"` is a
  valid status filter in Java but no filter in the model.
- AppointmentRepository.FindWithAdvancedFilters: `%` and `_` inside a
  name criterion are wildcards of the source's `LIKE`; the model matches
  them as literal characters.
- UserController.UpdateProfile: only the password check, the lookup and
  the in-place save are modelled. A new password given without a current
  one is stored unchecked, as in the source.
- HTTP plumbing: response bodies, Swagger annotations and the controllers
  that only delegate (`AuthController`, `NotificationController`,
  `AvailabilityController`, `ScheduleExceptionController`,
  `ServiceOfferController`) are left out. Also left out: the field-copy
  CRUD of `ServiceOfferService`, `ServiceOfferMapper`, `UserMapper` and
  the DTO classes.
- Bean validation: the annotation constraints, and the 400 handlers for
  `MethodArgumentNotValidException` and `ConstraintViolationException`,
  are Spring's machinery, not logic of this core.
- Security machinery: JWT signing, parsing and expiry,
  `JwtAuthenticationFilter`, `SecurityConfig`, `CustomUserDetailsService`
  and `PlainTextPasswordEncoder` are left out. Spring's authentication of
  a password is a parameter of `AuthService.Login`, and the principal and
  token role are parameters of the controllers.
- Message text: the formatted Spanish notification messages
  (`dd/MM/yyyy` dates, names) are left out. A notification records
  recipient, type, title, appointment and creation instant.
- Clock and randomness: `LocalDate.now()`, `LocalTime.now()`,
  `LocalDateTime.now()` and `UUID.randomUUID()` are parameters.
- Front end: JS number arithmetic (`calcularPrecioTotal`), `Date`/timezone
  conversions, `localStorage`, guards, routing and every other component
  are left out. `parseTime` is modelled on strings only; the
  `LocalTime`-object branch is not.
- `ResourceNotFoundException`'s message text (resource, field and value)
  is abstracted; the `NotFound` error carries only the resource name.
- Configuration: `CorsConfig`, `OpenApiConfig`, `JacksonConfig`,
  `DotenvConfig` and `BookMyCutApplication` are left out.

## Findings

| source | as written | input that shows it | evidently intended | confidence | as-written member | corrected member |
|---|---|---|---|---|---|---|
| src/backend/src/main/java/com/bookmycut/service/AppointmentService.java:611-689 | A change of `estado` alone is never re-validated, so a cancelled appointment can be set back to CONFIRMADA over a slot that was booked again meanwhile. | Appointment 1 is CANCELADA, 10:00-11:00 with stylist 20. Appointment 2 is CONFIRMADA in the same slot. Update 1 with `{"estado": "CONFIRMADA"}`. | A status change from CANCELADA to a blocking status runs the overlap check, excluding the appointment itself, so no stylist is double-booked. | not executed | AppointmentService.ReactivationDoubleBooks | AppointmentService.UpdateKeepsNoDoubleBooking |
