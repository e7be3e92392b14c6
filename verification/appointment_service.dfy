/** The booking engine: validation and persistence of appointments.  Every
    operation runs in one transaction, so a failed call leaves the database
    as it was; the result of a successful one is the new database. */
module AppointmentService {
  import opened Wrappers
  import opened Calendar
  import opened Entities
  import opened Errors
  import opened Store
  import opened AppointmentMapper
  import Seqs
  import UserRepository
  import AppointmentRepository
  import ScheduleExceptionRepository
  import AvailabilityRepository
  import ServiceOfferRepository
  import NotificationService

  /** `getDayOfWeekName`: the Spanish weekday name used in error messages. */
  function DayName(w: DayOfWeek): string {
    match w
    case Monday => "lunes"
    case Tuesday => "martes"
    case Wednesday => "miércoles"
    case Thursday => "jueves"
    case Friday => "viernes"
    case Saturday => "sábado"
    case Sunday => "domingo"
  }

  /** Distinct weekdays get distinct names. */
  lemma DayNameInjective(a: DayOfWeek, b: DayOfWeek)
    ensures DayName(a) == DayName(b) ==> a == b
  {
    if a != b {
      assert DayName(a)[0] != DayName(b)[0] || DayName(a)[1] != DayName(b)[1];
    }
  }

  /** An unavailable exception blocks a request when it covers the whole day,
      or when its window and `[start, end]` meet as closed intervals: a
      request ending exactly when the exception starts is blocked. */
  predicate ExceptionBlocks(e: ScheduleException, start: TimeOfDay, end: TimeOfDay) {
    && e.kind == NoDisponible
    && (e.IsFullDay() || !(end < e.startTime.value || start > e.endTime.value))
  }

  /** The loop over the day's exceptions: the first blocking one decides the
      message. */
  function CheckExceptions(excs: seq<ScheduleException>, start: TimeOfDay, end: TimeOfDay): (o: Outcome<Error>)
    ensures o.Pass? <==> forall e :: e in excs ==> !ExceptionBlocks(e, start, end)
    ensures o.Fail? ==> o.error == Conflict(MsgUnavailableDate) || o.error == Conflict(MsgUnavailableSlot)
    ensures o.Fail? && o.error == Conflict(MsgUnavailableDate) ==>
      exists e :: e in excs && e.kind == NoDisponible && e.IsFullDay()
    decreases |excs|
  {
    if |excs| == 0 then Pass
    else
      var e := excs[0];
      assert e in excs;
      if e.kind == NoDisponible && e.IsFullDay() then Fail(Conflict(MsgUnavailableDate))
      else if ExceptionBlocks(e, start, end) then Fail(Conflict(MsgUnavailableSlot))
      else
        var rest := CheckExceptions(excs[1..], start, end);
        assert forall x :: x in excs ==> x == e || x in excs[1..];
        rest
  }

  /** A weekly window contains the request. */
  predicate Covers(v: Availability, start: TimeOfDay, end: TimeOfDay) {
    v.startTime <= start && end <= v.endTime
  }

  predicate ExceptionApplies(e: ScheduleException, stylist: UserId, date: Day) {
    e.date == date && (e.stylist == Some(stylist) || e.stylist.None?)
  }

  /** `validateStylistAvailability`. */
  function ValidateStylistAvailability(db: Db, stylist: UserId, date: Day, start: TimeOfDay, end: TimeOfDay)
    : (o: Outcome<Error>)
    ensures o.Pass? <==>
      && (forall e :: e in db.exceptions && ExceptionApplies(e, stylist, date) ==> !ExceptionBlocks(e, start, end))
      && (exists v :: v in db.availabilities && v.stylist == stylist && v.dayOfWeek == WeekdayOf(date)
                      && Covers(v, start, end))
    ensures o.Fail? && o.error.Conflict? <==>
      exists e :: e in db.exceptions && ExceptionApplies(e, stylist, date) && ExceptionBlocks(e, start, end)
    ensures o.Fail? ==> o.error.Conflict? || o.error.BadRequest?
  {
    var excs := ScheduleExceptionRepository.FindByDateAndStylistOrNull(db.exceptions, date, stylist);
    match CheckExceptions(excs, start, end)
    case Fail(e) => Fail(e)
    case Pass =>
      var avs := AvailabilityRepository.FindByStylistAndDayOfWeek(db.availabilities, stylist, WeekdayOf(date));
      if |avs| == 0 then Fail(BadRequest(MsgNoAvailabilityPrefix + DayName(WeekdayOf(date))))
      else if exists v :: v in avs && Covers(v, start, end) then Pass
      else Fail(BadRequest(MsgOutsideAvailability))
  }

  /** `validateNoOverlappingAppointments`: with an id to exclude, the edited
      appointment does not clash with itself. */
  function ValidateNoOverlap(
    appts: seq<Appointment>, stylist: UserId, date: Day, start: TimeOfDay, end: TimeOfDay,
    exclude: Option<AppointmentId>)
    : (o: Outcome<Error>)
    ensures o.Pass? <==> forall a :: a in appts && AppointmentRepository.Clashes(a, stylist, date, start, end)
                                     ==> exclude == Some(a.id)
    ensures o.Fail? ==> o.error == Conflict(MsgSlotTaken)
  {
    var overlapping :=
      if exclude.Some? then AppointmentRepository.FindOverlappingExcluding(appts, stylist, date, start, end, exclude.value)
      else AppointmentRepository.FindOverlapping(appts, stylist, date, start, end);
    if |overlapping| == 0 then Pass
    else
      assert overlapping[0] in overlapping;
      Fail(Conflict(MsgSlotTaken))
  }

  /** `calculateTotalPrice`: the sum of the unit prices. */
  function CalculateTotalPrice(services: seq<ServiceOffer>): (total: Cents)
    ensures |services| == 1 ==> total == services[0].unitPrice
    ensures (forall s :: s in services ==> s.unitPrice > 0) ==> total >= |services|
  {
    PositivePricesSum(services);
    Seqs.SumOf(services, (s: ServiceOffer) => s.unitPrice)
  }

  lemma {:induction false} PositivePricesSum(services: seq<ServiceOffer>)
    ensures |services| == 1 ==> Seqs.SumOf(services, (s: ServiceOffer) => s.unitPrice) == services[0].unitPrice
    ensures (forall s :: s in services ==> s.unitPrice > 0) ==>
      Seqs.SumOf(services, (s: ServiceOffer) => s.unitPrice) >= |services|
    decreases |services|
  {
    if |services| > 0 {
      PositivePricesSum(services[1..]);
      assert forall s :: s in services[1..] ==> s in services;
    }
  }

  /** The price is additive over a split of the service list, so it does
      not depend on how the services are grouped. */
  lemma TotalPriceAdditive(a: seq<ServiceOffer>, b: seq<ServiceOffer>)
    ensures CalculateTotalPrice(a + b) == CalculateTotalPrice(a) + CalculateTotalPrice(b)
  {
    Seqs.SumOfAppend(a, b, (s: ServiceOffer) => s.unitPrice);
  }

  /** The services step of `createAppointment`: a non-empty id list must
      name as many stored services as it has entries. */
  function ResolveServices(db: Db, ids: Option<seq<ServiceId>>): (r: Result<seq<ServiceOffer>, Error>)
    ensures r.Err? <==>
      ids.Some? && |ids.value| > 0 && |ServiceOfferRepository.FindAllById(db.services, ids.value)| != |ids.value|
    ensures r.Err? ==> r.error == NotFound("Services")
    ensures r.Ok? && (ids.None? || ids.value == []) ==> r.value == []
    ensures r.Ok? && ids.Some? ==> |r.value| == |ids.value|
    ensures r.Ok? && ids.Some? ==> forall s :: s in r.value <==> s in db.services && s.id in ids.value
  {
    if ids.None? || |ids.value| == 0 then Ok([])
    else
      var found := ServiceOfferRepository.FindAllById(db.services, ids.value);
      if |found| != |ids.value| then Err(NotFound("Services")) else Ok(found)
  }

  /** The price step: services decide the price; without them the caller's
      price is required. */
  function ResolvePrice(services: seq<ServiceOffer>, given: Option<Cents>): (r: Result<Cents, Error>)
    ensures |services| > 0 ==> r == Ok(CalculateTotalPrice(services))
    ensures |services| == 0 && given.Some? ==> r == Ok(given.value)
    ensures |services| == 0 && given.None? ==> r == Err(BadRequest(MsgPriceRequired))
  {
    if |services| > 0 then Ok(CalculateTotalPrice(services))
    else if given.None? then Err(BadRequest(MsgPriceRequired))
    else Ok(given.value)
  }

  /** The user `id` exists with role `role`. */
  predicate HasRole(db: Db, id: UserId, role: Role) {
    var u := UserRepository.FindById(db.users, id);
    u.Some? && u.value.role == role
  }

  /** The client is a client and the stylist a stylist. */
  predicate PartiesOk(db: Db, req: AppointmentCreateDto) {
    HasRole(db, req.clientId, Cliente) && HasRole(db, req.stylistId, Estilista)
  }

  /** The parties are right and the window is a non-empty one that has not
      started yet. */
  predicate WindowOk(db: Db, req: AppointmentCreateDto, clock: Clock) {
    PartiesOk(db, req) && req.startTime < req.endTime && !IsPast(clock, req.date, req.startTime)
  }

  /** No stored appointment of the stylist blocks the window. */
  predicate SlotFree(appts: seq<Appointment>, stylist: UserId, date: Day, start: TimeOfDay, end: TimeOfDay) {
    forall b :: b in appts ==> !AppointmentRepository.Clashes(b, stylist, date, start, end)
  }

  /** Every check of `createAppointment` passes. */
  predicate Bookable(db: Db, req: AppointmentCreateDto, clock: Clock) {
    && WindowOk(db, req, clock)
    && ValidateStylistAvailability(db, req.stylistId, req.date, req.startTime, req.endTime).Pass?
    && SlotFree(db.appointments, req.stylistId, req.date, req.startTime, req.endTime)
    && ResolveServices(db, req.serviceIds).Ok?
    && (ResolveServices(db, req.serviceIds).value != [] || req.totalPrice.Some?)
  }

  /** The first checks of `createAppointment`, in order: the client exists
      and is a client, the stylist exists and is a stylist, the end follows
      the start, and the start is not past. */
  function CheckRequest(db: Db, req: AppointmentCreateDto, clock: Clock): (o: Outcome<Error>)
    ensures o.Pass? <==> WindowOk(db, req, clock)
    ensures UserRepository.FindById(db.users, req.clientId).None? ==> o == Fail(NotFound("User"))
    ensures (UserRepository.FindById(db.users, req.clientId).Some? && !HasRole(db, req.clientId, Cliente))
      ==> o == Fail(BadRequest(MsgNotClient))
    ensures (HasRole(db, req.clientId, Cliente) && UserRepository.FindById(db.users, req.stylistId).None?)
      ==> o == Fail(NotFound("User"))
    ensures (HasRole(db, req.clientId, Cliente) && UserRepository.FindById(db.users, req.stylistId).Some?
             && !HasRole(db, req.stylistId, Estilista))
      ==> o == Fail(BadRequest(MsgNotStylist))
    ensures PartiesOk(db, req) && req.endTime <= req.startTime ==> o == Fail(BadRequest(MsgEndNotAfterStart))
    ensures (PartiesOk(db, req) && req.startTime < req.endTime && IsPast(clock, req.date, req.startTime))
      ==> o == Fail(BadRequest(MsgCreateInPast))
  {
    var client := UserRepository.FindById(db.users, req.clientId);
    if client.None? then Fail(NotFound("User"))
    else if client.value.role != Cliente then Fail(BadRequest(MsgNotClient))
    else
      var stylist := UserRepository.FindById(db.users, req.stylistId);
      if stylist.None? then Fail(NotFound("User"))
      else if stylist.value.role != Estilista then Fail(BadRequest(MsgNotStylist))
      else if req.endTime <= req.startTime then Fail(BadRequest(MsgEndNotAfterStart))
      else if IsPast(clock, req.date, req.startTime) then Fail(BadRequest(MsgCreateInPast))
      else Pass
  }

  /** The slot checks: the stylist's exceptions and weekly hours, then the
      overlap with stored appointments. */
  function CheckSlot(db: Db, stylist: UserId, date: Day, start: TimeOfDay, end: TimeOfDay, exclude: Option<AppointmentId>)
    : (o: Outcome<Error>)
    ensures var v := ValidateStylistAvailability(db, stylist, date, start, end);
      v.Fail? ==> o == v
    ensures o.Pass? <==>
      && ValidateStylistAvailability(db, stylist, date, start, end).Pass?
      && forall b :: b in db.appointments && AppointmentRepository.Clashes(b, stylist, date, start, end)
                     ==> exclude == Some(b.id)
    ensures ValidateStylistAvailability(db, stylist, date, start, end).Pass? && o.Fail?
      ==> o == Fail(Conflict(MsgSlotTaken))
  {
    match ValidateStylistAvailability(db, stylist, date, start, end)
    case Fail(e) => Fail(e)
    case Pass => ValidateNoOverlap(db.appointments, stylist, date, start, end, exclude)
  }

  /** The charge of a booking: the resolved services and the price. */
  function Charge(db: Db, req: AppointmentCreateDto): (r: Result<(seq<ServiceOffer>, Cents), Error>)
    ensures ResolveServices(db, req.serviceIds).Err? ==> r == Err(NotFound("Services"))
    ensures ResolveServices(db, req.serviceIds) == Ok([]) && req.totalPrice.None?
      ==> r == Err(BadRequest(MsgPriceRequired))
    ensures r.Ok? <==>
      ResolveServices(db, req.serviceIds).Ok? && (ResolveServices(db, req.serviceIds).value != [] || req.totalPrice.Some?)
    ensures r.Ok? ==>
      && r.value.0 == ResolveServices(db, req.serviceIds).value
      && (|r.value.0| > 0 ==> r.value.1 == CalculateTotalPrice(r.value.0))
      && (|r.value.0| == 0 ==> req.totalPrice == Some(r.value.1))
  {
    var services :- ResolveServices(db, req.serviceIds);
    var price :- ResolvePrice(services, req.totalPrice);
    Ok((services, price))
  }

  /** `createAppointment`.  The request checks, then the slot checks, then
      the charge; the first failing check decides the error.  On success it
      saves a confirmed appointment under the next key and notifies the
      client and then the stylist. */
  function CreateAppointment(db: Db, req: AppointmentCreateDto, clock: Clock)
    : (r: Result<(Db, Appointment), Error>)
    ensures CheckRequest(db, req, clock).Fail? ==> r == Err(CheckRequest(db, req, clock).error)
    ensures var slot := CheckSlot(db, req.stylistId, req.date, req.startTime, req.endTime, None);
      WindowOk(db, req, clock) && slot.Fail? ==> r == Err(slot.error)
    ensures (WindowOk(db, req, clock) && CheckSlot(db, req.stylistId, req.date, req.startTime, req.endTime, None).Pass?
             && Charge(db, req).Err?)
      ==> r == Err(Charge(db, req).error)
    ensures r.Ok? <==> Bookable(db, req, clock)
    ensures r.Ok? && db.Valid() ==> r.value.0.Valid()
    ensures r.Ok? ==>
      && Booked(db, req, clock.Now(), r.value.0, r.value.1)
      && r.value.1.services == ResolveServices(db, req.serviceIds).value
      && (|r.value.1.services| > 0 ==> r.value.1.totalPrice == CalculateTotalPrice(r.value.1.services))
      && (|r.value.1.services| == 0 ==> req.totalPrice == Some(r.value.1.totalPrice))
  {
    match CheckRequest(db, req, clock)
    case Fail(e) => Err(e)
    case Pass => match CheckSlot(db, req.stylistId, req.date, req.startTime, req.endTime, None)
      case Fail(e) => Err(e)
      case Pass => match Charge(db, req)
        case Err(e) => Err(e)
        case Ok((services, price)) => Ok(SaveBooking(db, req, services, price, clock.Now()))
  }

  /** `db'` is `db` with the confirmed appointment `a` for the request saved
      under the next key, followed by its confirmation notices to the client
      and then the stylist; nothing else changes. */
  predicate Booked(db: Db, req: AppointmentCreateDto, now: int, db': Db, a: Appointment) {
    && a.client == req.clientId && a.stylist == req.stylistId
    && a.status == Confirmada && a.date == req.date
    && a.startTime == req.startTime && a.endTime == req.endTime
    && a.clientPhone == req.clientPhone
    && a.id == db.nextAppointmentId
    && db'.appointments == db.appointments + [a]
    && db'.notifications == db.notifications + NotificationService.PairNotices(
         db, a, AppointmentConfirmed,
         NotificationService.TitleConfirmedClient, NotificationService.TitleConfirmedStylist, now)
    && db' == db.(appointments := db'.appointments, nextAppointmentId := db.nextAppointmentId + 1,
                  notifications := db'.notifications, nextNotificationId := db.nextNotificationId + 2)
  }

  /** The saving step of a checked booking: a confirmed appointment under
      the next key, then the confirmation notices for an existing client and
      stylist. */
  function SaveBooking(db: Db, req: AppointmentCreateDto, services: seq<ServiceOffer>, price: Cents, now: int)
    : (r: (Db, Appointment))
    requires PartiesOk(db, req)
    ensures Booked(db, req, now, r.0, r.1)
    ensures r.1.services == services && r.1.totalPrice == price
    ensures db.Valid() ==> r.0.Valid()
  {
    var client := UserRepository.FindById(db.users, req.clientId).value;
    var stylist := UserRepository.FindById(db.users, req.stylistId).value;
    var listed := if |services| > 0 then Some(services) else None;
    var a := ToEntity(req, client, stylist, listed, price, db.nextAppointmentId);
    var saved := db.(appointments := db.appointments + [a], nextAppointmentId := db.nextAppointmentId + 1);
    AppendKeepsValid(db, a);
    assert NotificationService.UserExists(saved, a.client) && NotificationService.UserExists(saved, a.stylist);
    assert NotificationService.PairNotices(saved, a, AppointmentConfirmed,
             NotificationService.TitleConfirmedClient, NotificationService.TitleConfirmedStylist, now)
        == NotificationService.PairNotices(db, a, AppointmentConfirmed,
             NotificationService.TitleConfirmedClient, NotificationService.TitleConfirmedStylist, now);
    var notified := NotificationService.NotifyPair(
      saved, a, AppointmentConfirmed,
      NotificationService.TitleConfirmedClient, NotificationService.TitleConfirmedStylist, now);
    (notified, a)
  }

  /** No two non-cancelled appointments of one stylist on one date overlap. */
  ghost predicate NoDoubleBooking(appts: seq<Appointment>) {
    forall i, j :: 0 <= i < |appts| && 0 <= j < |appts| && i != j
      && appts[i].stylist == appts[j].stylist && appts[i].date == appts[j].date
      && Blocks(appts[i].status) && Blocks(appts[j].status)
      ==> !AppointmentRepository.Overlaps(appts[i].startTime, appts[i].endTime, appts[j].startTime, appts[j].endTime)
  }

  /** Appending an appointment that clashes with no stored one keeps the
      invariant. */
  lemma AppendKeepsNoDoubleBooking(appts: seq<Appointment>, a: Appointment)
    requires NoDoubleBooking(appts)
    requires forall b :: b in appts ==> !AppointmentRepository.Clashes(b, a.stylist, a.date, a.startTime, a.endTime)
    ensures NoDoubleBooking(appts + [a])
  {
    var s := appts + [a];
    forall i, j | 0 <= i < |s| && 0 <= j < |s| && i != j
      && s[i].stylist == s[j].stylist && s[i].date == s[j].date && Blocks(s[i].status) && Blocks(s[j].status)
      ensures !AppointmentRepository.Overlaps(s[i].startTime, s[i].endTime, s[j].startTime, s[j].endTime)
    {
      if i == |appts| {
        assert s[j] in appts;
      } else if j == |appts| {
        assert s[i] in appts;
      }
    }
  }

  /** A successful booking never creates a double booking. */
  lemma CreateKeepsNoDoubleBooking(db: Db, req: AppointmentCreateDto, clock: Clock)
    requires NoDoubleBooking(db.appointments)
    ensures var r := CreateAppointment(db, req, clock);
      r.Ok? ==> NoDoubleBooking(r.value.0.appointments)
  {
    var r := CreateAppointment(db, req, clock);
    if r.Ok? {
      AppendKeepsNoDoubleBooking(db.appointments, r.value.1);
    }
  }

  /** Saving an appointment under the next key keeps every table's keys unique. */
  lemma AppendKeepsValid(db: Db, a: Appointment)
    ensures db.Valid() && a.id == db.nextAppointmentId ==>
      db.(appointments := db.appointments + [a], nextAppointmentId := db.nextAppointmentId + 1).Valid()
  {
  }

  /** One key of the update map: absent, present with a JSON null, present
      with a text that does not parse, or present with its parsed value.
      Every JSON value has a text form, so a status is never `Malformed`:
      an unknown name is `Given` and fails when it is looked up. */
  datatype Field<T> = Absent | Null | Malformed | Given(value: T) {
    predicate Present() { !Absent? }
    /** Absent, or present with a value that reads. */
    predicate Usable() { Absent? || Given? }
    function GetOr(default: T): T { if Given? then value else default }
  }

  /** The keys `estado`, `fecha`, `horaInicio` and `horaFin` of an update. */
  datatype UpdateRequest = UpdateRequest(
    status: Field<string>,
    date: Field<Day>,
    startTime: Field<TimeOfDay>,
    endTime: Field<TimeOfDay>)
  {
    predicate MovesSlot() { date.Present() || startTime.Present() || endTime.Present() }

    /** Every present value reads: a null value fails with a null pointer,
        an unknown status name at `valueOf` and an unreadable date or time
        at `parse`, each an unexpected exception. */
    predicate Readable() {
      && status.Usable() && (status.Given? ==> ParseStatus(status.value).Some?)
      && date.Usable() && startTime.Usable() && endTime.Usable()
    }
  }

  /** The exception a present value raises when read: a null value fails
      with a null pointer, anything else at `parse`. */
  function FieldFailure<T>(f: Field<T>): string {
    if f.Null? then "NullPointerException" else "DateTimeParseException"
  }

  /** The exception the first unreadable value raises, in the order the
      keys are read: `estado`, `fecha`, `horaInicio`, `horaFin`. */
  function ReadFailure(u: UpdateRequest): string {
    if u.status.Null? then "NullPointerException"
    else if !u.status.Usable() || (u.status.Given? && ParseStatus(u.status.value).None?) then "No enum constant"
    else if !u.date.Usable() then FieldFailure(u.date)
    else if !u.startTime.Usable() then FieldFailure(u.startTime)
    else FieldFailure(u.endTime)
  }

  /** Index of the appointment with key `id`. */
  function IndexOf(appts: seq<Appointment>, id: AppointmentId): (r: Option<nat>)
    ensures r.Some? ==> r.value < |appts| && appts[r.value].id == id
    ensures r.None? <==> forall a :: a in appts ==> a.id != id
  {
    Seqs.IndexWhere(appts, (a: Appointment) => a.id == id)
  }

  /** The position of appointment `id` and the appointment with the
      update's values written over it: the status by name, the date and
      times where given; everything else is kept. */
  function Updated(db: Db, id: AppointmentId, u: UpdateRequest): (r: Option<(nat, Appointment)>)
    ensures r.Some? <==> IndexOf(db.appointments, id).Some? && u.Readable()
    ensures r.Some? ==> IndexOf(db.appointments, id) == Some(r.value.0)
    ensures r.Some? ==>
      var (i, a) := r.value;
      var o := db.appointments[i];
      && a.id == id && a.client == o.client && a.stylist == o.stylist
      && a.totalPrice == o.totalPrice && a.services == o.services && a.clientPhone == o.clientPhone
      && a.date == u.date.GetOr(o.date)
      && a.startTime == u.startTime.GetOr(o.startTime)
      && a.endTime == u.endTime.GetOr(o.endTime)
      && (u.status.Absent? ==> a.status == o.status)
      && (u.status.Given? ==> ParseStatus(u.status.value) == Some(a.status))
  {
    match IndexOf(db.appointments, id)
    case None => None
    case Some(i) =>
      if !u.Readable() then None
      else
        var o := db.appointments[i];
        var status := if u.status.Given? then ParseStatus(u.status.value).value else o.status;
        Some((i, o.(status := status, date := u.date.GetOr(o.date),
                    startTime := u.startTime.GetOr(o.startTime), endTime := u.endTime.GetOr(o.endTime))))
  }

  /** A cancelled appointment goes back to a blocking status. */
  predicate Reactivates(o: Appointment, a: Appointment) {
    !Blocks(o.status) && Blocks(a.status)
  }

  /** An appointment becomes cancelled. */
  predicate Cancels(o: Appointment, a: Appointment) {
    a.status == Cancelada && o.status != Cancelada
  }

  /** The checks of an update of `o` into `a`, in order: the end follows
      the start; a moved slot is not past and passes the slot checks,
      excluding the appointment itself.  With `recheckReactivation` a
      reactivation that leaves the slot alone still runs the overlap check. */
  function CheckUpdate(db: Db, o: Appointment, a: Appointment, u: UpdateRequest, clock: Clock, recheckReactivation: bool)
    : (c: Outcome<Error>)
    ensures a.endTime <= a.startTime ==> c == Fail(BadRequest(MsgEndNotAfterStart))
    ensures (a.startTime < a.endTime && u.MovesSlot() && IsPast(clock, a.date, a.startTime))
      ==> c == Fail(BadRequest(MsgUpdateInPast))
    ensures var slot := CheckSlot(db, a.stylist, a.date, a.startTime, a.endTime, Some(a.id));
      (a.startTime < a.endTime && u.MovesSlot() && !IsPast(clock, a.date, a.startTime)) ==> c == slot
    ensures (a.startTime < a.endTime && !u.MovesSlot() && !(recheckReactivation && Reactivates(o, a))) ==> c == Pass
    ensures (a.startTime < a.endTime && !u.MovesSlot() && recheckReactivation && Reactivates(o, a))
      ==> c == ValidateNoOverlap(db.appointments, a.stylist, a.date, a.startTime, a.endTime, Some(a.id))
  {
    if a.endTime <= a.startTime then Fail(BadRequest(MsgEndNotAfterStart))
    else if u.MovesSlot() then
      if IsPast(clock, a.date, a.startTime) then Fail(BadRequest(MsgUpdateInPast))
      else CheckSlot(db, a.stylist, a.date, a.startTime, a.endTime, Some(a.id))
    else if recheckReactivation && Reactivates(o, a) then
      ValidateNoOverlap(db.appointments, a.stylist, a.date, a.startTime, a.endTime, Some(a.id))
    else Pass
  }

  /** Every check of the update passes. */
  predicate UpdateAccepted(db: Db, id: AppointmentId, u: UpdateRequest, clock: Clock, recheckReactivation: bool) {
    var t := Updated(db, id, u);
    && t.Some?
    && var (i, a) := t.value;
       var o := db.appointments[i];
       && a.startTime < a.endTime
       && (u.MovesSlot() ==> !IsPast(clock, a.date, a.startTime)
                             && ValidateStylistAvailability(db, a.stylist, a.date, a.startTime, a.endTime).Pass?)
       && (u.MovesSlot() || (recheckReactivation && Reactivates(o, a)) ==>
             forall b :: b in db.appointments && AppointmentRepository.Clashes(b, a.stylist, a.date, a.startTime, a.endTime)
                         ==> b.id == id)
  }

  /** The saving step of an accepted update: the row is rewritten in place
      and a cancellation notifies client and then stylist. */
  function SaveUpdate(db: Db, i: nat, o: Appointment, a: Appointment, now: int): (db': Db)
    requires i < |db.appointments|
    ensures db'.appointments == db.appointments[i := a]
    ensures db' == db.(appointments := db'.appointments,
                       notifications := db'.notifications, nextNotificationId := db'.nextNotificationId)
    ensures !Cancels(o, a) ==> db'.notifications == db.notifications && db'.nextNotificationId == db.nextNotificationId
    ensures (Cancels(o, a) && NotificationService.UserExists(db, a.client) && NotificationService.UserExists(db, a.stylist))
      ==> db'.notifications == db.notifications + NotificationService.PairNotices(
            db, a, AppointmentCancelled, NotificationService.TitleCancelled, NotificationService.TitleCancelled, now)
  {
    var saved := db.(appointments := db.appointments[i := a]);
    if Cancels(o, a) then
      assert NotificationService.PairNotices(
               saved, a, AppointmentCancelled, NotificationService.TitleCancelled, NotificationService.TitleCancelled, now)
          == NotificationService.PairNotices(
               db, a, AppointmentCancelled, NotificationService.TitleCancelled, NotificationService.TitleCancelled, now);
      NotificationService.NotifyPair(
        saved, a, AppointmentCancelled, NotificationService.TitleCancelled, NotificationService.TitleCancelled, now)
    else saved
  }

  /** The shared body of the update.  With `recheckReactivation` a status
      change that takes a cancelled appointment back into a blocking status
      also runs the overlap check. */
  function ApplyUpdate(db: Db, id: AppointmentId, u: UpdateRequest, clock: Clock, recheckReactivation: bool)
    : (r: Result<(Db, Appointment), Error>)
    ensures IndexOf(db.appointments, id).None? ==> r == Err(NotFound("Appointment"))
    ensures (IndexOf(db.appointments, id).Some? && !u.Readable()) ==> r.Err? && r.error.Internal?
    ensures var t := Updated(db, id, u);
      t.Some? ==>
        var c := CheckUpdate(db, db.appointments[t.value.0], t.value.1, u, clock, recheckReactivation);
        c.Fail? ==> r == Err(c.error)
    ensures r.Ok? <==> UpdateAccepted(db, id, u, clock, recheckReactivation)
    ensures r.Ok? ==>
      var (i, a) := Updated(db, id, u).value;
      && r.value.1 == a
      && r.value.0 == SaveUpdate(db, i, db.appointments[i], a, clock.Now())
  {
    match Updated(db, id, u)
    case None =>
      if IndexOf(db.appointments, id).None? then Err(NotFound("Appointment"))
      else Err(Internal(ReadFailure(u)))
    case Some((i, a)) =>
      var o := db.appointments[i];
      match CheckUpdate(db, o, a, u, clock, recheckReactivation)
      case Fail(e) => Err(e)
      case Pass => Ok((SaveUpdate(db, i, o, a, clock.Now()), a))
  }

  /** `updateAppointment` as the source writes it: a change of status alone
      is never re-validated. */
  function UpdateAppointmentAsWritten(db: Db, id: AppointmentId, u: UpdateRequest, clock: Clock)
    : (r: Result<(Db, Appointment), Error>)
    ensures IndexOf(db.appointments, id).None? ==> r == Err(NotFound("Appointment"))
    ensures r.Ok? <==> UpdateAccepted(db, id, u, clock, false)
    ensures var i := IndexOf(db.appointments, id);
      (u.status.Given? && !u.MovesSlot() && i.Some?
       && db.appointments[i.value].startTime < db.appointments[i.value].endTime)
      ==> (r.Ok? <==> ParseStatus(u.status.value).Some?)
  {
    ApplyUpdate(db, id, u, clock, false)
  }

  /** `updateAppointment` with the overlap check extended to reactivations. */
  function UpdateAppointment(db: Db, id: AppointmentId, u: UpdateRequest, clock: Clock)
    : (r: Result<(Db, Appointment), Error>)
    ensures IndexOf(db.appointments, id).None? ==> r == Err(NotFound("Appointment"))
    ensures r.Ok? <==> UpdateAccepted(db, id, u, clock, true)
    ensures r.Ok? ==> r.value.1.id == id
    ensures r.Ok? && Blocks(r.value.1.status) ==>
      forall b :: b in db.appointments && b.id != id ==>
        !AppointmentRepository.Clashes(b, r.value.1.stylist, r.value.1.date, r.value.1.startTime, r.value.1.endTime)
        || (var o := db.appointments[IndexOf(db.appointments, id).value];
            Blocks(o.status) && o.stylist == r.value.1.stylist && o.date == r.value.1.date
            && o.startTime == r.value.1.startTime && o.endTime == r.value.1.endTime)
  {
    ApplyUpdate(db, id, u, clock, true)
  }

  /** Keys of stored appointments are unique. */
  ghost predicate UniqueAppointmentIds(appts: seq<Appointment>) {
    forall i, j :: 0 <= i < j < |appts| ==> appts[i].id != appts[j].id
  }

  /** A status change alone that takes a cancelled appointment back into a
      blocking status. */
  predicate StatusOnlyReactivation(db: Db, id: AppointmentId, u: UpdateRequest) {
    var t := Updated(db, id, u);
    !u.MovesSlot() && t.Some? && Reactivates(db.appointments[t.value.0], t.value.1)
  }

  /** An accepted update that is checked for overlap, or that keeps the slot
      and does not reactivate, leaves no double booking behind. */
  lemma {:induction false} ApplyUpdateKeepsNoDoubleBooking(
    db: Db, id: AppointmentId, u: UpdateRequest, clock: Clock, recheckReactivation: bool)
    requires UniqueAppointmentIds(db.appointments) && NoDoubleBooking(db.appointments)
    requires recheckReactivation || !StatusOnlyReactivation(db, id, u)
    ensures var r := ApplyUpdate(db, id, u, clock, recheckReactivation);
      r.Ok? ==> NoDoubleBooking(r.value.0.appointments)
  {
    var r := ApplyUpdate(db, id, u, clock, recheckReactivation);
    if r.Ok? {
      var (k, a) := Updated(db, id, u).value;
      var o := db.appointments[k];
      var s := r.value.0.appointments;
      assert s == db.appointments[k := a];
      var checked := u.MovesSlot() || (recheckReactivation && Reactivates(o, a));
      forall i, j | 0 <= i < |s| && 0 <= j < |s| && i != j
        && s[i].stylist == s[j].stylist && s[i].date == s[j].date && Blocks(s[i].status) && Blocks(s[j].status)
        ensures !AppointmentRepository.Overlaps(s[i].startTime, s[i].endTime, s[j].startTime, s[j].endTime)
      {
        if i == k || j == k {
          var other := if i == k then j else i;
          var b := db.appointments[other];
          assert s[other] == b && b in db.appointments;
          if checked {
            assert b.id != id;
            assert !AppointmentRepository.Clashes(b, a.stylist, a.date, a.startTime, a.endTime);
          } else {
            assert Blocks(o.status);
            assert o.startTime == a.startTime && o.endTime == a.endTime && o.date == a.date;
          }
        }
      }
    }
  }

  /** The corrected update never creates a double booking. */
  lemma UpdateKeepsNoDoubleBooking(db: Db, id: AppointmentId, u: UpdateRequest, clock: Clock)
    requires UniqueAppointmentIds(db.appointments) && NoDoubleBooking(db.appointments)
    ensures var r := UpdateAppointment(db, id, u, clock);
      r.Ok? ==> NoDoubleBooking(r.value.0.appointments)
  {
    ApplyUpdateKeepsNoDoubleBooking(db, id, u, clock, true);
  }

  /** The update as written keeps the invariant on every input except a
      status-only reactivation. */
  lemma AsWrittenKeepsNoDoubleBookingOtherwise(db: Db, id: AppointmentId, u: UpdateRequest, clock: Clock)
    requires UniqueAppointmentIds(db.appointments) && NoDoubleBooking(db.appointments)
    requires !StatusOnlyReactivation(db, id, u)
    ensures var r := UpdateAppointmentAsWritten(db, id, u, clock);
      r.Ok? ==> NoDoubleBooking(r.value.0.appointments)
  {
    ApplyUpdateKeepsNoDoubleBooking(db, id, u, clock, false);
  }

  /** The double booking the source allows: a cancelled appointment whose
      slot was booked again is confirmed by a status-only update. */
  lemma ReactivationDoubleBooks()
    ensures var first := Appointment(1, 10, 20, Cancelada, 20073, 600, 660, None, 4000, []);
      var second := Appointment(2, 11, 20, Confirmada, 20073, 600, 660, None, 4000, []);
      var db := Db([], [], [first, second], [], [], [], 30, 3, 1, 1, 1);
      var u := UpdateRequest(Given("CONFIRMADA"), Absent, Absent, Absent);
      var r := UpdateAppointmentAsWritten(db, 1, u, Clock(20000, 0));
      && NoDoubleBooking(db.appointments)
      && r.Ok? && !NoDoubleBooking(r.value.0.appointments)
      && UpdateAppointment(db, 1, u, Clock(20000, 0)) == Err(Conflict(MsgSlotTaken))
  {
    var first := Appointment(1, 10, 20, Cancelada, 20073, 600, 660, None, 4000, []);
    var second := Appointment(2, 11, 20, Confirmada, 20073, 600, 660, None, 4000, []);
    var db := Db([], [], [first, second], [], [], [], 30, 3, 1, 1, 1);
    var u := UpdateRequest(Given("CONFIRMADA"), Absent, Absent, Absent);
    var r := UpdateAppointmentAsWritten(db, 1, u, Clock(20000, 0));
    assert IndexOf(db.appointments, 1) == Some(0);
    var s := r.value.0.appointments;
    assert s[0].status == Confirmada && s[1] == second;
    assert AppointmentRepository.Clashes(second, 20, 20073, 600, 660);
  }

  /** `deleteAppointment`: removes the row; a missing id is reported, not
      ignored. */
  function DeleteAppointment(db: Db, id: AppointmentId): (r: Result<Db, Error>)
    ensures r.Err? <==> forall a :: a in db.appointments ==> a.id != id
    ensures r.Err? ==> r.error == NotFound("Appointment")
    ensures r.Ok? ==> r.value == db.(appointments := r.value.appointments)
    ensures r.Ok? ==> |r.value.appointments| == |db.appointments| - 1
    ensures r.Ok? ==> forall a :: a in r.value.appointments ==> a in db.appointments
    ensures r.Ok? ==> multiset(r.value.appointments) + multiset{db.appointments[IndexOf(db.appointments, id).value]}
                      == multiset(db.appointments)
    ensures r.Ok? && UniqueAppointmentIds(db.appointments) ==>
      forall a :: a in r.value.appointments <==> a in db.appointments && a.id != id
  {
    match IndexOf(db.appointments, id)
    case None => Err(NotFound("Appointment"))
    case Some(i) =>
      var rest := db.appointments[..i] + db.appointments[i + 1..];
      RemoveAtSplits(db.appointments, i);
      RemoveAtByKey(db.appointments, i, id);
      Ok(db.(appointments := rest))
  }

  /** The row at `i` and the rest make up the whole table. */
  lemma RemoveAtSplits(s: seq<Appointment>, i: nat)
    requires i < |s|
    ensures multiset(s[..i] + s[i + 1..]) + multiset{s[i]} == multiset(s)
  {
    assert s == s[..i] + [s[i]] + s[i + 1..];
  }

  /** With unique keys, removing the row with key `id` removes exactly the
      rows with that key. */
  lemma RemoveAtByKey(s: seq<Appointment>, i: nat, id: AppointmentId)
    requires i < |s| && s[i].id == id
    ensures UniqueAppointmentIds(s) ==> forall a :: a in s[..i] + s[i + 1..] <==> a in s && a.id != id
  {
    if !UniqueAppointmentIds(s) { return; }
    var rest := s[..i] + s[i + 1..];
    forall a | a in rest ensures a in s && a.id != id {
      var k :| 0 <= k < |rest| && rest[k] == a;
      if k < i { assert s[k] == a; } else { assert s[k + 1] == a; }
    }
    forall a | a in s && a.id != id ensures a in rest {
      var k :| 0 <= k < |s| && s[k] == a;
      assert k != i;
      if k < i { assert rest[k] == a; } else { assert rest[k - 1] == a; }
    }
  }

  /** Deleting twice fails the second time. */
  lemma DeleteTwiceNotFound(db: Db, id: AppointmentId)
    requires UniqueAppointmentIds(db.appointments)
    requires DeleteAppointment(db, id).Ok?
    ensures DeleteAppointment(DeleteAppointment(db, id).value, id) == Err(NotFound("Appointment"))
  {
    var rest := DeleteAppointment(db, id).value.appointments;
    assert forall a :: a in rest ==> a.id != id;
  }

  /** `getAppointmentById`. */
  function GetAppointmentById(db: Db, id: AppointmentId): (r: Result<Appointment, Error>)
    ensures r.Ok? <==> exists a :: a in db.appointments && a.id == id
    ensures r.Ok? ==> r.value in db.appointments && r.value.id == id
    ensures r.Err? ==> r.error == NotFound("Appointment")
  {
    match IndexOf(db.appointments, id)
    case None => Err(NotFound("Appointment"))
    case Some(i) => Ok(db.appointments[i])
  }

  /** `getAppointmentsByClient`: the user must exist. */
  function GetAppointmentsByClient(db: Db, client: UserId): (r: Result<seq<Appointment>, Error>)
    ensures r.Err? <==> UserRepository.FindById(db.users, client).None?
    ensures r.Ok? ==> forall a :: a in r.value <==> a in db.appointments && a.client == client
  {
    if UserRepository.FindById(db.users, client).None? then Err(NotFound("User"))
    else Ok(Seqs.Filter(db.appointments, (a: Appointment) => a.client == client))
  }

  /** `getAppointmentsByStylist`: the user must exist. */
  function GetAppointmentsByStylist(db: Db, stylist: UserId): (r: Result<seq<Appointment>, Error>)
    ensures r.Err? <==> UserRepository.FindById(db.users, stylist).None?
    ensures r.Ok? ==> forall a :: a in r.value <==> a in db.appointments && a.stylist == stylist
  {
    if UserRepository.FindById(db.users, stylist).None? then Err(NotFound("User"))
    else Ok(Seqs.Filter(db.appointments, (a: Appointment) => a.stylist == stylist))
  }

  /** `getAppointmentsByDate`. */
  function GetAppointmentsByDate(db: Db, date: Day): (r: seq<Appointment>)
    ensures forall a :: a in r <==> a in db.appointments && a.date == date
  {
    Seqs.Filter(db.appointments, (a: Appointment) => a.date == date)
  }

  /** `getAppointmentsByStylistAndDate`: the user must exist. */
  function GetAppointmentsByStylistAndDate(db: Db, stylist: UserId, date: Day): (r: Result<seq<Appointment>, Error>)
    ensures r.Err? <==> UserRepository.FindById(db.users, stylist).None?
    ensures r.Ok? ==> forall a :: a in r.value <==> a in db.appointments && a.stylist == stylist && a.date == date
  {
    if UserRepository.FindById(db.users, stylist).None? then Err(NotFound("User"))
    else Ok(AppointmentRepository.FindByStylistAndDate(db.appointments, stylist, date))
  }
}
