/** Worked examples of the booking rules: a Monday with a 09:00-18:00
    window, two services of 25.00 and 15.00, one client and one stylist. */
module BookingScenarios {
  import opened Wrappers
  import opened Calendar
  import opened Entities
  import opened Errors
  import opened Store
  import opened AppointmentMapper
  import opened AppointmentService
  import NotificationService
  import UserRepository
  import AvailabilityRepository
  import ServiceOfferRepository
  import AppointmentRepository
  import Seqs

  /** 2024-12-16, a Monday. */
  const Monday16: Day := 20073

  const Client := User(1, "Ana", Some("ana"), Some("ana@example.com"), "secret1", Cliente, true, None, [])
  const Stylist := User(2, "Luis", Some("luis"), None, "secret2", Estilista, true, None, [])
  const Cut := ServiceOffer(1, "Corte", 30, 2500)
  const Wash := ServiceOffer(2, "Lavado", 15, 1500)
  const MondayHours := Availability(1, 2, Monday, 540, 1080)

  /** The salon before any booking, seen on an earlier day. */
  const Salon := Db([Client, Stylist], [Cut, Wash], [], [MondayHours], [], [], 3, 1, 2, 1, 1)
  const Earlier := Clock(20000, 0)

  function Booking(start: TimeOfDay, end: TimeOfDay, ids: Option<seq<ServiceId>>): AppointmentCreateDto {
    AppointmentCreateDto(1, 2, Monday16, start, end, None, None, ids)
  }

  /** A 10:00-11:00 booking with both services is confirmed at 40.00. */
  lemma FirstBookingSucceeds()
    ensures var r := CreateAppointment(Salon, Booking(600, 660, Some([1, 2])), Earlier);
      r.Ok? && r.value.1.status == Confirmada && r.value.1.totalPrice == 4000
  {
    CivilAnchors();
    assert UserRepository.FindById(Salon.users, 1) == Some(Client);
    assert UserRepository.FindById(Salon.users, 2) == Some(Stylist);
    assert !IsPast(Earlier, Monday16, 600);
    assert AvailabilityRepository.FindByStylistAndDayOfWeek(Salon.availabilities, 2, Monday) == [MondayHours];
    assert ValidateStylistAvailability(Salon, 2, Monday16, 600, 660) == Pass;
    assert ValidateNoOverlap(Salon.appointments, 2, Monday16, 600, 660, None) == Pass;
    BothServicesFound();
    assert ResolveServices(Salon, Some([1, 2])) == Ok([Cut, Wash]);
    TotalPriceAdditive([Cut], [Wash]);
    assert [Cut] + [Wash] == [Cut, Wash];
    assert ResolvePrice([Cut, Wash], None) == Ok(4000);
  }

  lemma BothServicesFound()
    ensures ServiceOfferRepository.FindAllById(Salon.services, [1, 2]) == [Cut, Wash]
  {
    assert Salon.services[1..] == [Wash];
    assert Salon.services[1..][1..] == [];
  }

  /** A 10:30-11:30 booking after it is refused as a clash. */
  lemma OverlappingBookingConflicts()
    ensures var first := CreateAppointment(Salon, Booking(600, 660, Some([1, 2])), Earlier);
      first.Ok? &&
      CreateAppointment(first.value.0, Booking(630, 690, Some([1])), Earlier) == Err(Conflict(MsgSlotTaken))
  {
    FirstBookingSucceeds();
    var (db1, a) := CreateAppointment(Salon, Booking(600, 660, Some([1, 2])), Earlier).value;
    ClashRefused(db1, a);
  }

  /** Once the stylist holds a confirmed 10:00-11:00 booking, a 10:30-11:30
      request for the same Monday is a conflict. */
  lemma ClashRefused(db: Db, a: Appointment)
    requires db.users == Salon.users && db.availabilities == Salon.availabilities && db.exceptions == []
    requires a in db.appointments && a.stylist == 2 && a.date == Monday16 && a.status == Confirmada
    requires a.startTime == 600 && a.endTime == 660
    ensures CreateAppointment(db, Booking(630, 690, Some([1])), Earlier) == Err(Conflict(MsgSlotTaken))
  {
    var second := Booking(630, 690, Some([1]));
    assert AppointmentRepository.Clashes(a, 2, Monday16, 630, 690);
    assert UserRepository.FindById(db.users, 1) == Some(Client);
    assert UserRepository.FindById(db.users, 2) == Some(Stylist);
    CivilAnchors();
    assert CheckRequest(db, second, Earlier).Pass?;
    assert AvailabilityRepository.FindByStylistAndDayOfWeek(db.availabilities, 2, Monday) == [MondayHours];
    assert ValidateStylistAvailability(db, 2, Monday16, 630, 690).Pass?;
    assert !CheckSlot(db, 2, Monday16, 630, 690, None).Pass?;
  }

  /** A full-day closure refuses every otherwise acceptable request for that
      day, whatever its hours. */
  lemma FullDayClosureRefusesAll(db: Db, req: AppointmentCreateDto, clock: Clock, closure: ScheduleException)
    requires closure in db.exceptions && closure.kind == NoDisponible && closure.IsFullDay()
    requires closure.date == req.date && (closure.stylist.None? || closure.stylist == Some(req.stylistId))
    requires HasRole(db, req.clientId, Cliente) && HasRole(db, req.stylistId, Estilista)
    requires req.startTime < req.endTime && !IsPast(clock, req.date, req.startTime)
    ensures CreateAppointment(db, req, clock).Err?
    ensures CreateAppointment(db, req, clock).error.Conflict?
  {
    assert ExceptionBlocks(closure, req.startTime, req.endTime);
  }

  /** A window ending exactly when an unavailable window starts is refused:
      the exception test treats both windows as closed. */
  lemma TouchingExceptionRefused()
    ensures var lunch := ScheduleException(1, Some(2), 3, Monday16, Some(660), Some(720), NoDisponible, None);
      var db := Salon.(exceptions := [lunch]);
      CreateAppointment(db, Booking(600, 660, None).(totalPrice := Some(2000)), Earlier)
        == Err(Conflict(MsgUnavailableSlot))
  {
  }

  /** A window equal to the weekly window is accepted; one minute more on
      either side is refused. */
  lemma AvailabilityBoundaries()
    ensures ValidateStylistAvailability(Salon, 2, Monday16, 540, 1080).Pass?
    ensures ValidateStylistAvailability(Salon, 2, Monday16, 539, 1080) == Fail(BadRequest(MsgOutsideAvailability))
    ensures ValidateStylistAvailability(Salon, 2, Monday16, 540, 1081) == Fail(BadRequest(MsgOutsideAvailability))
  {
    CivilAnchors();
    assert AvailabilityRepository.FindByStylistAndDayOfWeek(Salon.availabilities, 2, Monday) == [MondayHours];
  }

  /** An unknown service id among the requested ones is reported as not
      found and nothing is stored. */
  lemma UnknownServiceNotFound()
    ensures CreateAppointment(Salon, Booking(600, 660, Some([1, 99])), Earlier) == Err(NotFound("Services"))
  {
    CivilAnchors();
    assert Salon.services[1..] == [Wash];
    assert Salon.services[1..][1..] == [];
    assert Wash.id !in [1, 99];
    assert Seqs.Filter([Wash], (s: ServiceOffer) => s.id in [1, 99]) == [];
    assert ServiceOfferRepository.FindAllById(Salon.services, [1, 99]) == [Cut];
    assert Charge(Salon, Booking(600, 660, Some([1, 99]))) == Err(NotFound("Services"));
    assert UserRepository.FindById(Salon.users, 1) == Some(Client);
    assert UserRepository.FindById(Salon.users, 2) == Some(Stylist);
    assert CheckRequest(Salon, Booking(600, 660, Some([1, 99])), Earlier).Pass?;
    assert AvailabilityRepository.FindByStylistAndDayOfWeek(Salon.availabilities, 2, Monday) == [MondayHours];
    assert ValidateStylistAvailability(Salon, 2, Monday16, 600, 660).Pass?;
    assert CheckSlot(Salon, 2, Monday16, 600, 660, None).Pass?;
  }

  /** Cancelling a confirmed appointment by status alone succeeds without
      any date or time check and notifies client and stylist. */
  lemma StatusOnlyCancellation()
    ensures var booked := Appointment(1, 1, 2, Confirmada, Monday16, 600, 660, None, 4000, [Cut, Wash]);
      var db := Salon.(appointments := [booked], nextAppointmentId := 2);
      var r := UpdateAppointment(db, 1, UpdateRequest(Given("CANCELADA"), Absent, Absent, Absent), Clock(Monday16 + 5, 0));
      && r.Ok? && r.value.1.status == Cancelada
      && |r.value.0.notifications| == 2
      && r.value.0.notifications[0].user == 1 && r.value.0.notifications[1].user == 2
      && r.value.0.notifications[0].kind == AppointmentCancelled
      && r.value.0.notifications[1].kind == AppointmentCancelled
  {
    var booked := Appointment(1, 1, 2, Confirmada, Monday16, 600, 660, None, 4000, [Cut, Wash]);
    var db := Salon.(appointments := [booked], nextAppointmentId := 2);
    assert IndexOf(db.appointments, 1) == Some(0);
    assert NotificationService.UserExists(db, 1) && NotificationService.UserExists(db, 2);
  }
}
