/** The REST endpoints for appointments: who may list, read, book, change
    and delete which appointments, and how a public booking creates the
    client's account on the way. */
module AppointmentController {
  import opened Wrappers
  import opened Calendar
  import opened Entities
  import opened Errors
  import opened Store
  import Text
  import Seqs
  import UserRepository
  import AppointmentRepository
  import AppointmentMapper
  import AppointmentService
  import AuthService

  /** The query parameters of `GET /api/citas`; page and size are not
      modelled, only whether a page was asked for. */
  datatype ListQuery = ListQuery(
    clientId: Option<UserId>,
    stylistId: Option<UserId>,
    date: Option<Day>,
    clientName: Option<string>,
    stylistName: Option<string>,
    serviceName: Option<string>,
    status: Option<string>,
    paginated: bool)

  /** The caller named by the authentication: `Ok(None)` for an anonymous
      request or a name no account carries. */
  function Caller(db: Db, principal: Option<string>): (r: Result<Option<User>, Error>)
    ensures principal.None? ==> r == Ok(None)
    ensures principal.Some? ==> r == UserRepository.FindByUsernameOrEmail(db.users, principal.value)
  {
    match principal
    case None => Ok(None)
    case Some(name) => UserRepository.FindByUsernameOrEmail(db.users, name)
  }

  /** The authenticated caller of an endpoint that requires one: a name no
      account carries fails like any unexpected exception. */
  function RequiredCaller(db: Db, principal: string): (r: Result<User, Error>)
    ensures r.Ok? <==> UserRepository.FindByUsernameOrEmail(db.users, principal).Ok?
                       && UserRepository.FindByUsernameOrEmail(db.users, principal).value.Some?
    ensures r.Ok? ==> r.value in db.users && UserRepository.Identifies(r.value, principal)
    ensures r.Err? ==> r.error.Internal?
  {
    match UserRepository.FindByUsernameOrEmail(db.users, principal)
    case Err(e) => Err(e)
    case Ok(None) => Err(Internal("Usuario no encontrado"))
    case Ok(Some(u)) => Ok(u)
  }

  /** The status filter: `valueOf(estado.toUpperCase())`, ignored when empty
      or unknown. */
  function StatusFilter(estado: Option<string>): (r: Option<AppointmentStatus>)
    ensures r.Some? ==> estado.Some? && StatusName(r.value) == Text.ToUpper(estado.value)
  {
    if estado.Some? && estado.value != "" then ParseStatus(Text.ToUpper(estado.value)) else None
  }

  /** The filter ignores case: any spelling of a status name selects it. */
  lemma StatusFilterIgnoresCase(s: AppointmentStatus)
    ensures StatusFilter(Some(Text.ToLower(StatusName(s)))) == Some(s)
    ensures StatusFilter(Some(StatusName(s))) == Some(s)
  {
    Text.UpperOfLower(StatusName(s));
    assert Text.ToUpper(StatusName(s)) == StatusName(s);
  }

  /** Every failure inside the list endpoint is caught and answered with a
      bare 500. */
  function Caught<T>(r: Result<T, Error>): (c: Result<T, Error>)
    ensures r.Ok? ==> c == r
    ensures r.Err? ==> c == Err(Internal(""))
  {
    if r.Ok? then r else Err(Internal(""))
  }

  /** An administrator asked for a name, service or status filter. */
  predicate UsesAdvancedFilters(u: User, q: ListQuery) {
    u.role == Administrador
    && (q.clientName.Some? || q.stylistName.Some? || q.serviceName.Some? || q.status.Some?)
  }

  /** The appointments the list endpoint selects, before the catch. */
  function Select(db: Db, caller: Option<User>, q: ListQuery): Result<seq<Appointment>, Error> {
    match caller
    case None =>
      if q.stylistId.Some? && q.date.Some? then
        AppointmentService.GetAppointmentsByStylistAndDate(db, q.stylistId.value, q.date.value)
      else if q.stylistId.Some? then AppointmentService.GetAppointmentsByStylist(db, q.stylistId.value)
      else if q.date.Some? then Ok(AppointmentService.GetAppointmentsByDate(db, q.date.value))
      else Ok([])
    case Some(u) =>
      if UsesAdvancedFilters(u, q) then
        Ok(AppointmentRepository.FindWithAdvancedFilters(db.appointments, db.users,
          AppointmentRepository.SearchCriteria(q.clientName, q.stylistName, q.serviceName, q.date, StatusFilter(q.status))))
      else if u.role == Administrador then
        if q.clientId.Some? then AppointmentService.GetAppointmentsByClient(db, q.clientId.value)
        else if q.stylistId.Some? then AppointmentService.GetAppointmentsByStylist(db, q.stylistId.value)
        else if !q.paginated && q.date.Some? then Ok(AppointmentService.GetAppointmentsByDate(db, q.date.value))
        else Ok(db.appointments)
      else if u.role == Cliente then AppointmentService.GetAppointmentsByClient(db, u.id)
      else AppointmentService.GetAppointmentsByStylist(db, u.id)
  }

  /** `getAllCitas`. */
  function ListAppointments(db: Db, principal: Option<string>, q: ListQuery): (r: Result<seq<Appointment>, Error>)
    ensures r.Err? ==> r.error == Internal("")
    ensures Caller(db, principal).Err? ==> r.Err?
    // an anonymous caller without a stylist or a date gets nothing
    ensures Caller(db, principal) == Ok(None) && q.stylistId.None? && q.date.None? ==> r == Ok([])
    // a client sees exactly their own appointments, a stylist exactly theirs
    ensures Caller(db, principal).Ok? && Caller(db, principal).value.Some? && r.Ok? ==>
      var u := Caller(db, principal).value.value;
      && (u.role == Cliente ==> forall a :: a in r.value <==> a in db.appointments && a.client == u.id)
      && (u.role == Estilista ==> forall a :: a in r.value <==> a in db.appointments && a.stylist == u.id)
    // an administrator's name or status filters go to the advanced search
    ensures (Caller(db, principal).Ok? && Caller(db, principal).value.Some?
             && UsesAdvancedFilters(Caller(db, principal).value.value, q)) ==>
      r.Ok? && forall a :: a in r.value <==> a in db.appointments && AppointmentRepository.MatchesCriteria(db.users, a,
        AppointmentRepository.SearchCriteria(q.clientName, q.stylistName, q.serviceName, q.date, StatusFilter(q.status)))
  {
    match Caller(db, principal)
    case Err(e) => Err(Internal(""))
    case Ok(caller) => Caught(Select(db, caller, q))
  }

  /** Asking for the appointments of an unknown stylist answers 500, not the
      404 the service reports. */
  lemma UnknownStylistIsServerError(db: Db, principal: Option<string>, q: ListQuery)
    requires Caller(db, principal) == Ok(None)
    requires q.stylistId.Some? && UserRepository.FindById(db.users, q.stylistId.value).None?
    ensures AppointmentService.GetAppointmentsByStylist(db, q.stylistId.value) == Err(NotFound("User"))
    ensures ListAppointments(db, principal, q) == Err(Internal(""))
  {
  }

  /** A paginated administrator request filtered only by date is not
      filtered: the page holds every appointment. */
  lemma PaginatedAdminIgnoresDate(db: Db, principal: string, q: ListQuery, admin: User)
    requires Caller(db, Some(principal)) == Ok(Some(admin)) && admin.role == Administrador
    requires q.paginated && q.date.Some? && q.clientId.None? && q.stylistId.None?
    requires q.clientName.None? && q.stylistName.None? && q.serviceName.None? && q.status.None?
    ensures ListAppointments(db, Some(principal), q) == Ok(db.appointments)
    ensures ListAppointments(db, Some(principal), q.(paginated := false))
      == Ok(AppointmentService.GetAppointmentsByDate(db, q.date.value))
  {
  }

  /** Reading an appointment: administrators, its client and its stylist. */
  predicate MayView(u: User, a: Appointment) {
    u.role == Administrador || a.client == u.id || a.stylist == u.id
  }

  /** Changing or deleting it: administrators and its client only. */
  predicate MayModify(u: User, a: Appointment) {
    u.role == Administrador || a.client == u.id
  }

  /** Whoever may change an appointment may read it. */
  lemma ModifyImpliesView(u: User, a: Appointment)
    ensures MayModify(u, a) ==> MayView(u, a)
  {
  }

  /** `getCitaById`: an unknown id is reported before the caller is looked
      at; a caller without permission gets a bare 403. */
  function GetCitaById(db: Db, principal: string, id: AppointmentId): (r: Result<Appointment, Error>)
    ensures AppointmentService.GetAppointmentById(db, id).Err? ==> r == Err(NotFound("Appointment"))
    ensures r.Ok? <==>
      && AppointmentService.GetAppointmentById(db, id).Ok?
      && RequiredCaller(db, principal).Ok?
      && MayView(RequiredCaller(db, principal).value, AppointmentService.GetAppointmentById(db, id).value)
    ensures r.Ok? ==> r.value in db.appointments && r.value.id == id
    ensures r.Err? ==> r.error.NotFound? || r.error.Internal? || r.error == Forbidden("")
  {
    var a :- AppointmentService.GetAppointmentById(db, id);
    var u :- RequiredCaller(db, principal);
    if !MayView(u, a) then Err(Forbidden("")) else Ok(a)
  }

  /** The appointment and caller a modifying endpoint checks, in the order
      it checks them. */
  function Authorize(db: Db, principal: string, id: AppointmentId): (r: Result<(Appointment, User), Error>)
    ensures AppointmentService.GetAppointmentById(db, id).Err? ==> r == Err(NotFound("Appointment"))
    ensures r.Ok? <==>
      && AppointmentService.GetAppointmentById(db, id).Ok?
      && RequiredCaller(db, principal).Ok?
      && MayModify(RequiredCaller(db, principal).value, AppointmentService.GetAppointmentById(db, id).value)
    ensures r.Ok? ==> r.value.0 in db.appointments && r.value.0.id == id && MayModify(r.value.1, r.value.0)
    ensures AppointmentService.GetAppointmentById(db, id).Ok? && RequiredCaller(db, principal).Ok?
      && !MayModify(RequiredCaller(db, principal).value, AppointmentService.GetAppointmentById(db, id).value)
      ==> r == Err(Forbidden(""))
  {
    var a :- AppointmentService.GetAppointmentById(db, id);
    var u :- RequiredCaller(db, principal);
    if !MayModify(u, a) then Err(Forbidden("")) else Ok((a, u))
  }

  /** `updateCita`: the owner gate, then the service's update as written. */
  function UpdateCita(db: Db, principal: string, id: AppointmentId, u: AppointmentService.UpdateRequest, clock: Clock)
    : (r: Result<(Db, Appointment), Error>)
    ensures Authorize(db, principal, id).Err? ==> r == Err(Authorize(db, principal, id).error)
    ensures r.Ok? ==> Authorize(db, principal, id).Ok?
    ensures Authorize(db, principal, id).Ok? ==> r == AppointmentService.UpdateAppointmentAsWritten(db, id, u, clock)
  {
    var _ :- Authorize(db, principal, id);
    AppointmentService.UpdateAppointmentAsWritten(db, id, u, clock)
  }

  /** An update through the endpoint keeps the store free of double
      bookings, unless it is a status-only reactivation. */
  lemma UpdateCitaKeepsNoDoubleBooking(db: Db, principal: string, id: AppointmentId,
                                       u: AppointmentService.UpdateRequest, clock: Clock)
    requires AppointmentService.UniqueAppointmentIds(db.appointments)
    requires AppointmentService.NoDoubleBooking(db.appointments)
    requires !AppointmentService.StatusOnlyReactivation(db, id, u)
    ensures UpdateCita(db, principal, id, u, clock).Ok? ==>
      AppointmentService.NoDoubleBooking(UpdateCita(db, principal, id, u, clock).value.0.appointments)
  {
    AppointmentService.AsWrittenKeepsNoDoubleBookingOtherwise(db, id, u, clock);
  }

  /** The administrator of the reactivation example. */
  const Admin := User(30, "Admin", Some("admin"), None, "secret", Administrador, true, None, [])

  /** An administrator reconfirming a cancelled appointment whose slot was
      booked again double-books the stylist through the endpoint. */
  lemma UpdateCitaDoubleBooks()
    ensures var first := Appointment(1, 10, 20, Cancelada, 20073, 600, 660, None, 4000, []);
      var second := Appointment(2, 11, 20, Confirmada, 20073, 600, 660, None, 4000, []);
      var db := Db([Admin], [], [first, second], [], [], [], 31, 3, 1, 1, 1);
      var u := AppointmentService.UpdateRequest(
        AppointmentService.Given("CONFIRMADA"), AppointmentService.Absent,
        AppointmentService.Absent, AppointmentService.Absent);
      var r := UpdateCita(db, "admin", 1, u, Clock(20000, 0));
      && AppointmentService.NoDoubleBooking(db.appointments)
      && r.Ok? && !AppointmentService.NoDoubleBooking(r.value.0.appointments)
  {
    var first := Appointment(1, 10, 20, Cancelada, 20073, 600, 660, None, 4000, []);
    var second := Appointment(2, 11, 20, Confirmada, 20073, 600, 660, None, 4000, []);
    var db := Db([Admin], [], [first, second], [], [], [], 31, 3, 1, 1, 1);
    var matches := Seqs.Filter(db.users, (v: User) => UserRepository.Identifies(v, "admin"));
    assert UserRepository.Identifies(Admin, "admin");
    assert matches == [Admin];
    assert RequiredCaller(db, "admin") == Ok(Admin);
    assert AppointmentService.GetAppointmentById(db, 1) == Ok(first);
    AppointmentService.ReactivationDoubleBooks();
    var u := AppointmentService.UpdateRequest(
      AppointmentService.Given("CONFIRMADA"), AppointmentService.Absent,
      AppointmentService.Absent, AppointmentService.Absent);
    assert UpdateCita(db, "admin", 1, u, Clock(20000, 0))
        == AppointmentService.UpdateAppointmentAsWritten(db, 1, u, Clock(20000, 0));
  }

  /** `updateCita` over the corrected update of the service. */
  function UpdateCitaCorrected(db: Db, principal: string, id: AppointmentId, u: AppointmentService.UpdateRequest, clock: Clock)
    : (r: Result<(Db, Appointment), Error>)
    ensures Authorize(db, principal, id).Err? ==> r == Err(Authorize(db, principal, id).error)
    ensures Authorize(db, principal, id).Ok? ==> r == AppointmentService.UpdateAppointment(db, id, u, clock)
  {
    var _ :- Authorize(db, principal, id);
    AppointmentService.UpdateAppointment(db, id, u, clock)
  }

  /** With the corrected update no request through the endpoint creates a
      double booking. */
  lemma UpdateCitaCorrectedKeepsNoDoubleBooking(db: Db, principal: string, id: AppointmentId,
                                                u: AppointmentService.UpdateRequest, clock: Clock)
    requires AppointmentService.UniqueAppointmentIds(db.appointments)
    requires AppointmentService.NoDoubleBooking(db.appointments)
    ensures UpdateCitaCorrected(db, principal, id, u, clock).Ok? ==>
      AppointmentService.NoDoubleBooking(UpdateCitaCorrected(db, principal, id, u, clock).value.0.appointments)
  {
    AppointmentService.UpdateKeepsNoDoubleBooking(db, id, u, clock);
  }

  /** A stylist cannot change an appointment booked by somebody else, not
      even one assigned to them. */
  lemma StylistCannotModify(db: Db, principal: string, id: AppointmentId, u: AppointmentService.UpdateRequest,
                            clock: Clock, stylist: User, a: Appointment)
    requires RequiredCaller(db, principal) == Ok(stylist) && stylist.role == Estilista
    requires AppointmentService.GetAppointmentById(db, id) == Ok(a) && a.client != stylist.id
    ensures UpdateCita(db, principal, id, u, clock) == Err(Forbidden(""))
    ensures DeleteCita(db, principal, id) == Err(Forbidden(""))
  {
  }

  /** `deleteCita`. */
  function DeleteCita(db: Db, principal: string, id: AppointmentId): (r: Result<Db, Error>)
    ensures Authorize(db, principal, id).Err? ==> r == Err(Authorize(db, principal, id).error)
    ensures r.Ok? <==> Authorize(db, principal, id).Ok?
    ensures r.Ok? ==> forall a :: a in r.value.appointments ==> a in db.appointments
    ensures r.Ok? ==> |r.value.appointments| == |db.appointments| - 1
    ensures Authorize(db, principal, id).Ok? ==> r == AppointmentService.DeleteAppointment(db, id)
  {
    var _ :- Authorize(db, principal, id);
    AppointmentService.DeleteAppointment(db, id)
  }

  /** An authorised deletion through the endpoint removes exactly the
      appointment with the key and changes no other table. */
  lemma DeleteCitaRemovesExactly(db: Db, principal: string, id: AppointmentId)
    requires AppointmentService.UniqueAppointmentIds(db.appointments)
    requires DeleteCita(db, principal, id).Ok?
    ensures var db' := DeleteCita(db, principal, id).value;
      && db' == db.(appointments := db'.appointments)
      && forall a :: a in db'.appointments <==> a in db.appointments && a.id != id
  {
  }

  /** The booking a caller may make: a client always books for themselves,
      whatever client id was sent; an administrator books as asked. */
  function OwnBooking(u: User, dto: AppointmentMapper.AppointmentCreateDto): (b: AppointmentMapper.AppointmentCreateDto)
    ensures u.role == Cliente ==> b == dto.(clientId := u.id)
    ensures u.role != Cliente ==> b == dto
  {
    if u.role == Cliente then dto.(clientId := u.id) else dto
  }

  /** `createCita`: the token must carry the client or administrator role;
      then the caller is looked up and the service books the caller's own
      request. */
  function CreateCita(db: Db, principal: string, tokenRole: Role, dto: AppointmentMapper.AppointmentCreateDto, clock: Clock)
    : (r: Result<(Db, Appointment), Error>)
    ensures tokenRole == Estilista ==> r == Err(Forbidden(""))
    ensures tokenRole != Estilista && RequiredCaller(db, principal).Err? ==> r == Err(RequiredCaller(db, principal).error)
    ensures tokenRole != Estilista && RequiredCaller(db, principal).Ok? ==>
      r == AppointmentService.CreateAppointment(db, OwnBooking(RequiredCaller(db, principal).value, dto), clock)
    ensures r.Ok? ==> RequiredCaller(db, principal).Ok?
    ensures r.Ok? && RequiredCaller(db, principal).value.role == Cliente ==>
      r.value.1.client == RequiredCaller(db, principal).value.id
    ensures r.Ok? && RequiredCaller(db, principal).value.role != Cliente ==>
      r.value.1.client == dto.clientId
  {
    if tokenRole == Estilista then Err(Forbidden(""))
    else
      var u :- RequiredCaller(db, principal);
      AppointmentService.CreateAppointment(db, OwnBooking(u, dto), clock)
  }

  /** A client caller cannot book for somebody else: the client id sent
      makes no difference to the outcome. */
  lemma ClientIdIgnoredForClients(db: Db, principal: string, tokenRole: Role,
                                  dto: AppointmentMapper.AppointmentCreateDto, other: UserId, clock: Clock)
    requires RequiredCaller(db, principal).Ok? && RequiredCaller(db, principal).value.role == Cliente
    ensures CreateCita(db, principal, tokenRole, dto.(clientId := other), clock) == CreateCita(db, principal, tokenRole, dto, clock)
  {
    var u := RequiredCaller(db, principal).value;
    assert OwnBooking(u, dto.(clientId := other)) == OwnBooking(u, dto);
  }

  /** A booking through the endpoint never creates a double booking. */
  lemma CreateCitaKeepsNoDoubleBooking(db: Db, principal: string, tokenRole: Role,
                                       dto: AppointmentMapper.AppointmentCreateDto, clock: Clock)
    requires AppointmentService.NoDoubleBooking(db.appointments)
    ensures CreateCita(db, principal, tokenRole, dto, clock).Ok? ==>
      AppointmentService.NoDoubleBooking(CreateCita(db, principal, tokenRole, dto, clock).value.0.appointments)
  {
    if RequiredCaller(db, principal).Ok? {
      AppointmentService.CreateKeepsNoDoubleBooking(db, OwnBooking(RequiredCaller(db, principal).value, dto), clock);
    }
  }

  /** The body of `POST /api/citas/public`. */
  datatype PublicBookingRequest = PublicBookingRequest(
    clientName: string,
    clientEmail: string,
    clientPhone: string,
    clientPassword: Option<string>,
    stylistId: UserId,
    date: Day,
    startTime: TimeOfDay,
    endTime: TimeOfDay,
    totalPrice: Option<Cents>,
    serviceIds: Option<seq<ServiceId>>)

  /** The response: the appointment, and a login for a newly registered
      client. */
  datatype PublicBookingResponse = PublicBookingResponse(appointment: Appointment, auth: Option<AuthService.AuthResponse>)

  /** The booking request `createPublicCita` hands to the service: the
      found or created client, with the request's phone. */
  function PublicBooking(client: User, req: PublicBookingRequest): (dto: AppointmentMapper.AppointmentCreateDto)
    ensures dto.clientId == client.id && dto.stylistId == req.stylistId && dto.date == req.date
    ensures dto.startTime == req.startTime && dto.endTime == req.endTime
    ensures dto.clientPhone == Some(req.clientPhone) && dto.totalPrice == req.totalPrice && dto.serviceIds == req.serviceIds
  {
    AppointmentMapper.AppointmentCreateDto(
      client.id, req.stylistId, req.date, req.startTime, req.endTime,
      Some(req.clientPhone), req.totalPrice, req.serviceIds)
  }

  /** `createPublicCita`.  The account is found or created and committed
      before the booking is attempted, so the returned store keeps it even
      when the booking fails. */
  function CreatePublicCita(db: Db, req: PublicBookingRequest, clock: Clock, randomPassword: string)
    : (r: (Db, Result<PublicBookingResponse, Error>))
    ensures var fc := AuthService.FindOrCreateClientUserWithResult(
        db, Some(req.clientName), req.clientEmail, Some(req.clientPhone), req.clientPassword, randomPassword);
      && (fc.Err? ==> r == (db, Err(fc.error)))
      && (fc.Ok? && r.1.Err? ==> r.0 == fc.value.0)
      && (r.1.Ok? ==>
            && fc.Ok?
            && r.1.value.appointment.client == fc.value.1.id
            && (r.1.value.auth.Some? <==> fc.value.2 && AuthService.Supplied(req.clientPassword))
            && (r.1.value.auth.Some? ==> r.1.value.auth.value == AuthService.ResponseFor(fc.value.1)))
    ensures var fc := AuthService.FindOrCreateClientUserWithResult(
        db, Some(req.clientName), req.clientEmail, Some(req.clientPhone), req.clientPassword, randomPassword);
      fc.Ok? ==>
        var booked := AppointmentService.CreateAppointment(fc.value.0, PublicBooking(fc.value.1, req), clock);
        && (r.1.Ok? <==> booked.Ok?)
        && (r.1.Err? ==> r.1.error == booked.error)
        && (r.1.Ok? ==> r.0 == booked.value.0 && r.1.value.appointment == booked.value.1)
  {
    match AuthService.FindOrCreateClientUserWithResult(
      db, Some(req.clientName), req.clientEmail, Some(req.clientPhone), req.clientPassword, randomPassword)
    case Err(e) => (db, Err(e))
    case Ok((db1, client, wasNew)) =>
      match AppointmentService.CreateAppointment(db1, PublicBooking(client, req), clock)
      case Err(e) => (db1, Err(e))
      case Ok((db2, a)) =>
        var auth := if wasNew && AuthService.Supplied(req.clientPassword) then Some(AuthService.ResponseFor(client)) else None;
        (db2, Ok(PublicBookingResponse(a, auth)))
  }

  /** A first-time client whose booking is refused still ends up with an
      account. */
  lemma FailedPublicBookingKeepsAccount(db: Db, req: PublicBookingRequest, clock: Clock, randomPassword: string)
    requires forall u :: u in db.users ==> u.email != Some(req.clientEmail)
    requires CreatePublicCita(db, req, clock, randomPassword).1.Err?
    requires AuthService.FindOrCreateClientUserWithResult(
      db, Some(req.clientName), req.clientEmail, Some(req.clientPhone), req.clientPassword, randomPassword).Ok?
    ensures var db' := CreatePublicCita(db, req, clock, randomPassword).0;
      |db'.users| == |db.users| + 1 && db'.users[|db.users|].email == Some(req.clientEmail)
  {
  }

  /** A public booking never creates a double booking: finding or creating
      the client leaves the appointments alone, and the booking is the
      service's create. */
  lemma PublicBookingKeepsNoDoubleBooking(db: Db, req: PublicBookingRequest, clock: Clock, randomPassword: string)
    requires AppointmentService.NoDoubleBooking(db.appointments)
    ensures var r := CreatePublicCita(db, req, clock, randomPassword);
      AppointmentService.NoDoubleBooking(r.0.appointments)
  {
    var fc := AuthService.FindOrCreateClientUserWithResult(
      db, Some(req.clientName), req.clientEmail, Some(req.clientPhone), req.clientPassword, randomPassword);
    if fc.Ok? {
      var (db1, client, _) := fc.value;
      assert db1.appointments == db.appointments;
      AppointmentService.CreateKeepsNoDoubleBooking(db1, PublicBooking(client, req), clock);
    }
  }
}
