/** The persistent records of the salon.  Ids are the database's generated
    keys; a reference to another record is held as that record's id; money is
    an integer number of cents (the columns have scale 2); an optional column
    is an `Option`, every other column is mandatory. */
module Entities {
  import opened Wrappers
  import opened Calendar

  type UserId = nat
  type ServiceId = nat
  type AppointmentId = nat
  type AvailabilityId = nat
  type ExceptionId = nat
  type NotificationId = nat

  /** Amount of money in cents. */
  type Cents = int

  datatype Role = Cliente | Estilista | Administrador

  /** `Role.name()`. */
  function RoleName(r: Role): string {
    match r
    case Cliente => "CLIENTE"
    case Estilista => "ESTILISTA"
    case Administrador => "ADMINISTRADOR"
  }

  /** `Role.valueOf(s)`: exact, case-sensitive constant names. */
  function ParseRole(s: string): (r: Option<Role>)
    ensures r.Some? ==> RoleName(r.value) == s
  {
    if s == "CLIENTE" then Some(Cliente)
    else if s == "ESTILISTA" then Some(Estilista)
    else if s == "ADMINISTRADOR" then Some(Administrador)
    else None
  }

  /** `valueOf` accepts exactly the names `name()` produces. */
  lemma ParseRoleRoundTrip(r: Role)
    ensures ParseRole(RoleName(r)) == Some(r)
  {
  }

  datatype User = User(
    id: UserId,
    name: string,
    username: Option<string>,
    email: Option<string>,
    password: string,
    role: Role,
    active: bool,
    phone: Option<string>,
    services: seq<ServiceId>)

  datatype ServiceOffer = ServiceOffer(id: ServiceId, name: string, duration: nat, unitPrice: Cents)

  datatype AppointmentStatus = Confirmada | Cancelada | Finalizada

  /** A new appointment starts out confirmed. */
  const DefaultStatus: AppointmentStatus := Confirmada

  function StatusName(s: AppointmentStatus): string {
    match s
    case Confirmada => "CONFIRMADA"
    case Cancelada => "CANCELADA"
    case Finalizada => "FINALIZADA"
  }

  /** `AppointmentStatus.valueOf(s)`: exact, case-sensitive constant names. */
  function ParseStatus(s: string): (r: Option<AppointmentStatus>)
    ensures r.Some? ==> StatusName(r.value) == s
  {
    if s == "CONFIRMADA" then Some(Confirmada)
    else if s == "CANCELADA" then Some(Cancelada)
    else if s == "FINALIZADA" then Some(Finalizada)
    else None
  }

  lemma ParseStatusRoundTrip(s: AppointmentStatus)
    ensures ParseStatus(StatusName(s)) == Some(s)
  {
  }

  /** Only a cancelled appointment frees its slot. */
  predicate Blocks(s: AppointmentStatus) {
    s != Cancelada
  }

  datatype Appointment = Appointment(
    id: AppointmentId,
    client: UserId,
    stylist: UserId,
    status: AppointmentStatus,
    date: Day,
    startTime: TimeOfDay,
    endTime: TimeOfDay,
    clientPhone: Option<string>,
    totalPrice: Cents,
    services: seq<ServiceOffer>)

  /** A weekly working window of a stylist. */
  datatype Availability = Availability(
    id: AvailabilityId,
    stylist: UserId,
    dayOfWeek: DayOfWeek,
    startTime: TimeOfDay,
    endTime: TimeOfDay)

  datatype ExceptionType = Disponible | NoDisponible

  /** A one-off change to a day's schedule: without a stylist it applies to
      every stylist, without both bounds it covers the whole day. */
  datatype ScheduleException = ScheduleException(
    id: ExceptionId,
    stylist: Option<UserId>,
    administrator: UserId,
    date: Day,
    startTime: Option<TimeOfDay>,
    endTime: Option<TimeOfDay>,
    kind: ExceptionType,
    reason: Option<string>)
  {
    predicate AppliesToAll() { stylist.None? }

    predicate IsFullDay() { startTime.None? || endTime.None? }
  }

  datatype NotificationType =
    | Info | Success | Warning | ErrorNotice
    | AppointmentReminder | AppointmentCancelled | AppointmentConfirmed

  /** An in-app message.  `created` is the creation instant in milliseconds. */
  datatype Notification = Notification(
    id: NotificationId,
    user: UserId,
    title: string,
    kind: NotificationType,
    read: bool,
    relatedAppointment: Option<AppointmentId>,
    created: Option<int>)
}
