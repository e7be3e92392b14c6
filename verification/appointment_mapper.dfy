/** Conversions between the appointment entity and its transfer objects. */
module AppointmentMapper {
  import opened Wrappers
  import opened Calendar
  import opened Entities
  import Seqs
  import UserRepository

  /** The booking request body. */
  datatype AppointmentCreateDto = AppointmentCreateDto(
    clientId: UserId,
    stylistId: UserId,
    date: Day,
    startTime: TimeOfDay,
    endTime: TimeOfDay,
    clientPhone: Option<string>,
    totalPrice: Option<Cents>,
    serviceIds: Option<seq<ServiceId>>)

  datatype ServiceOfferDto = ServiceOfferDto(serviceId: ServiceId, name: string, unitPrice: Cents, duration: nat)

  /** The appointment as the API returns it; names are absent when the
      referenced user is. */
  datatype AppointmentDto = AppointmentDto(
    appointmentId: AppointmentId,
    clientId: Option<UserId>,
    clientName: Option<string>,
    stylistId: Option<UserId>,
    stylistName: Option<string>,
    status: string,
    date: Day,
    startTime: TimeOfDay,
    endTime: TimeOfDay,
    clientPhone: Option<string>,
    totalPrice: Cents,
    services: seq<ServiceOfferDto>)

  function ToServiceDto(s: ServiceOffer): ServiceOfferDto {
    ServiceOfferDto(s.id, s.name, s.unitPrice, s.duration)
  }

  /** `toEntity`: a confirmed appointment for the given client and stylist
      with the request's date, times, phone and price; the services default to
      none when the list is null. */
  function ToEntity(
    dto: AppointmentCreateDto, client: User, stylist: User, services: Option<seq<ServiceOffer>>,
    price: Cents, id: AppointmentId)
    : (a: Appointment)
    ensures a.id == id && a.client == client.id && a.stylist == stylist.id
    ensures a.status == DefaultStatus
    ensures a.date == dto.date && a.startTime == dto.startTime && a.endTime == dto.endTime
    ensures a.clientPhone == dto.clientPhone && a.totalPrice == price
    ensures a.services == services.GetOr([])
  {
    Appointment(id, client.id, stylist.id, Confirmada, dto.date, dto.startTime, dto.endTime,
                dto.clientPhone, price, services.GetOr([]))
  }

  /** `toDTO`: null maps to null; otherwise every field is copied, the
      status by name, the services one for one in order. */
  function ToDto(a: Option<Appointment>, users: seq<User>): (r: Option<AppointmentDto>)
    ensures r.None? <==> a.None?
    ensures r.Some? ==>
      var d, x := r.value, a.value;
      && d.appointmentId == x.id && d.date == x.date && d.startTime == x.startTime && d.endTime == x.endTime
      && ParseStatus(d.status) == Some(x.status)
      && d.clientPhone == x.clientPhone && d.totalPrice == x.totalPrice
      && |d.services| == |x.services|
      && (forall i :: 0 <= i < |x.services| ==>
            && d.services[i].serviceId == x.services[i].id && d.services[i].name == x.services[i].name
            && d.services[i].unitPrice == x.services[i].unitPrice && d.services[i].duration == x.services[i].duration)
    ensures r.Some? ==>
      var c := UserRepository.FindById(users, a.value.client);
      && (c.Some? ==> r.value.clientId == Some(a.value.client) && r.value.clientName == Some(c.value.name))
      && (c.None? ==> r.value.clientId.None? && r.value.clientName.None?)
    ensures r.Some? ==>
      var st := UserRepository.FindById(users, a.value.stylist);
      && (st.Some? ==> r.value.stylistId == Some(a.value.stylist) && r.value.stylistName == Some(st.value.name))
      && (st.None? ==> r.value.stylistId.None? && r.value.stylistName.None?)
  {
    match a
    case None => None
    case Some(x) =>
      var client := UserRepository.FindById(users, x.client);
      var stylist := UserRepository.FindById(users, x.stylist);
      ParseStatusRoundTrip(x.status);
      Some(AppointmentDto(
        x.id,
        if client.Some? then Some(x.client) else None,
        if client.Some? then Some(client.value.name) else None,
        if stylist.Some? then Some(x.stylist) else None,
        if stylist.Some? then Some(stylist.value.name) else None,
        StatusName(x.status), x.date, x.startTime, x.endTime, x.clientPhone, x.totalPrice,
        Seqs.Map(x.services, ToServiceDto)))
  }

  /** The transfer object loses nothing of an appointment whose client and
      stylist are stored: two such appointments with the same transfer
      object are the same appointment. */
  lemma ToDtoInjective(a: Appointment, b: Appointment, users: seq<User>)
    requires UserRepository.FindById(users, a.client).Some? && UserRepository.FindById(users, a.stylist).Some?
    requires UserRepository.FindById(users, b.client).Some? && UserRepository.FindById(users, b.stylist).Some?
    requires ToDto(Some(a), users) == ToDto(Some(b), users)
    ensures a == b
  {
    var d := ToDto(Some(a), users).value;
    assert Some(a.status) == ParseStatus(d.status) == Some(b.status);
    assert |a.services| == |b.services|;
    forall i | 0 <= i < |a.services| ensures a.services[i] == b.services[i] {
      assert d.services[i] == ToDto(Some(b), users).value.services[i];
    }
  }

  /** `toDTOList`: null maps to null, a list to the list of its elements'
      transfer objects. */
  function ToDtoList(appts: Option<seq<Appointment>>, users: seq<User>): (r: Option<seq<AppointmentDto>>)
    ensures r.None? <==> appts.None?
    ensures r.Some? ==> |r.value| == |appts.value|
    ensures r.Some? ==>
      forall i :: 0 <= i < |appts.value| ==> Some(r.value[i]) == ToDto(Some(appts.value[i]), users)
  {
    match appts
    case None => None
    case Some(s) => Some(Seqs.Map(s, (x: Appointment) => ToDto(Some(x), users).value))
  }

  /** An appointment built from a request reads back with the request's
      values, the confirmed status and the names of its client and stylist. */
  lemma CreatedAppointmentReadsBack(
    dto: AppointmentCreateDto, client: User, stylist: User, services: Option<seq<ServiceOffer>>,
    price: Cents, id: AppointmentId, users: seq<User>)
    requires client in users && stylist in users
    requires forall u :: u in users && u.id == client.id ==> u == client
    requires forall u :: u in users && u.id == stylist.id ==> u == stylist
    ensures var d := ToDto(Some(ToEntity(dto, client, stylist, services, price, id)), users).value;
      && d.appointmentId == id
      && d.clientId == Some(client.id) && d.clientName == Some(client.name)
      && d.stylistId == Some(stylist.id) && d.stylistName == Some(stylist.name)
      && d.status == "CONFIRMADA"
      && d.date == dto.date && d.startTime == dto.startTime && d.endTime == dto.endTime
      && d.clientPhone == dto.clientPhone && d.totalPrice == price
  {
    var c := UserRepository.FindById(users, client.id);
    var s := UserRepository.FindById(users, stylist.id);
    assert c.Some? && c.value == client;
    assert s.Some? && s.value == stylist;
  }
}
