/** Weekly working hours of stylists: one row per stylist and weekday,
    created, overwritten and deleted by the administrator. */
module AvailabilityService {
  import opened Wrappers
  import opened Calendar
  import opened Entities
  import opened Errors
  import opened Store
  import Seqs
  import UserRepository
  import AvailabilityRepository

  /** The body of a create or update request. */
  datatype AvailabilityRequest = AvailabilityRequest(
    stylistId: UserId,
    dayOfWeek: DayOfWeek,
    startTime: TimeOfDay,
    endTime: TimeOfDay)

  /** `getAllAvailabilities`: every row, or the rows of one existing user. */
  function GetAllAvailabilities(db: Db, stylistId: Option<UserId>): (r: Result<seq<Availability>, Error>)
    ensures stylistId.None? ==> r == Ok(db.availabilities)
    ensures stylistId.Some? && UserRepository.FindById(db.users, stylistId.value).None? ==> r == Err(NotFound("User"))
    ensures stylistId.Some? && UserRepository.FindById(db.users, stylistId.value).Some? ==>
      r == Ok(AvailabilityRepository.FindByStylist(db.availabilities, stylistId.value))
    ensures r.Ok? <==> stylistId.None? || UserRepository.FindById(db.users, stylistId.value).Some?
    ensures r.Ok? ==> forall v :: v in r.value <==> v in db.availabilities && (stylistId.Some? ==> v.stylist == stylistId.value)
  {
    match stylistId
    case None => Ok(db.availabilities)
    case Some(id) =>
      if UserRepository.FindById(db.users, id).None? then Err(NotFound("User"))
      else Ok(AvailabilityRepository.FindByStylist(db.availabilities, id))
  }

  /** `getAvailabilityById`. */
  function GetAvailabilityById(db: Db, id: AvailabilityId): (r: Result<Availability, Error>)
    ensures r.Ok? ==> r.value in db.availabilities && r.value.id == id
    ensures r.Err? <==> forall v :: v in db.availabilities ==> v.id != id
    ensures r.Err? ==> r.error == NotFound("Availability")
  {
    match Seqs.IndexWhere(db.availabilities, (v: Availability) => v.id == id)
    case None => Err(NotFound("Availability"))
    case Some(i) => Ok(db.availabilities[i])
  }

  /** At most one row per stylist and weekday: the rule creation enforces. */
  ghost predicate AtMostOnePerWeekday(avs: seq<Availability>) {
    forall i, j :: 0 <= i < j < |avs| ==>
      !(avs[i].stylist == avs[j].stylist && avs[i].dayOfWeek == avs[j].dayOfWeek)
  }

  /** `createAvailability`: the user must exist and be a stylist, the window
      must be non-empty and the weekday still free for that stylist. */
  function CreateAvailability(db: Db, req: AvailabilityRequest): (r: Result<(Db, Availability), Error>)
    ensures UserRepository.FindById(db.users, req.stylistId).None? ==> r == Err(NotFound("User"))
    ensures r.Ok? <==>
      && UserRepository.FindById(db.users, req.stylistId).Some?
      && UserRepository.FindById(db.users, req.stylistId).value.role == Estilista
      && req.startTime < req.endTime
      && (forall v :: v in db.availabilities ==> !(v.stylist == req.stylistId && v.dayOfWeek == req.dayOfWeek))
    ensures r.Err? && UserRepository.FindById(db.users, req.stylistId).Some? ==> r.error.BadRequest?
    ensures r.Ok? ==>
      && r.value.1 == Availability(db.nextAvailabilityId, req.stylistId, req.dayOfWeek, req.startTime, req.endTime)
      && r.value.0 == db.(availabilities := db.availabilities + [r.value.1], nextAvailabilityId := db.nextAvailabilityId + 1)
  {
    match UserRepository.FindById(db.users, req.stylistId)
    case None => Err(NotFound("User"))
    case Some(stylist) =>
      if stylist.role != Estilista then Err(BadRequest(MsgNotStylist))
      else if req.endTime <= req.startTime then Err(BadRequest(MsgEndNotAfterStart))
      else if AvailabilityRepository.FindByStylistAndDayOfWeek(db.availabilities, req.stylistId, req.dayOfWeek) != [] then
        var clash := AvailabilityRepository.FindByStylistAndDayOfWeek(db.availabilities, req.stylistId, req.dayOfWeek);
        assert clash[0] in clash;
        Err(BadRequest(MsgAvailabilityExists))
      else
        var v := Availability(db.nextAvailabilityId, req.stylistId, req.dayOfWeek, req.startTime, req.endTime);
        Ok((db.(availabilities := db.availabilities + [v], nextAvailabilityId := db.nextAvailabilityId + 1), v))
  }

  /** Creation keeps both the table's keys and the one-row-per-weekday rule. */
  lemma CreateKeepsInvariants(db: Db, req: AvailabilityRequest)
    requires db.Valid() && AtMostOnePerWeekday(db.availabilities)
    requires CreateAvailability(db, req).Ok?
    ensures CreateAvailability(db, req).value.0.Valid()
    ensures AtMostOnePerWeekday(CreateAvailability(db, req).value.0.availabilities)
  {
    var avs := db.availabilities;
    var s := CreateAvailability(db, req).value.0.availabilities;
    var v := CreateAvailability(db, req).value.1;
    assert s == avs + [v];
    forall i, j | 0 <= i < j < |s|
      ensures !(s[i].stylist == s[j].stylist && s[i].dayOfWeek == s[j].dayOfWeek)
    {
      if j == |avs| {
        assert s[i] in avs;
      }
    }
  }

  /** A created row is listed among its stylist's hours, next to every row
      the stylist had before. */
  lemma CreatedRowListed(db: Db, req: AvailabilityRequest)
    requires CreateAvailability(db, req).Ok?
    ensures var (db', v) := CreateAvailability(db, req).value;
      var listed := GetAllAvailabilities(db', Some(req.stylistId));
      && listed.Ok?
      && v in listed.value
      && forall w :: w in db.availabilities && w.stylist == req.stylistId ==> w in listed.value
  {
  }

  /** `updateAvailability`: overwrites weekday and hours of an existing row,
      keeping its stylist; the request's stylist is ignored. */
  function UpdateAvailability(db: Db, id: AvailabilityId, req: AvailabilityRequest): (r: Result<(Db, Availability), Error>)
    ensures r.Err? <==> (forall v :: v in db.availabilities ==> v.id != id) || req.endTime <= req.startTime
    ensures (forall v :: v in db.availabilities ==> v.id != id) ==> r == Err(NotFound("Availability"))
    ensures (exists v :: v in db.availabilities && v.id == id) && req.endTime <= req.startTime ==>
      r == Err(BadRequest(MsgEndNotAfterStart))
    ensures r.Ok? ==>
      && |r.value.0.availabilities| == |db.availabilities|
      && r.value.0 == db.(availabilities := r.value.0.availabilities)
      && (exists i :: 0 <= i < |db.availabilities| && db.availabilities[i].id == id
           && r.value.1 == Availability(id, db.availabilities[i].stylist, req.dayOfWeek, req.startTime, req.endTime)
           && r.value.0.availabilities == db.availabilities[i := r.value.1])
  {
    match Seqs.IndexWhere(db.availabilities, (v: Availability) => v.id == id)
    case None => Err(NotFound("Availability"))
    case Some(i) =>
      if req.endTime <= req.startTime then Err(BadRequest(MsgEndNotAfterStart))
      else
        var old_ := db.availabilities[i];
        var v := Availability(id, old_.stylist, req.dayOfWeek, req.startTime, req.endTime);
        Ok((db.(availabilities := db.availabilities[i := v]), v))
  }

  /** Updating keeps the keys valid. */
  lemma UpdateKeepsValid(db: Db, id: AvailabilityId, req: AvailabilityRequest)
    requires db.Valid()
    requires UpdateAvailability(db, id, req).Ok?
    ensures UpdateAvailability(db, id, req).value.0.Valid()
  {
    var (db', v) := UpdateAvailability(db, id, req).value;
    var i :| 0 <= i < |db.availabilities| && db.availabilities[i].id == id
      && db'.availabilities == db.availabilities[i := v] && v.id == id;
    RewriteAvailabilityKeepsValid(db, i, v);
  }

  /** Monday 09:00-18:00 and Tuesday 09:00-18:00 of one stylist. */
  const TwoDays := [Availability(1, 2, Monday, 540, 1080), Availability(2, 2, Tuesday, 540, 1080)]

  /** Update performs no weekday check: moving the Tuesday row to Monday
      leaves the stylist with two Monday rows. */
  lemma UpdateCanDuplicateWeekday(db: Db)
    requires db.availabilities == TwoDays
    ensures AtMostOnePerWeekday(db.availabilities)
    ensures UpdateAvailability(db, 2, AvailabilityRequest(2, Monday, 600, 700)).Ok?
    ensures !AtMostOnePerWeekday(UpdateAvailability(db, 2, AvailabilityRequest(2, Monday, 600, 700)).value.0.availabilities)
  {
    var r := UpdateAvailability(db, 2, AvailabilityRequest(2, Monday, 600, 700));
    assert db.availabilities[1].id == 2;
    var s := r.value.0.availabilities;
    var i :| 0 <= i < |db.availabilities| && db.availabilities[i].id == 2 && s == db.availabilities[i := r.value.1];
    assert i == 1;
    assert s[0].stylist == s[1].stylist && s[0].dayOfWeek == s[1].dayOfWeek;
  }

  /** `deleteAvailability`: removes the row with the id. */
  function DeleteAvailability(db: Db, id: AvailabilityId): (r: Result<Db, Error>)
    ensures r.Err? <==> forall v :: v in db.availabilities ==> v.id != id
    ensures r.Err? ==> r.error == NotFound("Availability")
    ensures r.Ok? ==> r.value == db.(availabilities := r.value.availabilities)
    ensures r.Ok? ==> forall v :: v in r.value.availabilities <==> v in db.availabilities && v.id != id
  {
    if forall v :: v in db.availabilities ==> v.id != id then Err(NotFound("Availability"))
    else Ok(db.(availabilities := Seqs.Filter(db.availabilities, (v: Availability) => v.id != id)))
  }
}
