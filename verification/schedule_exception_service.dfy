/** One-off schedule changes (holidays, closures, extra openings) managed by
    the administrator. */
module ScheduleExceptionService {
  import opened Wrappers
  import opened Calendar
  import opened Entities
  import opened Errors
  import opened Store
  import Seqs
  import UserRepository
  import ScheduleExceptionRepository

  /** The body of a create or update request; `None` is a null field. */
  datatype ExceptionRequest = ExceptionRequest(
    stylistId: Option<UserId>,
    date: Day,
    startTime: Option<TimeOfDay>,
    endTime: Option<TimeOfDay>,
    kind: ExceptionType,
    reason: Option<string>)

  /** The window of a request is acceptable: bounds that are both present
      are ordered, an empty window included. */
  predicate OrderedBounds(start: Option<TimeOfDay>, end: Option<TimeOfDay>) {
    start.None? || end.None? || start.value <= end.value
  }

  /** Every stored exception has ordered bounds. */
  ghost predicate AllOrdered(excs: seq<ScheduleException>) {
    forall i :: 0 <= i < |excs| ==> OrderedBounds(excs[i].startTime, excs[i].endTime)
  }

  /** `getAllExceptions`: filtered by stylist, by date, by both or by neither;
      a stylist filter requires the user to exist. */
  function GetAllExceptions(db: Db, stylistId: Option<UserId>, date: Option<Day>): (r: Result<seq<ScheduleException>, Error>)
    ensures r.Err? <==> stylistId.Some? && UserRepository.FindById(db.users, stylistId.value).None?
    ensures r.Err? ==> r.error == NotFound("User")
    ensures r.Ok? ==> forall e :: e in r.value <==>
      && e in db.exceptions
      && (stylistId.Some? ==> e.stylist == stylistId)
      && (date.Some? ==> e.date == date.value)
  {
    if stylistId.Some? && UserRepository.FindById(db.users, stylistId.value).None? then Err(NotFound("User"))
    else if stylistId.Some? && date.Some? then
      Ok(ScheduleExceptionRepository.FindByStylistAndDate(db.exceptions, stylistId.value, date.value))
    else if stylistId.Some? then Ok(ScheduleExceptionRepository.FindByStylist(db.exceptions, stylistId.value))
    else if date.Some? then Ok(ScheduleExceptionRepository.FindByDate(db.exceptions, date.value))
    else Ok(db.exceptions)
  }

  /** `getExceptionById`. */
  function GetExceptionById(db: Db, id: ExceptionId): (r: Result<ScheduleException, Error>)
    ensures r.Ok? ==> r.value in db.exceptions && r.value.id == id
    ensures r.Err? <==> forall e :: e in db.exceptions ==> e.id != id
    ensures r.Err? ==> r.error == NotFound("ScheduleException")
  {
    match Seqs.IndexWhere(db.exceptions, (e: ScheduleException) => e.id == id)
    case None => Err(NotFound("ScheduleException"))
    case Some(i) => Ok(db.exceptions[i])
  }

  /** The stylist a request names, resolved: `Ok(None)` for a global
      exception, `NotFound` for an unknown user. */
  function ResolveStylist(db: Db, stylistId: Option<UserId>): (r: Result<Option<UserId>, Error>)
    ensures r.Ok? <==> stylistId.None? || UserRepository.FindById(db.users, stylistId.value).Some?
    ensures r.Ok? ==> r.value == stylistId
    ensures r.Err? ==> r.error == NotFound("User")
  {
    if stylistId.Some? && UserRepository.FindById(db.users, stylistId.value).None? then Err(NotFound("User"))
    else Ok(stylistId)
  }

  /** `createException`: an unknown stylist is reported before disordered
      bounds; the creating administrator is recorded. */
  function CreateException(db: Db, req: ExceptionRequest, administrator: UserId): (r: Result<(Db, ScheduleException), Error>)
    ensures r.Ok? <==> ResolveStylist(db, req.stylistId).Ok? && OrderedBounds(req.startTime, req.endTime)
    ensures ResolveStylist(db, req.stylistId).Err? ==> r == Err(NotFound("User"))
    ensures ResolveStylist(db, req.stylistId).Ok? && !OrderedBounds(req.startTime, req.endTime) ==>
      r == Err(BadRequest(MsgEndNotAfterStart))
    ensures r.Ok? ==>
      && r.value.1 == ScheduleException(db.nextExceptionId, req.stylistId, administrator, req.date,
                                        req.startTime, req.endTime, req.kind, req.reason)
      && r.value.0 == db.(exceptions := db.exceptions + [r.value.1], nextExceptionId := db.nextExceptionId + 1)
  {
    var stylist :- ResolveStylist(db, req.stylistId);
    if !OrderedBounds(req.startTime, req.endTime) then Err(BadRequest(MsgEndNotAfterStart))
    else
      var e := ScheduleException(db.nextExceptionId, stylist, administrator, req.date,
                                 req.startTime, req.endTime, req.kind, req.reason);
      Ok((db.(exceptions := db.exceptions + [e], nextExceptionId := db.nextExceptionId + 1), e))
  }

  /** Creation keeps the keys valid and every stored window ordered, and the
      new exception is what a lookup by its id returns. */
  lemma CreateThenGet(db: Db, req: ExceptionRequest, administrator: UserId)
    requires db.Valid() && AllOrdered(db.exceptions)
    requires CreateException(db, req, administrator).Ok?
    ensures CreateException(db, req, administrator).value.0.Valid()
    ensures AllOrdered(CreateException(db, req, administrator).value.0.exceptions)
    ensures GetExceptionById(CreateException(db, req, administrator).value.0, db.nextExceptionId)
      == Ok(CreateException(db, req, administrator).value.1)
  {
    var (db', e) := CreateException(db, req, administrator).value;
    assert db'.exceptions == db.exceptions + [e];
    assert db'.exceptions[|db.exceptions|] == e;
    var g := GetExceptionById(db', db.nextExceptionId);
    assert g.Ok?;
    assert g.value in db.exceptions || g.value == e;
  }

  /** `updateException`: overwrites every field but the key and the
      administrator; a null stylist turns the exception global. */
  function UpdateException(db: Db, id: ExceptionId, req: ExceptionRequest): (r: Result<(Db, ScheduleException), Error>)
    ensures (forall e :: e in db.exceptions ==> e.id != id) ==> r == Err(NotFound("ScheduleException"))
    ensures r.Ok? <==>
      && (exists e :: e in db.exceptions && e.id == id)
      && ResolveStylist(db, req.stylistId).Ok?
      && OrderedBounds(req.startTime, req.endTime)
    ensures r.Ok? ==>
      && r.value.0 == db.(exceptions := r.value.0.exceptions)
      && (exists i :: 0 <= i < |db.exceptions| && db.exceptions[i].id == id
           && r.value.1 == ScheduleException(id, req.stylistId, db.exceptions[i].administrator, req.date,
                                             req.startTime, req.endTime, req.kind, req.reason)
           && r.value.0.exceptions == db.exceptions[i := r.value.1])
  {
    match Seqs.IndexWhere(db.exceptions, (e: ScheduleException) => e.id == id)
    case None => Err(NotFound("ScheduleException"))
    case Some(i) =>
      var stylist :- ResolveStylist(db, req.stylistId);
      if !OrderedBounds(req.startTime, req.endTime) then Err(BadRequest(MsgEndNotAfterStart))
      else
        var e := ScheduleException(id, stylist, db.exceptions[i].administrator, req.date,
                                   req.startTime, req.endTime, req.kind, req.reason);
        Ok((db.(exceptions := db.exceptions[i := e]), e))
  }

  /** Updating keeps the keys valid and every stored window ordered. */
  lemma UpdateKeepsInvariants(db: Db, id: ExceptionId, req: ExceptionRequest)
    requires db.Valid() && AllOrdered(db.exceptions)
    requires UpdateException(db, id, req).Ok?
    ensures UpdateException(db, id, req).value.0.Valid()
    ensures AllOrdered(UpdateException(db, id, req).value.0.exceptions)
  {
    var (db', e) := UpdateException(db, id, req).value;
    var i :| 0 <= i < |db.exceptions| && db.exceptions[i].id == id && db'.exceptions == db.exceptions[i := e]
      && e.id == id;
    RewriteExceptionKeepsValid(db, i, e);
  }

  /** `deleteException`. */
  function DeleteException(db: Db, id: ExceptionId): (r: Result<Db, Error>)
    ensures r.Err? <==> forall e :: e in db.exceptions ==> e.id != id
    ensures r.Err? ==> r.error == NotFound("ScheduleException")
    ensures r.Ok? ==> r.value == db.(exceptions := r.value.exceptions)
    ensures r.Ok? ==> forall e :: e in r.value.exceptions <==> e in db.exceptions && e.id != id
  {
    if forall e :: e in db.exceptions ==> e.id != id then Err(NotFound("ScheduleException"))
    else Ok(db.(exceptions := Seqs.Filter(db.exceptions, (e: ScheduleException) => e.id != id)))
  }

  /** Deleting twice: the second call finds nothing. */
  lemma DeleteTwiceNotFound(db: Db, id: ExceptionId)
    requires DeleteException(db, id).Ok?
    ensures DeleteException(DeleteException(db, id).value, id) == Err(NotFound("ScheduleException"))
  {
  }
}
