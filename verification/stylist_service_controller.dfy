/** Which services a stylist offers: `associateServices` replaces the list
    after checking who asks, for whom, and that every id names a stored
    service exactly once. */
module StylistServiceController {
  import opened Wrappers
  import opened Entities
  import opened Errors
  import opened Store
  import Seqs
  import UserRepository
  import ServiceOfferRepository
  import ErrorHandler

  /** `associateServices`: `tokenRole` is the role the token carries and
      `principal` the name it was issued to. No URL rule restricts the
      paths under `/estilistas` beyond authentication, so a client's token is turned
      away by the method's `@PreAuthorize` alone, whose exception reaches the
      global handler's catch-all: a 500, not a 403. */
  function AssociateServices(db: Db, principal: string, tokenRole: Role, stylistId: UserId,
                             serviceIds: Option<seq<ServiceId>>): (r: Result<Db, Error>)
    ensures tokenRole == Cliente ==> r == Err(Internal(MsgAccessDenied))
    ensures r.Ok? ==>
      var caller := UserRepository.FindByUsernameOrEmail(db.users, principal);
      && caller.Ok? && caller.value.Some?
      && (caller.value.value.role == Estilista ==> caller.value.value.id == stylistId)
    ensures r.Ok? ==>
      && UserRepository.IndexOfId(db.users, stylistId).Some?
      && var i := UserRepository.IndexOfId(db.users, stylistId).value;
         && db.users[i].role == Estilista
         && serviceIds.Some? && serviceIds.value != []
         && |r.value.users| == |db.users|
         && r.value == db.(users := db.users[i := db.users[i].(services := r.value.users[i].services)])
         && (forall s :: s in r.value.users[i].services <==>
               s in serviceIds.value && ServiceOfferRepository.IsKnown(db.services, s))
    ensures (serviceIds.None? || (serviceIds.Some? && serviceIds.value == [])) ==> r.Err?
  {
    if tokenRole != Estilista && tokenRole != Administrador then Err(Internal(MsgAccessDenied))
    else
      var found :- UserRepository.FindByUsernameOrEmail(db.users, principal);
      if found.None? then Err(NotFound("User"))
      else if found.value.role == Estilista && found.value.id != stylistId then Err(Forbidden(""))
      else
        match UserRepository.IndexOfId(db.users, stylistId)
        case None => Err(NotFound("User"))
        case Some(i) =>
          if db.users[i].role != Estilista then Err(BadRequest(""))
          else if serviceIds.None? || serviceIds.value == [] then Err(BadRequest(""))
          else
            var services := ServiceOfferRepository.FindAllById(db.services, serviceIds.value);
            if |services| != |serviceIds.value| then Err(BadRequest(""))
            else
              var ids := KeysOf(services);
              KeysOfFound(db.services, serviceIds.value);
              Ok(db.(users := db.users[i := db.users[i].(services := ids)]))
  }

  /** The keys of the services found, in catalogue order. */
  function KeysOf(services: seq<ServiceOffer>): (ids: seq<ServiceId>)
    ensures |ids| == |services|
    ensures forall k :: 0 <= k < |services| ==> ids[k] == services[k].id
  {
    Seqs.Map(services, (s: ServiceOffer) => s.id)
  }

  /** The keys `findAllById` returns are the requested ids that name a
      stored service. */
  lemma KeysOfFound(catalog: seq<ServiceOffer>, requested: seq<ServiceId>)
    ensures forall s :: s in KeysOf(ServiceOfferRepository.FindAllById(catalog, requested)) <==>
      s in requested && ServiceOfferRepository.IsKnown(catalog, s)
  {
    var services := ServiceOfferRepository.FindAllById(catalog, requested);
    var ids := KeysOf(services);
    forall s | s in ids
      ensures s in requested && ServiceOfferRepository.IsKnown(catalog, s)
    {
      var k :| 0 <= k < |ids| && ids[k] == s;
      assert services[k] in services;
    }
    forall s | s in requested && ServiceOfferRepository.IsKnown(catalog, s)
      ensures s in ids
    {
      var o :| o in catalog && o.id == s;
      var k :| 0 <= k < |services| && services[k] == o;
      assert ids[k] == s;
    }
  }

  /** With unique service keys, the association succeeds for a stylist
      exactly when the list is non-empty, repeats no id and names only
      stored services; it then holds exactly the requested ids. */
  lemma AssociationAcceptsExactly(db: Db, principal: string, tokenRole: Role, stylistId: UserId,
                                  ids: seq<ServiceId>, caller: User)
    requires ServiceOfferRepository.UniqueServiceIds(db.services)
    requires tokenRole != Cliente
    requires UserRepository.FindByUsernameOrEmail(db.users, principal) == Ok(Some(caller))
    requires caller.role == Administrador || caller.id == stylistId
    requires UserRepository.FindById(db.users, stylistId).Some?
    requires UserRepository.FindById(db.users, stylistId).value.role == Estilista
    ensures AssociateServices(db, principal, tokenRole, stylistId, Some(ids)).Ok? <==>
      ids != [] && Seqs.Distinct(ids) && forall id :: id in ids ==> ServiceOfferRepository.IsKnown(db.services, id)
    ensures AssociateServices(db, principal, tokenRole, stylistId, Some(ids)).Ok? ==>
      var i := UserRepository.IndexOfId(db.users, stylistId).value;
      Seqs.Elements(AssociateServices(db, principal, tokenRole, stylistId, Some(ids)).value.users[i].services)
        == Seqs.Elements(ids)
  {
    var i := UserRepository.IndexOfId(db.users, stylistId).value;
    ServiceOfferRepository.FindAllByIdComplete(db.services, ids);
  }

  /** Sending the same id twice is refused, even when it names a stored
      service. */
  lemma RepeatedIdRefused(db: Db, principal: string, tokenRole: Role, stylistId: UserId, id: ServiceId)
    requires ServiceOfferRepository.UniqueServiceIds(db.services)
    ensures AssociateServices(db, principal, tokenRole, stylistId, Some([id, id])).Err?
  {
    ServiceOfferRepository.FindAllByIdComplete(db.services, [id, id]);
    assert [id, id][0] == [id, id][1];
  }

  /** The two refusals answer differently: a client's token reaches the
      catch-all handler and gets a 500, a stylist acting for another stylist
      gets the controller's own 403. */
  lemma RefusalStatuses(db: Db, principal: string, tokenRole: Role, stylistId: UserId,
                        ids: Option<seq<ServiceId>>, caller: User)
    requires UserRepository.FindByUsernameOrEmail(db.users, principal) == Ok(Some(caller))
    requires caller.role == Estilista && caller.id != stylistId
    ensures ErrorHandler.Handle(AssociateServices(db, principal, Cliente, stylistId, ids).error).status
      == ErrorHandler.StatusInternal
    ensures tokenRole != Cliente ==>
      ErrorHandler.Handle(AssociateServices(db, principal, tokenRole, stylistId, ids).error).status
        == ErrorHandler.StatusForbidden
  {
  }
}
