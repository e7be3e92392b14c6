/** The administrator's user management and the profile endpoint: role
    changes, with default working hours for a new stylist, activation, and
    the current-password check on a password change. */
module UserController {
  import opened Wrappers
  import opened Calendar
  import opened Entities
  import opened Errors
  import opened Store
  import Seqs
  import Text
  import UserRepository
  import AvailabilityService
  import ErrorHandler

  /** The `activo` value of an update: a JSON boolean or anything else,
      which is read through its text. */
  datatype ActiveValue = BoolValue(b: bool) | TextValue(s: string)

  /** `Boolean.parseBoolean`: "true" in any case. */
  predicate ParseBoolean(s: string) {
    Text.ToLower(s) == "true"
  }

  function ActiveOf(v: ActiveValue): bool {
    match v
    case BoolValue(b) => b
    case TextValue(s) => ParseBoolean(s)
  }

  /** The keys of an `updateUsuario` body: `None` is an absent key and
      `Some(None)` a key holding JSON `null`. Only `telefono` accepts a
      null; every other key has `toString()` called on its value. */
  datatype UserUpdate = UserUpdate(
    name: Option<Option<string>>,
    phone: Option<Option<string>>,
    role: Option<Option<string>>,
    active: Option<Option<ActiveValue>>,
    password: Option<Option<string>>)

  /** A key present with a JSON `null`. */
  predicate IsNull<T>(key: Option<Option<T>>) {
    key.Some? && key.value.None?
  }

  /** A null on a key read before the role name is checked, or on the
      role itself. */
  predicate NullBeforeRole(upd: UserUpdate) {
    IsNull(upd.name) || IsNull(upd.role)
  }

  /** A null on a key read after the role name is checked. */
  predicate NullAfterRole(upd: UserUpdate) {
    IsNull(upd.active) || IsNull(upd.password)
  }

  /** The role key holds a text that, upper-cased, names no role. */
  predicate BadRoleName(upd: UserUpdate) {
    upd.role.Some? && upd.role.value.Some? && ParseRole(Text.ToUpper(upd.role.value.value)).None?
  }

  /** The body is applied without an exception or a 400. */
  predicate Applicable(upd: UserUpdate) {
    !NullBeforeRole(upd) && !BadRoleName(upd) && !NullAfterRole(upd)
  }

  function MsgInvalidRole(given: string): string {
    "Rol inválido: " + given
  }

  /** The weekdays and hours a new stylist is given. */
  const DefaultDays: seq<DayOfWeek> := [Monday, Tuesday, Wednesday, Thursday, Friday]
  const DefaultStart: TimeOfDay := 600
  const DefaultEnd: TimeOfDay := 1110

  /** A row of the default working week. */
  predicate IsDefaultRow(v: Availability, stylist: UserId) {
    v.stylist == stylist && v.dayOfWeek in DefaultDays && v.startTime == DefaultStart && v.endTime == DefaultEnd
  }

  /** `avs` holds a default-hours row of the stylist on weekday `d`. */
  predicate HasDefaultRowOn(avs: seq<Availability>, stylist: UserId, d: DayOfWeek) {
    exists v :: v in avs && v.stylist == stylist && v.dayOfWeek == d
      && v.startTime == DefaultStart && v.endTime == DefaultEnd
  }

  /** Only the weekly hours and their key counter differ. */
  predicate OnlyAvailabilitiesGrow(db: Db, r: Db) {
    && r == db.(availabilities := r.availabilities, nextAvailabilityId := r.nextAvailabilityId)
    && |r.availabilities| >= |db.availabilities|
    && r.availabilities[..|db.availabilities|] == db.availabilities
  }

  /** A default-hours row of the stylist on one of `days`. */
  predicate DefaultRowIn(v: Availability, stylist: UserId, days: seq<DayOfWeek>) {
    v.stylist == stylist && v.dayOfWeek in days && v.startTime == DefaultStart && v.endTime == DefaultEnd
  }

  /** The loop of `createDefaultAvailabilities`: one creation per day, a
      refused creation skipped. */
  function CreateEach(db: Db, stylist: UserId, days: seq<DayOfWeek>): (r: Db)
    ensures OnlyAvailabilitiesGrow(db, r)
    ensures forall k :: |db.availabilities| <= k < |r.availabilities| ==>
      DefaultRowIn(r.availabilities[k], stylist, days)
    decreases |days|
  {
    if |days| == 0 then db
    else
      var req := AvailabilityService.AvailabilityRequest(stylist, days[0], DefaultStart, DefaultEnd);
      match AvailabilityService.CreateAvailability(db, req)
      case Err(_) =>
        var r := CreateEach(db, stylist, days[1..]);
        SkipStep(db, r, stylist, days);
        r
      case Ok((db', row)) =>
        var r := CreateEach(db', stylist, days[1..]);
        CreateEachStep(db, db', r, stylist, days, row);
        r
  }

  /** A skipped day: the rows created for the other days still qualify. */
  lemma SkipStep(db: Db, r: Db, stylist: UserId, days: seq<DayOfWeek>)
    requires |days| > 0
    requires forall k :: |db.availabilities| <= k < |r.availabilities| ==>
      DefaultRowIn(r.availabilities[k], stylist, days[1..])
    ensures forall k :: |db.availabilities| <= k < |r.availabilities| ==>
      DefaultRowIn(r.availabilities[k], stylist, days)
  {
    forall k | |db.availabilities| <= k < |r.availabilities|
      ensures DefaultRowIn(r.availabilities[k], stylist, days)
    {
      assert r.availabilities[k].dayOfWeek in days[1..];
    }
  }

  /** A created day: its row comes first, then the rows for the rest. */
  lemma CreateEachStep(db: Db, db': Db, r: Db, stylist: UserId, days: seq<DayOfWeek>, row: Availability)
    requires |days| > 0
    requires db' == db.(availabilities := db.availabilities + [row], nextAvailabilityId := db'.nextAvailabilityId)
    requires row.stylist == stylist && row.dayOfWeek == days[0]
    requires row.startTime == DefaultStart && row.endTime == DefaultEnd
    requires OnlyAvailabilitiesGrow(db', r)
    requires forall k :: |db'.availabilities| <= k < |r.availabilities| ==>
      DefaultRowIn(r.availabilities[k], stylist, days[1..])
    ensures OnlyAvailabilitiesGrow(db, r)
    ensures forall k :: |db.availabilities| <= k < |r.availabilities| ==>
      DefaultRowIn(r.availabilities[k], stylist, days)
  {
    var n := |db.availabilities|;
    assert r.availabilities[..n] == db'.availabilities[..n];
    assert r.availabilities[n] == db'.availabilities[n] == row;
    forall k | n < k < |r.availabilities|
      ensures DefaultRowIn(r.availabilities[k], stylist, days)
    {
      assert r.availabilities[k].dayOfWeek in days[1..];
    }
  }

  /** `createDefaultAvailabilities`: only for a stylist without any weekly
      hours; every failure is swallowed. */
  function CreateDefaultAvailabilities(db: Db, stylist: UserId): (r: Db)
    ensures OnlyAvailabilitiesGrow(db, r)
    ensures forall k :: |db.availabilities| <= k < |r.availabilities| ==> IsDefaultRow(r.availabilities[k], stylist)
    ensures (exists v :: v in db.availabilities && v.stylist == stylist) ==> r == db
  {
    match AvailabilityService.GetAllAvailabilities(db, Some(stylist))
    case Err(_) => db
    case Ok(existing) =>
      if existing != [] then
        assert existing[0] in existing;
        db
      else CreateEach(db, stylist, DefaultDays)
  }

  /** When nothing stands in the way, every listed day gets its row. */
  lemma {:induction false} CreateEachCoversDays(db: Db, stylist: UserId, days: seq<DayOfWeek>)
    requires UserRepository.FindById(db.users, stylist).Some?
    requires UserRepository.FindById(db.users, stylist).value.role == Estilista
    requires Seqs.Distinct(days)
    requires forall v :: v in db.availabilities ==> !(v.stylist == stylist && v.dayOfWeek in days)
    ensures |CreateEach(db, stylist, days).availabilities| == |db.availabilities| + |days|
    ensures forall d :: d in days ==> HasDefaultRowOn(CreateEach(db, stylist, days).availabilities, stylist, d)
    decreases |days|
  {
    if |days| > 0 {
      var req := AvailabilityService.AvailabilityRequest(stylist, days[0], DefaultStart, DefaultEnd);
      var c := AvailabilityService.CreateAvailability(db, req);
      assert c.Ok?;
      var (db', row) := c.value;
      assert Seqs.Distinct(days[1..]);
      forall v | v in db'.availabilities
        ensures !(v.stylist == stylist && v.dayOfWeek in days[1..])
      {
        if v == row {
          assert days[0] !in days[1..];
        }
      }
      CreateEachCoversDays(db', stylist, days[1..]);
      var r := CreateEach(db', stylist, days[1..]);
      assert row in r.availabilities by {
        assert db'.availabilities[|db.availabilities|] == row;
        assert r.availabilities[|db.availabilities|] == row;
      }
      forall d | d in days
        ensures HasDefaultRowOn(r.availabilities, stylist, d)
      {
        if d != days[0] {
          assert d in days[1..];
        }
      }
    }
  }

  /** A stylist without weekly hours ends up with Monday to Friday,
      10:00 to 18:30, one row each. */
  lemma DefaultWeekProvisioned(db: Db, stylist: UserId)
    requires UserRepository.FindById(db.users, stylist).Some?
    requires UserRepository.FindById(db.users, stylist).value.role == Estilista
    requires forall v :: v in db.availabilities ==> v.stylist != stylist
    ensures |CreateDefaultAvailabilities(db, stylist).availabilities| == |db.availabilities| + 5
    ensures forall d :: d in DefaultDays ==> HasDefaultRowOn(CreateDefaultAvailabilities(db, stylist).availabilities, stylist, d)
  {
    Seqs.NoMemberEmpty(AvailabilityService.GetAllAvailabilities(db, Some(stylist)).value);
    CreateEachCoversDays(db, stylist, DefaultDays);
  }

  /** The user after the fields of an update are applied, and whether the
      role changed to stylist. Keys are read in the source's order: a null
      name or role throws before the role name is checked, a null flag or
      password after it. */
  function ApplyFields(u: User, upd: UserUpdate): (r: Result<(User, bool), Error>)
    ensures r.Ok? <==> Applicable(upd)
    ensures NullBeforeRole(upd) ==> r == Err(Internal(MsgNullDereference))
    ensures !NullBeforeRole(upd) && BadRoleName(upd) ==>
      r == Err(BadRequest(MsgInvalidRole(upd.role.value.value)))
    ensures !NullBeforeRole(upd) && !BadRoleName(upd) && NullAfterRole(upd) ==>
      r == Err(Internal(MsgNullDereference))
    ensures r.Ok? ==>
      var (v, promoted) := r.value;
      && v.id == u.id && v.username == u.username && v.email == u.email && v.services == u.services
      && v.name == (if upd.name.Some? then upd.name.value.value else u.name)
      && v.phone == (if upd.phone.Some? then upd.phone.value else u.phone)
      && v.active == (if upd.active.Some? then ActiveOf(upd.active.value.value) else u.active)
      && v.password == (if upd.password.Some? then upd.password.value.value else u.password)
      && (upd.role.Some? ==> RoleName(v.role) == Text.ToUpper(upd.role.value.value))
      && (upd.role.None? ==> v.role == u.role)
      && (promoted <==> v.role == Estilista && u.role != Estilista)
  {
    if NullBeforeRole(upd) then Err(Internal(MsgNullDereference))
    else if BadRoleName(upd) then Err(BadRequest(MsgInvalidRole(upd.role.value.value)))
    else if NullAfterRole(upd) then Err(Internal(MsgNullDereference))
    else
      var role := if upd.role.Some? then ParseRole(Text.ToUpper(upd.role.value.value)).value else u.role;
      var v := u.(
        name := if upd.name.Some? then upd.name.value.value else u.name,
        phone := if upd.phone.Some? then upd.phone.value else u.phone,
        role := role,
        active := if upd.active.Some? then ActiveOf(upd.active.value.value) else u.active,
        password := if upd.password.Some? then upd.password.value.value else u.password);
      Ok((v, role == Estilista && u.role != Estilista))
  }

  /** `updateUsuario`: the user is saved, then default hours are created
      when the role has just become stylist. A refused body changes
      nothing: an exception rolls the transaction back. */
  function UpdateUsuario(db: Db, id: UserId, upd: UserUpdate): (r: Result<(Db, User), Error>)
    ensures r.Ok? <==> UserRepository.FindById(db.users, id).Some? && Applicable(upd)
    ensures UserRepository.FindById(db.users, id).None? ==> r == Err(NotFound("User"))
    ensures UserRepository.FindById(db.users, id).Some? && !Applicable(upd) ==>
      r == Err(ApplyFields(UserRepository.FindById(db.users, id).value, upd).error)
    ensures r.Ok? ==>
      var i := UserRepository.IndexOfId(db.users, id).value;
      var (v, promoted) := ApplyFields(db.users[i], upd).value;
      var saved := db.(users := db.users[i := v]);
      && r.value == (if promoted then CreateDefaultAvailabilities(saved, id) else saved, v)
    ensures r.Ok? ==>
      var (db', v) := r.value;
      var i := UserRepository.IndexOfId(db.users, id).value;
      && UserRepository.IndexOfId(db.users, id).Some?
      && ApplyFields(db.users[i], upd) == Ok((v, ApplyFields(db.users[i], upd).value.1))
      && db'.users == db.users[i := v]
      && OnlyAvailabilitiesGrow(db.(users := db'.users), db')
      && (db'.availabilities != db.availabilities ==> v.role == Estilista && db.users[i].role != Estilista)
      && (forall k :: |db.availabilities| <= k < |db'.availabilities| ==> IsDefaultRow(db'.availabilities[k], id))
  {
    match UserRepository.IndexOfId(db.users, id)
    case None => Err(NotFound("User"))
    case Some(i) =>
      var applied :- ApplyFields(db.users[i], upd);
      var (v, promoted) := applied;
      var saved := db.(users := db.users[i := v]);
      if promoted then Ok((CreateDefaultAvailabilities(saved, id), v))
      else Ok((saved, v))
  }

  /** A null role is a server error, not the 400 a misspelt one gets: the
      `toString()` that throws sits outside the `try` around `valueOf`. */
  lemma RoleRefusalStatuses(db: Db, id: UserId, upd: UserUpdate, text: string)
    requires UserRepository.FindById(db.users, id).Some?
    requires !IsNull(upd.name)
    ensures ErrorHandler.Handle(UpdateUsuario(db, id, upd.(role := Some(None))).error).status
      == ErrorHandler.StatusInternal
    ensures ParseRole(Text.ToUpper(text)).None? ==>
      ErrorHandler.Handle(UpdateUsuario(db, id, upd.(role := Some(Some(text)))).error).status
        == ErrorHandler.StatusBadRequest
  {
  }

  /** Making a client a stylist, in any spelling of the role, gives them
      the default working week when they had no hours. */
  lemma PromotionProvisionsDefaultWeek(db: Db, id: UserId, upd: UserUpdate)
    requires UserRepository.FindById(db.users, id).Some?
    requires UserRepository.FindById(db.users, id).value.role != Estilista
    requires upd.role.Some? && upd.role.value.Some? && Text.ToUpper(upd.role.value.value) == "ESTILISTA"
    requires !IsNull(upd.name) && !IsNull(upd.active) && !IsNull(upd.password)
    requires forall v :: v in db.availabilities ==> v.stylist != id
    ensures UpdateUsuario(db, id, upd).Ok?
    ensures |UpdateUsuario(db, id, upd).value.0.availabilities| == |db.availabilities| + 5
    ensures forall d :: d in DefaultDays ==> HasDefaultRowOn(UpdateUsuario(db, id, upd).value.0.availabilities, id, d)
  {
    var i := UserRepository.IndexOfId(db.users, id).value;
    assert db.users[i] == UserRepository.FindById(db.users, id).value;
    assert ParseRole(Text.ToUpper(upd.role.value.value)) == Some(Estilista);
    var (v, promoted) := ApplyFields(db.users[i], upd).value;
    assert promoted;
    var saved := db.(users := db.users[i := v]);
    assert UpdateUsuario(db, id, upd) == Ok((CreateDefaultAvailabilities(saved, id), v));
    UserRepository.FindAfterWrite(db.users, id, i, v);
    DefaultWeekProvisioned(saved, id);
  }

  /** `toggleUserActive`: flips the flag and nothing else. */
  function ToggleUserActive(db: Db, id: UserId): (r: Result<(Db, User), Error>)
    ensures r.Err? <==> UserRepository.FindById(db.users, id).None?
    ensures r.Err? ==> r.error == NotFound("User")
    ensures r.Ok? ==>
      var i := UserRepository.IndexOfId(db.users, id).value;
      && UserRepository.IndexOfId(db.users, id).Some?
      && r.value.1 == db.users[i].(active := !db.users[i].active)
      && r.value.0 == db.(users := db.users[i := r.value.1])
  {
    match UserRepository.IndexOfId(db.users, id)
    case None => Err(NotFound("User"))
    case Some(i) =>
      var u := db.users[i].(active := !db.users[i].active);
      Ok((db.(users := db.users[i := u]), u))
  }

  /** Toggling twice restores the store. */
  lemma ToggleTwiceRestores(db: Db, id: UserId)
    requires ToggleUserActive(db, id).Ok?
    ensures ToggleUserActive(ToggleUserActive(db, id).value.0, id).Ok?
    ensures ToggleUserActive(ToggleUserActive(db, id).value.0, id).value.0 == db
  {
    var i := UserRepository.IndexOfId(db.users, id).value;
    var db1 := ToggleUserActive(db, id).value.0;
    assert db1.users[i].id == id;
    assert UserRepository.IndexOfId(db1.users, id) == Some(i);
    assert db1.users[i := db1.users[i].(active := !db1.users[i].active)] == db.users;
  }

  /** The keys of a `PUT /usuarios/me` body. */
  datatype ProfileUpdate = ProfileUpdate(name: Option<string>, password: Option<string>, currentPassword: Option<string>)

  const MsgWrongCurrentPassword := "La contraseña actual es incorrecta"

  /** `updateProfile`: a new password is refused when the current one is
      given and does not match; without it the password changes
      unchecked. */
  function UpdateProfile(db: Db, principal: Option<string>, upd: ProfileUpdate): (r: Result<(Db, User), Error>)
    ensures principal.None? ==> r == Err(Unauthorized(""))
    ensures principal.Some? && UserRepository.FindByUsernameOrEmail(db.users, principal.value) == Ok(None)
      ==> r == Err(NotFound("User"))
    ensures principal.Some? && UserRepository.FindByUsernameOrEmail(db.users, principal.value).Ok?
      && UserRepository.FindByUsernameOrEmail(db.users, principal.value).value.Some?
      && upd.password.Some? && upd.currentPassword.Some?
      && upd.currentPassword.value != UserRepository.FindByUsernameOrEmail(db.users, principal.value).value.value.password
      ==> r == Err(Unauthorized(MsgWrongCurrentPassword))
    ensures r.Ok? ==>
      && principal.Some?
      && UserRepository.FindByUsernameOrEmail(db.users, principal.value).Ok?
      && UserRepository.FindByUsernameOrEmail(db.users, principal.value).value.Some?
      && var u := UserRepository.FindByUsernameOrEmail(db.users, principal.value).value.value;
         var (db', v) := r.value;
         && v == u.(name := v.name, password := v.password)
         && v.name == (if upd.name.Some? then upd.name.value else u.name)
         && v.password == (if upd.password.Some? then upd.password.value else u.password)
         && (upd.password.Some? && upd.currentPassword.Some? ==> upd.currentPassword.value == u.password)
         && UserRepository.IndexOfId(db.users, u.id).Some?
         && db' == db.(users := db.users[UserRepository.IndexOfId(db.users, u.id).value := v])
    ensures principal.Some? && UserRepository.FindByUsernameOrEmail(db.users, principal.value).Err?
      ==> r == Err(UserRepository.FindByUsernameOrEmail(db.users, principal.value).error)
    ensures r.Ok? <==>
      && principal.Some?
      && UserRepository.FindByUsernameOrEmail(db.users, principal.value).Ok?
      && UserRepository.FindByUsernameOrEmail(db.users, principal.value).value.Some?
      && !(upd.password.Some? && upd.currentPassword.Some?
           && upd.currentPassword.value != UserRepository.FindByUsernameOrEmail(db.users, principal.value).value.value.password)
  {
    if principal.None? then Err(Unauthorized(""))
    else
      var found :- UserRepository.FindByUsernameOrEmail(db.users, principal.value);
      if found.None? then Err(NotFound("User"))
      else
        var u := found.value;
        var named := if upd.name.Some? then u.(name := upd.name.value) else u;
        if upd.password.Some? && upd.currentPassword.Some? && upd.currentPassword.value != u.password then
          Err(Unauthorized(MsgWrongCurrentPassword))
        else
          var v := if upd.password.Some? then named.(password := upd.password.value) else named;
          Ok((db.(users := db.users[UserRepository.IndexOfId(db.users, u.id).value := v]), v))
  }

  /** Overwriting the only account an identifier names with one it still
      names leaves that one as the only match. */
  lemma OnlyMatchAfterOverwrite(users: seq<User>, i: nat, v: User, identifier: string)
    requires i < |users| && UserRepository.Identifies(v, identifier)
    requires forall a, b :: 0 <= a < b < |users| ==> users[a].id != users[b].id
    requires forall w :: w in users && UserRepository.Identifies(w, identifier) ==> w == users[i]
    ensures forall w :: w in users[i := v] && UserRepository.Identifies(w, identifier) ==> w == v
  {
    forall w | w in users[i := v] && UserRepository.Identifies(w, identifier)
      ensures w == v
    {
      var k :| 0 <= k < |users| && users[i := v][k] == w;
    }
  }

  /** A profile update leaves the caller's username and e-mail alone, so
      the same principal still finds exactly the updated account. */
  lemma ProfileUpdateKeepsCallerFound(db: Db, principal: Option<string>, upd: ProfileUpdate)
    requires db.Valid()
    requires UpdateProfile(db, principal, upd).Ok?
    ensures var (db', v) := UpdateProfile(db, principal, upd).value;
      UserRepository.FindByUsernameOrEmail(db'.users, principal.value) == Ok(Some(v))
  {
    var (db', v) := UpdateProfile(db, principal, upd).value;
    var p := principal.value;
    var u := UserRepository.FindByUsernameOrEmail(db.users, p).value.value;
    var i := UserRepository.IndexOfId(db.users, u.id).value;
    var j :| 0 <= j < |db.users| && db.users[j] == u;
    assert i == j;
    assert db'.users == db.users[i := v];
    assert UserRepository.Identifies(v, p);
    assert |UserRepository.Matches(db.users, p)| == 1;
    Seqs.FilterUpdateLength(db.users, i, v, (w: User) => UserRepository.Identifies(w, p));
    assert |UserRepository.Matches(db'.users, p)| == 1;
    OnlyMatchAfterOverwrite(db.users, i, v, p);
  }
}
