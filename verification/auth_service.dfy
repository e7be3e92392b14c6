/** Self-registration, login, and the find-or-create of client accounts
    behind public bookings.  Passwords are stored and compared as given; the
    credential check itself belongs to the security framework and enters as
    a parameter. */
module AuthService {
  import opened Wrappers
  import opened Entities
  import opened Errors
  import opened Store
  import opened Text
  import UserRepository
  import JwtUtil
  import Seqs

  datatype RegisterRequest = RegisterRequest(
    name: string,
    username: Option<string>,
    email: Option<string>,
    password: string,
    phone: Option<string>)

  datatype AuthResponse = AuthResponse(
    token: JwtUtil.Claims,
    tokenType: string,
    userId: UserId,
    name: string,
    email: string,
    role: Role)

  /** What the authentication manager answers for a user's identifier and
      the given password. */
  datatype Authentication = Accepted | BadCredentials | OtherFailure

  /** A non-null value that is not blank after `trim()`. */
  predicate Supplied(s: Option<string>) {
    s.Some? && Trim(s.value) != []
  }

  /** The username derived from an e-mail: trimmed and lower-cased. */
  function UsernameFromEmail(email: string): string {
    ToLower(Trim(email))
  }

  /** The token subject: the username when there is one, else the e-mail. */
  function TokenSubject(u: User): string {
    if u.username.Some? then u.username.value else u.email.GetOr("")
  }

  /** The response both `register` and `login` build for a user. */
  function ResponseFor(u: User): (r: AuthResponse)
    ensures r.userId == u.id && r.role == u.role && r.tokenType == "Bearer"
    ensures r.token.subject == TokenSubject(u) && r.token.userId == u.id
    ensures r.token.roles == [JwtUtil.Authority(RoleName(u.role))]
  {
    AuthResponse(
      JwtUtil.GenerateToken(TokenSubject(u), u.id, [JwtUtil.Authority(RoleName(u.role))]),
      "Bearer", u.id, u.name, u.email.GetOr(""), u.role)
  }

  /** The stored user clashes with `u` on a unique column. */
  predicate Collides(users: seq<User>, u: User) {
    exists v :: v in users && ((u.username.Some? && v.username == u.username) || (u.email.Some? && v.email == u.email))
  }

  /** `save` of a new user: the key comes from the identity column, and a
      duplicate username or e-mail breaks a unique constraint. */
  function SaveNewUser(db: Db, u: User): (r: Result<(Db, User), Error>)
    ensures r.Err? <==> Collides(db.users, u)
    ensures r.Err? ==> r.error.Internal?
    ensures r.Ok? ==> r.value.1 == u.(id := db.nextUserId)
    ensures r.Ok? ==> r.value.0 == db.(users := db.users + [r.value.1], nextUserId := db.nextUserId + 1)
    ensures r.Ok? && db.Valid() ==> r.value.0.Valid()
  {
    if Collides(db.users, u) then Err(Internal("Duplicate entry"))
    else
      var saved := u.(id := db.nextUserId);
      Ok((db.(users := db.users + [saved], nextUserId := db.nextUserId + 1), saved))
  }

  /** The account `register` builds: an active client named by the
      supplied username, or else by the e-mail. */
  function NewAccount(req: RegisterRequest): (u: User)
    ensures u.role == Cliente && u.active && u.name == req.name && u.email == req.email
    ensures u.password == req.password && u.phone == req.phone
    ensures Supplied(req.username) ==> u.username == req.username
    ensures !Supplied(req.username) ==> u.username == Some(UsernameFromEmail(req.email.GetOr("")))
  {
    var username := if Supplied(req.username) then req.username.value else UsernameFromEmail(req.email.GetOr(""));
    User(0, req.name, Some(username), req.email, req.password, Cliente, true, req.phone, [])
  }

  /** `register`: a blank e-mail is refused, then a taken e-mail, then a
      supplied but taken username; the account is always an active client,
      named by the supplied username or else by the e-mail. */
  function Register(db: Db, req: RegisterRequest): (r: Result<(Db, AuthResponse), Error>)
    ensures !Supplied(req.email) ==> r == Err(BadRequest(MsgEmailRequired))
    ensures Supplied(req.email) && UserRepository.ExistsByEmail(db.users, req.email.value)
      ==> r == Err(Conflict(MsgEmailTaken))
    ensures Supplied(req.email) && !UserRepository.ExistsByEmail(db.users, req.email.value)
      && Supplied(req.username) && UserRepository.ExistsByUsername(db.users, req.username.value)
      ==> r == Err(Conflict(MsgUsernameTaken))
    ensures r.Ok? ==> |r.value.0.users| == |db.users| + 1
    ensures r.Ok? ==>
      var u := r.value.0.users[|db.users|];
      && r.value.0 == db.(users := db.users + [u], nextUserId := db.nextUserId + 1)
      && u.id == db.nextUserId && u.role == Cliente && u.active
      && u.name == req.name && u.email == req.email && u.password == req.password && u.phone == req.phone
      && u.username == Some(if Supplied(req.username) then req.username.value else UsernameFromEmail(req.email.value))
      && r.value.1 == ResponseFor(u)
    ensures r.Ok? <==>
      && Supplied(req.email)
      && !UserRepository.ExistsByEmail(db.users, req.email.value)
      && !(Supplied(req.username) && UserRepository.ExistsByUsername(db.users, req.username.value))
      && !Collides(db.users, NewAccount(req))
    ensures Supplied(req.email) && r.Err? && !r.error.Conflict? ==> r.error.Internal?
    ensures r.Ok? && db.Valid() ==> r.value.0.Valid()
  {
    if !Supplied(req.email) then Err(BadRequest(MsgEmailRequired))
    else
      var email := req.email.value;
      if UserRepository.ExistsByEmail(db.users, email) then Err(Conflict(MsgEmailTaken))
      else if Supplied(req.username) && UserRepository.ExistsByUsername(db.users, req.username.value) then
        Err(Conflict(MsgUsernameTaken))
      else
        var (db', saved) :- SaveNewUser(db, NewAccount(req));
        assert db'.users[|db.users|] == saved;
        Ok((db', ResponseFor(saved)))
  }

  /** The identifier handed to the authentication manager: the username,
      or the e-mail when the username is null or blank. */
  function AuthIdentifier(u: User): (id: Option<string>)
    ensures Supplied(u.username) ==> id == u.username
    ensures !Supplied(u.username) ==> id == u.email
  {
    if Supplied(u.username) then u.username else u.email
  }

  /** `login`: the user is looked up by username or e-mail and must be
      active before the credentials are checked; every failure is a 401. */
  function Login(db: Db, identifier: string, auth: Authentication): (r: Result<AuthResponse, Error>)
    ensures r.Err? ==> r.error.Unauthorized?
    ensures UserRepository.FindByUsernameOrEmail(db.users, identifier) == Ok(None)
      ==> r == Err(Unauthorized(MsgBadCredentials))
    ensures UserRepository.FindByUsernameOrEmail(db.users, identifier).Err?
      ==> r == Err(Unauthorized(MsgAuthFailed))
    ensures r.Ok? <==>
      && UserRepository.FindByUsernameOrEmail(db.users, identifier).Ok?
      && UserRepository.FindByUsernameOrEmail(db.users, identifier).value.Some?
      && UserRepository.FindByUsernameOrEmail(db.users, identifier).value.value.active
      && auth == Accepted
    ensures r.Ok? ==> r.value == ResponseFor(UserRepository.FindByUsernameOrEmail(db.users, identifier).value.value)
  {
    match UserRepository.FindByUsernameOrEmail(db.users, identifier)
    case Err(_) => Err(Unauthorized(MsgAuthFailed))
    case Ok(None) => Err(Unauthorized(MsgBadCredentials))
    case Ok(Some(u)) =>
      if !u.active then Err(Unauthorized(MsgInactive))
      else match auth
        case Accepted => Ok(ResponseFor(u))
        case BadCredentials => Err(Unauthorized(MsgBadCredentials))
        case OtherFailure => Err(Unauthorized(MsgAuthFailed))
  }

  /** An account just registered can log in with its username, and the
      login answers exactly what the registration did, unless the username
      also names another account. */
  lemma RegisterThenLogin(db: Db, req: RegisterRequest)
    requires Register(db, req).Ok?
    requires var u := Register(db, req).value.0.users[|db.users|];
      forall v :: v in db.users ==> !UserRepository.Identifies(v, u.username.value)
    ensures var (db', resp) := Register(db, req).value;
      Login(db', resp.token.subject, Accepted) == Ok(resp)
  {
    var (db', resp) := Register(db, req).value;
    var u := db'.users[|db.users|];
    var name := u.username.value;
    assert resp.token.subject == name;
    var found := UserRepository.FindByUsernameOrEmail(db'.users, name);
    assert UserRepository.Identifies(u, name);
    assert u in db'.users;
    assert found.Ok? && found.value.Some? ==> found.value.value == u by {
      if found.Ok? && found.value.Some? {
        var w := found.value.value;
        assert w in db.users || w == u;
      }
    }
    assert found != Ok(None);
    var matches := Seqs.Filter(db'.users, (v: User) => UserRepository.Identifies(v, name));
    Seqs.FilterAppend(db.users, [u], (v: User) => UserRepository.Identifies(v, name));
    Seqs.FilterNone(db.users, (v: User) => UserRepository.Identifies(v, name));
    assert matches == [u];
  }

  /** The existing client `u`, at position `i`, with a non-null argument
      that differs from the stored value written over it. */
  function RefreshClient(db: Db, i: nat, name: Option<string>, phone: Option<string>): (r: (Db, User))
    requires i < |db.users|
    ensures var u := db.users[i];
      && r.1 == u.(name := if name.Some? then name.value else u.name,
                   phone := if phone.Some? then phone else u.phone)
      && r.0 == db.(users := db.users[i := r.1])
  {
    var u := db.users[i];
    var u1 := if name.Some? && name.value != u.name then u.(name := name.value) else u;
    var u2 := if phone.Some? && phone != u.phone then u1.(phone := phone) else u1;
    (db.(users := db.users[i := u2]), u2)
  }

  /** The user a find-or-create builds when no account has the e-mail: a
      login (the derived username and the given password) only when a
      non-blank password is supplied, a random password otherwise. */
  function NewClient(name: string, email: string, phone: Option<string>, password: Option<string>, randomPassword: string)
    : (u: User)
    ensures u.role == Cliente && u.active && u.email == Some(email) && u.phone == phone && u.name == name
    ensures Supplied(password) <==> u.username.Some?
    ensures Supplied(password) ==> u.username == Some(UsernameFromEmail(email)) && u.password == password.value
    ensures !Supplied(password) ==> u.password == randomPassword
  {
    var login := Supplied(password);
    User(0, name, if login then Some(UsernameFromEmail(email)) else None, Some(email),
         if login then password.value else randomPassword, Cliente, true, phone, [])
  }

  /** `findOrCreateClientUser`: an existing client is refreshed, an
      existing account of another role is a conflict, and otherwise a new
      client is created; a null name breaks the column's not-null
      constraint. */
  function FindOrCreateClientUser(
    db: Db, name: Option<string>, email: string, phone: Option<string>, password: Option<string>, randomPassword: string)
    : (r: Result<(Db, User), Error>)
    ensures var i := UserRepository.IndexOfEmail(db.users, email);
      i.Some? && db.users[i.value].role != Cliente ==> r == Err(Conflict(MsgEmailOtherAccount))
    ensures var i := UserRepository.IndexOfEmail(db.users, email);
      i.Some? && db.users[i.value].role == Cliente ==> r == Ok(RefreshClient(db, i.value, name, phone))
    ensures UserRepository.IndexOfEmail(db.users, email).None? && r.Ok? ==>
      && name.Some?
      && r.value.1 == NewClient(name.value, email, phone, password, randomPassword).(id := db.nextUserId)
      && r.value.0 == db.(users := db.users + [r.value.1], nextUserId := db.nextUserId + 1)
    ensures UserRepository.IndexOfEmail(db.users, email).None? && name.None? ==> r.Err? && r.error.Internal?
    ensures UserRepository.IndexOfEmail(db.users, email).None? && name.Some? ==>
      (r.Ok? <==> !Collides(db.users, NewClient(name.value, email, phone, password, randomPassword)))
    ensures r.Ok? ==> r.value.1.role == Cliente && r.value.1.email == Some(email)
  {
    match UserRepository.IndexOfEmail(db.users, email)
    case Some(i) =>
      if db.users[i].role != Cliente then Err(Conflict(MsgEmailOtherAccount))
      else Ok(RefreshClient(db, i, name, phone))
    case None =>
      if name.None? then Err(Internal("Column 'name' cannot be null"))
      else SaveNewUser(db, NewClient(name.value, email, phone, password, randomPassword))
  }

  /** `findOrCreateClientUserWithResult`: the same account, and whether it
      was created by this call. */
  function FindOrCreateClientUserWithResult(
    db: Db, name: Option<string>, email: string, phone: Option<string>, password: Option<string>, randomPassword: string)
    : (r: Result<(Db, User, bool), Error>)
    ensures r.Ok? ==> (r.value.2 <==> forall u :: u in db.users ==> u.email != Some(email))
    ensures r.Err? <==> FindOrCreateClientUser(db, name, email, phone, password, randomPassword).Err?
    ensures r.Ok? ==>
      (r.value.0, r.value.1) == FindOrCreateClientUser(db, name, email, phone, password, randomPassword).value
  {
    match UserRepository.IndexOfEmail(db.users, email)
    case Some(i) =>
      if db.users[i].role != Cliente then Err(Conflict(MsgEmailOtherAccount))
      else
        var (db', u) := RefreshClient(db, i, name, phone);
        Ok((db', u, false))
    case None =>
      var (db', u) :- FindOrCreateClientUser(db, name, email, phone, password, randomPassword);
      Ok((db', u, true))
  }

  /** Refreshing an existing client a second time with the same arguments
      changes nothing. */
  lemma RefreshTwice(db: Db, i: nat, name: Option<string>, phone: Option<string>)
    requires i < |db.users|
    ensures var (db1, u1) := RefreshClient(db, i, name, phone);
      RefreshClient(db1, i, name, phone) == (db1, u1)
  {
    var (db1, u1) := RefreshClient(db, i, name, phone);
    assert db1.users[i] == u1;
    assert db1.users[i := u1] == db1.users;
  }

  /** The first e-mail match stays where it is when that user is rewritten
      with the same e-mail. */
  lemma IndexOfEmailAfterWrite(users: seq<User>, email: string, i: nat, u: User)
    requires UserRepository.IndexOfEmail(users, email) == Some(i)
    requires u.email == users[i].email
    ensures UserRepository.IndexOfEmail(users[i := u], email) == Some(i)
  {
    var s := users[i := u];
    var j := UserRepository.IndexOfEmail(s, email);
    assert UserRepository.HasEmail(s[i], email);
    assert j.Some?;
  }

  /** A user appended with an e-mail nobody had is that e-mail's first match. */
  lemma IndexOfEmailAfterAppend(users: seq<User>, email: string, u: User)
    requires UserRepository.IndexOfEmail(users, email).None?
    requires u.email == Some(email)
    ensures UserRepository.IndexOfEmail(users + [u], email) == Some(|users|)
  {
    var s := users + [u];
    var j := UserRepository.IndexOfEmail(s, email);
    assert UserRepository.HasEmail(s[|users|], email);
    assert j.Some?;
  }

  /** A second find-or-create with the same arguments finds the account the
      first one returned, reports it as not new and changes nothing. */
  lemma FindOrCreateIdempotent(
    db: Db, name: Option<string>, email: string, phone: Option<string>, password: Option<string>, randomPassword: string)
    requires FindOrCreateClientUserWithResult(db, name, email, phone, password, randomPassword).Ok?
    ensures var (db1, u1, _) := FindOrCreateClientUserWithResult(db, name, email, phone, password, randomPassword).value;
      FindOrCreateClientUserWithResult(db1, name, email, phone, password, randomPassword) == Ok((db1, u1, false))
  {
    var (db1, u1, created) := FindOrCreateClientUserWithResult(db, name, email, phone, password, randomPassword).value;
    match UserRepository.IndexOfEmail(db.users, email)
    case Some(i) =>
      IndexOfEmailAfterWrite(db.users, email, i, u1);
      RefreshTwice(db, i, name, phone);
    case None =>
      var n := |db.users|;
      IndexOfEmailAfterAppend(db.users, email, u1);
      RefreshTwice(db1, n, name, phone);
      assert db1.users[n] == u1;
      assert db1.users[n := u1] == db1.users;
  }
}
