/** Lookups on the `usuarios` table. */
module UserRepository {
  import opened Wrappers
  import opened Entities
  import opened Errors
  import Seqs

  /** `findById`: the user with key `id`, if any. */
  function FindById(users: seq<User>, id: UserId): (r: Option<User>)
    ensures r.Some? ==> r.value in users && r.value.id == id
    ensures r.None? <==> forall u :: u in users ==> u.id != id
    decreases |users|
  {
    if |users| == 0 then None
    else if users[0].id == id then Some(users[0])
    else FindById(users[1..], id)
  }

  /** Position of the first user whose key is `id`: where `save` writes
      the user `findById` returned. */
  function IndexOfId(users: seq<User>, id: UserId): (r: Option<nat>)
    ensures r.Some? ==> r.value < |users| && FindById(users, id) == Some(users[r.value])
    ensures r.Some? ==> forall k :: 0 <= k < r.value ==> users[k].id != id
    ensures r.None? <==> FindById(users, id).None?
    decreases |users|
  {
    if |users| == 0 then None
    else if users[0].id == id then Some(0)
    else
      match IndexOfId(users[1..], id)
      case None => None
      case Some(k) => Some(k + 1)
  }

  /** `save` over the first row with the key: `findById` then returns the
      saved user. */
  lemma {:induction false} FindAfterWrite(users: seq<User>, id: UserId, i: nat, v: User)
    requires i < |users| && v.id == id
    requires forall k :: 0 <= k < i ==> users[k].id != id
    ensures FindById(users[i := v], id) == Some(v)
    decreases i
  {
    if i > 0 {
      assert users[i := v][1..] == users[1..][i - 1 := v];
      FindAfterWrite(users[1..], id, i - 1, v);
    }
  }

  predicate HasEmail(u: User, email: string) {
    u.email == Some(email)
  }

  /** Position of the first user whose e-mail is exactly `email`. */
  function IndexOfEmail(users: seq<User>, email: string): (r: Option<nat>)
    ensures r.Some? ==> r.value < |users| && HasEmail(users[r.value], email)
    ensures r.Some? ==> forall k :: 0 <= k < r.value ==> !HasEmail(users[k], email)
    ensures r.None? <==> forall u :: u in users ==> !HasEmail(u, email)
  {
    Seqs.IndexWhere(users, (u: User) => HasEmail(u, email))
  }

  /** `findByEmail`: a user whose e-mail is exactly `email`. */
  function FindByEmail(users: seq<User>, email: string): (r: Option<User>)
    ensures r.Some? ==> r.value in users && r.value.email == Some(email)
    ensures r.None? <==> forall u :: u in users ==> u.email != Some(email)
  {
    match IndexOfEmail(users, email)
    case None => None
    case Some(i) => Some(users[i])
  }

  predicate ExistsByEmail(users: seq<User>, email: string) {
    exists u :: u in users && u.email == Some(email)
  }

  predicate ExistsByUsername(users: seq<User>, username: string) {
    exists u :: u in users && u.username == Some(username)
  }

  /** The user an identifier names: its username or its e-mail. */
  predicate Identifies(u: User, identifier: string) {
    u.username == Some(identifier) || u.email == Some(identifier)
  }

  /** The rows the query `username = ? OR email = ?` returns. */
  function Matches(users: seq<User>, identifier: string): seq<User> {
    Seqs.Filter(users, u => Identifies(u, identifier))
  }

  /** `findByUsernameOrEmail`: an `Optional` query, so a second match makes
      the query itself fail. */
  function FindByUsernameOrEmail(users: seq<User>, identifier: string): (r: Result<Option<User>, Error>)
    ensures r.Ok? && r.value.Some? ==>
      r.value.value in users && Identifies(r.value.value, identifier)
    ensures r.Ok? && r.value.None? <==> forall u :: u in users ==> !Identifies(u, identifier)
    ensures r.Ok? && r.value.Some? ==> forall u :: u in users && Identifies(u, identifier) ==> u == r.value.value
    ensures r.Ok? && r.value.Some? <==> |Matches(users, identifier)| == 1
  {
    var matches := Matches(users, identifier);
    if |matches| == 0 then Ok(None)
    else if |matches| == 1 then (assert matches[0] in matches; Ok(Some(matches[0])))
    else Err(Internal("query did not return a unique result"))
  }
}
