/** The claims of the issued tokens and the stretching of the signing
    secret.  Signing, parsing and expiry are not modelled: a token is the
    claim set it carries. */
module JwtUtil {
  import opened Wrappers
  import opened Entities
  import opened Errors

  type Byte = bv8

  /** HS256 needs a key of at least 256 bits. */
  const MinKeyBytes: nat := 32

  /** The claims of a token: its subject, the `usuarioId` claim and the
      `roles` claim. */
  datatype Claims = Claims(subject: string, userId: UserId, roles: seq<string>)

  /** `generateToken(email, usuarioId, roles)`. */
  function GenerateToken(subject: string, userId: UserId, roles: seq<string>): Claims {
    Claims(subject, userId, roles)
  }

  const RolePrefix := "ROLE_"

  /** The authority string of a role. */
  function Authority(role: string): string {
    RolePrefix + role
  }

  /** `generateToken(email, usuarioId, rol)`: the one-role form prefixes the
      role with `ROLE_`. */
  function GenerateTokenForRole(subject: string, userId: UserId, role: string): (c: Claims)
    ensures |c.roles| == 1 && |c.roles[0]| >= |RolePrefix|
    ensures c.roles[0][..|RolePrefix|] == RolePrefix && c.roles[0][|RolePrefix|..] == role
    ensures c.subject == subject && c.userId == userId
  {
    GenerateToken(subject, userId, [Authority(role)])
  }

  /** The authority names the role it was built from: distinct roles give
      distinct claims. */
  lemma AuthorityInjective(a: string, b: string)
    ensures Authority(a) == Authority(b) ==> a == b
  {
    if Authority(a) == Authority(b) {
      assert a == Authority(a)[|RolePrefix|..];
    }
  }

  /** A one-role token passes a `hasRole` check, which looks for the
      prefixed authority, for its own role and for no other. */
  lemma RoleTokenGrantsOnlyItsRole(subject: string, userId: UserId, role: string, asked: string)
    ensures Authority(asked) in GenerateTokenForRole(subject, userId, role).roles <==> asked == role
  {
    AuthorityInjective(asked, role);
  }

  /** `getSigningKey`: a secret of at least 32 bytes is used as it is; a
      shorter one is repeated up to exactly 32 bytes, and an empty one fails
      on the remainder by zero. */
  method SigningKey(secret: seq<Byte>) returns (r: Result<seq<Byte>, Error>)
    ensures |secret| == 0 <==> r.Err?
    ensures |secret| >= MinKeyBytes ==> r == Ok(secret)
    ensures 0 < |secret| < MinKeyBytes ==>
      r.Ok? && |r.value| == MinKeyBytes
      && forall i :: 0 <= i < MinKeyBytes ==> r.value[i] == secret[i % |secret|]
  {
    if |secret| >= MinKeyBytes {
      return Ok(secret);
    }
    if |secret| == 0 {
      return Err(Internal("/ by zero"));
    }
    var expanded: seq<Byte> := [];
    var i := 0;
    while i < MinKeyBytes
      invariant 0 <= i <= MinKeyBytes
      invariant |expanded| == i
      invariant forall k :: 0 <= k < i ==> expanded[k] == secret[k % |secret|]
    {
      expanded := expanded + [secret[i % |secret|]];
      i := i + 1;
    }
    return Ok(expanded);
  }

  /** A stretched key begins with the secret and repeats with the secret's
      length as period. */
  lemma StretchedKeyRepeatsSecret(secret: seq<Byte>, key: seq<Byte>)
    requires 0 < |secret| < MinKeyBytes && |key| == MinKeyBytes
    requires forall i :: 0 <= i < MinKeyBytes ==> key[i] == secret[i % |secret|]
    ensures key[..|secret|] == secret
    ensures forall i :: 0 <= i && i + |secret| < MinKeyBytes ==> key[i + |secret|] == key[i]
  {
    var n := |secret|;
    forall i | 0 <= i < n
      ensures key[..n][i] == secret[i]
    {
      ModSmall(i, n);
    }
    forall i | 0 <= i && i + n < MinKeyBytes
      ensures key[i + n] == key[i]
    {
      ModShift(i, n);
    }
  }

  lemma ModSmall(i: nat, n: nat)
    requires i < n
    ensures i % n == i
  {
  }

  /** Adding the period does not change the remainder. */
  lemma ModShift(i: nat, n: nat)
    requires n > 0
    ensures (i + n) % n == i % n
  {
    var q, r := i / n, i % n;
    assert i == q * n + r;
    assert i + n == (q + 1) * n + r;
    RemainderUnique(i + n, n, q + 1, r);
  }

  /** Quotient and remainder are the only ones: a decomposition with a
      remainder in range is the Euclidean one. */
  lemma RemainderUnique(x: int, n: int, q: int, r: int)
    requires n > 0 && 0 <= r < n && x == q * n + r
    ensures x % n == r
  {
    var q', r' := x / n, x % n;
    assert x == q' * n + r';
    assert (q - q') * n == r' - r;
    MulSign(q - q', n);
  }

  /** A non-zero multiple of `n` is at least `n` away from zero. */
  lemma MulSign(a: int, n: int)
    requires n > 0
    ensures a >= 1 ==> a * n >= n
    ensures a <= -1 ==> a * n <= -n
  {
    if a >= 1 {
      assert a * n == (a - 1) * n + n;
    } else if a <= -1 {
      assert a * n == (a + 1) * n - n;
    }
  }
}
