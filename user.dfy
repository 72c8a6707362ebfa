/**
 * The credential store of models/user.ts: user records in a process-wide map
 * keyed by email, with bcrypt hashing abstracted as a pair of functions.
 */
module Users {
  import opened Wrappers

  /** The `Role` enum; `RoleValue` gives the string each member stands for. */
  datatype Role = ADMIN | USER

  function RoleValue(r: Role): (v: string)
    ensures v != []
  {
    match r
    case ADMIN => "admin"
    case USER => "user"
  }

  /** Distinct roles carry distinct strings, so a role list of strings tells them apart. */
  lemma RoleValueInjective(a: Role, b: Role)
    ensures RoleValue(a) == RoleValue(b) <==> a == b
  {
  }

  /**
   * A stored user. `password` holds what the hash function returned, never the
   * submitted password; `refreshToken` is absent until a login sets it.
   */
  datatype User = User(id: int, email: string, password: string, role: Role, refreshToken: Option<string>)

  /**
   * bcrypt, seen from outside: `hash(password, rounds)` and `compare(password, hashed)`.
   * The salt is part of what `hash` hides.
   */
  datatype Hasher = Hasher(hash: (string, nat) -> string, compare: (string, string) -> bool)

  /** The work factor `createUser` passes to the hash. */
  const SaltRounds: nat := 10

  /** What bcrypt promises: a password matches every hash made from it. */
  ghost predicate Sound(h: Hasher)
  {
    forall p, n :: h.compare(p, h.hash(p, n))
  }

  /** bcrypt reads at most this many bytes of a password; the rest is ignored. */
  const MaxHashedBytes: nat := 72

  /** The length of a string in UTF-8, the encoding bcrypt hashes. */
  function Utf8Length(s: string): (n: nat)
    ensures |s| <= n <= 4 * |s|
    decreases |s|
  {
    if s == [] then 0
    else
      var c := s[0] as int;
      (if c < 0x80 then 1 else if c < 0x800 then 2 else if c < 0x1_0000 then 3 else 4) + Utf8Length(s[1..])
  }

  /**
   * Collision resistance, idealised, for the passwords bcrypt reads in full:
   * no other such password matches a hash. Longer passwords are cut at
   * 72 bytes, so two of them sharing those bytes match each other's hash.
   */
  ghost predicate Exact(h: Hasher)
  {
    forall p, q, n ::
      Utf8Length(p) <= MaxHashedBytes && Utf8Length(q) <= MaxHashedBytes && h.compare(q, h.hash(p, n)) ==> q == p
  }

  /** `validatePassword`: asks the hash's compare about the stored hash. */
  function ValidatePassword(h: Hasher, user: User, password: string): bool
  {
    h.compare(password, user.password)
  }

  /** The record `createUser` builds for a registration at clock value `now`. */
  function NewUser(h: Hasher, email: string, password: string, now: int): (u: User)
    ensures u.email == email && u.role == USER && u.refreshToken == None && u.id == now
    ensures u.password == h.hash(password, SaltRounds)
  {
    User(now, email, h.hash(password, SaltRounds), USER, None)
  }

  /** The password a user registered with validates against the record created. */
  lemma RegisteredPasswordValidates(h: Hasher, email: string, password: string, now: int)
    requires Sound(h)
    ensures ValidatePassword(h, NewUser(h, email, password, now), password)
  {
  }

  /** Under an exact hash, any other password is refused. */
  lemma OtherPasswordFails(h: Hasher, email: string, password: string, other: string, now: int)
    requires Exact(h)
    requires Utf8Length(password) <= MaxHashedBytes && Utf8Length(other) <= MaxHashedBytes
    requires other != password
    ensures !ValidatePassword(h, NewUser(h, email, password, now), other)
  {
  }

  /** A hash that, like bcrypt, reads only the first 72 characters of an ASCII password. */
  function TruncatingHasher(): Hasher
  {
    Hasher((p: string, n: nat) => if |p| <= 72 then p else p[..72],
           (q: string, hashed: string) => (if |q| <= 72 then q else q[..72]) == hashed)
  }

  /**
   * Why `Exact` is bounded: that hash is sound, yet of two 73-character
   * passwords sharing their first 72 characters, each validates against the
   * other's record (`authSchema` sets no maximum length).
   */
  lemma LongPasswordsCollide(email: string, now: int)
    ensures Sound(TruncatingHasher())
    ensures var h, p, q := TruncatingHasher(), seq(73, i => 'a'), seq(72, i => 'a') + "b";
      p != q && ValidatePassword(h, NewUser(h, email, p, now), q)
  {
    var p, q := seq(73, i => 'a'), seq(72, i => 'a') + "b";
    assert p[72] != q[72];
    assert p[..72] == q[..72];
  }

  /** The password length rule of `authSchema`. */
  const MinPasswordLength: nat := 6

  /** What valibot's `safeParse(authSchema, body)` reports, field by field, in field order. */
  datatype AuthIssue = InvalidEmail | PasswordTooShort

  /** The issues for a body `{email, password}`; `isEmail` is valibot's email format check. */
  function AuthSchemaIssues(email: string, password: string, isEmail: string -> bool): seq<AuthIssue>
  {
    (if isEmail(email) then [] else [InvalidEmail])
    + (if |password| >= MinPasswordLength then [] else [PasswordTooShort])
  }

  /** The schema accepts exactly well-formed emails with passwords of at least six characters. */
  lemma AuthSchemaAccepts(email: string, password: string, isEmail: string -> bool)
    ensures AuthSchemaIssues(email, password, isEmail) == [] <==> isEmail(email) && |password| >= 6
    ensures PasswordTooShort in AuthSchemaIssues(email, password, isEmail) <==> |password| < 6
  {
  }

  /** The store; `users` is the module-level `Map<string, User>`. */
  class UserStore {
    var users: map<string, User>

    /** Every record sits under its own email. */
    ghost predicate Valid()
      reads this
    {
      forall e :: e in users ==> users[e].email == e
    }

    /** No operation of the store creates an administrator. */
    ghost predicate OnlyUsers()
      reads this
    {
      forall e :: e in users ==> users[e].role == USER
    }

    constructor ()
      ensures Valid() && OnlyUsers() && users == map[]
    {
      users := map[];
    }

    /**
     * `createUser`: stores a fresh USER record under `email`, overwriting any
     * record already there (there is no duplicate check); other emails keep theirs.
     */
    method CreateUser(h: Hasher, email: string, password: string, now: int) returns (u: User)
      modifies this
      ensures u == NewUser(h, email, password, now)
      ensures users == old(users)[email := u]
      ensures email in users && users[email] == u
      ensures forall e :: e != email ==> (e in users <==> e in old(users)) && (e in users ==> users[e] == old(users)[e])
      ensures old(Valid()) ==> Valid()
      ensures old(OnlyUsers()) ==> OnlyUsers()
    {
      var hashed := h.hash(password, SaltRounds);
      u := User(now, email, hashed, USER, None);
      users := users[email := u];
    }

    /** `findUserByEmail`: the record under `email`, or none when there is none. */
    method FindUserByEmail(email: string) returns (r: Option<User>)
      ensures r.None? <==> email !in users
      ensures r.Some? ==> r.value == users[email]
    {
      if email in users {
        r := Some(users[email]);
      } else {
        r := None;
      }
    }

    /**
     * `revokeUserToken`: false and no change for an unknown email; otherwise
     * clears the refresh token of that record and keeps the rest of it.
     */
    method RevokeUserToken(email: string) returns (ok: bool)
      modifies this
      ensures ok <==> email in old(users)
      ensures !ok ==> users == old(users)
      ensures ok ==> users == old(users)[email := old(users)[email].(refreshToken := None)]
      ensures ok ==> var u, w := users[email], old(users)[email];
                     u.refreshToken == None && u.id == w.id && u.email == w.email
                     && u.password == w.password && u.role == w.role
      ensures users.Keys == old(users).Keys
      ensures old(Valid()) ==> Valid()
      ensures old(OnlyUsers()) ==> OnlyUsers()
    {
      if email !in users {
        return false;
      }
      var found := users[email];
      users := users[email := found.(refreshToken := None)];
      ok := true;
    }

    /**
     * `user.refreshToken = refreshToken` in the login route, on the record
     * `findUserByEmail` returned: the stored record itself (the object is shared).
     */
    method SetRefreshToken(email: string, token: string)
      requires email in users
      modifies this
      ensures users == old(users)[email := old(users)[email].(refreshToken := Some(token))]
      ensures old(Valid()) ==> Valid()
      ensures old(OnlyUsers()) ==> OnlyUsers()
    {
      users := users[email := users[email].(refreshToken := Some(token))];
    }
  }

  /** Registration followed by login with the same password: the lookup finds the record and the password validates. */
  method RegisterThenLogin(store: UserStore, h: Hasher, email: string, password: string, now: int)
    returns (ok: bool)
    requires Sound(h)
    modifies store
    ensures ok
    ensures email in store.users && store.users[email].password == h.hash(password, SaltRounds)
  {
    var created := store.CreateUser(h, email, password, now);
    var found := store.FindUserByEmail(email);
    ok := ValidatePassword(h, found.value, password);
    RegisteredPasswordValidates(h, email, password, now);
  }
}
