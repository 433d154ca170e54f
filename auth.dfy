/** Authentication: credential check, token expiry, the active-user and teacher gates that
    guard the endpoints, registration and login. Password hashing and verification and the
    JWT encoding are inputs: `verify(plain, hash)`, `hash(plain)` and `encode(claims)`. */
module Auth {
  import opened Common
  import opened Entities
  import opened Store
  import opened UserSchema
  import Config
  import Users

  function UsernameIs(name: string): User -> bool
  {
    (u: User) => u.username == name
  }

  /** `db.query(User).filter(User.username == name).first()`. */
  function UserByName(users: seq<User>, name: string): (r: Option<User>)
    ensures r.Some? ==> r.value in users && r.value.username == name
    ensures r.None? <==> forall i :: 0 <= i < |users| ==> users[i].username != name
  {
    FirstWhere(users, UsernameIs(name))
  }

  function EmailIs(email: string): User -> bool
  {
    (u: User) => u.email == Some(email)
  }

  function UserByEmail(users: seq<User>, email: string): (r: Option<User>)
    ensures r.Some? ==> r.value in users && r.value.email == Some(email)
    ensures r.None? <==> forall i :: 0 <= i < |users| ==> users[i].email != Some(email)
  {
    FirstWhere(users, EmailIs(email))
  }

  /** `authenticate_user`: the first user with that name, when the password verifies
      against its stored hash. */
  function Authenticate(users: seq<User>, name: string, password: string, verify: (string, string) -> bool): (r: Option<User>)
    ensures r.Some? ==> r.value in users && r.value.username == name && verify(password, r.value.passwordHash)
    ensures r.None? <==> (forall i :: 0 <= i < |users| ==> users[i].username != name) ||
                         !verify(password, UserByName(users, name).value.passwordHash)
  {
    var user := UserByName(users, name);
    if user.None? || !verify(password, user.value.passwordHash) then None else user
  }

  /** `create_access_token`'s `exp`: a zero delta is falsy in Python and so falls back to the
      default, like an absent one. Durations are in seconds. */
  function TokenExpiry(now: int, delta: Option<int>): (exp: int)
    ensures delta.Some? && delta.value != 0 ==> exp == now + delta.value
    ensures delta.None? || delta.value == 0 ==> exp == now + 30 * 60
  {
    if delta.Some? && delta.value != 0 then now + delta.value
    else now + Config.AccessTokenExpireMinutes * Minute
  }

  /** `get_current_active_user`. */
  function ActiveGate(u: User): (r: Result<User>)
    ensures r.Ok? <==> u.isActive
    ensures r.Ok? ==> r.value == u
    ensures r.Err? ==> r.error == InactiveUser
  {
    if !u.isActive then Err(InactiveUser) else Ok(u)
  }

  /** `get_current_teacher`: the active check runs first, so an inactive teacher gets 400 and
      an active non-teacher gets 403. */
  function TeacherGate(u: User): (r: Result<User>)
    ensures r.Ok? <==> u.isActive && u.role == Teacher
    ensures r.Ok? ==> r.value == u
    ensures !u.isActive ==> r == Err(InactiveUser)
    ensures u.isActive && u.role != Teacher ==> r == Err(NotEnoughPermissions)
  {
    match ActiveGate(u)
    case Err(e) => Err(e)
    case Ok(user) => if user.role != Teacher then Err(NotEnoughPermissions) else Ok(user)
  }

  /** The JWT claims `login_for_access_token` signs. */
  datatype Claims = Claims(sub: string, role: Role, exp: int)

  function Login(users: seq<User>, name: string, password: string, now: int,
                 verify: (string, string) -> bool, encode: Claims -> string): (r: Result<Token>)
    ensures r.Err? <==> Authenticate(users, name, password, verify).None?
    ensures r.Err? ==> r.error == BadCredentials
    ensures r.Ok? ==>
              var u := Authenticate(users, name, password, verify).value;
              r.value == Token(encode(Claims(u.username, u.role, now + 30 * 60)), "bearer")
  {
    match Authenticate(users, name, password, verify)
    case None => Err(BadCredentials)
    case Some(u) =>
      var exp := TokenExpiry(now, Some(Config.AccessTokenExpireMinutes * Minute));
      Ok(BearerToken(encode(Claims(u.username, u.role, exp))))
  }

  /** The refusals of `register`, in order: body validation, a taken username, and a taken
      email, which is looked at only when one is given. */
  function RegisterRefusal(users: seq<User>, req: UserCreate): (r: Option<Error>)
    ensures r == Some(ValidationFailed) <==> !ValidCreate(req)
    ensures r == Some(UsernameRegistered) <==> ValidCreate(req) && exists i :: 0 <= i < |users| && users[i].username == req.username
    ensures r == Some(EmailRegistered) <==>
              ValidCreate(req) && (forall i :: 0 <= i < |users| ==> users[i].username != req.username) &&
              Truthy(req.email) && exists i :: 0 <= i < |users| && users[i].email == req.email
    ensures r.None? <==>
              ValidCreate(req) && (forall i :: 0 <= i < |users| ==> users[i].username != req.username) &&
              (Truthy(req.email) ==> forall i :: 0 <= i < |users| ==> users[i].email != req.email)
  {
    if !ValidCreate(req) then Some(ValidationFailed)
    else if UserByName(users, req.username).Some? then Some(UsernameRegistered)
    else if Truthy(req.email) && UserByEmail(users, req.email.value).Some? then Some(EmailRegistered)
    else None
  }

  method Register(db: Db, req: UserCreate, hash: string -> string) returns (r: Result<User>)
    requires db.Valid()
    modifies db
    ensures db.Valid()
    ensures db.textbooks == old(db.textbooks) && db.students == old(db.students) && db.transactions == old(db.transactions) &&
            db.damageReports == old(db.damageReports) && db.foundReports == old(db.foundReports)
    ensures r.Err? <==> RegisterRefusal(old(db.users), req).Some?
    ensures r.Err? ==> r.error == RegisterRefusal(old(db.users), req).value && db.users == old(db.users)
    ensures r.Ok? ==>
              r.value == User(|old(db.users)| + 1, req.username, req.email, hash(req.password), req.role, true, req.studentId) &&
              db.users == old(db.users) + [r.value]
  {
    var refusal := RegisterRefusal(db.users, req);
    if refusal.Some? {
      return Err(refusal.value);
    }
    var u := User(|db.users| + 1, req.username, req.email, hash(req.password), req.role, true, req.studentId);
    db.AddUser(u);
    return Ok(u);
  }

  /** A registration that succeeds keeps usernames unique when they were unique before,
      and keeps non-null emails unique too when the new email is absent or non-empty (the
      format check that refuses an empty email is not modelled). */
  lemma RegisterKeepsKeysUnique(users: seq<User>, req: UserCreate, u: User)
    requires forall i, j :: 0 <= i < j < |users| ==> users[i].username != users[j].username
    requires RegisterRefusal(users, req).None? && u.username == req.username && u.email == req.email
    ensures forall i, j :: 0 <= i < j < |users + [u]| ==> (users + [u])[i].username != (users + [u])[j].username
    ensures Users.KeysUnique(users) && (req.email.None? || Truthy(req.email)) ==> Users.KeysUnique(users + [u])
  {
    var after := users + [u];
    if Users.KeysUnique(users) && (req.email.None? || Truthy(req.email)) {
      forall i, j | 0 <= i < j < |after|
        ensures after[i].username != after[j].username && (after[i].email.Some? ==> after[i].email != after[j].email)
      {
        assert after[i] == users[i];
        if j < |users| {
          assert after[j] == users[j];
        }
      }
    }
  }
}
