/** The teacher-side user administration endpoints: the filtered listing, partial update,
    soft delete (never of oneself), activation, and the active-students and
    active-teachers listings.

    `username` and `email` are UNIQUE columns and `update_user` checks neither: an update
    that would repeat another row's value makes the commit fail, answered with a 500 and
    nothing written. SQLite lets any number of rows hold a NULL email. */
module Users {
  import opened Common
  import opened Entities
  import opened Store
  import opened UserSchema

  // ---------------------------------------------------------------------------
  // get_users

  /** A given role is always truthy (its values are non-empty strings), so each filter
      applies exactly when it is given. */
  function UserQuery(role: Option<Role>, isActive: Option<bool>): User -> bool
  {
    (u: User) => (role.Some? ==> u.role == role.value) && (isActive.Some? ==> u.isActive == isActive.value)
  }

  function ListUsers(users: seq<User>, role: Option<Role>, isActive: Option<bool>, skip: int, limit: int)
    : (r: Result<seq<User>>)
    ensures r.Err? <==> !ValidPage(skip, limit)
    ensures r.Err? ==> r.error == ValidationFailed
    ensures r.Ok? ==> |r.value| <= limit &&
                      forall i :: 0 <= i < |r.value| ==>
                        r.value[i] in users && (role.Some? ==> r.value[i].role == role.value) &&
                        (isActive.Some? ==> r.value[i].isActive == isActive.value)
  {
    if !ValidPage(skip, limit) then Err(ValidationFailed)
    else
      var matching := Filter(users, UserQuery(role, isActive));
      forall u | u in matching ensures u in users {
        FilterMembership(users, UserQuery(role, isActive), u);
      }
      Ok(Paginate(matching, skip, limit))
  }

  /** The listing is the `skip`-offset window of the matching rows in table order, and a row
      matches exactly when it passes both filters. */
  lemma ListUsersWindow(users: seq<User>, role: Option<Role>, isActive: Option<bool>, skip: nat, limit: nat)
    requires 1 <= limit <= 1000
    ensures var matching := Filter(users, UserQuery(role, isActive));
            ListUsers(users, role, isActive, skip, limit) == Ok(Paginate(matching, skip, limit)) &&
            forall u :: u in matching <==> u in users && (role.Some? ==> u.role == role.value) &&
                                           (isActive.Some? ==> u.isActive == isActive.value)
  {
    forall u ensures u in Filter(users, UserQuery(role, isActive)) <==>
                     u in users && (role.Some? ==> u.role == role.value) && (isActive.Some? ==> u.isActive == isActive.value) {
      FilterMembership(users, UserQuery(role, isActive), u);
    }
  }

  // ---------------------------------------------------------------------------
  // update_user

  /** The fields sent are written, the others kept; id, password hash and role never
      change. */
  function ApplyUpdate(u: User, up: UserUpdate): (r: User)
    ensures r.id == u.id && r.passwordHash == u.passwordHash && r.role == u.role
    ensures (up.username.Keep? ==> r.username == u.username) && (up.username.Put? ==> r.username == up.username.value)
    ensures (up.email.Keep? ==> r.email == u.email) && (up.email.Put? ==> r.email == up.email.value)
    ensures (up.isActive.Keep? ==> r.isActive == u.isActive) && (up.isActive.Put? ==> r.isActive == up.isActive.value)
    ensures (up.studentId.Keep? ==> r.studentId == u.studentId) && (up.studentId.Put? ==> r.studentId == up.studentId.value)
  {
    u.(username := Patched(up.username, u.username),
       email := Patched(up.email, u.email),
       isActive := Patched(up.isActive, u.isActive),
       studentId := Patched(up.studentId, u.studentId))
  }

  /** An update that sends nothing changes nothing. */
  lemma EmptyUpdate(u: User)
    ensures ApplyUpdate(u, UserUpdate(Keep, Keep, Keep, Keep)) == u
  {
  }

  /** No two rows share a username, nor a non-null email. */
  ghost predicate KeysUnique(users: seq<User>)
  {
    forall i, j :: 0 <= i < j < |users| ==>
      users[i].username != users[j].username && (users[i].email.Some? ==> users[i].email != users[j].email)
  }

  /** The UNIQUE constraints at the commit of row `k` rewritten as `r`. */
  predicate Clashes(users: seq<User>, k: nat, r: User)
  {
    exists j :: 0 <= j < |users| && j != k &&
                (users[j].username == r.username || (r.email.Some? && users[j].email == r.email))
  }

  /** On a table with unique keys, a rewrite keeps them unique exactly when it does not
      clash. */
  lemma ClashesMeaning(users: seq<User>, k: nat, r: User)
    requires KeysUnique(users) && k < |users|
    ensures !Clashes(users, k, r) <==> KeysUnique(users[k := r])
  {
    var after := users[k := r];
    if !Clashes(users, k, r) {
      forall i, j | 0 <= i < j < |after|
        ensures after[i].username != after[j].username && (after[i].email.Some? ==> after[i].email != after[j].email)
      {
        if i == k {
          assert users[j] == after[j];
        } else if j == k {
          assert users[i] == after[i];
        }
      }
    } else {
      var j :| 0 <= j < |users| && j != k && (users[j].username == r.username || (r.email.Some? && users[j].email == r.email));
      assert after[j] == users[j] && after[k] == r;
      if j < k {
        assert !(after[j].username != after[k].username && (after[j].email.Some? ==> after[j].email != after[k].email));
      } else {
        assert !(after[k].username != after[j].username && (after[k].email.Some? ==> after[k].email != after[j].email));
      }
    }
  }

  /** The body is validated first, then the user looked up, then the fields written and
      committed. */
  method UpdateUser(db: Db, id: int, up: UserUpdate) returns (r: Result<User>)
    requires db.Valid()
    modifies db
    ensures db.Valid()
    ensures db.textbooks == old(db.textbooks) && db.students == old(db.students) && db.transactions == old(db.transactions) &&
            db.damageReports == old(db.damageReports) && db.foundReports == old(db.foundReports)
    ensures !ValidUpdate(up) ==> r == Err(ValidationFailed)
    ensures ValidUpdate(up) && (forall i :: 0 <= i < |old(db.users)| ==> old(db.users)[i].id != id) ==>
              r == Err(UserNotFound)
    ensures r.Err? ==> db.users == old(db.users)
    ensures r.Ok? <==> ValidUpdate(up) && 1 <= id <= |old(db.users)| &&
                       !Clashes(old(db.users), id - 1, ApplyUpdate(old(db.users)[id - 1], up))
    ensures ValidUpdate(up) && 1 <= id <= |old(db.users)| && r.Err? ==> r.error == InternalError
    ensures r.Ok? ==> r.value == ApplyUpdate(old(db.users)[id - 1], up) &&
                      db.users == old(db.users)[id - 1 := r.value]
  {
    if !ValidUpdate(up) {
      return Err(ValidationFailed);
    }
    FindDense(db.users, UserId, id);
    var found := FindById(db.users, UserId, id);
    if found.None? {
      return Err(UserNotFound);
    }
    var i := found.value;
    var u := ApplyUpdate(db.users[i], up);
    if Clashes(db.users, i, u) {
      return Err(InternalError);
    }
    db.SetUser(i, u);
    return Ok(u);
  }

  // ---------------------------------------------------------------------------
  // delete_user and activate_user

  /** Deleting oneself is refused before any lookup; otherwise a soft delete. */
  method DeleteUser(db: Db, current: User, id: int) returns (r: Result<()>)
    requires db.Valid()
    modifies db
    ensures db.Valid()
    ensures db.textbooks == old(db.textbooks) && db.students == old(db.students) && db.transactions == old(db.transactions) &&
            db.damageReports == old(db.damageReports) && db.foundReports == old(db.foundReports)
    ensures id == current.id ==> r == Err(CannotDeleteYourself)
    ensures id != current.id && (forall i :: 0 <= i < |old(db.users)| ==> old(db.users)[i].id != id) ==>
              r == Err(UserNotFound)
    ensures r.Err? ==> db.users == old(db.users)
    ensures r.Ok? <==> id != current.id && 1 <= id <= |old(db.users)|
    ensures r.Ok? ==> db.users == old(db.users)[id - 1 := old(db.users)[id - 1].(isActive := false)]
  {
    if id == current.id {
      return Err(CannotDeleteYourself);
    }
    FindDense(db.users, UserId, id);
    var found := FindById(db.users, UserId, id);
    if found.None? {
      return Err(UserNotFound);
    }
    var i := found.value;
    db.SetUser(i, db.users[i].(isActive := false));
    return Ok(());
  }

  method ActivateUser(db: Db, id: int) returns (r: Result<()>)
    requires db.Valid()
    modifies db
    ensures db.Valid()
    ensures db.textbooks == old(db.textbooks) && db.students == old(db.students) && db.transactions == old(db.transactions) &&
            db.damageReports == old(db.damageReports) && db.foundReports == old(db.foundReports)
    ensures r.Err? <==> forall i :: 0 <= i < |old(db.users)| ==> old(db.users)[i].id != id
    ensures r.Err? ==> r.error == UserNotFound && db.users == old(db.users)
    ensures r.Ok? ==> 1 <= id <= |old(db.users)| &&
                      db.users == old(db.users)[id - 1 := old(db.users)[id - 1].(isActive := true)]
  {
    FindDense(db.users, UserId, id);
    var found := FindById(db.users, UserId, id);
    if found.None? {
      return Err(UserNotFound);
    }
    var i := found.value;
    db.SetUser(i, db.users[i].(isActive := true));
    return Ok(());
  }

  /** Deleting and then activating an active user gives back the table it started from, and
      neither step touches the keys. */
  lemma DeleteThenActivate(users: seq<User>, k: nat)
    requires k < |users| && users[k].isActive
    ensures var deleted := users[k := users[k].(isActive := false)];
            deleted[k := deleted[k].(isActive := true)] == users
    ensures KeysUnique(users) ==> KeysUnique(users[k := users[k].(isActive := false)])
  {
    var deleted := users[k := users[k].(isActive := false)];
    assert forall i :: 0 <= i < |users| ==> deleted[i].username == users[i].username && deleted[i].email == users[i].email;
  }

  // ---------------------------------------------------------------------------
  // get_student_users and get_teacher_users

  function ActiveWithRole(role: Role): User -> bool
  {
    (u: User) => u.role == role && u.isActive
  }

  function StudentUsers(users: seq<User>): seq<User>
  {
    Filter(users, ActiveWithRole(StudentRole))
  }

  function TeacherUsers(users: seq<User>): seq<User>
  {
    Filter(users, ActiveWithRole(Teacher))
  }

  function IsActiveUser(u: User): bool
  {
    u.isActive
  }

  /** Each listing holds exactly the active users of its role; no user is in both, and
      together they count every active user. */
  lemma RoleListingsMeaning(users: seq<User>, u: User)
    ensures u in StudentUsers(users) <==> u in users && u.role == StudentRole && u.isActive
    ensures u in TeacherUsers(users) <==> u in users && u.role == Teacher && u.isActive
    ensures !(u in StudentUsers(users) && u in TeacherUsers(users))
    ensures |StudentUsers(users)| + |TeacherUsers(users)| == Count(users, IsActiveUser)
  {
    FilterMembership(users, ActiveWithRole(StudentRole), u);
    FilterMembership(users, ActiveWithRole(Teacher), u);
    ActiveSplit(users);
  }

  lemma ActiveSplit(users: seq<User>)
    ensures |StudentUsers(users)| + |TeacherUsers(users)| == Count(users, IsActiveUser)
  {
    CountIsFilterLength(users, ActiveWithRole(StudentRole));
    CountIsFilterLength(users, ActiveWithRole(Teacher));
    CountDisjoint(users, ActiveWithRole(StudentRole), ActiveWithRole(Teacher), IsActiveUser);
  }
}
