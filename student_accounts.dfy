/** Student user accounts: create one for a student (at most one per student, usernames
    unique), create many (skipping items that would break a rule), link the messenger id,
    list active students with their accounts, and (de)activate an account. Password hashing
    is the parameter `hash`. */
module StudentAccounts {
  import opened Common
  import opened Entities
  import opened Store
  import opened StudentModel
  import opened Auth

  function LinkedTo(sid: int): User -> bool
  {
    (u: User) => u.studentId == Some(sid)
  }

  /** `db.query(User).filter(User.student_id == sid).first()`. */
  function AccountOf(users: seq<User>, sid: int): (r: Option<User>)
    ensures r.Some? ==> r.value in users && r.value.studentId == Some(sid)
    ensures r.None? <==> forall i :: 0 <= i < |users| ==> users[i].studentId != Some(sid)
  {
    FirstWhere(users, LinkedTo(sid))
  }

  /** Usernames are unique and no student has two accounts. */
  ghost predicate AccountsOk(users: seq<User>)
  {
    forall i, j :: 0 <= i < j < |users| ==>
      users[i].username != users[j].username &&
      (users[i].studentId.Some? ==> users[i].studentId != users[j].studentId)
  }

  /** The account a create writes: a STUDENT, active, linked to the student, no email. */
  function NewAccount(id: int, sid: int, username: string, password: string, hash: string -> string): User
  {
    User(id, username, None, hash(password), StudentRole, true, Some(sid))
  }

  // ---------------------------------------------------------------------------
  // create_student_account

  /** The refusals, in order: no such student, an inactive one, one that has an account,
      and a taken username. */
  function CreateRefusal(students: seq<Student>, users: seq<User>, sid: int, username: string): (r: Option<Error>)
    ensures r == Some(StudentNotFound) <==> forall i :: 0 <= i < |students| ==> students[i].id != sid
    ensures r == Some(StudentNotActive) <==> StudentById(students, sid).Some? && !StudentById(students, sid).value.isActive
    ensures r == Some(StudentHasAccount) <==>
              StudentById(students, sid).Some? && StudentById(students, sid).value.isActive &&
              exists i :: 0 <= i < |users| && users[i].studentId == Some(sid)
    ensures r == Some(UsernameTaken) <==>
              StudentById(students, sid).Some? && StudentById(students, sid).value.isActive &&
              AccountOf(users, sid).None? && exists i :: 0 <= i < |users| && users[i].username == username
    ensures r.None? <==>
              StudentById(students, sid).Some? && StudentById(students, sid).value.isActive &&
              AccountOf(users, sid).None? && UserByName(users, username).None?
  {
    match StudentById(students, sid)
    case None => Some(StudentNotFound)
    case Some(st) =>
      if !st.isActive then Some(StudentNotActive)
      else if AccountOf(users, sid).Some? then Some(StudentHasAccount)
      else if UserByName(users, username).Some? then Some(UsernameTaken)
      else None
  }

  method CreateStudentAccount(db: Db, sid: int, username: string, password: string, hash: string -> string)
    returns (r: Result<User>)
    requires db.Valid()
    modifies db
    ensures db.Valid()
    ensures db.textbooks == old(db.textbooks) && db.students == old(db.students) && db.transactions == old(db.transactions) &&
            db.damageReports == old(db.damageReports) && db.foundReports == old(db.foundReports)
    ensures r.Err? <==> CreateRefusal(db.students, old(db.users), sid, username).Some?
    ensures r.Err? ==> r.error == CreateRefusal(db.students, old(db.users), sid, username).value && db.users == old(db.users)
    ensures r.Ok? ==> r.value == NewAccount(|old(db.users)| + 1, sid, username, password, hash) &&
                      db.users == old(db.users) + [r.value]
  {
    var refusal := CreateRefusal(db.students, db.users, sid, username);
    if refusal.Some? {
      return Err(refusal.value);
    }
    var u := NewAccount(|db.users| + 1, sid, username, password, hash);
    db.AddUser(u);
    return Ok(u);
  }

  /** An account appended past both checks keeps usernames unique and one account per
      student. */
  lemma NewAccountKeepsAccountsOk(users: seq<User>, sid: int, username: string, password: string, hash: string -> string)
    requires AccountsOk(users) && AccountOf(users, sid).None? && UserByName(users, username).None?
    ensures AccountsOk(users + [NewAccount(|users| + 1, sid, username, password, hash)])
  {
    var after := users + [NewAccount(|users| + 1, sid, username, password, hash)];
    forall i, j | 0 <= i < j < |after|
      ensures after[i].username != after[j].username &&
              (after[i].studentId.Some? ==> after[i].studentId != after[j].studentId)
    {
      assert after[i] == users[i];
      if j < |users| {
        assert after[j] == users[j];
      }
    }
  }

  // ---------------------------------------------------------------------------
  // bulk_create_student_accounts

  /** One element of the list body, a free-form dict: a key may be missing. */
  datatype AccountItem = AccountItem(studentId: Option<int>, username: Option<string>, password: Option<string>)

  /** `all([student_id, username, password])`: each present and truthy. */
  predicate Complete(a: AccountItem)
  {
    a.studentId.Some? && a.studentId.value != 0 && Truthy(a.username) && Truthy(a.password)
  }

  /** What one item adds: nothing when it is incomplete or create would refuse it (the
      accounts added earlier in the batch included), otherwise one new account. */
  function BulkStep(students: seq<Student>, users: seq<User>, a: AccountItem, hash: string -> string): seq<User>
  {
    if !Complete(a) || CreateRefusal(students, users, a.studentId.value, a.username.value).Some? then []
    else [NewAccount(|users| + 1, a.studentId.value, a.username.value, a.password.value, hash)]
  }

  function BulkCreated(students: seq<Student>, users: seq<User>, items: seq<AccountItem>, hash: string -> string): seq<User>
    decreases |items|
  {
    if |items| == 0 then []
    else
      var step := BulkStep(students, users, items[0], hash);
      step + BulkCreated(students, users + step, items[1..], hash)
  }

  method CreateOne(db: Db, a: AccountItem, hash: string -> string) returns (step: seq<User>)
    requires db.Valid()
    modifies db
    ensures db.Valid()
    ensures db.textbooks == old(db.textbooks) && db.students == old(db.students) && db.transactions == old(db.transactions) &&
            db.damageReports == old(db.damageReports) && db.foundReports == old(db.foundReports)
    ensures step == BulkStep(db.students, old(db.users), a, hash) && db.users == old(db.users) + step
  {
    step := [];
    if !Complete(a) {
      return;
    }
    var sid := a.studentId.value;
    var student := StudentById(db.students, sid);
    if student.None? || !student.value.isActive {
      return;
    }
    if AccountOf(db.users, sid).Some? {
      return;
    }
    if UserByName(db.users, a.username.value).Some? {
      return;
    }
    var u := NewAccount(|db.users| + 1, sid, a.username.value, a.password.value, hash);
    db.AddUser(u);
    step := [u];
  }

  method BulkCreateStudentAccounts(db: Db, items: seq<AccountItem>, hash: string -> string) returns (created: seq<User>)
    requires db.Valid()
    modifies db
    ensures db.Valid()
    ensures db.textbooks == old(db.textbooks) && db.students == old(db.students) && db.transactions == old(db.transactions) &&
            db.damageReports == old(db.damageReports) && db.foundReports == old(db.foundReports)
    ensures created == BulkCreated(db.students, old(db.users), items, hash) && db.users == old(db.users) + created
  {
    ghost var users0 := db.users;
    created := [];
    var k := 0;
    while k < |items|
      invariant 0 <= k <= |items|
      invariant db.Valid()
      invariant db.textbooks == old(db.textbooks) && db.students == old(db.students) && db.transactions == old(db.transactions) &&
                db.damageReports == old(db.damageReports) && db.foundReports == old(db.foundReports)
      invariant db.users == users0 + created
      invariant BulkCreated(db.students, users0, items, hash) == created + BulkCreated(db.students, users0 + created, items[k..], hash)
    {
      var step := CreateOne(db, items[k], hash);
      BulkCreatedStep(db.students, users0, created, items, k, hash);
      created := created + step;
      k := k + 1;
    }
  }

  /** The loop's invariant carried over one item. */
  lemma BulkCreatedStep(students: seq<Student>, users0: seq<User>, created: seq<User>, items: seq<AccountItem>, k: nat,
                        hash: string -> string)
    requires k < |items|
    requires BulkCreated(students, users0, items, hash) == created + BulkCreated(students, users0 + created, items[k..], hash)
    ensures var step := BulkStep(students, users0 + created, items[k], hash);
            users0 + created + step == users0 + (created + step) &&
            BulkCreated(students, users0, items, hash) ==
              (created + step) + BulkCreated(students, users0 + (created + step), items[k + 1..], hash)
  {
    var step := BulkStep(students, users0 + created, items[k], hash);
    assert items[k..][0] == items[k] && items[k..][1..] == items[k + 1..];
    AppendAssoc(created, step, BulkCreated(students, users0 + created + step, items[k + 1..], hash));
    AppendAssoc(users0, created, step);
  }

  /** An active STUDENT account linked to an active student. */
  predicate LinkedAccount(students: seq<Student>, u: User)
  {
    u.role == StudentRole && u.isActive && u.studentId.Some? &&
    StudentById(students, u.studentId.value).Some? && StudentById(students, u.studentId.value).value.isActive
  }

  /** The account created from a complete item: `u` is the STUDENT account the item asks
      for, with the item's student, username and hashed password. */
  predicate MadeFrom(items: seq<AccountItem>, hash: string -> string, u: User)
  {
    exists i :: 0 <= i < |items| && Complete(items[i]) &&
                u == NewAccount(u.id, items[i].studentId.value, items[i].username.value, items[i].password.value, hash)
  }

  /** An earlier complete item that names neither the same student nor the same username
      cannot stand in the way of a later one. */
  predicate Apart(a: AccountItem, b: AccountItem)
  {
    Complete(a) ==> a.studentId != b.studentId && a.username != b.username
  }

  /** `r[m]` is the account created for item `b` at place `m` of a batch appended after `n`
      users. */
  predicate CreatedAt(r: seq<User>, n: int, m: int, b: AccountItem, hash: string -> string)
    requires Complete(b)
  {
    0 <= m < |r| && r[m] == NewAccount(n + m + 1, b.studentId.value, b.username.value, b.password.value, hash)
  }

  /** An item the single-account endpoint would accept on the table as it stood. */
  predicate Acceptable(students: seq<Student>, users: seq<User>, b: AccountItem)
  {
    Complete(b) && CreateRefusal(students, users, b.studentId.value, b.username.value).None?
  }

  /** The batch creates at most one account per item, each an active STUDENT account linked
      to an active student and made from a complete item (its student, its username, the
      hash of its password), and keeps usernames unique and one account per student. Every
      item the single-account endpoint would accept, with no complete item before it naming
      the same student or username, gets its account. */
  lemma BulkCreatedMeaning(students: seq<Student>, users: seq<User>, items: seq<AccountItem>, hash: string -> string)
    requires AccountsOk(users)
    ensures var r := BulkCreated(students, users, items, hash);
            |r| <= |items| &&
            (forall k :: 0 <= k < |r| ==> r[k].id == |users| + k + 1 && LinkedAccount(students, r[k]) &&
                                          MadeFrom(items, hash, r[k])) &&
            AccountsOk(users + r)
    ensures var r := BulkCreated(students, users, items, hash);
            forall k :: 0 <= k < |items| && Acceptable(students, users, items[k]) &&
                        (forall j :: 0 <= j < k ==> Apart(items[j], items[k])) ==>
                        exists m :: CreatedAt(r, |users|, m, items[k], hash)
  {
    var r := BulkCreated(students, users, items, hash);
    BulkCreatedIds(students, users, items, hash);
    BulkCreatedLinked(students, users, items, hash);
    BulkCreatedKeepsOk(students, users, items, hash);
    forall k | 0 <= k < |r| ensures LinkedAccount(students, r[k]) && MadeFrom(items, hash, r[k]) {
      assert r[k] in r;
    }
    forall k | 0 <= k < |items| && Acceptable(students, users, items[k]) &&
               (forall j :: 0 <= j < k ==> Apart(items[j], items[k]))
      ensures exists m :: CreatedAt(r, |users|, m, items[k], hash)
    {
      BulkCreatedComplete(students, users, items, k, hash);
    }
  }

  lemma {:induction false} BulkCreatedComplete(students: seq<Student>, users: seq<User>, items: seq<AccountItem>, k: nat,
                                               hash: string -> string)
    requires k < |items| && Acceptable(students, users, items[k])
    requires forall j :: 0 <= j < k ==> Apart(items[j], items[k])
    ensures exists m :: CreatedAt(BulkCreated(students, users, items, hash), |users|, m, items[k], hash)
    decreases k
  {
    var step := BulkStep(students, users, items[0], hash);
    var rest := BulkCreated(students, users + step, items[1..], hash);
    var r := BulkCreated(students, users, items, hash);
    assert r == step + rest;
    if k == 0 {
      assert CreatedAt(r, |users|, 0, items[k], hash);
    } else {
      var b := items[k];
      assert items[1..][k - 1] == b;
      AcceptableAfterStep(students, users, items[0], b, hash);
      forall j | 0 <= j < k - 1 ensures Apart(items[1..][j], items[1..][k - 1]) {
        assert items[1..][j] == items[j + 1];
      }
      BulkCreatedComplete(students, users + step, items[1..], k - 1, hash);
      var m :| CreatedAt(rest, |users + step|, m, b, hash);
      assert (step + rest)[|step| + m] == rest[m];
      assert CreatedAt(r, |users|, |step| + m, b, hash);
    }
  }

  /** An item apart from `b` leaves `b` acceptable. */
  lemma AcceptableAfterStep(students: seq<Student>, users: seq<User>, a: AccountItem, b: AccountItem, hash: string -> string)
    requires Acceptable(students, users, b) && Apart(a, b)
    ensures Acceptable(students, users + BulkStep(students, users, a, hash), b)
  {
    var after := users + BulkStep(students, users, a, hash);
    var sid, name := b.studentId.value, b.username.value;
    forall i | 0 <= i < |after| ensures after[i].studentId != Some(sid) && after[i].username != name {
      if i < |users| {
        assert after[i] == users[i];
      }
    }
  }

  lemma {:induction false} BulkCreatedIds(students: seq<Student>, users: seq<User>, items: seq<AccountItem>, hash: string -> string)
    ensures var r := BulkCreated(students, users, items, hash);
            |r| <= |items| && forall k :: 0 <= k < |r| ==> r[k].id == |users| + k + 1
    decreases |items|
  {
    if |items| > 0 {
      var step := BulkStep(students, users, items[0], hash);
      BulkCreatedIds(students, users + step, items[1..], hash);
      StepIds(students, users, items[0], hash);
      NumberedConcat(step, BulkCreated(students, users + step, items[1..], hash), UserId, |users|);
    }
  }

  lemma {:induction false} BulkCreatedLinked(students: seq<Student>, users: seq<User>, items: seq<AccountItem>, hash: string -> string)
    ensures forall u :: u in BulkCreated(students, users, items, hash) ==> LinkedAccount(students, u) && MadeFrom(items, hash, u)
    decreases |items|
  {
    if |items| > 0 {
      var step := BulkStep(students, users, items[0], hash);
      var rest := BulkCreated(students, users + step, items[1..], hash);
      BulkCreatedLinked(students, users + step, items[1..], hash);
      StepLinked(students, users, items[0], hash);
      forall u | u in rest ensures MadeFrom(items, hash, u) {
        var i :| 0 <= i < |items[1..]| && Complete(items[1..][i]) &&
                 u == NewAccount(u.id, items[1..][i].studentId.value, items[1..][i].username.value, items[1..][i].password.value, hash);
        assert items[1..][i] == items[i + 1];
      }
    }
  }

  lemma StepIds(students: seq<Student>, users: seq<User>, a: AccountItem, hash: string -> string)
    ensures var step := BulkStep(students, users, a, hash);
            |step| <= 1 && forall k :: 0 <= k < |step| ==> step[k].id == |users| + k + 1
  {
  }

  /** An item yields an account exactly when it is complete and the single-account
      endpoint would accept it; the account is the one that endpoint writes, for the item's
      student, username and password, and is linked to that active student. */
  lemma StepLinked(students: seq<Student>, users: seq<User>, a: AccountItem, hash: string -> string)
    ensures BulkStep(students, users, a, hash) != [] <==> Acceptable(students, users, a)
    ensures forall u :: u in BulkStep(students, users, a, hash) ==>
              Complete(a) && u == NewAccount(|users| + 1, a.studentId.value, a.username.value, a.password.value, hash) &&
              u.studentId == a.studentId && LinkedAccount(students, u)
  {
  }

  lemma {:induction false} BulkCreatedKeepsOk(students: seq<Student>, users: seq<User>, items: seq<AccountItem>, hash: string -> string)
    requires AccountsOk(users)
    ensures AccountsOk(users + BulkCreated(students, users, items, hash))
    decreases |items|
  {
    if |items| > 0 {
      var a := items[0];
      var step := BulkStep(students, users, a, hash);
      if step != [] {
        NewAccountKeepsAccountsOk(users, a.studentId.value, a.username.value, a.password.value, hash);
      }
      var rest := BulkCreated(students, users + step, items[1..], hash);
      BulkCreatedKeepsOk(students, users + step, items[1..], hash);
      AppendAssoc(users, step, rest);
    }
  }

  // ---------------------------------------------------------------------------
  // link_student_to_max

  /** The refusals: no such user, then a user that is not a STUDENT. */
  function AccountRefusal(users: seq<User>, id: int): (r: Option<Error>)
    ensures r == Some(UserNotFound) <==> forall i :: 0 <= i < |users| ==> users[i].id != id
    ensures r == Some(OnlyStudentAccounts) <==> UserById(users, id).Some? && UserById(users, id).value.role != StudentRole
    ensures r.None? <==> UserById(users, id).Some? && UserById(users, id).value.role == StudentRole
  {
    match UserById(users, id)
    case None => Some(UserNotFound)
    case Some(u) => if u.role != StudentRole then Some(OnlyStudentAccounts) else None
  }

  /** The messenger id is written to the linked student when there is one; otherwise
      nothing changes and the account is still returned. */
  method LinkStudentToMax(db: Db, id: int, maxUserId: string) returns (r: Result<User>)
    requires db.Valid()
    modifies db
    ensures db.Valid()
    ensures db.textbooks == old(db.textbooks) && db.users == old(db.users) && db.transactions == old(db.transactions) &&
            db.damageReports == old(db.damageReports) && db.foundReports == old(db.foundReports)
    ensures r.Err? <==> AccountRefusal(db.users, id).Some?
    ensures r.Err? ==> r.error == AccountRefusal(db.users, id).value && db.students == old(db.students)
    ensures r.Ok? ==> r.value == UserById(db.users, id).value
    ensures r.Ok? && StudentByLink(old(db.students), r.value.studentId).None? ==> db.students == old(db.students)
    ensures r.Ok? && StudentByLink(old(db.students), r.value.studentId).Some? ==>
              var sid := r.value.studentId.value;
              1 <= sid <= |old(db.students)| &&
              db.students == old(db.students)[sid - 1 := old(db.students)[sid - 1].(maxUserId := Some(maxUserId))]
  {
    var refusal := AccountRefusal(db.users, id);
    if refusal.Some? {
      return Err(refusal.value);
    }
    var user := UserById(db.users, id).value;
    if user.studentId.Some? {
      var sid := user.studentId.value;
      FindDense(db.students, StudentId, sid);
      var found := FindById(db.students, StudentId, sid);
      if found.Some? {
        var i := found.value;
        db.SetStudent(i, db.students[i].(maxUserId := Some(maxUserId)));
      }
    }
    return Ok(user);
  }

  // ---------------------------------------------------------------------------
  // get_students_with_accounts

  datatype AccountRow = AccountRow(studentId: int, fullName: string, grade: string, phone: Option<string>,
                                   parentPhone: Option<string>, hasAccount: bool, username: Option<string>,
                                   maxUserId: Option<string>, accountActive: bool)

  /** The row for one student, from the first account linked to it. */
  function RowOf(users: seq<User>, s: Student): (r: AccountRow)
    ensures r.studentId == s.id && r.fullName == FullName(s) && r.maxUserId == s.maxUserId
    ensures r.hasAccount <==> exists i :: 0 <= i < |users| && users[i].studentId == Some(s.id)
    ensures r.username.Some? <==> r.hasAccount
    ensures r.accountActive ==> r.hasAccount
    ensures r.hasAccount ==> r.username == Some(AccountOf(users, s.id).value.username) &&
                             r.accountActive == AccountOf(users, s.id).value.isActive
  {
    var account := AccountOf(users, s.id);
    AccountRow(s.id, FullName(s), s.grade, s.phone, s.parentPhone, account.Some?,
               if account.Some? then Some(account.value.username) else None,
               s.maxUserId, if account.Some? then account.value.isActive else false)
  }

  function RowFor(users: seq<User>): Student -> AccountRow
  {
    (s: Student) => RowOf(users, s)
  }

  function IsActiveStudent(): Student -> bool
  {
    (s: Student) => s.isActive
  }

  method GetStudentsWithAccounts(db: Db) returns (rows: seq<AccountRow>)
    ensures rows == Map(Filter(db.students, IsActiveStudent()), RowFor(db.users))
  {
    var students := Filter(db.students, IsActiveStudent());
    rows := [];
    var j := 0;
    while j < |students|
      invariant 0 <= j <= |students|
      invariant rows == Map(students[..j], RowFor(db.users))
    {
      PrefixStep(students, j);
      MapAppend(students[..j], students[j], RowFor(db.users));
      rows := rows + [RowOf(db.users, students[j])];
      j := j + 1;
    }
    assert students[..|students|] == students;
  }

  /** One row per active student, in table order, each for its student. */
  lemma StudentsWithAccountsMeaning(students: seq<Student>, users: seq<User>)
    ensures var active := Filter(students, IsActiveStudent());
            var rows := Map(active, RowFor(users));
            |rows| == |active| &&
            forall k :: 0 <= k < |rows| ==> active[k] in students && active[k].isActive && rows[k] == RowOf(users, active[k])
  {
    var active := Filter(students, IsActiveStudent());
    forall k | 0 <= k < |active| ensures active[k] in students {
      FilterMembership(students, IsActiveStudent(), active[k]);
    }
  }

  // ---------------------------------------------------------------------------
  // activate_student_account and deactivate_student_account

  /** Sets `is_active` of a STUDENT account, and nothing else. */
  method SetStudentAccountActive(db: Db, id: int, active: bool) returns (r: Result<()>)
    requires db.Valid()
    modifies db
    ensures db.Valid()
    ensures db.textbooks == old(db.textbooks) && db.students == old(db.students) && db.transactions == old(db.transactions) &&
            db.damageReports == old(db.damageReports) && db.foundReports == old(db.foundReports)
    ensures r.Err? <==> AccountRefusal(old(db.users), id).Some?
    ensures r.Err? ==> r.error == AccountRefusal(old(db.users), id).value && db.users == old(db.users)
    ensures r.Ok? ==> 1 <= id <= |old(db.users)| && old(db.users)[id - 1].role == StudentRole &&
                      db.users == old(db.users)[id - 1 := old(db.users)[id - 1].(isActive := active)]
  {
    var refusal := AccountRefusal(db.users, id);
    if refusal.Some? {
      return Err(refusal.value);
    }
    FindDense(db.users, UserId, id);
    var i := FindById(db.users, UserId, id).value;
    db.SetUser(i, db.users[i].(isActive := active));
    return Ok(());
  }

  /** Toggling `is_active` keeps usernames unique and one account per student. */
  lemma ActiveFlagKeepsAccountsOk(users: seq<User>, i: nat, active: bool)
    requires AccountsOk(users) && i < |users|
    ensures AccountsOk(users[i := users[i].(isActive := active)])
  {
    var after := users[i := users[i].(isActive := active)];
    forall a, b | 0 <= a < b < |after|
      ensures after[a].username != after[b].username &&
              (after[a].studentId.Some? ==> after[a].studentId != after[b].studentId)
    {
      assert after[a].username == users[a].username && after[a].studentId == users[a].studentId;
      assert after[b].username == users[b].username && after[b].studentId == users[b].studentId;
    }
  }
}
