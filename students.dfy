/** The student roster endpoints: create (refusing a second student with the same first
    name, last name and grade), bulk create (skipping such duplicates), list, partial
    update, soft delete and the per-grade roster. */
module Students {
  import opened Common
  import opened Entities
  import opened Store
  import opened StudentSchema

  /** The duplicate test: first name, last name and grade all equal. */
  function SameTriple(c: StudentCreate): Student -> bool
  {
    (s: Student) => s.firstName == c.firstName && s.lastName == c.lastName && s.grade == c.grade
  }

  /** `existing_student`: the first row with the same triple. */
  function Twin(students: seq<Student>, c: StudentCreate): (r: Option<Student>)
    ensures r.Some? ==> r.value in students && r.value.firstName == c.firstName &&
                        r.value.lastName == c.lastName && r.value.grade == c.grade
    ensures r.None? <==> forall i :: 0 <= i < |students| ==>
                           !(students[i].firstName == c.firstName && students[i].lastName == c.lastName &&
                             students[i].grade == c.grade)
  {
    FirstWhere(students, SameTriple(c))
  }

  /** The row a create writes: the request's columns, active by the column default. */
  function NewStudent(id: int, c: StudentCreate): Student
  {
    Student(id, c.firstName, c.lastName, c.middleName, c.grade, c.phone, c.parentPhone, c.maxUserId, true)
  }

  /** No two rows share a (first name, last name, grade) triple. */
  ghost predicate TriplesUnique(students: seq<Student>)
  {
    forall i, j :: 0 <= i < j < |students| ==>
      !(students[i].firstName == students[j].firstName && students[i].lastName == students[j].lastName &&
        students[i].grade == students[j].grade)
  }

  // ---------------------------------------------------------------------------
  // create_student

  function CreateRefusal(students: seq<Student>, c: StudentCreate): (r: Option<Error>)
    ensures r == Some(ValidationFailed) <==> !ValidCreate(c)
    ensures r == Some(StudentAlreadyExists) <==>
              ValidCreate(c) && exists i :: 0 <= i < |students| && students[i].firstName == c.firstName &&
                                             students[i].lastName == c.lastName && students[i].grade == c.grade
    ensures r.None? <==> ValidCreate(c) && Twin(students, c).None?
  {
    if !ValidCreate(c) then Some(ValidationFailed)
    else if Twin(students, c).Some? then Some(StudentAlreadyExists)
    else None
  }

  method CreateStudent(db: Db, c: StudentCreate) returns (r: Result<Student>)
    requires db.Valid()
    modifies db
    ensures db.Valid()
    ensures db.textbooks == old(db.textbooks) && db.users == old(db.users) && db.transactions == old(db.transactions) &&
            db.damageReports == old(db.damageReports) && db.foundReports == old(db.foundReports)
    ensures r.Err? <==> CreateRefusal(old(db.students), c).Some?
    ensures r.Err? ==> r.error == CreateRefusal(old(db.students), c).value && db.students == old(db.students)
    ensures r.Ok? ==> r.value == NewStudent(|old(db.students)| + 1, c) && db.students == old(db.students) + [r.value]
  {
    var refusal := CreateRefusal(db.students, c);
    if refusal.Some? {
      return Err(refusal.value);
    }
    var s := NewStudent(|db.students| + 1, c);
    db.AddStudent(s);
    return Ok(s);
  }

  /** A create that goes through keeps the triples unique. */
  lemma CreateKeepsTriplesUnique(students: seq<Student>, c: StudentCreate)
    requires TriplesUnique(students) && Twin(students, c).None?
    ensures TriplesUnique(students + [NewStudent(|students| + 1, c)])
  {
    var after := students + [NewStudent(|students| + 1, c)];
    forall i, j | 0 <= i < j < |after|
      ensures !(after[i].firstName == after[j].firstName && after[i].lastName == after[j].lastName &&
                after[i].grade == after[j].grade)
    {
      if j == |students| {
        assert after[i] == students[i];
      } else {
        assert after[i] == students[i] && after[j] == students[j];
      }
    }
  }

  // ---------------------------------------------------------------------------
  // create_students_bulk

  /** What one item of the batch adds: nothing when its triple is already in the table
      (rows added earlier in the batch included), otherwise one new row. */
  function BulkStep(students: seq<Student>, c: StudentCreate): seq<Student>
  {
    if Twin(students, c).Some? then [] else [NewStudent(|students| + 1, c)]
  }

  function BulkCreated(students: seq<Student>, items: seq<StudentCreate>): seq<Student>
    decreases |items|
  {
    if |items| == 0 then []
    else
      var step := BulkStep(students, items[0]);
      step + BulkCreated(students + step, items[1..])
  }

  /** A list body is refused as a whole when one element fails its constraints. */
  predicate AllValid(items: seq<StudentCreate>)
  {
    forall i :: 0 <= i < |items| ==> ValidCreate(items[i])
  }

  /** One iteration of the bulk loop. */
  method CreateOne(db: Db, c: StudentCreate) returns (step: seq<Student>)
    requires db.Valid()
    modifies db
    ensures db.Valid()
    ensures db.textbooks == old(db.textbooks) && db.users == old(db.users) && db.transactions == old(db.transactions) &&
            db.damageReports == old(db.damageReports) && db.foundReports == old(db.foundReports)
    ensures step == BulkStep(old(db.students), c) && db.students == old(db.students) + step
  {
    step := [];
    if Twin(db.students, c).None? {
      var s := NewStudent(|db.students| + 1, c);
      db.AddStudent(s);
      step := [s];
    }
  }

  method CreateStudentsBulk(db: Db, items: seq<StudentCreate>) returns (r: Result<seq<Student>>)
    requires db.Valid()
    modifies db
    ensures db.Valid()
    ensures db.textbooks == old(db.textbooks) && db.users == old(db.users) && db.transactions == old(db.transactions) &&
            db.damageReports == old(db.damageReports) && db.foundReports == old(db.foundReports)
    ensures r.Err? <==> !AllValid(items)
    ensures r.Err? ==> r.error == ValidationFailed && db.students == old(db.students)
    ensures r.Ok? ==> r.value == BulkCreated(old(db.students), items) && db.students == old(db.students) + r.value
  {
    if !AllValid(items) {
      return Err(ValidationFailed);
    }
    ghost var table0 := db.students;
    var created: seq<Student> := [];
    var k := 0;
    while k < |items|
      invariant 0 <= k <= |items|
      invariant db.Valid()
      invariant db.textbooks == old(db.textbooks) && db.users == old(db.users) && db.transactions == old(db.transactions) &&
                db.damageReports == old(db.damageReports) && db.foundReports == old(db.foundReports)
      invariant db.students == table0 + created
      invariant BulkCreated(table0, items) == created + BulkCreated(table0 + created, items[k..])
    {
      ghost var before := db.students;
      assert items[k..][0] == items[k] && items[k..][1..] == items[k + 1..];
      var step := CreateOne(db, items[k]);
      AppendAssoc(created, step, BulkCreated(before + step, items[k + 1..]));
      AppendAssoc(table0, created, step);
      created := created + step;
      k := k + 1;
    }
    return Ok(created);
  }

  /** An active row built from one of the items. */
  predicate BuiltFrom(items: seq<StudentCreate>, s: Student)
  {
    s.isActive && exists i :: 0 <= i < |items| && s == NewStudent(s.id, items[i])
  }

  /** Two items name the same student: first name, last name and grade all equal. */
  predicate SameCreate(a: StudentCreate, b: StudentCreate)
  {
    a.firstName == b.firstName && a.lastName == b.lastName && a.grade == b.grade
  }

  /** The batch creates at most one student per item, with the next ids in turn, each
      active and built from an item, and keeps the triples unique: a duplicate of a stored
      row or of an earlier item is skipped. Every item whose triple is neither stored nor
      carried by an earlier item is created. */
  lemma BulkCreatedMeaning(students: seq<Student>, items: seq<StudentCreate>)
    requires TriplesUnique(students)
    ensures var r := BulkCreated(students, items);
            |r| <= |items| &&
            (forall k :: 0 <= k < |r| ==> r[k].id == |students| + k + 1 && BuiltFrom(items, r[k])) &&
            TriplesUnique(students + r)
    ensures var r := BulkCreated(students, items);
            forall k :: 0 <= k < |items| && Twin(students, items[k]).None? &&
                        (forall j :: 0 <= j < k ==> !SameCreate(items[j], items[k])) ==>
                        exists m :: CreatedAt(r, |students|, m, items[k])
  {
    var r := BulkCreated(students, items);
    BulkCreatedIds(students, items);
    BulkCreatedBuilt(students, items);
    BulkCreatedKeepsUnique(students, items);
    forall k | 0 <= k < |r| ensures BuiltFrom(items, r[k]) {
      assert r[k] in r;
    }
    forall k | 0 <= k < |items| && Twin(students, items[k]).None? &&
               (forall j :: 0 <= j < k ==> !SameCreate(items[j], items[k]))
      ensures exists m :: CreatedAt(r, |students|, m, items[k])
    {
      BulkCreatedComplete(students, items, k);
    }
  }

  /** `r[m]` is the row created for `c` at place `m` of a batch appended after `n` rows. */
  predicate CreatedAt(r: seq<Student>, n: int, m: int, c: StudentCreate)
  {
    0 <= m < |r| && r[m] == NewStudent(n + m + 1, c)
  }

  /** An item with no twin in the table and none among the items before it is created,
      with the id its place in the batch gives it. */
  lemma {:induction false} BulkCreatedComplete(students: seq<Student>, items: seq<StudentCreate>, k: nat)
    requires k < |items| && Twin(students, items[k]).None?
    requires forall j :: 0 <= j < k ==> !SameCreate(items[j], items[k])
    ensures exists m :: CreatedAt(BulkCreated(students, items), |students|, m, items[k])
    decreases k
  {
    var step := BulkStep(students, items[0]);
    var rest := BulkCreated(students + step, items[1..]);
    var r := BulkCreated(students, items);
    assert r == step + rest;
    if k == 0 {
      assert step == [NewStudent(|students| + 1, items[0])];
      assert CreatedAt(r, |students|, 0, items[k]);
    } else {
      var c := items[k];
      assert items[1..][k - 1] == c;
      TwinAfterStep(students, items[0], c);
      forall j | 0 <= j < k - 1 ensures !SameCreate(items[1..][j], items[1..][k - 1]) {
        assert items[1..][j] == items[j + 1];
      }
      BulkCreatedComplete(students + step, items[1..], k - 1);
      var m :| CreatedAt(rest, |students + step|, m, c);
      ShiftedWitness(step, rest, m);
      assert CreatedAt(r, |students|, |step| + m, c);
    }
  }

  /** A create that is not a twin of `c` does not give `c` a twin. */
  lemma TwinAfterStep(students: seq<Student>, a: StudentCreate, c: StudentCreate)
    requires Twin(students, c).None? && !SameCreate(a, c)
    ensures Twin(students + BulkStep(students, a), c).None?
  {
    var after := students + BulkStep(students, a);
    forall i | 0 <= i < |after|
      ensures !(after[i].firstName == c.firstName && after[i].lastName == c.lastName && after[i].grade == c.grade)
    {
      if i < |students| {
        assert after[i] == students[i];
      }
    }
  }

  lemma ShiftedWitness<T>(a: seq<T>, b: seq<T>, m: nat)
    requires m < |b|
    ensures |a| + m < |a + b| && (a + b)[|a| + m] == b[m]
  {
  }

  lemma {:induction false} BulkCreatedIds(students: seq<Student>, items: seq<StudentCreate>)
    ensures var r := BulkCreated(students, items);
            |r| <= |items| && forall k :: 0 <= k < |r| ==> r[k].id == |students| + k + 1
    decreases |items|
  {
    if |items| > 0 {
      var step := BulkStep(students, items[0]);
      BulkCreatedIds(students + step, items[1..]);
      assert |step| <= 1 && forall k :: 0 <= k < |step| ==> step[k].id == |students| + k + 1;
      NumberedConcat(step, BulkCreated(students + step, items[1..]), StudentId, |students|);
    }
  }

  lemma {:induction false} BulkCreatedBuilt(students: seq<Student>, items: seq<StudentCreate>)
    ensures forall s :: s in BulkCreated(students, items) ==> BuiltFrom(items, s)
    decreases |items|
  {
    if |items| > 0 {
      var step := BulkStep(students, items[0]);
      var rest := BulkCreated(students + step, items[1..]);
      BulkCreatedBuilt(students + step, items[1..]);
      forall s | s in step ensures BuiltFrom(items, s) {
        assert s == NewStudent(s.id, items[0]);
      }
      forall s | s in rest ensures BuiltFrom(items, s) {
        var i :| 0 <= i < |items[1..]| && s == NewStudent(s.id, items[1..][i]);
        assert items[1..][i] == items[i + 1];
      }
    }
  }

  lemma {:induction false} BulkCreatedKeepsUnique(students: seq<Student>, items: seq<StudentCreate>)
    requires TriplesUnique(students)
    ensures TriplesUnique(students + BulkCreated(students, items))
    decreases |items|
  {
    if |items| > 0 {
      var step := BulkStep(students, items[0]);
      if step != [] {
        CreateKeepsTriplesUnique(students, items[0]);
      }
      var rest := BulkCreated(students + step, items[1..]);
      BulkCreatedKeepsUnique(students + step, items[1..]);
      AppendAssoc(students, step, rest);
    }
  }

  // ---------------------------------------------------------------------------
  // get_students

  /** The grade filter applies when a non-empty grade is given, the activity filter when a
      flag is given. */
  function StudentQuery(grade: Option<string>, isActive: Option<bool>): Student -> bool
  {
    (s: Student) => (Truthy(grade) ==> s.grade == grade.value) && (isActive.Some? ==> s.isActive == isActive.value)
  }

  function ListStudents(students: seq<Student>, grade: Option<string>, isActive: Option<bool>, skip: int, limit: int)
    : (r: Result<seq<Student>>)
    ensures r.Err? <==> !ValidPage(skip, limit)
    ensures r.Err? ==> r.error == ValidationFailed
    ensures r.Ok? ==> |r.value| <= limit &&
                      forall i :: 0 <= i < |r.value| ==>
                        r.value[i] in students && (Truthy(grade) ==> r.value[i].grade == grade.value) &&
                        (isActive.Some? ==> r.value[i].isActive == isActive.value)
  {
    if !ValidPage(skip, limit) then Err(ValidationFailed)
    else
      var matching := Filter(students, StudentQuery(grade, isActive));
      forall s | s in matching ensures s in students {
        FilterMembership(students, StudentQuery(grade, isActive), s);
      }
      Ok(Paginate(matching, skip, limit))
  }

  /** The listing is the `skip`-offset window of the matching rows in table order, and a row
      matches exactly when it passes both filters. */
  lemma ListStudentsWindow(students: seq<Student>, grade: Option<string>, isActive: Option<bool>, skip: nat, limit: nat)
    requires 1 <= limit <= 1000
    ensures var matching := Filter(students, StudentQuery(grade, isActive));
            ListStudents(students, grade, isActive, skip, limit) == Ok(Paginate(matching, skip, limit)) &&
            forall s :: s in matching <==> s in students && (Truthy(grade) ==> s.grade == grade.value) &&
                                           (isActive.Some? ==> s.isActive == isActive.value)
  {
    forall s ensures s in Filter(students, StudentQuery(grade, isActive)) <==>
                     s in students && (Truthy(grade) ==> s.grade == grade.value) &&
                     (isActive.Some? ==> s.isActive == isActive.value) {
      FilterMembership(students, StudentQuery(grade, isActive), s);
    }
  }

  // ---------------------------------------------------------------------------
  // update_student

  /** The fields sent are written, the others kept. */
  function ApplyUpdate(s: Student, u: StudentUpdate): (r: Student)
    ensures r.id == s.id
    ensures (u.firstName.Keep? ==> r.firstName == s.firstName) && (u.firstName.Put? ==> r.firstName == u.firstName.value)
    ensures (u.lastName.Keep? ==> r.lastName == s.lastName) && (u.lastName.Put? ==> r.lastName == u.lastName.value)
    ensures (u.middleName.Keep? ==> r.middleName == s.middleName) && (u.middleName.Put? ==> r.middleName == u.middleName.value)
    ensures (u.grade.Keep? ==> r.grade == s.grade) && (u.grade.Put? ==> r.grade == u.grade.value)
    ensures (u.phone.Keep? ==> r.phone == s.phone) && (u.phone.Put? ==> r.phone == u.phone.value)
    ensures (u.parentPhone.Keep? ==> r.parentPhone == s.parentPhone) && (u.parentPhone.Put? ==> r.parentPhone == u.parentPhone.value)
    ensures (u.maxUserId.Keep? ==> r.maxUserId == s.maxUserId) && (u.maxUserId.Put? ==> r.maxUserId == u.maxUserId.value)
    ensures (u.isActive.Keep? ==> r.isActive == s.isActive) && (u.isActive.Put? ==> r.isActive == u.isActive.value)
  {
    s.(firstName := Patched(u.firstName, s.firstName),
       lastName := Patched(u.lastName, s.lastName),
       middleName := Patched(u.middleName, s.middleName),
       grade := Patched(u.grade, s.grade),
       phone := Patched(u.phone, s.phone),
       parentPhone := Patched(u.parentPhone, s.parentPhone),
       maxUserId := Patched(u.maxUserId, s.maxUserId),
       isActive := Patched(u.isActive, s.isActive))
  }

  /** An update that sends nothing changes nothing. */
  lemma EmptyUpdate(s: Student)
    ensures ApplyUpdate(s, StudentUpdate(Keep, Keep, Keep, Keep, Keep, Keep, Keep, Keep)) == s
  {
  }

  /** The body is validated first, then the student looked up. */
  method UpdateStudent(db: Db, id: int, u: StudentUpdate) returns (r: Result<Student>)
    requires db.Valid()
    modifies db
    ensures db.Valid()
    ensures db.textbooks == old(db.textbooks) && db.users == old(db.users) && db.transactions == old(db.transactions) &&
            db.damageReports == old(db.damageReports) && db.foundReports == old(db.foundReports)
    ensures !ValidUpdate(u) ==> r == Err(ValidationFailed)
    ensures ValidUpdate(u) && (forall i :: 0 <= i < |old(db.students)| ==> old(db.students)[i].id != id) ==>
              r == Err(StudentNotFound)
    ensures r.Err? ==> db.students == old(db.students)
    ensures r.Ok? <==> ValidUpdate(u) && 1 <= id <= |old(db.students)|
    ensures r.Ok? ==> r.value == ApplyUpdate(old(db.students)[id - 1], u) &&
                      db.students == old(db.students)[id - 1 := r.value]
  {
    if !ValidUpdate(u) {
      return Err(ValidationFailed);
    }
    FindDense(db.students, StudentId, id);
    var found := FindById(db.students, StudentId, id);
    if found.None? {
      return Err(StudentNotFound);
    }
    var i := found.value;
    var s := ApplyUpdate(db.students[i], u);
    db.SetStudent(i, s);
    return Ok(s);
  }

  // ---------------------------------------------------------------------------
  // delete_student and get_students_by_grade

  /** Soft delete: the row stays, with `is_active` cleared and every other column kept. */
  method DeleteStudent(db: Db, id: int) returns (r: Result<()>)
    requires db.Valid()
    modifies db
    ensures db.Valid()
    ensures db.textbooks == old(db.textbooks) && db.users == old(db.users) && db.transactions == old(db.transactions) &&
            db.damageReports == old(db.damageReports) && db.foundReports == old(db.foundReports)
    ensures r.Err? <==> forall i :: 0 <= i < |old(db.students)| ==> old(db.students)[i].id != id
    ensures r.Err? ==> r.error == StudentNotFound && db.students == old(db.students)
    ensures r.Ok? ==> 1 <= id <= |old(db.students)| &&
                      db.students == old(db.students)[id - 1 := old(db.students)[id - 1].(isActive := false)]
  {
    FindDense(db.students, StudentId, id);
    var found := FindById(db.students, StudentId, id);
    if found.None? {
      return Err(StudentNotFound);
    }
    var i := found.value;
    db.SetStudent(i, db.students[i].(isActive := false));
    return Ok(());
  }

  function ActiveOfGrade(grade: string): Student -> bool
  {
    (s: Student) => s.grade == grade && s.isActive
  }

  /** The active students of a grade, in table order. */
  function StudentsByGrade(students: seq<Student>, grade: string): seq<Student>
  {
    Filter(students, ActiveOfGrade(grade))
  }

  lemma StudentsByGradeMeaning(students: seq<Student>, grade: string, s: Student)
    ensures s in StudentsByGrade(students, grade) <==> s in students && s.grade == grade && s.isActive
  {
    FilterMembership(students, ActiveOfGrade(grade), s);
  }

  /** After a soft delete the student drops out of its grade's roster and every other
      listed student stays listed. */
  lemma DeleteLeavesRoster(students: seq<Student>, id: int, grade: string)
    requires DenseIds(students, StudentId) && 1 <= id <= |students|
    ensures var after := students[id - 1 := students[id - 1].(isActive := false)];
            (forall s :: s in StudentsByGrade(after, grade) ==> s.id != id) &&
            (forall k :: 0 <= k < |students| && k != id - 1 && students[k] in StudentsByGrade(students, grade) ==>
                           students[k] in StudentsByGrade(after, grade))
  {
    var after := students[id - 1 := students[id - 1].(isActive := false)];
    forall s | s in StudentsByGrade(after, grade) ensures s.id != id {
      StudentsByGradeMeaning(after, grade, s);
      var k :| 0 <= k < |after| && after[k] == s;
      if k != id - 1 {
        assert after[k] == students[k];
      }
    }
    forall k | 0 <= k < |students| && k != id - 1 && students[k] in StudentsByGrade(students, grade)
      ensures students[k] in StudentsByGrade(after, grade)
    {
      StudentsByGradeMeaning(students, grade, students[k]);
      StudentsByGradeMeaning(after, grade, students[k]);
      assert after[k] == students[k];
    }
  }
}
