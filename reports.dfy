/** The teacher reports: the issue summary, the students without textbooks, the textbooks
    not returned, the damage summary, the bulk parent notifications and one textbook's
    history. Each report walks its query's rows once and groups them by student
    (`Groups.FoldGroups`). */
module Reports {
  import opened Common
  import opened Entities
  import opened Ledger
  import opened StudentModel
  import opened Store
  import opened Groups
  import opened ParentNotifications
  import DamageReports

  /** A student looked up by id: the group student `AllFit` checks against. */
  function Lookup(students: seq<Student>): int -> Option<Student>
  {
    (id: int) => StudentById(students, id)
  }

  // ---------------------------------------------------------------------------
  // get_issue_summary

  /** One textbook line of a report. `returnedAt` is the recorded time of the textbook's
      first completed return, when it has one. */
  datatype BookInfo = BookInfo(textbookId: int, qrCode: string, subject: string, title: string,
                               issuedAt: int, returnedAt: Option<int>)

  function ReturnTime(log: seq<Transaction>, tid: int): (r: Option<int>)
    ensures r.Some? <==> HasReturn(log, tid)
  {
    match FirstReturn(log, tid)
    case None => None
    case Some(ret) => Some(ret.issuedAt)
  }

  /** `Transaction.student_id IN (SELECT id FROM students WHERE grade = :grade)`. */
  predicate InGrade(students: seq<Student>, sid: int, grade: string)
  {
    exists i :: 0 <= i < |students| && students[i].id == sid && students[i].grade == grade
  }

  /** The summary's query: completed issues, restricted to the grade's students when a
      grade is given. */
  function SummaryQuery(students: seq<Student>, grade: Option<string>): Transaction -> bool
  {
    (t: Transaction) => IsCompletedIssue(t) && (Truthy(grade) ==> InGrade(students, t.studentId, grade.value))
  }

  /** The row's student and textbook line; nothing when either record is missing. */
  function SummaryItem(students: seq<Student>, textbooks: seq<Textbook>, log: seq<Transaction>, t: Transaction)
    : Option<(Student, BookInfo)>
  {
    match StudentById(students, t.studentId)
    case None => None
    case Some(st) =>
      match TextbookById(textbooks, t.textbookId)
      case None => None
      case Some(tb) => Some((st, BookInfo(tb.id, tb.qrCode, tb.subject, tb.title, t.issuedAt, ReturnTime(log, t.textbookId))))
  }

  function SummaryEntry(students: seq<Student>, textbooks: seq<Textbook>, log: seq<Transaction>)
    : Transaction -> Option<(Student, BookInfo)>
  {
    (t: Transaction) => SummaryItem(students, textbooks, log, t)
  }

  function SummaryGroups(students: seq<Student>, textbooks: seq<Textbook>, log: seq<Transaction>, grade: Option<string>)
    : seq<Group<BookInfo>>
  {
    FoldGroups(Filter(log, SummaryQuery(students, grade)), SummaryEntry(students, textbooks, log))
  }

  function Returned(): BookInfo -> bool
  {
    (b: BookInfo) => b.returnedAt.Some?
  }

  function NotReturned(): BookInfo -> bool
  {
    (b: BookInfo) => b.returnedAt.None?
  }

  /** A student's `issued_textbooks` are the group's items, its `returned_textbooks` and
      `not_returned_textbooks` the items with and without a return time. */
  datatype IssueSummary = IssueSummary(totalStudents: nat, totalIssued: nat, totalReturned: nat,
                                       totalNotReturned: nat, students: seq<Group<BookInfo>>)

  function Summarize(groups: seq<Group<BookInfo>>): IssueSummary
  {
    IssueSummary(|groups|, Size(groups), Tally(groups, Returned()), Tally(groups, NotReturned()), groups)
  }

  method GetIssueSummary(db: Db, grade: Option<string>) returns (r: IssueSummary)
    ensures r == Summarize(SummaryGroups(db.students, db.textbooks, db.transactions, grade))
  {
    var rows := Filter(db.transactions, SummaryQuery(db.students, grade));
    var entry := SummaryEntry(db.students, db.textbooks, db.transactions);
    var groups := GroupRows(rows, entry);
    r := Summarize(groups);
  }

  /** Both records of the row exist. */
  function Resolvable(students: seq<Student>, textbooks: seq<Textbook>): Transaction -> bool
  {
    (t: Transaction) => StudentById(students, t.studentId).Some? && TextbookById(textbooks, t.textbookId).Some?
  }

  function ResolvableReturned(students: seq<Student>, textbooks: seq<Textbook>, log: seq<Transaction>): Transaction -> bool
  {
    (t: Transaction) => StudentById(students, t.studentId).Some? && TextbookById(textbooks, t.textbookId).Some? &&
                        HasReturn(log, t.textbookId)
  }

  /** The totals: one group per student, no student twice, every queried issue with both
      records counted once as issued, and issued = returned + not returned, where returned
      counts those whose textbook has a completed return. */
  lemma IssueSummaryTotals(students: seq<Student>, textbooks: seq<Textbook>, log: seq<Transaction>, grade: Option<string>)
    ensures var r := Summarize(SummaryGroups(students, textbooks, log, grade));
            var rows := Filter(log, SummaryQuery(students, grade));
            r.totalIssued == r.totalReturned + r.totalNotReturned &&
            r.totalStudents == |r.students| && GroupsOk(r.students) &&
            r.totalIssued == Count(rows, Resolvable(students, textbooks)) &&
            r.totalReturned == Count(rows, ResolvableReturned(students, textbooks, log))
  {
    var rows := Filter(log, SummaryQuery(students, grade));
    var entry := SummaryEntry(students, textbooks, log);
    var groups := FoldGroups(rows, entry);
    TallySplit(groups, Returned(), NotReturned());
    FoldGroupsOk(rows, entry);
    FoldGroupsSize(rows, entry, Returned());
    forall i | 0 <= i < |rows|
      ensures Yields(entry, Any())(rows[i]) == Resolvable(students, textbooks)(rows[i]) &&
              Yields(entry, Returned())(rows[i]) == ResolvableReturned(students, textbooks, log)(rows[i])
    {
      SummaryYields(students, textbooks, log, rows[i]);
    }
    CountSame(rows, Yields(entry, Any()), Resolvable(students, textbooks));
    CountSame(rows, Yields(entry, Returned()), ResolvableReturned(students, textbooks, log));
  }

  lemma SummaryYields(students: seq<Student>, textbooks: seq<Textbook>, log: seq<Transaction>, t: Transaction)
    ensures var entry := SummaryEntry(students, textbooks, log);
            Yields(entry, Any())(t) == Resolvable(students, textbooks)(t) &&
            Yields(entry, Returned())(t) == ResolvableReturned(students, textbooks, log)(t) &&
            Yields(entry, NotReturned())(t) == Yields(StrandedEntry(students, textbooks, log, None), Any())(t)
  {
  }

  /** The line stands for a completed issue in the log of its textbook to its group's
      student, at the line's issue time. */
  predicate LineIssuedTo(log: seq<Transaction>, st: Student, b: BookInfo)
  {
    exists t :: t in log && IsCompletedIssue(t) && t.studentId == st.id && t.textbookId == b.textbookId &&
                t.issuedAt == b.issuedAt
  }

  /** What every summary line says of its student and textbook. */
  function SummaryFits(log: seq<Transaction>, grade: Option<string>): (Student, BookInfo) -> bool
  {
    (st: Student, b: BookInfo) => LineIssuedTo(log, st, b) && (b.returnedAt.Some? <==> HasReturn(log, b.textbookId)) &&
                                  (Truthy(grade) ==> st.grade == grade.value)
  }

  /** Every listed student is the stored student with that id, every line is a completed
      issue of its textbook to that student, at its time, and is among the returned ones
      exactly when its textbook has a completed return; with a grade given (and student ids
      the table's own) every listed student is in that grade. */
  lemma IssueSummaryFit(students: seq<Student>, textbooks: seq<Textbook>, log: seq<Transaction>, grade: Option<string>)
    requires DenseIds(students, StudentId)
    ensures AllFit(SummaryGroups(students, textbooks, log, grade), SummaryFits(log, grade), Lookup(students))
  {
    var rows := Filter(log, SummaryQuery(students, grade));
    var entry := SummaryEntry(students, textbooks, log);
    forall t | t in rows && entry(t).Some?
      ensures SummaryFits(log, grade)(entry(t).value.0, entry(t).value.1) &&
              Lookup(students)(entry(t).value.0.id) == Some(entry(t).value.0)
    {
      FilterMembership(log, SummaryQuery(students, grade), t);
      assert LineIssuedTo(log, entry(t).value.0, entry(t).value.1) by {
        assert t in log && t.studentId == entry(t).value.0.id && t.textbookId == entry(t).value.1.textbookId;
      }
      if Truthy(grade) {
        var i :| 0 <= i < |students| && students[i].id == t.studentId && students[i].grade == grade.value;
        StudentByDenseId(students, t.studentId);
        assert students[i].id == i + 1;
      }
    }
    FoldGroupsFit(rows, entry, SummaryFits(log, grade), Lookup(students));
  }

  // ---------------------------------------------------------------------------
  // get_not_issued_report

  function RosterQuery(grade: Option<string>): Student -> bool
  {
    (s: Student) => s.isActive && (Truthy(grade) ==> s.grade == grade.value)
  }

  function NoIssues(log: seq<Transaction>): Student -> bool
  {
    (s: Student) => |IssuesOf(log, Some(s.id))| == 0
  }

  function NotIssued(students: seq<Student>, log: seq<Transaction>, grade: Option<string>): seq<Student>
  {
    Filter(Filter(students, RosterQuery(grade)), NoIssues(log))
  }

  method GetNotIssuedReport(db: Db, grade: Option<string>) returns (total: nat, r: seq<Student>)
    ensures r == NotIssued(db.students, db.transactions, grade) && total == |r|
  {
    var log := db.transactions;
    var roster := Filter(db.students, RosterQuery(grade));
    var keep := NoIssues(log);
    r := [];
    var j := 0;
    while j < |roster|
      invariant 0 <= j <= |roster|
      invariant r == Filter(roster[..j], keep)
    {
      var s := roster[j];
      PrefixStep(roster, j);
      FilterAppend(roster[..j], s, keep);
      var issues := IssuesOf(log, Some(s.id));
      assert keep(s) == (|issues| == 0);
      if |issues| == 0 {
        r := r + [s];
      }
      j := j + 1;
    }
    WholePrefix(roster);
    total := |r|;
  }

  /** A student is listed exactly when it is an active student row, of the grade when one
      is given, and no completed issue names it. */
  lemma NotIssuedMeaning(students: seq<Student>, log: seq<Transaction>, grade: Option<string>, s: Student)
    ensures s in NotIssued(students, log, grade) <==>
            s in students && s.isActive && (Truthy(grade) ==> s.grade == grade.value) &&
            forall i :: 0 <= i < |log| ==> !(IsCompletedIssue(log[i]) && log[i].studentId == s.id)
  {
    FilterMembership(Filter(students, RosterQuery(grade)), NoIssues(log), s);
    FilterMembership(students, RosterQuery(grade), s);
    var issues := IssuesOf(log, Some(s.id));
    if |issues| > 0 {
      FilterMembership(log, IssuedTo(Some(s.id)), issues[0]);
    }
    if exists i :: 0 <= i < |log| && IsCompletedIssue(log[i]) && log[i].studentId == s.id {
      var i :| 0 <= i < |log| && IsCompletedIssue(log[i]) && log[i].studentId == s.id;
      FilterMembership(log, IssuedTo(Some(s.id)), log[i]);
    }
  }

  // ---------------------------------------------------------------------------
  // get_not_returned_report

  function CompletedIssue(): Transaction -> bool
  {
    (t: Transaction) => IsCompletedIssue(t)
  }

  /** The row's line when both records exist, the student is of the grade (when one is
      given) and the textbook has no completed return. */
  function StrandedItem(students: seq<Student>, textbooks: seq<Textbook>, log: seq<Transaction>, grade: Option<string>,
                        t: Transaction): Option<(Student, BookInfo)>
  {
    match StudentById(students, t.studentId)
    case None => None
    case Some(st) =>
      match TextbookById(textbooks, t.textbookId)
      case None => None
      case Some(tb) =>
        if Truthy(grade) && st.grade != grade.value then None
        else if HasReturn(log, t.textbookId) then None
        else Some((st, BookInfo(tb.id, tb.qrCode, tb.subject, tb.title, t.issuedAt, None)))
  }

  function StrandedEntry(students: seq<Student>, textbooks: seq<Textbook>, log: seq<Transaction>, grade: Option<string>)
    : Transaction -> Option<(Student, BookInfo)>
  {
    (t: Transaction) => StrandedItem(students, textbooks, log, grade, t)
  }

  function NotReturnedGroups(students: seq<Student>, textbooks: seq<Textbook>, log: seq<Transaction>, grade: Option<string>)
    : seq<Group<BookInfo>>
  {
    FoldGroups(Filter(log, CompletedIssue()), StrandedEntry(students, textbooks, log, grade))
  }

  datatype NotReturnedReport = NotReturnedReport(totalStudents: nat, totalTextbooks: nat, students: seq<Group<BookInfo>>)

  method GetNotReturnedReport(db: Db, grade: Option<string>) returns (r: NotReturnedReport)
    ensures var groups := NotReturnedGroups(db.students, db.textbooks, db.transactions, grade);
            r == NotReturnedReport(|groups|, Size(groups), groups)
  {
    var rows := Filter(db.transactions, CompletedIssue());
    var entry := StrandedEntry(db.students, db.textbooks, db.transactions, grade);
    var groups := GroupRows(rows, entry);
    r := NotReturnedReport(|groups|, Size(groups), groups);
  }

  /** A completed issue that stays out: both records exist, the student is of the grade
      when one is given, and the textbook has no completed return. */
  function Stranded(students: seq<Student>, textbooks: seq<Textbook>, log: seq<Transaction>, grade: Option<string>)
    : Transaction -> bool
  {
    (t: Transaction) => StudentById(students, t.studentId).Some? && TextbookById(textbooks, t.textbookId).Some? &&
                        (Truthy(grade) ==> StudentById(students, t.studentId).value.grade == grade.value) &&
                        !HasReturn(log, t.textbookId)
  }

  function StrandedFits(log: seq<Transaction>, grade: Option<string>): (Student, BookInfo) -> bool
  {
    (st: Student, b: BookInfo) => LineIssuedTo(log, st, b) && (Truthy(grade) ==> st.grade == grade.value) &&
                                  !HasReturn(log, b.textbookId) && b.returnedAt.None?
  }

  /** One group per student, none empty and no student twice; the total counts every
      completed issue that stays out once; every listed student is the stored student of
      its id, of the grade when one is given; every listed textbook was issued to the
      student it is listed under, at its time, and has no completed return. */
  lemma NotReturnedShape(students: seq<Student>, textbooks: seq<Textbook>, log: seq<Transaction>, grade: Option<string>)
    ensures var groups := NotReturnedGroups(students, textbooks, log, grade);
            GroupsOk(groups) &&
            Size(groups) == Count(Filter(log, CompletedIssue()), Stranded(students, textbooks, log, grade)) &&
            AllFit(groups, StrandedFits(log, grade), Lookup(students))
  {
    var rows := Filter(log, CompletedIssue());
    var entry := StrandedEntry(students, textbooks, log, grade);
    FoldGroupsOk(rows, entry);
    FoldGroupsSize(rows, entry, Any());
    CountSame(rows, Yields(entry, Any()), Stranded(students, textbooks, log, grade));
    forall t | t in rows && entry(t).Some?
      ensures StrandedFits(log, grade)(entry(t).value.0, entry(t).value.1) &&
              Lookup(students)(entry(t).value.0.id) == Some(entry(t).value.0)
    {
      FilterMembership(log, CompletedIssue(), t);
      assert LineIssuedTo(log, entry(t).value.0, entry(t).value.1) by {
        assert t in log && t.studentId == entry(t).value.0.id && t.textbookId == entry(t).value.1.textbookId;
      }
    }
    FoldGroupsFit(rows, entry, StrandedFits(log, grade), Lookup(students));
  }

  /** Without a grade the two reports agree: the summary's not-returned total is the
      not-returned report's textbook total. */
  lemma SummaryAgreesWithNotReturned(students: seq<Student>, textbooks: seq<Textbook>, log: seq<Transaction>)
    ensures Summarize(SummaryGroups(students, textbooks, log, None)).totalNotReturned ==
            Size(NotReturnedGroups(students, textbooks, log, None))
  {
    FilterSame(log, SummaryQuery(students, None), CompletedIssue());
    var rows := Filter(log, CompletedIssue());
    var summary := SummaryEntry(students, textbooks, log);
    var stranded := StrandedEntry(students, textbooks, log, None);
    FoldGroupsSize(rows, summary, NotReturned());
    FoldGroupsSize(rows, stranded, Any());
    forall i | 0 <= i < |rows| ensures Yields(summary, NotReturned())(rows[i]) == Yields(stranded, Any())(rows[i]) {
      SummaryYields(students, textbooks, log, rows[i]);
    }
    CountSame(rows, Yields(summary, NotReturned()), Yields(stranded, Any()));
  }

  // ---------------------------------------------------------------------------
  // get_damage_summary

  datatype DamageLine = DamageLine(reportId: int, textbookId: int, textbookTitle: string, damageType: DamageType,
                                   description: string, status: DamageStatus, reportedAt: int, checkedAt: Option<int>)

  /** The optional type and status filters; enum members are always truthy. */
  function DamageQuery(damageType: Option<DamageType>, status: Option<DamageStatus>): DamageReport -> bool
  {
    (d: DamageReport) => (damageType.Some? ==> d.damageType == damageType.value) &&
                         (status.Some? ==> d.status == status.value)
  }

  function DamageRows(reports: seq<DamageReport>, damageType: Option<DamageType>, status: Option<DamageStatus>)
    : seq<DamageReport>
  {
    Filter(reports, DamageQuery(damageType, status))
  }

  /** The reporter as the handlers look it up: the report's user id compared with student
      ids. */
  function ReporterAsWritten(students: seq<Student>, reportedBy: int): (r: Option<Student>)
    ensures r.Some? ==> r.value in students && r.value.id == reportedBy
  {
    StudentById(students, reportedBy)
  }

  /** The reporter's student record: the one the reporting user account is linked to. */
  function Reporter(students: seq<Student>, users: seq<User>, reportedBy: int): (r: Option<Student>)
    ensures r.Some? ==> r.value in students && UserById(users, reportedBy).Some? &&
                        UserById(users, reportedBy).value.studentId == Some(r.value.id)
    ensures (forall i :: 0 <= i < |users| ==> users[i].id != reportedBy) ==> r.None?
    ensures UserById(users, reportedBy).Some? && UserById(users, reportedBy).value.studentId.None? ==> r.None?
  {
    match UserById(users, reportedBy)
    case None => None
    case Some(u) => StudentByLink(students, u.studentId)
  }

  /** A teacher's report, where teacher user 1 has no student link and student 1 exists: the
      handlers attribute it to student 1. */
  lemma ReporterAsWrittenMisattributes()
    ensures var st := Student(1, "Anna", "Petrova", None, "5A", None, Some("+70000000000"), None, true);
            var teacher := User(1, "teacher", None, "hash", Teacher, true, None);
            ReporterAsWritten([st], 1) == Some(st) && Reporter([st], [teacher], 1) == None
  {
    var st := Student(1, "Anna", "Petrova", None, "5A", None, Some("+70000000000"), None, true);
    var teacher := User(1, "teacher", None, "hash", Teacher, true, None);
    assert StudentById([st], 1) != None;
    assert UserById([teacher], 1) == Some(teacher);
  }

  /** How a report's `reported_by` is turned into a student: as the damage summary does it
      (a student id), or through the reporting user's link (the evident intent). */
  function AsWrittenReporter(students: seq<Student>): int -> Option<Student>
  {
    (id: int) => ReporterAsWritten(students, id)
  }

  function LinkedReporter(students: seq<Student>, users: seq<User>): int -> Option<Student>
  {
    (id: int) => Reporter(students, users, id)
  }

  /** The report's line when its textbook and reporter exist and the reporter is of the
      grade (when one is given). */
  function DamageItem(reporter: int -> Option<Student>, textbooks: seq<Textbook>, grade: Option<string>,
                      d: DamageReport): Option<(Student, DamageLine)>
  {
    match TextbookById(textbooks, d.textbookId)
    case None => None
    case Some(tb) =>
      match reporter(d.reportedBy)
      case None => None
      case Some(st) =>
        if Truthy(grade) && st.grade != grade.value then None
        else Some((st, DamageLine(d.id, tb.id, tb.subject + ": " + tb.title, d.damageType, d.description, d.status,
                                  d.reportedAt, d.checkedAt)))
  }

  function DamageEntry(reporter: int -> Option<Student>, textbooks: seq<Textbook>, grade: Option<string>)
    : DamageReport -> Option<(Student, DamageLine)>
  {
    (d: DamageReport) => DamageItem(reporter, textbooks, grade, d)
  }

  function DamageGroups(reporter: int -> Option<Student>, textbooks: seq<Textbook>, reports: seq<DamageReport>,
                        grade: Option<string>, damageType: Option<DamageType>, status: Option<DamageStatus>)
    : seq<Group<DamageLine>>
  {
    FoldGroups(DamageRows(reports, damageType, status), DamageEntry(reporter, textbooks, grade))
  }

  /** Where a report is filed: as written, under the student whose id equals the reporting
      user's id; with the linked lookup, under the student that user's account is linked
      to. */
  lemma DamageItemAttribution(students: seq<Student>, users: seq<User>, textbooks: seq<Textbook>, grade: Option<string>,
                              d: DamageReport)
    ensures var e := DamageItem(AsWrittenReporter(students), textbooks, grade, d);
            e.Some? <==> TextbookById(textbooks, d.textbookId).Some? && StudentById(students, d.reportedBy).Some? &&
                         (Truthy(grade) ==> StudentById(students, d.reportedBy).value.grade == grade.value)
    ensures var e := DamageItem(AsWrittenReporter(students), textbooks, grade, d);
            e.Some? ==> e.value.0 in students && e.value.0.id == d.reportedBy
    ensures var e := DamageItem(LinkedReporter(students, users), textbooks, grade, d);
            e.Some? ==> e.value.0 in students && UserById(users, d.reportedBy).Some? &&
                        UserById(users, d.reportedBy).value.studentId == Some(e.value.0.id)
  {
  }

  /** The teacher's report of the misattribution example, on a textbook that exists: the
      summary as written files it under student 1; the linked lookup leaves it out. */
  lemma DamageSummaryAsWrittenMisattributes()
    ensures var st := Student(1, "Anna", "Petrova", None, "5A", None, Some("+70000000000"), None, true);
            var teacher := User(1, "teacher", None, "hash", Teacher, true, None);
            var tb := Textbook(1, "TEXTBOOK_0", "Math", "Algebra", None, None, None, None, None, None, None, true);
            var d := DamageReport(1, 1, 1, Minor, "torn page", [], Pending, None, None, 0, None);
            |DamageGroups(AsWrittenReporter([st]), [tb], [d], None, None, None)| == 1 &&
            DamageGroups(AsWrittenReporter([st]), [tb], [d], None, None, None)[0].student == st &&
            DamageGroups(LinkedReporter([st], [teacher]), [tb], [d], None, None, None) == []
  {
    var st := Student(1, "Anna", "Petrova", None, "5A", None, Some("+70000000000"), None, true);
    var teacher := User(1, "teacher", None, "hash", Teacher, true, None);
    var tb := Textbook(1, "TEXTBOOK_0", "Math", "Algebra", None, None, None, None, None, None, None, true);
    var d := DamageReport(1, 1, 1, Minor, "torn page", [], Pending, None, None, 0, None);
    assert DamageRows([d], None, None) == [d];
    assert [d][..0] == [];
    assert TextbookById([tb], 1) == Some(tb);
    ReporterAsWrittenMisattributes();
    var line := DamageItem(AsWrittenReporter([st]), [tb], None, d).value.1;
    assert DamageItem(AsWrittenReporter([st]), [tb], None, d) == Some((st, line));
    assert DamageItem(LinkedReporter([st], [teacher]), [tb], None, d) == None;
    assert GroupIndex<DamageLine>([], 1) == None;
  }

  /** `damage_type_statistics`: a type is a key exactly when some report has it, and maps
      to the number of reports of that type. */
  ghost predicate TypeTallyOk(reports: seq<DamageReport>, m: map<DamageType, nat>)
  {
    forall t: DamageType ::
      (t in m <==> Count(reports, DamageReports.HasType(t)) > 0) &&
      (t in m ==> m[t] == Count(reports, DamageReports.HasType(t)))
  }

  method TypeTally(reports: seq<DamageReport>) returns (m: map<DamageType, nat>)
    ensures TypeTallyOk(reports, m)
  {
    m := map[];
    var j := 0;
    while j < |reports|
      invariant 0 <= j <= |reports|
      invariant TypeTallyOk(reports[..j], m)
    {
      var d := reports[j];
      assert reports[..j + 1][..j] == reports[..j];
      if d.damageType !in m {
        m := m[d.damageType := 0];
      }
      m := m[d.damageType := m[d.damageType] + 1];
      j := j + 1;
    }
    assert reports[..|reports|] == reports;
  }

  function Tallied(m: map<DamageType, nat>, t: DamageType): nat
  {
    if t in m then m[t] else 0
  }

  datatype DamageSummary = DamageSummary(totalReports: nat, pendingReports: nat, checkedReports: nat,
                                         typeStatistics: map<DamageType, nat>, students: seq<Group<DamageLine>>)

  /** The statistics are over every filtered report, whatever the grade keeps in the
      grouped part. */
  method GetDamageSummary(db: Db, grade: Option<string>, damageType: Option<DamageType>, status: Option<DamageStatus>)
    returns (r: DamageSummary)
    ensures var rows := DamageRows(db.damageReports, damageType, status);
            r.students == DamageGroups(AsWrittenReporter(db.students), db.textbooks, db.damageReports, grade, damageType, status) &&
            r.totalReports == |rows| &&
            r.pendingReports == Count(rows, DamageReports.HasStatus(Pending)) &&
            r.checkedReports == Count(rows, DamageReports.HasStatus(Checked)) &&
            TypeTallyOk(rows, r.typeStatistics)
  {
    var rows := DamageRows(db.damageReports, damageType, status);
    var entry := DamageEntry(AsWrittenReporter(db.students), db.textbooks, grade);
    var groups := GroupRows(rows, entry);
    var stats := TypeTally(rows);
    r := DamageSummary(|rows|, Count(rows, DamageReports.HasStatus(Pending)), Count(rows, DamageReports.HasStatus(Checked)),
                       stats, groups);
  }

  /** Pending and checked split the total, the per-type counts add up to it, and a status
      filter leaves reports of that status only. */
  lemma DamageSummaryTotals(reports: seq<DamageReport>, damageType: Option<DamageType>, status: Option<DamageStatus>,
                            m: map<DamageType, nat>)
    requires TypeTallyOk(DamageRows(reports, damageType, status), m)
    ensures var rows := DamageRows(reports, damageType, status);
            Count(rows, DamageReports.HasStatus(Pending)) + Count(rows, DamageReports.HasStatus(Checked)) == |rows| &&
            Tallied(m, Minor) + Tallied(m, Moderate) + Tallied(m, Severe) + Tallied(m, Lost) == |rows| &&
            (status.Some? ==> Count(rows, DamageReports.HasStatus(status.value)) == |rows|)
  {
    var rows := DamageRows(reports, damageType, status);
    CountSplit(rows, DamageReports.HasStatus(Pending), DamageReports.HasStatus(Checked));
    DamageReports.TypeCountsSum(rows);
    assert Tallied(m, Minor) == Count(rows, DamageReports.HasType(Minor));
    assert Tallied(m, Moderate) == Count(rows, DamageReports.HasType(Moderate));
    assert Tallied(m, Severe) == Count(rows, DamageReports.HasType(Severe));
    assert Tallied(m, Lost) == Count(rows, DamageReports.HasType(Lost));
    if status.Some? {
      CountSame(rows, DamageReports.HasStatus(status.value), Any());
      CountAll(rows);
    }
  }

  /** A predicate true everywhere counts every element. */
  lemma {:induction false} CountAll<T>(s: seq<T>)
    ensures Count(s, Any()) == |s|
  {
    if |s| > 0 {
      CountAll(s[..|s| - 1]);
    }
  }

  /** The line stands for a report in the table, on the line's textbook, whose reporter the
      lookup resolves to the group's student. */
  predicate ReportedBy(reporter: int -> Option<Student>, reports: seq<DamageReport>, st: Student, l: DamageLine)
  {
    exists d :: d in reports && d.id == l.reportId && d.textbookId == l.textbookId && reporter(d.reportedBy) == Some(st)
  }

  function DamageFits(reporter: int -> Option<Student>, reports: seq<DamageReport>, grade: Option<string>,
                      damageType: Option<DamageType>, status: Option<DamageStatus>)
    : (Student, DamageLine) -> bool
  {
    (st: Student, l: DamageLine) => ReportedBy(reporter, reports, st, l) && (Truthy(grade) ==> st.grade == grade.value) &&
                                    (damageType.Some? ==> l.damageType == damageType.value) &&
                                    (status.Some? ==> l.status == status.value)
  }

  /** Every listed student is the stored student of its id, of the grade when one is given;
      every listed report is a row of the table on that textbook, with the requested type
      and status, whose reporter resolves to the student it is listed under: as written the
      student whose id is `reported_by`, through the linked lookup the reporting user's
      student. */
  lemma DamageSummaryFit(students: seq<Student>, users: seq<User>, textbooks: seq<Textbook>, reports: seq<DamageReport>,
                         grade: Option<string>, damageType: Option<DamageType>, status: Option<DamageStatus>)
    ensures AllFit(DamageGroups(AsWrittenReporter(students), textbooks, reports, grade, damageType, status),
                   DamageFits(AsWrittenReporter(students), reports, grade, damageType, status), Lookup(students))
    ensures AllFit(DamageGroups(LinkedReporter(students, users), textbooks, reports, grade, damageType, status),
                   DamageFits(LinkedReporter(students, users), reports, grade, damageType, status), Lookup(students))
  {
    DamageGroupsFit(AsWrittenReporter(students), students, textbooks, reports, grade, damageType, status);
    DamageGroupsFit(LinkedReporter(students, users), students, textbooks, reports, grade, damageType, status);
  }

  lemma DamageGroupsFit(reporter: int -> Option<Student>, students: seq<Student>, textbooks: seq<Textbook>,
                        reports: seq<DamageReport>, grade: Option<string>, damageType: Option<DamageType>,
                        status: Option<DamageStatus>)
    requires forall id :: reporter(id).Some? ==> StudentById(students, reporter(id).value.id) == reporter(id)
    ensures AllFit(DamageGroups(reporter, textbooks, reports, grade, damageType, status),
                   DamageFits(reporter, reports, grade, damageType, status), Lookup(students))
  {
    var rows := DamageRows(reports, damageType, status);
    var entry := DamageEntry(reporter, textbooks, grade);
    forall d | d in rows && entry(d).Some?
      ensures DamageFits(reporter, reports, grade, damageType, status)(entry(d).value.0, entry(d).value.1) &&
              Lookup(students)(entry(d).value.0.id) == Some(entry(d).value.0)
    {
      FilterMembership(reports, DamageQuery(damageType, status), d);
      assert ReportedBy(reporter, reports, entry(d).value.0, entry(d).value.1) by {
        assert d in reports && d.id == entry(d).value.1.reportId && d.textbookId == entry(d).value.1.textbookId;
      }
    }
    FoldGroupsFit(rows, entry, DamageFits(reporter, reports, grade, damageType, status), Lookup(students));
  }

  // ---------------------------------------------------------------------------
  // send_bulk_notifications

  /** The message kind a notification type asks for; both kinds need a grade. */
  function BulkKind(notificationType: string, grade: Option<string>): (r: Result<ListKind>)
    ensures r.Ok? ==> Truthy(grade)
    ensures r == Ok(BulkIssueSummary) <==> notificationType == "issue_summary" && Truthy(grade)
    ensures r == Ok(ReturnReminder) <==> notificationType == "return_reminder" && Truthy(grade)
    ensures r == Err(GradeRequiredForIssueSummary) <==> notificationType == "issue_summary" && !Truthy(grade)
    ensures r == Err(GradeRequiredForReturnReminder) <==> notificationType == "return_reminder" && !Truthy(grade)
    ensures r == Err(InvalidNotificationType) <==> notificationType != "issue_summary" && notificationType != "return_reminder"
  {
    if notificationType == "issue_summary" then
      if !Truthy(grade) then Err(GradeRequiredForIssueSummary) else Ok(BulkIssueSummary)
    else if notificationType == "return_reminder" then
      if !Truthy(grade) then Err(GradeRequiredForReturnReminder) else Ok(ReturnReminder)
    else Err(InvalidNotificationType)
  }

  method SendBulkNotifications(db: Db, bot: Bot, notificationType: string, grade: Option<string>) returns (r: Result<ListKind>)
    modifies bot
    ensures r == BulkKind(notificationType, grade)
    ensures r.Err? ==> bot.outbox == old(bot.outbox)
    ensures r.Ok? ==> bot.outbox == old(bot.outbox) + BulkNotices(db.students, db.textbooks, db.transactions, grade.value, r.value)
  {
    r := BulkKind(notificationType, grade);
    if r.Ok? {
      NotifyBulk(db, bot, grade.value, r.value);
    }
  }

  // ---------------------------------------------------------------------------
  // get_textbook_history

  datatype HistoryEvent =
    | TxEvent(action: TxKind, txStatus: TxStatus)
    | DamageEvent(damageType: DamageType, damageStatus: DamageStatus)
    | FoundEvent(foundStatus: FoundStatus)

  datatype HistoryEntry = HistoryEntry(date: int, studentName: string, event: HistoryEvent)

  function NameOrUnknown(st: Option<Student>): string
  {
    if st.Some? then FullName(st.value) else "Unknown"
  }

  function TxEntry(students: seq<Student>): Transaction -> HistoryEntry
  {
    (t: Transaction) => HistoryEntry(t.issuedAt, NameOrUnknown(StudentById(students, t.studentId)), TxEvent(t.kind, t.status))
  }

  function DamageEntryOf(students: seq<Student>, users: seq<User>): DamageReport -> HistoryEntry
  {
    (d: DamageReport) => HistoryEntry(d.reportedAt, NameOrUnknown(Reporter(students, users, d.reportedBy)),
                                      DamageEvent(d.damageType, d.status))
  }

  function FoundEntryOf(students: seq<Student>, users: seq<User>): FoundReport -> HistoryEntry
  {
    (f: FoundReport) => HistoryEntry(f.foundAt, NameOrUnknown(Reporter(students, users, f.reportedBy)), FoundEvent(f.status))
  }

  function TxOf(tid: int): Transaction -> bool
  {
    (t: Transaction) => t.textbookId == tid
  }

  function FoundOf(tid: int): FoundReport -> bool
  {
    (f: FoundReport) => f.textbookId == tid
  }

  function IssuedAtKey(): Transaction -> int { (t: Transaction) => t.issuedAt }
  function ReportedAtKey(): DamageReport -> int { (d: DamageReport) => d.reportedAt }
  function FoundAtKey(): FoundReport -> int { (f: FoundReport) => f.foundAt }
  function DateKey(): HistoryEntry -> int { (e: HistoryEntry) => e.date }

  /** The three ordered queries, appended in turn: transactions, damage reports, found
      reports. */
  function Chronicle(students: seq<Student>, users: seq<User>, log: seq<Transaction>, damage: seq<DamageReport>,
                     found: seq<FoundReport>, tid: int): seq<HistoryEntry>
  {
    Map(SortBy(Filter(log, TxOf(tid)), IssuedAtKey()), TxEntry(students)) +
    Map(SortBy(Filter(damage, DamageReports.OfTextbook(tid)), ReportedAtKey()), DamageEntryOf(students, users)) +
    Map(SortBy(Filter(found, FoundOf(tid)), FoundAtKey()), FoundEntryOf(students, users))
  }

  /** The textbook and its events, sorted by date. */
  function TextbookHistory(textbooks: seq<Textbook>, students: seq<Student>, users: seq<User>, log: seq<Transaction>,
                           damage: seq<DamageReport>, found: seq<FoundReport>, tid: int)
    : Result<(Textbook, seq<HistoryEntry>)>
  {
    match TextbookById(textbooks, tid)
    case None => Err(TextbookNotFound)
    case Some(tb) => Ok((tb, SortBy(Chronicle(students, users, log, damage, found, tid), DateKey())))
  }

  /** As written the handler names `FoundReport`, which its module never imports: past the
      404 check every request fails. */
  function TextbookHistoryAsWritten(textbooks: seq<Textbook>, tid: int): (r: Result<(Textbook, seq<HistoryEntry>)>)
    ensures r.Err?
    ensures r.error == TextbookNotFound <==> forall i :: 0 <= i < |textbooks| ==> textbooks[i].id != tid
    ensures r.error != TextbookNotFound ==> r.error == InternalError
  {
    if TextbookById(textbooks, tid).None? then Err(TextbookNotFound) else Err(InternalError)
  }

  /** For every textbook that exists, the handler as written fails where the history is
      defined. */
  lemma TextbookHistoryAsWrittenFails(textbooks: seq<Textbook>, students: seq<Student>, users: seq<User>,
                                      log: seq<Transaction>, damage: seq<DamageReport>, found: seq<FoundReport>, tid: int)
    requires exists i :: 0 <= i < |textbooks| && textbooks[i].id == tid
    ensures TextbookHistoryAsWritten(textbooks, tid) == Err(InternalError)
    ensures TextbookHistory(textbooks, students, users, log, damage, found, tid).Ok?
  {
  }

  /** `for x in rows: history.append(f(x))`. */
  method AppendMapped<T, U>(acc: seq<U>, rows: seq<T>, f: T -> U) returns (r: seq<U>)
    ensures r == acc + Map(rows, f)
  {
    r := acc;
    var j := 0;
    while j < |rows|
      invariant 0 <= j <= |rows|
      invariant r == acc + Map(rows[..j], f)
    {
      PrefixStep(rows, j);
      MapAppend(rows[..j], rows[j], f);
      AppendAssoc(acc, Map(rows[..j], f), [f(rows[j])]);
      r := r + [f(rows[j])];
      j := j + 1;
    }
    assert rows[..|rows|] == rows;
  }

  method GetTextbookHistory(db: Db, tid: int) returns (r: Result<(Textbook, seq<HistoryEntry>)>)
    ensures r == TextbookHistory(db.textbooks, db.students, db.users, db.transactions, db.damageReports, db.foundReports, tid)
  {
    var textbook := TextbookById(db.textbooks, tid);
    if textbook.None? {
      return Err(TextbookNotFound);
    }
    var txs := SortBy(Filter(db.transactions, TxOf(tid)), IssuedAtKey());
    var damages := SortBy(Filter(db.damageReports, DamageReports.OfTextbook(tid)), ReportedAtKey());
    var founds := SortBy(Filter(db.foundReports, FoundOf(tid)), FoundAtKey());
    ghost var a := Map(txs, TxEntry(db.students));
    ghost var b := Map(damages, DamageEntryOf(db.students, db.users));
    ghost var c := Map(founds, FoundEntryOf(db.students, db.users));
    assert Chronicle(db.students, db.users, db.transactions, db.damageReports, db.foundReports, tid) == a + b + c;
    var history := AppendMapped([], txs, TxEntry(db.students));
    assert [] + a == a;
    history := AppendMapped(history, damages, DamageEntryOf(db.students, db.users));
    history := AppendMapped(history, founds, FoundEntryOf(db.students, db.users));
    return Ok((textbook.value, SortBy(history, DateKey())));
  }

  lemma MapHas<T, U>(s: seq<T>, f: T -> U, x: T)
    requires x in s
    ensures f(x) in Map(s, f)
  {
    var k :| 0 <= k < |s| && s[k] == x;
    assert Map(s, f)[k] == f(x);
  }

  lemma SortedHas<T>(s: seq<T>, key: T -> int, x: T)
    requires x in s
    ensures x in SortBy(s, key)
  {
    assert x in multiset(s);
  }

  /** Sorting keeps the length. */
  lemma SortedLength<T>(s: seq<T>, key: T -> int)
    ensures |SortBy(s, key)| == |s|
  {
    assert |SortBy(s, key)| == |multiset(SortBy(s, key))|;
  }

  lemma ChronicleLength(students: seq<Student>, users: seq<User>, log: seq<Transaction>, damage: seq<DamageReport>,
                        found: seq<FoundReport>, tid: int)
    ensures |SortBy(Chronicle(students, users, log, damage, found, tid), DateKey())| ==
            |Filter(log, TxOf(tid))| + |Filter(damage, DamageReports.OfTextbook(tid))| + |Filter(found, FoundOf(tid))|
  {
    SortedLength(Chronicle(students, users, log, damage, found, tid), DateKey());
    SortedLength(Filter(log, TxOf(tid)), IssuedAtKey());
    SortedLength(Filter(damage, DamageReports.OfTextbook(tid)), ReportedAtKey());
    SortedLength(Filter(found, FoundOf(tid)), FoundAtKey());
  }

  /** An element that passes a filter has its image in the mapped, sorted selection. */
  lemma SelectedHas<T, U>(s: seq<T>, p: T -> bool, key: T -> int, f: T -> U, x: T)
    requires x in s && p(x)
    ensures f(x) in Map(SortBy(Filter(s, p), key), f)
  {
    FilterMembership(s, p, x);
    SortedHas(Filter(s, p), key, x);
    MapHas(SortBy(Filter(s, p), key), f, x);
  }

  /** The history is in date order and holds exactly one entry per transaction, damage
      report and found report of the textbook: every one of them has its entry, there are
      no more entries than those, and, as a multiset, the entries are the events' entries. */
  lemma TextbookHistoryMeaning(textbooks: seq<Textbook>, students: seq<Student>, users: seq<User>, log: seq<Transaction>,
                               damage: seq<DamageReport>, found: seq<FoundReport>, tid: int)
    requires exists i :: 0 <= i < |textbooks| && textbooks[i].id == tid
    ensures var r := TextbookHistory(textbooks, students, users, log, damage, found, tid);
            r.Ok? && r.value.0 == TextbookById(textbooks, tid).value &&
            SortedBy(r.value.1, DateKey()) &&
            |r.value.1| == |Filter(log, TxOf(tid))| + |Filter(damage, DamageReports.OfTextbook(tid))| + |Filter(found, FoundOf(tid))| &&
            (forall t :: t in log && t.textbookId == tid ==> TxEntry(students)(t) in r.value.1) &&
            (forall d :: d in damage && d.textbookId == tid ==> DamageEntryOf(students, users)(d) in r.value.1) &&
            (forall f :: f in found && f.textbookId == tid ==> FoundEntryOf(students, users)(f) in r.value.1) &&
            multiset(r.value.1) == multiset(Map(Filter(log, TxOf(tid)), TxEntry(students))) +
                                   multiset(Map(Filter(damage, DamageReports.OfTextbook(tid)), DamageEntryOf(students, users))) +
                                   multiset(Map(Filter(found, FoundOf(tid)), FoundEntryOf(students, users)))
  {
    ChronicleMultiset(students, users, log, damage, found, tid);
    ChronicleLength(students, users, log, damage, found, tid);
    ChronicleHasTransactions(students, users, log, damage, found, tid);
    ChronicleHasDamage(students, users, log, damage, found, tid);
    ChronicleHasFound(students, users, log, damage, found, tid);
  }

  /** The sorted history holds each event's entry as many times as the event occurs: the
      per-kind sorting only rearranges. */
  lemma ChronicleMultiset(students: seq<Student>, users: seq<User>, log: seq<Transaction>, damage: seq<DamageReport>,
                          found: seq<FoundReport>, tid: int)
    ensures multiset(SortBy(Chronicle(students, users, log, damage, found, tid), DateKey())) ==
            multiset(Map(Filter(log, TxOf(tid)), TxEntry(students))) +
            multiset(Map(Filter(damage, DamageReports.OfTextbook(tid)), DamageEntryOf(students, users))) +
            multiset(Map(Filter(found, FoundOf(tid)), FoundEntryOf(students, users)))
  {
    var txs := Filter(log, TxOf(tid));
    var damages := Filter(damage, DamageReports.OfTextbook(tid));
    var founds := Filter(found, FoundOf(tid));
    MapMultiset(SortBy(txs, IssuedAtKey()), txs, TxEntry(students));
    MapMultiset(SortBy(damages, ReportedAtKey()), damages, DamageEntryOf(students, users));
    MapMultiset(SortBy(founds, FoundAtKey()), founds, FoundEntryOf(students, users));
  }

  lemma ChronicleHasTransactions(students: seq<Student>, users: seq<User>, log: seq<Transaction>, damage: seq<DamageReport>,
                                 found: seq<FoundReport>, tid: int)
    ensures forall t :: t in log && t.textbookId == tid ==>
              TxEntry(students)(t) in SortBy(Chronicle(students, users, log, damage, found, tid), DateKey())
  {
    var all := Chronicle(students, users, log, damage, found, tid);
    forall t | t in log && t.textbookId == tid ensures TxEntry(students)(t) in SortBy(all, DateKey()) {
      SelectedHas(log, TxOf(tid), IssuedAtKey(), TxEntry(students), t);
      SortedHas(all, DateKey(), TxEntry(students)(t));
    }
  }

  lemma ChronicleHasDamage(students: seq<Student>, users: seq<User>, log: seq<Transaction>, damage: seq<DamageReport>,
                           found: seq<FoundReport>, tid: int)
    ensures forall d :: d in damage && d.textbookId == tid ==>
              DamageEntryOf(students, users)(d) in SortBy(Chronicle(students, users, log, damage, found, tid), DateKey())
  {
    var all := Chronicle(students, users, log, damage, found, tid);
    forall d | d in damage && d.textbookId == tid ensures DamageEntryOf(students, users)(d) in SortBy(all, DateKey()) {
      SelectedHas(damage, DamageReports.OfTextbook(tid), ReportedAtKey(), DamageEntryOf(students, users), d);
      SortedHas(all, DateKey(), DamageEntryOf(students, users)(d));
    }
  }

  lemma ChronicleHasFound(students: seq<Student>, users: seq<User>, log: seq<Transaction>, damage: seq<DamageReport>,
                          found: seq<FoundReport>, tid: int)
    ensures forall f :: f in found && f.textbookId == tid ==>
              FoundEntryOf(students, users)(f) in SortBy(Chronicle(students, users, log, damage, found, tid), DateKey())
  {
    var all := Chronicle(students, users, log, damage, found, tid);
    forall f | f in found && f.textbookId == tid ensures FoundEntryOf(students, users)(f) in SortBy(all, DateKey()) {
      SelectedHas(found, FoundOf(tid), FoundAtKey(), FoundEntryOf(students, users), f);
      SortedHas(all, DateKey(), FoundEntryOf(students, users)(f));
    }
  }

}
