/** The endpoints a student account uses: its textbooks, the QR lookup, damage, loss and
    find reports, and the damage-check reminder. `user` has passed `StudentGate`; its
    `studentId` links it to a student record and may be absent (SQL NULL, which no row
    matches). */
module StudentActions {
  import opened Common
  import opened Entities
  import opened Ledger
  import opened StudentModel
  import opened Store
  import opened Uploads
  import opened Auth
  import opened DamageReportSchema
  import opened FoundReportSchema

  /** `get_current_student`, behind `get_current_active_user`. */
  function StudentGate(u: User): (r: Result<User>)
    ensures r.Ok? <==> u.isActive && u.role == StudentRole
    ensures r.Ok? ==> r.value == u
    ensures !u.isActive ==> r == Err(InactiveUser)
    ensures u.isActive && u.role != StudentRole ==> r == Err(OnlyStudents)
  {
    match ActiveGate(u)
    case Err(e) => Err(e)
    case Ok(user) => if user.role != StudentRole then Err(OnlyStudents) else Ok(user)
  }

  // ---------------------------------------------------------------------------
  // get_my_textbooks

  datatype MyTextbook = MyTextbook(
    textbookId: int, qrCode: string, subject: string, title: string, author: Option<string>,
    issuedAt: int, photos: seq<string>)

  /** The entry for one completed issue: none once the textbook has a completed return, or
      when its textbook row is missing. */
  function MyEntry(textbooks: seq<Textbook>, log: seq<Transaction>, loan: Transaction): seq<MyTextbook>
  {
    if HasReturn(log, loan.textbookId) then []
    else match TextbookById(textbooks, loan.textbookId)
      case None => []
      case Some(t) => [MyTextbook(t.id, t.qrCode, t.subject, t.title, t.author, loan.issuedAt, loan.photos)]
  }

  function MyEntryOf(textbooks: seq<Textbook>, log: seq<Transaction>): Transaction -> seq<MyTextbook>
  {
    (loan: Transaction) => MyEntry(textbooks, log, loan)
  }

  function MyTextbooks(textbooks: seq<Textbook>, log: seq<Transaction>, sid: Option<int>): seq<MyTextbook>
  {
    Collect(IssuesOf(log, sid), MyEntryOf(textbooks, log))
  }

  /** An entry is listed exactly when it describes a completed issue to the caller whose
      textbook has no completed return and still exists; so the list follows the caller's
      active loans. */
  lemma MyTextbooksMeaning(textbooks: seq<Textbook>, log: seq<Transaction>, sid: Option<int>, e: MyTextbook)
    ensures e in MyTextbooks(textbooks, log, sid) <==>
            exists t :: t in ActiveLoans(log, sid) && TextbookById(textbooks, t.textbookId).Some? && e in MyEntry(textbooks, log, t)
  {
    if e in MyTextbooks(textbooks, log, sid) {
      MyTextbooksSound(textbooks, log, sid, e);
    }
    if exists t :: t in ActiveLoans(log, sid) && TextbookById(textbooks, t.textbookId).Some? && e in MyEntry(textbooks, log, t) {
      var t :| t in ActiveLoans(log, sid) && TextbookById(textbooks, t.textbookId).Some? && e in MyEntry(textbooks, log, t);
      MyTextbooksComplete(textbooks, log, sid, t, e);
    }
  }

  lemma MyTextbooksSound(textbooks: seq<Textbook>, log: seq<Transaction>, sid: Option<int>, e: MyTextbook)
    requires e in MyTextbooks(textbooks, log, sid)
    ensures exists t :: t in ActiveLoans(log, sid) && TextbookById(textbooks, t.textbookId).Some? && e in MyEntry(textbooks, log, t)
  {
    var issued := IssuesOf(log, sid);
    var f := MyEntryOf(textbooks, log);
    CollectMembership(issued, f, e);
    var i :| 0 <= i < |issued| && e in f(issued[i]);
    var t := issued[i];
    assert e in MyEntry(textbooks, log, t);
    FilterMembership(log, IssuedTo(sid), t);
    ActiveLoansMembership(log, sid, t);
  }

  lemma MyTextbooksComplete(textbooks: seq<Textbook>, log: seq<Transaction>, sid: Option<int>, t: Transaction, e: MyTextbook)
    requires t in ActiveLoans(log, sid) && e in MyEntry(textbooks, log, t)
    ensures e in MyTextbooks(textbooks, log, sid)
  {
    var issued := IssuesOf(log, sid);
    var f := MyEntryOf(textbooks, log);
    ActiveLoansMembership(log, sid, t);
    FilterMembership(log, IssuedTo(sid), t);
    var i :| 0 <= i < |issued| && issued[i] == t;
    assert e in f(issued[i]);
    CollectMembership(issued, f, e);
  }

  /** One iteration of the loop: skip a returned textbook or a missing row. */
  method MyEntryFor(db: Db, t: Transaction) returns (entry: seq<MyTextbook>)
    ensures entry == MyEntry(db.textbooks, db.transactions, t)
  {
    entry := [];
    if FirstReturn(db.transactions, t.textbookId).None? {
      var textbook := TextbookById(db.textbooks, t.textbookId);
      if textbook.Some? {
        var tb := textbook.value;
        entry := [MyTextbook(tb.id, tb.qrCode, tb.subject, tb.title, tb.author, t.issuedAt, t.photos)];
      }
    }
  }

  method GetMyTextbooks(db: Db, user: User) returns (r: seq<MyTextbook>)
    ensures r == MyTextbooks(db.textbooks, db.transactions, user.studentId)
  {
    var log := db.transactions;
    var issued := IssuesOf(log, user.studentId);
    var f := MyEntryOf(db.textbooks, log);
    r := [];
    var j := 0;
    while j < |issued|
      invariant 0 <= j <= |issued|
      invariant r == Collect(issued[..j], f)
    {
      var t := issued[j];
      CollectAppend(issued[..j], t, f);
      PrefixStep(issued, j);
      var entry := MyEntryFor(db, t);
      assert f(t) == entry;
      r := r + entry;
      j := j + 1;
    }
    assert issued[..|issued|] == issued;
  }

  // ---------------------------------------------------------------------------
  // get_textbook_info_by_qr

  datatype QrInfo =
    | Available(textbook: Textbook)
    | OnLoan(textbook: Textbook, issuedTo: string, isMine: bool, issuedAt: int)

  /** "available" unless the textbook has a completed issue and no completed return; for a
      loan, the holder's name ("Unknown" without a student row) and whether it is the
      caller's. */
  function TextbookInfo(students: seq<Student>, textbooks: seq<Textbook>, log: seq<Transaction>, user: User, code: string): (r: Result<QrInfo>)
    ensures r.Err? <==> forall i :: 0 <= i < |textbooks| ==> textbooks[i].qrCode != code
    ensures r.Err? ==> r.error == TextbookNotFound
    ensures r.Ok? ==> r.value.textbook in textbooks && r.value.textbook.qrCode == code &&
                      (r.value.OnLoan? <==> IsOut(log, r.value.textbook.id))
    ensures r.Ok? && r.value.OnLoan? ==>
              var issue := FirstIssue(log, r.value.textbook.id).value;
              (r.value.isMine <==> user.studentId == Some(issue.studentId)) && r.value.issuedAt == issue.issuedAt
  {
    match TextbookByQr(textbooks, code)
    case None => Err(TextbookNotFound)
    case Some(t) =>
      match FirstIssue(log, t.id)
      case None => Ok(Available(t))
      case Some(issue) =>
        if HasReturn(log, t.id) then Ok(Available(t))
        else
          var holder := StudentById(students, issue.studentId);
          var name := if holder.Some? then FullName(holder.value) else "Unknown";
          Ok(OnLoan(t, name, Some(issue.studentId) == user.studentId, issue.issuedAt))
  }

  /** On every log the endpoints build, the lookup agrees with the chronological reading:
      "issued" exactly when someone holds the textbook, and "mine" exactly when the caller
      does. */
  lemma TextbookInfoAgreesWithHolder(students: seq<Student>, textbooks: seq<Textbook>, log: seq<Transaction>, user: User, code: string)
    requires LedgerOk(log)
    requires TextbookInfo(students, textbooks, log, user, code).Ok?
    ensures var info := TextbookInfo(students, textbooks, log, user, code).value;
            (info.OnLoan? <==> Holder(log, info.textbook.id).Some?) &&
            (info.OnLoan? ==> (info.isMine <==> user.studentId.Some? && Holder(log, info.textbook.id) == user.studentId))
  {
    var info := TextbookInfo(students, textbooks, log, user, code).value;
    HolderAgreesWithCoarseRule(log, info.textbook.id);
  }

  // ---------------------------------------------------------------------------
  // The guards shared by report_damage and report_lost_textbook

  function IssueToMe(tid: int, sid: Option<int>): Transaction -> bool
  {
    (t: Transaction) => IsCompletedIssue(t) && t.textbookId == tid && sid == Some(t.studentId)
  }

  /** The completed issue of the textbook to the caller's student record. */
  function MyIssue(log: seq<Transaction>, tid: int, sid: Option<int>): Option<Transaction>
  {
    FirstWhere(log, IssueToMe(tid, sid))
  }

  /** "not issued to you" unless some completed issue of the textbook names the caller's
      student; then "already returned" if any completed return of it exists. */
  function HolderRefusal(log: seq<Transaction>, tid: int, sid: Option<int>): (r: Option<Error>)
    ensures r == Some(NotIssuedToYou) <==>
              forall i :: 0 <= i < |log| ==> !(IsCompletedIssue(log[i]) && log[i].textbookId == tid && sid == Some(log[i].studentId))
    ensures r == Some(TextbookAlreadyReturned) <==>
              MyIssue(log, tid, sid).Some? && exists i :: 0 <= i < |log| && IsCompletedReturn(log[i]) && log[i].textbookId == tid
    ensures r.None? <==> MyIssue(log, tid, sid).Some? && !HasReturn(log, tid)
  {
    ReturnFound(log, tid);
    if MyIssue(log, tid, sid).None? then Some(NotIssuedToYou)
    else if HasReturn(log, tid) then Some(TextbookAlreadyReturned)
    else None
  }

  /** Under the ledger invariant, the guards pass exactly when the chronological holder of
      the textbook is the caller's student. */
  lemma HolderRefusalIsHolder(log: seq<Transaction>, tid: int, sid: Option<int>)
    requires LedgerOk(log)
    ensures HolderRefusal(log, tid, sid).None? <==> sid.Some? && Holder(log, tid) == sid
  {
    HolderAgreesWithCoarseRule(log, tid);
    IssueFound(log, tid);
    var mine := MyIssue(log, tid, sid);
    if mine.Some? {
      var i :| 0 <= i < |log| && log[i] == mine.value;
      OnlyIssue(log, tid, i);
    }
    if HasIssue(log, tid) && sid == Some(FirstIssue(log, tid).value.studentId) {
      var j :| 0 <= j < |log| && log[j] == FirstIssue(log, tid).value;
      assert IssueToMe(tid, sid)(log[j]);
    }
  }

  /** "the first week after the issue" (a fixed 7 days, not the configured check period). */
  predicate DuringCheckPeriod(issuedAt: int, now: int)
  {
    now <= issuedAt + 7 * Day
  }

  /** Under `Db.Valid()` a logged issue's textbook row exists. */
  lemma IssueTextbookExists(db: Db, t: Transaction)
    requires db.Valid() && t in db.transactions
    ensures TextbookById(db.textbooks, t.textbookId).Some?
    ensures TextbookById(db.textbooks, t.textbookId).value == db.textbooks[t.textbookId - 1]
  {
    var i :| 0 <= i < |db.transactions| && db.transactions[i] == t;
    TextbookByDenseId(db.textbooks, t.textbookId);
  }

  // ---------------------------------------------------------------------------
  // report_damage

  function DamageRefusal(log: seq<Transaction>, tid: int, sid: Option<int>, description: string): (r: Option<Error>)
    ensures r == Some(ValidationFailed) <==> !(10 <= |description| <= 1000)
    ensures DescriptionOk(description) ==> r == HolderRefusal(log, tid, sid)
  {
    if !DescriptionOk(description) then Some(ValidationFailed) else HolderRefusal(log, tid, sid)
  }

  datatype DamageAck = DamageAck(damageReportId: int, duringCheckPeriod: bool)

  method ReportDamage(db: Db, bot: Bot, user: User, tid: int, damageType: DamageType, description: string,
                      uploads: seq<Upload>, now: int) returns (r: Result<DamageAck>)
    requires db.Valid()
    modifies db, bot
    ensures db.Valid()
    ensures db.textbooks == old(db.textbooks) && db.students == old(db.students) && db.users == old(db.users) &&
            db.transactions == old(db.transactions) && db.foundReports == old(db.foundReports)
    ensures r.Err? <==> DamageRefusal(db.transactions, tid, user.studentId, description).Some?
    ensures r.Err? ==> r.error == DamageRefusal(db.transactions, tid, user.studentId, description).value &&
                       db.damageReports == old(db.damageReports) && bot.outbox == old(bot.outbox)
    ensures r.Ok? ==>
              var issue := MyIssue(db.transactions, tid, user.studentId).value;
              r.value == DamageAck(|old(db.damageReports)| + 1, DuringCheckPeriod(issue.issuedAt, now)) &&
              db.damageReports == old(db.damageReports) +
                [DamageReport(r.value.damageReportId, tid, user.id, damageType, description,
                              ImagePaths("damage", uploads), Pending, None, None, now, None)] &&
              TextbookById(db.textbooks, tid).Some? &&
              bot.outbox == old(bot.outbox) +
                [DamageNotice(user.username, TextbookById(db.textbooks, tid).value.title, damageType, r.value.duringCheckPeriod)]
  {
    var refusal := DamageRefusal(db.transactions, tid, user.studentId, description);
    if refusal.Some? {
      return Err(refusal.value);
    }
    var issue := MyIssue(db.transactions, tid, user.studentId).value;
    IssueTextbookExists(db, issue);
    var photos := SavePhotos("damage", uploads);
    var during := now <= issue.issuedAt + 7 * Day;
    var report := DamageReport(|db.damageReports| + 1, tid, user.id, damageType, description, photos, Pending, None, None, now, None);
    db.AddDamageReport(report);
    var textbook := TextbookById(db.textbooks, issue.textbookId).value;
    bot.Send(DamageNotice(user.username, textbook.title, damageType, during));
    return Ok(DamageAck(report.id, during));
  }

  // ---------------------------------------------------------------------------
  // report_lost_textbook

  /** The report is committed before the student row is read; when that row is missing the
      handler fails afterwards (500), with the report kept and nothing sent. */
  method ReportLost(db: Db, bot: Bot, user: User, tid: int, description: string, now: int) returns (r: Result<int>)
    requires db.Valid()
    modifies db, bot
    ensures db.Valid()
    ensures db.textbooks == old(db.textbooks) && db.students == old(db.students) && db.users == old(db.users) &&
            db.transactions == old(db.transactions) && db.foundReports == old(db.foundReports)
    ensures DamageRefusal(db.transactions, tid, user.studentId, description).Some? ==>
              r == Err(DamageRefusal(db.transactions, tid, user.studentId, description).value) &&
              db.damageReports == old(db.damageReports) && bot.outbox == old(bot.outbox)
    ensures DamageRefusal(db.transactions, tid, user.studentId, description).None? ==>
              db.damageReports == old(db.damageReports) +
                [DamageReport(|old(db.damageReports)| + 1, tid, user.id, Lost, description, [], Pending, None, None, now, None)]
    ensures r == Err(InternalError) <==>
              DamageRefusal(db.transactions, tid, user.studentId, description).None? && StudentByLink(db.students, user.studentId).None?
    ensures r == Err(InternalError) ==> bot.outbox == old(bot.outbox)
    ensures r.Ok? ==>
              r.value == |old(db.damageReports)| + 1 &&
              StudentByLink(db.students, user.studentId).Some? && TextbookById(db.textbooks, tid).Some? &&
              var st := StudentByLink(db.students, user.studentId).value;
              bot.outbox == old(bot.outbox) + [LostNotice(FullName(st), TextbookById(db.textbooks, tid).value.title, st.parentPhone)]
  {
    var refusal := DamageRefusal(db.transactions, tid, user.studentId, description);
    if refusal.Some? {
      return Err(refusal.value);
    }
    var issue := MyIssue(db.transactions, tid, user.studentId).value;
    IssueTextbookExists(db, issue);
    var report := DamageReport(|db.damageReports| + 1, tid, user.id, Lost, description, [], Pending, None, None, now, None);
    db.AddDamageReport(report);
    var student := StudentByLink(db.students, user.studentId);
    if student.None? {
      return Err(InternalError);
    }
    var textbook := TextbookById(db.textbooks, issue.textbookId).value;
    bot.Send(LostNotice(FullName(student.value), textbook.title, student.value.parentPhone));
    return Ok(report.id);
  }

  // ---------------------------------------------------------------------------
  // report_found_textbook

  function FoundRefusal(textbooks: seq<Textbook>, code: string, location: string, description: Option<string>): (r: Option<Error>)
    ensures r == Some(ValidationFailed) <==> !(5 <= |location| <= 200) || (description.Some? && |description.value| > 500)
    ensures r == Some(TextbookNotFound) <==>
              LocationOk(location) && TextOk(description) && forall i :: 0 <= i < |textbooks| ==> textbooks[i].qrCode != code
    ensures r.None? <==> LocationOk(location) && TextOk(description) && TextbookByQr(textbooks, code).Some?
  {
    if !(LocationOk(location) && TextOk(description)) then Some(ValidationFailed)
    else if TextbookByQr(textbooks, code).None? then Some(TextbookNotFound)
    else None
  }

  method ReportFound(db: Db, bot: Bot, user: User, code: string, location: string, description: Option<string>,
                     uploads: seq<Upload>, now: int) returns (r: Result<int>)
    requires db.Valid()
    modifies db, bot
    ensures db.Valid()
    ensures db.textbooks == old(db.textbooks) && db.students == old(db.students) && db.users == old(db.users) &&
            db.transactions == old(db.transactions) && db.damageReports == old(db.damageReports)
    ensures FoundRefusal(db.textbooks, code, location, description).Some? ==>
              r == Err(FoundRefusal(db.textbooks, code, location, description).value) &&
              db.foundReports == old(db.foundReports) && bot.outbox == old(bot.outbox)
    ensures FoundRefusal(db.textbooks, code, location, description).None? ==>
              var t := TextbookByQr(db.textbooks, code).value;
              db.foundReports == old(db.foundReports) +
                [FoundReport(|old(db.foundReports)| + 1, t.id, location, description, ImagePaths("found", uploads),
                             Found, None, user.id, None, now, None)] &&
              (r == Err(InternalError) <==> StudentByLink(db.students, user.studentId).None?) &&
              (r == Err(InternalError) ==> bot.outbox == old(bot.outbox)) &&
              (r.Ok? ==> r.value == |old(db.foundReports)| + 1 &&
                         bot.outbox == old(bot.outbox) +
                           [FoundNotice(FullName(StudentByLink(db.students, user.studentId).value), t.title, location)])
  {
    var refusal := FoundRefusal(db.textbooks, code, location, description);
    if refusal.Some? {
      return Err(refusal.value);
    }
    var textbook := TextbookByQr(db.textbooks, code).value;
    var photos := SavePhotos("found", uploads);
    var report := FoundReport(|db.foundReports| + 1, textbook.id, location, description, photos, Found, None, user.id, None, now, None);
    db.AddFoundReport(report);
    var student := StudentByLink(db.students, user.studentId);
    if student.None? {
      return Err(InternalError);
    }
    bot.Send(FoundNotice(FullName(student.value), textbook.title, location));
    return Ok(report.id);
  }

  // ---------------------------------------------------------------------------
  // get_damage_reminder

  datatype ReminderItem = ReminderItem(textbookId: int, subject: string, title: string, issuedAt: int, deadline: int)

  /** The caller's completed issues recorded at or after `since`. */
  function IssuedToMeSince(sid: Option<int>, since: int): Transaction -> bool
  {
    (t: Transaction) => sid == Some(t.studentId) && IsCompletedIssue(t) && t.issuedAt >= since
  }

  function ReportOfBy(tid: int, uid: int): DamageReport -> bool
  {
    (d: DamageReport) => d.textbookId == tid && d.reportedBy == uid
  }

  /** The reminder entry for one recent issue: none once the caller has filed any damage
      report for that textbook, or when the textbook row is missing. */
  function ReminderFor(textbooks: seq<Textbook>, reports: seq<DamageReport>, uid: int, t: Transaction): seq<ReminderItem>
  {
    if |Filter(reports, ReportOfBy(t.textbookId, uid))| > 0 then []
    else match TextbookById(textbooks, t.textbookId)
      case None => []
      case Some(tb) => [ReminderItem(tb.id, tb.subject, tb.title, t.issuedAt, t.issuedAt + 7 * Day)]
  }

  function ReminderOf(textbooks: seq<Textbook>, reports: seq<DamageReport>, uid: int): Transaction -> seq<ReminderItem>
  {
    (t: Transaction) => ReminderFor(textbooks, reports, uid, t)
  }

  function DamageReminder(textbooks: seq<Textbook>, log: seq<Transaction>, reports: seq<DamageReport>, user: User, now: int): seq<ReminderItem>
  {
    Collect(Filter(log, IssuedToMeSince(user.studentId, now - 7 * Day)), ReminderOf(textbooks, reports, user.id))
  }

  /** Every listed textbook was issued to the caller within the last 7 days, has no damage
      report by the caller, and its deadline (issue + 7 days) has not passed; conversely
      every such issue with an existing textbook is listed. */
  lemma DamageReminderMeaning(textbooks: seq<Textbook>, log: seq<Transaction>, reports: seq<DamageReport>, user: User, now: int, item: ReminderItem)
    ensures item in DamageReminder(textbooks, log, reports, user, now) <==>
            exists t :: RecentUnreported(log, reports, user, now, t) && item in ReminderFor(textbooks, reports, user.id, t)
    ensures item in DamageReminder(textbooks, log, reports, user, now) ==> item.deadline == item.issuedAt + 7 * Day >= now
  {
    if item in DamageReminder(textbooks, log, reports, user, now) {
      DamageReminderSound(textbooks, log, reports, user, now, item);
    }
    if exists t :: RecentUnreported(log, reports, user, now, t) && item in ReminderFor(textbooks, reports, user.id, t) {
      var t :| RecentUnreported(log, reports, user, now, t) && item in ReminderFor(textbooks, reports, user.id, t);
      DamageReminderComplete(textbooks, log, reports, user, now, t, item);
    }
  }

  /** A completed issue to the caller in the last 7 days, of a textbook the caller has filed
      no damage report for. */
  predicate RecentUnreported(log: seq<Transaction>, reports: seq<DamageReport>, user: User, now: int, t: Transaction)
  {
    t in log && IsCompletedIssue(t) && user.studentId == Some(t.studentId) && t.issuedAt >= now - 7 * Day &&
    forall i :: 0 <= i < |reports| ==> !(reports[i].textbookId == t.textbookId && reports[i].reportedBy == user.id)
  }

  lemma DamageReminderSound(textbooks: seq<Textbook>, log: seq<Transaction>, reports: seq<DamageReport>, user: User, now: int, item: ReminderItem)
    requires item in DamageReminder(textbooks, log, reports, user, now)
    ensures exists t :: RecentUnreported(log, reports, user, now, t) && item in ReminderFor(textbooks, reports, user.id, t)
    ensures item.deadline == item.issuedAt + 7 * Day >= now
  {
    var p := IssuedToMeSince(user.studentId, now - 7 * Day);
    var recent := Filter(log, p);
    var f := ReminderOf(textbooks, reports, user.id);
    CollectMembership(recent, f, item);
    var i :| 0 <= i < |recent| && item in f(recent[i]);
    var t := recent[i];
    assert item in ReminderFor(textbooks, reports, user.id, t);
    FilterMembership(log, p, t);
    ReportsNone(reports, t.textbookId, user.id);
  }

  lemma DamageReminderComplete(textbooks: seq<Textbook>, log: seq<Transaction>, reports: seq<DamageReport>, user: User, now: int,
                               t: Transaction, item: ReminderItem)
    requires RecentUnreported(log, reports, user, now, t) && item in ReminderFor(textbooks, reports, user.id, t)
    ensures item in DamageReminder(textbooks, log, reports, user, now)
  {
    var p := IssuedToMeSince(user.studentId, now - 7 * Day);
    var recent := Filter(log, p);
    var f := ReminderOf(textbooks, reports, user.id);
    FilterMembership(log, p, t);
    var i :| 0 <= i < |recent| && recent[i] == t;
    assert item in f(recent[i]);
    CollectMembership(recent, f, item);
  }

  lemma ReportsNone(reports: seq<DamageReport>, tid: int, uid: int)
    ensures |Filter(reports, ReportOfBy(tid, uid))| == 0 <==>
            forall i :: 0 <= i < |reports| ==> !(reports[i].textbookId == tid && reports[i].reportedBy == uid)
  {
    var found := Filter(reports, ReportOfBy(tid, uid));
    if |found| > 0 {
      FilterMembership(reports, ReportOfBy(tid, uid), found[0]);
    }
    if exists i :: 0 <= i < |reports| && reports[i].textbookId == tid && reports[i].reportedBy == uid {
      var i :| 0 <= i < |reports| && reports[i].textbookId == tid && reports[i].reportedBy == uid;
      FilterMembership(reports, ReportOfBy(tid, uid), reports[i]);
    }
  }

  /** One iteration of the loop: skip a textbook the caller has reported, or a missing row. */
  method ReminderItemFor(db: Db, user: User, t: Transaction) returns (item: seq<ReminderItem>)
    ensures item == ReminderFor(db.textbooks, db.damageReports, user.id, t)
  {
    item := [];
    var reports := Filter(db.damageReports, ReportOfBy(t.textbookId, user.id));
    if |reports| == 0 {
      var textbook := TextbookById(db.textbooks, t.textbookId);
      if textbook.Some? {
        var tb := textbook.value;
        item := [ReminderItem(tb.id, tb.subject, tb.title, t.issuedAt, t.issuedAt + 7 * Day)];
      }
    }
  }

  method GetDamageReminder(db: Db, user: User, now: int) returns (items: seq<ReminderItem>)
    ensures items == DamageReminder(db.textbooks, db.transactions, db.damageReports, user, now)
  {
    var recent := Filter(db.transactions, IssuedToMeSince(user.studentId, now - 7 * Day));
    var f := ReminderOf(db.textbooks, db.damageReports, user.id);
    items := [];
    var j := 0;
    while j < |recent|
      invariant 0 <= j <= |recent|
      invariant items == Collect(recent[..j], f)
    {
      var t := recent[j];
      CollectAppend(recent[..j], t, f);
      PrefixStep(recent, j);
      var item := ReminderItemFor(db, user, t);
      items := items + item;
      j := j + 1;
    }
    assert recent[..|recent|] == recent;
  }
}
