/** The parent-notification service: who is notified, about which textbooks, with what
    payload. Each `send_parent_notification` call becomes one message appended to the bot's
    outbox; the message templates and the network are not modelled. */
module ParentNotifications {
  import opened Common
  import opened Entities
  import opened Ledger
  import opened StudentModel
  import opened Store

  /** `f"• {subject}: {title}"`. */
  function TextbookLine(t: Textbook): string
  {
    "• " + t.subject + ": " + t.title
  }

  /** `f"{subject}: {title}"`. */
  function TextbookName(t: Textbook): string
  {
    t.subject + ": " + t.title
  }

  function InIds(ids: seq<int>): Textbook -> bool
  {
    (t: Textbook) => t.id in ids
  }

  /** `Textbook.id.in_(ids)`: table order, each textbook once however often its id is listed. */
  function TextbooksIn(textbooks: seq<Textbook>, ids: seq<int>): seq<Textbook>
  {
    Filter(textbooks, InIds(ids))
  }

  function Lines(tbs: seq<Textbook>): (r: seq<string>)
    ensures |r| == |tbs|
    ensures forall i :: 0 <= i < |r| ==> r[i] == TextbookLine(tbs[i])
  {
    seq(|tbs|, i requires 0 <= i < |tbs| => TextbookLine(tbs[i]))
  }

  predicate HasParentPhone(s: Student)
  {
    Truthy(s.parentPhone)
  }

  // ---------------------------------------------------------------------------
  // notify_issue_textbooks / notify_return_textbooks

  /** The messages one call sends: none when the student is unknown or has no parent phone,
      or when no listed id names a textbook; otherwise one. */
  function ListNotice(students: seq<Student>, textbooks: seq<Textbook>, sid: int, ids: seq<int>, kind: ListKind): seq<Message>
  {
    match StudentById(students, sid)
    case None => []
    case Some(st) =>
      if !HasParentPhone(st) then []
      else
        var tbs := TextbooksIn(textbooks, ids);
        if |tbs| == 0 then []
        else [ParentNotice(st.parentPhone.value, FullName(st), TextbookList(kind, Join(Lines(tbs), "\n"), |tbs|))]
  }

  lemma ListNoticeMeaning(students: seq<Student>, textbooks: seq<Textbook>, sid: int, ids: seq<int>, kind: ListKind)
    ensures ListNotice(students, textbooks, sid, ids, kind) != [] <==>
            StudentById(students, sid).Some? && HasParentPhone(StudentById(students, sid).value) &&
            exists i :: 0 <= i < |textbooks| && textbooks[i].id in ids
    ensures ListNotice(students, textbooks, sid, ids, kind) != [] ==>
            var st := StudentById(students, sid).value;
            ListNotice(students, textbooks, sid, ids, kind) ==
              [ParentNotice(st.parentPhone.value, FullName(st),
                            TextbookList(kind, Join(Lines(TextbooksIn(textbooks, ids)), "\n"), |TextbooksIn(textbooks, ids)|))] &&
            st.id == sid &&
            forall t :: t in TextbooksIn(textbooks, ids) <==> t in textbooks && t.id in ids
  {
    forall t {
      FilterMembership(textbooks, InIds(ids), t);
    }
    if exists i :: 0 <= i < |textbooks| && textbooks[i].id in ids {
      var i :| 0 <= i < |textbooks| && textbooks[i].id in ids;
      assert textbooks[i] in TextbooksIn(textbooks, ids);
    }
  }

  lemma SingleIdPrefix(textbooks: seq<Textbook>, tid: int, n: nat)
    requires DenseIds(textbooks, TextbookId) && n <= |textbooks|
    ensures TextbooksIn(textbooks[..n], [tid]) == if 1 <= tid <= n then [textbooks[tid - 1]] else []
  {
    forall i | 0 <= i < |textbooks| ensures InIds([tid])(textbooks[i]) <==> TextbookId(textbooks[i]) == tid {
    }
    FilterSingleId(textbooks, TextbookId, InIds([tid]), tid, n);
  }

  /** After one issue or return the message lists exactly that textbook, with a count of 1. */
  lemma SingleTextbookNotice(students: seq<Student>, textbooks: seq<Textbook>, sid: int, tid: int, kind: ListKind)
    requires DenseIds(textbooks, TextbookId) && 1 <= tid <= |textbooks|
    requires StudentById(students, sid).Some? && HasParentPhone(StudentById(students, sid).value)
    ensures var st := StudentById(students, sid).value;
            ListNotice(students, textbooks, sid, [tid], kind) ==
              [ParentNotice(st.parentPhone.value, FullName(st), TextbookList(kind, TextbookLine(textbooks[tid - 1]), 1))]
  {
    SingleIdPrefix(textbooks, tid, |textbooks|);
    assert textbooks[..|textbooks|] == textbooks;
  }

  method NotifyTextbookList(db: Db, bot: Bot, sid: int, ids: seq<int>, kind: ListKind)
    modifies bot
    ensures bot.outbox == old(bot.outbox) + ListNotice(db.students, db.textbooks, sid, ids, kind)
  {
    var student := StudentById(db.students, sid);
    if student.None? || !(student.value.parentPhone.Some? && student.value.parentPhone.value != "") {
      return;
    }
    var tbs := TextbooksIn(db.textbooks, ids);
    if |tbs| == 0 {
      return;
    }
    var lines: seq<string> := [];
    var k := 0;
    while k < |tbs|
      invariant 0 <= k <= |tbs|
      invariant |lines| == k && forall j :: 0 <= j < k ==> lines[j] == TextbookLine(tbs[j])
    {
      lines := lines + [TextbookLine(tbs[k])];
      k := k + 1;
    }
    assert lines == Lines(tbs);
    var st := student.value;
    bot.Send(ParentNotice(st.parentPhone.value, FullName(st), TextbookList(kind, Join(lines, "\n"), |tbs|)));
  }

  // ---------------------------------------------------------------------------
  // notify_lost_textbook

  function LostNotices(students: seq<Student>, textbooks: seq<Textbook>, sid: Option<int>, tid: int, now: int): seq<Message>
  {
    match StudentByLink(students, sid)
    case None => []
    case Some(st) =>
      if !HasParentPhone(st) then []
      else match TextbookById(textbooks, tid)
        case None => []
        case Some(t) => [ParentNotice(st.parentPhone.value, FullName(st), LostTextbook(TextbookName(t), now))]
  }

  lemma LostNoticesMeaning(students: seq<Student>, textbooks: seq<Textbook>, sid: Option<int>, tid: int, now: int)
    ensures |LostNotices(students, textbooks, sid, tid, now)| <= 1
    ensures LostNotices(students, textbooks, sid, tid, now) != [] <==>
            sid.Some? && StudentById(students, sid.value).Some? && HasParentPhone(StudentById(students, sid.value).value) &&
            exists i :: 0 <= i < |textbooks| && textbooks[i].id == tid
    ensures forall m :: m in LostNotices(students, textbooks, sid, tid, now) ==>
            m.ParentNotice? && m.payload == LostTextbook(TextbookName(TextbookById(textbooks, tid).value), now) &&
            m.parentPhone == StudentById(students, sid.value).value.parentPhone.value
  {
  }

  method NotifyLostTextbook(db: Db, bot: Bot, sid: Option<int>, tid: int, now: int)
    modifies bot
    ensures bot.outbox == old(bot.outbox) + LostNotices(db.students, db.textbooks, sid, tid, now)
  {
    var student := StudentByLink(db.students, sid);
    if student.None? || !HasParentPhone(student.value) {
      return;
    }
    var textbook := TextbookById(db.textbooks, tid);
    if textbook.None? {
      return;
    }
    var st := student.value;
    bot.Send(ParentNotice(st.parentPhone.value, FullName(st), LostTextbook(TextbookName(textbook.value), now)));
  }

  // ---------------------------------------------------------------------------
  // notify_found_textbook

  function FoundNotices(students: seq<Student>, textbooks: seq<Textbook>, log: seq<Transaction>, finder: Option<int>, tid: int): seq<Message>
  {
    var finderStudent := StudentByLink(students, finder);
    var textbook := TextbookById(textbooks, tid);
    if finderStudent.None? || textbook.None? then []
    else match FirstIssue(log, tid)
      case None => []
      case Some(iss) =>
        match StudentById(students, iss.studentId)
        case None => []
        case Some(owner) =>
          if !HasParentPhone(owner) then []
          else [ParentNotice(owner.parentPhone.value, FullName(owner),
                             FoundTextbook(TextbookName(textbook.value), FullName(finderStudent.value)))]
  }

  /** The message goes to the parent of the student on the textbook's completed issue (the
      owner), naming the finder; nothing is sent when the textbook was never issued. */
  lemma FoundNoticeGoesToOwner(students: seq<Student>, textbooks: seq<Textbook>, log: seq<Transaction>, finder: Option<int>, tid: int)
    ensures |FoundNotices(students, textbooks, log, finder, tid)| <= 1
    ensures !HasIssue(log, tid) ==> FoundNotices(students, textbooks, log, finder, tid) == []
    ensures forall m :: m in FoundNotices(students, textbooks, log, finder, tid) ==>
              var owner := StudentById(students, FirstIssue(log, tid).value.studentId);
              owner.Some? && HasParentPhone(owner.value) &&
              m == ParentNotice(owner.value.parentPhone.value, FullName(owner.value),
                                FoundTextbook(TextbookName(TextbookById(textbooks, tid).value),
                                              FullName(StudentByLink(students, finder).value)))
  {
  }

  method NotifyFoundTextbook(db: Db, bot: Bot, finder: Option<int>, tid: int)
    modifies bot
    ensures bot.outbox == old(bot.outbox) + FoundNotices(db.students, db.textbooks, db.transactions, finder, tid)
  {
    var finderStudent := StudentByLink(db.students, finder);
    var textbook := TextbookById(db.textbooks, tid);
    if finderStudent.None? || textbook.None? {
      return;
    }
    var issue := FirstIssue(db.transactions, tid);
    if issue.None? {
      return;
    }
    var owner := StudentById(db.students, issue.value.studentId);
    if owner.None? || !HasParentPhone(owner.value) {
      return;
    }
    bot.Send(ParentNotice(owner.value.parentPhone.value, FullName(owner.value),
                          FoundTextbook(TextbookName(textbook.value), FullName(finderStudent.value))));
  }

  // ---------------------------------------------------------------------------
  // notify_bulk_issue_summary / notify_bulk_return_reminder

  function ActiveInGrade(grade: string): Student -> bool
  {
    (s: Student) => s.grade == grade && s.isActive
  }

  /** The line for one loan: its textbook's line, or nothing when the textbook is unknown. */
  function LineFor(textbooks: seq<Textbook>, loan: Transaction): seq<string>
  {
    match TextbookById(textbooks, loan.textbookId)
    case Some(t) => [TextbookLine(t)]
    case None => []
  }

  function LinesForLoan(textbooks: seq<Textbook>): Transaction -> seq<string>
  {
    (loan: Transaction) => LineFor(textbooks, loan)
  }

  /** One line per loan whose textbook exists, in loan order. */
  function LoanLines(textbooks: seq<Textbook>, loans: seq<Transaction>): seq<string>
  {
    Collect(loans, LinesForLoan(textbooks))
  }

  /** `line` is the line of the textbook a loan refers to, and that textbook exists. */
  predicate LineOf(textbooks: seq<Textbook>, loan: Transaction, line: string)
  {
    line in LineFor(textbooks, loan)
  }

  lemma LoanLinesMembership(textbooks: seq<Textbook>, loans: seq<Transaction>, line: string)
    ensures line in LoanLines(textbooks, loans) <==> exists i :: 0 <= i < |loans| && LineOf(textbooks, loans[i], line)
  {
    CollectMembership(loans, LinesForLoan(textbooks), line);
  }

  lemma LoanLinesAppend(textbooks: seq<Textbook>, loans: seq<Transaction>, x: Transaction)
    ensures LoanLines(textbooks, loans + [x]) == LoanLines(textbooks, loans) + LineFor(textbooks, x)
  {
    CollectAppend(loans, x, LinesForLoan(textbooks));
  }

  /** The lines listed for one student: the textbooks of the student's completed issues that
      have no completed return at all. */
  function ActiveLines(textbooks: seq<Textbook>, log: seq<Transaction>, st: Student): seq<string>
  {
    LoanLines(textbooks, ActiveLoans(log, Some(st.id)))
  }

  function BulkNoticeFor(textbooks: seq<Textbook>, log: seq<Transaction>, st: Student, kind: ListKind): seq<Message>
  {
    if !HasParentPhone(st) then []
    else if |IssuesOf(log, Some(st.id))| == 0 then []
    else
      var lines := ActiveLines(textbooks, log, st);
      if |lines| == 0 then []
      else [ParentNotice(st.parentPhone.value, FullName(st), TextbookList(kind, Join(lines, "\n"), |lines|))]
  }

  function BulkNoticesOver(roster: seq<Student>, textbooks: seq<Textbook>, log: seq<Transaction>, kind: ListKind): seq<Message>
  {
    if |roster| == 0 then []
    else BulkNoticesOver(roster[..|roster| - 1], textbooks, log, kind) + BulkNoticeFor(textbooks, log, roster[|roster| - 1], kind)
  }

  function BulkNotices(students: seq<Student>, textbooks: seq<Textbook>, log: seq<Transaction>, grade: string, kind: ListKind): seq<Message>
  {
    BulkNoticesOver(Filter(students, ActiveInGrade(grade)), textbooks, log, kind)
  }

  /** A student of the roster is sent a summary when a parent phone is on file and at least
      one un-returned textbook is listed. */
  function DueSummary(textbooks: seq<Textbook>, log: seq<Transaction>): Student -> bool
  {
    (st: Student) => HasParentPhone(st) && 0 < |ActiveLines(textbooks, log, st)|
  }

  /** The summary sent to a student's parent: the active lines and their count. */
  function SummaryNotice(textbooks: seq<Textbook>, log: seq<Transaction>, st: Student, kind: ListKind): Message
    requires HasParentPhone(st)
  {
    var lines := ActiveLines(textbooks, log, st);
    ParentNotice(st.parentPhone.value, FullName(st), TextbookList(kind, Join(lines, "\n"), |lines|))
  }

  /** The check that the student has any completed issue never changes the outcome: without
      one there are no active lines either. */
  lemma BulkNoticeForDue(textbooks: seq<Textbook>, log: seq<Transaction>, st: Student, kind: ListKind)
    ensures BulkNoticeFor(textbooks, log, st, kind) ==
            if DueSummary(textbooks, log)(st) then [SummaryNotice(textbooks, log, st, kind)] else []
  {
    if |IssuesOf(log, Some(st.id))| == 0 {
      assert ActiveLoans(log, Some(st.id)) == [];
    }
  }

  /** Every bulk message goes to the parent of an active student of the grade, with a
      non-empty list of that student's un-returned textbooks and the matching count. Each
      student due a summary gets exactly one, in roster order: there are as many messages as
      such students, and the k-th of them receives the k-th message. */
  lemma {:induction false} BulkNoticesOverMeaning(roster: seq<Student>, textbooks: seq<Textbook>, log: seq<Transaction>, kind: ListKind)
    ensures |BulkNoticesOver(roster, textbooks, log, kind)| <= |roster|
    ensures forall m :: m in BulkNoticesOver(roster, textbooks, log, kind) ==>
              (exists st :: st in roster && DueSummary(textbooks, log)(st) && m == SummaryNotice(textbooks, log, st, kind))
    ensures |BulkNoticesOver(roster, textbooks, log, kind)| == Count(roster, DueSummary(textbooks, log))
    ensures forall k :: 0 <= k < |roster| && DueSummary(textbooks, log)(roster[k]) ==>
              Count(roster[..k], DueSummary(textbooks, log)) < |BulkNoticesOver(roster, textbooks, log, kind)| &&
              BulkNoticesOver(roster, textbooks, log, kind)[Count(roster[..k], DueSummary(textbooks, log))] ==
                SummaryNotice(textbooks, log, roster[k], kind)
  {
    BulkNoticesOverOrder(roster, textbooks, log, kind);
    var r := BulkNoticesOver(roster, textbooks, log, kind);
    var due := DueSummary(textbooks, log);
    forall m | m in r ensures exists st :: st in roster && due(st) && m == SummaryNotice(textbooks, log, st, kind) {
      var i :| 0 <= i < |r| && r[i] == m;
      BulkNoticesOverSound(roster, textbooks, log, kind, i);
    }
  }

  lemma {:induction false} BulkNoticesOverSound(roster: seq<Student>, textbooks: seq<Textbook>, log: seq<Transaction>,
                                                kind: ListKind, i: nat)
    requires i < |BulkNoticesOver(roster, textbooks, log, kind)|
    ensures exists st :: st in roster && DueSummary(textbooks, log)(st) &&
                         BulkNoticesOver(roster, textbooks, log, kind)[i] == SummaryNotice(textbooks, log, st, kind)
    decreases |roster|
  {
    var n := |roster| - 1;
    var init, st := roster[..n], roster[n];
    var a := BulkNoticesOver(init, textbooks, log, kind);
    BulkNoticeForDue(textbooks, log, st, kind);
    if i < |a| {
      BulkNoticesOverSound(init, textbooks, log, kind, i);
      var s :| s in init && DueSummary(textbooks, log)(s) && a[i] == SummaryNotice(textbooks, log, s, kind);
      assert s in roster;
    } else {
      assert st in roster;
    }
  }

  lemma {:induction false} BulkNoticesOverOrder(roster: seq<Student>, textbooks: seq<Textbook>, log: seq<Transaction>, kind: ListKind)
    ensures |BulkNoticesOver(roster, textbooks, log, kind)| == Count(roster, DueSummary(textbooks, log))
    ensures forall k :: 0 <= k < |roster| && DueSummary(textbooks, log)(roster[k]) ==>
              Count(roster[..k], DueSummary(textbooks, log)) < |BulkNoticesOver(roster, textbooks, log, kind)| &&
              BulkNoticesOver(roster, textbooks, log, kind)[Count(roster[..k], DueSummary(textbooks, log))] ==
                SummaryNotice(textbooks, log, roster[k], kind)
  {
    var f := st => BulkNoticeFor(textbooks, log, st, kind);
    var due := DueSummary(textbooks, log);
    forall st: Student ensures |f(st)| == (if due(st) then 1 else 0) {
      BulkNoticeForDue(textbooks, log, st, kind);
    }
    BulkNoticesOverIsCollect(roster, textbooks, log, kind);
    CollectSingletons(roster, f, due);
    forall k | 0 <= k < |roster| && due(roster[k]) ensures f(roster[k])[0] == SummaryNotice(textbooks, log, roster[k], kind) {
      BulkNoticeForDue(textbooks, log, roster[k], kind);
    }
  }

  lemma {:induction false} BulkNoticesOverIsCollect(roster: seq<Student>, textbooks: seq<Textbook>, log: seq<Transaction>, kind: ListKind)
    ensures BulkNoticesOver(roster, textbooks, log, kind) == Collect(roster, st => BulkNoticeFor(textbooks, log, st, kind))
    decreases |roster|
  {
    if |roster| > 0 {
      BulkNoticesOverIsCollect(roster[..|roster| - 1], textbooks, log, kind);
    }
  }

  /** The bulk messages are exactly the summaries of the active students of the grade that
      are due one. */
  lemma BulkNoticesRecipients(students: seq<Student>, textbooks: seq<Textbook>, log: seq<Transaction>, grade: string, kind: ListKind, m: Message)
    ensures m in BulkNotices(students, textbooks, log, grade, kind) <==>
            exists st :: st in students && st.isActive && st.grade == grade && DueSummary(textbooks, log)(st) &&
                         m == SummaryNotice(textbooks, log, st, kind)
  {
    var roster := Filter(students, ActiveInGrade(grade));
    var due := DueSummary(textbooks, log);
    BulkNoticesOverMeaning(roster, textbooks, log, kind);
    if m in BulkNotices(students, textbooks, log, grade, kind) {
      var st :| st in roster && due(st) && m == SummaryNotice(textbooks, log, st, kind);
      FilterMembership(students, ActiveInGrade(grade), st);
    }
    if exists st :: st in students && st.isActive && st.grade == grade && due(st) && m == SummaryNotice(textbooks, log, st, kind) {
      var st :| st in students && st.isActive && st.grade == grade && due(st) && m == SummaryNotice(textbooks, log, st, kind);
      FilterMembership(students, ActiveInGrade(grade), st);
      var k :| 0 <= k < |roster| && roster[k] == st;
      assert BulkNoticesOver(roster, textbooks, log, kind)[Count(roster[..k], due)] == m;
    }
  }

  /** A listed line always names the textbook of an un-returned completed issue to the student. */
  lemma ActiveLinesMeaning(textbooks: seq<Textbook>, log: seq<Transaction>, st: Student, line: string)
    ensures line in ActiveLines(textbooks, log, st) <==>
            exists t :: t in log && IsCompletedIssue(t) && t.studentId == st.id && !HasReturn(log, t.textbookId) &&
                        LineOf(textbooks, t, line)
  {
    var loans := ActiveLoans(log, Some(st.id));
    LoanLinesMembership(textbooks, loans, line);
    if line in ActiveLines(textbooks, log, st) {
      var i :| 0 <= i < |loans| && LineOf(textbooks, loans[i], line);
      ActiveLoansMembership(log, Some(st.id), loans[i]);
    }
    if (exists t :: t in log && IsCompletedIssue(t) && t.studentId == st.id && !HasReturn(log, t.textbookId) &&
                    LineOf(textbooks, t, line)) {
      var t :| t in log && IsCompletedIssue(t) && t.studentId == st.id && !HasReturn(log, t.textbookId) &&
               LineOf(textbooks, t, line);
      ActiveLoansMembership(log, Some(st.id), t);
      var i :| 0 <= i < |loans| && loans[i] == t;
    }
  }

  /** The inner loop of the bulk notifications: the lines of the un-returned issues, in order. */
  method CollectActiveLines(db: Db, issues: seq<Transaction>) returns (lines: seq<string>)
    ensures lines == LoanLines(db.textbooks, Filter(issues, NotReturnedIn(db.transactions)))
  {
    var log := db.transactions;
    var keep := NotReturnedIn(log);
    lines := [];
    var j := 0;
    while j < |issues|
      invariant 0 <= j <= |issues|
      invariant lines == LoanLines(db.textbooks, Filter(issues[..j], keep))
    {
      var t := issues[j];
      var before := Filter(issues[..j], keep);
      FilterAppend(issues[..j], t, keep);
      PrefixStep(issues, j);
      assert keep(t) == !HasReturn(log, t.textbookId);
      if FirstReturn(log, t.textbookId).None? {
        LoanLinesAppend(db.textbooks, before, t);
        var textbook := TextbookById(db.textbooks, t.textbookId);
        if textbook.Some? {
          lines := lines + [TextbookLine(textbook.value)];
        }
        assert lines == LoanLines(db.textbooks, before) + LineFor(db.textbooks, t);
        assert Filter(issues[..j + 1], keep) == before + [t];
      } else {
        assert Filter(issues[..j + 1], keep) == before;
      }
      j := j + 1;
    }
    assert issues[..|issues|] == issues;
  }

  /** One iteration of the bulk loop: the message for one student of the roster, if any. */
  method NotifyStudentOfBulk(db: Db, bot: Bot, st: Student, kind: ListKind)
    modifies bot
    ensures bot.outbox == old(bot.outbox) + BulkNoticeFor(db.textbooks, db.transactions, st, kind)
  {
    if HasParentPhone(st) {
      var issues := IssuesOf(db.transactions, Some(st.id));
      if |issues| > 0 {
        var lines := CollectActiveLines(db, issues);
        assert lines == ActiveLines(db.textbooks, db.transactions, st);
        if |lines| > 0 {
          bot.Send(ParentNotice(st.parentPhone.value, FullName(st), TextbookList(kind, Join(lines, "\n"), |lines|)));
        }
      }
    }
  }

  lemma BulkNoticesOverStep(roster: seq<Student>, k: nat, textbooks: seq<Textbook>, log: seq<Transaction>, kind: ListKind)
    requires k < |roster|
    ensures BulkNoticesOver(roster[..k + 1], textbooks, log, kind) ==
            BulkNoticesOver(roster[..k], textbooks, log, kind) + BulkNoticeFor(textbooks, log, roster[k], kind)
  {
    assert roster[..k + 1][..k] == roster[..k];
  }

  method NotifyBulk(db: Db, bot: Bot, grade: string, kind: ListKind)
    modifies bot
    ensures bot.outbox == old(bot.outbox) + BulkNotices(db.students, db.textbooks, db.transactions, grade, kind)
  {
    var roster := Filter(db.students, ActiveInGrade(grade));
    var k := 0;
    while k < |roster|
      invariant 0 <= k <= |roster|
      invariant bot.outbox == old(bot.outbox) + BulkNoticesOver(roster[..k], db.textbooks, db.transactions, kind)
    {
      ghost var sent := BulkNoticesOver(roster[..k], db.textbooks, db.transactions, kind);
      ghost var next := BulkNoticeFor(db.textbooks, db.transactions, roster[k], kind);
      BulkNoticesOverStep(roster, k, db.textbooks, db.transactions, kind);
      NotifyStudentOfBulk(db, bot, roster[k], kind);
      AppendAssoc(old(bot.outbox), sent, next);
      k := k + 1;
    }
    assert roster[..|roster|] == roster;
  }

  // ---------------------------------------------------------------------------
  // notify_damage_check_reminder

  /** The student's completed issues recorded at or after `since`. */
  function IssuedToSince(sid: int, since: int): Transaction -> bool
  {
    (t: Transaction) => t.studentId == sid && IsCompletedIssue(t) && t.issuedAt >= since
  }

  function DamageCheckReminderNotices(students: seq<Student>, log: seq<Transaction>, sid: int, now: int): seq<Message>
  {
    match StudentById(students, sid)
    case None => []
    case Some(st) =>
      if !HasParentPhone(st) then []
      else
        var recent := Filter(log, IssuedToSince(sid, now - 7 * Day));
        if |recent| > 0 then [ParentNotice(st.parentPhone.value, FullName(st), DamageCheckReminder(|recent|, 7))]
        else []
  }

  /** Sent only when the student has a completed issue in the last seven days; the count is
      the number of such issues. */
  lemma DamageCheckReminderMeaning(students: seq<Student>, log: seq<Transaction>, sid: int, now: int)
    ensures DamageCheckReminderNotices(students, log, sid, now) != [] <==>
            StudentById(students, sid).Some? && HasParentPhone(StudentById(students, sid).value) &&
            exists i :: 0 <= i < |log| && log[i].studentId == sid && IsCompletedIssue(log[i]) && log[i].issuedAt >= now - 7 * Day
    ensures forall m :: m in DamageCheckReminderNotices(students, log, sid, now) ==>
              m.ParentNotice? && m.payload == DamageCheckReminder(Count(log, IssuedToSince(sid, now - 7 * Day)), 7)
  {
    var p := IssuedToSince(sid, now - 7 * Day);
    CountIsFilterLength(log, p);
    if exists i :: 0 <= i < |log| && log[i].studentId == sid && IsCompletedIssue(log[i]) && log[i].issuedAt >= now - 7 * Day {
      var i :| 0 <= i < |log| && log[i].studentId == sid && IsCompletedIssue(log[i]) && log[i].issuedAt >= now - 7 * Day;
      FilterMembership(log, p, log[i]);
    }
    if |Filter(log, p)| > 0 {
      var r := Filter(log, p);
      FilterMembership(log, p, r[0]);
    }
  }

  method NotifyDamageCheckReminder(db: Db, bot: Bot, sid: int, now: int)
    modifies bot
    ensures bot.outbox == old(bot.outbox) + DamageCheckReminderNotices(db.students, db.transactions, sid, now)
  {
    var student := StudentById(db.students, sid);
    if student.None? || !HasParentPhone(student.value) {
      return;
    }
    var recent := Filter(db.transactions, IssuedToSince(sid, now - 7 * Day));
    if |recent| > 0 {
      var st := student.value;
      bot.Send(ParentNotice(st.parentPhone.value, FullName(st), DamageCheckReminder(|recent|, 7)));
    }
  }
}
