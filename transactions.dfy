/** The loan endpoints: issue and return one textbook, the bulk variants, the filtered
    listing of the log and a student's active loans. The caller has already passed the
    teacher gate (`Auth.TeacherGate`); `teacher` is that user, and `now` is the clock
    reading `datetime.utcnow()` would give. */
module Transactions {
  import opened Common
  import opened Entities
  import opened Ledger
  import opened Store
  import opened Uploads
  import opened ParentNotifications
  import opened TransactionSchema

  // ---------------------------------------------------------------------------
  // issue_textbook

  /** The guards of `issue_textbook`, in the order they run; `None` when every one passes. */
  function IssueRefusal(textbooks: seq<Textbook>, students: seq<Student>, log: seq<Transaction>, tid: int, sid: int): (r: Option<Error>)
    ensures r == Some(TextbookNotFound) <==> forall i :: 0 <= i < |textbooks| ==> textbooks[i].id != tid
    ensures r == Some(TextbookNotActive) <==> TextbookById(textbooks, tid).Some? && !TextbookById(textbooks, tid).value.isActive
    ensures r == Some(StudentNotFound) <==>
              TextbookById(textbooks, tid).Some? && TextbookById(textbooks, tid).value.isActive &&
              forall i :: 0 <= i < |students| ==> students[i].id != sid
    ensures r == Some(StudentNotActive) <==>
              TextbookById(textbooks, tid).Some? && TextbookById(textbooks, tid).value.isActive &&
              StudentById(students, sid).Some? && !StudentById(students, sid).value.isActive
    ensures r == Some(TextbookAlreadyIssued) <==>
              TextbookById(textbooks, tid).Some? && TextbookById(textbooks, tid).value.isActive &&
              StudentById(students, sid).Some? && StudentById(students, sid).value.isActive &&
              exists i :: 0 <= i < |log| && IsCompletedIssue(log[i]) && log[i].textbookId == tid
    ensures r.None? <==>
              TextbookById(textbooks, tid).Some? && TextbookById(textbooks, tid).value.isActive &&
              StudentById(students, sid).Some? && StudentById(students, sid).value.isActive &&
              forall i :: 0 <= i < |log| ==> !(IsCompletedIssue(log[i]) && log[i].textbookId == tid)
  {
    IssueFound(log, tid);
    var textbook := TextbookById(textbooks, tid);
    var student := StudentById(students, sid);
    if textbook.None? then Some(TextbookNotFound)
    else if !textbook.value.isActive then Some(TextbookNotActive)
    else if student.None? then Some(StudentNotFound)
    else if !student.value.isActive then Some(StudentNotActive)
    else if HasIssue(log, tid) then Some(TextbookAlreadyIssued)
    else None
  }

  /** A textbook is never issued twice: once the log holds a completed issue of it, every
      later issue attempt is refused, whatever returns follow. */
  lemma NeverReissued(textbooks: seq<Textbook>, students: seq<Student>, log: seq<Transaction>, later: seq<Transaction>, tid: int, sid: int)
    requires HasIssue(log, tid)
    ensures IssueRefusal(textbooks, students, log + later, tid, sid).Some?
  {
    IssuedForever(log, later, tid);
  }

  method IssueTextbook(db: Db, bot: Bot, teacher: User, tid: int, sid: int, notes: Option<string>,
                       uploads: seq<Upload>, now: int) returns (r: Result<Transaction>)
    requires db.Valid()
    modifies db, bot
    ensures db.Valid()
    ensures db.textbooks == old(db.textbooks) && db.students == old(db.students) && db.users == old(db.users) &&
            db.damageReports == old(db.damageReports) && db.foundReports == old(db.foundReports)
    ensures r.Err? <==> IssueRefusal(old(db.textbooks), old(db.students), old(db.transactions), tid, sid).Some?
    ensures r.Err? ==> r.error == IssueRefusal(old(db.textbooks), old(db.students), old(db.transactions), tid, sid).value &&
                       db.transactions == old(db.transactions) && bot.outbox == old(bot.outbox)
    ensures r.Ok? ==>
              r.value == Transaction(|old(db.transactions)| + 1, tid, sid, Issue, Completed, notes,
                                     ImagePaths("transaction", uploads), teacher.id, now, None) &&
              db.transactions == old(db.transactions) + [r.value] &&
              bot.outbox == old(bot.outbox) + ListNotice(db.students, db.textbooks, sid, [tid], IssueList)
  {
    var refusal := IssueRefusal(db.textbooks, db.students, db.transactions, tid, sid);
    if refusal.Some? {
      return Err(refusal.value);
    }
    TextbookByDenseId(db.textbooks, tid);
    var photos := SavePhotos("transaction", uploads);
    var t := Transaction(|db.transactions| + 1, tid, sid, Issue, Completed, notes, photos, teacher.id, now, None);
    IssueKeepsLedger(db.transactions, t);
    db.AddTransaction(t);
    NotifyTextbookList(db, bot, sid, [tid], IssueList);
    return Ok(t);
  }

  // ---------------------------------------------------------------------------
  // return_textbook

  function ReturnRefusal(textbooks: seq<Textbook>, log: seq<Transaction>, tid: int): (r: Option<Error>)
    ensures r == Some(TextbookNotFound) <==> forall i :: 0 <= i < |textbooks| ==> textbooks[i].id != tid
    ensures r == Some(TextbookNotIssued) <==>
              TextbookById(textbooks, tid).Some? &&
              forall i :: 0 <= i < |log| ==> !(IsCompletedIssue(log[i]) && log[i].textbookId == tid)
    ensures r.None? <==> TextbookById(textbooks, tid).Some? && HasIssue(log, tid)
  {
    IssueFound(log, tid);
    if TextbookById(textbooks, tid).None? then Some(TextbookNotFound)
    else if !HasIssue(log, tid) then Some(TextbookNotIssued)
    else None
  }

  /** The guard looks at issues only: a textbook that was returned can be returned again. */
  lemma ReturnRepeatable(textbooks: seq<Textbook>, log: seq<Transaction>, t: Transaction, tid: int)
    requires ReturnRefusal(textbooks, log, tid).None?
    requires t.kind == Return
    ensures ReturnRefusal(textbooks, log + [t], tid).None?
    ensures FirstIssue(log + [t], tid) == FirstIssue(log, tid)
  {
    IssuedForever(log, [t], tid);
  }

  /** The RETURN record: the student is the one on the textbook's (first) completed issue,
      and the instant is recorded both as `issued_at` and as `returned_at`. */
  function ReturnRecord(log: seq<Transaction>, tid: int, notes: Option<string>, photos: seq<string>, actor: int, now: int): Transaction
    requires HasIssue(log, tid)
  {
    Transaction(|log| + 1, tid, FirstIssue(log, tid).value.studentId, Return, Completed, notes, photos, actor, now, Some(now))
  }

  method ReturnTextbook(db: Db, bot: Bot, teacher: User, tid: int, notes: Option<string>,
                        uploads: seq<Upload>, now: int) returns (r: Result<Transaction>)
    requires db.Valid()
    modifies db, bot
    ensures db.Valid()
    ensures db.textbooks == old(db.textbooks) && db.students == old(db.students) && db.users == old(db.users) &&
            db.damageReports == old(db.damageReports) && db.foundReports == old(db.foundReports)
    ensures r.Err? <==> ReturnRefusal(old(db.textbooks), old(db.transactions), tid).Some?
    ensures r.Err? ==> r.error == ReturnRefusal(old(db.textbooks), old(db.transactions), tid).value &&
                       db.transactions == old(db.transactions) && bot.outbox == old(bot.outbox)
    ensures r.Ok? ==>
              HasIssue(old(db.transactions), tid) &&
              r.value == ReturnRecord(old(db.transactions), tid, notes, ImagePaths("transaction", uploads), teacher.id, now) &&
              db.transactions == old(db.transactions) + [r.value] &&
              bot.outbox == old(bot.outbox) + ListNotice(db.students, db.textbooks, r.value.studentId, [tid], ReturnList)
  {
    var refusal := ReturnRefusal(db.textbooks, db.transactions, tid);
    if refusal.Some? {
      return Err(refusal.value);
    }
    TextbookByDenseId(db.textbooks, tid);
    var issue := FirstIssue(db.transactions, tid).value;
    var photos := SavePhotos("transaction", uploads);
    var t := Transaction(|db.transactions| + 1, tid, issue.studentId, Return, Completed, notes, photos, teacher.id, now, Some(now));
    ReturnKeepsLedger(db.transactions, t);
    db.AddTransaction(t);
    NotifyTextbookList(db, bot, issue.studentId, [tid], ReturnList);
    return Ok(t);
  }

  // ---------------------------------------------------------------------------
  // bulk_issue_textbooks

  /** What one id of a bulk issue adds to the log: a record, or nothing when the textbook is
      missing, inactive or already issued. */
  function IssueStep(textbooks: seq<Textbook>, log: seq<Transaction>, tid: int, sid: int, notes: Option<string>, actor: int, now: int): seq<Transaction>
  {
    var textbook := TextbookById(textbooks, tid);
    if textbook.None? || !textbook.value.isActive || HasIssue(log, tid) then []
    else [Transaction(|log| + 1, tid, sid, Issue, Completed, notes, [], actor, now, None)]
  }

  /** The records a bulk issue creates, in input order. Each id is checked against the log
      as it stands when the id is reached, records added earlier in the batch included
      (the session autoflushes before each query). */
  function BulkIssued(textbooks: seq<Textbook>, log: seq<Transaction>, ids: seq<int>, sid: int, notes: Option<string>, actor: int, now: int): seq<Transaction>
    decreases |ids|
  {
    if |ids| == 0 then []
    else
      var step := IssueStep(textbooks, log, ids[0], sid, notes, actor, now);
      step + BulkIssued(textbooks, log + step, ids[1..], sid, notes, actor, now)
  }

  /** A record a bulk issue may create: a completed issue to the requested student, of an
      active textbook named in the request that was not issued in `log`. */
  predicate SoundIssue(textbooks: seq<Textbook>, log: seq<Transaction>, ids: seq<int>, sid: int, t: Transaction)
  {
    IsCompletedIssue(t) && t.studentId == sid && t.textbookId in ids &&
    TextbookById(textbooks, t.textbookId).Some? && TextbookById(textbooks, t.textbookId).value.isActive &&
    !HasIssue(log, t.textbookId)
  }

  /** Every created record is a completed issue to the requested student, of an active
      textbook named in the request that was not issued before the batch; the records take
      consecutive ids; and there are at most as many as requested ids. */
  lemma BulkIssuedSound(textbooks: seq<Textbook>, log: seq<Transaction>, ids: seq<int>, sid: int, notes: Option<string>, actor: int, now: int)
    ensures |BulkIssued(textbooks, log, ids, sid, notes, actor, now)| <= |ids|
    ensures forall k :: 0 <= k < |BulkIssued(textbooks, log, ids, sid, notes, actor, now)| ==>
              BulkIssued(textbooks, log, ids, sid, notes, actor, now)[k].id == |log| + k + 1 &&
              SoundIssue(textbooks, log, ids, sid, BulkIssued(textbooks, log, ids, sid, notes, actor, now)[k])
  {
    var all := BulkIssued(textbooks, log, ids, sid, notes, actor, now);
    BulkIssuedIds(textbooks, log, ids, sid, notes, actor, now);
    BulkIssuedRecords(textbooks, log, ids, sid, notes, actor, now);
    forall k | 0 <= k < |all| ensures SoundIssue(textbooks, log, ids, sid, all[k]) {
      assert all[k] in all;
    }
  }

  lemma {:induction false} BulkIssuedIds(textbooks: seq<Textbook>, log: seq<Transaction>, ids: seq<int>, sid: int, notes: Option<string>, actor: int, now: int)
    ensures |BulkIssued(textbooks, log, ids, sid, notes, actor, now)| <= |ids|
    ensures forall k :: 0 <= k < |BulkIssued(textbooks, log, ids, sid, notes, actor, now)| ==>
              BulkIssued(textbooks, log, ids, sid, notes, actor, now)[k].id == |log| + k + 1
    decreases |ids|
  {
    if |ids| > 0 {
      var step := IssueStep(textbooks, log, ids[0], sid, notes, actor, now);
      BulkIssuedIds(textbooks, log + step, ids[1..], sid, notes, actor, now);
      SoundHead(textbooks, log, ids, sid, notes, actor, now);
      NumberedConcat(step, BulkIssued(textbooks, log + step, ids[1..], sid, notes, actor, now), TransactionId, |log|);
    }
  }

  lemma {:induction false} BulkIssuedRecords(textbooks: seq<Textbook>, log: seq<Transaction>, ids: seq<int>, sid: int, notes: Option<string>, actor: int, now: int)
    ensures forall t :: t in BulkIssued(textbooks, log, ids, sid, notes, actor, now) ==> SoundIssue(textbooks, log, ids, sid, t)
    decreases |ids|
  {
    if |ids| > 0 {
      var step := IssueStep(textbooks, log, ids[0], sid, notes, actor, now);
      var rest := BulkIssued(textbooks, log + step, ids[1..], sid, notes, actor, now);
      BulkIssuedRecords(textbooks, log + step, ids[1..], sid, notes, actor, now);
      SoundHead(textbooks, log, ids, sid, notes, actor, now);
      forall t | t in rest ensures SoundIssue(textbooks, log, ids, sid, t) {
        SoundTail(textbooks, log, ids, sid, notes, actor, now, t);
      }
    }
  }

  /** The record the first id may create. */
  lemma SoundHead(textbooks: seq<Textbook>, log: seq<Transaction>, ids: seq<int>, sid: int, notes: Option<string>, actor: int, now: int)
    requires |ids| > 0
    ensures var step := IssueStep(textbooks, log, ids[0], sid, notes, actor, now);
            |step| <= 1 && forall k :: 0 <= k < |step| ==> step[k].id == |log| + k + 1 && SoundIssue(textbooks, log, ids, sid, step[k])
  {
  }

  /** A record the rest of the batch may create is one the whole batch may create. */
  lemma SoundTail(textbooks: seq<Textbook>, log: seq<Transaction>, ids: seq<int>, sid: int, notes: Option<string>, actor: int, now: int, t: Transaction)
    requires |ids| > 0
    requires SoundIssue(textbooks, log + IssueStep(textbooks, log, ids[0], sid, notes, actor, now), ids[1..], sid, t)
    ensures SoundIssue(textbooks, log, ids, sid, t)
  {
    var step := IssueStep(textbooks, log, ids[0], sid, notes, actor, now);
    assert t.textbookId in ids[1..];
    if |step| == 1 {
      IssueAppend(log, step[0], t.textbookId);
    } else {
      assert log + step == log;
    }
  }

  /** Every requested textbook that exists, is active and was not issued before the batch
      gets a record. */
  lemma {:induction false} BulkIssuedComplete(textbooks: seq<Textbook>, log: seq<Transaction>, ids: seq<int>, sid: int, notes: Option<string>, actor: int, now: int, x: int)
    requires x in ids
    requires TextbookById(textbooks, x).Some? && TextbookById(textbooks, x).value.isActive && !HasIssue(log, x)
    ensures exists t :: t in BulkIssued(textbooks, log, ids, sid, notes, actor, now) && t.textbookId == x
    decreases |ids|
  {
    var step := IssueStep(textbooks, log, ids[0], sid, notes, actor, now);
    assert BulkIssued(textbooks, log, ids, sid, notes, actor, now) ==
           step + BulkIssued(textbooks, log + step, ids[1..], sid, notes, actor, now);
    if ids[0] == x {
      assert step[0] in BulkIssued(textbooks, log, ids, sid, notes, actor, now);
    } else {
      assert x in ids[1..];
      if |step| == 1 {
        IssueAppend(log, step[0], x);
      } else {
        assert log + step == log;
      }
      BulkIssuedComplete(textbooks, log + step, ids[1..], sid, notes, actor, now, x);
      var t :| t in BulkIssued(textbooks, log + step, ids[1..], sid, notes, actor, now) && t.textbookId == x;
      assert t in BulkIssued(textbooks, log, ids, sid, notes, actor, now);
    }
  }

  /** The guard in front of the loop: validation of the body, then the student. */
  function BulkIssueRefusal(students: seq<Student>, req: BulkIssueRequest): (r: Option<Error>)
    ensures r == Some(ValidationFailed) <==> |req.textbookIds| == 0 || (req.notes.Some? && |req.notes.value| > 500)
    ensures r == Some(StudentNotFound) <==> ValidBulkIssue(req) && forall i :: 0 <= i < |students| ==> students[i].id != req.studentId
    ensures r == Some(StudentNotActive) <==> ValidBulkIssue(req) && StudentById(students, req.studentId).Some? &&
                                             !StudentById(students, req.studentId).value.isActive
    ensures r.None? <==> ValidBulkIssue(req) && StudentById(students, req.studentId).Some? &&
                         StudentById(students, req.studentId).value.isActive
  {
    var student := StudentById(students, req.studentId);
    if !ValidBulkIssue(req) then Some(ValidationFailed)
    else if student.None? then Some(StudentNotFound)
    else if !student.value.isActive then Some(StudentNotActive)
    else None
  }

  /** One iteration of the bulk-issue loop. */
  method IssueOne(db: Db, teacher: User, tid: int, sid: int, notes: Option<string>, now: int) returns (step: seq<Transaction>)
    requires db.Valid()
    modifies db
    ensures db.Valid()
    ensures db.textbooks == old(db.textbooks) && db.students == old(db.students) && db.users == old(db.users) &&
            db.damageReports == old(db.damageReports) && db.foundReports == old(db.foundReports)
    ensures step == IssueStep(db.textbooks, old(db.transactions), tid, sid, notes, teacher.id, now)
    ensures db.transactions == old(db.transactions) + step
  {
    var textbook := TextbookById(db.textbooks, tid);
    if textbook.Some? && textbook.value.isActive && FirstIssue(db.transactions, tid).None? {
      TextbookByDenseId(db.textbooks, tid);
      var t := Transaction(|db.transactions| + 1, tid, sid, Issue, Completed, notes, [], teacher.id, now, None);
      IssueKeepsLedger(db.transactions, t);
      db.AddTransaction(t);
      return [t];
    }
    return [];
  }

  method BulkIssue(db: Db, teacher: User, req: BulkIssueRequest, now: int) returns (r: Result<seq<Transaction>>)
    requires db.Valid()
    modifies db
    ensures db.Valid()
    ensures db.textbooks == old(db.textbooks) && db.students == old(db.students) && db.users == old(db.users) &&
            db.damageReports == old(db.damageReports) && db.foundReports == old(db.foundReports)
    ensures r.Err? <==> BulkIssueRefusal(db.students, req).Some?
    ensures r.Err? ==> r.error == BulkIssueRefusal(db.students, req).value && db.transactions == old(db.transactions)
    ensures r.Ok? ==>
              r.value == BulkIssued(db.textbooks, old(db.transactions), req.textbookIds, req.studentId, req.notes, teacher.id, now) &&
              db.transactions == old(db.transactions) + r.value
  {
    var refusal := BulkIssueRefusal(db.students, req);
    if refusal.Some? {
      return Err(refusal.value);
    }
    ghost var log0 := db.transactions;
    var ids := req.textbookIds;
    var created: seq<Transaction> := [];
    var k := 0;
    while k < |ids|
      invariant 0 <= k <= |ids|
      invariant db.Valid()
      invariant db.textbooks == old(db.textbooks) && db.students == old(db.students) && db.users == old(db.users) &&
                db.damageReports == old(db.damageReports) && db.foundReports == old(db.foundReports)
      invariant db.transactions == log0 + created
      invariant BulkIssued(db.textbooks, log0, ids, req.studentId, req.notes, teacher.id, now) ==
                created + BulkIssued(db.textbooks, log0 + created, ids[k..], req.studentId, req.notes, teacher.id, now)
    {
      ghost var before := db.transactions;
      assert ids[k..][0] == ids[k] && ids[k..][1..] == ids[k + 1..];
      var step := IssueOne(db, teacher, ids[k], req.studentId, req.notes, now);
      AppendAssoc(created, step, BulkIssued(db.textbooks, before + step, ids[k + 1..], req.studentId, req.notes, teacher.id, now));
      AppendAssoc(log0, created, step);
      created := created + step;
      k := k + 1;
    }
    return Ok(created);
  }

  // ---------------------------------------------------------------------------
  // bulk_return_textbooks

  /** What one id of a bulk return adds: a RETURN for the student on the textbook's completed
      issue, or nothing when the textbook is missing or was never issued. */
  function ReturnStep(textbooks: seq<Textbook>, log: seq<Transaction>, tid: int, notes: Option<string>, actor: int, now: int): seq<Transaction>
  {
    if TextbookById(textbooks, tid).None? || !HasIssue(log, tid) then []
    else [ReturnRecord(log, tid, notes, [], actor, now)]
  }

  function BulkReturned(textbooks: seq<Textbook>, log: seq<Transaction>, ids: seq<int>, notes: Option<string>, actor: int, now: int): seq<Transaction>
    decreases |ids|
  {
    if |ids| == 0 then []
    else
      var step := ReturnStep(textbooks, log, ids[0], notes, actor, now);
      step + BulkReturned(textbooks, log + step, ids[1..], notes, actor, now)
  }

  /** A record a bulk return may create: a completed return of a requested, existing,
      issued textbook, for the student of its first issue in `log`. */
  predicate SoundReturn(textbooks: seq<Textbook>, log: seq<Transaction>, ids: seq<int>, t: Transaction)
  {
    IsCompletedReturn(t) && t.textbookId in ids &&
    TextbookById(textbooks, t.textbookId).Some? && HasIssue(log, t.textbookId) &&
    t.studentId == FirstIssue(log, t.textbookId).value.studentId
  }

  /** A bulk return creates at most one RETURN per requested id; each is a completed return
      of a requested, existing, issued textbook, for the student of its first issue; and
      every requested textbook that exists and was issued gets one. */
  lemma BulkReturnedMeaning(textbooks: seq<Textbook>, log: seq<Transaction>, ids: seq<int>, notes: Option<string>, actor: int, now: int)
    ensures |BulkReturned(textbooks, log, ids, notes, actor, now)| <= |ids|
    ensures forall k :: 0 <= k < |BulkReturned(textbooks, log, ids, notes, actor, now)| ==>
              BulkReturned(textbooks, log, ids, notes, actor, now)[k].id == |log| + k + 1 &&
              SoundReturn(textbooks, log, ids, BulkReturned(textbooks, log, ids, notes, actor, now)[k])
    ensures forall x :: x in ids && TextbookById(textbooks, x).Some? && HasIssue(log, x) ==>
              exists t :: t in BulkReturned(textbooks, log, ids, notes, actor, now) && t.textbookId == x
  {
    var all := BulkReturned(textbooks, log, ids, notes, actor, now);
    BulkReturnedIds(textbooks, log, ids, notes, actor, now);
    BulkReturnedRecords(textbooks, log, ids, notes, actor, now);
    forall k | 0 <= k < |all| ensures SoundReturn(textbooks, log, ids, all[k]) {
      assert all[k] in all;
    }
    forall x | x in ids && TextbookById(textbooks, x).Some? && HasIssue(log, x)
      ensures exists t :: t in all && t.textbookId == x
    {
      BulkReturnedComplete(textbooks, log, ids, notes, actor, now, x);
    }
  }

  /** Returns leave the first issue of every textbook where it was. */
  lemma ReturnStepKeepsIssues(textbooks: seq<Textbook>, log: seq<Transaction>, tid: int, notes: Option<string>, actor: int, now: int, x: int)
    ensures FirstIssue(log + ReturnStep(textbooks, log, tid, notes, actor, now), x) == FirstIssue(log, x)
  {
    var step := ReturnStep(textbooks, log, tid, notes, actor, now);
    if |step| == 1 {
      IssueAppend(log, step[0], x);
    } else {
      assert log + step == log;
    }
  }

  lemma ReturnStepShape(textbooks: seq<Textbook>, log: seq<Transaction>, ids: seq<int>, notes: Option<string>, actor: int, now: int)
    requires |ids| > 0
    ensures var step := ReturnStep(textbooks, log, ids[0], notes, actor, now);
            |step| <= 1 && forall k :: 0 <= k < |step| ==> step[k].id == |log| + k + 1 && SoundReturn(textbooks, log, ids, step[k])
  {
  }

  lemma {:induction false} BulkReturnedIds(textbooks: seq<Textbook>, log: seq<Transaction>, ids: seq<int>, notes: Option<string>, actor: int, now: int)
    ensures |BulkReturned(textbooks, log, ids, notes, actor, now)| <= |ids|
    ensures forall k :: 0 <= k < |BulkReturned(textbooks, log, ids, notes, actor, now)| ==>
              BulkReturned(textbooks, log, ids, notes, actor, now)[k].id == |log| + k + 1
    decreases |ids|
  {
    if |ids| > 0 {
      var step := ReturnStep(textbooks, log, ids[0], notes, actor, now);
      BulkReturnedIds(textbooks, log + step, ids[1..], notes, actor, now);
      ReturnStepShape(textbooks, log, ids, notes, actor, now);
      NumberedConcat(step, BulkReturned(textbooks, log + step, ids[1..], notes, actor, now), TransactionId, |log|);
    }
  }

  lemma {:induction false} BulkReturnedRecords(textbooks: seq<Textbook>, log: seq<Transaction>, ids: seq<int>, notes: Option<string>, actor: int, now: int)
    ensures forall t :: t in BulkReturned(textbooks, log, ids, notes, actor, now) ==> SoundReturn(textbooks, log, ids, t)
    decreases |ids|
  {
    if |ids| > 0 {
      var step := ReturnStep(textbooks, log, ids[0], notes, actor, now);
      var rest := BulkReturned(textbooks, log + step, ids[1..], notes, actor, now);
      BulkReturnedRecords(textbooks, log + step, ids[1..], notes, actor, now);
      ReturnStepShape(textbooks, log, ids, notes, actor, now);
      forall t | t in rest ensures SoundReturn(textbooks, log, ids, t) {
        ReturnStepKeepsIssues(textbooks, log, ids[0], notes, actor, now, t.textbookId);
        assert t.textbookId in ids[1..];
      }
    }
  }

  lemma {:induction false} BulkReturnedComplete(textbooks: seq<Textbook>, log: seq<Transaction>, ids: seq<int>, notes: Option<string>, actor: int, now: int, x: int)
    requires x in ids && TextbookById(textbooks, x).Some? && HasIssue(log, x)
    ensures exists t :: t in BulkReturned(textbooks, log, ids, notes, actor, now) && t.textbookId == x
    decreases |ids|
  {
    var step := ReturnStep(textbooks, log, ids[0], notes, actor, now);
    var rest := BulkReturned(textbooks, log + step, ids[1..], notes, actor, now);
    assert BulkReturned(textbooks, log, ids, notes, actor, now) == step + rest;
    if ids[0] == x {
      assert step[0] in step + rest;
    } else {
      assert x in ids[1..];
      ReturnStepKeepsIssues(textbooks, log, ids[0], notes, actor, now, x);
      BulkReturnedComplete(textbooks, log + step, ids[1..], notes, actor, now, x);
      var t :| t in rest && t.textbookId == x;
      assert t in step + rest;
    }
  }

  /** One iteration of the bulk-return loop. */
  method ReturnOne(db: Db, teacher: User, tid: int, notes: Option<string>, now: int) returns (step: seq<Transaction>)
    requires db.Valid()
    modifies db
    ensures db.Valid()
    ensures db.textbooks == old(db.textbooks) && db.students == old(db.students) && db.users == old(db.users) &&
            db.damageReports == old(db.damageReports) && db.foundReports == old(db.foundReports)
    ensures step == ReturnStep(db.textbooks, old(db.transactions), tid, notes, teacher.id, now)
    ensures db.transactions == old(db.transactions) + step
  {
    var textbook := TextbookById(db.textbooks, tid);
    var issue := FirstIssue(db.transactions, tid);
    if textbook.Some? && issue.Some? {
      TextbookByDenseId(db.textbooks, tid);
      var t := Transaction(|db.transactions| + 1, tid, issue.value.studentId, Return, Completed, notes, [], teacher.id, now, Some(now));
      ReturnKeepsLedger(db.transactions, t);
      db.AddTransaction(t);
      return [t];
    }
    return [];
  }

  method BulkReturn(db: Db, teacher: User, req: BulkReturnRequest, now: int) returns (r: Result<seq<Transaction>>)
    requires db.Valid()
    modifies db
    ensures db.Valid()
    ensures db.textbooks == old(db.textbooks) && db.students == old(db.students) && db.users == old(db.users) &&
            db.damageReports == old(db.damageReports) && db.foundReports == old(db.foundReports)
    ensures r.Err? <==> !ValidBulkReturn(req)
    ensures r.Err? ==> r.error == ValidationFailed && db.transactions == old(db.transactions)
    ensures r.Ok? ==>
              r.value == BulkReturned(db.textbooks, old(db.transactions), req.textbookIds, req.notes, teacher.id, now) &&
              db.transactions == old(db.transactions) + r.value
  {
    if !ValidBulkReturn(req) {
      return Err(ValidationFailed);
    }
    ghost var log0 := db.transactions;
    var ids := req.textbookIds;
    var created: seq<Transaction> := [];
    var k := 0;
    while k < |ids|
      invariant 0 <= k <= |ids|
      invariant db.Valid()
      invariant db.textbooks == old(db.textbooks) && db.students == old(db.students) && db.users == old(db.users) &&
                db.damageReports == old(db.damageReports) && db.foundReports == old(db.foundReports)
      invariant db.transactions == log0 + created
      invariant BulkReturned(db.textbooks, log0, ids, req.notes, teacher.id, now) ==
                created + BulkReturned(db.textbooks, log0 + created, ids[k..], req.notes, teacher.id, now)
    {
      ghost var before := db.transactions;
      assert ids[k..][0] == ids[k] && ids[k..][1..] == ids[k + 1..];
      var step := ReturnOne(db, teacher, ids[k], req.notes, now);
      AppendAssoc(created, step, BulkReturned(db.textbooks, before + step, ids[k + 1..], req.notes, teacher.id, now));
      AppendAssoc(log0, created, step);
      created := created + step;
      k := k + 1;
    }
    return Ok(created);
  }

  // ---------------------------------------------------------------------------
  // get_transactions

  /** The optional query filters; a value of 0 (or an absent value) applies no filter, as
      Python's truthiness test does. */
  datatype TxFilter = TxFilter(studentId: Option<int>, textbookId: Option<int>, kind: Option<TxKind>, status: Option<TxStatus>)

  predicate Given(v: Option<int>)
  {
    v.Some? && v.value != 0
  }

  predicate MatchesFilter(f: TxFilter, t: Transaction)
  {
    (Given(f.studentId) ==> t.studentId == f.studentId.value) &&
    (Given(f.textbookId) ==> t.textbookId == f.textbookId.value) &&
    (f.kind.Some? ==> t.kind == f.kind.value) &&
    (f.status.Some? ==> t.status == f.status.value)
  }

  function Matching(f: TxFilter): Transaction -> bool
  {
    (t: Transaction) => MatchesFilter(f, t)
  }

  function ListTransactions(log: seq<Transaction>, f: TxFilter, skip: nat, limit: nat): (r: seq<Transaction>)
    ensures |r| <= limit
    ensures forall i :: 0 <= i < |r| ==> r[i] in log && MatchesFilter(f, r[i])
  {
    var matching := Filter(log, Matching(f));
    forall t | t in matching ensures t in log {
      FilterMembership(log, Matching(f), t);
    }
    Paginate(matching, skip, limit)
  }

  /** The listing is the `skip`-offset window of the filtered log: a record in log order is
      kept exactly when it passes every supplied filter. */
  lemma ListTransactionsWindow(log: seq<Transaction>, f: TxFilter, skip: nat, limit: nat)
    ensures var matching := Filter(log, Matching(f));
            ListTransactions(log, f, skip, limit) == Paginate(matching, skip, limit) &&
            forall t :: t in matching <==> t in log && MatchesFilter(f, t)
  {
    forall t {
      FilterMembership(log, Matching(f), t);
    }
  }

  // ---------------------------------------------------------------------------
  // get_student_active_textbooks

  method StudentActiveTextbooks(db: Db, sid: int) returns (r: seq<Transaction>)
    ensures r == ActiveLoans(db.transactions, Some(sid))
  {
    var log := db.transactions;
    var issued := IssuesOf(log, Some(sid));
    var keep := NotReturnedIn(log);
    r := [];
    var j := 0;
    while j < |issued|
      invariant 0 <= j <= |issued|
      invariant r == Filter(issued[..j], keep)
    {
      var t := issued[j];
      FilterAppend(issued[..j], t, keep);
      PrefixStep(issued, j);
      if FirstReturn(log, t.textbookId).None? {
        r := r + [t];
      }
      j := j + 1;
    }
    assert issued[..|issued|] == issued;
  }
}
