/** The teacher-side damage-report endpoints. A report is reviewed once: PENDING, then
    CHECKED through `check`; the generic update writes any field, status included. */
module DamageReports {
  import opened Common
  import opened Entities
  import opened Store
  import opened Uploads
  import opened ParentNotifications
  import opened DamageReportSchema
  import Config

  // ---------------------------------------------------------------------------
  // create_damage_report

  function CreateRefusal(textbooks: seq<Textbook>, tid: int, description: string): (r: Option<Error>)
    ensures r == Some(ValidationFailed) <==> !(10 <= |description| <= 1000)
    ensures r == Some(TextbookNotFound) <==>
              DescriptionOk(description) && forall i :: 0 <= i < |textbooks| ==> textbooks[i].id != tid
    ensures r.None? <==> DescriptionOk(description) && TextbookById(textbooks, tid).Some?
  {
    if !DescriptionOk(description) then Some(ValidationFailed)
    else if TextbookById(textbooks, tid).None? then Some(TextbookNotFound)
    else None
  }

  /** The notification a new report triggers: the lost-textbook notice for a LOST report
      (addressed through the reporting teacher's own student link), nothing otherwise. */
  function CreateNotices(db: Db, teacher: User, tid: int, damageType: DamageType, now: int): seq<Message>
    reads db
  {
    if damageType == Lost then LostNotices(db.students, db.textbooks, teacher.studentId, tid, now) else []
  }

  method CreateDamageReport(db: Db, bot: Bot, teacher: User, tid: int, damageType: DamageType, description: string,
                            uploads: seq<Upload>, now: int) returns (r: Result<DamageReport>)
    requires db.Valid()
    modifies db, bot
    ensures db.Valid()
    ensures db.textbooks == old(db.textbooks) && db.students == old(db.students) && db.users == old(db.users) &&
            db.transactions == old(db.transactions) && db.foundReports == old(db.foundReports)
    ensures r.Err? <==> CreateRefusal(db.textbooks, tid, description).Some?
    ensures r.Err? ==> r.error == CreateRefusal(db.textbooks, tid, description).value &&
                       db.damageReports == old(db.damageReports) && bot.outbox == old(bot.outbox)
    ensures r.Ok? ==>
              r.value == DamageReport(|old(db.damageReports)| + 1, tid, teacher.id, damageType, description,
                                      ImagePaths("damage", uploads), Pending, None, None, now, None) &&
              db.damageReports == old(db.damageReports) + [r.value] &&
              bot.outbox == old(bot.outbox) + CreateNotices(db, teacher, tid, damageType, now)
  {
    var refusal := CreateRefusal(db.textbooks, tid, description);
    if refusal.Some? {
      return Err(refusal.value);
    }
    var photos := SavePhotos("damage", uploads);
    var report := DamageReport(|db.damageReports| + 1, tid, teacher.id, damageType, description, photos, Pending, None, None, now, None);
    db.AddDamageReport(report);
    if damageType == Lost {
      NotifyLostTextbook(db, bot, teacher.studentId, tid, now);
    }
    return Ok(report);
  }

  /** Only a LOST report notifies, and with at most one message. */
  lemma CreateNoticesAtMostOne(db: Db, teacher: User, tid: int, damageType: DamageType, now: int)
    ensures |CreateNotices(db, teacher, tid, damageType, now)| <= 1
    ensures damageType != Lost ==> CreateNotices(db, teacher, tid, damageType, now) == []
  {
    LostNoticesMeaning(db.students, db.textbooks, teacher.studentId, tid, now);
  }

  // ---------------------------------------------------------------------------
  // update_damage_report

  /** The fields sent are written, the others kept; `checked_at` is then stamped whenever
      the resulting status is CHECKED. */
  function ApplyUpdate(d: DamageReport, u: DamageReportUpdate, now: int): (r: DamageReport)
    ensures r.id == d.id && r.textbookId == d.textbookId && r.reportedBy == d.reportedBy &&
            r.photos == d.photos && r.checkedBy == d.checkedBy && r.reportedAt == d.reportedAt
    ensures (u.damageType.Keep? ==> r.damageType == d.damageType) && (u.damageType.Put? ==> r.damageType == u.damageType.value)
    ensures (u.description.Keep? ==> r.description == d.description) && (u.description.Put? ==> r.description == u.description.value)
    ensures (u.status.Keep? ==> r.status == d.status) && (u.status.Put? ==> r.status == u.status.value)
    ensures (u.decision.Keep? ==> r.decision == d.decision) && (u.decision.Put? ==> r.decision == u.decision.value)
    ensures r.status == Checked ==> r.checkedAt == Some(now)
    ensures r.status == Pending ==> r.checkedAt == d.checkedAt
  {
    var written := d.(damageType := Patched(u.damageType, d.damageType),
                      description := Patched(u.description, d.description),
                      status := Patched(u.status, d.status),
                      decision := Patched(u.decision, d.decision));
    if written.status == Checked then written.(checkedAt := Some(now)) else written
  }

  /** An update that sends nothing leaves a pending report as it was, and changes only the
      check time of a checked one. */
  lemma EmptyUpdate(d: DamageReport, now: int)
    ensures d.status == Pending ==> ApplyUpdate(d, DamageReportUpdate(Keep, Keep, Keep, Keep), now) == d
    ensures d.status == Checked ==> ApplyUpdate(d, DamageReportUpdate(Keep, Keep, Keep, Keep), now) == d.(checkedAt := Some(now))
  {
  }

  method UpdateDamageReport(db: Db, id: int, u: DamageReportUpdate, now: int) returns (r: Result<DamageReport>)
    requires db.Valid()
    modifies db
    ensures db.Valid()
    ensures db.textbooks == old(db.textbooks) && db.students == old(db.students) && db.users == old(db.users) &&
            db.transactions == old(db.transactions) && db.foundReports == old(db.foundReports)
    ensures !ValidUpdate(u) ==> r == Err(ValidationFailed)
    ensures ValidUpdate(u) && (forall i :: 0 <= i < |old(db.damageReports)| ==> old(db.damageReports)[i].id != id) ==>
              r == Err(DamageReportNotFound)
    ensures r.Err? ==> db.damageReports == old(db.damageReports)
    ensures r.Ok? <==> ValidUpdate(u) && 1 <= id <= |old(db.damageReports)|
    ensures r.Ok? ==> r.value == ApplyUpdate(old(db.damageReports)[id - 1], u, now) &&
                      db.damageReports == old(db.damageReports)[id - 1 := r.value]
  {
    if !ValidUpdate(u) {
      return Err(ValidationFailed);
    }
    FindDense(db.damageReports, DamageReportId, id);
    var found := FindById(db.damageReports, DamageReportId, id);
    if found.None? {
      return Err(DamageReportNotFound);
    }
    var i := found.value;
    var report := ApplyUpdate(db.damageReports[i], u, now);
    db.SetDamageReport(i, report);
    return Ok(report);
  }

  // ---------------------------------------------------------------------------
  // check_damage_report

  function CheckRefusal(reports: seq<DamageReport>, id: int, decision: string): (r: Option<Error>)
    ensures r == Some(ValidationFailed) <==> !(1 <= |decision| <= 500)
    ensures r == Some(DamageReportNotFound) <==>
              1 <= |decision| <= 500 && forall i :: 0 <= i < |reports| ==> reports[i].id != id
    ensures r == Some(DamageReportAlreadyChecked) <==>
              1 <= |decision| <= 500 && FindById(reports, DamageReportId, id).Some? &&
              reports[FindById(reports, DamageReportId, id).value].status != Pending
  {
    if !(1 <= |decision| <= 500) then Some(ValidationFailed)
    else match FindById(reports, DamageReportId, id)
      case None => Some(DamageReportNotFound)
      case Some(i) => if reports[i].status != Pending then Some(DamageReportAlreadyChecked) else None
  }

  /** The review: CHECKED, with the decision, the checking teacher and the time. */
  function Reviewed(d: DamageReport, decision: string, teacherId: int, now: int): DamageReport
  {
    d.(status := Checked, decision := Some(decision), checkedBy := Some(teacherId), checkedAt := Some(now))
  }

  method CheckDamageReport(db: Db, teacher: User, id: int, decision: string, now: int) returns (r: Result<DamageReport>)
    requires db.Valid()
    modifies db
    ensures db.Valid()
    ensures db.textbooks == old(db.textbooks) && db.students == old(db.students) && db.users == old(db.users) &&
            db.transactions == old(db.transactions) && db.foundReports == old(db.foundReports)
    ensures r.Err? <==> CheckRefusal(old(db.damageReports), id, decision).Some?
    ensures r.Err? ==> r.error == CheckRefusal(old(db.damageReports), id, decision).value &&
                       db.damageReports == old(db.damageReports)
    ensures r.Ok? ==> 1 <= id <= |old(db.damageReports)| && old(db.damageReports)[id - 1].status == Pending &&
                      r.value == Reviewed(old(db.damageReports)[id - 1], decision, teacher.id, now) &&
                      db.damageReports == old(db.damageReports)[id - 1 := r.value]
  {
    var refusal := CheckRefusal(db.damageReports, id, decision);
    if refusal.Some? {
      return Err(refusal.value);
    }
    FindDense(db.damageReports, DamageReportId, id);
    var i := FindById(db.damageReports, DamageReportId, id).value;
    var report := Reviewed(db.damageReports[i], decision, teacher.id, now);
    db.SetDamageReport(i, report);
    return Ok(report);
  }

  /** A report that has been checked cannot be checked again, whatever the decision. */
  lemma CheckIsOneShot(reports: seq<DamageReport>, id: int, decision: string, teacherId: int, now: int, again: string)
    requires DenseIds(reports, DamageReportId) && 1 <= id <= |reports|
    requires 1 <= |again| <= 500
    ensures CheckRefusal(reports[id - 1 := Reviewed(reports[id - 1], decision, teacherId, now)], id, again) ==
            Some(DamageReportAlreadyChecked)
  {
    var after := reports[id - 1 := Reviewed(reports[id - 1], decision, teacherId, now)];
    DenseUpdate(reports, DamageReportId, id - 1, after[id - 1]);
    FindDense(after, DamageReportId, id);
  }

  /** The generic update bypasses the one-shot rule: writing PENDING into a checked report
      makes it checkable again. */
  lemma UpdateReopensReview(reports: seq<DamageReport>, id: int, decision: string, now: int)
    requires DenseIds(reports, DamageReportId) && 1 <= id <= |reports|
    requires 1 <= |decision| <= 500
    ensures CheckRefusal(reports[id - 1 := ApplyUpdate(reports[id - 1], DamageReportUpdate(Keep, Keep, Put(Pending), Keep), now)],
                         id, decision).None?
  {
    var after := reports[id - 1 := ApplyUpdate(reports[id - 1], DamageReportUpdate(Keep, Keep, Put(Pending), Keep), now)];
    DenseUpdate(reports, DamageReportId, id - 1, after[id - 1]);
    FindDense(after, DamageReportId, id);
  }

  // ---------------------------------------------------------------------------
  // get_pending_damage_reports

  function OverdueAt(deadline: int): DamageReport -> bool
  {
    (d: DamageReport) => d.status == Pending && d.reportedAt <= deadline
  }

  /** The unchecked reports filed at least `DAMAGE_CHECK_DAYS` days ago, in table order. */
  function PendingCheck(reports: seq<DamageReport>, now: int): seq<DamageReport>
  {
    Filter(reports, OverdueAt(now - Config.DamageCheckDays * Day))
  }

  lemma PendingCheckMeaning(reports: seq<DamageReport>, now: int, d: DamageReport)
    ensures d in PendingCheck(reports, now) <==> d in reports && d.status == Pending && d.reportedAt <= now - 7 * Day
  {
    FilterMembership(reports, OverdueAt(now - Config.DamageCheckDays * Day), d);
  }

  // ---------------------------------------------------------------------------
  // get_textbook_damage_history

  function OfTextbook(tid: int): DamageReport -> bool
  {
    (d: DamageReport) => d.textbookId == tid
  }

  /** Sorting on the negated time puts the newest first. */
  function NewestFirst(d: DamageReport): int
  {
    -d.reportedAt
  }

  /** Ties in `reported_at`, which the database leaves unordered, keep table order. */
  function DamageHistory(reports: seq<DamageReport>, tid: int): seq<DamageReport>
  {
    SortBy(Filter(reports, OfTextbook(tid)), NewestFirst)
  }

  lemma DamageHistoryMeaning(reports: seq<DamageReport>, tid: int)
    ensures forall d :: d in DamageHistory(reports, tid) <==> d in reports && d.textbookId == tid
    ensures forall i, j :: 0 <= i < j < |DamageHistory(reports, tid)| ==>
              DamageHistory(reports, tid)[i].reportedAt >= DamageHistory(reports, tid)[j].reportedAt
    ensures multiset(DamageHistory(reports, tid)) == multiset(Filter(reports, OfTextbook(tid)))
  {
    var h := DamageHistory(reports, tid);
    forall d ensures d in h <==> d in reports && d.textbookId == tid {
      assert d in h <==> d in multiset(h);
      FilterMembership(reports, OfTextbook(tid), d);
    }
    forall i, j | 0 <= i < j < |h| ensures h[i].reportedAt >= h[j].reportedAt {
      assert NewestFirst(h[i]) <= NewestFirst(h[j]);
    }
  }

  // ---------------------------------------------------------------------------
  // get_damage_statistics

  datatype DamageStats = DamageStats(total: nat, pending: nat, checked: nat, byType: seq<(DamageType, nat)>)

  function HasStatus(s: DamageStatus): DamageReport -> bool
  {
    (d: DamageReport) => d.status == s
  }

  function HasType(t: DamageType): DamageReport -> bool
  {
    (d: DamageReport) => d.damageType == t
  }

  /** `GROUP BY damage_type`: one pair per type that occurs, in the enum's order. */
  function TypeCounts(reports: seq<DamageReport>): seq<(DamageType, nat)>
  {
    Collect([Minor, Moderate, Severe, Lost], TypeEntry(reports))
  }

  function TypeEntry(reports: seq<DamageReport>): DamageType -> seq<(DamageType, nat)>
  {
    (t: DamageType) => var n := Count(reports, HasType(t)); if n == 0 then [] else [(t, n)]
  }

  /** A type is listed, once, exactly when some report has it, with its number of reports. */
  lemma TypeCountsMeaning(reports: seq<DamageReport>, t: DamageType, n: nat)
    ensures (t, n) in TypeCounts(reports) <==> n == Count(reports, HasType(t)) && n > 0
  {
    var types := [Minor, Moderate, Severe, Lost];
    CollectMembership(types, TypeEntry(reports), (t, n));
    assert t == types[if t.Minor? then 0 else if t.Moderate? then 1 else if t.Severe? then 2 else 3];
  }

  /** The statistics the endpoint evidently intends (the source as written fails, see
      `DamageStatisticsAsWritten`). */
  function DamageStatistics(reports: seq<DamageReport>): DamageStats
  {
    DamageStats(|reports|, Count(reports, HasStatus(Pending)), Count(reports, HasStatus(Checked)), TypeCounts(reports))
  }

  /** With two statuses the pending and checked counts partition the total. */
  lemma DamageStatisticsTotals(reports: seq<DamageReport>)
    ensures DamageStatistics(reports).pending + DamageStatistics(reports).checked == DamageStatistics(reports).total
  {
    CountSplit(reports, HasStatus(Pending), HasStatus(Checked));
  }

  /** The per-type counts add up to the total. */
  lemma {:induction false} TypeCountsSum(reports: seq<DamageReport>)
    ensures Count(reports, HasType(Minor)) + Count(reports, HasType(Moderate)) +
            Count(reports, HasType(Severe)) + Count(reports, HasType(Lost)) == |reports|
  {
    if |reports| > 0 {
      TypeCountsSum(reports[..|reports| - 1]);
    }
  }

  /** `db.func` is not an attribute of the session, so the grouped count raises before any
      result is built: every call fails with a server error. */
  function DamageStatisticsAsWritten(reports: seq<DamageReport>): (r: Result<DamageStats>)
    ensures r == Err(InternalError)
  {
    Err(InternalError)
  }

  /** The as-written endpoint never returns the intended statistics. */
  lemma DamageStatisticsDiffers(reports: seq<DamageReport>)
    ensures DamageStatisticsAsWritten(reports) != Ok(DamageStatistics(reports))
  {
  }
}
