/** The teacher-side found-report endpoints. A report goes FOUND, then RETURNED once
    through `mark_as_returned`; the generic update writes any field, status included. */
module FoundReports {
  import opened Common
  import opened Entities
  import opened Store
  import opened Uploads
  import opened ParentNotifications
  import opened FoundReportSchema

  // ---------------------------------------------------------------------------
  // create_found_report

  function CreateRefusal(textbooks: seq<Textbook>, tid: int, location: string, description: Option<string>): (r: Option<Error>)
    ensures r == Some(ValidationFailed) <==> !(5 <= |location| <= 200) || (description.Some? && |description.value| > 500)
    ensures r == Some(TextbookNotFound) <==>
              LocationOk(location) && TextOk(description) && forall i :: 0 <= i < |textbooks| ==> textbooks[i].id != tid
    ensures r.None? <==> LocationOk(location) && TextOk(description) && TextbookById(textbooks, tid).Some?
  {
    if !(LocationOk(location) && TextOk(description)) then Some(ValidationFailed)
    else if TextbookById(textbooks, tid).None? then Some(TextbookNotFound)
    else None
  }

  /** The owner's parent is notified through the reporting teacher's own student link as
      the finder; with no such link nothing is sent. */
  method CreateFoundReport(db: Db, bot: Bot, teacher: User, tid: int, location: string, description: Option<string>,
                           uploads: seq<Upload>, now: int) returns (r: Result<FoundReport>)
    requires db.Valid()
    modifies db, bot
    ensures db.Valid()
    ensures db.textbooks == old(db.textbooks) && db.students == old(db.students) && db.users == old(db.users) &&
            db.transactions == old(db.transactions) && db.damageReports == old(db.damageReports)
    ensures r.Err? <==> CreateRefusal(db.textbooks, tid, location, description).Some?
    ensures r.Err? ==> r.error == CreateRefusal(db.textbooks, tid, location, description).value &&
                       db.foundReports == old(db.foundReports) && bot.outbox == old(bot.outbox)
    ensures r.Ok? ==>
              r.value == FoundReport(|old(db.foundReports)| + 1, tid, location, description, ImagePaths("found", uploads),
                                     Found, None, teacher.id, None, now, None) &&
              db.foundReports == old(db.foundReports) + [r.value] &&
              bot.outbox == old(bot.outbox) + FoundNotices(db.students, db.textbooks, db.transactions, teacher.studentId, tid)
  {
    var refusal := CreateRefusal(db.textbooks, tid, location, description);
    if refusal.Some? {
      return Err(refusal.value);
    }
    var photos := SavePhotos("found", uploads);
    var report := FoundReport(|db.foundReports| + 1, tid, location, description, photos, Found, None, teacher.id, None, now, None);
    db.AddFoundReport(report);
    NotifyFoundTextbook(db, bot, teacher.studentId, tid);
    return Ok(report);
  }

  // ---------------------------------------------------------------------------
  // update_found_report

  /** The fields sent are written, the others kept; `returned_at` is then stamped whenever
      the resulting status is RETURNED. */
  function ApplyUpdate(f: FoundReport, u: FoundReportUpdate, now: int): (r: FoundReport)
    ensures r.id == f.id && r.textbookId == f.textbookId && r.reportedBy == f.reportedBy &&
            r.photos == f.photos && r.returnedBy == f.returnedBy && r.foundAt == f.foundAt
    ensures (u.foundLocation.Keep? ==> r.foundLocation == f.foundLocation) && (u.foundLocation.Put? ==> r.foundLocation == u.foundLocation.value)
    ensures (u.description.Keep? ==> r.description == f.description) && (u.description.Put? ==> r.description == u.description.value)
    ensures (u.status.Keep? ==> r.status == f.status) && (u.status.Put? ==> r.status == u.status.value)
    ensures (u.notes.Keep? ==> r.notes == f.notes) && (u.notes.Put? ==> r.notes == u.notes.value)
    ensures r.status == Returned ==> r.returnedAt == Some(now)
    ensures r.status == Found ==> r.returnedAt == f.returnedAt
  {
    var written := f.(foundLocation := Patched(u.foundLocation, f.foundLocation),
                      description := Patched(u.description, f.description),
                      status := Patched(u.status, f.status),
                      notes := Patched(u.notes, f.notes));
    if written.status == Returned then written.(returnedAt := Some(now)) else written
  }

  /** An update that sends nothing leaves a FOUND report as it was. */
  lemma EmptyUpdate(f: FoundReport, now: int)
    ensures f.status == Found ==> ApplyUpdate(f, FoundReportUpdate(Keep, Keep, Keep, Keep), now) == f
    ensures f.status == Returned ==> ApplyUpdate(f, FoundReportUpdate(Keep, Keep, Keep, Keep), now) == f.(returnedAt := Some(now))
  {
  }

  method UpdateFoundReport(db: Db, id: int, u: FoundReportUpdate, now: int) returns (r: Result<FoundReport>)
    requires db.Valid()
    modifies db
    ensures db.Valid()
    ensures db.textbooks == old(db.textbooks) && db.students == old(db.students) && db.users == old(db.users) &&
            db.transactions == old(db.transactions) && db.damageReports == old(db.damageReports)
    ensures !ValidUpdate(u) ==> r == Err(ValidationFailed)
    ensures ValidUpdate(u) && (forall i :: 0 <= i < |old(db.foundReports)| ==> old(db.foundReports)[i].id != id) ==>
              r == Err(FoundReportNotFound)
    ensures r.Err? ==> db.foundReports == old(db.foundReports)
    ensures r.Ok? <==> ValidUpdate(u) && 1 <= id <= |old(db.foundReports)|
    ensures r.Ok? ==> r.value == ApplyUpdate(old(db.foundReports)[id - 1], u, now) &&
                      db.foundReports == old(db.foundReports)[id - 1 := r.value]
  {
    if !ValidUpdate(u) {
      return Err(ValidationFailed);
    }
    FindDense(db.foundReports, FoundReportId, id);
    var found := FindById(db.foundReports, FoundReportId, id);
    if found.None? {
      return Err(FoundReportNotFound);
    }
    var i := found.value;
    var report := ApplyUpdate(db.foundReports[i], u, now);
    db.SetFoundReport(i, report);
    return Ok(report);
  }

  // ---------------------------------------------------------------------------
  // mark_as_returned

  function ReturnRefusal(reports: seq<FoundReport>, id: int, notes: Option<string>): (r: Option<Error>)
    ensures r == Some(ValidationFailed) <==> notes.Some? && |notes.value| > 500
    ensures r == Some(FoundReportNotFound) <==> TextOk(notes) && forall i :: 0 <= i < |reports| ==> reports[i].id != id
    ensures r == Some(FoundAlreadyReturned) <==>
              TextOk(notes) && FindById(reports, FoundReportId, id).Some? &&
              reports[FindById(reports, FoundReportId, id).value].status == Returned
  {
    if !TextOk(notes) then Some(ValidationFailed)
    else match FindById(reports, FoundReportId, id)
      case None => Some(FoundReportNotFound)
      case Some(i) => if reports[i].status == Returned then Some(FoundAlreadyReturned) else None
  }

  /** RETURNED, with the time and the teacher; the notes are replaced only by non-empty
      ones. */
  function HandedBack(f: FoundReport, teacher: int, notes: Option<string>, now: int): (r: FoundReport)
    ensures r.status == Returned && r.returnedAt == Some(now) && r.returnedBy == Some(teacher)
    ensures r.notes == if Truthy(notes) then notes else f.notes
    ensures r.(status := f.status, returnedAt := f.returnedAt, returnedBy := f.returnedBy, notes := f.notes) == f
  {
    var r := f.(status := Returned, returnedAt := Some(now), returnedBy := Some(teacher));
    if Truthy(notes) then r.(notes := notes) else r
  }

  method MarkAsReturned(db: Db, teacher: User, id: int, notes: Option<string>, now: int) returns (r: Result<FoundReport>)
    requires db.Valid()
    modifies db
    ensures db.Valid()
    ensures db.textbooks == old(db.textbooks) && db.students == old(db.students) && db.users == old(db.users) &&
            db.transactions == old(db.transactions) && db.damageReports == old(db.damageReports)
    ensures r.Err? <==> ReturnRefusal(old(db.foundReports), id, notes).Some?
    ensures r.Err? ==> r.error == ReturnRefusal(old(db.foundReports), id, notes).value &&
                       db.foundReports == old(db.foundReports)
    ensures r.Ok? ==> 1 <= id <= |old(db.foundReports)| && old(db.foundReports)[id - 1].status == Found &&
                      r.value == HandedBack(old(db.foundReports)[id - 1], teacher.id, notes, now) &&
                      db.foundReports == old(db.foundReports)[id - 1 := r.value]
  {
    var refusal := ReturnRefusal(db.foundReports, id, notes);
    if refusal.Some? {
      return Err(refusal.value);
    }
    FindDense(db.foundReports, FoundReportId, id);
    var i := FindById(db.foundReports, FoundReportId, id).value;
    var report := HandedBack(db.foundReports[i], teacher.id, notes, now);
    db.SetFoundReport(i, report);
    return Ok(report);
  }

  /** A report marked returned cannot be marked again. */
  lemma MarkIsOneShot(reports: seq<FoundReport>, id: int, teacher: int, notes: Option<string>, now: int, again: Option<string>)
    requires DenseIds(reports, FoundReportId) && 1 <= id <= |reports|
    requires TextOk(again)
    ensures ReturnRefusal(reports[id - 1 := HandedBack(reports[id - 1], teacher, notes, now)], id, again) ==
            Some(FoundAlreadyReturned)
  {
    var after := reports[id - 1 := HandedBack(reports[id - 1], teacher, notes, now)];
    DenseUpdate(reports, FoundReportId, id - 1, after[id - 1]);
    FindDense(after, FoundReportId, id);
  }

  /** The generic update bypasses the one-shot rule: writing FOUND into a returned report
      lets it be marked returned again. */
  lemma UpdateReopensReturn(reports: seq<FoundReport>, id: int, notes: Option<string>, now: int)
    requires DenseIds(reports, FoundReportId) && 1 <= id <= |reports|
    requires TextOk(notes)
    ensures ReturnRefusal(reports[id - 1 := ApplyUpdate(reports[id - 1], FoundReportUpdate(Keep, Keep, Put(Found), Keep), now)],
                          id, notes).None?
  {
    var after := reports[id - 1 := ApplyUpdate(reports[id - 1], FoundReportUpdate(Keep, Keep, Put(Found), Keep), now)];
    DenseUpdate(reports, FoundReportId, id - 1, after[id - 1]);
    FindDense(after, FoundReportId, id);
  }

  // ---------------------------------------------------------------------------
  // get_active_found_reports and get_found_statistics

  function HasStatus(s: FoundStatus): FoundReport -> bool
  {
    (f: FoundReport) => f.status == s
  }

  /** The reports still waiting to go back, in table order. */
  function ActiveFoundReports(reports: seq<FoundReport>): seq<FoundReport>
  {
    Filter(reports, HasStatus(Found))
  }

  lemma ActiveFoundReportsMeaning(reports: seq<FoundReport>, f: FoundReport)
    ensures f in ActiveFoundReports(reports) <==> f in reports && f.status == Found
  {
    FilterMembership(reports, HasStatus(Found), f);
  }

  datatype FoundStats = FoundStats(total: nat, found: nat, returned: nat)

  function FoundStatistics(reports: seq<FoundReport>): FoundStats
  {
    FoundStats(|reports|, Count(reports, HasStatus(Found)), Count(reports, HasStatus(Returned)))
  }

  /** With two statuses the found and returned counts partition the total, and the found
      count is the length of the active list. */
  lemma FoundStatisticsTotals(reports: seq<FoundReport>)
    ensures FoundStatistics(reports).found + FoundStatistics(reports).returned == FoundStatistics(reports).total
    ensures FoundStatistics(reports).found == |ActiveFoundReports(reports)|
  {
    CountSplit(reports, HasStatus(Found), HasStatus(Returned));
    CountIsFilterLength(reports, HasStatus(Found));
  }
}
