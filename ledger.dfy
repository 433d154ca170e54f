/** The loan log and the "is it out, and whose is it" queries every endpoint derives from it.

    The rule the service applies is coarse: a textbook counts as issued as soon as the log
    holds any COMPLETED ISSUE for it, and as returned as soon as the log holds any COMPLETED
    RETURN for it, whatever their order. `Holder` at the end of this module is a separate,
    chronological reading of the log (the latest completed event decides), and
    `HolderAgreesWithCoarseRule` shows that on every log the endpoints can produce the two
    readings agree. */
module Ledger {
  import opened Common
  import opened Entities

  predicate IsCompletedIssue(t: Transaction)
  {
    t.kind == Issue && t.status == Completed
  }

  predicate IsCompletedReturn(t: Transaction)
  {
    t.kind == Return && t.status == Completed
  }

  /** The filter `textbook_id == tid, type == ISSUE, status == COMPLETED`. */
  function IssueOf(tid: int): Transaction -> bool
  {
    (t: Transaction) => IsCompletedIssue(t) && t.textbookId == tid
  }

  /** The filter `textbook_id == tid, type == RETURN, status == COMPLETED`. */
  function ReturnOf(tid: int): Transaction -> bool
  {
    (t: Transaction) => IsCompletedReturn(t) && t.textbookId == tid
  }

  /** The filter `student_id == sid, type == ISSUE, status == COMPLETED`; a missing `sid`
      (SQL NULL) matches no row. */
  function IssuedTo(sid: Option<int>): Transaction -> bool
  {
    (t: Transaction) => sid == Some(t.studentId) && IsCompletedIssue(t)
  }

  /** `.first()` of the completed issues of a textbook. */
  function FirstIssue(log: seq<Transaction>, tid: int): Option<Transaction>
  {
    FirstWhere(log, IssueOf(tid))
  }

  function FirstReturn(log: seq<Transaction>, tid: int): Option<Transaction>
  {
    FirstWhere(log, ReturnOf(tid))
  }

  predicate HasIssue(log: seq<Transaction>, tid: int)
  {
    FirstIssue(log, tid).Some?
  }

  predicate HasReturn(log: seq<Transaction>, tid: int)
  {
    FirstReturn(log, tid).Some?
  }

  /** Out on loan under the coarse rule. */
  predicate IsOut(log: seq<Transaction>, tid: int)
  {
    HasIssue(log, tid) && !HasReturn(log, tid)
  }

  function NotReturnedIn(log: seq<Transaction>): Transaction -> bool
  {
    (t: Transaction) => !HasReturn(log, t.textbookId)
  }

  /** The completed issues to a student, in log order. */
  function IssuesOf(log: seq<Transaction>, sid: Option<int>): seq<Transaction>
  {
    Filter(log, IssuedTo(sid))
  }

  /** A student's completed issues whose textbook has no completed return. */
  function ActiveLoans(log: seq<Transaction>, sid: Option<int>): seq<Transaction>
  {
    Filter(IssuesOf(log, sid), NotReturnedIn(log))
  }

  lemma IssueFound(log: seq<Transaction>, tid: int)
    ensures HasIssue(log, tid) <==> exists i :: 0 <= i < |log| && IsCompletedIssue(log[i]) && log[i].textbookId == tid
    ensures HasIssue(log, tid) ==> IsCompletedIssue(FirstIssue(log, tid).value) &&
                                   FirstIssue(log, tid).value.textbookId == tid &&
                                   FirstIssue(log, tid).value in log
  {
    if HasIssue(log, tid) {
      assert IssueOf(tid)(FirstIssue(log, tid).value);
    } else {
      forall i | 0 <= i < |log| ensures !(IsCompletedIssue(log[i]) && log[i].textbookId == tid) {
        assert !IssueOf(tid)(log[i]);
      }
    }
  }

  lemma ReturnFound(log: seq<Transaction>, tid: int)
    ensures HasReturn(log, tid) <==> exists i :: 0 <= i < |log| && IsCompletedReturn(log[i]) && log[i].textbookId == tid
  {
    if !HasReturn(log, tid) {
      forall i | 0 <= i < |log| ensures !(IsCompletedReturn(log[i]) && log[i].textbookId == tid) {
        assert !ReturnOf(tid)(log[i]);
      }
    }
  }

  lemma ActiveLoansMembership(log: seq<Transaction>, sid: Option<int>, t: Transaction)
    ensures t in ActiveLoans(log, sid) <==>
            t in log && IsCompletedIssue(t) && sid == Some(t.studentId) && !HasReturn(log, t.textbookId)
  {
    FilterMembership(log, IssuedTo(sid), t);
    FilterMembership(IssuesOf(log, sid), NotReturnedIn(log), t);
  }

  // ---------------------------------------------------------------------------
  // The log only grows: once issued (or returned), always issued (or returned).

  lemma IssueAppend(log: seq<Transaction>, t: Transaction, tid: int)
    ensures FirstIssue(log + [t], tid) ==
            if HasIssue(log, tid) then FirstIssue(log, tid) else if IssueOf(tid)(t) then Some(t) else None
  {
    FirstWhereAppend(log, t, IssueOf(tid));
  }

  lemma ReturnAppend(log: seq<Transaction>, t: Transaction, tid: int)
    ensures FirstReturn(log + [t], tid) ==
            if HasReturn(log, tid) then FirstReturn(log, tid) else if ReturnOf(tid)(t) then Some(t) else None
  {
    FirstWhereAppend(log, t, ReturnOf(tid));
  }

  /** A textbook, once issued, is reported "already issued" forever after: it can never be
      issued again. Its first issue, and so the student a return is credited to, never changes. */
  lemma {:induction false} IssuedForever(log: seq<Transaction>, later: seq<Transaction>, tid: int)
    requires HasIssue(log, tid)
    ensures FirstIssue(log + later, tid) == FirstIssue(log, tid)
    decreases |later|
  {
    if |later| > 0 {
      var init := later[..|later| - 1];
      IssuedForever(log, init, tid);
      assert log + later == (log + init) + [later[|later| - 1]];
      IssueAppend(log + init, later[|later| - 1], tid);
    } else {
      assert log + later == log;
    }
  }

  lemma {:induction false} ReturnedForever(log: seq<Transaction>, later: seq<Transaction>, tid: int)
    requires HasReturn(log, tid)
    ensures HasReturn(log + later, tid)
    decreases |later|
  {
    if |later| > 0 {
      var init := later[..|later| - 1];
      ReturnedForever(log, init, tid);
      assert log + later == (log + init) + [later[|later| - 1]];
      ReturnAppend(log + init, later[|later| - 1], tid);
    } else {
      assert log + later == log;
    }
  }

  // ---------------------------------------------------------------------------
  // The invariant every log the endpoints build satisfies.

  /** At most one completed ISSUE per textbook, ever. */
  ghost predicate OneIssuePerTextbook(log: seq<Transaction>)
  {
    forall i, j :: 0 <= i < j < |log| && IsCompletedIssue(log[i]) && IsCompletedIssue(log[j]) ==>
      log[i].textbookId != log[j].textbookId
  }

  /** Every completed RETURN is preceded by a completed ISSUE of that textbook to the same student. */
  ghost predicate ReturnsFollowIssues(log: seq<Transaction>)
  {
    forall j :: 0 <= j < |log| && IsCompletedReturn(log[j]) ==>
      exists i :: 0 <= i < j && IsCompletedIssue(log[i]) && log[i].textbookId == log[j].textbookId &&
                  log[i].studentId == log[j].studentId
  }

  ghost predicate LedgerOk(log: seq<Transaction>)
  {
    OneIssuePerTextbook(log) && ReturnsFollowIssues(log)
  }

  /** Under the invariant a textbook's completed issue, when there is one, is its first. */
  lemma OnlyIssue(log: seq<Transaction>, tid: int, i: int)
    requires OneIssuePerTextbook(log)
    requires 0 <= i < |log| && IsCompletedIssue(log[i]) && log[i].textbookId == tid
    ensures FirstIssue(log, tid) == Some(log[i])
  {
    IssueFound(log, tid);
    var j :| 0 <= j < |log| && log[j] == FirstIssue(log, tid).value;
    assert !(i < j) && !(j < i);
  }

  lemma LedgerPrefix(log: seq<Transaction>, n: nat)
    requires LedgerOk(log) && n <= |log|
    ensures LedgerOk(log[..n])
  {
    var p := log[..n];
    forall j | 0 <= j < |p| && IsCompletedReturn(p[j])
      ensures exists i :: 0 <= i < j && IsCompletedIssue(p[i]) && p[i].textbookId == p[j].textbookId &&
                          p[i].studentId == p[j].studentId
    {
      assert p[j] == log[j];
      var i :| 0 <= i < j && IsCompletedIssue(log[i]) && log[i].textbookId == log[j].textbookId &&
               log[i].studentId == log[j].studentId;
      assert p[i] == log[i];
    }
  }

  /** Appending the ISSUE that `issue_textbook` writes (only when no completed issue of the
      textbook exists) keeps the invariant. */
  lemma IssueKeepsLedger(log: seq<Transaction>, t: Transaction)
    requires LedgerOk(log)
    requires IsCompletedIssue(t) && !HasIssue(log, t.textbookId)
    ensures LedgerOk(log + [t])
  {
    var log' := log + [t];
    IssueFound(log, t.textbookId);
    forall i, j | 0 <= i < j < |log'| && IsCompletedIssue(log'[i]) && IsCompletedIssue(log'[j])
      ensures log'[i].textbookId != log'[j].textbookId
    {
      if j == |log| {
        assert log'[i] == log[i];
      } else {
        assert log'[i] == log[i] && log'[j] == log[j];
      }
    }
    forall j | 0 <= j < |log'| && IsCompletedReturn(log'[j])
      ensures exists i :: 0 <= i < j && IsCompletedIssue(log'[i]) && log'[i].textbookId == log'[j].textbookId &&
                          log'[i].studentId == log'[j].studentId
    {
      assert j < |log|;
      assert log'[j] == log[j];
      var i :| 0 <= i < j && IsCompletedIssue(log[i]) && log[i].textbookId == log[j].textbookId &&
               log[i].studentId == log[j].studentId;
      assert log'[i] == log[i];
    }
  }

  /** Appending a RETURN credited to the student of the textbook's first completed issue
      (what `return_textbook` writes) keeps the invariant. */
  lemma ReturnKeepsLedger(log: seq<Transaction>, t: Transaction)
    requires LedgerOk(log)
    requires t.kind == Return && HasIssue(log, t.textbookId)
    requires t.studentId == FirstIssue(log, t.textbookId).value.studentId
    ensures LedgerOk(log + [t])
  {
    var log' := log + [t];
    var iss := FirstIssue(log, t.textbookId).value;
    assert IssueOf(t.textbookId)(iss);
    var k :| 0 <= k < |log| && log[k] == iss;
    forall i, j | 0 <= i < j < |log'| && IsCompletedIssue(log'[i]) && IsCompletedIssue(log'[j])
      ensures log'[i].textbookId != log'[j].textbookId
    {
      assert log'[i] == log[i] && log'[j] == log[j];
    }
    forall j | 0 <= j < |log'| && IsCompletedReturn(log'[j])
      ensures exists i :: 0 <= i < j && IsCompletedIssue(log'[i]) && log'[i].textbookId == log'[j].textbookId &&
                          log'[i].studentId == log'[j].studentId
    {
      if j == |log| {
        assert log'[k] == iss;
      } else {
        assert log'[j] == log[j];
        var i :| 0 <= i < j && IsCompletedIssue(log[i]) && log[i].textbookId == log[j].textbookId &&
                 log[i].studentId == log[j].studentId;
        assert log'[i] == log[i];
      }
    }
  }

  /** Under the invariant, no two active loans of a student are for the same textbook. */
  lemma ActiveLoansDistinctTextbooks(log: seq<Transaction>, sid: Option<int>)
    requires LedgerOk(log)
    ensures forall a, b :: 0 <= a < b < |ActiveLoans(log, sid)| ==>
              ActiveLoans(log, sid)[a].textbookId != ActiveLoans(log, sid)[b].textbookId
  {
    FilterIssuesDistinct(log, IssuedTo(sid));
    var issues := IssuesOf(log, sid);
    FilterSubDistinct(issues, NotReturnedIn(log));
  }

  /** The completed issues of any sub-filter of the log name distinct textbooks. */
  lemma {:induction false} FilterIssuesDistinct(log: seq<Transaction>, p: Transaction -> bool)
    requires OneIssuePerTextbook(log)
    requires forall t :: p(t) ==> IsCompletedIssue(t)
    ensures forall a, b :: 0 <= a < b < |Filter(log, p)| ==> Filter(log, p)[a].textbookId != Filter(log, p)[b].textbookId
  {
    if |log| > 0 {
      var init := log[..|log| - 1];
      var x := log[|log| - 1];
      assert OneIssuePerTextbook(init) by {
        forall i, j | 0 <= i < j < |init| && IsCompletedIssue(init[i]) && IsCompletedIssue(init[j])
          ensures init[i].textbookId != init[j].textbookId
        {
          assert init[i] == log[i] && init[j] == log[j];
        }
      }
      FilterIssuesDistinct(init, p);
      var r := Filter(init, p);
      if p(x) {
        forall a | 0 <= a < |r| ensures r[a].textbookId != x.textbookId {
          FilterMembership(init, p, r[a]);
          var i :| 0 <= i < |init| && init[i] == r[a];
          assert log[i] == init[i];
        }
      }
    }
  }

  lemma {:induction false} FilterSubDistinct(s: seq<Transaction>, p: Transaction -> bool)
    requires forall a, b :: 0 <= a < b < |s| ==> s[a].textbookId != s[b].textbookId
    ensures forall a, b :: 0 <= a < b < |Filter(s, p)| ==> Filter(s, p)[a].textbookId != Filter(s, p)[b].textbookId
  {
    if |s| > 0 {
      var init := s[..|s| - 1];
      var x := s[|s| - 1];
      FilterSubDistinct(init, p);
      var r := Filter(init, p);
      if p(x) {
        forall a | 0 <= a < |r| ensures r[a].textbookId != x.textbookId {
          FilterMembership(init, p, r[a]);
          var i :| 0 <= i < |init| && init[i] == r[a];
          assert s[i] == init[i];
        }
      }
    }
  }

  // ---------------------------------------------------------------------------
  // Refinement: the chronological reading of the log.

  /** The student holding the textbook after the log's events in order: a completed ISSUE
      hands it to its student, a completed RETURN takes it back. */
  function Holder(log: seq<Transaction>, tid: int): Option<int>
  {
    if |log| == 0 then None
    else
      var t := log[|log| - 1];
      if t.textbookId == tid && IsCompletedIssue(t) then Some(t.studentId)
      else if t.textbookId == tid && IsCompletedReturn(t) then None
      else Holder(log[..|log| - 1], tid)
  }

  /** On every log satisfying the invariant the coarse rule and the chronological reading
      agree, and the holder is the student of the textbook's (only) completed issue. */
  lemma {:induction false} HolderAgreesWithCoarseRule(log: seq<Transaction>, tid: int)
    requires LedgerOk(log)
    ensures Holder(log, tid).Some? <==> IsOut(log, tid)
    ensures IsOut(log, tid) ==> Holder(log, tid) == Some(FirstIssue(log, tid).value.studentId)
  {
    if |log| > 0 {
      var init := log[..|log| - 1];
      var t := log[|log| - 1];
      assert log == init + [t];
      LedgerPrefix(log, |log| - 1);
      HolderAgreesWithCoarseRule(init, tid);
      IssueAppend(init, t, tid);
      ReturnAppend(init, t, tid);
    }
  }
}
