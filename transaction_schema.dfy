/** The transaction enums as they appear on the wire, and the bulk request bodies. */
module TransactionSchema {
  import opened Common
  import opened Entities

  /** The `str` value of each `TransactionType` member. */
  function KindName(k: TxKind): string
  {
    match k
    case Issue => "issue"
    case Return => "return"
  }

  /** Parsing a `TransactionType` query or body value; any other string is rejected. */
  function ParseKind(s: string): (r: Option<TxKind>)
    ensures r.Some? ==> KindName(r.value) == s
    ensures r.None? <==> s != "issue" && s != "return"
  {
    if s == "issue" then Some(Issue)
    else if s == "return" then Some(Return)
    else None
  }

  function StatusName(st: TxStatus): string
  {
    match st
    case TxPending => "pending"
    case Completed => "completed"
    case Cancelled => "cancelled"
  }

  function ParseStatus(s: string): (r: Option<TxStatus>)
    ensures r.Some? ==> StatusName(r.value) == s
    ensures r.None? <==> s != "pending" && s != "completed" && s != "cancelled"
  {
    if s == "pending" then Some(TxPending)
    else if s == "completed" then Some(Completed)
    else if s == "cancelled" then Some(Cancelled)
    else None
  }

  /** Every kind and every status survives printing and parsing back. */
  lemma EnumRoundTrip(k: TxKind, st: TxStatus)
    ensures ParseKind(KindName(k)) == Some(k)
    ensures ParseStatus(StatusName(st)) == Some(st)
  {
  }

  /** The two names of the kinds differ, and so do the three names of the statuses. */
  lemma EnumNamesDistinct(k1: TxKind, k2: TxKind, s1: TxStatus, s2: TxStatus)
    ensures KindName(k1) == KindName(k2) ==> k1 == k2
    ensures StatusName(s1) == StatusName(s2) ==> s1 == s2
  {
    EnumRoundTrip(k1, s1);
    EnumRoundTrip(k2, s2);
  }

  datatype BulkIssueRequest = BulkIssueRequest(textbookIds: seq<int>, studentId: int, notes: Option<string>)

  datatype BulkReturnRequest = BulkReturnRequest(textbookIds: seq<int>, notes: Option<string>)

  predicate NotesOk(notes: Option<string>)
  {
    notes.Some? ==> |notes.value| <= 500
  }

  predicate ValidBulkIssue(r: BulkIssueRequest)
  {
    |r.textbookIds| >= 1 && NotesOk(r.notes)
  }

  predicate ValidBulkReturn(r: BulkReturnRequest)
  {
    |r.textbookIds| >= 1 && NotesOk(r.notes)
  }
}
