/** The records the endpoints read and write, as the API layer uses them, and the messages
    the service hands to the messenger bot. Every row carries its autoincrement `id`;
    instants are whole seconds on one clock. */
module Entities {
  import opened Common

  datatype Role = Teacher | StudentRole

  datatype TxKind = Issue | Return

  datatype TxStatus = TxPending | Completed | Cancelled

  datatype DamageType = Minor | Moderate | Severe | Lost

  datatype DamageStatus = Pending | Checked

  datatype FoundStatus = Found | Returned

  datatype Student = Student(
    id: int,
    firstName: string,
    lastName: string,
    middleName: Option<string>,
    grade: string,
    phone: Option<string>,
    parentPhone: Option<string>,
    maxUserId: Option<string>,
    isActive: bool)

  datatype Textbook = Textbook(
    id: int,
    qrCode: string,
    subject: string,
    title: string,
    author: Option<string>,
    publisher: Option<string>,
    year: Option<int>,
    isbn: Option<string>,
    inventoryNumber: Option<string>,
    initialCondition: Option<string>,
    currentCondition: Option<string>,
    isActive: bool)

  datatype User = User(
    id: int,
    username: string,
    email: Option<string>,
    passwordHash: string,
    role: Role,
    isActive: bool,
    studentId: Option<int>)

  /** One loan event. `issuedBy` is the acting teacher and `issuedAt` the instant the event
      was recorded (for a RETURN too); `returnedAt` is set on RETURN events only. */
  datatype Transaction = Transaction(
    id: int,
    textbookId: int,
    studentId: int,
    kind: TxKind,
    status: TxStatus,
    notes: Option<string>,
    photos: seq<string>,
    issuedBy: int,
    issuedAt: int,
    returnedAt: Option<int>)

  /** `reportedBy` is the id of the reporting *user* (not of a student record). */
  datatype DamageReport = DamageReport(
    id: int,
    textbookId: int,
    reportedBy: int,
    damageType: DamageType,
    description: string,
    photos: seq<string>,
    status: DamageStatus,
    decision: Option<string>,
    checkedBy: Option<int>,
    reportedAt: int,
    checkedAt: Option<int>)

  datatype FoundReport = FoundReport(
    id: int,
    textbookId: int,
    foundLocation: string,
    description: Option<string>,
    photos: seq<string>,
    status: FoundStatus,
    notes: Option<string>,
    reportedBy: int,
    returnedBy: Option<int>,
    foundAt: int,
    returnedAt: Option<int>)

  // Primary-key projections, used with Common.FindById and Common.DenseIds.
  function StudentId(s: Student): int { s.id }
  function TextbookId(t: Textbook): int { t.id }
  function UserId(u: User): int { u.id }
  function TransactionId(t: Transaction): int { t.id }
  function DamageReportId(d: DamageReport): int { d.id }
  function FoundReportId(f: FoundReport): int { f.id }

  /** The four list-style parent notifications. */
  datatype ListKind = IssueList | ReturnList | BulkIssueSummary | ReturnReminder

  /** The keyword arguments of one `send_parent_notification` call, by message type. */
  datatype ParentPayload =
    | TextbookList(kind: ListKind, textbookList: string, totalCount: nat)
    | LostTextbook(textbookName: string, lostAt: int)
    | FoundTextbook(textbookName: string, finderName: string)
    | DamageCheckReminder(textbookCount: nat, deadlineDays: nat)

  /** One call into the messenger bot client. */
  datatype Message =
    | ParentNotice(parentPhone: string, studentName: string, payload: ParentPayload)
    | DamageNotice(reporterName: string, textbookTitle: string, damageType: DamageType, duringCheckPeriod: bool)
    | LostNotice(studentName: string, textbookTitle: string, parentContact: Option<string>)
    | FoundNotice(finderName: string, textbookTitle: string, foundLocation: string)

  // `db.query(X).filter(X.id == id).first()` for each table.

  function StudentById(students: seq<Student>, id: int): (r: Option<Student>)
    ensures r.Some? ==> r.value in students && r.value.id == id
    ensures r.None? <==> forall i :: 0 <= i < |students| ==> students[i].id != id
  {
    match FindById(students, StudentId, id)
    case Some(i) => Some(students[i])
    case None => None
  }

  /** `Student.id == link` where the link may be NULL, which matches no row. */
  function StudentByLink(students: seq<Student>, link: Option<int>): Option<Student>
  {
    if link.Some? then StudentById(students, link.value) else None
  }

  function TextbookById(textbooks: seq<Textbook>, id: int): (r: Option<Textbook>)
    ensures r.Some? ==> r.value in textbooks && r.value.id == id
    ensures r.None? <==> forall i :: 0 <= i < |textbooks| ==> textbooks[i].id != id
  {
    match FindById(textbooks, TextbookId, id)
    case Some(i) => Some(textbooks[i])
    case None => None
  }

  function UserById(users: seq<User>, id: int): (r: Option<User>)
    ensures r.Some? ==> r.value in users && r.value.id == id
    ensures r.None? <==> forall i :: 0 <= i < |users| ==> users[i].id != id
  {
    match FindById(users, UserId, id)
    case Some(i) => Some(users[i])
    case None => None
  }

  function QrIs(code: string): Textbook -> bool
  {
    (t: Textbook) => t.qrCode == code
  }

  /** `db.query(Textbook).filter(Textbook.qr_code == code).first()`. */
  function TextbookByQr(textbooks: seq<Textbook>, code: string): (r: Option<Textbook>)
    ensures r.Some? ==> r.value in textbooks && r.value.qrCode == code
    ensures r.None? <==> forall i :: 0 <= i < |textbooks| ==> textbooks[i].qrCode != code
  {
    FirstWhere(textbooks, QrIs(code))
  }

  lemma TextbookByDenseId(textbooks: seq<Textbook>, id: int)
    requires DenseIds(textbooks, TextbookId)
    ensures TextbookById(textbooks, id) == if 1 <= id <= |textbooks| then Some(textbooks[id - 1]) else None
  {
    FindDense(textbooks, TextbookId, id);
  }

  lemma StudentByDenseId(students: seq<Student>, id: int)
    requires DenseIds(students, StudentId)
    ensures StudentById(students, id) == if 1 <= id <= |students| then Some(students[id - 1]) else None
  {
    FindDense(students, StudentId, id);
  }
}
