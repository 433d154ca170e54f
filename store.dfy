/** The database session and the messenger bot, as the mutable state the endpoints share.

    Each table is a sequence of rows in insertion order. Rows are never physically deleted
    (deletion is a soft `is_active = false`), and ids are assigned by autoincrement, so row
    `i` has id `i + 1`. */
module Store {
  import opened Common
  import opened Entities
  import opened Ledger

  class Db {
    var textbooks: seq<Textbook>
    var students: seq<Student>
    var users: seq<User>
    var transactions: seq<Transaction>
    var damageReports: seq<DamageReport>
    var foundReports: seq<FoundReport>

    ghost predicate Valid()
      reads this
    {
      DenseIds(textbooks, TextbookId) && DenseIds(students, StudentId) && DenseIds(users, UserId) &&
      DenseIds(transactions, TransactionId) && DenseIds(damageReports, DamageReportId) &&
      DenseIds(foundReports, FoundReportId) &&
      LedgerOk(transactions) &&
      (forall i :: 0 <= i < |transactions| ==> 1 <= transactions[i].textbookId <= |textbooks|)
    }

    constructor ()
      ensures Valid()
      ensures textbooks == [] && students == [] && users == [] && transactions == [] &&
              damageReports == [] && foundReports == []
    {
      textbooks := [];
      students := [];
      users := [];
      transactions := [];
      damageReports := [];
      foundReports := [];
    }

    // `db.add(row)` followed by the commit, and in-place writes to one row, table by table.
    // Each keeps `Valid()` and leaves the other tables as they were.

    method AddTransaction(t: Transaction)
      requires Valid()
      requires t.id == |transactions| + 1 && 1 <= t.textbookId <= |textbooks|
      requires LedgerOk(transactions + [t])
      modifies this
      ensures Valid()
      ensures transactions == old(transactions) + [t]
      ensures textbooks == old(textbooks) && students == old(students) && users == old(users) &&
              damageReports == old(damageReports) && foundReports == old(foundReports)
    {
      DenseAppend(transactions, TransactionId, t);
      transactions := transactions + [t];
    }

    method AddTextbook(t: Textbook)
      requires Valid() && t.id == |textbooks| + 1
      modifies this
      ensures Valid()
      ensures textbooks == old(textbooks) + [t]
      ensures transactions == old(transactions) && students == old(students) && users == old(users) &&
              damageReports == old(damageReports) && foundReports == old(foundReports)
    {
      DenseAppend(textbooks, TextbookId, t);
      textbooks := textbooks + [t];
    }

    /** Several rows added in one commit, taking the next ids in turn. */
    method AddTextbooks(batch: seq<Textbook>)
      requires Valid() && forall k :: 0 <= k < |batch| ==> batch[k].id == |textbooks| + k + 1
      modifies this
      ensures Valid()
      ensures textbooks == old(textbooks) + batch
      ensures transactions == old(transactions) && students == old(students) && users == old(users) &&
              damageReports == old(damageReports) && foundReports == old(foundReports)
    {
      assert forall i :: 0 <= i < |textbooks| ==> (textbooks + batch)[i] == textbooks[i];
      assert forall k :: 0 <= k < |batch| ==> (textbooks + batch)[|textbooks| + k] == batch[k];
      textbooks := textbooks + batch;
    }

    method SetTextbook(i: nat, t: Textbook)
      requires Valid() && i < |textbooks| && t.id == textbooks[i].id
      modifies this
      ensures Valid()
      ensures textbooks == old(textbooks)[i := t]
      ensures transactions == old(transactions) && students == old(students) && users == old(users) &&
              damageReports == old(damageReports) && foundReports == old(foundReports)
    {
      DenseUpdate(textbooks, TextbookId, i, t);
      textbooks := textbooks[i := t];
    }

    method AddStudent(s: Student)
      requires Valid() && s.id == |students| + 1
      modifies this
      ensures Valid()
      ensures students == old(students) + [s]
      ensures textbooks == old(textbooks) && transactions == old(transactions) && users == old(users) &&
              damageReports == old(damageReports) && foundReports == old(foundReports)
    {
      DenseAppend(students, StudentId, s);
      students := students + [s];
    }

    method SetStudent(i: nat, s: Student)
      requires Valid() && i < |students| && s.id == students[i].id
      modifies this
      ensures Valid()
      ensures students == old(students)[i := s]
      ensures textbooks == old(textbooks) && transactions == old(transactions) && users == old(users) &&
              damageReports == old(damageReports) && foundReports == old(foundReports)
    {
      DenseUpdate(students, StudentId, i, s);
      students := students[i := s];
    }

    method AddUser(u: User)
      requires Valid() && u.id == |users| + 1
      modifies this
      ensures Valid()
      ensures users == old(users) + [u]
      ensures textbooks == old(textbooks) && transactions == old(transactions) && students == old(students) &&
              damageReports == old(damageReports) && foundReports == old(foundReports)
    {
      DenseAppend(users, UserId, u);
      users := users + [u];
    }

    method SetUser(i: nat, u: User)
      requires Valid() && i < |users| && u.id == users[i].id
      modifies this
      ensures Valid()
      ensures users == old(users)[i := u]
      ensures textbooks == old(textbooks) && transactions == old(transactions) && students == old(students) &&
              damageReports == old(damageReports) && foundReports == old(foundReports)
    {
      DenseUpdate(users, UserId, i, u);
      users := users[i := u];
    }

    method AddDamageReport(d: DamageReport)
      requires Valid() && d.id == |damageReports| + 1
      modifies this
      ensures Valid()
      ensures damageReports == old(damageReports) + [d]
      ensures textbooks == old(textbooks) && transactions == old(transactions) && students == old(students) &&
              users == old(users) && foundReports == old(foundReports)
    {
      DenseAppend(damageReports, DamageReportId, d);
      damageReports := damageReports + [d];
    }

    method SetDamageReport(i: nat, d: DamageReport)
      requires Valid() && i < |damageReports| && d.id == damageReports[i].id
      modifies this
      ensures Valid()
      ensures damageReports == old(damageReports)[i := d]
      ensures textbooks == old(textbooks) && transactions == old(transactions) && students == old(students) &&
              users == old(users) && foundReports == old(foundReports)
    {
      DenseUpdate(damageReports, DamageReportId, i, d);
      damageReports := damageReports[i := d];
    }

    method AddFoundReport(f: FoundReport)
      requires Valid() && f.id == |foundReports| + 1
      modifies this
      ensures Valid()
      ensures foundReports == old(foundReports) + [f]
      ensures textbooks == old(textbooks) && transactions == old(transactions) && students == old(students) &&
              users == old(users) && damageReports == old(damageReports)
    {
      DenseAppend(foundReports, FoundReportId, f);
      foundReports := foundReports + [f];
    }

    method SetFoundReport(i: nat, f: FoundReport)
      requires Valid() && i < |foundReports| && f.id == foundReports[i].id
      modifies this
      ensures Valid()
      ensures foundReports == old(foundReports)[i := f]
      ensures textbooks == old(textbooks) && transactions == old(transactions) && students == old(students) &&
              users == old(users) && damageReports == old(damageReports)
    {
      DenseUpdate(foundReports, FoundReportId, i, f);
      foundReports := foundReports[i := f];
    }
  }

  /** The outbox of the messenger bot client: every call made to it, in order. */
  class Bot {
    var outbox: seq<Message>

    constructor ()
      ensures outbox == []
    {
      outbox := [];
    }

    method Send(m: Message)
      modifies this
      ensures outbox == old(outbox) + [m]
    {
      outbox := outbox + [m];
    }
  }

  /** An element appended to a table with the next id keeps the table's ids dense. */
  lemma DenseAppend<T>(s: seq<T>, idOf: T -> int, x: T)
    requires DenseIds(s, idOf) && idOf(x) == |s| + 1
    ensures DenseIds(s + [x], idOf)
  {
    assert forall i :: 0 <= i < |s| ==> (s + [x])[i] == s[i];
  }

  /** Replacing one row by a row with the same id keeps the table's ids dense. */
  lemma DenseUpdate<T>(s: seq<T>, idOf: T -> int, i: nat, x: T)
    requires DenseIds(s, idOf) && i < |s| && idOf(x) == idOf(s[i])
    ensures DenseIds(s[i := x], idOf)
  {
  }
}
