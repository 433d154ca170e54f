# Textbook management service: a Dafny model

This project models the server side of a school's textbook-management service. Teachers
keep a catalogue of physical textbooks with QR codes and a roster of students. They issue
textbooks to students and take them back, and they review damage and found reports.
Students see their own textbooks, report damage, losses and finds, and get a reminder to
check newly issued books within a week. Parents are notified through a messenger bot.

The model covers the loan endpoints, the student endpoints, the teacher reports, the
damage and found reports, the parent notifications, the roster and account registry, the
textbook catalogue, user administration and authentication. It also covers the request
schemas' validators, a student's full name, and the QR payload and print-sheet layout.
Every endpoint is read as a sequential operation on one database.

## How the model is built

- **State.** `Store.Db` is the database session, read as the synchronous SQLAlchemy `Session` the handlers' annotations name (see "## Left out" for the `AsyncSession` that `get_db` yields).
  - Each table is a `seq` field of rows in insertion order: textbooks, students, users,
    transactions, damage reports, found reports.
  - Rows are never deleted; deletion is a soft `is_active = false`.
  - Ids come from autoincrement, so row `i` has id `i + 1`. This is `DenseIds`, part of
    `Db.Valid()`, and every state-changing method keeps it.
  - Lookups are first-match scans over the table (`Common.FindById`), like `.first()`
    without `ORDER BY`.
- **Messages.** `Store.Bot` is the messenger bot client. Each `send_*` call is one message
  appended to its `outbox`.
- **Endpoints.** An endpoint that writes is a `method` on `Db` (and `Bot`).
  - A read-only endpoint's loop is a `method` proved equal to a specification function.
  - The properties the source promises are lemmas about those functions.
  - Refusals are `Result.Err` values carrying the HTTP meaning (`Common.StatusCode`).
  - Request validation (pydantic fields, `Form(...)`, `Query(...)` bounds) runs before the
    handler body and answers `ValidationFailed` (422).
- **Partial updates.** `exclude_unset` updates are `Patch` values: `Keep`, or `Put(v)`.
- **Time.** Time is whole seconds. `now` is a parameter wherever the source reads
  `datetime.utcnow()`.
- **Inputs for I/O.** Password hashing and verification, JWT encoding and the fresh uuid of
  an upload or QR code are parameters of the operations that use them.
- **The loan rule.** It is modelled exactly as the code applies it (`Ledger`).
  - A textbook counts as issued once the log holds any COMPLETED ISSUE of it.
  - It counts as returned once the log holds any COMPLETED RETURN of it, whatever their
    order.
  - So a textbook can never be issued twice (`Transactions.NeverReissued`), and it can be
    returned again and again (`Transactions.ReturnRepeatable`).
  - A chronological reading of the log is kept apart: `Ledger.Holder`, where the latest
    completed event decides. `Ledger.HolderAgreesWithCoarseRule` proves the two readings
    agree on every log the endpoints can produce (`Ledger.LedgerOk`).
- **Rules the code applies as written.**
  - Loans follow the coarse rule above. The chronological reading `Ledger.Holder` would
    allow a re-issue after a return; `Ledger.HolderAgreesWithCoarseRule` proves the two
    agree on every `LedgerOk` log.
  - The check and mark-as-returned endpoints refuse a second transition, but the generic
    update endpoints can set any status, so a report can be reviewed again
    (`DamageReports.UpdateReopensReview`, `FoundReports.UpdateReopensReturn`).
  - The student endpoints hard-code a 7-day damage-check window; the pending-check list
    reads `DAMAGE_CHECK_DAYS`, which is 7.
- **UNIQUE columns.** Where an endpoint checks nothing before the commit, the failed
  commit is modelled as `InternalError` (500) with nothing written. This covers
  `qr_code`, `username` and `email` on update. Elsewhere the endpoints' own checks are
  proved to keep the columns unique.
- **Autoflush in bulk requests.** Inside one bulk request, rows added earlier in the batch
  are visible to later checks. This holds for bulk issue and return, bulk student create
  and bulk account create, because the session autoflushes before each query.

## Model

| member | source | states |
|---|---|---|
| Common.Paginate | app/api/textbooks.py:120 | `offset(skip).limit(limit)`: at most `limit` rows, the rows of the input starting at position `skip`, in order, and none when `skip` is past the end |
| Common.IntStringInjective | app/services/qr_generator.py:33 | distinct ids have distinct decimal renderings, so file names and payloads built from ids tell ids apart |
| Entities.StudentById | app/api/transactions.py:64-66 | the `.first()` student with that id: a row of the table carrying the id, or none exactly when no row has it |
| Entities.TextbookById | app/api/transactions.py:56-58 | the `.first()` textbook with that id: a row carrying the id, or none exactly when no row has it |
| Entities.UserById | app/api/student_accounts.py:69-72 | the `.first()` user with that id: a row carrying the id, or none exactly when no row has it |
| Entities.TextbookByQr | app/api/textbooks.py:143-147 | the `.first()` textbook with that QR code: a row carrying the code, or none exactly when no row has it |
| Entities.TextbookByDenseId | app/api/transactions.py:56 | on an autoincrement table the lookup by id is row `id - 1` when `1 <= id <= size`, and nothing otherwise |
| Entities.StudentByDenseId | app/api/transactions.py:64 | on an autoincrement table the lookup by id is row `id - 1` when `1 <= id <= size`, and nothing otherwise |
| Ledger.IssueFound | app/api/transactions.py:72-79 | the "already issued" query finds a record exactly when some COMPLETED ISSUE of that textbook exists, and what it finds is such a record from the log |
| Ledger.ReturnFound | app/api/transactions.py:324-328 | the "returned" query finds a record exactly when some COMPLETED RETURN of that textbook exists |
| Ledger.ActiveLoansMembership | app/api/transactions.py:314-331 | a record is an active loan of a student exactly when it is in the log, is a COMPLETED ISSUE to that student, and its textbook has no COMPLETED RETURN at all |
| Ledger.IssueAppend | app/api/transactions.py:96-97 | appending a record changes the first completed issue of a textbook only when it had none and the new record is one |
| Ledger.ReturnAppend | app/api/transactions.py:147-148 | appending a record changes the first completed return of a textbook only when it had none and the new record is one |
| Ledger.IssuedForever | app/api/transactions.py:72-79 | once a textbook has a completed issue, every longer log finds that same first issue: the coarse rule never forgets an issue |
| Ledger.ReturnedForever | app/api/transactions.py:324-330 | once a textbook has a completed return, it has one in every longer log, so it never becomes active again |
| Ledger.OnlyIssue | app/api/transactions.py:122-126 | when a log holds at most one completed issue per textbook, the issue found for a textbook is that one issue |
| Ledger.LedgerPrefix | app/api/transactions.py:96-97 | every prefix of a log that keeps the ledger invariant keeps it too |
| Ledger.IssueKeepsLedger | app/api/transactions.py:72-98 | appending a COMPLETED ISSUE of a textbook that has none keeps the invariant: at most one issue per textbook, and each return follows an issue of its textbook to the same student |
| Ledger.ReturnKeepsLedger | app/api/transactions.py:122-148 | appending a RETURN credited to the student of the textbook's first completed issue keeps the invariant |
| Ledger.ActiveLoansDistinctTextbooks | app/api/transactions.py:314-333 | under the invariant no two active loans of a student name the same textbook |
| Ledger.FilterIssuesDistinct | app/api/transactions.py:314-318 | under the invariant any selection of completed issues names each textbook at most once |
| Ledger.HolderAgreesWithCoarseRule | app/api/transactions.py:72-79 | on every log keeping the invariant, the chronological holder (issues and returns replayed in order) exists exactly when the coarse rule says the textbook is out, and is the student of its first completed issue |
| Transactions.IssueRefusal | app/api/transactions.py:56-79 | the guards in order: missing textbook, inactive textbook, missing student, inactive student, then "already issued" exactly when some COMPLETED ISSUE of the textbook exists; no refusal exactly when all pass |
| Transactions.NeverReissued | app/api/transactions.py:72-79 | a textbook issued once is refused forever after, whatever the log gains later |
| Transactions.IssueTextbook | app/api/transactions.py:45-104 | refused exactly as `IssueRefusal` says, with nothing written or sent; otherwise exactly one COMPLETED ISSUE record (next id, given textbook and student, notes, stored image paths, actor, time) appended, earlier records unchanged, and the issue-list notice sent for that one textbook |
| Transactions.ReturnRefusal | app/api/transactions.py:116-129 | missing textbook first, then "not issued" exactly when no COMPLETED ISSUE of it exists; no refusal exactly when the textbook exists and has one |
| Transactions.ReturnRepeatable | app/api/transactions.py:122-129 | a textbook that could be returned can be returned again after the return, and its first issue stays the same |
| Transactions.ReturnTextbook | app/api/transactions.py:107-155 | refused exactly as `ReturnRefusal` says, with nothing written or sent; otherwise one COMPLETED RETURN appended whose student is copied from the first completed issue, with `issued_at` and `returned_at` both now, and the return-list notice sent to that student's parent |
| Transactions.BulkIssuedSound | app/api/transactions.py:175-203 | at most one record per id; the k-th created record has the k-th next id and is a COMPLETED ISSUE to the request's student of a listed, existing, active textbook that had no completed issue before |
| Transactions.BulkIssuedIds | app/api/transactions.py:192-203 | the records created take consecutive ids after the existing log, at most one per input id |
| Transactions.BulkIssuedRecords | app/api/transactions.py:175-203 | every created record issues a listed, existing, active, never-issued textbook to the request's student |
| Transactions.SoundHead | app/api/transactions.py:176-203 | the first id of the batch yields at most one record, with the next id, and only for an existing, active, never-issued textbook |
| Transactions.SoundTail | app/api/transactions.py:175-189 | a record sound for the rest of the batch (after the first id's record is added) is sound for the whole batch |
| Transactions.BulkIssuedComplete | app/api/transactions.py:175-189 | every listed id of an existing, active textbook with no completed issue is issued by the batch |
| Transactions.BulkIssueRefusal | app/api/transactions.py:166-171 | a body with no ids or over-long notes is rejected first (422); then a missing student (404) and an inactive student (400) abort the whole batch; no refusal exactly otherwise |
| Transactions.IssueOne | app/api/transactions.py:176-203 | one pass of the loop: the log grows by the step the specification gives for that id (nothing, or one issue) |
| Transactions.BulkIssue | app/api/transactions.py:158-211 | refused exactly as `BulkIssueRefusal` says with the log unchanged; otherwise the records created are exactly the specification's batch, in input order, appended to the log |
| Transactions.BulkReturnedMeaning | app/api/transactions.py:223-252 | at most one RETURN per input id, with consecutive ids; each returns a listed, existing textbook with a completed issue, credited to that issue's student; and every listed existing issued textbook is returned |
| Transactions.ReturnStepKeepsIssues | app/api/transactions.py:230-251 | a return step never changes which issue is the first completed issue of any textbook |
| Transactions.ReturnStepShape | app/api/transactions.py:225-252 | the first id yields at most one record, with the next id, returning an existing, issued textbook to the issue's student |
| Transactions.BulkReturnedIds | app/api/transactions.py:240-252 | the records created take consecutive ids after the existing log |
| Transactions.BulkReturnedRecords | app/api/transactions.py:223-252 | every created record is a COMPLETED RETURN of a listed, existing, issued textbook credited to its first issue's student |
| Transactions.BulkReturnedComplete | app/api/transactions.py:223-237 | every listed id of an existing textbook with a completed issue gets a return, however often returned before |
| Transactions.ReturnOne | app/api/transactions.py:225-252 | one pass of the loop: the log grows by the specification's step for that id |
| Transactions.BulkReturn | app/api/transactions.py:214-260 | a body with no ids or over-long notes is rejected (422) with the log unchanged; otherwise the records created are exactly the specification's batch, in input order, appended to the log |
| Transactions.ListTransactions | app/api/transactions.py:275-290 | at most `limit` records, each from the log and passing every given filter (0 or None meaning no filter) |
| Transactions.ListTransactionsWindow | app/api/transactions.py:275-290 | the listing is the `skip`-offset window of the matching records in log order, and a record matches exactly when it passes all given filters |
| Transactions.StudentActiveTextbooks | app/api/transactions.py:306-333 | the records returned are exactly the student's active loans, in log order |
| TransactionSchema.ParseKind | app/schemas/transaction.py:7-9 | "issue" and "return" parse to the kind whose value they are, and nothing else parses |
| TransactionSchema.ParseStatus | app/schemas/transaction.py:12-15 | "pending", "completed" and "cancelled" parse to their status, and nothing else parses |
| TransactionSchema.EnumRoundTrip | app/schemas/transaction.py:7-15 | every kind and status parses back from its value |
| TransactionSchema.EnumNamesDistinct | app/schemas/transaction.py:7-15 | distinct kinds, and distinct statuses, have distinct values |
| Uploads.ImagePaths | app/api/transactions.py:24-42 | at most one stored path per upload |
| Uploads.ImagePathsMembership | app/api/transactions.py:32-40 | a path is stored exactly when some upload's content type starts with `image/` and the path is the one made for it |
| Uploads.ImagePathsCount | app/api/transactions.py:32-40 | the number of stored paths is the number of image uploads |
| Uploads.SavePhotos | app/api/transactions.py:24-42 | the loop stores exactly the specification's paths, in upload order |
| Store.Db.constructor | app/core/database.py:21-27 | an empty database: every table empty and the invariant holding (a synchronous session; the `AsyncSession` is under "## Left out") |
| Store.Db.AddTransaction | app/api/transactions.py:96-97 | `db.add` and commit of a transaction: appended with the next id, the invariant kept, the other tables unchanged |
| Store.Db.AddTextbook | app/api/textbooks.py:46-48 | a textbook appended with the next id; the invariant kept; the other tables unchanged |
| Store.Db.AddTextbooks | app/api/textbooks.py:88-91 | a batch appended in one commit, taking the next ids in turn; the other tables unchanged |
| Store.Db.SetTextbook | app/api/textbooks.py:163-168 | one textbook row rewritten in place under its own id; nothing else changes |
| Store.Db.AddStudent | app/api/students.py:41-43 | a student appended with the next id; the other tables unchanged |
| Store.Db.SetStudent | app/api/students.py:96-101 | one student row rewritten in place under its own id; nothing else changes |
| Store.Db.AddUser | app/api/student_accounts.py:54-56 | a user appended with the next id; the other tables unchanged |
| Store.Db.SetUser | app/api/users.py:61-66 | one user row rewritten in place under its own id; nothing else changes |
| Store.Db.AddDamageReport | app/api/damage_reports.py:64-73 | a damage report appended with the next id; the other tables unchanged |
| Store.Db.SetDamageReport | app/api/damage_reports.py:193-199 | one damage report rewritten in place under its own id; nothing else changes |
| Store.Db.AddFoundReport | app/api/found_reports.py:60-68 | a found report appended with the next id; the other tables unchanged |
| Store.Db.SetFoundReport | app/api/found_reports.py:158-165 | one found report rewritten in place under its own id; nothing else changes |
| Store.Bot.constructor | app/services/parent_notifications.py:13-14 | a bot client that has sent nothing |
| Store.Bot.Send | app/services/parent_notifications.py:36-42 | one call appended to the outbox, in order |
| Patterns.MatchesLast | app/schemas/textbook.py:12 | a one-piece pattern `c{m,n}` accepts exactly the strings of `m` to `n` characters, all in the class |
| Patterns.GradePatternMeaning | app/schemas/student.py:10 | `^\d{1,2}[А-Я]$` accepts exactly one or two digits followed by one capital letter from А to Я |
| Patterns.MatchesFixed | app/schemas/student.py:11 | a fixed-width piece at the head of a pattern consumes exactly that many characters |
| Patterns.PhonePatternMeaning | app/schemas/student.py:11-12 | `^\+7\d{10}$` accepts exactly "+7" followed by ten digits, twelve characters in all |
| Patterns.IsbnPatternMeaning | app/schemas/textbook.py:12 | `^[\d-]{10,17}$` accepts exactly 10 to 17 characters, each a digit or `-` |
| TextbookSchema.IsbnOkMeaning | app/schemas/textbook.py:12 | an optional ISBN passes exactly when it is absent or matches the digit-or-dash pattern |
| TextbookSchema.ValidCreate | app/schemas/textbook.py:6-18 | a create body passes exactly when subject is 1..100 and title 1..200 characters, author and publisher at most 200, year in 1900..2030, ISBN of the pattern, inventory number at most 50 and initial condition at most 1000 (each optional field only when given) |
| TextbookSchema.ValidUpdate | app/schemas/textbook.py:21-31 | an update passes exactly when each field sent meets the create bound, with `current_condition` at most 1000 and `is_active` unconstrained |
| TextbookSchema.ValidBulkCreate | app/schemas/textbook.py:59-68 | a bulk body passes exactly when the shared metadata meets the create bounds, the prefix is at most 20 characters and the quantity lies in 1..1000 |
| Textbooks.QrCode | app/api/textbooks.py:19-21 | the code starts with `TEXTBOOK_` and is followed by (at most) twelve characters of the hex token |
| Textbooks.QrCodeRoundTrip | app/api/textbooks.py:19-21 | from a 32-digit lowercase hex uuid the code is `TEXTBOOK_` followed by twelve uppercase hex digits, the token read back from it is the uuid's first twelve digits, and every such code is the code of its own token |
| Textbooks.QrCodeOfUuid | app/api/textbooks.py:21 | a uuid's code has the `TEXTBOOK_` plus twelve uppercase hex digits shape and gives back the uuid's first twelve digits |
| Textbooks.QrCodeOfToken | app/api/textbooks.py:21 | every well-formed code is regenerated from the token it carries |
| Textbooks.QrCodesAgree | app/api/textbooks.py:21 | two uuids give the same code exactly when their first twelve hex digits agree |
| Textbooks.CreateRefusal | app/api/textbooks.py:24-47 | an invalid body is rejected (422); a fresh code that repeats an existing one fails the UNIQUE commit (500); otherwise no refusal |
| Textbooks.CreateTextbook | app/api/textbooks.py:24-54 | refused exactly as `CreateRefusal` says with the table unchanged; otherwise one active textbook with the next id, the generated code and the body's fields appended |
| Textbooks.CreateKeepsQrUnique | app/api/textbooks.py:31-48 | adding a textbook with a code no row has keeps the codes unique, and the QR lookup of that code then finds it |
| Textbooks.ZeroPadded | app/api/textbooks.py:73 | `{n:04d}`: all digits, reading back as `n`, as wide as the decimal form or the width, whichever is larger |
| Textbooks.DecimalLength | app/api/textbooks.py:73 | a number below `10^k` has at most `k` decimal digits |
| Textbooks.FourDigits | app/api/textbooks.py:73 | numbers below 10000 fit the four-digit field |
| Textbooks.InventoryNumber | app/api/textbooks.py:70-73 | a number exactly when a non-empty prefix is given; it is the prefix followed by digits reading back as `i + 1`, exactly four of them while `i < 9999` |
| Textbooks.InventoryNumbersDistinct | app/api/textbooks.py:70-73 | with a prefix, different copies of one batch get different inventory numbers |
| Textbooks.BulkBatch | app/api/textbooks.py:66-89 | one textbook per copy requested |
| Textbooks.BulkBatchAt | app/api/textbooks.py:66-86 | copy `i` of the batch is the `i`-th copy built by the loop |
| Textbooks.BulkBatchMeaning | app/api/textbooks.py:66-89 | copy `i` has id `next + i`, the code of its own token, the request's subject, title, author, publisher, year, ISBN and initial condition, no current condition, is active and gets inventory number `i`; with a prefix the numbers are distinct; with uuid tokens every code is well formed |
| Textbooks.FreshCodesMeaning | app/api/textbooks.py:88-91 | a batch is committable (its codes distinct from each other and from the table's) exactly when the table's codes stay unique after it |
| Textbooks.BuildBatch | app/api/textbooks.py:64-89 | the loop builds exactly the specification's batch, in order |
| Textbooks.CreateTextbooksBulk | app/api/textbooks.py:57-99 | an invalid body is rejected (422) and a batch whose codes collide fails the commit (500), both with the table unchanged; otherwise exactly `quantity` textbooks, the specification's batch, appended in one commit |
| Textbooks.ContainsMeaning | app/api/textbooks.py:115 | the substring test holds exactly when the term occurs at some position of the text |
| Textbooks.NotContainsLonger | app/api/textbooks.py:115 | a term longer than the text never occurs in it |
| Textbooks.ContainsSameLength | app/api/textbooks.py:115 | a term as long as the text occurs in it exactly when the two are equal |
| Textbooks.AsciiFoldedKeeps | app/api/textbooks.py:115 | SQLite's `lower` leaves every string without ASCII capitals unchanged |
| Textbooks.SubjectFilterAsWrittenMissesCyrillic | app/api/textbooks.py:114-115 | as written on SQLite, the subject filter "физика" rejects a textbook whose subject is "Физика", while the case-insensitive match intended accepts it |
| Textbooks.FoldedWord | app/api/textbooks.py:115 | folding Cyrillic capitals maps "Физика" and "физика" to the same word |
| Textbooks.SubjectFilterFindsSubstring | app/api/textbooks.py:114-115 | with case folding on both sides, any non-empty term that folds like a substring of the subject selects the textbook |
| Textbooks.ListMatching | app/api/textbooks.py:102-121 | a skip below 0 or a limit outside 1..1000 is rejected (422); otherwise at most `limit` rows, each in the table and passing the given filter |
| Textbooks.ListTextbooks | app/api/textbooks.py:102-121 | the endpoint as written on SQLite: 422 on a bad page; otherwise at most `limit` rows, each in the table, containing the subject term under ASCII-only case folding and matching `is_active` when given |
| Textbooks.ListTextbooksFolded | app/api/textbooks.py:114-115 | the intended listing: the same page bounds, with the subject term matched ignoring case, Cyrillic included |
| Textbooks.ListTextbooksWindow | app/api/textbooks.py:112-121 | each listing (as written and intended) is the `skip`-offset window of its matching rows in table order, and a row matches exactly when it passes both of that listing's filters |
| Textbooks.ListTextbooksMissesCyrillic | app/api/textbooks.py:114-120 | a one-row table with subject "Физика", searched for "физика": the listing as written returns no rows, the intended listing returns the row |
| Textbooks.GetTextbookByQr | app/api/textbooks.py:137-147 | 404 exactly when no row has the code; otherwise a row of the table carrying it |
| Textbooks.GetTextbookByQrUnique | app/api/textbooks.py:143-147 | with unique codes, looking up a textbook's code finds that textbook |
| Textbooks.GetQrCodeImage | app/api/textbooks.py:190-205 | 404 exactly when no textbook has the id; otherwise the image written under that id, encoding the textbook's code |
| Textbooks.ApplyUpdate | app/api/textbooks.py:162-165 | every field sent is written and every other kept; id and QR code never change |
| Textbooks.EmptyUpdate | app/api/textbooks.py:163-165 | an update that sends nothing leaves the textbook as it was |
| Textbooks.UpdateTextbook | app/api/textbooks.py:150-169 | an invalid body is rejected (422) and an unknown id is 404, both with the table unchanged; otherwise exactly that row is rewritten with the fields sent |
| Textbooks.DeleteTextbook | app/api/textbooks.py:172-187 | an unknown id is 404 with the table unchanged; otherwise exactly that row's `is_active` becomes false and nothing else changes |
| Textbooks.DeleteKeepsQrLookup | app/api/textbooks.py:179-185 | a soft-deleted textbook keeps unique codes and is still found by its code, now inactive |
| QrGenerator.QrCodeImage | app/services/qr_generator.py:16-40 | the image encodes the data given, resized to `QR_CODE_SIZE` (300), saved as `static/qr_codes/textbook_{id}.png` |
| QrGenerator.QrFilePathInjective | app/services/qr_generator.py:36-37 | two textbooks share an image file exactly when they share an id |
| QrGenerator.IntStringHasNoBar | app/services/qr_generator.py:51 | the decimal form of an id never contains the `\|` separator |
| QrGenerator.UpToBar | app/services/qr_generator.py:51 | a bar-free prefix followed by a bar is determined by the text: two such splits of one string agree |
| QrGenerator.QrPayloadNamesId | app/services/qr_generator.py:51 | two equal payloads `ID:{id}\|SUBJ:…\|TITLE:…` have equal ids, whatever the subjects and titles hold |
| QrGenerator.GenerateQrBatch | app/services/qr_generator.py:43-55 | one image per element, in order, each encoding `ID:{id}\|SUBJ:{subject}\|TITLE:{title}`, and one path per element, in order |
| QrGenerator.GenerateQrBatchMeaning | app/services/qr_generator.py:48-55 | each returned path is that of the image made for its element; two paths are equal exactly when their ids are; each image's text starts with `ID:{id}\|` |
| QrGenerator.PayloadStart | app/services/qr_generator.py:51 | every payload starts with `ID:`, the id and a bar |
| QrGenerator.Layout | app/services/qr_generator.py:75 | one sticker per element placed |
| QrGenerator.CreatePrintSheet | app/services/qr_generator.py:58-114 | the stickers laid out are exactly those of the first 21 elements, in order; the sheet's file name counts every element given |
| QrGenerator.LayoutMeaning | app/services/qr_generator.py:75-107 | sticker `i` is placed and labelled for element `i`: cell (`i // 3`, `i % 3`), QR size `min(w, h) - 40`, centred, label the subject cut to 20 and the title to 30 characters |
| QrGenerator.SheetGrid | app/services/qr_generator.py:63-69 | the 21 stickers are the 3×7 grid; stickers are 826 by 501 pixels with a 461-pixel QR square, and the grid fits the 2480×3508 sheet |
| QrGenerator.StickerInCell | app/services/qr_generator.py:82-105 | for `i < 21`, row `i // 3` is below 7, the QR square lies inside its own cell, and the label starts 10 pixels above the cell's lower edge |
| QrGenerator.StickersDisjoint | app/services/qr_generator.py:86-93 | two different stickers of a sheet never overlap |
| Auth.UserByName | app/api/auth.py:28 | the `.first()` user with that username: a row carrying it, or none exactly when no row has it |
| Auth.UserByEmail | app/api/auth.py:89 | the `.first()` user with that email: a row carrying it, or none exactly when no row has it |
| Auth.Authenticate | app/api/auth.py:27-31 | none when no user has the username or the password does not verify against its hash; otherwise that user |
| Auth.TokenExpiry | app/api/auth.py:34-40 | the expiry is now plus the delta when one (non-zero) is given, and now plus `ACCESS_TOKEN_EXPIRE_MINUTES` (30 minutes) otherwise |
| Auth.ActiveGate | app/api/auth.py:65-68 | an inactive user is refused (400 "Inactive user"); an active one passes unchanged |
| Auth.TeacherGate | app/api/auth.py:71-77 | passes exactly the active teachers; inactivity is refused first (400), then any other role (403) |
| Auth.Login | app/api/auth.py:108-124 | 401 exactly when authentication fails; otherwise a bearer token for the user's name and role expiring 30 minutes from now |
| Auth.RegisterRefusal | app/api/auth.py:80-91 | an invalid body (username 3..50, password at least 6) is rejected first; then a taken username; the email is checked only when one is given; no refusal exactly otherwise |
| Auth.Register | app/api/auth.py:80-105 | refused exactly as `RegisterRefusal` says with the table unchanged; otherwise one active user with the next id, the given username, email, role and `student_id`, and the hashed password appended |
| Auth.RegisterKeepsKeysUnique | app/api/auth.py:83-91 | a registration that passes the guards keeps usernames unique, and keeps usernames and non-null emails unique (`Users.KeysUnique`) when the new email is absent or non-empty |
| UserSchema.BearerToken | app/schemas/user.py:41-43 | a `Token` built without a type has `token_type` "bearer" |
| Users.ListUsers | app/api/users.py:13-32 | a skip below 0 or a limit outside 1..1000 is rejected (422); otherwise at most `limit` users, each in the table and passing the role and `is_active` filters |
| Users.ListUsersWindow | app/api/users.py:23-31 | the listing is the `skip`-offset window of the matching users in table order, and a user matches exactly when it passes both filters |
| Users.ApplyUpdate | app/api/users.py:60-63 | every field sent is written (username, email, `is_active`, `student_id`) and every other kept; id, password hash and role never change |
| Users.EmptyUpdate | app/api/users.py:61-63 | an update that sends nothing leaves the user as it was |
| Users.ClashesMeaning | app/api/users.py:62-65 | on a table with unique keys, a rewrite keeps usernames and non-null emails unique exactly when it repeats no other row's value |
| Users.UpdateUser | app/api/users.py:48-67 | an invalid body is rejected (422) and an unknown id is 404; a rewrite that repeats another row's username or email fails the commit (500); in each case the table is unchanged; otherwise exactly that row is rewritten with the fields sent |
| Users.DeleteUser | app/api/users.py:70-88 | deleting oneself is refused before any lookup; an unknown id is 404; in both cases the table is unchanged; otherwise exactly that user's `is_active` becomes false |
| Users.ActivateUser | app/api/users.py:91-105 | an unknown id is 404 with the table unchanged; otherwise exactly that user's `is_active` becomes true |
| Users.DeleteThenActivate | app/api/users.py:84-102 | deleting then activating an active user restores the table, and a soft delete keeps the keys unique |
| Users.RoleListingsMeaning | app/api/users.py:108-131 | the student listing holds exactly the active STUDENT users and the teacher listing exactly the active TEACHER users; no user is in both, and together they count every active user |
| Users.ActiveSplit | app/api/users.py:114-130 | the two listings' sizes add up to the number of active users |
| StudentModel.FullNameWithoutMiddle | app/models/student.py:21-27 | with no (or an empty) middle name, the full name is the last name, a space and the first name |
| StudentModel.FullNameWithMiddle | app/models/student.py:21-27 | with a non-empty middle name, the full name is last, first and middle names joined by single spaces |
| StudentModel.EmptyMiddleIsAbsent | app/models/student.py:25 | an empty middle name gives the same full name as none at all |
| StudentModel.FullNameStartsWithLastName | app/models/student.py:24 | every full name begins with the last name |
| StudentSchema.PhoneOkMeaning | app/schemas/student.py:11-12 | an optional phone passes exactly when it is absent or "+7" followed by ten digits |
| StudentSchema.PhonePatchMeaning | app/schemas/student.py:25-26 | a phone sent in an update passes exactly when it is null or "+7" followed by ten digits |
| StudentSchema.GradePatchMeaning | app/schemas/student.py:24 | a grade sent in an update passes exactly when it is one or two digits and a capital letter А..Я |
| StudentSchema.ValidCreate | app/schemas/student.py:6-17 | a create body passes exactly when first and last names are 1..50 characters, a middle name at most 50, the grade of the class pattern, and each phone given of the "+7" pattern |
| StudentSchema.ValidUpdate | app/schemas/student.py:20-28 | an update passes exactly when each field sent meets the create bound (null allowed for the optional ones); `is_active` and `max_user_id` are unconstrained |
| Students.Twin | app/api/students.py:22-26 | the `.first()` student with the same first name, last name and grade, or none exactly when no row shares all three |
| Students.CreateRefusal | app/api/students.py:14-29 | an invalid body is rejected (422); then an existing (first name, last name, grade) triple is refused (400); otherwise no refusal |
| Students.CreateStudent | app/api/students.py:14-45 | refused exactly as `CreateRefusal` says with the table unchanged; otherwise one active student with the next id and the body's fields appended |
| Students.CreateKeepsTriplesUnique | app/api/students.py:22-42 | a create that passes the guard keeps the (first name, last name, grade) triples unique |
| Students.CreateOne | app/api/students.py:146-168 | one pass of the loop: the table grows by the specification's step for that item (nothing for a duplicate, one student otherwise) |
| Students.CreateStudentsBulk | app/api/students.py:137-176 | a list with any invalid item is rejected (422) with the table unchanged; otherwise the students created are exactly the specification's batch, in input order, appended in one commit |
| Students.BulkCreatedMeaning | app/api/students.py:146-176 | at most one student per item, with consecutive new ids, each active and built from one of the items; the triples stay unique, duplicates within the batch included (autoflush makes earlier items visible); and every item whose triple is neither in the table nor carried by an earlier item is created, with the id of its place in the batch |
| Students.BulkCreatedComplete | app/api/students.py:146-168 | an item with no twin in the table and none among the items before it is created, as the row `create_student` would write |
| Students.TwinAfterStep | app/api/students.py:148-155 | an item that is not a twin of a later one does not give the later one a twin |
| Students.BulkCreatedIds | app/api/students.py:157-168 | the students created take consecutive ids after the table |
| Students.BulkCreatedBuilt | app/api/students.py:157-168 | every student created is active and carries the fields of one of the items |
| Students.BulkCreatedKeepsUnique | app/api/students.py:148-155 | a batch that skips existing triples keeps the triples unique |
| Students.ListStudents | app/api/students.py:48-67 | a skip below 0 or a limit outside 1..1000 is rejected (422); otherwise at most `limit` students, each in the table, of the grade when a non-empty one is given and of the `is_active` value when given |
| Students.ListStudentsWindow | app/api/students.py:58-66 | the listing is the `skip`-offset window of the matching students in table order, and a student matches exactly when it passes both filters |
| Students.ApplyUpdate | app/api/students.py:95-98 | every field sent is written and every other kept; the id never changes |
| Students.EmptyUpdate | app/api/students.py:96-98 | an update that sends nothing leaves the student as it was |
| Students.UpdateStudent | app/api/students.py:83-102 | an invalid body is rejected (422) and an unknown id is 404, both with the table unchanged; otherwise exactly that row is rewritten with the fields sent |
| Students.DeleteStudent | app/api/students.py:105-120 | an unknown id is 404 with the table unchanged; otherwise exactly that student's `is_active` becomes false and the row remains |
| Students.StudentsByGradeMeaning | app/api/students.py:123-134 | the by-grade listing holds exactly the active students of that grade |
| Students.DeleteLeavesRoster | app/api/students.py:112-118 | after a soft delete the student leaves every by-grade listing while every other listed student stays |
| StudentAccounts.AccountOf | app/api/student_accounts.py:35 | the `.first()` user linked to the student, or none exactly when no user links to it |
| StudentAccounts.CreateRefusal | app/api/student_accounts.py:26-42 | the guards in order: missing student (404), inactive student (400), student already has an account (400), username taken (400); no refusal exactly when all pass |
| StudentAccounts.CreateStudentAccount | app/api/student_accounts.py:17-58 | refused exactly as `CreateRefusal` says with the users unchanged; otherwise one active STUDENT account with the next id, linked to the student, with the hashed password, appended |
| StudentAccounts.NewAccountKeepsAccountsOk | app/api/student_accounts.py:34-52 | an account created past the guards keeps usernames unique and at most one account per student |
| StudentAccounts.CreateOne | app/api/student_accounts.py:121-155 | one pass of the loop: the users grow by the specification's step for that item (nothing for a skipped item, one account otherwise) |
| StudentAccounts.BulkCreateStudentAccounts | app/api/student_accounts.py:112-163 | the accounts created are exactly the specification's batch, in input order, appended in one commit; accounts added earlier in the batch are seen by later checks |
| StudentAccounts.BulkCreatedMeaning | app/api/student_accounts.py:121-157 | at most one account per item, with consecutive new ids; each is an active STUDENT account linked to an existing active student and made from a complete item (its student, its username, the hash of its password); usernames stay unique and each student has at most one account; and every item the single-account endpoint would accept, with no complete item before it naming the same student or username, gets its account |
| StudentAccounts.BulkCreatedComplete | app/api/student_accounts.py:121-155 | an acceptable item not preceded by a complete item for the same student or username is created with the next id of its place |
| StudentAccounts.AcceptableAfterStep | app/api/student_accounts.py:134-142 | an item for another student and another username leaves a later item acceptable |
| StudentAccounts.BulkCreatedIds | app/api/student_accounts.py:146-155 | the accounts created take consecutive ids after the table |
| StudentAccounts.BulkCreatedLinked | app/api/student_accounts.py:126-155 | every account created is an active STUDENT account linked to an existing active student, made from a complete item of the batch |
| StudentAccounts.StepIds | app/api/student_accounts.py:126-155 | one item yields at most one account, with the next id |
| StudentAccounts.StepLinked | app/api/student_accounts.py:126-152 | an item yields an account exactly when it is complete and the single-account endpoint would accept it; the account is the one that endpoint writes for the item's student, username and password, linked to that active student |
| StudentAccounts.BulkCreatedKeepsOk | app/api/student_accounts.py:134-142 | skipping students with an account and taken usernames keeps the accounts invariant over the whole batch |
| StudentAccounts.AccountRefusal | app/api/student_accounts.py:69-74 | unknown user (404) first, then a non-STUDENT user (400); no refusal exactly for a STUDENT user |
| StudentAccounts.LinkStudentToMax | app/api/student_accounts.py:61-83 | refused exactly as `AccountRefusal` says with the students unchanged; otherwise the user is returned, and the linked student's `max_user_id` is written exactly when that student exists |
| StudentAccounts.RowOf | app/api/student_accounts.py:96-107 | the row names the student; `has_account` holds exactly when some user links to it; the username is given exactly then; `account_active` is that account's flag, and false without one |
| StudentAccounts.GetStudentsWithAccounts | app/api/student_accounts.py:86-109 | one row per active student, in table order, each built by `RowOf` |
| StudentAccounts.StudentsWithAccountsMeaning | app/api/student_accounts.py:92-107 | the rows correspond one to one with the active students, each row built from its own student |
| StudentAccounts.SetStudentAccountActive | app/api/student_accounts.py:166-203 | refused exactly as `AccountRefusal` says with the users unchanged; otherwise only that STUDENT user's `is_active` is set (true to activate, false to deactivate) |
| StudentAccounts.ActiveFlagKeepsAccountsOk | app/api/student_accounts.py:180-181 | changing only `is_active` keeps the accounts invariant |
| StudentActions.StudentGate | app/api/student_actions.py:23-30 | only an active user with the student role gets through; an inactive user is refused first, any other role gets 403 |
| StudentActions.MyTextbooksMeaning | app/api/student_actions.py:40-70 | an entry is listed exactly when it comes from one of the student's completed issues whose textbook has no completed return and whose textbook row exists |
| StudentActions.MyTextbooksSound | app/api/student_actions.py:48-68 | every listed entry comes from an unreturned completed issue of this student |
| StudentActions.MyTextbooksComplete | app/api/student_actions.py:48-68 | every unreturned completed issue of this student with an existing textbook contributes its entry |
| StudentActions.MyEntryFor | app/api/student_actions.py:50-68 | the per-issue step yields the textbook's entry when the textbook has no completed return and exists, and nothing otherwise |
| StudentActions.GetMyTextbooks | app/api/student_actions.py:40-70 | the loop over the student's issues builds exactly the specified listing, in issue order |
| StudentActions.TextbookInfo | app/api/student_actions.py:80-134 | 404 exactly when no textbook carries the code; otherwise the found row, reported on loan exactly when it has a completed issue and no completed return, with is_mine and issued_at taken from its first completed issue |
| StudentActions.TextbookInfoAgreesWithHolder | app/api/student_actions.py:85-122 | on a consistent ledger the QR info reports a loan exactly when the textbook has a current holder, and "mine" exactly when that holder is the caller's student |
| StudentActions.HolderRefusal | app/api/student_actions.py:148-166 | "not issued to you" exactly when the caller's student has no completed issue of the textbook; "already returned" exactly when such an issue exists and so does a completed return; no refusal otherwise |
| StudentActions.HolderRefusalIsHolder | app/api/student_actions.py:148-166 | on a consistent ledger the two checks pass exactly when the caller's student is the textbook's current holder |
| StudentActions.IssueTextbookExists | app/api/student_actions.py:204 | the textbook of any recorded transaction exists, so the notification's title lookup never fails |
| StudentActions.DamageRefusal | app/api/student_actions.py:141-166 | a description outside 10 to 1000 characters is refused by validation; otherwise the holder checks decide |
| StudentActions.ReportDamage | app/api/student_actions.py:137-213 | on refusal nothing is written or sent; otherwise one pending report with the filtered photo paths is appended under the next id, the teacher is notified, and the reply says whether now is within seven days of the issue |
| StudentActions.ReportLost | app/api/student_actions.py:216-273 | on refusal nothing is written; otherwise a pending "lost" report without photos is committed first, and the reply is an internal error (nothing sent) when the caller has no student row, else the notice with the student's name and parent phone |
| StudentActions.FoundRefusal | app/api/student_actions.py:276-289 | a location outside 5 to 200 characters or a description over 500 is refused by validation; otherwise 404 exactly when no textbook has the code |
| StudentActions.ReportFound | app/api/student_actions.py:276-332 | on refusal nothing is written; otherwise a "found" report for the textbook with the filtered photo paths is committed, then an internal error when the caller has no student row, else the finder notice |
| StudentActions.DamageReminderMeaning | app/api/student_actions.py:342-374 | an item is listed exactly when it comes from one of the caller's completed issues of the last seven days with no damage report by the caller for that textbook; every deadline is seven days after the issue and not in the past |
| StudentActions.DamageReminderSound | app/api/student_actions.py:353-369 | every item comes from a recent, unreported issue of the caller, and its deadline has not passed |
| StudentActions.DamageReminderComplete | app/api/student_actions.py:353-369 | every recent, unreported issue of the caller with an existing textbook contributes its item |
| StudentActions.ReportsNone | app/api/student_actions.py:355-360 | the report query is empty exactly when no report is by this user for this textbook |
| StudentActions.ReminderItemFor | app/api/student_actions.py:355-369 | the per-issue step yields the item exactly as specified |
| StudentActions.GetDamageReminder | app/api/student_actions.py:342-374 | the loop builds exactly the specified reminder list |
| DamageReports.CreateRefusal | app/api/damage_reports.py:46-55 | a description outside 10 to 1000 characters is refused by validation; otherwise 404 exactly when no textbook has the id; no refusal otherwise |
| DamageReports.CreateDamageReport | app/api/damage_reports.py:42-80 | on refusal nothing is written or sent; otherwise one PENDING report, filed by the teacher with the filtered photo paths, is appended under the next id, and the lost-textbook notices follow |
| DamageReports.CreateNoticesAtMostOne | app/api/damage_reports.py:76-78 | a LOST report sends at most one notification and any other type sends none |
| DamageReports.ApplyUpdate | app/api/damage_reports.py:135-141 | the fields sent are written and the others kept, id, textbook, reporter and photos never change, and checked_at is stamped with now whenever the resulting status is CHECKED |
| DamageReports.EmptyUpdate | app/api/damage_reports.py:135-141 | an update sending nothing leaves a pending report unchanged and only re-stamps checked_at on a checked one |
| DamageReports.UpdateDamageReport | app/api/damage_reports.py:122-145 | an invalid body is refused, an unknown id gives 404 with nothing written; otherwise the row is replaced by its updated version |
| DamageReports.CheckRefusal | app/api/damage_reports.py:181-191 | a decision outside 1 to 500 characters is refused by validation; otherwise 404 for an unknown id, and "already checked" exactly when the report is not PENDING |
| DamageReports.CheckDamageReport | app/api/damage_reports.py:178-202 | on refusal nothing changes; otherwise the PENDING row becomes CHECKED with the decision, the reviewing teacher and now as checked_at |
| DamageReports.CheckIsOneShot | app/api/damage_reports.py:190-197 | once a report has been checked, any later valid check of it is refused as already checked |
| DamageReports.UpdateReopensReview | app/api/damage_reports.py:135-141 | an update setting the status back to PENDING makes the report checkable again |
| DamageReports.PendingCheckMeaning | app/api/damage_reports.py:168-173 | exactly the PENDING reports filed at least DAMAGE_CHECK_DAYS (7) days before now are listed |
| DamageReports.DamageHistoryMeaning | app/api/damage_reports.py:155-157 | the history holds exactly the textbook's reports, each once, newest reported_at first |
| DamageReports.TypeCountsMeaning | app/api/damage_reports.py:216 | the grouped count lists a damage type exactly when some report has it, paired with its number of reports |
| DamageReports.DamageStatisticsTotals | app/api/damage_reports.py:211-213 | the pending and checked counts add up to the total |
| DamageReports.TypeCountsSum | app/api/damage_reports.py:216 | the per-type counts add up to the total |
| DamageReports.DamageStatisticsAsWritten | app/api/damage_reports.py:216 | as written the grouped count goes through the session's nonexistent `func` attribute, so every call ends in a server error |
| DamageReports.DamageStatisticsDiffers | app/api/damage_reports.py:205-223 | the as-written endpoint never returns the intended statistics |
| FoundReports.CreateRefusal | app/api/found_reports.py:43-54 | a location outside 5 to 200 characters or a description over 500 is refused by validation; otherwise 404 exactly when no textbook has the id |
| FoundReports.CreateFoundReport | app/api/found_reports.py:41-78 | on refusal nothing is written or sent; otherwise one FOUND report with the filtered photo paths is appended under the next id, and the found-textbook notices follow |
| FoundReports.ApplyUpdate | app/api/found_reports.py:129-135 | the fields sent are written and the others kept, id, textbook, reporter and photos never change, and returned_at is stamped with now whenever the resulting status is RETURNED |
| FoundReports.EmptyUpdate | app/api/found_reports.py:129-135 | an update sending nothing leaves a FOUND report unchanged and only re-stamps returned_at on a returned one |
| FoundReports.UpdateFoundReport | app/api/found_reports.py:116-139 | an invalid body is refused, an unknown id gives 404 with nothing written; otherwise the row is replaced by its updated version |
| FoundReports.ReturnRefusal | app/api/found_reports.py:145-155 | notes over 500 characters are refused by validation; otherwise 404 for an unknown id, and "already returned" exactly when the report is RETURNED |
| FoundReports.HandedBack | app/api/found_reports.py:158-162 | the report becomes RETURNED with now and the teacher recorded; the notes are overwritten only by non-empty notes; nothing else changes |
| FoundReports.MarkAsReturned | app/api/found_reports.py:142-167 | on refusal nothing changes; otherwise the FOUND row is replaced by its handed-back version |
| FoundReports.MarkIsOneShot | app/api/found_reports.py:154-158 | once a report is marked returned, any later valid attempt is refused as already returned |
| FoundReports.UpdateReopensReturn | app/api/found_reports.py:129-135 | an update setting the status back to FOUND makes the report markable again |
| FoundReports.ActiveFoundReportsMeaning | app/api/found_reports.py:189-191 | the active listing holds exactly the reports with status FOUND |
| FoundReports.FoundStatisticsTotals | app/api/found_reports.py:201-203 | the found and returned counts add up to the total, and the found count is the size of the active listing |
| ParentNotifications.Lines | app/services/parent_notifications.py:29-31 | one bullet line per textbook, in order, each "• subject: title" |
| ParentNotifications.ListNoticeMeaning | app/services/parent_notifications.py:16-70 | the issue or return notice is sent exactly when the student exists, has a parent phone and some textbook has one of the ids; it is then the one message to that phone with the joined lines and the count of matching textbooks |
| ParentNotifications.SingleTextbookNotice | app/services/parent_notifications.py:16-42 | for one existing textbook id the notice carries exactly that textbook's line and a count of one |
| ParentNotifications.NotifyTextbookList | app/services/parent_notifications.py:16-70 | the method sends exactly the specified list notice, or nothing |
| ParentNotifications.LostNoticesMeaning | app/services/parent_notifications.py:72-89 | at most one lost notice, sent exactly when the student exists with a parent phone and the textbook exists, naming the textbook and the current date |
| ParentNotifications.NotifyLostTextbook | app/services/parent_notifications.py:72-89 | the method sends exactly the specified lost notice, or nothing |
| ParentNotifications.FoundNoticeGoesToOwner | app/services/parent_notifications.py:91-120 | at most one found notice; none when the textbook has no completed issue; otherwise it goes to the parent phone of the student on the first completed issue (not the finder) and names the finder |
| ParentNotifications.NotifyFoundTextbook | app/services/parent_notifications.py:91-120 | the method sends exactly the specified found notice, or nothing |
| ParentNotifications.BulkNoticeForDue | app/services/parent_notifications.py:131-145 | the check for any completed issue never changes the outcome: a student is sent the summary exactly when a parent phone is on file and some unreturned textbook is listed |
| ParentNotifications.BulkNoticesOverMeaning | app/services/parent_notifications.py:130-167 | each message goes to a roster student with a parent phone and at least one unreturned textbook, listing those textbooks and their count; there are exactly as many messages as such students, and the k-th such student receives the k-th message |
| ParentNotifications.BulkNoticesOverSound | app/services/parent_notifications.py:130-167 | every message is the summary of a roster student due one |
| ParentNotifications.BulkNoticesOverOrder | app/services/parent_notifications.py:130-167 | the messages are the due students' summaries, one each, in roster order |
| ParentNotifications.BulkNoticesRecipients | app/services/parent_notifications.py:122-214 | a message is sent exactly when it is the summary of an active student of the grade with a parent phone and at least one unreturned textbook |
| ParentNotifications.ActiveLinesMeaning | app/services/parent_notifications.py:135-156 | a line is listed for a student exactly when it describes an existing textbook of one of the student's completed issues that has no completed return |
| ParentNotifications.CollectActiveLines | app/services/parent_notifications.py:145-156 | the inner loop collects exactly the lines of the issues whose textbook has no completed return |
| ParentNotifications.NotifyStudentOfBulk | app/services/parent_notifications.py:131-167 | one student's iteration sends that student's summary or nothing |
| ParentNotifications.NotifyBulk | app/services/parent_notifications.py:122-214 | the loop over the grade's active students sends exactly the specified messages, in roster order |
| ParentNotifications.DamageCheckReminderMeaning | app/services/parent_notifications.py:216-240 | the reminder is sent exactly when the student exists with a parent phone and has a completed issue of the last seven days, and it carries the number of such issues and seven days |
| ParentNotifications.NotifyDamageCheckReminder | app/services/parent_notifications.py:216-240 | the method sends exactly the specified reminder, or nothing |
| Reports.ReturnTime | app/api/reports.py:49-53 | a return time is reported exactly when the textbook has a completed return |
| Reports.GetIssueSummary | app/api/reports.py:18-97 | the loop over the completed issues (of the grade's students, when a grade is given) builds exactly the specified per-student groups and totals |
| Reports.IssueSummaryTotals | app/api/reports.py:84-87 | issued = returned + not returned; the student count is the number of groups, no group is empty and no student has two; issued counts the rows whose student and textbook both exist, returned those whose textbook also has a completed return |
| Reports.SummaryYields | app/api/reports.py:45-81 | a row contributes exactly when its student and textbook exist, lands among the returned exactly when its textbook has a completed return, and among the not returned exactly when the not-returned report would list it |
| Reports.IssueSummaryFit | app/api/reports.py:31-81 | every listed student is the stored row of its id and of the requested grade; every line under a student stands for a completed issue in the log of that textbook to that student, at the line's time; and a line carries a return time exactly when its textbook has a completed return |
| Reports.GetNotIssuedReport | app/api/reports.py:100-136 | the loop keeps exactly the specified students, and the total is their number |
| Reports.NotIssuedMeaning | app/api/reports.py:108-124 | a student is listed exactly when active, of the grade when one is given, and without any completed issue |
| Reports.GetNotReturnedReport | app/api/reports.py:139-199 | the loop builds exactly the specified groups, with the number of groups and of textbooks as totals |
| Reports.NotReturnedShape | app/api/reports.py:154-191 | no group is empty and no student has two; the textbook total counts every completed issue whose student and textbook exist, of the grade, with no completed return; every listed student is the stored row of its id and of the grade when one is given; every textbook listed under a student was issued to that student by a completed issue in the log, at the line's time, and has no completed return |
| Reports.SummaryAgreesWithNotReturned | app/api/reports.py:79-87 | without a grade, the summary's not-returned total equals the not-returned report's textbook total |
| Reports.ReporterAsWritten | app/api/reports.py:225 | as written the reporter is the student whose id equals the report's user id |
| Reports.Reporter | app/api/reports.py:225-228 | the reporter is the student linked to the reporting user; none for an unknown user or one without a student link |
| Reports.ReporterAsWrittenMisattributes | app/api/reports.py:225 | a teacher's report (user 1, no student link) is attributed as written to student 1, where the linked reading finds no reporter |
| Reports.TypeTally | app/api/reports.py:253-258 | the counting loop yields a map whose keys are exactly the damage types present, each with its number of reports |
| Reports.DamageItemAttribution | app/api/reports.py:223-231 | as written a report is filed exactly when its textbook exists, a student has the reporting user's id and that student is of the grade; it is filed under that student; through the linked lookup it is filed under the student the reporting user is linked to |
| Reports.DamageSummaryAsWrittenMisattributes | app/api/reports.py:223-250 | a teacher's report (user 1, no student link, student 1 stored) is grouped as written under student 1, while the linked lookup lists no group |
| Reports.GetDamageSummary | app/api/reports.py:202-272 | the groups are those the code builds, with the reporter looked up as written (`reported_by` among student ids); the totals, pending, checked and per-type counts are taken over all rows passing the type and status filters, whatever the grade |
| Reports.DamageSummaryTotals | app/api/reports.py:253-262 | pending + checked = total, the per-type counts sum to the total, and with a status filter every row has that status |
| Reports.DamageSummaryFit | app/api/reports.py:223-250 | in the grouping as written and in the one through the linked lookup alike, every listed student is the stored row of its id and of the grade when one is given; every line under a student is a report of the table on that textbook, with the requested type and status, whose `reported_by` the grouping's lookup resolves to that student (as written: the student whose id it is) |
| Reports.DamageGroupsFit | app/api/reports.py:223-250 | for any reporter lookup that returns stored rows, every group's student is the stored row, and every line under it is a report on that textbook whose reporter the lookup resolves to that student, passing the filters |
| Reports.BulkKind | app/api/reports.py:285-298 | "issue_summary" and "return_reminder" are accepted exactly with a non-empty grade, each refused with its own message without one; any other type is refused as invalid |
| Reports.SendBulkNotifications | app/api/reports.py:275-298 | a refusal sends nothing; otherwise exactly the grade's bulk messages of the chosen kind are sent |
| Reports.TextbookHistoryAsWritten | app/api/reports.py:308-325 | as written: 404 for an unknown textbook, and a server error for every other request, since `FoundReport` is not imported |
| Reports.TextbookHistoryAsWrittenFails | app/api/reports.py:323 | for every existing textbook the handler as written fails where the intended history is defined |
| Reports.AppendMapped | app/api/reports.py:330-359 | each of the three loops appends the mapped rows, in order, to the history built so far |
| Reports.GetTextbookHistory | app/api/reports.py:301-374 | the method builds exactly the specified history; as written the handler never gets this far (`Reports.TextbookHistoryAsWrittenFails`), so this is its intended form, and reporters' names come from the linked lookup (`Reports.Reporter`) |
| Reports.ChronicleLength | app/api/reports.py:313-362 | the history has one entry per transaction, damage report and found report of the textbook |
| Reports.TextbookHistoryMeaning | app/api/reports.py:308-374 | for an existing textbook: the textbook row, entries sorted by date, and as a multiset exactly the entries of the textbook's transactions, damage reports and found reports, one per event (so also every event's entry present, and the count equal) |
| Reports.ChronicleMultiset | app/api/reports.py:313-362 | merging the per-kind sorted lists and sorting by date only rearranges the events' entries |
| Common.MapMultiset | app/api/reports.py:313-362 | mapping two rearrangements of the same rows gives rearrangements of the same entries |
| Groups.FoldGroupsOk | app/api/reports.py:55-81 | grouping rows by student never leaves a group empty and never gives a student two groups |
| Groups.FoldGroupsSize | app/api/reports.py:85-87 | the grouped items number exactly the contributing rows, and those satisfying a predicate exactly the rows whose item satisfies it |
| Groups.FoldGroupsFit | app/api/reports.py:154-188 | a relation every contributed (student, item) pair satisfies holds of every grouped item and its group's student |
| Groups.AddToGrows | app/api/reports.py:172-182 | adding an item grows the total by one and a tally by one exactly when the item counts |
| Groups.AddToKeepsOk | app/api/reports.py:172-180 | adding an item keeps the groups non-empty and keyed by distinct students |
| Groups.Place | app/api/reports.py:172-182 | one dict step: a new group for a new student, otherwise the item appended to the student's group |
| Groups.GroupRows | app/api/reports.py:154-188 | the loop over the rows builds exactly the fold of the rows |

## Left out

- Network and storage I/O is not modelled. This covers the messenger bot's HTTP client, the bot-management proxy, writing upload bytes to disk (and its 10 MB limit), and rendering QR images and the print sheet with `qrcode` and PIL. Each bot call is one outbox message; each stored photo is its path; each QR image is its path, text and size.
- Passwords and tokens are inputs. The bcrypt hash and verify functions and the JWT encoder are parameters. Decoding a bearer token back to a user (`get_current_user`) is not modelled; the gates start from the decoded user.
- A fresh uuid is an input wherever the source draws one (QR codes, upload file names). Its randomness, and collisions between draws, are not modelled beyond the UNIQUE-column outcome.
- The `EmailStr` syntax check is not modelled, because it lives in a foreign library; the email is carried as given.
- `return_rate` in the found-report statistics is not modelled, because it is floating-point arithmetic. The integer counts it is computed from are.
- Concurrency is not modelled (async handlers, and two requests racing between a check and an insert), because every endpoint is read as one sequential operation.
- The asynchronous session is not modelled. `get_db` (app/core/database.py:1, 13-15, 21-27) yields an `AsyncSession`, which has no `query` method, and the handlers neither await `commit()` nor `refresh()`. So, as written, every handler that calls `db.query` raises `AttributeError` before it does anything. The model reads every handler as running on the synchronous `Session` its `db: Session` annotation names, and `Store.Db.constructor` stands for such a session, not for `get_db`.
- The application's router set is not modelled. main.py:12-18 mounts only the auth, users, students, textbooks, transactions, damage_reports and found_reports routers. So the reports, student_accounts and student_actions endpoints, and the parent notifications that reach the bot only through them and the report routers, cannot be called in the app as given. The model gives those handlers' behaviour as if their routers were mounted.
- A session configured without autoflush is not modelled: every endpoint sees its own earlier writes within one request.
- HTTP routing is not modelled. `/pending-check` and `/active` (report routers), and `/students` and `/teachers` (user router), are declared after a `/{id}` route that captures them first. The model gives each handler's own behaviour.
- The plain listings of damage reports and found reports are not modelled (`get_damage_reports`, `get_found_reports`). They are offset/limit windows of optional equality filters, the same shape as `Users.ListUsers`.
- The fetch-one-by-id endpoints (`get_textbook`, `get_student`, `get_user`, `get_transaction`, `get_damage_report`, `get_found_report`, `/me`) are not modelled. Each is the `...ById` lookup answered 404 when it finds nothing.
- The per-textbook found history is not modelled; it is the found-report analogue of `DamageReports.DamageHistoryMeaning`.
- Response shapes are not modelled: responses are whole rows or small records, and serialisation (`response_model`, `from_attributes`) is left out.
- Message text is not modelled: the Russian and emoji notification templates, the bulk "sent" reply texts and the reminder's message string. Payloads keep the fields the templates are filled from.
- Photo lists are not serialised. The source stores them sometimes as a JSON string and sometimes as a list; the model keeps a `seq<string>` either way. The `json.loads` in the student's textbook list is therefore the identity.
- Explicit `null` sent for a NOT NULL column in a partial update is not modelled, because only absent and present values are distinguished (`Patch`).
- Database-level failures other than UNIQUE clashes are not modelled, for example a foreign key to a missing row.
- Case folding is modelled only for ASCII and basic Cyrillic letters. `Textbooks.ListTextbooks` follows the code as written (ASCII-only folding, as SQLite does it); `Textbooks.ListTextbooksFolded` is the intended listing. LIKE wildcard characters (`%`, `_`) typed inside a search term are not modelled.
- The ORM model classes under `app/models/` (apart from `Student.full_name`) are not part of this model, because they disagree with the API's usage. For example, the transaction model declares `type` and no status enum, and `DamageType`/`DamageStatus` are imported but not defined. The datatypes follow the API and the schemas.
- `DamageType` takes the four values the API uses (minor, moderate, severe, lost), because no source file defines the enum.
- Patterns.GradePatternMeaning: reads `\d` as the ASCII digits 0-9. The Rust regex engine behind pydantic's `pattern=` also accepts every other Unicode decimal digit (`\p{Nd}`), for example Arabic-Indic digits; the model refuses those.
- Patterns.PhonePatternMeaning: reads `\d` as the ASCII digits 0-9, so "+7" followed by ten non-ASCII Unicode decimal digits, which pydantic accepts, is refused by the model.
- Patterns.IsbnPatternMeaning: reads `[\d-]` as the ASCII digits and `-`, so an ISBN written with non-ASCII Unicode decimal digits, which pydantic accepts, is refused by the model.
- Auth.RegisterKeepsKeysUnique: the email half is stated only for an absent or non-empty email. The model does not refuse an empty-string email, because `EmailStr` is not modelled, and an endpoint that skips the email check for it could repeat another row's empty email.
- Transactions.ListTransactions: takes `skip` and `limit` as `nat`, because the source declares them as plain ints with no bound. A negative offset or limit is not modelled, since its effect depends on the database.

## Findings

| source | as written | input that shows it | evidently intended | confidence | as-written member | corrected member |
|---|---|---|---|---|---|---|
| app/api/reports.py:323 | `FoundReport` is used but never imported, so the handler raises `NameError` after the 404 check | any id of an existing textbook | the textbook with its transactions, damage reports and found reports merged and sorted by date | high, not executed | Reports.TextbookHistoryAsWrittenFails | Reports.TextbookHistoryMeaning |
| app/api/damage_reports.py:216 | `db.func.count(...)`: the session has no `func` attribute, so every call raises (under the `AsyncSession` that `get_db` yields, the `db.query` at line 211 already fails before `db.func` is reached) | any call, even on an empty table | totals by status and, per damage type present, its count (`sqlalchemy.func.count`) | high, not executed | DamageReports.DamageStatisticsDiffers | DamageReports.DamageStatisticsTotals |
| app/api/reports.py:225 | the report's `reported_by` (a user id) is looked up among student ids, also at lines 341 and 352 | a teacher (user 1, no student link) files a report while student 1 exists: it is attributed to student 1 | the student linked to the reporting user, none for a teacher | high, not executed | Reports.DamageSummaryAsWrittenMisattributes | Reports.DamageSummaryFit |
| app/api/textbooks.py:115 | `ilike` on the default SQLite database (app/core/config.py:8) folds only ASCII letters | subject "Физика" searched with "физика" | case-insensitive search of the Russian subject names | medium, not executed | Textbooks.ListTextbooksMissesCyrillic | Textbooks.SubjectFilterFindsSubstring |
