/** The textbook catalogue endpoints: create (with a generated QR code), bulk create of
    identical copies with numbered inventory numbers, the filtered listing, lookup by QR
    code, partial update, soft delete and the path of a textbook's QR image.

    The `qr_code` column is UNIQUE and no endpoint checks it before the commit: a clash
    makes the commit fail, which the service answers with a 500 and no row written. */
module Textbooks {
  import opened Common
  import opened Entities
  import opened Store
  import opened TextbookSchema
  import QrGenerator

  // ---------------------------------------------------------------------------
  // generate_unique_qr_code

  const QrPrefix: string := "TEXTBOOK_"

  predicate IsLowerHexDigit(c: char)
  {
    '0' <= c <= '9' || 'a' <= c <= 'f'
  }

  predicate IsUpperHexDigit(c: char)
  {
    '0' <= c <= '9' || 'A' <= c <= 'F'
  }

  /** `uuid.uuid4().hex`: 32 lower-case hexadecimal digits. */
  predicate IsUuidHex(s: string)
  {
    |s| == 32 && forall i :: 0 <= i < |s| ==> IsLowerHexDigit(s[i])
  }

  /** `str.upper()` and `str.lower()` on ASCII letters. */
  function AsciiUpper(c: char): char
  {
    if 'a' <= c <= 'z' then ((c as int) - 32) as char else c
  }

  function AsciiLower(c: char): char
  {
    if 'A' <= c <= 'Z' then ((c as int) + 32) as char else c
  }

  /** `f"TEXTBOOK_{hex[:12].upper()}"` for the hex form of a fresh uuid. */
  function QrCode(hex: string): (r: string)
    ensures |r| == |QrPrefix| + Min(12, |hex|) && StartsWith(r, QrPrefix)
  {
    var tail := Map(Take(hex, 12), AsciiUpper);
    assert (QrPrefix + tail)[..|QrPrefix|] == QrPrefix;
    QrPrefix + tail
  }

  /** The shape of every generated code. */
  predicate IsQrCode(code: string)
  {
    |code| == 21 && StartsWith(code, QrPrefix) && forall i :: 9 <= i < 21 ==> IsUpperHexDigit(code[i])
  }

  /** The uuid digits a code was made from. */
  function QrToken(code: string): string
    requires |code| >= |QrPrefix|
  {
    Map(code[|QrPrefix|..], AsciiLower)
  }

  /** A code made from a uuid has the documented shape and gives back the uuid's first 12
      digits; every code of that shape is made from its own token. */
  lemma QrCodeRoundTrip(hex: string, code: string)
    requires IsUuidHex(hex)
    ensures IsQrCode(QrCode(hex)) && QrToken(QrCode(hex)) == hex[..12]
    ensures IsQrCode(code) ==> QrCode(QrToken(code)) == code
  {
    QrCodeOfUuid(hex);
    if IsQrCode(code) {
      QrCodeOfToken(code);
    }
  }

  lemma QrCodeOfUuid(hex: string)
    requires IsUuidHex(hex)
    ensures IsQrCode(QrCode(hex)) && QrToken(QrCode(hex)) == hex[..12]
  {
    var c := QrCode(hex);
    var tail := Map(hex[..12], AsciiUpper);
    assert c == QrPrefix + tail;
    forall i | 9 <= i < 21 ensures IsUpperHexDigit(c[i]) && AsciiLower(c[i]) == hex[i - 9] {
      assert c[i] == tail[i - 9] == AsciiUpper(hex[i - 9]);
    }
    assert c[|QrPrefix|..] == tail;
  }

  lemma QrCodeOfToken(code: string)
    requires IsQrCode(code)
    ensures QrCode(QrToken(code)) == code
  {
    var t := QrToken(code);
    var tail := code[|QrPrefix|..];
    assert Take(t, 12) == t;
    forall i | 0 <= i < 12 ensures AsciiUpper(t[i]) == tail[i] {
      assert tail[i] == code[i + 9];
    }
    assert Map(t, AsciiUpper) == tail;
    assert code == code[..|QrPrefix|] + tail;
  }

  /** Two uuids give the same code exactly when their first 12 digits agree. */
  lemma QrCodesAgree(a: string, b: string)
    requires IsUuidHex(a) && IsUuidHex(b)
    ensures QrCode(a) == QrCode(b) <==> a[..12] == b[..12]
  {
    QrCodeRoundTrip(a, QrCode(a));
    QrCodeRoundTrip(b, QrCode(b));
    if a[..12] == b[..12] {
      assert Take(a, 12) == Take(b, 12);
    }
  }

  ghost predicate QrCodesUnique(textbooks: seq<Textbook>)
  {
    forall i, j :: 0 <= i < j < |textbooks| ==> textbooks[i].qrCode != textbooks[j].qrCode
  }

  // ---------------------------------------------------------------------------
  // create_textbook

  /** The row a create writes: active, with no current condition. */
  function NewTextbook(id: int, qr: string, c: TextbookCreate): Textbook
  {
    Textbook(id, qr, c.subject, c.title, c.author, c.publisher, c.year, c.isbn, c.inventoryNumber,
             c.initialCondition, None, true)
  }

  function CreateRefusal(textbooks: seq<Textbook>, c: TextbookCreate, qr: string): (r: Option<Error>)
    ensures r == Some(ValidationFailed) <==> !ValidCreate(c)
    ensures r == Some(InternalError) <==> ValidCreate(c) && exists i :: 0 <= i < |textbooks| && textbooks[i].qrCode == qr
    ensures r.None? <==> ValidCreate(c) && forall i :: 0 <= i < |textbooks| ==> textbooks[i].qrCode != qr
  {
    if !ValidCreate(c) then Some(ValidationFailed)
    else if TextbookByQr(textbooks, qr).Some? then Some(InternalError)
    else None
  }

  /** `hex` is the uuid drawn for the code. The image file is written after the commit. */
  method CreateTextbook(db: Db, c: TextbookCreate, hex: string) returns (r: Result<Textbook>)
    requires db.Valid()
    modifies db
    ensures db.Valid()
    ensures db.students == old(db.students) && db.users == old(db.users) && db.transactions == old(db.transactions) &&
            db.damageReports == old(db.damageReports) && db.foundReports == old(db.foundReports)
    ensures r.Err? <==> CreateRefusal(old(db.textbooks), c, QrCode(hex)).Some?
    ensures r.Err? ==> r.error == CreateRefusal(old(db.textbooks), c, QrCode(hex)).value && db.textbooks == old(db.textbooks)
    ensures r.Ok? ==> r.value == NewTextbook(|old(db.textbooks)| + 1, QrCode(hex), c) &&
                      db.textbooks == old(db.textbooks) + [r.value]
  {
    var qr := QrCode(hex);
    var refusal := CreateRefusal(db.textbooks, c, qr);
    if refusal.Some? {
      return Err(refusal.value);
    }
    var t := NewTextbook(|db.textbooks| + 1, qr, c);
    db.AddTextbook(t);
    return Ok(t);
  }

  /** A create that goes through keeps the codes unique, and the new textbook is the one
      its code finds. */
  lemma CreateKeepsQrUnique(textbooks: seq<Textbook>, c: TextbookCreate, qr: string)
    requires QrCodesUnique(textbooks) && forall i :: 0 <= i < |textbooks| ==> textbooks[i].qrCode != qr
    ensures QrCodesUnique(textbooks + [NewTextbook(|textbooks| + 1, qr, c)])
    ensures GetTextbookByQr(textbooks + [NewTextbook(|textbooks| + 1, qr, c)], qr) == Ok(NewTextbook(|textbooks| + 1, qr, c))
  {
    var t := NewTextbook(|textbooks| + 1, qr, c);
    var after := textbooks + [t];
    forall i, j | 0 <= i < j < |after| ensures after[i].qrCode != after[j].qrCode {
      assert after[i] == textbooks[i];
      if j < |textbooks| {
        assert after[j] == textbooks[j];
      }
    }
    FirstWhereAppend(textbooks, t, QrIs(qr));
  }

  // ---------------------------------------------------------------------------
  // create_textbooks_bulk

  /** The digits of `n` left-padded with zeros to `width`: `f"{n:0{width}d}"`. */
  function ZeroPadded(n: nat, width: nat): (r: string)
    ensures |r| == if |DecimalString(n)| < width then width else |DecimalString(n)|
    ensures forall i :: 0 <= i < |r| ==> IsDigit(r[i])
    ensures DecimalValue(r) == n
  {
    var digits := DecimalString(n);
    DecimalRoundTrip(n);
    if |digits| < width then
      var zeros := seq(width - |digits|, _ => '0');
      DecimalValueLeadingZeros(zeros, digits);
      zeros + digits
    else digits
  }

  function Pow10(k: nat): nat
  {
    if k == 0 then 1 else 10 * Pow10(k - 1)
  }

  /** A number below 10^k has at most k digits. */
  lemma {:induction false} DecimalLength(n: nat, k: nat)
    requires 1 <= k && n < Pow10(k)
    ensures |DecimalString(n)| <= k
  {
    if n >= 10 {
      DecimalLength(n / 10, k - 1);
    }
  }

  const InventoryDigits: nat := 4

  lemma FourDigits(n: nat)
    ensures n < 10000 ==> |DecimalString(n)| <= InventoryDigits
  {
    if n < 10000 {
      DecimalLength(n, InventoryDigits);
    }
  }

  /** The inventory number of copy `i` (from 0): `f"{prefix}{i+1:04d}"` when the prefix is
      non-empty, none otherwise. */
  function InventoryNumber(prefix: Option<string>, i: nat): (r: Option<string>)
    ensures r.Some? <==> Truthy(prefix)
    ensures r.Some? ==> StartsWith(r.value, prefix.value) &&
                        (forall k :: |prefix.value| <= k < |r.value| ==> IsDigit(r.value[k])) &&
                        DecimalValue(r.value[|prefix.value|..]) == i + 1
    ensures r.Some? && i < 9999 ==> |r.value| == |prefix.value| + InventoryDigits
  {
    if Truthy(prefix) then
      var digits := ZeroPadded(i + 1, InventoryDigits);
      var number := prefix.value + digits;
      assert number[..|prefix.value|] == prefix.value && number[|prefix.value|..] == digits;
      FourDigits(i + 1);
      Some(number)
    else None
  }

  /** Different copies of one batch get different inventory numbers. */
  lemma InventoryNumbersDistinct(prefix: Option<string>, i: nat, j: nat)
    requires Truthy(prefix) && i != j
    ensures InventoryNumber(prefix, i) != InventoryNumber(prefix, j)
  {
  }

  /** Copy `i` of a batch, with the uuid drawn for it. */
  function BulkCopy(id: int, b: TextbookBulkCreate, i: nat, hex: string): Textbook
  {
    Textbook(id, QrCode(hex), b.subject, b.title, b.author, b.publisher, b.year, b.isbn,
             InventoryNumber(b.inventoryNumberPrefix, i), b.initialCondition, None, true)
  }

  function CopyAt(next: int, b: TextbookBulkCreate, token: nat -> string): nat -> Textbook
  {
    (i: nat) => BulkCopy(next + i, b, i, token(i))
  }

  /** The first `n` copies, the one with index `i` taking id `next + i` and uuid `token(i)`. */
  function BulkBatch(next: int, b: TextbookBulkCreate, n: nat, token: nat -> string): (r: seq<Textbook>)
    ensures |r| == n
  {
    Tabulate(n, CopyAt(next, b, token))
  }

  lemma BulkBatchAt(next: int, b: TextbookBulkCreate, n: nat, token: nat -> string, i: nat)
    requires i < n
    ensures BulkBatch(next, b, n, token)[i] == BulkCopy(next + i, b, i, token(i))
  {
    TabulateAt(n, CopyAt(next, b, token), i);
  }

  /** The copies of a batch: each shares the request's metadata, takes the next id, a code
      of the documented shape when its uuid is well formed, and its own inventory number,
      so that with a prefix no two copies share one. */
  lemma BulkBatchMeaning(next: int, b: TextbookBulkCreate, n: nat, token: nat -> string)
    ensures var r := BulkBatch(next, b, n, token);
            forall i :: 0 <= i < n ==>
              r[i].id == next + i && r[i].qrCode == QrCode(token(i)) &&
              r[i].subject == b.subject && r[i].title == b.title && r[i].author == b.author &&
              r[i].publisher == b.publisher && r[i].year == b.year && r[i].isbn == b.isbn &&
              r[i].initialCondition == b.initialCondition && r[i].currentCondition.None? && r[i].isActive &&
              r[i].inventoryNumber == InventoryNumber(b.inventoryNumberPrefix, i)
    ensures var r := BulkBatch(next, b, n, token);
            Truthy(b.inventoryNumberPrefix) ==>
              forall i, j :: 0 <= i < j < n ==> r[i].inventoryNumber != r[j].inventoryNumber
    ensures var r := BulkBatch(next, b, n, token);
            (forall i :: 0 <= i < n ==> IsUuidHex(token(i))) ==> forall i :: 0 <= i < n ==> IsQrCode(r[i].qrCode)
  {
    var r := BulkBatch(next, b, n, token);
    forall i | 0 <= i < n ensures r[i] == BulkCopy(next + i, b, i, token(i)) {
      BulkBatchAt(next, b, n, token, i);
    }
    forall i, j | 0 <= i < j < n && Truthy(b.inventoryNumberPrefix) ensures r[i].inventoryNumber != r[j].inventoryNumber {
      InventoryNumbersDistinct(b.inventoryNumberPrefix, i, j);
    }
    if forall i :: 0 <= i < n ==> IsUuidHex(token(i)) {
      forall i | 0 <= i < n ensures IsQrCode(r[i].qrCode) {
        QrCodeRoundTrip(token(i), QrCode(token(i)));
      }
    }
  }

  /** The UNIQUE constraint at the commit of a batch: no new code is already stored, and no
      two new codes are equal. */
  predicate FreshCodes(textbooks: seq<Textbook>, batch: seq<Textbook>)
  {
    (forall k, j :: 0 <= k < |batch| && 0 <= j < |textbooks| ==> batch[k].qrCode != textbooks[j].qrCode) &&
    (forall k, m :: 0 <= k < m < |batch| ==> batch[k].qrCode != batch[m].qrCode)
  }

  /** On a table with unique codes, the constraint passes exactly when the codes stay
      unique. */
  lemma FreshCodesMeaning(textbooks: seq<Textbook>, batch: seq<Textbook>)
    requires QrCodesUnique(textbooks)
    ensures FreshCodes(textbooks, batch) <==> QrCodesUnique(textbooks + batch)
  {
    var after := textbooks + batch;
    assert forall j :: 0 <= j < |textbooks| ==> after[j] == textbooks[j];
    assert forall k :: 0 <= k < |batch| ==> after[|textbooks| + k] == batch[k];
    if FreshCodes(textbooks, batch) {
      forall i, j | 0 <= i < j < |after| ensures after[i].qrCode != after[j].qrCode {
        if j >= |textbooks| && i >= |textbooks| {
          assert after[i] == batch[i - |textbooks|] && after[j] == batch[j - |textbooks|];
        } else if j >= |textbooks| {
          assert after[j] == batch[j - |textbooks|];
        }
      }
    }
    if QrCodesUnique(after) {
      forall k, j | 0 <= k < |batch| && 0 <= j < |textbooks| ensures batch[k].qrCode != textbooks[j].qrCode {
        assert after[|textbooks| + k] == batch[k];
      }
      forall k, m | 0 <= k < m < |batch| ensures batch[k].qrCode != batch[m].qrCode {
        assert after[|textbooks| + k] == batch[k] && after[|textbooks| + m] == batch[m];
      }
    }
  }

  /** The loop of the endpoint: one copy per iteration, added to the session. */
  method BuildBatch(next: int, b: TextbookBulkCreate, token: nat -> string) returns (batch: seq<Textbook>)
    requires b.quantity >= 0
    ensures batch == BulkBatch(next, b, b.quantity, token)
  {
    batch := [];
    var i := 0;
    while i < b.quantity
      invariant 0 <= i <= b.quantity
      invariant batch == BulkBatch(next, b, i, token)
    {
      batch := batch + [BulkCopy(next + i, b, i, token(i))];
      i := i + 1;
    }
  }

  /** `token(i)` is the uuid drawn in iteration `i`. The batch is committed at once: a code
      clash rejects all of it. */
  method CreateTextbooksBulk(db: Db, b: TextbookBulkCreate, token: nat -> string) returns (r: Result<seq<Textbook>>)
    requires db.Valid()
    modifies db
    ensures db.Valid()
    ensures db.students == old(db.students) && db.users == old(db.users) && db.transactions == old(db.transactions) &&
            db.damageReports == old(db.damageReports) && db.foundReports == old(db.foundReports)
    ensures !ValidBulkCreate(b) ==> r == Err(ValidationFailed)
    ensures r.Err? ==> db.textbooks == old(db.textbooks)
    ensures r.Ok? <==> ValidBulkCreate(b) &&
                       FreshCodes(old(db.textbooks), BulkBatch(|old(db.textbooks)| + 1, b, b.quantity, token))
    ensures r.Err? && ValidBulkCreate(b) ==> r.error == InternalError
    ensures r.Ok? ==> r.value == BulkBatch(|old(db.textbooks)| + 1, b, b.quantity, token) &&
                      |r.value| == b.quantity && db.textbooks == old(db.textbooks) + r.value
  {
    if !ValidBulkCreate(b) {
      return Err(ValidationFailed);
    }
    var batch := BuildBatch(|db.textbooks| + 1, b, token);
    if !FreshCodes(db.textbooks, batch) {
      return Err(InternalError);
    }
    BulkBatchMeaning(|db.textbooks| + 1, b, b.quantity, token);
    db.AddTextbooks(batch);
    return Ok(batch);
  }

  // ---------------------------------------------------------------------------
  // get_textbooks

  /** `sub in s`: the `%sub%` pattern of a LIKE without wildcard characters in `sub`. */
  predicate Contains(s: string, sub: string)
    decreases |s|
  {
    StartsWith(s, sub) || (|s| > 0 && Contains(s[1..], sub))
  }

  predicate OccursAt(s: string, sub: string, i: int)
  {
    0 <= i && i + |sub| <= |s| && s[i..i + |sub|] == sub
  }

  lemma {:induction false} ContainsMeaning(s: string, sub: string)
    ensures Contains(s, sub) <==> exists i :: OccursAt(s, sub, i)
    decreases |s|
  {
    if StartsWith(s, sub) {
      assert OccursAt(s, sub, 0);
    }
    if |s| > 0 {
      ContainsMeaning(s[1..], sub);
      if Contains(s[1..], sub) {
        var i :| OccursAt(s[1..], sub, i);
        assert s[1..][i..i + |sub|] == s[i + 1..i + 1 + |sub|];
        assert OccursAt(s, sub, i + 1);
      }
      if exists i :: OccursAt(s, sub, i) {
        var i :| OccursAt(s, sub, i);
        if i > 0 {
          assert s[1..][i - 1..i - 1 + |sub|] == s[i..i + |sub|];
          assert OccursAt(s[1..], sub, i - 1);
        } else {
          assert s[..|sub|] == s[0..|sub|];
        }
      }
    } else if exists i :: OccursAt(s, sub, i) {
      var i :| OccursAt(s, sub, i);
      assert s[..|sub|] == s[i..i + |sub|];
    }
  }

  /** Lower case for ASCII and for the Cyrillic capitals U+0400..U+042F, the letters a
      school catalogue's subjects are written in. */
  function Lower(c: char): char
  {
    if 'A' <= c <= 'Z' || 0x410 <= c as int <= 0x42F then ((c as int) + 32) as char
    else if 0x400 <= c as int <= 0x40F then ((c as int) + 80) as char
    else c
  }

  function Folded(s: string): string
  {
    Map(s, Lower)
  }

  /** SQLite's `lower()`, which folds ASCII letters only. */
  function AsciiFolded(s: string): string
  {
    Map(s, AsciiLower)
  }

  /** `Textbook.subject.ilike(f"%{subject}%")` on the default SQLite database: only ASCII
      letters are folded. */
  function TextbookQueryAsWritten(subject: Option<string>, isActive: Option<bool>): Textbook -> bool
  {
    (t: Textbook) => (Truthy(subject) ==> Contains(AsciiFolded(t.subject), AsciiFolded(subject.value))) &&
                     (isActive.Some? ==> t.isActive == isActive.value)
  }

  /** The subject filter ignoring case, Cyrillic included; the activity filter is equality.
      Each applies only when given (a non-empty subject). */
  function TextbookQuery(subject: Option<string>, isActive: Option<bool>): Textbook -> bool
  {
    (t: Textbook) => (Truthy(subject) ==> Contains(Folded(t.subject), Folded(subject.value))) &&
                     (isActive.Some? ==> t.isActive == isActive.value)
  }

  lemma {:induction false} NotContainsLonger(s: string, sub: string)
    requires |s| < |sub|
    ensures !Contains(s, sub)
    decreases |s|
  {
    if |s| > 0 {
      NotContainsLonger(s[1..], sub);
    }
  }

  lemma ContainsSameLength(s: string, sub: string)
    requires |s| == |sub|
    ensures Contains(s, sub) <==> s == sub
  {
    if |s| > 0 {
      NotContainsLonger(s[1..], sub);
    }
  }

  /** Strings without ASCII capitals are left alone by SQLite's `lower()`. */
  lemma AsciiFoldedKeeps(s: string)
    requires forall i :: 0 <= i < |s| ==> !('A' <= s[i] <= 'Z')
    ensures AsciiFolded(s) == s
  {
  }

  /** As written, a lower-case Cyrillic search term misses the capitalised subject it names:
      "физика" does not find "Физика". The folded filter finds it. */
  lemma SubjectFilterAsWrittenMissesCyrillic(t: Textbook)
    requires t.subject == "Физика"
    ensures !TextbookQueryAsWritten(Some("физика"), None)(t)
    ensures TextbookQuery(Some("физика"), None)(t)
  {
    var s, n := "Физика", "физика";
    AsciiFoldedKeeps(s);
    AsciiFoldedKeeps(n);
    ContainsSameLength(s, n);
    assert s[0] != n[0];
    FoldedWord();
    ContainsSameLength(n, n);
  }

  lemma FoldedWord()
    ensures Folded("Физика") == "физика" && Folded("физика") == "физика"
  {
    var s, n := "Физика", "физика";
    assert Lower(s[0]) == n[0];
    assert forall i :: 1 <= i < |s| ==> s[i] == n[i] && Lower(n[i]) == n[i];
  }

  /** A subject containing the search term, in any case of its letters, passes the
      subject filter. */
  lemma SubjectFilterFindsSubstring(t: Textbook, before: string, term: string, after: string, typed: string)
    requires t.subject == before + term + after && Folded(typed) == Folded(term) && typed != ""
    ensures TextbookQuery(Some(typed), None)(t)
  {
    MapConcat(before + term, after, Lower);
    MapConcat(before, term, Lower);
    var f := Folded(t.subject);
    var n := Folded(typed);
    assert f == Folded(before) + n + Folded(after);
    assert f[|Folded(before)|..|Folded(before)| + |n|] == n;
    assert OccursAt(f, n, |Folded(before)|);
    ContainsMeaning(f, n);
  }

  /** A page of the rows passing `query`, in table order; a bad page is refused. */
  function ListMatching(textbooks: seq<Textbook>, query: Textbook -> bool, skip: int, limit: int)
    : (r: Result<seq<Textbook>>)
    ensures r.Err? <==> !ValidPage(skip, limit)
    ensures r.Err? ==> r.error == ValidationFailed
    ensures r.Ok? ==> |r.value| <= limit && forall i :: 0 <= i < |r.value| ==> r.value[i] in textbooks && query(r.value[i])
  {
    if !ValidPage(skip, limit) then Err(ValidationFailed)
    else
      var matching := Filter(textbooks, query);
      forall t | t in matching ensures t in textbooks {
        FilterMembership(textbooks, query, t);
      }
      Ok(Paginate(matching, skip, limit))
  }

  /** `get_textbooks` as written, on the default SQLite database: the subject is matched
      with ASCII-only case folding. */
  function ListTextbooks(textbooks: seq<Textbook>, subject: Option<string>, isActive: Option<bool>, skip: int, limit: int)
    : (r: Result<seq<Textbook>>)
    ensures r.Err? <==> !ValidPage(skip, limit)
    ensures r.Err? ==> r.error == ValidationFailed
    ensures r.Ok? ==> |r.value| <= limit &&
                      forall i :: 0 <= i < |r.value| ==>
                        r.value[i] in textbooks && TextbookQueryAsWritten(subject, isActive)(r.value[i])
  {
    ListMatching(textbooks, TextbookQueryAsWritten(subject, isActive), skip, limit)
  }

  /** The listing as intended: the subject matched ignoring case, Cyrillic included. */
  function ListTextbooksFolded(textbooks: seq<Textbook>, subject: Option<string>, isActive: Option<bool>, skip: int, limit: int)
    : (r: Result<seq<Textbook>>)
    ensures r.Err? <==> !ValidPage(skip, limit)
    ensures r.Err? ==> r.error == ValidationFailed
    ensures r.Ok? ==> |r.value| <= limit &&
                      forall i :: 0 <= i < |r.value| ==>
                        r.value[i] in textbooks && TextbookQuery(subject, isActive)(r.value[i])
  {
    ListMatching(textbooks, TextbookQuery(subject, isActive), skip, limit)
  }

  /** Each listing is the `skip`-offset window of its matching rows in table order, and a
      row matches exactly when it passes both filters. */
  lemma ListTextbooksWindow(textbooks: seq<Textbook>, subject: Option<string>, isActive: Option<bool>, skip: nat, limit: nat)
    requires 1 <= limit <= 1000
    ensures var matching := Filter(textbooks, TextbookQueryAsWritten(subject, isActive));
            ListTextbooks(textbooks, subject, isActive, skip, limit) == Ok(Paginate(matching, skip, limit)) &&
            forall t :: t in matching <==> t in textbooks && TextbookQueryAsWritten(subject, isActive)(t)
    ensures var matching := Filter(textbooks, TextbookQuery(subject, isActive));
            ListTextbooksFolded(textbooks, subject, isActive, skip, limit) == Ok(Paginate(matching, skip, limit)) &&
            forall t :: t in matching <==> t in textbooks && TextbookQuery(subject, isActive)(t)
  {
    forall t ensures t in Filter(textbooks, TextbookQueryAsWritten(subject, isActive)) <==>
                     t in textbooks && TextbookQueryAsWritten(subject, isActive)(t) {
      FilterMembership(textbooks, TextbookQueryAsWritten(subject, isActive), t);
    }
    forall t ensures t in Filter(textbooks, TextbookQuery(subject, isActive)) <==>
                     t in textbooks && TextbookQuery(subject, isActive)(t) {
      FilterMembership(textbooks, TextbookQuery(subject, isActive), t);
    }
  }

  /** The "Физика" row searched for as "физика": the listing as written returns nothing,
      the intended one returns the row. */
  lemma ListTextbooksMissesCyrillic(t: Textbook)
    requires t.subject == "Физика"
    ensures ListTextbooks([t], Some("физика"), None, 0, 100) == Ok([])
    ensures ListTextbooksFolded([t], Some("физика"), None, 0, 100) == Ok([t])
  {
    SubjectFilterAsWrittenMissesCyrillic(t);
    assert [t][..0] == [];
  }

  // ---------------------------------------------------------------------------
  // get_textbook_by_qr and get_qr_code_image

  function GetTextbookByQr(textbooks: seq<Textbook>, code: string): (r: Result<Textbook>)
    ensures r.Err? <==> forall i :: 0 <= i < |textbooks| ==> textbooks[i].qrCode != code
    ensures r.Err? ==> r.error == TextbookNotFound
    ensures r.Ok? ==> r.value in textbooks && r.value.qrCode == code
  {
    match TextbookByQr(textbooks, code)
    case None => Err(TextbookNotFound)
    case Some(t) => Ok(t)
  }

  /** With unique codes the lookup finds the one textbook carrying the code. */
  lemma GetTextbookByQrUnique(textbooks: seq<Textbook>, k: nat)
    requires QrCodesUnique(textbooks) && k < |textbooks|
    ensures GetTextbookByQr(textbooks, textbooks[k].qrCode) == Ok(textbooks[k])
  {
    var i := IndexWhere(textbooks, QrIs(textbooks[k].qrCode)).value;
    assert QrIs(textbooks[k].qrCode)(textbooks[k]);
    assert i == k;
  }

  /** The image is (re)generated from the stored code, under the textbook's id. */
  function GetQrCodeImage(textbooks: seq<Textbook>, id: int): (r: Result<QrGenerator.QrImage>)
    ensures r.Err? <==> forall i :: 0 <= i < |textbooks| ==> textbooks[i].id != id
    ensures r.Err? ==> r.error == TextbookNotFound
    ensures r.Ok? ==> r.value.path == QrGenerator.QrFilePath(id) &&
                      exists i :: 0 <= i < |textbooks| && textbooks[i].id == id && r.value.data == textbooks[i].qrCode
  {
    match TextbookById(textbooks, id)
    case None => Err(TextbookNotFound)
    case Some(t) =>
      var i :| 0 <= i < |textbooks| && textbooks[i] == t;
      Ok(QrGenerator.QrCodeImage(t.qrCode, t.id))
  }

  // ---------------------------------------------------------------------------
  // update_textbook and delete_textbook

  /** The fields sent are written, the others kept; id and code never change. */
  function ApplyUpdate(t: Textbook, u: TextbookUpdate): (r: Textbook)
    ensures r.id == t.id && r.qrCode == t.qrCode
    ensures (u.subject.Keep? ==> r.subject == t.subject) && (u.subject.Put? ==> r.subject == u.subject.value)
    ensures (u.title.Keep? ==> r.title == t.title) && (u.title.Put? ==> r.title == u.title.value)
    ensures (u.author.Keep? ==> r.author == t.author) && (u.author.Put? ==> r.author == u.author.value)
    ensures (u.publisher.Keep? ==> r.publisher == t.publisher) && (u.publisher.Put? ==> r.publisher == u.publisher.value)
    ensures (u.year.Keep? ==> r.year == t.year) && (u.year.Put? ==> r.year == u.year.value)
    ensures (u.isbn.Keep? ==> r.isbn == t.isbn) && (u.isbn.Put? ==> r.isbn == u.isbn.value)
    ensures (u.inventoryNumber.Keep? ==> r.inventoryNumber == t.inventoryNumber) &&
            (u.inventoryNumber.Put? ==> r.inventoryNumber == u.inventoryNumber.value)
    ensures (u.initialCondition.Keep? ==> r.initialCondition == t.initialCondition) &&
            (u.initialCondition.Put? ==> r.initialCondition == u.initialCondition.value)
    ensures (u.currentCondition.Keep? ==> r.currentCondition == t.currentCondition) &&
            (u.currentCondition.Put? ==> r.currentCondition == u.currentCondition.value)
    ensures (u.isActive.Keep? ==> r.isActive == t.isActive) && (u.isActive.Put? ==> r.isActive == u.isActive.value)
  {
    t.(subject := Patched(u.subject, t.subject),
       title := Patched(u.title, t.title),
       author := Patched(u.author, t.author),
       publisher := Patched(u.publisher, t.publisher),
       year := Patched(u.year, t.year),
       isbn := Patched(u.isbn, t.isbn),
       inventoryNumber := Patched(u.inventoryNumber, t.inventoryNumber),
       initialCondition := Patched(u.initialCondition, t.initialCondition),
       currentCondition := Patched(u.currentCondition, t.currentCondition),
       isActive := Patched(u.isActive, t.isActive))
  }

  /** An update that sends nothing changes nothing. */
  lemma EmptyUpdate(t: Textbook)
    ensures ApplyUpdate(t, TextbookUpdate(Keep, Keep, Keep, Keep, Keep, Keep, Keep, Keep, Keep, Keep)) == t
  {
  }

  /** The body is validated first, then the textbook looked up. */
  method UpdateTextbook(db: Db, id: int, u: TextbookUpdate) returns (r: Result<Textbook>)
    requires db.Valid()
    modifies db
    ensures db.Valid()
    ensures db.students == old(db.students) && db.users == old(db.users) && db.transactions == old(db.transactions) &&
            db.damageReports == old(db.damageReports) && db.foundReports == old(db.foundReports)
    ensures !ValidUpdate(u) ==> r == Err(ValidationFailed)
    ensures ValidUpdate(u) && (forall i :: 0 <= i < |old(db.textbooks)| ==> old(db.textbooks)[i].id != id) ==>
              r == Err(TextbookNotFound)
    ensures r.Err? ==> db.textbooks == old(db.textbooks)
    ensures r.Ok? <==> ValidUpdate(u) && 1 <= id <= |old(db.textbooks)|
    ensures r.Ok? ==> r.value == ApplyUpdate(old(db.textbooks)[id - 1], u) &&
                      db.textbooks == old(db.textbooks)[id - 1 := r.value]
  {
    if !ValidUpdate(u) {
      return Err(ValidationFailed);
    }
    FindDense(db.textbooks, TextbookId, id);
    var found := FindById(db.textbooks, TextbookId, id);
    if found.None? {
      return Err(TextbookNotFound);
    }
    var i := found.value;
    var t := ApplyUpdate(db.textbooks[i], u);
    db.SetTextbook(i, t);
    return Ok(t);
  }

  /** Soft delete: the row stays, with `is_active` cleared and every other column kept. */
  method DeleteTextbook(db: Db, id: int) returns (r: Result<()>)
    requires db.Valid()
    modifies db
    ensures db.Valid()
    ensures db.students == old(db.students) && db.users == old(db.users) && db.transactions == old(db.transactions) &&
            db.damageReports == old(db.damageReports) && db.foundReports == old(db.foundReports)
    ensures r.Err? <==> forall i :: 0 <= i < |old(db.textbooks)| ==> old(db.textbooks)[i].id != id
    ensures r.Err? ==> r.error == TextbookNotFound && db.textbooks == old(db.textbooks)
    ensures r.Ok? ==> 1 <= id <= |old(db.textbooks)| &&
                      db.textbooks == old(db.textbooks)[id - 1 := old(db.textbooks)[id - 1].(isActive := false)]
  {
    FindDense(db.textbooks, TextbookId, id);
    var found := FindById(db.textbooks, TextbookId, id);
    if found.None? {
      return Err(TextbookNotFound);
    }
    var i := found.value;
    db.SetTextbook(i, db.textbooks[i].(isActive := false));
    return Ok(());
  }

  /** A deactivated textbook keeps its code, and is still found by it. */
  lemma DeleteKeepsQrLookup(textbooks: seq<Textbook>, id: int)
    requires QrCodesUnique(textbooks) && 1 <= id <= |textbooks|
    ensures var after := textbooks[id - 1 := textbooks[id - 1].(isActive := false)];
            QrCodesUnique(after) &&
            GetTextbookByQr(after, textbooks[id - 1].qrCode) == Ok(textbooks[id - 1].(isActive := false))
  {
    var after := textbooks[id - 1 := textbooks[id - 1].(isActive := false)];
    assert forall i :: 0 <= i < |after| ==> after[i].qrCode == textbooks[i].qrCode;
    GetTextbookByQrUnique(after, id - 1);
  }
}
