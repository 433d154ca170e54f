/** The request bodies of the textbook endpoints (`TextbookCreate`, `TextbookUpdate`,
    `TextbookBulkCreate`) and the constraints their fields declare. */
module TextbookSchema {
  import opened Common
  import opened Patterns

  datatype TextbookCreate = TextbookCreate(
    subject: string,
    title: string,
    author: Option<string>,
    publisher: Option<string>,
    year: Option<int>,
    isbn: Option<string>,
    inventoryNumber: Option<string>,
    initialCondition: Option<string>)

  datatype TextbookUpdate = TextbookUpdate(
    subject: Patch<string>,
    title: Patch<string>,
    author: Patch<Option<string>>,
    publisher: Patch<Option<string>>,
    year: Patch<Option<int>>,
    isbn: Patch<Option<string>>,
    inventoryNumber: Patch<Option<string>>,
    initialCondition: Patch<Option<string>>,
    currentCondition: Patch<Option<string>>,
    isActive: Patch<bool>)

  datatype TextbookBulkCreate = TextbookBulkCreate(
    subject: string,
    title: string,
    author: Option<string>,
    publisher: Option<string>,
    year: Option<int>,
    isbn: Option<string>,
    inventoryNumberPrefix: Option<string>,
    quantity: int,
    initialCondition: Option<string>)

  const MinYear := 1900
  const MaxYear := 2030

  predicate SubjectOk(s: string)
  {
    1 <= |s| <= 100
  }

  predicate TitleOk(s: string)
  {
    1 <= |s| <= 200
  }

  /** An optional string of at most `n` characters. */
  predicate AtMost(s: Option<string>, n: nat)
  {
    s.Some? ==> |s.value| <= n
  }

  predicate YearOk(y: Option<int>)
  {
    y.Some? ==> MinYear <= y.value <= MaxYear
  }

  predicate IsbnOk(s: Option<string>)
  {
    s.Some? ==> Matches(IsbnPattern, s.value)
  }

  lemma IsbnOkMeaning(s: Option<string>)
    ensures IsbnOk(s) <==> (s.Some? ==> IsIsbn(s.value))
  {
    if s.Some? {
      IsbnPatternMeaning(s.value);
    }
  }

  function ValidCreate(c: TextbookCreate): (ok: bool)
    ensures ok <==>
      1 <= |c.subject| <= 100 && 1 <= |c.title| <= 200 &&
      AtMost(c.author, 200) && AtMost(c.publisher, 200) &&
      (c.year.Some? ==> 1900 <= c.year.value <= 2030) &&
      (c.isbn.Some? ==> IsIsbn(c.isbn.value)) &&
      AtMost(c.inventoryNumber, 50) && AtMost(c.initialCondition, 1000)
  {
    IsbnOkMeaning(c.isbn);
    SubjectOk(c.subject) && TitleOk(c.title) && AtMost(c.author, 200) && AtMost(c.publisher, 200) &&
    YearOk(c.year) && IsbnOk(c.isbn) && AtMost(c.inventoryNumber, 50) && AtMost(c.initialCondition, 1000)
  }

  /** The update bounds are the create bounds on each sent field, plus `current_condition`. */
  function ValidUpdate(u: TextbookUpdate): (ok: bool)
    ensures ok <==>
      (u.subject.Put? ==> 1 <= |u.subject.value| <= 100) &&
      (u.title.Put? ==> 1 <= |u.title.value| <= 200) &&
      (u.author.Put? ==> AtMost(u.author.value, 200)) &&
      (u.publisher.Put? ==> AtMost(u.publisher.value, 200)) &&
      (u.year.Put? && u.year.value.Some? ==> 1900 <= u.year.value.value <= 2030) &&
      (u.isbn.Put? && u.isbn.value.Some? ==> IsIsbn(u.isbn.value.value)) &&
      (u.inventoryNumber.Put? ==> AtMost(u.inventoryNumber.value, 50)) &&
      (u.initialCondition.Put? ==> AtMost(u.initialCondition.value, 1000)) &&
      (u.currentCondition.Put? ==> AtMost(u.currentCondition.value, 1000))
  {
    if u.isbn.Put? then
      IsbnOkMeaning(u.isbn.value);
      UpdateBounds(u) && IsbnOk(u.isbn.value)
    else
      UpdateBounds(u)
  }

  /** The bounds of `TextbookUpdate` other than the ISBN pattern. */
  predicate UpdateBounds(u: TextbookUpdate)
  {
    (u.subject.Put? ==> SubjectOk(u.subject.value)) &&
    (u.title.Put? ==> TitleOk(u.title.value)) &&
    (u.author.Put? ==> AtMost(u.author.value, 200)) &&
    (u.publisher.Put? ==> AtMost(u.publisher.value, 200)) &&
    (u.year.Put? ==> YearOk(u.year.value)) &&
    (u.inventoryNumber.Put? ==> AtMost(u.inventoryNumber.value, 50)) &&
    (u.initialCondition.Put? ==> AtMost(u.initialCondition.value, 1000)) &&
    (u.currentCondition.Put? ==> AtMost(u.currentCondition.value, 1000))
  }

  function ValidBulkCreate(b: TextbookBulkCreate): (ok: bool)
    ensures ok ==> 1 <= b.quantity <= 1000
    ensures ok <==>
      1 <= |b.subject| <= 100 && 1 <= |b.title| <= 200 &&
      AtMost(b.author, 200) && AtMost(b.publisher, 200) &&
      (b.year.Some? ==> 1900 <= b.year.value <= 2030) &&
      (b.isbn.Some? ==> IsIsbn(b.isbn.value)) &&
      AtMost(b.inventoryNumberPrefix, 20) && 1 <= b.quantity <= 1000 &&
      AtMost(b.initialCondition, 1000)
  {
    IsbnOkMeaning(b.isbn);
    SubjectOk(b.subject) && TitleOk(b.title) && AtMost(b.author, 200) && AtMost(b.publisher, 200) &&
    YearOk(b.year) && IsbnOk(b.isbn) && AtMost(b.inventoryNumberPrefix, 20) &&
    1 <= b.quantity <= 1000 && AtMost(b.initialCondition, 1000)
  }
}
