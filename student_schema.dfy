/** The request bodies of the student endpoints (`StudentCreate`, `StudentUpdate`) and the
    constraints their fields declare. A body that breaks one is refused with 422 before the
    handler runs. */
module StudentSchema {
  import opened Common
  import opened Patterns

  datatype StudentCreate = StudentCreate(
    firstName: string,
    lastName: string,
    middleName: Option<string>,
    grade: string,
    phone: Option<string>,
    parentPhone: Option<string>,
    maxUserId: Option<string>)

  /** Every field optional; `Keep` is a field the client did not send. */
  datatype StudentUpdate = StudentUpdate(
    firstName: Patch<string>,
    lastName: Patch<string>,
    middleName: Patch<Option<string>>,
    grade: Patch<string>,
    phone: Patch<Option<string>>,
    parentPhone: Patch<Option<string>>,
    maxUserId: Patch<Option<string>>,
    isActive: Patch<bool>)

  predicate NameOk(s: string)
  {
    1 <= |s| <= 50
  }

  predicate MiddleNameOk(m: Option<string>)
  {
    m.Some? ==> |m.value| <= 50
  }

  predicate GradeOk(g: string)
  {
    Matches(GradePattern, g)
  }

  /** A missing phone is allowed; a given one must match the pattern. */
  predicate PhoneOk(p: Option<string>)
  {
    p.Some? ==> Matches(PhonePattern, p.value)
  }

  predicate PatchOk<T>(p: Patch<T>, ok: T -> bool)
  {
    p.Put? ==> ok(p.value)
  }

  lemma PhoneOkMeaning(p: Option<string>)
    ensures PhoneOk(p) <==> (p.Some? ==> IsPhone(p.value))
  {
    if p.Some? {
      PhonePatternMeaning(p.value);
    }
  }

  lemma PhonePatchMeaning(p: Patch<Option<string>>)
    ensures PatchOk(p, PhoneOk) <==> (p.Put? && p.value.Some? ==> IsPhone(p.value.value))
  {
    if p.Put? {
      PhoneOkMeaning(p.value);
    }
  }

  lemma GradePatchMeaning(p: Patch<string>)
    ensures PatchOk(p, GradeOk) <==> (p.Put? ==> IsGrade(p.value))
  {
    if p.Put? {
      GradePatternMeaning(p.value);
    }
  }

  /** `StudentBase` validation, stated without the regular expressions. */
  function ValidCreate(c: StudentCreate): (ok: bool)
    ensures ok <==>
      1 <= |c.firstName| <= 50 && 1 <= |c.lastName| <= 50 &&
      (c.middleName.Some? ==> |c.middleName.value| <= 50) &&
      IsGrade(c.grade) &&
      (c.phone.Some? ==> IsPhone(c.phone.value)) &&
      (c.parentPhone.Some? ==> IsPhone(c.parentPhone.value))
  {
    GradePatternMeaning(c.grade);
    PhoneOkMeaning(c.phone);
    PhoneOkMeaning(c.parentPhone);
    NameOk(c.firstName) && NameOk(c.lastName) && MiddleNameOk(c.middleName) &&
    GradeOk(c.grade) && PhoneOk(c.phone) && PhoneOk(c.parentPhone)
  }

  /** `StudentUpdate` validation: each sent field obeys the create constraint. */
  function ValidUpdate(u: StudentUpdate): (ok: bool)
    ensures ok <==>
      (u.firstName.Put? ==> 1 <= |u.firstName.value| <= 50) &&
      (u.lastName.Put? ==> 1 <= |u.lastName.value| <= 50) &&
      (u.middleName.Put? && u.middleName.value.Some? ==> |u.middleName.value.value| <= 50) &&
      (u.grade.Put? ==> IsGrade(u.grade.value)) &&
      (u.phone.Put? && u.phone.value.Some? ==> IsPhone(u.phone.value.value)) &&
      (u.parentPhone.Put? && u.parentPhone.value.Some? ==> IsPhone(u.parentPhone.value.value))
  {
    GradePatchMeaning(u.grade);
    PhonePatchMeaning(u.phone);
    PhonePatchMeaning(u.parentPhone);
    PatchOk(u.firstName, NameOk) && PatchOk(u.lastName, NameOk) && PatchOk(u.middleName, MiddleNameOk) &&
    PatchOk(u.grade, GradeOk) && PatchOk(u.phone, PhoneOk) && PatchOk(u.parentPhone, PhoneOk)
  }
}
