/** The derived `full_name` of a student record. */
module StudentModel {
  import opened Common
  import opened Entities

  /** Last name, first name and, when it is non-empty, the middle name, joined by spaces. */
  function FullName(s: Student): string
  {
    var parts := [s.lastName, s.firstName] + (if Truthy(s.middleName) then [s.middleName.value] else []);
    Join(parts, " ")
  }

  lemma FullNameWithoutMiddle(s: Student)
    requires !Truthy(s.middleName)
    ensures FullName(s) == s.lastName + " " + s.firstName
  {
    assert [s.lastName, s.firstName] + [] == [s.lastName, s.firstName];
    JoinTwo(s.lastName, s.firstName, " ");
  }

  lemma FullNameWithMiddle(s: Student)
    requires Truthy(s.middleName)
    ensures FullName(s) == s.lastName + " " + s.firstName + " " + s.middleName.value
  {
    assert [s.lastName, s.firstName] + [s.middleName.value] == [s.lastName, s.firstName, s.middleName.value];
    JoinThree(s.lastName, s.firstName, s.middleName.value, " ");
  }

  /** An empty middle name is the same as none. */
  lemma EmptyMiddleIsAbsent(s: Student)
    requires s.middleName == Some("")
    ensures FullName(s) == FullName(s.(middleName := None))
  {
    FullNameWithoutMiddle(s);
    FullNameWithoutMiddle(s.(middleName := None));
  }

  lemma FullNameStartsWithLastName(s: Student)
    ensures StartsWith(FullName(s), s.lastName)
  {
    var parts := [s.lastName, s.firstName] + (if Truthy(s.middleName) then [s.middleName.value] else []);
    assert parts[0] == s.lastName;
    JoinStartsWithFirst(parts, " ");
  }
}
