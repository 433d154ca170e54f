/** The request and response bodies of the user and authentication endpoints. */
module UserSchema {
  import opened Common
  import opened Entities

  /** `email` is carried as given: its `EmailStr` syntax check is not modelled. */
  datatype UserCreate = UserCreate(
    username: string,
    email: Option<string>,
    role: Role,
    password: string,
    studentId: Option<int>)

  datatype UserUpdate = UserUpdate(
    username: Patch<string>,
    email: Patch<Option<string>>,
    isActive: Patch<bool>,
    studentId: Patch<Option<int>>)

  datatype Token = Token(accessToken: string, tokenType: string)

  const BearerType := "bearer"

  predicate UsernameOk(u: string)
  {
    3 <= |u| <= 50
  }

  predicate PasswordOk(p: string)
  {
    |p| >= 6
  }

  predicate ValidCreate(c: UserCreate)
  {
    UsernameOk(c.username) && PasswordOk(c.password)
  }

  predicate ValidUpdate(u: UserUpdate)
  {
    u.username.Put? ==> UsernameOk(u.username.value)
  }

  /** A `Token` built with the default `token_type`. */
  function BearerToken(accessToken: string): (t: Token)
    ensures t.tokenType == "bearer" && t.accessToken == accessToken
  {
    Token(accessToken, BearerType)
  }
}
