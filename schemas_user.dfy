/** The request and response shapes of users: `UserCreate`, `UserUpdate`
    and the `User` response model, with their field constraints. */
module UserSchemas {
  import opened Common
  import opened UserModel

  const UsernameMinLength := 3
  const UsernameMaxLength := 50
  const PasswordMinLength := 8

  /** The JSON body of a create request. `isActive` is `None` when the
      client leaves the field out. */
  datatype UserCreateBody = UserCreateBody(username: string, email: string, isActive: Option<bool>, password: string)

  /** A validated `UserCreate`, with its default filled in. */
  datatype UserCreate = UserCreate(username: string, email: string, isActive: bool, password: string)

  /** A `UserUpdate`: every field optional, `None` when it is not set. */
  datatype UserUpdate = UserUpdate(username: Option<string>, email: Option<string>, isActive: Option<bool>, password: Option<string>)

  /** The `User` response model: `hashed_password` is not part of it. */
  datatype UserOut = UserOut(id: int, username: string, email: string, isActive: bool)

  predicate ValidUsername(s: string) {
    UsernameMinLength <= |s| <= UsernameMaxLength
  }

  predicate ValidPassword(s: string) {
    PasswordMinLength <= |s|
  }

  /** Validation of a create body: the username and password length bounds,
      no check at all on the email, and `is_active` defaulting to true. */
  function ParseUserCreate(b: UserCreateBody): (r: Option<UserCreate>)
    ensures r.Some? <==> 3 <= |b.username| <= 50 && 8 <= |b.password|
    ensures r.Some? ==> r.value.username == b.username && r.value.email == b.email && r.value.password == b.password
    ensures r.Some? ==> r.value.isActive == (b.isActive != Some(false))
  {
    if ValidUsername(b.username) && ValidPassword(b.password)
    then Some(UserCreate(b.username, b.email, b.isActive.GetOr(true), b.password))
    else None
  }

  /** Validation of an update body: a bound applies only to a field that is set. */
  predicate ValidUserUpdate(u: UserUpdate) {
    && (u.username.Some? ==> ValidUsername(u.username.value))
    && (u.password.Some? ==> ValidPassword(u.password.value))
  }

  /** `user_in.dict(exclude_unset=True)`: one entry per field that is set. */
  function UserUpdateDict(u: UserUpdate): (d: Row)
    ensures d.Keys <= {"username", "email", "is_active", "password"}
    ensures "username" in d <==> u.username.Some?
    ensures "email" in d <==> u.email.Some?
    ensures "is_active" in d <==> u.isActive.Some?
    ensures "password" in d <==> u.password.Some?
    ensures u.username.Some? ==> d["username"] == Str(u.username.value)
    ensures u.email.Some? ==> d["email"] == Str(u.email.value)
    ensures u.isActive.Some? ==> d["is_active"] == Bool(u.isActive.value)
    ensures u.password.Some? ==> d["password"] == Str(u.password.value)
  {
    var d0: Row := map[];
    var d1 := if u.username.Some? then d0["username" := Str(u.username.value)] else d0;
    var d2 := if u.email.Some? then d1["email" := Str(u.email.value)] else d1;
    var d3 := if u.isActive.Some? then d2["is_active" := Bool(u.isActive.value)] else d2;
    if u.password.Some? then d3["password" := Str(u.password.value)] else d3
  }

  /** The response body the `User` response model makes of a stored user. */
  function ToUserOut(r: Row): UserOut
    requires IsUserRow(r)
  {
    UserOut(r["id"].i, r["username"].s, r["email"].s, r["is_active"].b)
  }
}
