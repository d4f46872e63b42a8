/** `CRUDUser`: the generic repository over the `users` table, plus lookups
    by username and email and the placeholder password transform on create
    and update. */
module UserCrud {
  import opened Common
  import opened Crud
  import opened UserModel
  import opened UserSchemas

  const HashSuffix := "_hashed"

  /** The placeholder password transform: a literal suffix, not a hash. */
  function HashPassword(password: string): (h: string)
    ensures |h| == |password| + 7 && h[..|password|] == password
  {
    password + HashSuffix
  }

  /** `get_by_username`: a user with exactly this username, if any. */
  function GetByUsername(rows: seq<Row>, username: string): (r: Option<Row>)
    ensures r.Some? ==> r.value in rows && Matches(r.value, "username", Str(username))
    ensures r.None? <==> forall i :: 0 <= i < |rows| ==> !Matches(rows[i], "username", Str(username))
  {
    First(rows, "username", Str(username))
  }

  /** `get_by_email`: a user with exactly this email, if any. */
  function GetByEmail(rows: seq<Row>, email: string): (r: Option<Row>)
    ensures r.Some? ==> r.value in rows && Matches(r.value, "email", Str(email))
    ensures r.None? <==> forall i :: 0 <= i < |rows| ==> !Matches(rows[i], "email", Str(email))
  {
    First(rows, "email", Str(email))
  }

  /** The record `create` builds, before the database gives it an id: every
      column of `User` but the key, and never the plaintext password. */
  function NewUserRow(u: UserCreate): (r: Row)
    ensures "id" !in r && r.Keys + {"id"} == UserColumns
    ensures r["hashed_password"] != Str(u.password)
  {
    map["username" := Str(u.username), "email" := Str(u.email),
        "hashed_password" := Str(HashPassword(u.password)), "is_active" := Bool(u.isActive)]
  }

  /** `create`: stores the input's username, email and `is_active` verbatim,
      and the transformed password. It checks no uniqueness: that is the
      caller's job. */
  method Create(t: Table, objIn: UserCreate) returns (dbObj: Row)
    requires t.Valid()
    modifies t
    ensures t.Valid() && t.nextId == old(t.nextId) + 1
    ensures t.rows == old(t.rows) + [dbObj]
    ensures IsUserRow(dbObj) && dbObj["id"] == Int(old(t.nextId))
    ensures dbObj["username"] == Str(objIn.username) && dbObj["email"] == Str(objIn.email)
    ensures dbObj["hashed_password"] == Str(objIn.password + "_hashed")
    ensures dbObj["is_active"] == Bool(objIn.isActive)
    ensures dbObj == NewUserRow(objIn)["id" := Int(old(t.nextId))]
  {
    dbObj := t.Create(NewUserRow(objIn));
    assert dbObj.Keys == UserColumns;
  }

  /** `update`'s rewrite of the update data: a `password` entry becomes a
      `hashed_password` entry holding the transformed password, which
      replaces any `hashed_password` the data already held, and the
      `password` key is dropped. Data without a password is passed on
      unchanged. */
  function RewritePassword(data: Row): (r: Row)
    requires "password" in data ==> data["password"].Str?
    ensures "password" !in r
    ensures "password" in data ==> "hashed_password" in r && r["hashed_password"] == Str(data["password"].s + "_hashed")
    ensures "password" !in data ==> r == data
    ensures forall f :: f in data && f != "password" && f != "hashed_password" ==> f in r && r[f] == data[f]
    ensures r.Keys == (data.Keys - {"password"}) + (if "password" in data then {"hashed_password"} else {})
  {
    if "password" in data
    then (data["hashed_password" := Str(HashPassword(data["password"].s))]) - {"password"}
    else data
  }

  /** `update`: rewrite the password in the update data, in place, then
      delegate to the generic update. */
  method Update(t: Table, dbObj: Row, objIn: Row) returns (updated: Row)
    requires t.Valid() && dbObj in t.rows && "id" !in objIn
    requires "password" in objIn ==> objIn["password"].Str?
    modifies t
    ensures t.Valid() && t.nextId == old(t.nextId)
    ensures updated == Overwrite(dbObj, RewritePassword(objIn))
    ensures t.rows == Put(old(t.rows), updated)
  {
    var updateData := objIn;
    if "password" in updateData {
      var hashedPassword := HashPassword(updateData["password"].s);
      updateData := updateData["hashed_password" := Str(hashedPassword)];
      updateData := updateData - {"password"};
    }
    assert updateData == RewritePassword(objIn);
    updated := t.Update(dbObj, updateData);
  }

  // ---------------------------------------------------------------------
  // Lemmas

  /** A validated update keeps a stored user a well-formed `users` record:
      each supplied field is overwritten, a supplied password is stored
      transformed, and everything else (the id above all) is kept. */
  lemma UpdatedUser(user: Row, u: UserUpdate)
    requires IsUserRow(user)
    ensures var r := Overwrite(user, RewritePassword(UserUpdateDict(u)));
      && IsUserRow(r)
      && r["id"] == user["id"]
      && r["username"] == (if u.username.Some? then Str(u.username.value) else user["username"])
      && r["email"] == (if u.email.Some? then Str(u.email.value) else user["email"])
      && r["is_active"] == (if u.isActive.Some? then Bool(u.isActive.value) else user["is_active"])
      && r["hashed_password"] == (if u.password.Some? then Str(u.password.value + "_hashed") else user["hashed_password"])
  {
    var d := RewritePassword(UserUpdateDict(u));
    var r := Overwrite(user, d);
    assert r.Keys == UserColumns;
  }

  /** The transformed password fits the `String(100)` column exactly when the
      password has at most 93 characters. */
  lemma HashedPasswordFits(password: string)
    ensures |HashPassword(password)| <= HashedPasswordWidth <==> |password| <= 93
  {
  }

  /** A body that passes validation, whose password has 94 characters or
      more, produces a stored password wider than its column: the schema sets
      no upper bound on the password. */
  lemma LongPasswordOverflows(b: UserCreateBody, id: int)
    requires 3 <= |b.username| <= 50 && |b.password| >= 94
    ensures ParseUserCreate(b).Some?
    ensures var r := NewUserRow(ParseUserCreate(b).value)["id" := Int(id)];
      IsUserRow(r) && !FitsColumns(r)
  {
    var r := NewUserRow(ParseUserCreate(b).value)["id" := Int(id)];
    assert r.Keys == UserColumns;
  }

  /** A body that passes validation with an email of more than 100
      characters produces a stored email wider than its column: the schema
      sets no bound on the email. */
  lemma LongEmailOverflows(b: UserCreateBody, id: int)
    requires 3 <= |b.username| <= 50 && 8 <= |b.password| && |b.email| > 100
    ensures ParseUserCreate(b).Some?
    ensures var r := NewUserRow(ParseUserCreate(b).value)["id" := Int(id)];
      IsUserRow(r) && !FitsColumns(r)
  {
    var r := NewUserRow(ParseUserCreate(b).value)["id" := Int(id)];
    assert r.Keys == UserColumns;
  }

  /** With a username the schema accepts, an email of at most 100 characters
      and a password of at most 93, the created record fits every column. */
  lemma CreatedUserFits(u: UserCreate, id: int)
    requires ValidUsername(u.username) && |u.email| <= EmailWidth && |u.password| <= 93
    ensures var r := NewUserRow(u)["id" := Int(id)];
      IsUserRow(r) && FitsColumns(r)
  {
    var r := NewUserRow(u)["id" := Int(id)];
    assert r.Keys == UserColumns;
  }
}
