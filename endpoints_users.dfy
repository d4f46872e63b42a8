/** The `/users` endpoints: list, create, read, update and delete, over the
    `users` table. Each handler's checks are a verdict function; the handler
    method carries the verdict out with one repository call. */
module UserEndpoints {
  import opened Common
  import opened Crud
  import opened Http
  import opened UserModel
  import opened UserSchemas
  import opened UserCrud

  const UsernameTaken := "The username is already taken"
  const EmailRegistered := "The email is already registered"
  const UserNotFound := "User not found"

  function UserOuts(page: seq<Row>): seq<UserOut>
    requires UserTable(page)
  {
    seq(|page|, i requires 0 <= i < |page| => ToUserOut(page[i]))
  }

  /** `read_users`: a page of at most `limit` users, `skip` and `limit`
      defaulting to 0 and 10 and bounded by the query validation. */
  function ReadUsers(rows: seq<Row>, skip: Option<int>, limit: Option<int>): (r: Response<seq<UserOut>>)
    requires UserTable(rows)
    ensures r.Ok? <==> skip.GetOr(0) >= 0 && 1 <= limit.GetOr(10) <= 100
    ensures r.Error? ==> r == Error(422, ValidationFailed)
    ensures r.Ok? ==> r.status == 200 && |r.body| <= limit.GetOr(10)
    ensures r.Ok? && skip.GetOr(0) >= |rows| ==> r.body == []
    ensures r.Ok? && skip.GetOr(0) < |rows| ==> |r.body| == Min(limit.GetOr(10), |rows| - skip.GetOr(0))
    ensures r.Ok? ==> forall i :: 0 <= i < |r.body| ==>
      skip.GetOr(0) + i < |rows| && r.body[i] == ToUserOut(rows[skip.GetOr(0) + i])
  {
    match PageParams(skip, limit)
    case Reject(s, d) => Error(s, d)
    case Accept((sk, lim)) =>
      var page := GetMulti(rows, sk, lim);
      assert UserTable(page) by {
        forall i | 0 <= i < |page|
          ensures IsUserRow(page[i])
        {
          assert page[i] == rows[sk + i];
        }
      }
      Ok(200, UserOuts(page))
  }

  // ---------------------------------------------------------------------
  // create_user

  /** `create_user`'s checks: validation, then the username, then the email. */
  function CreateUserVerdict(rows: seq<Row>, body: UserCreateBody): (v: Verdict<UserCreate>)
    ensures (v.Reject? && v.status == 422) <==> !(3 <= |body.username| <= 50 && 8 <= |body.password|)
    ensures v == Reject(400, UsernameTaken) <==>
      && ParseUserCreate(body).Some?
      && exists i :: 0 <= i < |rows| && Matches(rows[i], "username", Str(body.username))
    ensures v == Reject(400, EmailRegistered) <==>
      && ParseUserCreate(body).Some?
      && (forall i :: 0 <= i < |rows| ==> !Matches(rows[i], "username", Str(body.username)))
      && exists i :: 0 <= i < |rows| && Matches(rows[i], "email", Str(body.email))
    ensures v.Accept? <==>
      && ParseUserCreate(body).Some?
      && forall i :: 0 <= i < |rows| ==>
           !Matches(rows[i], "username", Str(body.username)) && !Matches(rows[i], "email", Str(body.email))
    ensures v.Accept? ==> ParseUserCreate(body) == Some(v.value)
  {
    match ParseUserCreate(body)
    case None => Reject(422, ValidationFailed)
    case Some(userIn) =>
      if GetByUsername(rows, userIn.username).Some? then Reject(400, UsernameTaken)
      else if GetByEmail(rows, userIn.email).Some? then Reject(400, EmailRegistered)
      else Accept(userIn)
  }

  /** A create that passes the checks keeps usernames and emails unique. */
  lemma CreateKeepsUnique(rows: seq<Row>, body: UserCreateBody, id: int)
    requires UserTable(rows) && UniqueUsers(rows)
    requires CreateUserVerdict(rows, body).Accept?
    ensures var r := NewUserRow(CreateUserVerdict(rows, body).value)["id" := Int(id)];
      UserTable(rows + [r]) && UniqueUsers(rows + [r])
  {
    var u := CreateUserVerdict(rows, body).value;
    var r := NewUserRow(u)["id" := Int(id)];
    assert r.Keys == UserColumns;
    var out := rows + [r];
    assert out[|rows|] == r;
    forall i | 0 <= i < |rows|
      ensures out[i] == rows[i]
      ensures out[i]["username"] != r["username"] && out[i]["email"] != r["email"]
    {
      assert !Matches(rows[i], "username", Str(body.username));
      assert !Matches(rows[i], "email", Str(body.email));
    }
  }

  /** Once a user is created, creating it again is refused with the username
      error. */
  lemma CreateTwiceRejected(rows: seq<Row>, body: UserCreateBody, id: int)
    requires CreateUserVerdict(rows, body).Accept?
    ensures var r := NewUserRow(CreateUserVerdict(rows, body).value)["id" := Int(id)];
      CreateUserVerdict(rows + [r], body) == Reject(400, UsernameTaken)
  {
    var r := NewUserRow(CreateUserVerdict(rows, body).value)["id" := Int(id)];
    var out := rows + [r];
    assert out[|rows|] == r;
    assert Matches(out[|rows|], "username", Str(body.username));
  }

  /** `create_user`: 400 with the username error, else 400 with the email
      error, else 201 with the new user. */
  method CreateUser(t: Table, body: UserCreateBody) returns (resp: Response<UserOut>)
    requires t.Valid() && UserTable(t.rows)
    modifies t
    ensures t.Valid() && UserTable(t.rows)
    ensures old(UniqueUsers(t.rows)) ==> UniqueUsers(t.rows)
    ensures match CreateUserVerdict(old(t.rows), body)
      case Reject(s, d) => resp == Error(s, d) && t.rows == old(t.rows) && t.nextId == old(t.nextId)
      case Accept(u) =>
        && resp == Ok(201, UserOut(old(t.nextId), u.username, u.email, u.isActive))
        && t.rows == old(t.rows) + [NewUserRow(u)["id" := Int(old(t.nextId))]]
        && t.nextId == old(t.nextId) + 1
  {
    var v := CreateUserVerdict(t.rows, body);
    if v.Reject? {
      resp := Error(v.status, v.detail);
      return;
    }
    ghost var before := t.rows;
    var user := UserCrud.Create(t, v.value);
    if UniqueUsers(before) {
      CreateKeepsUnique(before, body, IdOf(user));
    }
    assert t.rows[|before|] == user;
    resp := Ok(201, ToUserOut(user));
  }

  // ---------------------------------------------------------------------
  // read_user

  /** `read_user`: 404 when no user has the id, otherwise that user. */
  function ReadUser(rows: seq<Row>, userId: int): (r: Response<UserOut>)
    requires UserTable(rows)
    ensures (r.Error? && r.status == 422) <==> userId < 1
    ensures r.Error? <==> userId < 1 || forall i :: 0 <= i < |rows| ==> !(HasId(rows[i]) && IdOf(rows[i]) == userId)
    ensures r.Error? && 1 <= userId ==> r == Error(404, UserNotFound)
    ensures r.Ok? ==> r.status == 200 && r.body.id == userId
    ensures r.Ok? ==> exists i :: 0 <= i < |rows| && r.body == ToUserOut(rows[i])
  {
    match Lookup(rows, userId, UserNotFound)
    case Reject(s, d) => Error(s, d)
    case Accept(user) => Ok(200, ToUserOut(user))
  }

  // ---------------------------------------------------------------------
  // update_user

  /** Python's truthiness of an optional string: `None` and `""` are false. */
  predicate Truthy(s: Option<string>) {
    s.Some? && s.value != ""
  }

  /** A supplied value for `key` that differs from the user's own and that
      some stored user already holds. */
  predicate Clash(rows: seq<Row>, user: Row, key: string, supplied: Option<string>) {
    && supplied.Some?
    && !Matches(user, key, Str(supplied.value))
    && exists i :: 0 <= i < |rows| && Matches(rows[i], key, Str(supplied.value))
  }

  /** `update_user`'s checks as the handler writes them: a field is
      checked for a clash only when it is truthy and differs from the
      current value, so an empty email is never checked. */
  function UpdateUserVerdictAsWritten(rows: seq<Row>, userId: int, userIn: UserUpdate): (v: Verdict<Row>)
    ensures (v.Reject? && v.status == 422) <==> userId < 1 || !ValidUserUpdate(userIn)
    ensures v == Reject(404, UserNotFound) <==>
      1 <= userId && ValidUserUpdate(userIn) && Get(rows, userId).None?
    ensures v == Reject(400, UsernameTaken) <==>
      && 1 <= userId && ValidUserUpdate(userIn) && Get(rows, userId).Some?
      && Truthy(userIn.username) && Clash(rows, Get(rows, userId).value, "username", userIn.username)
    ensures v == Reject(400, EmailRegistered) <==>
      && 1 <= userId && ValidUserUpdate(userIn) && Get(rows, userId).Some?
      && !(Truthy(userIn.username) && Clash(rows, Get(rows, userId).value, "username", userIn.username))
      && Truthy(userIn.email) && Clash(rows, Get(rows, userId).value, "email", userIn.email)
    ensures v.Accept? <==>
      && 1 <= userId && ValidUserUpdate(userIn) && Get(rows, userId).Some?
      && !(Truthy(userIn.username) && Clash(rows, Get(rows, userId).value, "username", userIn.username))
      && !(Truthy(userIn.email) && Clash(rows, Get(rows, userId).value, "email", userIn.email))
    ensures v.Accept? ==> v.value == Get(rows, userId).value && v.value in rows && HasId(v.value) && IdOf(v.value) == userId
  {
    if !ValidUserUpdate(userIn) then Reject(422, ValidationFailed)
    else match Lookup(rows, userId, UserNotFound)
      case Reject(s, d) => Reject(s, d)
      case Accept(user) =>
        if Truthy(userIn.username) && !Matches(user, "username", Str(userIn.username.value))
           && GetByUsername(rows, userIn.username.value).Some?
        then Reject(400, UsernameTaken)
        else if Truthy(userIn.email) && !Matches(user, "email", Str(userIn.email.value))
           && GetByEmail(rows, userIn.email.value).Some?
        then Reject(400, EmailRegistered)
        else Accept(user)
  }

  /** `update_user`'s checks as intended: a field is checked for a clash
      whenever it is supplied and differs from the current value. */
  function UpdateUserVerdict(rows: seq<Row>, userId: int, userIn: UserUpdate): (v: Verdict<Row>)
    ensures (v.Reject? && v.status == 422) <==> userId < 1 || !ValidUserUpdate(userIn)
    ensures v == Reject(404, UserNotFound) <==>
      1 <= userId && ValidUserUpdate(userIn) && Get(rows, userId).None?
    ensures v == Reject(400, UsernameTaken) <==>
      && 1 <= userId && ValidUserUpdate(userIn) && Get(rows, userId).Some?
      && Clash(rows, Get(rows, userId).value, "username", userIn.username)
    ensures v == Reject(400, EmailRegistered) <==>
      && 1 <= userId && ValidUserUpdate(userIn) && Get(rows, userId).Some?
      && !Clash(rows, Get(rows, userId).value, "username", userIn.username)
      && Clash(rows, Get(rows, userId).value, "email", userIn.email)
    ensures v.Accept? <==>
      && 1 <= userId && ValidUserUpdate(userIn) && Get(rows, userId).Some?
      && !Clash(rows, Get(rows, userId).value, "username", userIn.username)
      && !Clash(rows, Get(rows, userId).value, "email", userIn.email)
    ensures v.Accept? ==> v.value == Get(rows, userId).value && v.value in rows && HasId(v.value) && IdOf(v.value) == userId
    ensures v.Accept? && userIn.username.Some? && !Matches(v.value, "username", Str(userIn.username.value)) ==>
      forall i :: 0 <= i < |rows| ==> !Matches(rows[i], "username", Str(userIn.username.value))
    ensures v.Accept? && userIn.email.Some? && !Matches(v.value, "email", Str(userIn.email.value)) ==>
      forall i :: 0 <= i < |rows| ==> !Matches(rows[i], "email", Str(userIn.email.value))
  {
    if !ValidUserUpdate(userIn) then Reject(422, ValidationFailed)
    else match Lookup(rows, userId, UserNotFound)
      case Reject(s, d) => Reject(s, d)
      case Accept(user) =>
        if userIn.username.Some? && !Matches(user, "username", Str(userIn.username.value))
           && GetByUsername(rows, userIn.username.value).Some?
        then Reject(400, UsernameTaken)
        else if userIn.email.Some? && !Matches(user, "email", Str(userIn.email.value))
           && GetByEmail(rows, userIn.email.value).Some?
        then Reject(400, EmailRegistered)
        else Accept(user)
  }

  /** The two verdicts differ only on an empty email: validation already
      rules out an empty username. */
  lemma AsWrittenAgreesUnlessEmptyEmail(rows: seq<Row>, userId: int, userIn: UserUpdate)
    requires userIn.email != Some("")
    ensures UpdateUserVerdictAsWritten(rows, userId, userIn) == UpdateUserVerdict(rows, userId, userIn)
  {
    if ValidUserUpdate(userIn) && userIn.username.Some? {
      assert |userIn.username.value| >= 3;
    }
  }

  /** Re-submitting one's own username and email is no clash: a valid update
      of a stored user whose supplied username and email equal the current
      ones is accepted. */
  lemma UpdateOwnValuesAccepted(rows: seq<Row>, i: int, userIn: UserUpdate)
    requires UniqueIds(rows) && 0 <= i < |rows| && 1 <= IdOf(rows[i]) && ValidUserUpdate(userIn)
    requires userIn.username.Some? ==> Matches(rows[i], "username", Str(userIn.username.value))
    requires userIn.email.Some? ==> Matches(rows[i], "email", Str(userIn.email.value))
    ensures UpdateUserVerdict(rows, IdOf(rows[i]), userIn) == Accept(rows[i])
    ensures UpdateUserVerdictAsWritten(rows, IdOf(rows[i]), userIn) == Accept(rows[i])
  {
    GetUnique(rows, i);
  }

  /** The stored user after an accepted update. */
  function UpdatedRow(user: Row, userIn: UserUpdate): Row {
    Overwrite(user, RewritePassword(UserUpdateDict(userIn)))
  }

  /** One pair of users after an update: the updated one and another one
      still differ in username and email. */
  lemma UpdatedPairDistinct(rows: seq<Row>, userId: int, userIn: UserUpdate, k: int, m: int)
    requires UserTable(rows) && UniqueUsers(rows)
    requires UpdateUserVerdict(rows, userId, userIn).Accept?
    requires 0 <= k < |rows| && 0 <= m < |rows| && k != m
    requires rows[k] == UpdateUserVerdict(rows, userId, userIn).value
    ensures var r := UpdatedRow(rows[k], userIn);
      IsUserRow(r) && r["username"] != rows[m]["username"] && r["email"] != rows[m]["email"]
  {
    var user := rows[k];
    UpdatedUser(user, userIn);
    assert user["username"] != rows[m]["username"] && user["email"] != rows[m]["email"] by {
      if k < m {} else {}
    }
    if userIn.username.Some? && !Matches(user, "username", Str(userIn.username.value)) {
      assert !Matches(rows[m], "username", Str(userIn.username.value));
    }
    if userIn.email.Some? && !Matches(user, "email", Str(userIn.email.value)) {
      assert !Matches(rows[m], "email", Str(userIn.email.value));
    }
  }

  /** An update that passes the intended checks keeps usernames and emails
      unique. */
  lemma UpdateKeepsUnique(rows: seq<Row>, userId: int, userIn: UserUpdate)
    requires UserTable(rows) && UniqueIds(rows) && UniqueUsers(rows)
    requires UpdateUserVerdict(rows, userId, userIn).Accept?
    ensures var r := UpdatedRow(UpdateUserVerdict(rows, userId, userIn).value, userIn);
      HasId(r) && UserTable(Put(rows, r)) && UniqueUsers(Put(rows, r))
  {
    var user := UpdateUserVerdict(rows, userId, userIn).value;
    var r := UpdatedRow(user, userIn);
    UpdatedUser(user, userIn);
    UserRowHasId(r);
    var k :| 0 <= k < |rows| && rows[k] == user;
    var out := Put(rows, r);
    forall j | 0 <= j < |rows|
      ensures out[j] == if j == k then r else rows[j]
    {
      if j != k {
        assert IdOf(rows[j]) != IdOf(rows[k]) by {
          if j < k {} else {}
        }
      }
    }
    assert UserTable(out);
    forall i, j | 0 <= i < j < |out|
      ensures out[i]["username"] != out[j]["username"] && out[i]["email"] != out[j]["email"]
    {
      if i == k {
        UpdatedPairDistinct(rows, userId, userIn, k, j);
      } else if j == k {
        UpdatedPairDistinct(rows, userId, userIn, k, i);
      }
    }
  }

  /** The handler as written lets an empty email through its pre-check:
      with one user registered under the empty email and another updating
      its email to it, the checks accept and the write-back gives two users
      the same email, which the `unique` constraint on `email` then has to
      refuse. The intended checks answer the same request with 400. */
  lemma UpdateAsWrittenAdmitsDuplicateEmail()
    ensures var a := map["id" := Int(1), "username" := Str("alice"), "email" := Str(""),
                         "hashed_password" := Str("alicepass_hashed"), "is_active" := Bool(true)];
            var b := map["id" := Int(2), "username" := Str("bob"), "email" := Str("b@x.com"),
                         "hashed_password" := Str("bobpass00_hashed"), "is_active" := Bool(true)];
            var userIn := UserUpdate(None, Some(""), None, None);
            var after := [a, UpdatedRow(b, userIn)];
      && UserTable([a, b]) && UniqueIds([a, b]) && UniqueUsers([a, b])
      && UpdateUserVerdictAsWritten([a, b], 2, userIn) == Accept(b)
      && Put([a, b], UpdatedRow(b, userIn)) == after
      && UserTable(after) && !UniqueUsers(after)
      && UpdateUserVerdict([a, b], 2, userIn) == Reject(400, EmailRegistered)
  {
    var a := map["id" := Int(1), "username" := Str("alice"), "email" := Str(""),
                 "hashed_password" := Str("alicepass_hashed"), "is_active" := Bool(true)];
    var b := map["id" := Int(2), "username" := Str("bob"), "email" := Str("b@x.com"),
                 "hashed_password" := Str("bobpass00_hashed"), "is_active" := Bool(true)];
    var userIn := UserUpdate(None, Some(""), None, None);
    var rows := [a, b];
    assert a.Keys == UserColumns && b.Keys == UserColumns;
    assert HasId(rows[1]) && IdOf(rows[1]) == 2;
    var g := Get(rows, 2);
    assert g.value == a || g.value == b;
    assert g == Some(b);
    assert Lookup(rows, 2, UserNotFound) == Accept(b);
    assert Matches(rows[0], "email", Str(""));
    assert GetByEmail(rows, "").Some?;
    UpdatedUser(b, userIn);
    var r := UpdatedRow(b, userIn);
    assert r["email"] == Str("");
    assert Put(rows, r) == [a, r];
    assert UserTable([a, b]);
    assert UniqueIds([a, b]);
    assert UniqueUsers([a, b]);
    assert UpdateUserVerdictAsWritten(rows, 2, userIn) == Accept(b);
    assert UserTable([a, r]);
    assert [a, r][0]["email"] == [a, r][1]["email"];
    assert UpdateUserVerdict(rows, 2, userIn) == Reject(400, EmailRegistered);
  }

  /** `update_user`, with the handler's checks as written: 404 for an
      unknown id, 400 on a clash the truthiness checks see, otherwise 200
      with the user after the update. Uniqueness is kept whenever the
      request does not set the email to the empty string. */
  method UpdateUser(t: Table, userId: int, userIn: UserUpdate) returns (resp: Response<UserOut>)
    requires t.Valid() && UserTable(t.rows)
    modifies t
    ensures t.Valid() && UserTable(t.rows) && t.nextId == old(t.nextId)
    ensures old(UniqueUsers(t.rows)) && userIn.email != Some("") ==> UniqueUsers(t.rows)
    ensures match UpdateUserVerdictAsWritten(old(t.rows), userId, userIn)
      case Reject(s, d) => resp == Error(s, d) && t.rows == old(t.rows)
      case Accept(user) =>
        var r := UpdatedRow(user, userIn);
        IsUserRow(r) && resp == Ok(200, ToUserOut(r)) && t.rows == Put(old(t.rows), r)
  {
    var v := UpdateUserVerdictAsWritten(t.rows, userId, userIn);
    if v.Reject? {
      resp := Error(v.status, v.detail);
      return;
    }
    ghost var before := t.rows;
    var updateData := UserUpdateDict(userIn);
    var user := UserCrud.Update(t, v.value, updateData);
    UpdatedUser(v.value, userIn);
    UserTableHasIds(before);
    if UniqueUsers(before) && userIn.email != Some("") {
      AsWrittenAgreesUnlessEmptyEmail(before, userId, userIn);
      UpdateKeepsUnique(before, userId, userIn);
    } else {
      forall j | 0 <= j < |before|
        ensures IsUserRow(t.rows[j])
      {
        PutFrame(before, user, j);
      }
    }
    resp := Ok(200, ToUserOut(user));
  }

  // ---------------------------------------------------------------------
  // delete_user

  /** `delete_user`: 404 for an unknown id, otherwise 204 and exactly that
      user is gone. */
  method DeleteUser(t: Table, userId: int) returns (resp: Response<()>)
    requires t.Valid() && UserTable(t.rows)
    modifies t
    ensures t.Valid() && UserTable(t.rows) && t.nextId == old(t.nextId)
    ensures old(UniqueUsers(t.rows)) ==> UniqueUsers(t.rows)
    ensures match Lookup(old(t.rows), userId, UserNotFound)
      case Reject(s, d) => resp == Error(s, d) && t.rows == old(t.rows)
      case Accept(_) =>
        && resp == Ok(204, ())
        && t.rows == Delete(old(t.rows), userId)
        && Get(t.rows, userId).None?
        && |t.rows| == |old(t.rows)| - 1
  {
    var v := Lookup(t.rows, userId, UserNotFound);
    if v.Reject? {
      resp := Error(v.status, v.detail);
      return;
    }
    ghost var before := t.rows;
    DeleteCount(before, userId);
    RemoveIdempotent(before, userId);
    if UniqueUsers(before) {
      DeleteKeepsUniqueUsers(before, userId);
    }
    var _ := t.Remove(userId);
    assert UserTable(t.rows) by {
      forall i | 0 <= i < |t.rows|
        ensures IsUserRow(t.rows[i])
      {
        assert t.rows[i] in before;
      }
    }
    resp := Ok(204, ());
  }
}
