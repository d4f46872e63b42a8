/** `init_db`: seed the `users` table with an admin user unless a user named
    "admin" is already stored. */
module InitDb {
  import opened Common
  import opened Crud
  import opened UserModel
  import opened UserSchemas
  import opened UserCrud

  const AdminUsername := "admin"
  const AdminEmail := "admin@example.com"

  /** The `UserCreate` of the admin user. */
  const AdminIn := UserCreate(AdminUsername, AdminEmail, true, "adminpassword")

  /** The table after seeding, the next id being `nextId`. */
  function Seed(rows: seq<Row>, nextId: int): (out: seq<Row>)
    ensures GetByUsername(out, AdminUsername).Some?
    ensures |rows| <= |out| <= |rows| + 1 && out[..|rows|] == rows
  {
    if GetByUsername(rows, AdminUsername).Some? then rows
    else
      var out := rows + [NewUserRow(AdminIn)["id" := Int(nextId)]];
      assert Matches(out[|rows|], "username", Str(AdminUsername));
      out
  }

  /** `init_db`: a check by username, then the repository's `create`. */
  method InitDb(t: Table)
    requires t.Valid()
    modifies t
    ensures t.Valid()
    ensures t.rows == Seed(old(t.rows), old(t.nextId))
    ensures GetByUsername(old(t.rows), AdminUsername).Some? ==> t.rows == old(t.rows)
    ensures t.nextId == if GetByUsername(old(t.rows), AdminUsername).Some? then old(t.nextId) else old(t.nextId) + 1
    ensures GetByUsername(t.rows, AdminUsername).Some?
  {
    var user := GetByUsername(t.rows, AdminUsername);
    if user.Some? {
      return;
    }
    var userIn := AdminIn;
    var created := Create(t, userIn);
    assert Matches(t.rows[|t.rows| - 1], "username", Str(AdminUsername));
  }

  // ---------------------------------------------------------------------
  // Lemmas

  /** The admin input passes `UserCreate` validation. */
  lemma AdminInputValid()
    ensures ParseUserCreate(UserCreateBody(AdminUsername, AdminEmail, Some(true), "adminpassword")) == Some(AdminIn)
  {
  }

  /** The seeded admin user: username "admin", email "admin@example.com",
      active, with stored password "adminpassword_hashed". */
  lemma SeededAdmin(rows: seq<Row>, nextId: int)
    requires GetByUsername(rows, AdminUsername).None?
    ensures var r := Seed(rows, nextId)[|rows|];
      && |Seed(rows, nextId)| == |rows| + 1
      && Seed(rows, nextId)[..|rows|] == rows
      && IsUserRow(r)
      && r["username"] == Str("admin") && r["email"] == Str("admin@example.com")
      && r["is_active"] == Bool(true) && r["hashed_password"] == Str("adminpassword_hashed")
  {
    var r := NewUserRow(AdminIn)["id" := Int(nextId)];
    assert r.Keys == UserColumns;
  }

  /** Seeding is idempotent: a second run, whatever the next id, leaves the
      table as the first run left it. */
  lemma SeedIdempotent(rows: seq<Row>, n: int, m: int)
    ensures Seed(Seed(rows, n), m) == Seed(rows, n)
  {
    var once := Seed(rows, n);
    if GetByUsername(rows, AdminUsername).None? {
      assert Matches(once[|rows|], "username", Str(AdminUsername));
    }
  }

  /** Seeding keeps usernames and emails unique when no stored user has the
      admin email. */
  lemma SeedKeepsUnique(rows: seq<Row>, nextId: int)
    requires UserTable(rows) && UniqueUsers(rows)
    requires GetByEmail(rows, AdminEmail).None?
    ensures UserTable(Seed(rows, nextId)) && UniqueUsers(Seed(rows, nextId))
  {
    if GetByUsername(rows, AdminUsername).None? {
      var r := NewUserRow(AdminIn)["id" := Int(nextId)];
      assert r.Keys == UserColumns;
      var out := rows + [r];
      assert out[|rows|] == r;
      forall i | 0 <= i < |rows|
        ensures out[i] == rows[i]
        ensures out[i]["username"] != r["username"] && out[i]["email"] != r["email"]
      {
        assert !Matches(rows[i], "username", Str(AdminUsername));
        assert !Matches(rows[i], "email", Str(AdminEmail));
      }
    }
  }

  /** The admin email is not checked: a stored user holding it under another
      username ends up sharing its email with the seeded admin. */
  lemma SeedEmailClash(rows: seq<Row>, nextId: int, i: int)
    requires UserTable(rows) && 0 <= i < |rows|
    requires GetByUsername(rows, AdminUsername).None?
    requires rows[i]["email"] == Str(AdminEmail)
    ensures UserTable(Seed(rows, nextId)) && !UniqueUsers(Seed(rows, nextId))
  {
    var r := NewUserRow(AdminIn)["id" := Int(nextId)];
    assert r.Keys == UserColumns;
    var out := rows + [r];
    assert out[i] == rows[i] && out[|rows|] == r;
    assert out[i]["email"] == out[|rows|]["email"];
  }
}
