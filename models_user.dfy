/** The `users` table: the column set of `User`, the widths of its string
    columns and the uniqueness constraints on `username` and `email`. The
    timestamps `created_at` and `updated_at` are not part of this model. */
module UserModel {
  import opened Common
  import opened Crud

  const UsernameWidth := 50
  const EmailWidth := 100
  const HashedPasswordWidth := 100

  const UserColumns: set<string> := {"id", "username", "email", "hashed_password", "is_active"}

  /** A record of the `users` table: exactly the columns of `User`, each of
      its declared type and none of them NULL. */
  predicate IsUserRow(r: Row) {
    && r.Keys == UserColumns
    && r["id"].Int?
    && r["username"].Str?
    && r["email"].Str?
    && r["hashed_password"].Str?
    && r["is_active"].Bool?
  }

  predicate UserTable(rows: seq<Row>) {
    forall i :: 0 <= i < |rows| ==> IsUserRow(rows[i])
  }

  /** The `unique=True` constraints: no two users share a username or an email. */
  predicate UniqueUsers(rows: seq<Row>)
    requires UserTable(rows)
  {
    forall i, j :: 0 <= i < j < |rows| ==>
      rows[i]["username"] != rows[j]["username"] && rows[i]["email"] != rows[j]["email"]
  }

  /** The `String(50)`/`String(100)` widths of the text columns. */
  predicate FitsColumns(r: Row)
    requires IsUserRow(r)
  {
    && |r["username"].s| <= UsernameWidth
    && |r["email"].s| <= EmailWidth
    && |r["hashed_password"].s| <= HashedPasswordWidth
  }

  lemma UserRowHasId(r: Row)
    requires IsUserRow(r)
    ensures HasId(r)
  {
    assert "id" in UserColumns;
  }

  lemma UserTableHasIds(rows: seq<Row>)
    requires UserTable(rows)
    ensures AllHaveIds(rows)
  {
    forall i | 0 <= i < |rows|
      ensures HasId(rows[i])
    {
      UserRowHasId(rows[i]);
    }
  }

  /** Deleting a user keeps usernames and emails unique. */
  lemma {:induction false} DeleteKeepsUniqueUsers(rows: seq<Row>, id: int)
    requires UserTable(rows) && UniqueUsers(rows)
    ensures UserTable(Delete(rows, id)) && UniqueUsers(Delete(rows, id))
  {
    if rows != [] {
      var tail := rows[1..];
      assert UserTable(tail) && UniqueUsers(tail) by {
        forall i, j | 0 <= i < j < |tail|
          ensures tail[i]["username"] != tail[j]["username"] && tail[i]["email"] != tail[j]["email"]
        {
          assert tail[i] == rows[i + 1] && tail[j] == rows[j + 1];
        }
      }
      DeleteKeepsUniqueUsers(tail, id);
      var d := Delete(tail, id);
      if !(HasId(rows[0]) && IdOf(rows[0]) == id) {
        var out := [rows[0]] + d;
        assert out == Delete(rows, id);
        forall i, j | 0 <= i < j < |out|
          ensures out[i]["username"] != out[j]["username"] && out[i]["email"] != out[j]["email"]
        {
          assert out[j] == d[j - 1] && d[j - 1] in tail;
          if i > 0 {
            assert out[i] == d[i - 1];
          } else {
            var m :| 0 <= m < |tail| && tail[m] == d[j - 1];
            assert tail[m] == rows[m + 1];
          }
        }
      }
    }
  }
}
