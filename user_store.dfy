/** The `users` table and the statements `UserDAO` runs against it, as an
    in-memory table. `username` is unique; `id` is assigned on insert. */
module UserStore {
  import opened Wrappers
  import opened Entities

  predicate HasUsername(rows: seq<User>, username: string)
  {
    exists i :: 0 <= i < |rows| && rows[i].username == username
  }

  /** The unique constraint on `username`. */
  predicate UniqueUsernames(rows: seq<User>)
  {
    forall i, j :: 0 <= i < j < |rows| ==> rows[i].username != rows[j].username
  }

  /** `SELECT ... FROM users WHERE username = ?`, first row of the result. */
  function RowWithUsername(rows: seq<User>, username: string): (r: Option<User>)
    ensures r.Some? ==> r.value in rows && r.value.username == username
    ensures r.None? <==> !HasUsername(rows, username)
  {
    if rows == [] then None
    else if rows[0].username == username then Some(rows[0])
    else
      var r := RowWithUsername(rows[1..], username);
      assert HasUsername(rows[1..], username) ==> HasUsername(rows, username) by {
        if HasUsername(rows[1..], username) {
          var i :| 0 <= i < |rows[1..]| && rows[1..][i].username == username;
          assert rows[i + 1].username == username;
        }
      }
      r
  }

  /** What `findUserByUsername` returns: the lookup, or null when the query
      throws. */
  function UserQuery(rows: seq<User>, username: string, dbError: bool): Option<User>
  {
    if dbError then None else RowWithUsername(rows, username)
  }

  /** Under the unique constraint the row with a given username is the one
      the query finds. */
  lemma RowWithUsernameIsTheRow(rows: seq<User>, i: int)
    requires UniqueUsernames(rows)
    requires 0 <= i < |rows|
    ensures RowWithUsername(rows, rows[i].username) == Some(rows[i])
  {
  }

  /** A row appended under a fresh username is what a lookup of that
      username finds afterwards. */
  lemma {:induction false} RowWithUsernameAfterAppend(rows: seq<User>, u: User)
    requires !HasUsername(rows, u.username)
    ensures RowWithUsername(rows + [u], u.username) == Some(u)
  {
    if rows != [] {
      assert (rows + [u])[1..] == rows[1..] + [u];
      assert !HasUsername(rows[1..], u.username) by {
        forall j | 0 <= j < |rows[1..]| ensures rows[1..][j].username != u.username {
          assert rows[1..][j] == rows[j + 1];
        }
      }
      assert rows[0].username != u.username;
      RowWithUsernameAfterAppend(rows[1..], u);
    }
  }

  /** Appending a row leaves the lookup of every other username as it was. */
  lemma {:induction false} RowWithUsernameOtherAfterAppend(rows: seq<User>, u: User, username: string)
    requires username != u.username
    ensures RowWithUsername(rows + [u], username) == RowWithUsername(rows, username)
  {
    if rows != [] {
      assert (rows + [u])[1..] == rows[1..] + [u];
      RowWithUsernameOtherAfterAppend(rows[1..], u, username);
    }
  }

  /** The user table behind `UserDAO`. */
  class UserDao {
    var rows: seq<User>
    /** The next value of the id sequence. */
    var nextId: int

    ghost predicate Valid()
      reads this
    {
      && UniqueUsernames(rows)
      && forall i :: 0 <= i < |rows| ==> rows[i].id < nextId
    }

    constructor ()
      ensures Valid() && rows == [] && nextId == 1
    {
      rows := [];
      nextId := 1;
    }

    /** `registerUser`: `INSERT INTO users` of one row with a fresh id and the
        given fields, the password verbatim, unless the username is taken
        (unique violation) or the statement fails. */
    method RegisterUser(user: User, dbError: bool) returns (ok: bool)
      requires Valid()
      modifies this
      ensures Valid()
      ensures ok == (!dbError && !HasUsername(old(rows), user.username))
      ensures rows == if ok
        then old(rows) + [user.(id := old(nextId))]
        else old(rows)
      ensures ok ==> RowWithUsername(rows, user.username) == Some(user.(id := old(nextId)))
      ensures forall name :: name != user.username ==>
        RowWithUsername(rows, name) == RowWithUsername(old(rows), name)
      ensures nextId >= old(nextId)
    {
      if dbError || RowWithUsername(rows, user.username).Some? {
        return false;
      }
      var row := user.(id := nextId);
      RowWithUsernameAfterAppend(rows, row);
      forall name | name != row.username
        ensures RowWithUsername(rows + [row], name) == RowWithUsername(rows, name)
      {
        RowWithUsernameOtherAfterAppend(rows, row, name);
      }
      rows := rows + [row];
      nextId := nextId + 1;
      ok := true;
    }

    /** `findUserByUsername`: the row with that username, or null. */
    method FindUserByUsername(username: string, dbError: bool) returns (r: Option<User>)
      ensures r == UserQuery(rows, username, dbError)
      ensures r.Some? ==> !dbError && r.value in rows && r.value.username == username
      ensures r.None? ==> dbError || !HasUsername(rows, username)
    {
      if dbError {
        return None;
      }
      r := RowWithUsername(rows, username);
    }
  }
}
