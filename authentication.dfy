/** `AuthService`: registration, login and the session's logged-in user. */
module Authentication {
  import opened Wrappers
  import opened Entities
  import opened UserStore

  /** Some row of the table carries both this username and this password. */
  predicate HasCredentials(rows: seq<User>, username: string, password: string)
  {
    exists i :: 0 <= i < |rows| && rows[i].username == username && rows[i].password == password
  }

  class AuthService {
    const users: UserDao
    var loggedInUser: Option<User>

    /** The session only ever holds a user read from the table, and the
        table never loses rows. */
    ghost predicate Valid()
      reads this, users
    {
      users.Valid() && (loggedInUser.Some? ==> loggedInUser.value in users.rows)
    }

    constructor (users: UserDao)
      requires users.Valid()
      ensures Valid() && this.users == users && loggedInUser == None
    {
      this.users := users;
      loggedInUser := None;
    }

    /** `register`: the password is passed through as it is (no hashing) and
        the table's insert result is returned. */
    method Register(username: string, password: string, name: string, contactNumber: string,
                    email: string, address: string, dbError: bool) returns (ok: bool)
      requires Valid()
      modifies users
      ensures Valid()
      ensures ok == (!dbError && !HasUsername(old(users.rows), username))
      ensures users.rows == if ok
        then old(users.rows) + [User(old(users.nextId), username, password, name, contactNumber, email, address)]
        else old(users.rows)
      ensures ok ==> (RowWithUsername(users.rows, username) ==
        Some(User(old(users.nextId), username, password, name, contactNumber, email, address)))
      ensures loggedInUser == old(loggedInUser)
    {
      var hashedPassword := password;
      var newUser := User(UnassignedId, username, hashedPassword, name, contactNumber, email, address);
      ok := users.RegisterUser(newUser, dbError);
    }

    /** `login`: succeeds exactly when a row has this username and this
        password; the session then holds that row, and after a failure it
        holds nobody, whoever held it before. */
    method Login(username: string, password: string, dbError: bool) returns (r: Option<User>)
      requires Valid()
      modifies this
      ensures Valid()
      ensures r.Some? <==> !dbError && HasCredentials(users.rows, username, password)
      ensures r.Some? ==> r.value in users.rows && r.value.username == username && r.value.password == password
      ensures loggedInUser == r
    {
      var user := users.FindUserByUsername(username, dbError);
      assert !dbError && HasCredentials(users.rows, username, password) ==>
        user.Some? && user.value.password == password
      by {
        if !dbError && HasCredentials(users.rows, username, password) {
          var i :| 0 <= i < |users.rows| && users.rows[i].username == username && users.rows[i].password == password;
          RowWithUsernameIsTheRow(users.rows, i);
        }
      }
      if user.Some? {
        if password == user.value.password {
          loggedInUser := user;
          return user;
        }
      }
      loggedInUser := None;
      r := None;
    }

    /** `getLoggedInUser`: the session's user, a row of the table. */
    method GetLoggedInUser() returns (r: Option<User>)
      requires Valid()
      ensures r == loggedInUser
      ensures r.Some? ==> r.value in users.rows
    {
      r := loggedInUser;
    }

    /** `logout`: the session holds nobody. */
    method Logout()
      requires Valid()
      modifies this
      ensures Valid()
      ensures loggedInUser == None
    {
      loggedInUser := None;
    }
  }
}
