/**
 The in-memory account store behind the signup and login endpoints: a list
 of users, each with a salted password derivation.
 */
module Accounts {
  import opened Wrappers

  /**
   The salted key derivation. As a constructor it is injective and reveals
   nothing else: two derivations agree exactly when password and salt agree.
   */
  datatype Derived = Scrypt(password: string, salt: string)

  /** What the store keeps instead of the password: the derived key and its salt. */
  datatype StoredPassword = StoredPassword(key: Derived, salt: string)

  datatype User = User(username: string, password: StoredPassword)

  /** A JSON request field: missing, or present with some string value. */
  type Field = Option<string>

  datatype SignupBody = SignupBody(username: Field, password: Field, confirmPassword: Field)
  datatype LoginBody = LoginBody(username: Field, password: Field)

  /**
   The endpoint's answer: status 200 with a session cookie issued for
   `sessionUser`, or status 400 with an error message.
   */
  datatype Reply = Accepted(message: string, sessionUser: string) | Rejected(error: string)

  /** The store after a request together with the reply sent. */
  datatype Outcome = Outcome(users: seq<User>, reply: Reply)

  const MissingData := "Missing data"
  const MissingSignupFields := "Missing username, password, or confirm password"
  const PasswordsDiffer := "Passwords do not match"
  const UsernameTaken := "Username already exists"
  const MissingLoginFields := "Missing username or password"
  const UnknownUser := "User not found"
  const WrongPassword := "Incorrect password"
  const Created := "User created successfully"
  const LoggedIn := "User logged in successfully"

  /** JavaScript truthiness of a field: present and non-empty. */
  predicate Given(f: Field) {
    f.Some? && f.value != ""
  }

  /** No two users share a username. */
  predicate UniqueUsernames(users: seq<User>) {
    forall i, j :: 0 <= i < j < |users| ==> users[i].username != users[j].username
  }

  predicate HasUser(users: seq<User>, name: string) {
    exists i :: 0 <= i < |users| && users[i].username == name
  }

  /** `DATABASE.users.find(user => user.username === name)` */
  function FindUser(users: seq<User>, name: string): (r: Option<User>)
    ensures r.None? <==> !HasUser(users, name)
    ensures r.Some? ==> r.value.username == name
  {
    if |users| == 0 then None
    else if users[0].username == name then Some(users[0])
    else
      var r := FindUser(users[1..], name);
      assert HasUser(users[1..], name) ==> HasUser(users, name) by {
        if HasUser(users[1..], name) {
          var i :| 0 <= i < |users[1..]| && users[1..][i].username == name;
          assert users[i + 1] == users[1..][i];
        }
      }
      r
  }

  /** The user `find` returns is the first one with that name. */
  lemma {:induction false} FindUserIsFirst(users: seq<User>, name: string)
    requires HasUser(users, name)
    ensures exists i :: 0 <= i < |users| && users[i] == FindUser(users, name).value
                        && (forall k :: 0 <= k < i ==> users[k].username != name)
  {
    if users[0].username != name {
      var j :| 0 <= j < |users| && users[j].username == name;
      assert users[1..][j - 1] == users[j];
      FindUserIsFirst(users[1..], name);
      var i :| 0 <= i < |users[1..]| && users[1..][i] == FindUser(users[1..], name).value
        && forall k :: 0 <= k < i ==> users[1..][k].username != name;
      assert users[i + 1] == users[1..][i];
      assert forall k :: 1 <= k < i + 1 ==> users[k] == users[1..][k - 1];
    } else {
      assert users[0] == FindUser(users, name).value;
    }
  }

  /** `comparePasswords`: derive a key from the supplied password with the stored salt and compare. */
  predicate PasswordMatches(stored: StoredPassword, supplied: string) {
    Scrypt(supplied, stored.salt) == stored.key
  }

  /** `hashPassword` with the random salt given as a parameter. */
  function HashPassword(password: string, salt: string): (r: StoredPassword)
    ensures PasswordMatches(r, password)
    ensures forall other :: PasswordMatches(r, other) ==> other == password
  {
    StoredPassword(Scrypt(password, salt), salt)
  }

  /** A signup request that passed validation, waiting for its password to be hashed. */
  datatype PendingSignup = PendingSignup(username: string, password: string)

  /**
   The synchronous checks of the signup endpoint, in the order it makes them:
   body present, all three fields given, passwords equal, username free.
   */
  function CheckSignup(users: seq<User>, body: Option<SignupBody>): (r: Result<PendingSignup>)
    ensures body.None? ==> r == Err(MissingData)
    ensures body.Some? && !(Given(body.value.username) && Given(body.value.password) && Given(body.value.confirmPassword))
      ==> r == Err(MissingSignupFields)
    ensures body.Some? && Given(body.value.username) && Given(body.value.password) && Given(body.value.confirmPassword)
      && body.value.password != body.value.confirmPassword
      ==> r == Err(PasswordsDiffer)
    ensures body.Some? && Given(body.value.username) && Given(body.value.password) && Given(body.value.confirmPassword)
      && body.value.password == body.value.confirmPassword && HasUser(users, body.value.username.value)
      ==> r == Err(UsernameTaken)
    ensures r.Ok? <==>
      && body.Some?
      && Given(body.value.username) && Given(body.value.password) && Given(body.value.confirmPassword)
      && body.value.password == body.value.confirmPassword
      && !HasUser(users, body.value.username.value)
    ensures r.Ok? ==> r.value == PendingSignup(body.value.username.value, body.value.password.value)
  {
    if body.None? then Err(MissingData)
    else
      var b := body.value;
      if !(Given(b.username) && Given(b.password) && Given(b.confirmPassword)) then Err(MissingSignupFields)
      else if b.password != b.confirmPassword then Err(PasswordsDiffer)
      else if FindUser(users, b.username.value).Some? then Err(UsernameTaken)
      else Ok(PendingSignup(b.username.value, b.password.value))
  }

  /**
   The push as the endpoint writes it: it runs after `await hashPassword`, on
   whatever the store holds by then, and does not look at it again.
   */
  function CommitSignupAsWritten(users: seq<User>, p: PendingSignup, salt: string): (r: Outcome)
    ensures r.reply.Accepted?
    ensures |r.users| == |users| + 1 && r.users[..|users|] == users
    ensures r.users[|users|].username == p.username && PasswordMatches(r.users[|users|].password, p.password)
    ensures HasUser(users, p.username) ==> !UniqueUsernames(r.users)
  {
    Outcome(users + [User(p.username, HashPassword(p.password, salt))], Accepted(Created, p.username))
  }

  /**
   The push with the username check repeated against the store as it is at
   the moment of the push.
   */
  function CommitSignup(users: seq<User>, p: PendingSignup, salt: string): (r: Outcome)
    ensures HasUser(users, p.username) ==> r == Outcome(users, Rejected(UsernameTaken))
    ensures !HasUser(users, p.username) ==> r == CommitSignupAsWritten(users, p, salt)
    ensures UniqueUsernames(users) ==> UniqueUsernames(r.users)
  {
    if FindUser(users, p.username).Some? then Outcome(users, Rejected(UsernameTaken))
    else CommitSignupAsWritten(users, p, salt)
  }

  /** `POST /api/signup` handled without another request interleaving. */
  function Signup(users: seq<User>, body: Option<SignupBody>, salt: string): (r: Outcome)
    ensures r.reply.Rejected? ==> r.users == users
    ensures r.reply.Accepted? <==> CheckSignup(users, body).Ok?
    ensures CheckSignup(users, body).Err? ==> r == Outcome(users, Rejected(CheckSignup(users, body).message))
    ensures r.reply.Accepted? ==>
      r.users == users + [User(body.value.username.value, HashPassword(body.value.password.value, salt))]
    ensures UniqueUsernames(users) ==> UniqueUsernames(r.users)
  {
    match CheckSignup(users, body)
    case Err(e) => Outcome(users, Rejected(e))
    case Ok(p) => CommitSignup(users, p, salt)
  }

  /** Without interleaving the repeated check never fires: the corrected push is the written one. */
  lemma SequentialCommitAsWritten(users: seq<User>, body: Option<SignupBody>, salt: string)
    requires CheckSignup(users, body).Ok?
    ensures Signup(users, body, salt) == CommitSignupAsWritten(users, CheckSignup(users, body).value, salt)
  {
  }

  /**
   Two signups for the same name, both checked before either is pushed (each
   one is suspended in `await hashPassword`), leave the written store with
   that name twice, whatever the store held before.
   */
  lemma ConcurrentSignupsDuplicateAsWritten(users: seq<User>, body: Option<SignupBody>, s1: string, s2: string)
    requires CheckSignup(users, body).Ok?
    ensures var p := CheckSignup(users, body).value;
      var afterFirst := CommitSignupAsWritten(users, p, s1).users;
      var afterSecond := CommitSignupAsWritten(afterFirst, p, s2).users;
      && HasUser(afterFirst, p.username)
      && !UniqueUsernames(afterSecond)
  {
    var p := CheckSignup(users, body).value;
    var afterFirst := CommitSignupAsWritten(users, p, s1).users;
    assert afterFirst[|users|].username == p.username;
  }

  /** With the corrected push every interleaving keeps usernames unique: the second push is refused. */
  lemma ConcurrentSignupsRefusedWhenChecked(users: seq<User>, p1: PendingSignup, p2: PendingSignup, s1: string, s2: string)
    requires UniqueUsernames(users)
    requires p1.username == p2.username
    ensures var first := CommitSignup(users, p1, s1);
      var second := CommitSignup(first.users, p2, s2);
      UniqueUsernames(second.users)
      && (first.reply.Accepted? ==> second.reply == Rejected(UsernameTaken))
  {
    var first := CommitSignup(users, p1, s1);
    if first.reply.Accepted? {
      assert first.users[|users|].username == p2.username;
    }
  }

  /** `POST /api/login`; the store is left as it is. */
  function Login(users: seq<User>, body: Option<LoginBody>): (r: Reply)
    ensures body.None? ==> r == Rejected(MissingData)
    ensures body.Some? && !(Given(body.value.username) && Given(body.value.password)) ==> r == Rejected(MissingLoginFields)
    ensures r.Accepted? ==> r == Accepted(LoggedIn, body.value.username.value)
    ensures r.Accepted? ==> HasUser(users, body.value.username.value)
    ensures body.Some? && Given(body.value.username) && Given(body.value.password) ==>
      var found := FindUser(users, body.value.username.value);
      && (found.None? ==> r == Rejected(UnknownUser))
      && (found.Some? && !PasswordMatches(found.value.password, body.value.password.value) ==> r == Rejected(WrongPassword))
      && (found.Some? ==> (r.Accepted? <==> PasswordMatches(found.value.password, body.value.password.value)))
  {
    if body.None? then Rejected(MissingData)
    else
      var b := body.value;
      if !(Given(b.username) && Given(b.password)) then Rejected(MissingLoginFields)
      else
        match FindUser(users, b.username.value)
        case None => Rejected(UnknownUser)
        case Some(u) =>
          if !PasswordMatches(u.password, b.password.value) then Rejected(WrongPassword)
          else Accepted(LoggedIn, b.username.value)
  }

  /**
   With unique usernames a login succeeds exactly when the store holds that
   user with a key derived from the supplied password.
   */
  lemma LoginAcceptsIffStoredUserMatches(users: seq<User>, name: string, password: string)
    requires UniqueUsernames(users)
    requires name != "" && password != ""
    ensures Login(users, Some(LoginBody(Some(name), Some(password)))).Accepted? <==>
      exists i :: 0 <= i < |users| && users[i].username == name && PasswordMatches(users[i].password, password)
  {
    var found := FindUser(users, name);
    if found.Some? {
      FindUserIsFirst(users, name);
      var i :| 0 <= i < |users| && users[i] == found.value
        && forall k :: 0 <= k < i ==> users[k].username != name;
      forall j | 0 <= j < |users| && users[j].username == name ensures j == i { }
    }
  }

  /**
   Without unique usernames only the first user of a name can log in: in the
   store the written signup race leaves behind, the second "alice" is refused
   although its key matches.
   */
  lemma DuplicateUserCannotLogIn()
    ensures var users := [User("alice", HashPassword("pw1", "s1")), User("alice", HashPassword("pw2", "s2"))];
      && PasswordMatches(users[1].password, "pw2")
      && Login(users, Some(LoginBody(Some("alice"), Some("pw2")))) == Rejected(WrongPassword)
  {
    var users := [User("alice", HashPassword("pw1", "s1")), User("alice", HashPassword("pw2", "s2"))];
    assert FindUser(users, "alice") == Some(users[0]);
  }

  /**
   Round trip: right after a successful signup, logging in with the same
   password succeeds and with any other password fails.
   */
  lemma SignupThenLogin(users: seq<User>, name: string, password: string, other: string, salt: string)
    requires name != "" && password != "" && other != ""
    requires !HasUser(users, name)
    ensures var after := Signup(users, Some(SignupBody(Some(name), Some(password), Some(password))), salt);
      && after.reply == Accepted(Created, name)
      && Login(after.users, Some(LoginBody(Some(name), Some(password)))) == Accepted(LoggedIn, name)
      && (other != password ==> Login(after.users, Some(LoginBody(Some(name), Some(other)))) == Rejected(WrongPassword))
  {
    var after := Signup(users, Some(SignupBody(Some(name), Some(password), Some(password))), salt);
    var newUser := User(name, HashPassword(password, salt));
    assert after.users == users + [newUser];
    FindAfterAppend(users, newUser);
  }

  lemma {:induction false} FindAfterAppend(users: seq<User>, u: User)
    requires !HasUser(users, u.username)
    ensures FindUser(users + [u], u.username) == Some(u)
  {
    if |users| > 0 {
      assert (users + [u])[1..] == users[1..] + [u];
      assert !HasUser(users[1..], u.username) by {
        forall i | 0 <= i < |users[1..]| ensures users[1..][i].username != u.username {
          assert users[1..][i] == users[i + 1];
        }
      }
      FindAfterAppend(users[1..], u);
    }
  }
}
