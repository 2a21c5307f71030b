/** The account handlers: registration with its validation order and
    conflict classification, login with identical answers for an unknown user
    and a wrong password, and logout. */
module AuthController {
  import opened Common
  import opened Text
  import opened Schema
  import opened Http
  import opened Database

  // The email pattern

  /** `[^\s@]`: a character allowed inside each part of an address. */
  predicate EmailChar(c: char)
  {
    !IsJsSpace(c) && c != '@'
  }

  predicate EmailChars(s: string)
  {
    forall k :: 0 <= k < |s| ==> EmailChar(s[k])
  }

  /** `^[^\s@]+@[^\s@]+\.[^\s@]+$` read as written: a non-empty part, `@`, a
      non-empty part, `.`, a non-empty part, no part holding white space or
      `@`. */
  ghost predicate MatchesEmailPattern(s: string)
  {
    exists i, j :: 0 < i && i + 1 < j && j + 1 < |s| && s[i] == '@' && s[j] == '.'
      && EmailChars(s[..i]) && EmailChars(s[i + 1..j]) && EmailChars(s[j + 1..])
  }

  /** The same test as one scan would make it: no white space, exactly one
      `@`, not in first place, and a `.` after the character following it and
      before the last character. */
  predicate IsEmailShape(s: string)
  {
    && (forall k :: 0 <= k < |s| ==> !IsJsSpace(s[k]))
    && exists i :: (0 < i < |s| && s[i] == '@'
                    && (forall k :: 0 <= k < |s| && k != i ==> s[k] != '@')
                    && (exists j :: i + 1 < j < |s| - 1 && s[j] == '.'))
  }

  lemma EmailShapeMatchesPattern(s: string)
    ensures IsEmailShape(s) <==> MatchesEmailPattern(s)
  {
    if IsEmailShape(s) {
      ShapeMatchesPattern(s);
    }
    if MatchesEmailPattern(s) {
      PatternHasShape(s);
    }
  }

  lemma ShapeMatchesPattern(s: string)
    requires IsEmailShape(s)
    ensures MatchesEmailPattern(s)
  {
    var i :| 0 < i < |s| && s[i] == '@' && (forall k :: 0 <= k < |s| && k != i ==> s[k] != '@')
      && (exists j :: i + 1 < j < |s| - 1 && s[j] == '.');
    var j :| i + 1 < j < |s| - 1 && s[j] == '.';
    var local, host, last := s[..i], s[i + 1..j], s[j + 1..];
    assert EmailChars(local) by {
      forall k | 0 <= k < |local| ensures EmailChar(local[k]) { assert local[k] == s[k]; }
    }
    assert EmailChars(host) by {
      forall k | 0 <= k < |host| ensures EmailChar(host[k]) { assert host[k] == s[i + 1 + k]; }
    }
    assert EmailChars(last) by {
      forall k | 0 <= k < |last| ensures EmailChar(last[k]) { assert last[k] == s[j + 1 + k]; }
    }
  }

  lemma PatternHasShape(s: string)
    requires MatchesEmailPattern(s)
    ensures IsEmailShape(s)
  {
    var i, j :| 0 < i && i + 1 < j && j + 1 < |s| && s[i] == '@' && s[j] == '.'
      && EmailChars(s[..i]) && EmailChars(s[i + 1..j]) && EmailChars(s[j + 1..]);
    forall k | 0 <= k < |s| && k != i ensures s[k] != '@' && !IsJsSpace(s[k]) {
      if k < i {
        assert s[..i][k] == s[k];
      } else if k < j {
        assert s[i + 1..j][k - i - 1] == s[k];
      } else if k > j {
        assert s[j + 1..][k - j - 1] == s[k];
      }
    }
  }

  // Registration

  /** A field of the `details` object: `null` when the field was given, the
      message when it was not. */
  function MissingMessage(field: Option<string>, message: string): Option<string>
  {
    if Truthy(field) then None else Some(message)
  }

  const UsernameAndEmailTaken := "Username and email already exist"
  const EmailTaken := "Email already exists"
  const UsernameTaken := "Username already exists"

  /** Whether the field checks of `registerUser` pass: all three fields given,
      an email of the right shape, a password of at least 6 and a username of
      at least 3 characters. */
  ghost predicate FieldsAcceptable(username: Option<string>, email: Option<string>, password: Option<string>)
  {
    && Truthy(username) && Truthy(email) && Truthy(password)
    && MatchesEmailPattern(email.value) && |password.value| >= 6 && |username.value| >= 3
  }

  /** The answer `registerUser` gives before it writes anything, or `None`
      when it goes on to create the user. Each check runs only when the ones
      before it passed; the first failure is the answer. */
  function RegistrationRefusal(users: seq<User>, username: Option<string>, email: Option<string>,
                               password: Option<string>): (r: Option<Response>)
    ensures !Truthy(username) || !Truthy(email) || !Truthy(password) ==>
      r == Some(Response(400, "All fields are required",
        FieldDetails(MissingMessage(username, "Username is required"),
                     MissingMessage(email, "Email is required"),
                     MissingMessage(password, "Password is required")), KeepCookie))
    ensures Truthy(username) && Truthy(email) && Truthy(password) && !MatchesEmailPattern(email.value) ==>
      r == Some(Reply(400, "Invalid email format"))
    ensures Truthy(username) && Truthy(email) && Truthy(password) && MatchesEmailPattern(email.value)
            && |password.value| < 6 ==>
      r == Some(Reply(400, "Password must be at least 6 characters long"))
    ensures Truthy(username) && Truthy(email) && Truthy(password) && MatchesEmailPattern(email.value)
            && |password.value| >= 6 && |username.value| < 3 ==>
      r == Some(Reply(400, "Username must be at least 3 characters long"))
    ensures FieldsAcceptable(username, email, password) ==>
      (r.None? <==> UsernameFree(users, username.value) && EmailFree(users, email.value))
    ensures FieldsAcceptable(username, email, password) && r.Some? ==>
      && r.value.status == 400 && r.value.payload == NoPayload && r.value.cookie == KeepCookie
      && (r.value.message == UsernameAndEmailTaken ==>
            exists i :: 0 <= i < |users| && users[i].username == username.value && users[i].email == email.value)
      && (r.value.message == EmailTaken ==>
            exists i :: 0 <= i < |users| && users[i].username != username.value && users[i].email == email.value)
      && (r.value.message == UsernameTaken ==>
            exists i :: 0 <= i < |users| && users[i].username == username.value && users[i].email != email.value)
      && r.value.message in {UsernameAndEmailTaken, EmailTaken, UsernameTaken}
  {
    if !Truthy(username) || !Truthy(email) || !Truthy(password) then
      Some(Response(400, "All fields are required",
        FieldDetails(MissingMessage(username, "Username is required"),
                     MissingMessage(email, "Email is required"),
                     MissingMessage(password, "Password is required")), KeepCookie))
    else
      EmailShapeMatchesPattern(email.value);
      if !IsEmailShape(email.value) then Some(Reply(400, "Invalid email format"))
      else if |password.value| < 6 then Some(Reply(400, "Password must be at least 6 characters long"))
      else if |username.value| < 3 then Some(Reply(400, "Username must be at least 3 characters long"))
      else
        match FirstIndex(users, (x: User) => x.email == email.value || x.username == username.value)
        case None => None
        case Some(i) =>
          var existing := users[i];
          if existing.email == email.value && existing.username == username.value then
            Some(Reply(400, UsernameAndEmailTaken))
          else if existing.email == email.value then Some(Reply(400, EmailTaken))
          else Some(Reply(400, UsernameTaken))
  }

  /** `registerUser`: the refusals above, in their order; otherwise a new
      user with the next id, the standard role, no avatar and the bcrypt hash
      of the password (never the password itself), answered with 201 and only
      id, username and email. */
  method Register(db: Store, username: Option<string>, email: Option<string>, password: Option<string>,
                  salt: nat) returns (r: Response)
    requires db.Valid()
    modifies db
    ensures db.Valid()
    ensures db.posts == old(db.posts) && db.comments == old(db.comments) && db.categories == old(db.categories)
    ensures RegistrationRefusal(old(db.users), username, email, password).Some? ==>
      && r == RegistrationRefusal(old(db.users), username, email, password).value
      && db.users == old(db.users) && db.clock == old(db.clock)
    ensures RegistrationRefusal(old(db.users), username, email, password).None? ==>
      var u := User(old(db.clock), username.value, email.value, Hash(password.value, salt), Standard, None, old(db.clock));
      && db.users == old(db.users) + [u]
      && db.clock == old(db.clock) + 1
      && r == Response(201, "User registered successfully", UserSummary(u.id, u.username, u.email), KeepCookie)
  {
    var refusal := RegistrationRefusal(db.users, username, email, password);
    if !Truthy(username) || !Truthy(email) || !Truthy(password) {
      return refusal.value;
    }
    EmailShapeMatchesPattern(email.value);
    if !IsEmailShape(email.value) {
      return Reply(400, "Invalid email format");
    }
    if |password.value| < 6 {
      return Reply(400, "Password must be at least 6 characters long");
    }
    if |username.value| < 3 {
      return Reply(400, "Username must be at least 3 characters long");
    }
    if refusal.Some? {
      return refusal.value;
    }
    var u := User(db.clock, username.value, email.value, Hash(password.value, salt), Standard, None, db.clock);
    db.InsertUser(u);
    r := Response(201, "User registered successfully", UserSummary(u.id, u.username, u.email), KeepCookie);
  }

  function UpperChar(c: char): char
  {
    if 'a' <= c <= 'z' then (c as int - 32) as char else c
  }

  /** The answer to a duplicate-key error from the store: the offending
      field's name with its first letter capitalised, then " already exists". */
  function DuplicateKeyMessage(field: string): string
  {
    (if field == [] then [] else [UpperChar(field[0])] + field[1..]) + " already exists"
  }

  /** For the two unique fields, the store's duplicate-key answer says the
      same as the check that runs before the insert. */
  lemma DuplicateKeyAgreesWithCheck()
    ensures DuplicateKeyMessage("email") == EmailTaken
    ensures DuplicateKeyMessage("username") == UsernameTaken
  {
    DuplicateEmailMessage();
    DuplicateUsernameMessage();
  }

  lemma DuplicateEmailMessage()
    ensures DuplicateKeyMessage("email") == EmailTaken
  {
    assert UpperChar('e') == 'E' && "email"[1..] == "mail";
    assert ['E'] + "mail" + " already exists" == EmailTaken;
  }

  lemma DuplicateUsernameMessage()
    ensures DuplicateKeyMessage("username") == UsernameTaken
  {
    assert UpperChar('u') == 'U' && "username"[1..] == "sername";
    assert ['U'] + "sername" + " already exists" == UsernameTaken;
  }

  // Login

  /** One week in milliseconds: the cookie's lifetime, also handed to the
      token signer as `expiresIn`. */
  const WeekMs: nat := 1000 * 60 * 60 * 24 * 7

  const InvalidCredentials: Response := Reply(401, "Invalid credentials")

  /** `loginUser`: 400 without both fields; the same 401 for an unknown
      username as for a wrong password; otherwise 200, the profile without the
      password, and an http-only session cookie signed with id, username and
      role that lives one week. */
  function Login(users: seq<User>, username: Option<string>, password: Option<string>): (r: Response)
    ensures !Truthy(username) || !Truthy(password) ==> r == Reply(400, "Username and password are required")
    ensures Truthy(username) && Truthy(password) ==> r == InvalidCredentials || r.status == 200
    ensures Truthy(username) && Truthy(password) && UsernameFree(users, username.value) ==> r == InvalidCredentials
    ensures Truthy(username) && Truthy(password) &&
            (forall i :: 0 <= i < |users| && users[i].username == username.value ==>
               !Compare(password.value, users[i].password)) ==>
      r == InvalidCredentials
    ensures r.status == 200 ==>
      exists i :: (0 <= i < |users|
                   && users[i].username == username.value && Compare(password.value, users[i].password)
                   && r.payload == UserProfile(ProfileOf(users[i]))
                   && r.cookie == SetToken(Claims(users[i].id, users[i].username, users[i].role), WeekMs, WeekMs, true))
  {
    if !Truthy(username) || !Truthy(password) then Reply(400, "Username and password are required")
    else match FirstIndex(users, (u: User) => u.username == username.value)
      case None => InvalidCredentials
      case Some(i) =>
        var u := users[i];
        if !Compare(password.value, u.password) then InvalidCredentials
        else Response(200, "", UserProfile(ProfileOf(u)),
                      SetToken(Claims(u.id, u.username, u.role), WeekMs, WeekMs, true))
  }

  /** Registration then login: a user just added with the hash of a password
      logs in with that password, and the session carries the new user's id. */
  lemma LoginAfterRegister(users: seq<User>, u: User, password: string, salt: nat)
    requires UsernameFree(users, u.username)
    requires u.username != "" && password != "" && u.password == Hash(password, salt)
    ensures Login(users + [u], Some(u.username), Some(password)).status == 200
    ensures Login(users + [u], Some(u.username), Some(password)).cookie.SetToken?
    ensures Login(users + [u], Some(u.username), Some(password)).cookie.claims.id == u.id
  {
    var all := users + [u];
    var r := Login(all, Some(u.username), Some(password));
    assert all[|users|] == u;
    var k := FirstIndex(all, (x: User) => x.username == u.username);
    assert k == Some(|users|);
  }

  /** For a stored user, as long as usernames are unique, login succeeds
      exactly when bcrypt accepts the password against that user's hash; then
      the answer carries that user's profile and a token for that user. */
  lemma LoginSucceedsIff(users: seq<User>, k: nat, attempt: string)
    requires Pairwise(users, UserBefore) && k < |users|
    requires users[k].username != "" && attempt != ""
    ensures Login(users, Some(users[k].username), Some(attempt)).status == 200 <==> Compare(attempt, users[k].password)
    ensures !Compare(attempt, users[k].password) ==>
      Login(users, Some(users[k].username), Some(attempt)) == InvalidCredentials
    ensures Compare(attempt, users[k].password) ==>
      && Login(users, Some(users[k].username), Some(attempt)).payload == UserProfile(ProfileOf(users[k]))
      && Login(users, Some(users[k].username), Some(attempt)).cookie.SetToken?
      && Login(users, Some(users[k].username), Some(attempt)).cookie.claims.id == users[k].id
  {
    forall i | 0 <= i < |users| && i != k ensures users[i].username != users[k].username {
      if i < k {
        assert UserBefore(users[i], users[k]);
      } else {
        assert UserBefore(users[k], users[i]);
      }
    }
    var found := FirstIndex(users, (x: User) => x.username == users[k].username);
    assert found == Some(k);
  }

  /** `logoutUser`: always 200, and the session cookie is cleared. */
  function Logout(): (r: Response)
    ensures r.status == 200 && r.cookie == ClearToken
  {
    Response(200, "Logged out successfully", NoPayload, ClearToken)
  }
}
