/** The profile handlers of a signed-in user: change the username, email or
    avatar, and change the password after confirming the current one. */
module UserController {
  import opened Common
  import opened Text
  import opened Schema
  import opened Http
  import opened Database
  import opened AuthController

  /** The position of the user with this id (`findById`). */
  function FindUser(users: seq<User>, id: Id): (r: Option<nat>)
    ensures r.Some? ==> r.value < |users| && users[r.value].id == id
    ensures r.None? <==> forall i :: 0 <= i < |users| ==> users[i].id != id
  {
    FirstIndex(users, (u: User) => u.id == id)
  }

  const UserNotFound: Response := Reply(404, "User not found")
  const UsernameInUse: Response := Reply(400, "Username already taken")
  const InternalError: Response := Reply(500, "Internal server error")

  /** The user after `updateProfile` has assigned the fields it was given: a
      field that is missing or empty keeps its old value, and nothing else
      (id, password, role, creation time) is touched. */
  function Patched(u: User, username: Option<string>, email: Option<string>, avatar: Option<string>): (v: User)
    ensures v.username == (if Truthy(username) then username.value else u.username)
    ensures v.email == (if Truthy(email) then email.value else u.email)
    ensures v.avatar == (if Truthy(avatar) then avatar else u.avatar)
    ensures v.id == u.id && v.password == u.password && v.role == u.role && v.createdAt == u.createdAt
  {
    u.(username := if Truthy(username) then username.value else u.username,
       email := if Truthy(email) then email.value else u.email,
       avatar := if Truthy(avatar) then avatar else u.avatar)
  }

  /** The assignments `updateProfile` makes, one field at a time. */
  method AssignFields(u: User, username: Option<string>, email: Option<string>, avatar: Option<string>)
    returns (v: User)
    ensures v == Patched(u, username, email, avatar)
  {
    v := u;
    if Truthy(username) {
      v := v.(username := username.value);
    }
    if Truthy(email) {
      v := v.(email := email.value);
    }
    if Truthy(avatar) {
      v := v.(avatar := avatar);
    }
  }

  /** Sending the same update twice changes nothing the second time. */
  lemma PatchedIdempotent(u: User, username: Option<string>, email: Option<string>, avatar: Option<string>)
    ensures Patched(Patched(u, username, email, avatar), username, email, avatar) == Patched(u, username, email, avatar)
  {
  }

  /** An update with nothing in it leaves the user as it was. */
  lemma EmptyPatchKeepsUser(u: User)
    ensures Patched(u, None, None, None) == u
    ensures Patched(u, Some(""), Some(""), Some("")) == u
  {
  }

  /** Some user other than the one at `k` has this email: the unique email
      index refuses the save. */
  predicate EmailHeldByOther(users: seq<User>, k: nat, email: string)
  {
    exists i :: 0 <= i < |users| && i != k && users[i].email == email
  }

  /** A username that is free, or is the user's own, is held by no other
      user: usernames are unique. */
  lemma UsernameHeldOnlyAt(users: seq<User>, k: nat, username: string)
    requires Pairwise(users, UserBefore) && k < |users|
    requires username == users[k].username || UsernameFree(users, username)
    ensures forall i :: 0 <= i < |users| && i != k ==> users[i].username != username
  {
    forall i | 0 <= i < |users| && i != k ensures users[i].username != username {
      if username == users[k].username {
        if i < k {
          assert UserBefore(users[i], users[k]);
        } else {
          assert UserBefore(users[k], users[i]);
        }
      }
    }
  }

  /** `updateProfile`: 404 for an unknown user; 400 when a new username
      differs from the current one and some user already has it; 500 when the
      save trips the unique email index; otherwise the supplied fields are
      assigned one by one and the profile is answered without the password. */
  method UpdateProfile(db: Store, userId: Id, username: Option<string>, email: Option<string>,
                       avatar: Option<string>) returns (r: Response)
    requires db.Valid()
    modifies db`users
    ensures db.Valid()
    ensures FindUser(old(db.users), userId).None? ==> r == UserNotFound && db.users == old(db.users)
    ensures FindUser(old(db.users), userId).Some? ==>
      var k := FindUser(old(db.users), userId).value;
      var u := old(db.users)[k];
      var v := Patched(u, username, email, avatar);
      && (Truthy(username) && username.value != u.username && !UsernameFree(old(db.users), username.value) ==>
            r == UsernameInUse && db.users == old(db.users))
      && (!(Truthy(username) && username.value != u.username && !UsernameFree(old(db.users), username.value))
          && EmailHeldByOther(old(db.users), k, v.email) ==>
            r == InternalError && db.users == old(db.users))
      && (!(Truthy(username) && username.value != u.username && !UsernameFree(old(db.users), username.value))
          && !EmailHeldByOther(old(db.users), k, v.email) ==>
            db.users == old(db.users)[k := v]
            && r == Response(200, "Profile updated successfully", UserProfile(ProfileOf(v)), KeepCookie))
  {
    var found := FindUser(db.users, userId);
    if found.None? {
      return UserNotFound;
    }
    var k := found.value;
    var user := db.users[k];
    if Truthy(username) && username.value != user.username && !UsernameFree(db.users, username.value) {
      return UsernameInUse;
    }
    user := AssignFields(user, username, email, avatar);
    if EmailHeldByOther(db.users, k, user.email) {
      return InternalError;
    }
    UsernameHeldOnlyAt(db.users, k, user.username);
    db.ReplaceUser(k, user);
    r := Response(200, "Profile updated successfully", UserProfile(ProfileOf(user)), KeepCookie);
  }

  /** Renaming oneself does not cost the session: after a successful update
      the user logs in under the username now stored, with the old password. */
  lemma LoginAfterRename(users: seq<User>, k: nat, username: Option<string>, email: Option<string>,
                         avatar: Option<string>, password: string)
    requires Pairwise(users, UserBefore) && k < |users|
    requires users[k].username != "" && password != "" && Compare(password, users[k].password)
    requires Truthy(username) && username.value != users[k].username ==> UsernameFree(users, username.value)
    requires !EmailHeldByOther(users, k, Patched(users[k], username, email, avatar).email)
    ensures var v := Patched(users[k], username, email, avatar);
      Login(users[k := v], Some(v.username), Some(password)).status == 200
  {
    var v := Patched(users[k], username, email, avatar);
    var after := users[k := v];
    UsernameHeldOnlyAt(users, k, v.username);
    var found := FirstIndex(after, (x: User) => x.username == v.username);
    assert after[k].username == v.username;
    assert found == Some(k);
  }

  // Changing the password

  const FieldsRequired: Response := Reply(400, "All fields are required")
  const NewPasswordTooShort: Response := Reply(400, "New password must be at least 6 characters long")
  const WrongCurrentPassword: Response := Reply(400, "Incorrect current password")
  const PasswordChanged: Response := Reply(200, "Password changed successfully")

  /** `changePassword`: both fields are required and the new password must
      have at least 6 characters, both checked before the user is looked up;
      then 404 for an unknown user and 400 when the current password does not
      match the stored hash. Otherwise the stored hash becomes the hash of the
      new password, and nothing else about the user changes. */
  method ChangePassword(db: Store, userId: Id, current: Option<string>, newPassword: Option<string>, salt: nat)
    returns (r: Response)
    requires db.Valid()
    modifies db`users
    ensures db.Valid()
    ensures !Truthy(current) || !Truthy(newPassword) ==> r == FieldsRequired && db.users == old(db.users)
    ensures Truthy(current) && Truthy(newPassword) && |newPassword.value| < 6 ==>
      r == NewPasswordTooShort && db.users == old(db.users)
    ensures Truthy(current) && Truthy(newPassword) && |newPassword.value| >= 6 && FindUser(old(db.users), userId).None? ==>
      r == UserNotFound && db.users == old(db.users)
    ensures Truthy(current) && Truthy(newPassword) && |newPassword.value| >= 6 && FindUser(old(db.users), userId).Some? ==>
      var k := FindUser(old(db.users), userId).value;
      && (!Compare(current.value, old(db.users)[k].password) ==>
            r == WrongCurrentPassword && db.users == old(db.users))
      && (Compare(current.value, old(db.users)[k].password) ==>
            r == PasswordChanged
            && db.users == old(db.users)[k := old(db.users)[k].(password := Hash(newPassword.value, salt))])
  {
    if !Truthy(current) || !Truthy(newPassword) {
      return FieldsRequired;
    }
    if |newPassword.value| < 6 {
      return NewPasswordTooShort;
    }
    var found := FindUser(db.users, userId);
    if found.None? {
      return UserNotFound;
    }
    var k := found.value;
    var user := db.users[k];
    if !Compare(current.value, user.password) {
      return WrongCurrentPassword;
    }
    user := user.(password := Hash(newPassword.value, salt));
    forall i | 0 <= i < |db.users| && i != k
      ensures db.users[i].username != user.username && db.users[i].email != user.email
    {
      if i < k {
        assert UserBefore(db.users[i], db.users[k]);
      } else {
        assert UserBefore(db.users[k], db.users[i]);
      }
    }
    db.ReplaceUser(k, user);
    r := PasswordChanged;
  }

  /** After a password change the new password logs in, and the old one no
      longer does unless bcrypt cannot tell the two apart (they share their
      first 72 characters). */
  lemma PasswordChangeSwitchesLogin(users: seq<User>, k: nat, oldPassword: string, newPassword: string, salt: nat)
    requires Pairwise(users, UserBefore) && k < |users|
    requires users[k].username != "" && oldPassword != "" && newPassword != ""
    ensures var after := users[k := users[k].(password := Hash(newPassword, salt))];
      && Login(after, Some(users[k].username), Some(newPassword)).status == 200
      && (BcryptKey(oldPassword) != BcryptKey(newPassword) ==>
            Login(after, Some(users[k].username), Some(oldPassword)) == InvalidCredentials)
  {
    var v := users[k].(password := Hash(newPassword, salt));
    var after := users[k := v];
    forall i, j | 0 <= i < j < |after| ensures UserBefore(after[i], after[j]) {
      assert UserBefore(users[i], users[j]);
    }
    assert after[k] == v;
    LoginSucceedsIff(after, k, newPassword);
    LoginSucceedsIff(after, k, oldPassword);
  }
}
