/** The browser side of a session: the signed-in user the pages read, kept in
    step with the `blogUser` entry of local storage. The context starts from
    what storage holds, `updateUser` replaces the user, `logout` forgets it,
    and after every change the storage entry is rewritten or removed. JSON
    serialisation is a pair of functions given to the context. */
module Session {
  import opened Common
  import opened Http

  const StorageKey: string := "blogUser"

  /** The state initialiser: no entry, or an empty one, gives no user;
      otherwise whatever parsing the entry gives, with `None` when it does not
      parse. */
  function InitialUser(storage: map<string, string>, decode: string -> Option<Profile>): (u: Option<Profile>)
    ensures StorageKey !in storage || storage[StorageKey] == "" ==> u.None?
    ensures StorageKey in storage && storage[StorageKey] != "" ==> u == decode(storage[StorageKey])
  {
    if StorageKey in storage && storage[StorageKey] != "" then decode(storage[StorageKey]) else None
  }

  /** The effect that runs after each change of the user: the entry holds the
      serialised user when there is one and is absent otherwise. No other
      entry is touched. */
  function SyncStorage(user: Option<Profile>, storage: map<string, string>, encode: Profile -> string)
    : (s: map<string, string>)
    ensures user.Some? ==> StorageKey in s && s[StorageKey] == encode(user.value)
    ensures user.None? ==> StorageKey !in s
    ensures forall k :: k != StorageKey ==> (k in s <==> k in storage)
    ensures forall k :: k != StorageKey && k in s ==> s[k] == storage[k]
  {
    if user.Some? then storage[StorageKey := encode(user.value)] else storage - {StorageKey}
  }

  /** Running the effect twice writes nothing new. */
  lemma SyncIdempotent(user: Option<Profile>, storage: map<string, string>, encode: Profile -> string)
    ensures SyncStorage(user, SyncStorage(user, storage, encode), encode) == SyncStorage(user, storage, encode)
  {
  }

  /** A reload restores the session: what the effect stored, the initialiser
      reads back, provided parsing undoes serialising and a serialised user
      is never the empty string. */
  lemma ReloadRestoresUser(user: Option<Profile>, storage: map<string, string>,
                           encode: Profile -> string, decode: string -> Option<Profile>)
    requires user.Some? ==> decode(encode(user.value)) == user && encode(user.value) != ""
    ensures InitialUser(SyncStorage(user, storage, encode), decode) == user
  {
  }

  /** The context provider's state. */
  class AuthContext {
    var currentUser: Option<Profile>
    var storage: map<string, string>
    /** `JSON.stringify` on a user. */
    const encode: Profile -> string
    /** `JSON.parse`, `None` when it throws or gives no user. */
    const decode: string -> Option<Profile>

    /** Storage mirrors the user. */
    predicate Synced()
      reads this
    {
      && (currentUser.Some? ==> StorageKey in storage && storage[StorageKey] == encode(currentUser.value))
      && (currentUser.None? ==> StorageKey !in storage)
    }

    /** Mounting the provider: the user is read from storage, then the effect
        runs once. */
    constructor (storage: map<string, string>, encode: Profile -> string, decode: string -> Option<Profile>)
      ensures this.encode == encode && this.decode == decode
      ensures currentUser == InitialUser(storage, decode)
      ensures this.storage == SyncStorage(currentUser, storage, encode)
      ensures Synced()
    {
      this.encode := encode;
      this.decode := decode;
      var user := InitialUser(storage, decode);
      this.currentUser := user;
      this.storage := SyncStorage(user, storage, encode);
    }

    /** `updateUser`: the user is replaced wholesale, then the effect runs. */
    method UpdateUser(data: Option<Profile>)
      modifies this
      ensures currentUser == data
      ensures storage == SyncStorage(data, old(storage), encode)
      ensures Synced()
    {
      currentUser := data;
      storage := SyncStorage(currentUser, storage, encode);
    }

    /** `logout`: whatever the call to the server answered, the user is
        cleared, the entry removed, and the effect runs. */
    method Logout()
      modifies this
      ensures currentUser.None?
      ensures StorageKey !in storage
      ensures storage == old(storage) - {StorageKey}
      ensures Synced()
    {
      currentUser := None;
      storage := storage - {StorageKey};
      storage := SyncStorage(currentUser, storage, encode);
    }
  }

  /** Logging in, reloading the page, and starting a fresh context gives back
      the user who logged in. */
  method SessionSurvivesReload(ctx: AuthContext, user: Profile) returns (restored: Option<Profile>)
    requires ctx.decode(ctx.encode(user)) == Some(user) && ctx.encode(user) != ""
    modifies ctx
    ensures restored == Some(user)
  {
    ctx.UpdateUser(Some(user));
    var reloaded := new AuthContext(ctx.storage, ctx.encode, ctx.decode);
    restored := reloaded.currentUser;
  }
}
