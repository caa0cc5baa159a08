/** Identity and whitelist helpers (utils/authUtils.ts) over an abstract
    key-value store standing in for the browser's `localStorage`. */
module AuthUtils {
  import opened Common
  import opened Strings
  import opened Types

  /** What a key holds. `Text` is a raw string (the persisted device id);
      the records are the decoded JSON the program writes; `Unreadable` is
      anything that does not decode to the record its key expects. */
  datatype Value =
    | Text(text: string)
    | UserRecord(user: User)
    | WhitelistRecord(users: seq<WhitelistUser>)
    | Unreadable

  type Store = map<string, Value>

  const UserIdKey := "pollUserId"
  const CurrentUserKey := "currentUser"
  const WhitelistKey := "userWhitelist"

  /** The one hard-coded admin account. */
  const AdminUsername := "admin"
  const AdminPassword := "admin123"

  // ---------------------------------------------------------------- whitelist

  /** `getWhitelistedUsers`: the stored list, or [] when nothing is stored. */
  function GetWhitelistedUsers(store: Store): seq<WhitelistUser>
  {
    if WhitelistKey in store && store[WhitelistKey].WhitelistRecord? then store[WhitelistKey].users else []
  }

  /** `setWhitelistedUsers`: overwrites the whitelist key and nothing else. */
  function SetWhitelistedUsers(store: Store, users: seq<WhitelistUser>): (r: Store)
    ensures WhitelistKey in r
    ensures forall k :: k != WhitelistKey ==> (k in r <==> k in store) && (k in store ==> r[k] == store[k])
  {
    store[WhitelistKey := WhitelistRecord(users)]
  }

  /** Writing a whitelist and reading it back gives the same list. */
  lemma WhitelistRoundTrip(store: Store, users: seq<WhitelistUser>)
    ensures GetWhitelistedUsers(SetWhitelistedUsers(store, users)) == users
  {
  }

  /** An empty store has an empty whitelist. */
  lemma NoWhitelistIsEmpty(store: Store)
    requires WhitelistKey !in store
    ensures GetWhitelistedUsers(store) == []
  {
  }

  /** `user.email.toLowerCase() === email.toLowerCase()` for one entry. */
  predicate EmailMatches(u: WhitelistUser, email: string)
  {
    match EmailOf(u)
    case Some(e) => Lower(e) == Lower(email)
    case None => false
  }

  /** `whitelist.some(...)`, written as a scan. */
  function AnyEmailMatches(users: seq<WhitelistUser>, email: string): (r: bool)
    ensures r <==> exists i :: 0 <= i < |users| && EmailMatches(users[i], email)
  {
    if |users| == 0 then false
    else if EmailMatches(users[0], email) then true
    else
      var rest := AnyEmailMatches(users[1..], email);
      assert rest <==> exists i :: 1 <= i < |users| && EmailMatches(users[i], email) by {
        if rest {
          var i :| 0 <= i < |users[1..]| && EmailMatches(users[1..][i], email);
          assert users[i + 1] == users[1..][i];
        }
        if exists i :: 1 <= i < |users| && EmailMatches(users[i], email) {
          var i :| 1 <= i < |users| && EmailMatches(users[i], email);
          assert users[1..][i - 1] == users[i];
        }
      }
      rest
  }

  /** `isUserWhitelisted`: some stored entry's email equals `email` once both
      are lower-cased. */
  function IsUserWhitelisted(store: Store, email: string): (r: bool)
    ensures r <==> exists i ::
      && 0 <= i < |GetWhitelistedUsers(store)|
      && EmailOf(GetWhitelistedUsers(store)[i]).Some?
      && Lower(EmailOf(GetWhitelistedUsers(store)[i]).value) == Lower(email)
  {
    AnyEmailMatches(GetWhitelistedUsers(store), email)
  }

  lemma {:induction false} LowerIdempotent(s: string)
    ensures Lower(Lower(s)) == Lower(s)
  {
    var l := Lower(s);
    forall i | 0 <= i < |s| ensures LowerChar(l[i]) == l[i] {
    }
  }

  /** The check ignores the case of the queried address. */
  lemma WhitelistCaseInsensitive(store: Store, email: string)
    ensures IsUserWhitelisted(store, email) == IsUserWhitelisted(store, Lower(email))
  {
    LowerIdempotent(email);
  }

  // ------------------------------------------------------------------- admin

  /** `authenticateAdmin`: exact, case-sensitive comparison with the fixed
      credentials. */
  function AuthenticateAdmin(c: AdminCredentials): (r: bool)
    ensures r <==> c.username == "admin" && c.password == "admin123"
  {
    c.username == AdminUsername && c.password == AdminPassword
  }

  /** The comparison is case-sensitive: the user name "Admin" is refused. */
  lemma AdminCheckIsCaseSensitive()
    ensures !AuthenticateAdmin(AdminCredentials("Admin", AdminPassword))
    ensures !AuthenticateAdmin(AdminCredentials(AdminUsername, "ADMIN123"))
    ensures AuthenticateAdmin(AdminCredentials(AdminUsername, AdminPassword))
  {
    assert "Admin"[0] != AdminUsername[0];
    assert "ADMIN123"[0] != AdminPassword[0];
  }

  /** `isAdmin`. */
  predicate IsAdmin(u: User)
  {
    u.role == Admin
  }

  // ---------------------------------------------------------------- identity

  /** The persisted device id, when one is stored (an empty string is falsy
      and counts as none). */
  function PersistedId(store: Store): Option<string>
  {
    if UserIdKey in store && store[UserIdKey].Text? && store[UserIdKey].text != [] then Some(store[UserIdKey].text)
    else None
  }

  /** `getUserId`: the persisted id, or else `freshId` (the random id the
      source draws), which is then persisted. Only the id key may change. */
  function GetUserId(store: Store, freshId: string): (r: (string, Store))
    ensures PersistedId(store).Some? ==> r.0 == PersistedId(store).value && r.1 == store
    ensures PersistedId(store).None? ==> r.0 == freshId && UserIdKey in r.1 && r.1[UserIdKey] == Text(freshId)
    ensures forall k :: k != UserIdKey ==> (k in r.1 <==> k in store) && (k in store ==> r.1[k] == store[k])
  {
    match PersistedId(store)
    case Some(id) => (id, store)
    case None => (freshId, store[UserIdKey := Text(freshId)])
  }

  /** Once an id is issued (a non-empty one), later calls return it again and
      leave the store alone, whatever random id they would have drawn. */
  lemma GetUserIdStable(store: Store, freshId: string, laterId: string)
    requires freshId != []
    ensures var (id, s1) := GetUserId(store, freshId);
      PersistedId(s1) == Some(id) && GetUserId(s1, laterId) == (id, s1)
  {
  }

  /** The user with no session: a regular user carrying the device id. */
  function DefaultUser(id: string): User
  {
    User(id, Regular, None, None, None)
  }

  /** `getCurrentUser`: the stored user when one decodes, otherwise the
      default regular user with the id from `getUserId`. */
  function GetCurrentUser(store: Store, freshId: string): (r: (User, Store))
    ensures CurrentUserKey in store && store[CurrentUserKey].UserRecord? ==> r == (store[CurrentUserKey].user, store)
    ensures !(CurrentUserKey in store && store[CurrentUserKey].UserRecord?) ==>
      r.0.role == Regular && r.0.email == None && r.0.id == GetUserId(store, freshId).0 && r.1 == GetUserId(store, freshId).1
  {
    if CurrentUserKey in store && store[CurrentUserKey].UserRecord? then (store[CurrentUserKey].user, store)
    else
      var (id, s1) := GetUserId(store, freshId);
      (DefaultUser(id), s1)
  }

  /** `setCurrentUser`. */
  function SetCurrentUser(store: Store, u: User): (r: Store)
    ensures CurrentUserKey in r
    ensures forall k :: k != CurrentUserKey ==> (k in r <==> k in store) && (k in store ==> r[k] == store[k])
  {
    store[CurrentUserKey := UserRecord(u)]
  }

  /** Storing a user and reading it back gives the same user. */
  lemma CurrentUserRoundTrip(store: Store, u: User, freshId: string)
    ensures GetCurrentUser(SetCurrentUser(store, u), freshId) == (u, SetCurrentUser(store, u))
  {
  }

  /** `logout`: removes the session key and nothing else. */
  function Logout(store: Store): (r: Store)
    ensures CurrentUserKey !in r
    ensures forall k :: k != CurrentUserKey ==> (k in r <==> k in store) && (k in store ==> r[k] == store[k])
  {
    store - {CurrentUserKey}
  }

  /** After logging out the visitor is a regular user again, with the same
      persisted device id as before; the whitelist is untouched. */
  lemma LogoutKeepsDeviceId(store: Store, freshId: string)
    requires PersistedId(store).Some?
    ensures var (u, s1) := GetCurrentUser(Logout(store), freshId);
      u == DefaultUser(PersistedId(store).value) && s1 == Logout(store)
    ensures GetWhitelistedUsers(Logout(store)) == GetWhitelistedUsers(store)
  {
    assert PersistedId(Logout(store)) == PersistedId(store);
  }
}
