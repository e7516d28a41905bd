/** The session: a snapshot of the logged-in user, stored under its own key
    without the password. It is a copy taken at login and is not kept in step
    with later edits of the user. */
module Session {
  import opened Wrappers
  import opened Types
  import opened Seqs
  import opened Storage
  import opened UserStore

  /** The user as the session stores it: everything but the password. */
  function Snapshot(u: User): (s: User)
    ensures s.password.None?
    ensures s.id == u.id && s.username == u.username && s.fullName == u.fullName && s.role == u.role
  {
    u.(password := None)
  }

  /** Position of the first user with this username, or -1. */
  function UsernameIndex(us: seq<User>, username: string): (i: int)
    ensures -1 <= i < |us|
    ensures i == -1 <==> forall j :: 0 <= j < |us| ==> us[j].username != username
    ensures 0 <= i ==> us[i].username == username && forall j :: 0 <= j < i ==> us[j].username != username
  {
    FindIndex(us, (u: User) => u.username == username)
  }

  /** `login`: only the first user with the given username is considered; it
      succeeds exactly when that user has a password equal to the given one
      (a user without a password never logs in). On success the snapshot is
      stored as the session and returned. */
  function Login(st: Store, username: string, password: string): (r: Result<(Store, User), StoreError>)
    ensures var us := LoadUsers(st); var i := UsernameIndex(us, username);
      r.Success? <==> 0 <= i && us[i].password == Some(password)
    ensures r.Failure? ==> r.error == InvalidCredentials
    ensures r.Success? ==>
      var (st', snap) := r.value;
      var us := LoadUsers(st);
      && snap == Snapshot(us[UsernameIndex(us, username)])
      && st'.sessionDoc == Some(snap)
      && st'.usersDoc == st.usersDoc
      && st'.portfoliosDoc == st.portfoliosDoc
  {
    var found := Find(LoadUsers(st), (u: User) => u.username == username);
    if found.Some? && found.value.password == Some(password) then
      var snap := Snapshot(found.value);
      Success((st.(sessionDoc := Some(snap)), snap))
    else
      Failure(InvalidCredentials)
  }

  /** `logout`: removes the session key, whether or not it was set. */
  function Logout(st: Store): (st': Store)
    ensures st'.sessionDoc.None?
    ensures st'.usersDoc == st.usersDoc && st'.portfoliosDoc == st.portfoliosDoc
  {
    st.(sessionDoc := None)
  }

  /** `getCurrentUser`: the stored snapshot, or nothing. */
  function GetCurrentUser(st: Store): Option<User> {
    st.sessionDoc
  }

  /** After a successful login the current user is the returned snapshot,
      which carries no password; after logout there is no current user. */
  lemma LoginLogoutCurrentUser(st: Store, username: string, password: string)
    ensures Login(st, username, password).Success? ==>
      var (st', snap) := Login(st, username, password).value;
      GetCurrentUser(st') == Some(snap) && snap.password.None?
    ensures GetCurrentUser(Logout(st)) == None
  {
  }

  /** Logging in with the stored password of the first user holding a
      username succeeds, and the session then holds that user's snapshot. */
  lemma LoginSucceedsForStoredPassword(st: Store, i: nat)
    requires i < |LoadUsers(st)|
    requires LoadUsers(st)[i].password.Some?
    requires forall j :: 0 <= j < i ==> LoadUsers(st)[j].username != LoadUsers(st)[i].username
    ensures var u := LoadUsers(st)[i];
      Login(st, u.username, u.password.value).Success?
    ensures var u := LoadUsers(st)[i];
      GetCurrentUser(Login(st, u.username, u.password.value).value.0) == Some(Snapshot(u))
  {
    var us := LoadUsers(st);
    assert UsernameIndex(us, us[i].username) == i;
  }

  /** The session is a disconnected snapshot: updating any user, including
      the logged-in one, leaves the current user as it was. */
  lemma UpdateUserKeepsSession(st: Store, id: string, patch: UserPatch)
    requires UpdateUser(st, id, patch).Success?
    ensures GetCurrentUser(UpdateUser(st, id, patch).value.0) == GetCurrentUser(st)
  {
  }

  /** A user just created with a password can log in with it: the username
      was free, so the new user is the first one holding it. */
  lemma CreateThenLogin(st: Store, data: UserDraft, newId: string, password: string)
    requires data.password == Some(password)
    requires CreateUser(st, data, newId).Success?
    ensures var (st1, nu) := CreateUser(st, data, newId).value;
      && Login(st1, data.username, password).Success?
      && Login(st1, data.username, password).value.1 == Snapshot(nu)
  {
    var (st1, nu) := CreateUser(st, data, newId).value;
    var us, us1 := LoadUsers(st), LoadUsers(st1);
    assert UsernameIndex(us1, data.username) == |us| by {
      forall j | 0 <= j < |us|
        ensures us1[j].username != data.username
      {
        assert us1[j] == us[j] && us[j] in us;
      }
    }
  }
}
