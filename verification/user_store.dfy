/** The user store: lookup, and create / update / delete with the
    username-uniqueness check, the "blank password keeps the old one" rule and
    the last-administrator guard. Each operation reads the whole users
    document, changes it and writes it back. */
module UserStore {
  import opened Wrappers
  import opened Types
  import opened Seqs
  import opened Storage

  /** The fields of a new user: everything but the id. */
  datatype UserDraft = UserDraft(
    username: string,
    password: Option<string>,
    fullName: string,
    role: Role)

  /** A partial user update: each field is either supplied or left out. The id
      cannot be patched. */
  datatype UserPatch = UserPatch(
    username: Option<string>,
    password: Option<string>,
    fullName: Option<string>,
    role: Option<Role>)

  /** Position of the first user with the given id, or -1. */
  function UserIndex(us: seq<User>, id: string): (i: int)
    ensures -1 <= i < |us|
    ensures i == -1 <==> forall j :: 0 <= j < |us| ==> us[j].id != id
    ensures 0 <= i ==> us[i].id == id && forall j :: 0 <= j < i ==> us[j].id != id
  {
    FindIndex(us, (u: User) => u.id == id)
  }

  /** `getUserById`: the first user with the given id, if any. */
  function GetUserById(st: Store, id: string): (r: Option<User>)
    ensures r.None? <==> forall u :: u in LoadUsers(st) ==> u.id != id
    ensures r.Some? ==> r.value.id == id && r.value == LoadUsers(st)[UserIndex(LoadUsers(st), id)]
  {
    var us := LoadUsers(st);
    var i := UserIndex(us, id);
    if i == -1 then None else Some(us[i])
  }

  /** Some user already has this username (compared exactly). */
  predicate UsernameTaken(us: seq<User>, username: string) {
    exists u :: u in us && u.username == username
  }

  /** `createUser`: refuses a username that any user already has; otherwise
      appends the draft under the supplied fresh id and returns it. */
  function CreateUser(st: Store, data: UserDraft, newId: string): (r: Result<(Store, User), StoreError>)
    ensures r.Failure? <==> UsernameTaken(LoadUsers(st), data.username)
    ensures r.Failure? ==> r.error == DuplicateUsername
    ensures r.Success? ==>
      var (st', nu) := r.value;
      var us, us' := LoadUsers(st), LoadUsers(st');
      && nu == User(newId, data.username, data.password, data.fullName, data.role)
      && |us'| == |us| + 1
      && us'[..|us|] == us
      && us'[|us|] == nu
      && st'.portfoliosDoc == st.portfoliosDoc
      && st'.sessionDoc == st.sessionDoc
  {
    var us := LoadUsers(st);
    if UsernameTaken(us, data.username) then
      Failure(DuplicateUsername)
    else
      var nu := User(newId, data.username, data.password, data.fullName, data.role);
      assert (us + [nu])[..|us|] == us;
      Success((SaveUsers(st, us + [nu]), nu))
  }

  /** The shallow merge of a patch into a user: every supplied field replaces
      the stored one, the id is kept, and a supplied empty password is dropped
      from the patch first, so it keeps the stored password. */
  function MergeUser(u: User, patch: UserPatch): (r: User)
    ensures r.id == u.id
    ensures r.username == (if patch.username.Some? then patch.username.value else u.username)
    ensures r.fullName == (if patch.fullName.Some? then patch.fullName.value else u.fullName)
    ensures r.role == (if patch.role.Some? then patch.role.value else u.role)
    ensures patch.password.None? || patch.password == Some("") ==> r.password == u.password
    ensures patch.password.Some? && patch.password != Some("") ==> r.password == patch.password
  {
    var password := if patch.password == Some("") then None else patch.password;
    User(u.id,
         patch.username.GetOr(u.username),
         if password.Some? then password else u.password,
         patch.fullName.GetOr(u.fullName),
         patch.role.GetOr(u.role))
  }

  /** The username check of `updateUser`: only a supplied, non-empty username
      is compared, and only against users with a different id. */
  predicate UsernameClash(us: seq<User>, id: string, patch: UserPatch) {
    && patch.username.Some?
    && patch.username.value != ""
    && exists u :: u in us && u.username == patch.username.value && u.id != id
  }

  /** `updateUser`: fails on an unknown id, then on a username clash;
      otherwise replaces the first user with that id by the merge and returns
      it. There is no role check, so the last administrator can be demoted. */
  function UpdateUser(st: Store, id: string, patch: UserPatch): (r: Result<(Store, User), StoreError>)
    ensures var us := LoadUsers(st);
      r.Failure? <==> UserIndex(us, id) == -1 || UsernameClash(us, id, patch)
    ensures r.Failure? ==>
      r.error == (if UserIndex(LoadUsers(st), id) == -1 then UserNotFound else DuplicateUsername)
    ensures r.Success? ==>
      var (st', u') := r.value;
      var us, us' := LoadUsers(st), LoadUsers(st');
      var i := UserIndex(us, id);
      && 0 <= i
      && |us'| == |us|
      && us'[i] == u' == MergeUser(us[i], patch)
      && u'.id == id
      && (forall j :: 0 <= j < |us| && j != i ==> us'[j] == us[j])
      && st'.portfoliosDoc == st.portfoliosDoc
      && st'.sessionDoc == st.sessionDoc
  {
    var us := LoadUsers(st);
    var i := UserIndex(us, id);
    if i == -1 then
      Failure(UserNotFound)
    else if UsernameClash(us, id, patch) then
      Failure(DuplicateUsername)
    else
      var u' := MergeUser(us[i], patch);
      Success((SaveUsers(st, us[i := u']), u'))
  }

  /** The number of administrators, as the delete guard counts them. */
  function AdminCount(us: seq<User>): (n: nat)
    ensures n <= |us|
    ensures n == 0 <==> forall u :: u in us ==> !IsAdmin(u)
    ensures forall a, b :: a in us && b in us && IsAdmin(a) && IsAdmin(b) && a != b ==> n >= 2
  {
    var admins := Filter(us, IsAdmin);
    assert forall a, b :: a in admins && b in admins && a != b ==> |admins| >= 2 by {
      if |admins| == 1 {
        assert forall x :: x in admins ==> x == admins[0];
      }
    }
    |admins|
  }

  /** The filter `deleteUser` keeps users by: an id other than `id`. */
  function OtherUserId(id: string): User -> bool {
    (u: User) => u.id != id
  }

  /** `deleteUser`: refuses when the first user with that id is an
      administrator and there is at most one administrator; otherwise removes
      every user with that id, keeping the others in order (`Seqs.Filter`). An unknown id leaves the collection as it was. */
  function DeleteUser(st: Store, id: string): (r: Result<Store, StoreError>)
    ensures var us := LoadUsers(st); var i := UserIndex(us, id);
      r.Failure? <==> 0 <= i && us[i].role == Admin && AdminCount(us) <= 1
    ensures r.Failure? ==> r.error == LastAdmin
    ensures r.Success? ==>
      var us, us' := LoadUsers(st), LoadUsers(r.value);
      && us' == Filter(us, OtherUserId(id))
      && (forall u :: u in us' <==> u in us && u.id != id)
      && |us'| <= |us|
      && ((forall u :: u in us ==> u.id != id) ==> us' == us)
      && r.value.portfoliosDoc == st.portfoliosDoc
      && r.value.sessionDoc == st.sessionDoc
  {
    var us := LoadUsers(st);
    var target := GetUserById(st, id);
    if target.Some? && target.value.role == Admin && AdminCount(us) <= 1 then
      Failure(LastAdmin)
    else
      Success(SaveUsers(st, Filter(us, OtherUserId(id))))
  }

  /** Applying the same update twice has the effect of applying it once: the
      merge is idempotent and the second username check sees the same
      other users as the first. */
  lemma UpdateUserIdempotent(st: Store, id: string, patch: UserPatch)
    requires UpdateUser(st, id, patch).Success?
    ensures var (st1, u1) := UpdateUser(st, id, patch).value;
      UpdateUser(st1, id, patch) == Success((st1, u1))
  {
    var (st1, u1) := UpdateUser(st, id, patch).value;
    var us, us1 := LoadUsers(st), LoadUsers(st1);
    var i := UserIndex(us, id);
    assert UserIndex(us1, id) == i by {
      assert forall j :: 0 <= j < i ==> us1[j] == us[j];
    }
    assert !UsernameClash(us1, id, patch);
    assert us1[i := MergeUser(us1[i], patch)] == us1;
  }
}
