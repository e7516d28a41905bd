/** The invariants the data layer is meant to keep, and which operations keep
    them: unique user ids and usernames, at least one administrator, unique
    portfolio ids, duplicate-free likes and one rating per user. Two source
    behaviours break the user invariants and are exhibited here: an empty
    username skips the collision check, and an update can demote the last
    administrator. */
module Invariants {
  import opened Wrappers
  import opened Types
  import opened Seqs
  import opened Storage
  import opened UserStore
  import opened PortfolioStore
  import opened Aggregation

  predicate DifferentUserIds(a: User, b: User) {
    a.id != b.id
  }

  predicate DifferentUsernames(a: User, b: User) {
    a.username != b.username
  }

  predicate DifferentPortfolioIds(a: Portfolio, b: Portfolio) {
    a.id != b.id
  }

  ghost predicate UniqueUserIds(us: seq<User>) {
    Pairwise(us, DifferentUserIds)
  }

  ghost predicate UniqueUsernames(us: seq<User>) {
    Pairwise(us, DifferentUsernames)
  }

  ghost predicate HasAdmin(us: seq<User>) {
    exists u :: u in us && IsAdmin(u)
  }

  /** The user invariants, on the users document of a store. */
  ghost predicate UsersValid(st: Store) {
    var us := LoadUsers(st);
    UniqueUserIds(us) && UniqueUsernames(us) && HasAdmin(us)
  }

  predicate PortfolioWellFormed(p: Portfolio) {
    NoDup(p.likes) && UniqueRaters(p.ratings)
  }

  /** The portfolio invariants, on the portfolios document of a store. */
  ghost predicate PortfoliosValid(st: Store) {
    var ps := LoadPortfolios(st);
    Pairwise(ps, DifferentPortfolioIds) && forall p :: p in ps ==> PortfolioWellFormed(p)
  }

  /** Every portfolio's author id names a stored user. */
  ghost predicate AuthorsExist(st: Store) {
    forall p :: p in LoadPortfolios(st) ==> exists u :: u in LoadUsers(st) && u.id == p.authorId
  }

  // ---------------------------------------------------------------- users

  /** Creating a user under a fresh id keeps all user invariants, and the new
      user is then found by its id. */
  lemma CreateUserKeepsUsersValid(st: Store, data: UserDraft, newId: string)
    requires UsersValid(st)
    requires forall u :: u in LoadUsers(st) ==> u.id != newId
    requires CreateUser(st, data, newId).Success?
    ensures var (st', nu) := CreateUser(st, data, newId).value;
      UsersValid(st') && GetUserById(st', newId) == Some(nu)
  {
    var (st', nu) := CreateUser(st, data, newId).value;
    var us, us' := LoadUsers(st), LoadUsers(st');
    assert us' == us + [nu] by {
      assert us'[..|us|] == us;
    }
    forall i, j | 0 <= i < j < |us'|
      ensures DifferentUserIds(us'[i], us'[j]) && DifferentUsernames(us'[i], us'[j])
    {
      if j == |us| {
        assert us'[i] in us;
      } else {
        assert us'[i] == us[i] && us'[j] == us[j];
      }
    }
    var a :| a in us && IsAdmin(a);
    assert a in us';
    assert UserIndex(us', newId) == |us|;
  }

  /** An update never changes any user's id, so ids stay unique. */
  lemma UpdateUserKeepsIds(st: Store, id: string, patch: UserPatch)
    requires UniqueUserIds(LoadUsers(st))
    requires UpdateUser(st, id, patch).Success?
    ensures UniqueUserIds(LoadUsers(UpdateUser(st, id, patch).value.0))
  {
    var us, us' := LoadUsers(st), LoadUsers(UpdateUser(st, id, patch).value.0);
    forall i, j | 0 <= i < j < |us'|
      ensures DifferentUserIds(us'[i], us'[j])
    {
      assert us'[i].id == us[i].id && us'[j].id == us[j].id;
    }
  }

  /** With unique ids, an update whose username is not the empty string
      keeps usernames unique: the new name was checked against every user
      with another id. */
  lemma UpdateUserKeepsUsernames(st: Store, id: string, patch: UserPatch)
    requires UniqueUserIds(LoadUsers(st)) && UniqueUsernames(LoadUsers(st))
    requires patch.username != Some("")
    requires UpdateUser(st, id, patch).Success?
    ensures UniqueUsernames(LoadUsers(UpdateUser(st, id, patch).value.0))
  {
    var us, us' := LoadUsers(st), LoadUsers(UpdateUser(st, id, patch).value.0);
    var k := UserIndex(us, id);
    forall i, j | 0 <= i < j < |us'|
      ensures DifferentUsernames(us'[i], us'[j])
    {
      if i == k || j == k {
        var other := if i == k then j else i;
        assert us'[other] == us[other];
        if patch.username.Some? {
          assert DifferentUserIds(us[i], us[j]);
          assert us[other] in us;
        } else {
          assert DifferentUsernames(us[i], us[j]);
        }
      } else {
        assert us'[i] == us[i] && us'[j] == us[j];
      }
    }
  }

  /** An empty username skips the collision check but is still written, so
      two users can end up sharing the empty username. */
  lemma UpdateUserEmptyUsernameDuplicates()
    ensures var st := SaveUsers(EmptyStore, [
                        User("u1", "", Some("p"), "First", Admin),
                        User("u2", "b", Some("q"), "Second", Teacher)]);
            var r := UpdateUser(st, "u2", UserPatch(Some(""), None, None, None));
      && UsersValid(st)
      && r.Success?
      && !UniqueUsernames(LoadUsers(r.value.0))
  {
    var us := [User("u1", "", Some("p"), "First", Admin), User("u2", "b", Some("q"), "Second", Teacher)];
    var st := SaveUsers(EmptyStore, us);
    assert UserIndex(us, "u2") == 1;
    assert us[0] in us;
    var us' := LoadUsers(UpdateUser(st, "u2", UserPatch(Some(""), None, None, None)).value.0);
    assert !DifferentUsernames(us'[0], us'[1]);
  }

  /** `updateUser` has no role guard: the only administrator can be made a
      teacher, leaving no administrator. */
  lemma UpdateUserCanDemoteLastAdmin()
    ensures var st := SaveUsers(EmptyStore, [User("u1", "a", Some("a"), "Admin", Admin)]);
            var r := UpdateUser(st, "u1", UserPatch(None, None, None, Some(Teacher)));
      && UsersValid(st)
      && r.Success?
      && !HasAdmin(LoadUsers(r.value.0))
  {
    var us := [User("u1", "a", Some("a"), "Admin", Admin)];
    assert us[0] in us;
    assert UserIndex(us, "u1") == 0;
  }

  /** With unique ids, when every administrator has one given id there is
      at most one administrator. */
  lemma AdminsSharingIdAreOne(us: seq<User>, id: string)
    requires UniqueUserIds(us)
    requires forall a :: a in us && IsAdmin(a) ==> a.id == id
    ensures AdminCount(us) <= 1
  {
    forall i, j | 0 <= i < j < |us| && IsAdmin(us[i])
      ensures !IsAdmin(us[j])
    {
      assert us[i] in us && us[j] in us;
    }
    FilterAtMostOne(us, IsAdmin);
  }

  /** With unique ids, deleting never removes the last administrator: the
      guard refuses when the target is the only one, and otherwise an
      administrator with another id survives. */
  lemma DeleteUserKeepsAdmin(st: Store, id: string)
    requires UniqueUserIds(LoadUsers(st)) && HasAdmin(LoadUsers(st))
    requires DeleteUser(st, id).Success?
    ensures HasAdmin(LoadUsers(DeleteUser(st, id).value))
  {
    var us, us' := LoadUsers(st), LoadUsers(DeleteUser(st, id).value);
    if exists a :: a in us && IsAdmin(a) && a.id != id {
      var a :| a in us && IsAdmin(a) && a.id != id;
      assert a in us';
    } else {
      // every administrator has the deleted id: the guard would have refused
      AdminsSharingIdAreOne(us, id);
      assert false;
    }
  }

  /** The other half of the delete guard: an administrator can be deleted
      while a second administrator exists, and that one survives. */
  lemma DeleteAdminWithAnotherAdmin(st: Store, i: nat, j: nat)
    requires UniqueUserIds(LoadUsers(st))
    requires i < |LoadUsers(st)| && j < |LoadUsers(st)| && i != j
    requires IsAdmin(LoadUsers(st)[i]) && IsAdmin(LoadUsers(st)[j])
    ensures DeleteUser(st, LoadUsers(st)[i].id).Success?
    ensures var us' := LoadUsers(DeleteUser(st, LoadUsers(st)[i].id).value);
      LoadUsers(st)[i] !in us' && LoadUsers(st)[j] in us'
  {
    var us := LoadUsers(st);
    assert DifferentUserIds(us[i], us[j]) by {
      if i < j { assert DifferentUserIds(us[i], us[j]); }
      else { assert DifferentUserIds(us[j], us[i]); }
    }
    assert AdminCount(us) >= 2 by {
      assert us[i] in us && us[j] in us;
    }
  }

  /** Deleting users keeps ids and usernames unique: the survivors keep
      their order. */
  lemma DeleteUserKeepsUniqueness(st: Store, id: string)
    requires UniqueUserIds(LoadUsers(st)) && UniqueUsernames(LoadUsers(st))
    requires DeleteUser(st, id).Success?
    ensures var us' := LoadUsers(DeleteUser(st, id).value);
      UniqueUserIds(us') && UniqueUsernames(us')
  {
    var us := LoadUsers(st);
    FilterKeepsPairwise(us, OtherUserId(id), DifferentUserIds);
    FilterKeepsPairwise(us, OtherUserId(id), DifferentUsernames);
  }

  // ----------------------------------------------------------- portfolios

  /** Replacing one portfolio by a well-formed one with the same id and
      author keeps the portfolio invariants and the author references. */
  lemma OnlyChangedKeepsValid(st: Store, st': Store, i: int, p': Portfolio)
    requires PortfoliosValid(st)
    requires OnlyChanged(st, st', i, p')
    requires p'.id == LoadPortfolios(st)[i].id && PortfolioWellFormed(p')
    ensures PortfoliosValid(st')
    ensures AuthorsExist(st) && p'.authorId == LoadPortfolios(st)[i].authorId ==> AuthorsExist(st')
  {
    var ps, ps' := LoadPortfolios(st), LoadPortfolios(st');
    forall a, b | 0 <= a < b < |ps'|
      ensures DifferentPortfolioIds(ps'[a], ps'[b])
    {
      assert ps'[a].id == ps[a].id && ps'[b].id == ps[b].id;
    }
    forall q | q in ps'
      ensures PortfolioWellFormed(q)
    {
      var m :| 0 <= m < |ps'| && ps'[m] == q;
      if m != i {
        assert ps[m] in ps;
      }
    }
    if AuthorsExist(st) && p'.authorId == ps[i].authorId {
      forall q | q in ps'
        ensures exists u :: u in LoadUsers(st') && u.id == q.authorId
      {
        var m :| 0 <= m < |ps'| && ps'[m] == q;
        assert q.authorId == ps[m].authorId;
        assert ps[m] in ps;
      }
    }
  }

  /** View increments, like toggles and ratings keep the portfolio
      invariants (in particular no duplicate likes and one rating per user)
      and the author references. */
  lemma AggregationKeepsValid(st: Store, id: string, userId: string, score: int)
    requires PortfoliosValid(st)
    ensures PortfoliosValid(IncrementView(st, id))
    ensures PortfoliosValid(ToggleLike(st, id, userId))
    ensures PortfoliosValid(Rate(st, id, userId, score))
    ensures AuthorsExist(st) ==>
      AuthorsExist(IncrementView(st, id)) && AuthorsExist(ToggleLike(st, id, userId))
      && AuthorsExist(Rate(st, id, userId, score))
  {
    var ps := LoadPortfolios(st);
    var i := PortfolioIndex(ps, id);
    if 0 <= i {
      assert ps[i] in ps;
      OnlyChangedKeepsValid(st, IncrementView(st, id), i, ps[i].(views := ps[i].views + 1));
      OnlyChangedKeepsValid(st, ToggleLike(st, id, userId), i,
                            ps[i].(likes := ToggledLikes(ps[i].likes, userId)));
      OnlyChangedKeepsValid(st, Rate(st, id, userId, score), i,
                            ps[i].(ratings := UpsertRating(ps[i].ratings, userId, score)));
    }
  }

  /** An update keeps the portfolio invariants when the like list and the
      ratings it supplies, if any, are themselves well formed. */
  lemma UpdatePortfolioKeepsValid(st: Store, id: string, patch: PortfolioPatch)
    requires PortfoliosValid(st)
    requires patch.likes.Some? ==> NoDup(patch.likes.value)
    requires patch.ratings.Some? ==> UniqueRaters(patch.ratings.value)
    requires UpdatePortfolio(st, id, patch).Success?
    ensures PortfoliosValid(UpdatePortfolio(st, id, patch).value.0)
  {
    var ps := LoadPortfolios(st);
    var i := PortfolioIndex(ps, id);
    assert ps[i] in ps;
    OnlyChangedKeepsValid(st, UpdatePortfolio(st, id, patch).value.0, i, MergePortfolio(ps[i], patch));
  }

  /** A new portfolio under a fresh id keeps the portfolio invariants, and
      its author reference holds. */
  lemma CreatePortfolioKeepsValid(st: Store, data: PortfolioDraft, newId: string, createdAt: string)
    requires PortfoliosValid(st) && AuthorsExist(st)
    requires forall p :: p in LoadPortfolios(st) ==> p.id != newId
    requires CreatePortfolio(st, data, newId, createdAt).Success?
    ensures var st' := CreatePortfolio(st, data, newId, createdAt).value.0;
      PortfoliosValid(st') && AuthorsExist(st')
  {
    var (st', np) := CreatePortfolio(st, data, newId, createdAt).value;
    var ps, ps' := LoadPortfolios(st), LoadPortfolios(st');
    assert ps' == ps + [np] by {
      assert ps'[..|ps|] == ps;
    }
    forall a, b | 0 <= a < b < |ps'|
      ensures DifferentPortfolioIds(ps'[a], ps'[b])
    {
      if b == |ps| {
        assert ps'[a] in ps;
      } else {
        assert ps'[a] == ps[a] && ps'[b] == ps[b];
      }
    }
    assert GetUserById(st, data.authorId).value in LoadUsers(st');
  }

  /** Deleting portfolios keeps the portfolio invariants and the author
      references. */
  lemma DeletePortfolioKeepsValid(st: Store, id: string)
    requires PortfoliosValid(st)
    ensures PortfoliosValid(DeletePortfolio(st, id))
    ensures AuthorsExist(st) ==> AuthorsExist(DeletePortfolio(st, id))
  {
    FilterKeepsPairwise(LoadPortfolios(st), OtherPortfolioId(id), DifferentPortfolioIds);
  }

  /** The author reference is only checked at creation: deleting a user does
      not touch the portfolios, so an author can disappear. */
  lemma DeleteUserCanOrphanPortfolios(text: SeedText)
    ensures var st := InitializeData(EmptyStore, text);
            var r := DeleteUser(st, "user-2");
      && AuthorsExist(st)
      && r.Success?
      && !AuthorsExist(r.value)
  {
    var st := InitializeData(EmptyStore, text);
    SeedDataValid(text);
    var us := SeedUsers();
    assert UserIndex(us, "user-2") == 1;
    var ps := SeedPortfolios(text);
    assert ps[0] in LoadPortfolios(DeleteUser(st, "user-2").value);
  }

  // ----------------------------------------------------------------- seed

  /** The seeded users: one administrator, distinct ids and usernames. */
  lemma SeedUsersValid()
    ensures var us := SeedUsers();
      UniqueUserIds(us) && UniqueUsernames(us) && HasAdmin(us) && AdminCount(us) == 1
  {
    var us := SeedUsers();
    assert us[0] in us;
    assert Filter(us, IsAdmin) == [us[0]] by {
      assert Filter(us[2..], IsAdmin) == [];
      assert Filter(us[1..], IsAdmin) == [];
    }
  }

  /** A seeded user holds the id. */
  ghost predicate SeededId(x: string) {
    exists u :: u in SeedUsers() && u.id == x
  }

  /** The seeded portfolios: distinct ids, well formed, and every author,
      liker and rater is a seeded user. */
  lemma SeedPortfoliosValid(text: SeedText)
    ensures var ps := SeedPortfolios(text);
      && Pairwise(ps, DifferentPortfolioIds)
      && (forall p :: p in ps ==> PortfolioWellFormed(p))
      && (forall p :: p in ps ==> SeededId(p.authorId))
      && (forall p, x :: p in ps && x in p.likes ==> SeededId(x))
      && (forall p, x :: p in ps && x in p.ratings ==> SeededId(x.userId))
  {
    var us := SeedUsers();
    assert SeededId("user-1") && SeededId("user-2") && SeededId("user-3") by {
      assert us[0] in us && us[1] in us && us[2] in us;
    }
  }

  /** Seeding an empty store yields a store satisfying every invariant. */
  lemma SeedDataValid(text: SeedText)
    ensures var st := InitializeData(EmptyStore, text);
      UsersValid(st) && PortfoliosValid(st) && AuthorsExist(st)
  {
    SeedUsersValid();
    SeedPortfoliosValid(text);
  }

  // ----------------------------------------------------------- round trips

  /** Appending a user under a fresh id: the delete filter for that id
      gives back the old users. */
  lemma AppendFreshUser(us: seq<User>, nu: User)
    requires forall u :: u in us ==> u.id != nu.id
    ensures Filter(us + [nu], OtherUserId(nu.id)) == us
  {
    var keep := OtherUserId(nu.id);
    assert forall j :: 0 <= j < |us| ==> keep(us[j]) by {
      assert forall j :: 0 <= j < |us| ==> us[j] in us;
    }
    FilterAppend(us, nu, keep);
  }

  /** A user appended under a fresh id is the first user with that id. */
  lemma AppendFreshUserIndex(us: seq<User>, nu: User)
    requires forall u :: u in us ==> u.id != nu.id
    ensures UserIndex(us + [nu], nu.id) == |us|
  {
    var all := us + [nu];
    assert all[|us|] == nu;
    assert forall j :: 0 <= j < |us| ==> all[j] == us[j] && us[j] in us;
  }

  /** Appending a user adds one administrator exactly when it is one. */
  lemma AppendAdminCount(us: seq<User>, nu: User)
    ensures AdminCount(us + [nu]) == AdminCount(us) + (if IsAdmin(nu) then 1 else 0)
  {
    FilterAppend(us, nu, IsAdmin);
  }

  /** Creating a user under a fresh id and deleting that id gives back the
      user collection as it was, unless the new user is the only
      administrator, whom the delete guard then refuses to remove. */
  lemma CreateThenDeleteUser(st: Store, data: UserDraft, newId: string)
    requires forall u :: u in LoadUsers(st) ==> u.id != newId
    requires CreateUser(st, data, newId).Success?
    ensures var st1 := CreateUser(st, data, newId).value.0;
      if data.role == Admin && !HasAdmin(LoadUsers(st)) then
        DeleteUser(st1, newId) == Failure(LastAdmin)
      else
        && DeleteUser(st1, newId).Success?
        && LoadUsers(DeleteUser(st1, newId).value) == LoadUsers(st)
  {
    var (st1, nu) := CreateUser(st, data, newId).value;
    var us := LoadUsers(st);
    assert LoadUsers(st1) == us + [nu] by {
      assert LoadUsers(st1)[..|us|] == us;
    }
    AppendFreshUser(us, nu);
    AppendFreshUserIndex(us, nu);
    AppendAdminCount(us, nu);
  }
}
