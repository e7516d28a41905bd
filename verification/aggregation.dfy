/** The derived mutations on a portfolio: view increment, like toggle and
    rating upsert. Each looks the portfolio up, computes the new field from
    the stored one and writes it back through `UpdatePortfolio`; an unknown
    portfolio id is silently ignored and nothing is written. */
module Aggregation {
  import opened Wrappers
  import opened Types
  import opened Seqs
  import opened Storage
  import opened PortfolioStore

  /** The like list after one toggle by `userId`: appended when absent,
      its first occurrence cut out when present. */
  function ToggledLikes(likes: seq<string>, userId: string): (r: seq<string>)
    ensures userId !in likes ==> r == likes + [userId]
    ensures userId in likes ==>
      |r| == |likes| - 1 && multiset(r) == multiset(likes) - multiset{userId}
    ensures userId in likes ==>
      exists k :: 0 <= k < |likes| && likes[k] == userId && userId !in likes[..k]
        && r == likes[..k] + likes[k + 1..]
    ensures forall x :: x != userId ==> (x in r <==> x in likes)
    ensures NoDup(likes) ==> NoDup(r) && (userId in r <==> userId !in likes)
  {
    var k := IndexOf(likes, userId);
    if k == -1 then
      likes + [userId]
    else
      RemoveAtMembership(likes, k);
      RemoveAt(likes, k)
  }

  /** Position of the first rating by `userId`, or -1. */
  function RatingIndex(rs: seq<Rating>, userId: string): (i: int)
    ensures -1 <= i < |rs|
    ensures i == -1 <==> forall j :: 0 <= j < |rs| ==> rs[j].userId != userId
    ensures 0 <= i ==> rs[i].userId == userId && forall j :: 0 <= j < i ==> rs[j].userId != userId
  {
    FindIndex(rs, (x: Rating) => x.userId == userId)
  }

  /** No two ratings come from the same user. */
  predicate UniqueRaters(rs: seq<Rating>) {
    forall i, j :: 0 <= i < j < |rs| ==> rs[i].userId != rs[j].userId
  }

  /** The ratings after `userId` rates `score`: the user's first entry gets
      the new score in place, or a new entry is appended. The score is taken
      as given: no range is checked. */
  function UpsertRating(rs: seq<Rating>, userId: string, score: int): (r: seq<Rating>)
    ensures var k := RatingIndex(rs, userId);
      0 <= k ==> |r| == |rs| && r[k] == Rating(userId, score)
                 && forall j :: 0 <= j < |rs| && j != k ==> r[j] == rs[j]
    ensures RatingIndex(rs, userId) == -1 ==> r == rs + [Rating(userId, score)]
    ensures Rating(userId, score) in r
    ensures UniqueRaters(rs) ==> UniqueRaters(r)
  {
    var k := RatingIndex(rs, userId);
    if k == -1 then rs + [Rating(userId, score)]
    else rs[k := rs[k].(score := score)]
  }

  /** The patch that sets only the view counter. */
  function ViewsPatch(views: int): PortfolioPatch {
    NoChange.(views := Some(views))
  }

  /** The patch that sets only the like list. */
  function LikesPatch(likes: seq<string>): PortfolioPatch {
    NoChange.(likes := Some(likes))
  }

  /** The patch that sets only the ratings. */
  function RatingsPatch(ratings: seq<Rating>): PortfolioPatch {
    NoChange.(ratings := Some(ratings))
  }

  /** Writes `patch` to the portfolio with id `id`, which the caller has just
      found; the store is unchanged if it is not there. */
  function ApplyFound(st: Store, id: string, patch: PortfolioPatch): Store {
    match UpdatePortfolio(st, id, patch)
    case Success((st', _)) => st'
    case Failure(_) => st
  }

  /** The portfolio at position `i` was replaced by `p'`, and nothing else in
      the store changed. */
  ghost predicate OnlyChanged(st: Store, st': Store, i: int, p': Portfolio) {
    var ps, ps' := LoadPortfolios(st), LoadPortfolios(st');
    && 0 <= i < |ps|
    && st'.portfoliosDoc.Some?
    && |ps'| == |ps|
    && ps'[i] == p'
    && (forall j :: 0 <= j < |ps| && j != i ==> ps'[j] == ps[j])
    && st'.usersDoc == st.usersDoc
    && st'.sessionDoc == st.sessionDoc
  }

  /** `incrementPortfolioView`: adds exactly one to the view counter of the
      portfolio, and changes nothing else. */
  function IncrementView(st: Store, id: string): (st': Store)
    ensures var ps := LoadPortfolios(st); var i := PortfolioIndex(ps, id);
      && (i == -1 ==> st' == st)
      && (0 <= i ==> OnlyChanged(st, st', i, ps[i].(views := ps[i].views + 1)))
  {
    match GetPortfolioById(st, id)
    case None => st
    case Some(p) => ApplyFound(st, id, ViewsPatch(p.views + 1))
  }

  /** `togglePortfolioLike`: flips `userId` in the portfolio's like list, and
      changes nothing else. */
  function ToggleLike(st: Store, id: string, userId: string): (st': Store)
    ensures var ps := LoadPortfolios(st); var i := PortfolioIndex(ps, id);
      && (i == -1 ==> st' == st)
      && (0 <= i ==> OnlyChanged(st, st', i, ps[i].(likes := ToggledLikes(ps[i].likes, userId))))
  {
    match GetPortfolioById(st, id)
    case None => st
    case Some(p) => ApplyFound(st, id, LikesPatch(ToggledLikes(p.likes, userId)))
  }

  /** `ratePortfolio`: records `userId`'s score in the portfolio's ratings,
      and changes nothing else. */
  function Rate(st: Store, id: string, userId: string, score: int): (st': Store)
    ensures var ps := LoadPortfolios(st); var i := PortfolioIndex(ps, id);
      && (i == -1 ==> st' == st)
      && (0 <= i ==> OnlyChanged(st, st', i, ps[i].(ratings := UpsertRating(ps[i].ratings, userId, score))))
  {
    match GetPortfolioById(st, id)
    case None => st
    case Some(p) => ApplyFound(st, id, RatingsPatch(UpsertRating(p.ratings, userId, score)))
  }

  /** Toggling twice from "not liked" restores the exact like list. */
  lemma ToggleTwiceFromUnliked(likes: seq<string>, userId: string)
    requires userId !in likes
    ensures ToggledLikes(ToggledLikes(likes, userId), userId) == likes
  {
    var once := likes + [userId];
    assert IndexOf(once, userId) == |likes| by {
      assert once[|likes|] == userId && once[..|likes|] == likes;
    }
    assert once[..|likes|] + once[|likes| + 1..] == likes;
  }

  /** Toggling twice from "liked" restores the set of likers of a
      duplicate-free list, but the user moves to the end of the list. */
  lemma ToggleTwiceFromLiked(likes: seq<string>, userId: string)
    requires NoDup(likes) && userId in likes
    ensures var twice := ToggledLikes(ToggledLikes(likes, userId), userId);
      && NoDup(twice)
      && multiset(twice) == multiset(likes)
      && twice[|twice| - 1] == userId
      && exists k :: 0 <= k < |likes| && likes[k] == userId && userId !in likes[..k]
           && twice == likes[..k] + likes[k + 1..] + [userId]
  {
    var once := ToggledLikes(likes, userId);
    var k := IndexOf(likes, userId);
    assert once == likes[..k] + likes[k + 1..];
    assert userId !in once;
    assert multiset(once) + multiset{userId} == multiset(likes);
  }

  /** The reordering is real: toggling twice need not restore the list. */
  lemma ToggleTwiceReorders()
    ensures ToggledLikes(ToggledLikes(["user-1", "user-2"], "user-1"), "user-1") == ["user-2", "user-1"]
  {
    var likes := ["user-1", "user-2"];
    assert IndexOf(likes, "user-1") == 0;
    assert ToggledLikes(likes, "user-1") == ["user-2"];
    assert "user-1" !in ["user-2"];
  }

  /** Rating twice is the same as rating once with the second score: the
      second call overwrites the entry the first one recorded. */
  lemma RateTwiceKeepsLast(rs: seq<Rating>, userId: string, s1: int, s2: int)
    ensures UpsertRating(UpsertRating(rs, userId, s1), userId, s2) == UpsertRating(rs, userId, s2)
    ensures |UpsertRating(UpsertRating(rs, userId, s1), userId, s2)| == |UpsertRating(rs, userId, s1)|
  {
    var once := UpsertRating(rs, userId, s1);
    var k := RatingIndex(rs, userId);
    if k == -1 {
      assert RatingIndex(once, userId) == |rs| by {
        assert once[|rs|].userId == userId;
        assert forall j :: 0 <= j < |rs| ==> once[j] == rs[j];
      }
    } else {
      assert RatingIndex(once, userId) == k by {
        assert once[k].userId == userId;
        assert forall j :: 0 <= j < k ==> once[j] == rs[j];
      }
    }
  }

  /** With one entry per user, after a rating the user has exactly one
      entry, holding the score just given. */
  lemma RateRecordsOneEntry(rs: seq<Rating>, userId: string, score: int)
    requires UniqueRaters(rs)
    ensures var r := UpsertRating(rs, userId, score);
      forall j :: 0 <= j < |r| && r[j].userId == userId ==> r[j] == Rating(userId, score)
  {
    var r := UpsertRating(rs, userId, score);
    var k :| 0 <= k < |r| && r[k] == Rating(userId, score);
    forall j | 0 <= j < |r| && r[j].userId == userId
      ensures r[j] == Rating(userId, score)
    {
      assert j == k;
    }
  }

  /** `n` consecutive view increments. */
  function IncrementViewTimes(st: Store, id: string, n: nat): Store
    decreases n
  {
    if n == 0 then st else IncrementView(IncrementViewTimes(st, id, n - 1), id)
  }

  /** `n` increments raise the counter by exactly `n` and change nothing
      else. */
  lemma {:induction false} IncrementViewTimesAddsN(st: Store, id: string, n: nat)
    ensures var ps := LoadPortfolios(st); var i := PortfolioIndex(ps, id);
      && (i == -1 ==> IncrementViewTimes(st, id, n) == st)
      && (0 <= i ==> OnlyChanged(st, IncrementViewTimes(st, id, n), i, ps[i].(views := ps[i].views + n)))
  {
    if n > 0 {
      IncrementViewTimesAddsN(st, id, n - 1);
      var mid := IncrementViewTimes(st, id, n - 1);
      var ps, pm := LoadPortfolios(st), LoadPortfolios(mid);
      var i := PortfolioIndex(ps, id);
      if 0 <= i {
        assert PortfolioIndex(pm, id) == i by {
          assert forall j :: 0 <= j < i ==> pm[j] == ps[j];
          assert pm[i].id == id;
        }
      }
    }
  }

  /** A change that keeps the portfolio's id keeps where it is found. */
  lemma OnlyChangedKeepsIndex(st: Store, st': Store, i: int, p': Portfolio)
    requires OnlyChanged(st, st', i, p')
    requires PortfolioIndex(LoadPortfolios(st), p'.id) == i
    ensures PortfolioIndex(LoadPortfolios(st'), p'.id) == i
  {
    var ps, ps' := LoadPortfolios(st), LoadPortfolios(st');
    assert forall j :: 0 <= j < i ==> ps'[j] == ps[j];
  }

  /** Two changes of one position, the second restoring the original
      portfolio, give back the original store. */
  lemma OnlyChangedUndone(st: Store, mid: Store, end: Store, i: int, p': Portfolio)
    requires st.portfoliosDoc.Some?
    requires OnlyChanged(st, mid, i, p')
    requires OnlyChanged(mid, end, i, LoadPortfolios(st)[i])
    ensures end == st
  {
    var ps, pe := LoadPortfolios(st), LoadPortfolios(end);
    assert forall j :: 0 <= j < |ps| ==> pe[j] == ps[j];
    assert pe == ps;
  }

  /** Liking and then un-liking a portfolio the user had not liked leaves
      the whole store exactly as it was. */
  lemma ToggleLikeTwiceFromUnliked(st: Store, id: string, userId: string)
    requires forall p :: p in LoadPortfolios(st) && p.id == id ==> userId !in p.likes
    ensures ToggleLike(ToggleLike(st, id, userId), id, userId) == st
  {
    var ps := LoadPortfolios(st);
    var i := PortfolioIndex(ps, id);
    if 0 <= i {
      var mid := ToggleLike(st, id, userId);
      var once := ps[i].(likes := ToggledLikes(ps[i].likes, userId));
      OnlyChangedKeepsIndex(st, mid, i, once);
      ToggleTwiceFromUnliked(ps[i].likes, userId);
      OnlyChangedUndone(st, mid, ToggleLike(mid, id, userId), i, once);
    }
  }
}
