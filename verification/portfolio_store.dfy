/** The portfolio store: lookup, create (which checks the author and fills in
    the derived fields), update (a shallow merge) and delete (which ignores an
    unknown id). */
module PortfolioStore {
  import opened Wrappers
  import opened Types
  import opened Seqs
  import opened Storage
  import opened UserStore

  /** The fields a caller supplies for a new portfolio; the id, author name,
      counters and timestamp are filled in by the store. */
  datatype PortfolioDraft = PortfolioDraft(
    authorId: string,
    title: string,
    description: string,
    category: Category,
    portfolioType: PortfolioType,
    coverImage: string,
    albumImages: seq<string>)

  /** A partial portfolio update: any field but the id, each supplied or not. */
  datatype PortfolioPatch = PortfolioPatch(
    authorId: Option<string>,
    authorName: Option<string>,
    title: Option<string>,
    description: Option<string>,
    category: Option<Category>,
    portfolioType: Option<PortfolioType>,
    coverImage: Option<string>,
    albumImages: Option<seq<string>>,
    views: Option<int>,
    likes: Option<seq<string>>,
    ratings: Option<seq<Rating>>,
    createdAt: Option<string>)

  /** The patch that supplies no field. */
  const NoChange := PortfolioPatch(None, None, None, None, None, None, None, None, None, None, None, None)

  /** Position of the first portfolio with the given id, or -1. */
  function PortfolioIndex(ps: seq<Portfolio>, id: string): (i: int)
    ensures -1 <= i < |ps|
    ensures i == -1 <==> forall j :: 0 <= j < |ps| ==> ps[j].id != id
    ensures 0 <= i ==> ps[i].id == id && forall j :: 0 <= j < i ==> ps[j].id != id
  {
    FindIndex(ps, (p: Portfolio) => p.id == id)
  }

  /** `getPortfolioById`: the first portfolio with the given id, if any. */
  function GetPortfolioById(st: Store, id: string): (r: Option<Portfolio>)
    ensures r.None? <==> forall p :: p in LoadPortfolios(st) ==> p.id != id
    ensures r.Some? ==> r.value.id == id && r.value == LoadPortfolios(st)[PortfolioIndex(LoadPortfolios(st), id)]
  {
    var ps := LoadPortfolios(st);
    var i := PortfolioIndex(ps, id);
    if i == -1 then None else Some(ps[i])
  }

  /** `createPortfolio`: fails when the author id resolves to no user;
      otherwise appends a portfolio carrying the draft's fields, the supplied
      fresh id and timestamp, the author's full name as it is now, no views,
      no likes and no ratings. */
  function CreatePortfolio(st: Store, data: PortfolioDraft, newId: string, createdAt: string)
    : (r: Result<(Store, Portfolio), StoreError>)
    ensures r.Failure? <==> forall u :: u in LoadUsers(st) ==> u.id != data.authorId
    ensures r.Failure? ==> r.error == AuthorNotFound
    ensures r.Success? ==>
      var (st', np) := r.value;
      var ps, ps' := LoadPortfolios(st), LoadPortfolios(st');
      var author := GetUserById(st, data.authorId).value;
      && np.id == newId
      && np.authorId == data.authorId
      && np.authorName == author.fullName
      && np.title == data.title && np.description == data.description
      && np.category == data.category && np.portfolioType == data.portfolioType
      && np.coverImage == data.coverImage && np.albumImages == data.albumImages
      && np.views == 0 && np.likes == [] && np.ratings == []
      && np.createdAt == createdAt
      && |ps'| == |ps| + 1
      && ps'[..|ps|] == ps
      && ps'[|ps|] == np
      && st'.usersDoc == st.usersDoc
      && st'.sessionDoc == st.sessionDoc
  {
    var ps := LoadPortfolios(st);
    var author :- GetUserById(st, data.authorId).ToResult(AuthorNotFound);
    var np := Portfolio(
      newId, data.authorId, author.fullName, data.title, data.description,
      data.category, data.portfolioType, data.coverImage, data.albumImages,
      0, [], [], createdAt);
    assert (ps + [np])[..|ps|] == ps;
    Success((SavePortfolios(st, ps + [np]), np))
  }

  /** The shallow merge of a patch into a portfolio: every supplied field
      replaces the stored one whole (lists are not merged element-wise), every
      other field and the id are kept. */
  function MergePortfolio(p: Portfolio, patch: PortfolioPatch): (r: Portfolio)
    ensures r.id == p.id
    ensures r.authorId == patch.authorId.GetOr(p.authorId)
    ensures r.authorName == patch.authorName.GetOr(p.authorName)
    ensures r.title == patch.title.GetOr(p.title)
    ensures r.description == patch.description.GetOr(p.description)
    ensures r.category == patch.category.GetOr(p.category)
    ensures r.portfolioType == patch.portfolioType.GetOr(p.portfolioType)
    ensures r.coverImage == patch.coverImage.GetOr(p.coverImage)
    ensures r.albumImages == patch.albumImages.GetOr(p.albumImages)
    ensures r.views == patch.views.GetOr(p.views)
    ensures r.likes == patch.likes.GetOr(p.likes)
    ensures r.ratings == patch.ratings.GetOr(p.ratings)
    ensures r.createdAt == patch.createdAt.GetOr(p.createdAt)
    ensures patch == NoChange ==> r == p
  {
    Portfolio(
      p.id,
      patch.authorId.GetOr(p.authorId),
      patch.authorName.GetOr(p.authorName),
      patch.title.GetOr(p.title),
      patch.description.GetOr(p.description),
      patch.category.GetOr(p.category),
      patch.portfolioType.GetOr(p.portfolioType),
      patch.coverImage.GetOr(p.coverImage),
      patch.albumImages.GetOr(p.albumImages),
      patch.views.GetOr(p.views),
      patch.likes.GetOr(p.likes),
      patch.ratings.GetOr(p.ratings),
      patch.createdAt.GetOr(p.createdAt))
  }

  /** `updatePortfolio`: fails on an unknown id; otherwise replaces the first
      portfolio with that id by the merge and returns it. */
  function UpdatePortfolio(st: Store, id: string, patch: PortfolioPatch)
    : (r: Result<(Store, Portfolio), StoreError>)
    ensures r.Failure? <==> PortfolioIndex(LoadPortfolios(st), id) == -1
    ensures r.Failure? ==> r.error == PortfolioNotFound
    ensures r.Success? ==>
      var (st', p') := r.value;
      var ps, ps' := LoadPortfolios(st), LoadPortfolios(st');
      var i := PortfolioIndex(ps, id);
      && 0 <= i
      && |ps'| == |ps|
      && ps'[i] == p' == MergePortfolio(ps[i], patch)
      && p'.id == id
      && (forall j :: 0 <= j < |ps| && j != i ==> ps'[j] == ps[j])
      && st'.usersDoc == st.usersDoc
      && st'.sessionDoc == st.sessionDoc
  {
    var ps := LoadPortfolios(st);
    var i := PortfolioIndex(ps, id);
    if i == -1 then
      Failure(PortfolioNotFound)
    else
      var p' := MergePortfolio(ps[i], patch);
      Success((SavePortfolios(st, ps[i := p']), p'))
  }

  /** The filter `deletePortfolio` keeps portfolios by: an id other than `id`. */
  function OtherPortfolioId(id: string): Portfolio -> bool {
    (p: Portfolio) => p.id != id
  }

  /** `deletePortfolio`: removes every portfolio with that id, keeping the
      others in order (`Seqs.Filter`); an unknown id is not an error and
      leaves the collection as it was. */
  function DeletePortfolio(st: Store, id: string): (st': Store)
    ensures LoadPortfolios(st') == Filter(LoadPortfolios(st), OtherPortfolioId(id))
    ensures forall p :: p in LoadPortfolios(st') <==> p in LoadPortfolios(st) && p.id != id
    ensures |LoadPortfolios(st')| <= |LoadPortfolios(st)|
    ensures (forall p :: p in LoadPortfolios(st) ==> p.id != id) ==> LoadPortfolios(st') == LoadPortfolios(st)
    ensures st'.usersDoc == st.usersDoc && st'.sessionDoc == st.sessionDoc
  {
    SavePortfolios(st, Filter(LoadPortfolios(st), OtherPortfolioId(id)))
  }

  /** Applying the same update twice has the effect of applying it once. */
  lemma UpdatePortfolioIdempotent(st: Store, id: string, patch: PortfolioPatch)
    requires UpdatePortfolio(st, id, patch).Success?
    ensures var (st1, p1) := UpdatePortfolio(st, id, patch).value;
      UpdatePortfolio(st1, id, patch) == Success((st1, p1))
  {
    var (st1, p1) := UpdatePortfolio(st, id, patch).value;
    var ps, ps1 := LoadPortfolios(st), LoadPortfolios(st1);
    var i := PortfolioIndex(ps, id);
    assert PortfolioIndex(ps1, id) == i by {
      assert forall j :: 0 <= j < i ==> ps1[j] == ps[j];
    }
    assert ps1[i := MergePortfolio(ps1[i], patch)] == ps1;
  }

  /** Creating a portfolio under a fresh id and deleting that id gives back
      the portfolio collection as it was. */
  lemma CreateThenDeletePortfolio(st: Store, data: PortfolioDraft, newId: string, createdAt: string)
    requires forall p :: p in LoadPortfolios(st) ==> p.id != newId
    requires CreatePortfolio(st, data, newId, createdAt).Success?
    ensures var st1 := CreatePortfolio(st, data, newId, createdAt).value.0;
      LoadPortfolios(DeletePortfolio(st1, newId)) == LoadPortfolios(st)
  {
    var (st1, np) := CreatePortfolio(st, data, newId, createdAt).value;
    var ps := LoadPortfolios(st);
    assert LoadPortfolios(st1) == ps + [np] by {
      assert LoadPortfolios(st1)[..|ps|] == ps;
    }
    assert forall j :: 0 <= j < |ps| ==> OtherPortfolioId(newId)(ps[j]) by {
      assert forall j :: 0 <= j < |ps| ==> ps[j] in ps;
    }
    FilterAppend(ps, np, OtherPortfolioId(newId));
  }
}
