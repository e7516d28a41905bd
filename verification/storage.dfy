/** Document persistence: three storage keys, each holding a whole collection
    (or the session snapshot) as one document. A key is either absent (`None`)
    or holds a document; serialising and parsing a document is the identity,
    so saving and then loading a collection gives it back unchanged. */
module Storage {
  import opened Wrappers
  import opened Types

  datatype Store = Store(
    usersDoc: Option<seq<User>>,
    portfoliosDoc: Option<seq<Portfolio>>,
    sessionDoc: Option<User>)

  /** A store in which no key has been written yet. */
  const EmptyStore := Store(None, None, None)

  /** Reads the users document; an absent key reads as the empty collection. */
  function LoadUsers(st: Store): (us: seq<User>)
    ensures st.usersDoc.None? ==> us == []
  {
    st.usersDoc.GetOr([])
  }

  /** Reads the portfolios document; an absent key reads as the empty collection. */
  function LoadPortfolios(st: Store): (ps: seq<Portfolio>)
    ensures st.portfoliosDoc.None? ==> ps == []
  {
    st.portfoliosDoc.GetOr([])
  }

  /** Replaces the whole users document; the other keys are untouched. */
  function SaveUsers(st: Store, us: seq<User>): (st': Store)
    ensures LoadUsers(st') == us
    ensures st'.usersDoc.Some?
    ensures st'.portfoliosDoc == st.portfoliosDoc && st'.sessionDoc == st.sessionDoc
  {
    st.(usersDoc := Some(us))
  }

  /** Replaces the whole portfolios document; the other keys are untouched. */
  function SavePortfolios(st: Store, ps: seq<Portfolio>): (st': Store)
    ensures LoadPortfolios(st') == ps
    ensures st'.portfoliosDoc.Some?
    ensures st'.usersDoc == st.usersDoc && st'.sessionDoc == st.sessionDoc
  {
    st.(portfoliosDoc := Some(ps))
  }

  /** Saving what was just loaded changes nothing once the key is present. */
  lemma SaveLoadedIsIdentity(st: Store)
    requires st.usersDoc.Some? && st.portfoliosDoc.Some?
    ensures SaveUsers(st, LoadUsers(st)) == st
    ensures SavePortfolios(st, LoadPortfolios(st)) == st
  {
  }

  /** The display part of one seeded portfolio: its texts and images, and
      its creation timestamp, which the seed computes from the clock (five
      days ago, two days ago, now). */
  datatype SeedDisplay = SeedDisplay(
    title: string,
    description: string,
    coverImage: string,
    albumImages: seq<string>,
    createdAt: string)

  /** Display parts of the three seeded portfolios, in seed order. */
  datatype SeedText = SeedText(first: SeedDisplay, second: SeedDisplay, third: SeedDisplay)

  /** The initial users: one administrator, who logs in as `a` with
      password `a`, and two teachers; every one of them has a password. */
  function SeedUsers(): (r: seq<User>)
    ensures |r| == 3
    ensures forall u :: u in r ==> u.password.Some?
    ensures forall u :: u in r && IsAdmin(u) ==> u.username == "a" && u.password == Some("a")
    ensures IsAdmin(r[0])
  {
    [ User("user-1", "a", Some("a"), "Admin User", Admin),
      User("user-2", "teacher1", Some("password"), "Jane Doe", Teacher),
      User("user-3", "teacher2", Some("password"), "John Smith", Teacher) ]
  }

  function SeedPortfolio(
    id: string, authorId: string, authorName: string,
    category: Category, portfolioType: PortfolioType,
    views: int, likes: seq<string>, ratings: seq<Rating>,
    d: SeedDisplay): Portfolio
  {
    Portfolio(id, authorId, authorName, d.title, d.description, category, portfolioType,
              d.coverImage, d.albumImages, views, likes, ratings, d.createdAt)
  }

  /** The initial portfolios: three of them, carrying the supplied display
      texts and timestamps in order. */
  function SeedPortfolios(text: SeedText): (r: seq<Portfolio>)
    ensures |r| == 3
    ensures r[0].title == text.first.title && r[1].title == text.second.title && r[2].title == text.third.title
    ensures r[0].createdAt == text.first.createdAt && r[1].createdAt == text.second.createdAt
         && r[2].createdAt == text.third.createdAt
  {
    [ SeedPortfolio("portfolio-1", "user-2", "Jane Doe", Personnel, Application,
                    152, ["user-1", "user-3"], [Rating("user-1", 5), Rating("user-3", 4)], text.first),
      SeedPortfolio("portfolio-2", "user-3", "John Smith", Commander, Other,
                    89, ["user-2"], [Rating("user-2", 5)], text.second),
      SeedPortfolio("portfolio-3", "user-2", "Jane Doe", Personnel, Application,
                    230, ["user-1", "user-2", "user-3"], [Rating("user-1", 4), Rating("user-3", 5)], text.third) ]
  }

  /** Seeding: each collection key that is absent gets the fixed initial
      dataset; a key already present, even holding an empty collection, is
      left exactly as it is. The session key is never touched. */
  function InitializeData(st: Store, text: SeedText): (st': Store)
    ensures st.usersDoc.Some? ==> st'.usersDoc == st.usersDoc
    ensures st.usersDoc.None? ==> LoadUsers(st') == SeedUsers()
    ensures st.portfoliosDoc.Some? ==> st'.portfoliosDoc == st.portfoliosDoc
    ensures st.portfoliosDoc.None? ==> LoadPortfolios(st') == SeedPortfolios(text)
    ensures st'.usersDoc.Some? && st'.portfoliosDoc.Some?
    ensures st'.sessionDoc == st.sessionDoc
  {
    var st1 := if st.usersDoc.None? then SaveUsers(st, SeedUsers()) else st;
    if st1.portfoliosDoc.None? then SavePortfolios(st1, SeedPortfolios(text)) else st1
  }

  /** Seeding writes at most once: running it again, at any later time, leaves
      the store unchanged. */
  lemma InitializeDataIdempotent(st: Store, text1: SeedText, text2: SeedText)
    ensures InitializeData(InitializeData(st, text1), text2) == InitializeData(st, text1)
  {
  }
}
