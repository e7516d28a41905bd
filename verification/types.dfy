/** The record shapes of the portfolio showcase: users with a closed two-value
    role, portfolios with two separate two-value enums, and ratings. Each enum
    carries the string it is persisted as, with a decoder back from it. */
module Types {
  import opened Wrappers

  /** `UserRole`: the last-administrator rule counts `Admin`s. */
  datatype Role = Admin | Teacher {
    function Label(): string {
      match this
      case Admin => "admin"
      case Teacher => "teacher"
    }
  }

  function DecodeRole(s: string): (r: Option<Role>)
    ensures r.Some? ==> r.value.Label() == s
    ensures (exists role: Role :: role.Label() == s) ==> r.Some?
  {
    if s == "admin" then Some(Admin)
    else if s == "teacher" then Some(Teacher)
    else None
  }

  lemma RoleLabelRoundTrip(role: Role)
    ensures DecodeRole(role.Label()) == Some(role)
  {
  }

  /** A user record. The password is optional: it is present in the user
      store but stripped from the session snapshot. */
  datatype User = User(
    id: string,
    username: string,
    password: Option<string>,
    fullName: string,
    role: Role)

  predicate IsAdmin(u: User) {
    u.role == Admin
  }

  /** `PortfolioCategory`. */
  datatype Category = Commander | Personnel {
    function Label(): string {
      match this
      case Commander => "ระบบแจก"
      case Personnel => "โปรแกรมประยุกต์"
    }
  }

  function DecodeCategory(s: string): (r: Option<Category>)
    ensures r.Some? ==> r.value.Label() == s
    ensures (exists c: Category :: c.Label() == s) ==> r.Some?
  {
    if s == Commander.Label() then Some(Commander)
    else if s == Personnel.Label() then Some(Personnel)
    else None
  }

  /** `PortfolioType`; its `Application` is persisted as the same string as
      the category `Personnel`, which is why the two enums are kept as
      distinct datatypes rather than strings. */
  datatype PortfolioType = Application | Other {
    function Label(): string {
      match this
      case Application => "โปรแกรมประยุกต์"
      case Other => "อื่นๆ"
    }
  }

  function DecodePortfolioType(s: string): (r: Option<PortfolioType>)
    ensures r.Some? ==> r.value.Label() == s
    ensures (exists t: PortfolioType :: t.Label() == s) ==> r.Some?
  {
    if s == Application.Label() then Some(Application)
    else if s == Other.Label() then Some(Other)
    else None
  }

  /** Each enum decodes back from its own label, although one label is shared
      between the two enums. */
  lemma EnumLabelsRoundTrip(c: Category, t: PortfolioType)
    ensures DecodeCategory(c.Label()) == Some(c)
    ensures DecodePortfolioType(t.Label()) == Some(t)
    ensures Personnel.Label() == Application.Label()
    ensures Commander.Label() != Other.Label()
  {
  }

  /** One user's score for a portfolio. The score is any integer: no range
      is enforced by the data layer. */
  datatype Rating = Rating(userId: string, score: int)

  datatype Portfolio = Portfolio(
    id: string,
    authorId: string,
    authorName: string,
    title: string,
    description: string,
    category: Category,
    portfolioType: PortfolioType,
    coverImage: string,
    albumImages: seq<string>,
    views: int,
    likes: seq<string>,
    ratings: seq<Rating>,
    createdAt: string)

  /** The errors the data layer throws; each stands for one thrown message. */
  datatype StoreError =
    | DuplicateUsername   // the username is already taken
    | UserNotFound        // no user with the given id
    | LastAdmin           // deleting the only remaining administrator
    | InvalidCredentials  // login: unknown username or wrong password
    | AuthorNotFound      // createPortfolio: the author id resolves to no user
    | PortfolioNotFound   // updatePortfolio: no portfolio with the given id
}
