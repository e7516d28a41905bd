# Portfolio showcase data layer, in Dafny

This project models the browser-side data layer of a portfolio showcase
(`services/dataService.ts` over the record shapes of `types.ts`) and proves
properties of it with Dafny.

The data layer keeps three storage keys: the users, the portfolios and an
optional session snapshot of the logged-in user. Every operation reads a whole
collection, changes it and writes the whole collection back. Here the storage
is a value `Store(usersDoc, portfoliosDoc, sessionDoc)`. A key that was never
written is `None`, and it reads as the empty collection. Each exported
operation is a pure function from a store to a new store. An operation that
can throw returns `Result<(Store, value), StoreError>`. On failure the caller
keeps its old store, so a failed operation changes nothing.

Modules, in dependency order:

- `Wrappers`: `Option` and `Result`.
- `Seqs`: the array primitives the source uses (`findIndex`, `find`, `indexOf`, `filter`, `splice`), each with a contract saying what the JavaScript operation promises. `FilterConcat` and `FilterCount` state that `filter` keeps the survivors in their order and number.
- `Types`: `Role`, `User`, `Category`, `PortfolioType`, `Rating`, `Portfolio`, and the thrown errors as `StoreError`. Each enum keeps the string it is persisted as, and a decoder gets the enum back from that string.
- `Storage`: load and save per key, the seed dataset, and `InitializeData`.
- `UserStore`: `GetUserById`, `CreateUser`, `UpdateUser` (with the `MergeUser` patch rule) and `DeleteUser`.
- `Session`: `Login`, `Logout` and `GetCurrentUser`.
- `PortfolioStore`: `GetPortfolioById`, `CreatePortfolio`, `UpdatePortfolio` (with the `MergePortfolio` shallow merge) and `DeletePortfolio`.
- `Aggregation`: `IncrementView`, `ToggleLike` and `Rate`. Each is written, as in the source, as a lookup followed by `UpdatePortfolio` with a one-field patch.
- `Invariants`: unique user ids and usernames, at least one administrator, unique portfolio ids, duplicate-free likes, one rating per user, and author references. It also says which operations keep these invariants, and gives concrete counterexamples where the source does not keep them.
- `Scenario`: an end-to-end run. Two users are created, one of them creates a portfolio, and the portfolio gets three views, a like, a rating of 4 and an un-like.

Behaviours of the code worth knowing:

- `deletePortfolio` with an unknown id does nothing and raises no error.
- `ratePortfolio` does not check the score's range. There is no `InvalidScore` error.
- A malformed stored document makes the source's `JSON.parse` throw. It is not read as an empty collection. Parsing is not modelled (see Left out).
- Only a password that is exactly `''` keeps the old password. A password of spaces is stored as given.
- A username of `''` in an update skips the collision check but is still written. `updateUser` has no role check. So the invariants "usernames are unique" and "there is always an administrator" can both be broken by `updateUser`. The lemmas `Invariants.UpdateUserEmptyUsernameDuplicates` and `Invariants.UpdateUserCanDemoteLastAdmin` show concrete cases.
- `deleteUser` does not touch portfolios, so a portfolio's author can disappear. `Invariants.DeleteUserCanOrphanPortfolios` shows a case.

## Model

| member | source | states |
|---|---|---|
| Types.DecodeRole | types.ts:2-5 | a stored role string decodes to the role whose label it is, and every label of a role decodes |
| Types.RoleLabelRoundTrip | types.ts:2-5 | each of the two roles decodes back from its persisted label |
| Types.DecodeCategory | types.ts:15-18 | a stored category string decodes to the category whose label it is, and every category label decodes |
| Types.DecodePortfolioType | types.ts:20-23 | a stored type string decodes to the portfolio type whose label it is, and every type label decodes |
| Types.EnumLabelsRoundTrip | types.ts:15-23 | category and portfolio type each decode back from their labels, though `PERSONNEL` and `APPLICATION` share one label |
| Storage.LoadUsers | services/dataService.ts:94-96 | an absent users key reads as the empty collection |
| Storage.LoadPortfolios | services/dataService.ts:168-170 | an absent portfolios key reads as the empty collection |
| Storage.SaveUsers | services/dataService.ts:88 | after a save, loading the users gives back exactly what was saved, and the other keys are untouched |
| Storage.SavePortfolios | services/dataService.ts:89 | after a save, loading the portfolios gives back exactly what was saved, and the other keys are untouched |
| Storage.SaveLoadedIsIdentity | services/dataService.ts:88-96 | saving the collection just loaded from a present key leaves the store unchanged |
| Storage.SeedUsers | services/dataService.ts:10-17 | three seeded users, every one with a password, whose administrator logs in as `a` with password `a`; Invariants.SeedUsersValid adds distinct ids and usernames and exactly one administrator |
| Storage.SeedPortfolios | services/dataService.ts:19-72 | three seeded portfolios carrying the supplied titles and timestamps in order; Invariants.SeedPortfoliosValid adds their invariants |
| Storage.InitializeData | services/dataService.ts:75-82 | a present key is left exactly as it is, even if its collection is empty; an absent key gets the seed; the session is untouched |
| Storage.InitializeDataIdempotent | services/dataService.ts:75-85 | seeding again, with any later timestamps, leaves the store unchanged |
| UserStore.GetUserById | services/dataService.ts:98-100 | absent exactly when no user has the id; otherwise the first user with that id |
| UserStore.CreateUser | services/dataService.ts:124-133 | fails with DuplicateUsername exactly when some user has the username; otherwise the collection grows by one, existing users are unchanged, and the last user is the draft with the fresh id |
| UserStore.MergeUser | services/dataService.ts:145-149 | the id is kept; supplied fields replace stored ones; a supplied `''` password or no password keeps the stored password |
| UserStore.UpdateUser | services/dataService.ts:135-152 | fails with UserNotFound on an unknown id, else with DuplicateUsername exactly when a non-empty new username belongs to a user with another id; otherwise only the first user with the id changes, to the merge, and the session is untouched |
| UserStore.UpdateUserIdempotent | services/dataService.ts:135-152 | repeating a successful update succeeds and changes nothing further |
| UserStore.AdminCount | services/dataService.ts:158 | the administrator count is zero exactly when no user is an administrator, and at least two when two different users are administrators |
| UserStore.DeleteUser | services/dataService.ts:155-163 | fails with LastAdmin exactly when the first user with the id is an administrator and at most one administrator exists; otherwise the result is the `filter` of the users by a different id, so exactly the users with that id are removed and the others keep their order and number; an unknown id changes nothing |
| Session.Snapshot | services/dataService.ts:107-108 | the session copy has no password and the user's other fields |
| Session.Login | services/dataService.ts:102-113 | succeeds exactly when the first user with the username has that password; on success the session and the result are that user without the password, and the collections are untouched; otherwise InvalidCredentials |
| Session.GetCurrentUser | services/dataService.ts:119-122 | the stored session snapshot, or none; its behaviour is stated by Session.LoginLogoutCurrentUser and Session.UpdateUserKeepsSession |
| Session.Logout | services/dataService.ts:115-117 | the session key is cleared whatever it held, and the collections are untouched |
| Session.LoginLogoutCurrentUser | services/dataService.ts:102-122 | after a login the current user is the returned password-free snapshot; after logout there is no current user |
| Session.LoginSucceedsForStoredPassword | services/dataService.ts:102-111 | logging in with the stored password of the first user with a username succeeds and sets that user's snapshot as the session |
| Session.UpdateUserKeepsSession | services/dataService.ts:135-152 | updating any user leaves the current session snapshot as it was |
| Session.CreateThenLogin | services/dataService.ts:102-133 | a user just created with a password can log in with it and gets its own snapshot |
| PortfolioStore.GetPortfolioById | services/dataService.ts:172-174 | absent exactly when no portfolio has the id; otherwise the first portfolio with that id |
| PortfolioStore.CreatePortfolio | services/dataService.ts:176-193 | fails with AuthorNotFound exactly when no user has the author id; otherwise exactly one portfolio is appended with the draft's fields, the fresh id and timestamp, the author's current full name, zero views and no likes or ratings |
| PortfolioStore.MergePortfolio | services/dataService.ts:200 | the id is kept; each supplied field replaces the stored one whole; the empty patch changes nothing |
| PortfolioStore.UpdatePortfolio | services/dataService.ts:195-203 | fails with PortfolioNotFound exactly on an unknown id; otherwise only the first portfolio with the id changes, to the merge |
| PortfolioStore.UpdatePortfolioIdempotent | services/dataService.ts:195-203 | repeating a successful update succeeds and changes nothing further |
| PortfolioStore.DeletePortfolio | services/dataService.ts:205-209 | the result is the `filter` of the portfolios by a different id, so exactly the portfolios with the id are removed and the others keep their order and number; an unknown id leaves the collection unchanged, with no error |
| PortfolioStore.CreateThenDeletePortfolio | services/dataService.ts:176-209 | creating a portfolio under a fresh id and deleting that id gives back the collection |
| Aggregation.ToggledLikes | services/dataService.ts:221-228 | an absent user is appended; for a present user the first occurrence is cut out and the rest keep their order; other ids keep their membership; a duplicate-free list stays duplicate-free with the user's membership flipped |
| Aggregation.UpsertRating | services/dataService.ts:236-243 | the user's first entry gets the new score at the same index with the length unchanged, or the entry is appended; one entry per user is preserved |
| Aggregation.IncrementView | services/dataService.ts:211-216 | the portfolio's views go up by exactly one and nothing else changes; an unknown id leaves the store unchanged |
| Aggregation.ToggleLike | services/dataService.ts:218-230 | only the portfolio's likes change, by one toggle; an unknown id leaves the store unchanged |
| Aggregation.Rate | services/dataService.ts:232-245 | only the portfolio's ratings change, by one upsert of the unchecked score; an unknown id leaves the store unchanged |
| Aggregation.ToggleTwiceFromUnliked | services/dataService.ts:221-228 | toggling twice from not-liked restores the exact like list |
| Aggregation.ToggleTwiceFromLiked | services/dataService.ts:221-228 | toggling twice from liked gives the list with the user's first occurrence cut out and the user appended at the end, so a duplicate-free list keeps its likers and stays duplicate-free |
| Aggregation.ToggleTwiceReorders | services/dataService.ts:221-228 | a concrete list whose order toggling twice does not restore |
| Aggregation.RateTwiceKeepsLast | services/dataService.ts:236-243 | rating twice equals rating once with the second score, and the second rating does not change the length |
| Aggregation.RateRecordsOneEntry | services/dataService.ts:236-243 | with one entry per user, after rating the user's only entry holds the new score |
| Aggregation.IncrementViewTimesAddsN | services/dataService.ts:211-216 | n increments raise the views by exactly n and change nothing else |
| Aggregation.ToggleLikeTwiceFromUnliked | services/dataService.ts:218-230 | liking then un-liking a portfolio the user had not liked gives back the same store |
| Invariants.CreateUserKeepsUsersValid | services/dataService.ts:124-133 | with a fresh id, user creation keeps ids and usernames unique and an administrator present, and the new user is found by its id |
| Invariants.UpdateUserKeepsIds | services/dataService.ts:135-152 | an update never changes ids, so ids stay unique |
| Invariants.UpdateUserKeepsUsernames | services/dataService.ts:141-149 | with unique ids, an update whose username is not empty keeps usernames unique |
| Invariants.UpdateUserEmptyUsernameDuplicates | services/dataService.ts:141-149 | an empty username skips the check, so two users can share the empty username |
| Invariants.UpdateUserCanDemoteLastAdmin | services/dataService.ts:135-152 | an update can make the only administrator a teacher, leaving none |
| Invariants.AdminsSharingIdAreOne | services/dataService.ts:158 | with unique ids, administrators that all carry one id number at most one |
| Invariants.DeleteUserKeepsAdmin | services/dataService.ts:155-163 | with unique ids, a successful delete always leaves an administrator |
| Invariants.DeleteUserKeepsUniqueness | services/dataService.ts:161 | deleting keeps ids and usernames unique |
| Invariants.OnlyChangedKeepsValid | services/dataService.ts:195-203 | replacing one portfolio by a well-formed one with the same id keeps the portfolio invariants, and the author references too when the author is the same |
| Invariants.AggregationKeepsValid | services/dataService.ts:211-245 | increment, toggle and rate keep portfolio ids unique, likes duplicate-free, one rating per user, and authors referenced |
| Invariants.UpdatePortfolioKeepsValid | services/dataService.ts:195-203 | an update that supplies well-formed likes and ratings, or none, keeps the portfolio invariants |
| Invariants.CreatePortfolioKeepsValid | services/dataService.ts:176-193 | with a fresh id, creation keeps the portfolio invariants and the new author reference holds |
| Invariants.DeletePortfolioKeepsValid | services/dataService.ts:205-209 | deletion keeps the portfolio invariants and author references |
| Invariants.DeleteUserCanOrphanPortfolios | services/dataService.ts:155-163 | deleting a seeded author succeeds and leaves their portfolios pointing at no user |
| Invariants.SeedUsersValid | services/dataService.ts:10-17 | the seeded users have distinct ids and usernames and exactly one administrator |
| Invariants.SeedPortfoliosValid | services/dataService.ts:19-72 | the seeded portfolios have distinct ids, no duplicate likes, one rating per user, and only seeded users as authors, likers and raters |
| Invariants.SeedDataValid | services/dataService.ts:75-82 | seeding an empty store yields a store satisfying every user and portfolio invariant |
| Invariants.CreateThenDeleteUser | services/dataService.ts:124-163 | with a fresh id, creating a user and then deleting it fails with LastAdmin when the new user is an administrator and no other administrator exists, and otherwise succeeds and gives back the exact user collection |
| Invariants.DeleteAdminWithAnotherAdmin | services/dataService.ts:155-163 | with unique ids, deleting one of two administrators succeeds, removes it and keeps the other |
| Scenario.EndToEnd | services/dataService.ts:124-245 | create two users, create a portfolio, three views give 3, a like adds the user, a rating of 4 is the only rating, and the second toggle empties the likes |

## Left out

- Storage and serialisation: `localStorage` and `JSON.stringify`/`JSON.parse` are not modelled. Saving and then loading a document is the identity. A malformed stored document, on which the source throws, is not representable.
- Id generation and clocks: `generateId` (services/dataService.ts:90) and `new Date()` (services/dataService.ts:37, 52, 69, 188) are parameters: `newId`, `createdAt`, and the timestamps in `SeedText`. The operations do not require the id to be fresh, and neither does the source. Freshness is a hypothesis of the invariant lemmas that need it.
- Storage.SeedPortfolios: the titles, descriptions and image URLs of the seeded portfolios are supplied through `SeedText`, not written out. Their ids, authors, categories, types, views, likes and ratings are literal.
- Storage.InitializeData: the call made once when the module loads (services/dataService.ts:85) is modelled as an explicit call.
- `getUsers`/`getPortfolios` are `Storage.LoadUsers`/`Storage.LoadPortfolios`. `getCurrentUser` is `Session.GetCurrentUser`, a plain read whose properties are stated by `Session.LoginLogoutCurrentUser` and `Session.UpdateUserKeepsSession`.
- JavaScript's loose values: the fallbacks `views || 0`, `likes || []` and `ratings || []` (services/dataService.ts:214, 221, 236) never fire, because every modelled field is always present. A patch field that is present but `undefined` is not distinguished from an omitted field.
- Aggregation.IncrementView: views are unbounded integers. The precision limit of JavaScript numbers is not modelled.
- Types.Rating: the score is modelled as an integer. The source's score is a JavaScript number, so a fractional score such as 4.5, which `ratePortfolio` stores as given, is not representable.
- The Thai error messages are replaced by `StoreError` constructors.
- Failure leaves the store unchanged because a `Result` failure carries no new store. No contract states it as an ensures.
- Average rating: the floating-point division and rounding done in the interface are left out. `Scenario.EndToEnd` states the ratings sequence from which the average is computed.
- The React components, filtering and sorting, file encoding, and timers are presentation or I/O and are left out.
