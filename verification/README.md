# Earn Chain reward claims, modelled in Dafny

Earn Chain is a small click-to-earn server. A chat bot opens a web mini-app.
The app registers the user, lists sponsored ads, and lets the user claim an
ad's reward once per rolling 24-hour window. The server keeps three tables:
users with balances, ads with rewards, and an append-only log of clicks.

This project models the HTTP handlers of `server/index.js` as pure
transitions over one immutable database value (`Tables.Store`):

- `balances`: the `users` table, keyed by id.
- `ads`: the `ads` table in insertion order.
- `lastAdId`: the AUTOINCREMENT high-water mark.
- `clicks`: the click log, each entry `(user, ad, points, timestamp)`.

The mutating handlers return a `Server.Step`: the reply (`Ok` value or an
`Http.ApiError`) and the database after the request. Every error reply leaves
the database unchanged. The clock is the explicit parameter `now`, in Unix
seconds. A successful claim is one atomic step.

Request fields are modelled as `Params.Param`: absent, a JSON number, or a
string. `Params.Truthy` is JavaScript's truthiness test (`!x`). `Params.KeyOf`
gives the integer a value names when SQLite compares it with an INTEGER
column. A string names a row only when it spells an integer.

Modules, leaves first:

- `optional.dfy` (`Optional`): the option type.
- `http.dfy` (`Http`): error taxonomy, status codes, result type.
- `params.dfy` (`Params`): request values, truthiness, integer keys, decimal rendering.
- `text.dfy` (`Text`): `String.prototype.replace` with a string pattern.
- `sorting.dfy` (`Sorting`): `ORDER BY` and `LIMIT`, as a sorted permutation and its smallest prefix.
- `store.dfy` (`Tables`): rows, the database value, lookups, the invariant, the start-up state.
- `server.dfy` (`Server`): the handlers.
- `properties.dfy` (`Properties`): lemmas relating the handlers, and request traces.

The invariant `Tables.Inv` has three parts:

- Ad ids are distinct, positive and at most `lastAdId`, which is a 64-bit integer; user ids are 64-bit integers.
- Every click belongs to a registered user, and every balance equals the sum of that user's click points.
- Two clicks of the same (user, ad) pair lie at least 86400 s apart.

Behaviour of the code that the model keeps as it is:

- The blocking test at index.js:105 is a strict `>`. Two claims of one pair exactly 86400 s apart therefore both succeed (`Properties.ExactlyOneWindowApart`). The invariant says "at least 86400 s apart".
- Before the user and ad lookups, `/click` rejects a falsy `userId` or `adId` with 400.
- `POST /admin/ad` accepts any reward that is present, including 0 and negative numbers. A `null` reward passes the presence test and then violates the NOT NULL column (500).
- The admin check removes the first `Bearer ` wherever it occurs, not only a leading one. The bare id without the marker is accepted as well.
- `GET /ads` does not check that the user exists. An unknown user sees every ad.
- Ids are SQLite INTEGERs, 64-bit signed. A number or numeral outside that range is stored as a REAL, so it names no row and cannot be a primary key. Once the AUTOINCREMENT id of `ads` has reached the largest 64-bit value, SQLite refuses further inserts.

## Model

| member | source | states |
|---|---|---|
| `Http.Status` | mainearnchain/earnchain1/server/index.js:16-199 | 400 for the missing-field and cooldown errors, 404 for an unknown user or ad, 401 without an authorization header, 403 for a wrong token, 500 for a database refusal, each an if-and-only-if |
| `Params.Truthy` | mainearnchain/earnchain1/server/index.js:33 | a request value passes the `!x` guards (also at lines 48, 77, 187) exactly when it is none of undefined/null, the number 0 and the empty string |
| `Params.KeyOf` | mainearnchain/earnchain1/server/db.js:13-19 | a number names itself exactly when it is a 64-bit integer; a string names a row exactly when it is an integer numeral in that range, and then names the integer it spells; an absent value names none; every key named is in range |
| `Params.NumeralKeys` | mainearnchain/earnchain1/server/index.js:151 | the path segments "42", "007" and "-5" name the keys 42, 7 and -5 |
| `Params.ShowKeyRoundTrip` | mainearnchain/earnchain1/server/index.js:148-151 | the decimal path segment of a numeric id names the same user as the number (that user itself when the id is in range), and is truthy |
| `Params.ZeroStringIsTruthy` | mainearnchain/earnchain1/server/index.js:33 | the number 0 fails the `!userId` guard but the string "0" passes it and names id 0 |
| `Text.IndexOf` | mainearnchain/earnchain1/server/index.js:22 | the result is the least index at or after `from` where the pattern occurs, or none if it never occurs |
| `Text.RemoveFirst` | mainearnchain/earnchain1/server/index.js:22 | the first occurrence of the pattern is cut out; without one the string is unchanged |
| `Text.RemoveLeading` | mainearnchain/earnchain1/server/index.js:22 | removing the pattern from `pat + t` gives back `t` |
| `Sorting.SortBy` | mainearnchain/earnchain1/server/index.js:62 | the result is sorted by the key and is a permutation of the input |
| `Sorting.SortByStrict` | mainearnchain/earnchain1/server/index.js:62 | rows with pairwise distinct keys come out strictly increasing |
| `Sorting.Smallest` | mainearnchain/earnchain1/server/index.js:171-172 | `min(n, size)` rows, sorted, a sub-multiset of the input, and every row left out has a key no smaller than any kept |
| `Tables.HasRecentClick` | mainearnchain/earnchain1/server/index.js:103-106 | true exactly when some click of this user on this ad is strictly newer than `since` |
| `Tables.FindAd` | mainearnchain/earnchain1/server/index.js:91 | finds a row exactly when some ad has the id, and the row found has that id |
| `Tables.Initial` | mainearnchain/earnchain1/server/db.js:45-57 | the start-up database (five sample ads, ids 1 to 5, no users or clicks) satisfies the invariant |
| `Server.Register` | mainearnchain/earnchain1/server/index.js:31-43 | a falsy id gives 400; a value that is no 64-bit integer is refused by the database; otherwise the user exists afterwards, a new one with balance 0, and nothing else changes |
| `Server.Unclaimed` | mainearnchain/earnchain1/server/index.js:55-61 | an ad is kept exactly when it has no click by this user strictly newer than the threshold |
| `Server.UnclaimedDistinct` | mainearnchain/earnchain1/server/index.js:58-61 | the filtered list has distinct ids when the table has |
| `Server.AvailableAds` | mainearnchain/earnchain1/server/index.js:46-71 | a falsy id gives 400; otherwise exactly the ads with no click by the user in the last 24 h, in ascending id order, strictly so when ids are distinct |
| `Server.Claim` | mainearnchain/earnchain1/server/index.js:74-145 | the four failures in their fixed order, each an if-and-only-if and each leaving the database unchanged; success appends one click with the ad's reward at `now`, adds that reward to this user's balance only, and returns it |
| `Server.Balance` | mainearnchain/earnchain1/server/index.js:148-160 | 404 exactly when no user has the id the path names, the stored balance otherwise |
| `Server.JoinRow` | mainearnchain/earnchain1/server/index.js:166-170 | a click yields a row exactly when it is this user's and its ad still exists, and that row is the ad's title with the click's recorded points and time |
| `Server.Joined` | mainearnchain/earnchain1/server/index.js:166-170 | the inner join of the user's clicks with the ads, in log order, never longer than the log; `Server.JoinedExactly`, `Server.JoinedSound` and `Server.JoinedComplete` characterise it fully |
| `Server.JoinedSound` | mainearnchain/earnchain1/server/index.js:166-170 | every joined row is a click of this user on an existing ad, with that ad's title and the click's recorded points and time |
| `Server.JoinedComplete` | mainearnchain/earnchain1/server/index.js:166-170 | every click of this user on an existing ad appears with that ad's title and the click's recorded points and time |
| `Server.JoinedExactly` | mainearnchain/earnchain1/server/index.js:166-170 | the join has exactly one row per click of this user on an existing ad, in log order and no other: some increasing list of positions covers every such click, and row `k` is the row of click `k` of that list |
| `Server.Newest` | mainearnchain/earnchain1/server/index.js:171-172 | at most `n` rows, newest first, a sub-multiset of the input, and no row left out is newer than a row kept |
| `Server.History` | mainearnchain/earnchain1/server/index.js:163-181 | the user's joined clicks, `min(20, count)` of them, by non-increasing timestamp, and none left out newer than any returned |
| `Server.Authenticate` | mainearnchain/earnchain1/server/index.js:16-28 | a missing or empty header gives 401; otherwise success exactly when the header with its first `Bearer ` removed equals the admin id, and every failure is 403 |
| `Server.CreateAd` | mainearnchain/earnchain1/server/index.js:184-202 | the admin check's error comes first; then 400 exactly when title or url is falsy or reward undefined; a null reward, or an exhausted id range, is refused by the database (500); success exactly otherwise, appending the ad under id `lastAdId + 1` and changing nothing else |
| `Properties.PointsOfNoClicks` | mainearnchain/earnchain1/server/index.js:37 | a user without clicks has a click sum of 0, the balance a new user starts with |
| `Properties.PointsOfAppend` | mainearnchain/earnchain1/server/index.js:118-130 | appending a click adds its points to its own user's sum and to no other |
| `Properties.RegisterPreservesInv` | mainearnchain/earnchain1/server/index.js:37 | registration keeps the invariant, including balance equals click sum |
| `Properties.RegisterIdempotent` | mainearnchain/earnchain1/server/index.js:37 | registering twice equals registering once; registering a known user with a truthy id changes nothing |
| `Properties.RegisterThenBalance` | mainearnchain/earnchain1/server/index.js:151-158 | registering a new numeric id succeeds exactly when it is a 64-bit integer, and then the user reads balance 0 through the path `/user/<decimal id>` |
| `Properties.ClaimPreservesInv` | mainearnchain/earnchain1/server/index.js:118-130 | a claim keeps the invariant: balance equals click sum, and same-pair clicks stay at least 86400 s apart |
| `Properties.CooldownWindow` | mainearnchain/earnchain1/server/index.js:100-112 | after a successful claim at `now`, the same claim at `later` is refused for cooldown exactly when `later < now + 86400` and succeeds otherwise |
| `Properties.CooldownIsPerPair` | mainearnchain/earnchain1/server/index.js:103-112 | a cooldown refusal is always caused by a click of the same user on the same ad within the window |
| `Properties.ExactlyOneWindowApart` | mainearnchain/earnchain1/server/index.js:101-105 | two claims of one pair exactly 86400 s apart both succeed |
| `Properties.AvailableMatchesClaim` | mainearnchain/earnchain1/server/index.js:52-60 | for a registered user, an ad is listed exactly when claiming it now succeeds, and missing exactly when the claim is refused for cooldown |
| `Properties.AvailableHasNoDuplicates` | mainearnchain/earnchain1/server/index.js:58-62 | the ad list has no repeated row and strictly increasing ids |
| `Properties.HistoryRowsAreClicks` | mainearnchain/earnchain1/server/index.js:167-170 | every history row shows one of the user's clicks with its recorded points, not the ad's current reward |
| `Properties.ShortHistoryIsComplete` | mainearnchain/earnchain1/server/index.js:171-172 | with at most 20 joined clicks the history holds all of them |
| `Properties.BalanceIsClickSum` | mainearnchain/earnchain1/server/index.js:151-158 | on an invariant-keeping database the balance read is the user's click sum |
| `Properties.BearerTokenAccepted` | mainearnchain/earnchain1/server/index.js:22-23 | `Bearer <admin id>` passes the admin check |
| `Properties.BareTokenAccepted` | mainearnchain/earnchain1/server/index.js:22-23 | the bare admin id without the marker passes too |
| `Properties.UnsetAdminForbidsAll` | mainearnchain/earnchain1/server/index.js:23-24 | with ADMIN_USER_ID unset, every non-empty header gets 403 |
| `Properties.ZeroRewardAccepted` | mainearnchain/earnchain1/server/index.js:187 | a reward of 0 is accepted and gets the next id, unless the id range is exhausted |
| `Properties.CreateAdPreservesInv` | mainearnchain/earnchain1/server/index.js:191-200 | ad creation keeps the invariant and assigns an id no existing ad has |
| `Properties.ReachableKeepsInv` | mainearnchain/earnchain1/server/index.js:31-202 | every database reached by any sequence of register, claim and ad-creation requests keeps the invariant, so every balance equals the user's click sum |

## Left out

- Transactions and concurrency (`BEGIN`/`ROLLBACK`/`COMMIT` and callback chaining at index.js:115-140): a successful claim is one atomic step. The race between the cooldown check and the insert is not modelled. Neither is the error path where a failed insert still lets the update and `COMMIT` run.
- Database failures in general (500 replies): only three are modelled, all as `StoreError`. They are a user id that is no 64-bit integer on register, a `null` reward on ad creation, and an exhausted AUTOINCREMENT range of `ads`.
- Floating point: the REAL columns are exact `real` values, without rounding.
- The clock: `Date.now()` becomes the parameter `now`.
- `created_at` columns: never read by the handlers.
- Schema creation and ad reseeding at start-up (db.js): only the first start-up state is modelled (`Tables.Initial`). Reseeding on later restarts deletes ads and so hides older clicks from history. It is not a transition of the model, but `Server.Joined` keeps the inner-join filter it needs.
- JSON values other than integers and strings for ids: fractional numbers, booleans, arrays and objects. The same goes for repeated query parameters.
- JSON number parsing: `Params.Num(n)` is the number `JSON.parse` produced. The rounding of integer literals beyond 2^53 happens before the handlers run and is not modelled.
- SQLite text-to-integer conversions beyond an optional `-` and digits, such as `+5`, surrounding spaces or `5.0`. Such strings are treated as naming no row.
- Titles, urls and rewards of other JSON types: titles and urls are strings, rewards are numbers.
- Tie order in history: equal timestamps have no defined order in SQL. The model's insertion sort picks one.
- Express wiring, CORS, static files, `listen`, the web client and the bot: I/O only.
