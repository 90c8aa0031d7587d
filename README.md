# Jap ledger backend: a Dafny model

This project models the domain logic of the jap-counting backend. Users are identified by a plain profile: name, mobile, location and date of birth. A returning user logs in by mobile number alone. A bearer token then admits them to a ledger that records one jap count per calendar day and reports day, month and year totals.

The two MySQL tables (`user` and `entries`) are replaced by an in-memory class `Store.Db`. It holds both tables as sequences in insertion order, with auto-increment counters. A handler's `result[0]` is read as the earliest inserted matching row.

Every handler takes an `Outage` parameter. It says which of the handler's queries, by position, reports a database error, so the 500 paths are modelled too. `jwt.verify` is an uninterpreted function parameter of type `string -> Verified`. An issued token is represented by the claims it carries (`Claims(userId)`).

Modules follow the source files:

- `Common`: request fields (`Value`) and JavaScript truthiness.
- `Dates`: the `YYYY-MM-DD` format test, and the day the database takes from a date value.
- `Store`: the tables, their searches and counts, and the once-per-day invariant.
- `UserModel`: `models/user.js`.
- `Identity`: the resolution rules shared by both user-submit handlers.
- `UserApi`: the user endpoints of `index.js`.
- `UserController`: `controllers/userController.js`.
- `Auth`: the header split and the gate inlined in `index.js`.
- `AuthMiddleware`: `middleware/auth.js`.
- `UserRoutes`: `routes/userRoutes.js`.
- `Jap`: the ledger endpoints of `index.js`.

`index.js` mounts neither `controllers/userController.js` nor `routes/userRoutes.js`. Both are modelled as written, on their own.

The handlers behind `authenticateToken` (`UserApi.UserDetails` and the three `Jap` members) receive `req.user`, which is the `Claims` the gate passed on. They run only when the gate returns `Pass`.

## Model

| member | source | states |
|---|---|---|
| `Dates.IsDateFormat` | index.js:152-153 | The test `^\d{4}-\d{2}-\d{2}$`: exactly ten characters, four digits, '-', two digits, '-', two digits. `FormatThenParse` and `ParseThenFormat` characterize it as exactly the formats of writable days. |
| `Dates.FormatThenParse` | index.js:152-153 | Every day with a 4-digit year and 2-digit month and day formats to a string the `^\d{4}-\d{2}-\d{2}$` test accepts, and that string reads back as the same day. |
| `Dates.ParseThenFormat` | index.js:152-153 | Every string the format test accepts is exactly the format of the day it names. The test therefore accepts exactly four digits, '-', two digits, '-', two digits, with no range check on month or day. |
| `Dates.DayOf` | index.js:184 | `DATE(date)` on the stored column takes the value's calendar day. A day is found only in a stored string that starts with a well-formed `YYYY-MM-DD`, and that day is writable. |
| `Dates.SameDayWithSuffix` | index.js:184 | A well-formed stored date names its own day. A stored value with a time of day or a zone appended, as in "2024-01-05T23:59:59Z", has the same day under `DATE()`. |
| `Store.FirstWhere` | index.js:86-89 | `result[0]` is the first row in insertion order that satisfies the query's condition. There is no match exactly when no row satisfies it. |
| `Store.FirstWhereAppend` | index.js:110-111 | Appending a row never changes an existing first match. The new row becomes the first match only when nothing matched before. |
| `Store.InWindow` | index.js:223-225 | The three window filters: the same calendar day as the reference day; the same year and month; the same year. |
| `Store.CountIn` | index.js:205-225 | `COUNT(*)` of the user's entries whose day lies in the window, never more than the number of rows. `CountAppend` and `CountZero` characterize it. |
| `Store.CountAppend` | index.js:205-212 | Appending an entry raises a window count by one exactly when the entry belongs to that user and falls in the window. |
| `Store.CountZero` | index.js:223-225 | A count is zero exactly when the user has no entry in the window. |
| `Store.WindowsNest` | index.js:223-225 | The day window lies inside the month window, which lies inside the year window. So daily ≤ monthly ≤ yearly for every ledger, user and reference day. |
| `Store.HasEntryOn` | index.js:158 | `SELECT ... WHERE DATE(date) = ? AND user_Id = ? LIMIT 1` returns a row: some entry of that user lies on that day. A value without a day matches nothing. |
| `Store.HasEntryIffCounted` | index.js:184-206 | The existence query finds a row exactly when the count query for the same user and day is positive. |
| `Store.OncePerDay` | index.js:184-198 | The ledger invariant: no two entries of the same user share a calendar day. |
| `Store.OncePerDayCountsAtMostOne` | index.js:184-198 | While the once-per-day invariant holds, a user has at most one entry on any day. |
| `Store.AppendFreshDay` | index.js:192-198 | Appending an entry for a (user, day) pair that has none keeps the once-per-day invariant. Afterwards that pair has exactly one entry. |
| `Store.Db.InsertUser` | index.js:110-111 | The user insert appends exactly one row `(name, mobile, location, dob)` under a fresh id. Existing rows and the entries table are untouched, and ids stay unique. |
| `Store.Db.InsertEntry` | index.js:197-198 | The entry insert appends exactly one row `(date, japqty, user_Id)` under a fresh id. Existing rows and the user table are untouched. |
| `UserModel.CreateUser` | models/user.js:5-14 | One insert of `(name, mobile, location, dob)`, in that order. On error the result is `callback(err, null)` and no row is added. On success one row is appended and the single result carries its new id. The user counter advances only on success; the entries table and its counter are untouched. |
| `Identity.MobileOnly` | index.js:77 | The login branch: mobile truthy, and name, location and dob all falsy. |
| `Identity.Complete` | controllers/userController.js:10 | All four of name, mobile, location and dob are truthy, as at the full-profile branch of index.js:94. `SubmitForm` answers 400 exactly when this fails. |
| `Identity.RejectedShapes` | index.js:77-124 | The bodies answered with 400 are exactly those without a truthy mobile, and those that give some but not all of name, location and dob. |
| `Identity.LookupMobile` | index.js:79-89 | The mobile lookup returns a row with that mobile. It returns nothing exactly when no row has that mobile. |
| `Identity.LookupIdentity` | index.js:96-106 | The full-profile lookup returns a row matching name, mobile and location, with dob not compared. It returns nothing exactly when no row matches. |
| `Identity.Resolve` | index.js:96-119 | A full-profile resolution settles on a row matching name, mobile and location. The table afterwards is either unchanged or has that one row appended. |
| `Identity.ResolveIdempotent` | index.js:96-119 | Resolving the same profile a second time returns the same row and leaves the table as the first resolution left it. |
| `Identity.ResolveAddsOnlyWhenUnknown` | index.js:103-111 | A resolution keeps every existing row. It adds a row exactly when none matches name, mobile and location. The added row holds all four fields under a fresh id. |
| `Identity.ResolveLeavesOneMatch` | controllers/userController.js:15-35 | After a resolution at least one row matches. A table that had none ends with exactly one, so repeated calls never duplicate an identity. |
| `Identity.DobIgnoredForKnownUser` | index.js:96-97 | For a known identity, the resolution is the same whatever dob is sent with it. |
| `UserApi.SubmitUser` | index.js:73-125 | Mobile-only: never inserts. It gives 404 when no row has that mobile, else 200 with the first such row and a token for its id. Four fields: the result follows `Resolve`, with 200 and a token for the resolved id, and the table is unchanged when a row matched. When a new row is inserted, no user row is echoed back. Other shapes give 400. Query errors give 500 with no token. The entries table and its counter are never touched, and the user counter advances by exactly the rows added. |
| `UserApi.UserDetails` | index.js:128-144 | 200 with the name, mobile, location and dob of the row whose id the token names. 404 exactly when no row has that id. 500 when the query fails. |
| `UserController.SubmitForm` | controllers/userController.js:6-38 | Any falsy field gives 400 with no lookup or insert. A row matching name, mobile and location gives 200 with its token and no insert. Otherwise `createUser` appends the resolved row and the answer is 201 with a token for the new id. Lookup or insert errors give 500 with no token. The entries table and its counter are untouched, and the user counter advances by exactly the rows added. |
| `UserController.SubmitFormAsWritten` | controllers/userController.js:10-16 | As the file stands, any falsy field gives 400. A complete profile reaches the unimported `db` and fails with 500. No token is ever issued. |
| `UserController.AsWrittenNeverLogsIn` | controllers/userController.js:15-16 | For every complete profile and table, the as-written handler gives neither of the replies `SubmitForm` gives on a healthy store: not 200 with the matching row's token, and not 201 with the new row's token. |
| `Auth.Split` | index.js:57 | `split(' ')` yields at least one piece, and no piece contains a space. Joining the pieces with spaces gives back the header. |
| `Auth.SplitJoin` | index.js:57 | Splitting undoes joining pieces that hold no space. This is the other direction of the round trip. |
| `Auth.NoSpaceNoToken` | index.js:57-60 | A header without a space has no second word, so it presents no token. |
| `Auth.BearerToken` | index.js:57 | `split(' ')[1]` exists exactly when the header contains a space, and the token it yields contains no space. |
| `Auth.PresentedToken` | index.js:53-60 | The guards `!authHeader` and `!token`: a token is presented exactly when the header is present and non-empty and its second word exists and is non-empty. That token is the second word. The same guards are at middleware/auth.js:6-13. |
| `Auth.TokenAfterFirstSpace` | middleware/auth.js:10-13 | Whatever the scheme word is, the token is the text after the first space, up to the next space. "Basic abc" yields "abc" and "Bearer  x" yields "". |
| `Auth.AuthenticateInline` | index.js:51-70 | 401 exactly when the header is missing or empty, or its second word is absent or empty. 403 exactly when verification rejects the token. Otherwise it passes, once, with `req.user` set to the verified claims. |
| `Auth.BearerHeaderPasses` | index.js:57-69 | A "Bearer <token>" header with a non-empty, space-free token passes with that token's claims when it verifies, and gives 403 when it does not. |
| `AuthMiddleware.Authenticate` | middleware/auth.js:4-23 | 401 exactly when no non-empty second word is presented. 403 exactly when the presented token fails verification. Passes exactly when it verifies, and carries the decoded payload. |
| `AuthMiddleware.AgreesWithInline` | middleware/auth.js:4-23 | The middleware decides exactly as the copy in `index.js` for every header and verification outcome. |
| `UserRoutes.Check` | routes/userRoutes.js:7-28 | 200 with the decoded payload unchanged exactly when the presented token verifies. Every other outcome is 401, including a missing header, through optional chaining. A verification failure carries the error's message. |
| `UserRoutes.RouteToken` | routes/userRoutes.js:9 | Optional chaining on the header: a missing header gives no token instead of throwing. Whenever the guarded form presents a token, the route reads the same token; otherwise the route reads none or an empty one. |
| `UserRoutes.RouteVersusMiddleware` | routes/userRoutes.js:9-20 | The route accepts the same requests as the middleware, with the same payload. Where the middleware gives 403 the route gives 401 with the error message. Where the middleware gives 401, so does the route. |
| `Jap.CheckDate` | index.js:147-171 | A date that fails the format test gives 400. A failed lookup gives 500. Otherwise 200, reporting whether the user has an entry on the day the string names. It is a read and changes nothing. |
| `Jap.SubmitJap` | index.js:174-217 | A falsy date or japqty gives 400. An existing entry for the user on that day gives 400. Check or insert errors give 500. In all these cases the entries table is unchanged. Otherwise exactly one entry is appended, even when the recount fails. On 200, `totalToday` is the user's count for that day, which is 1. The once-per-day invariant is preserved. The user table and its counter are untouched, and the entry counter advances by exactly the entries added. |
| `Jap.Counts` | index.js:220-255 | 200 exactly when all three queries succeed. It reports the user's day, month and year counts relative to `today`, with daily ≤ monthly ≤ yearly. Any query error gives 500. |

## Left out

- Database connection and server bootstrap (environment loading, `listen`) are process I/O.
- Express wiring is framework setup: CORS, helmet, morgan, cookie parsing, JSON parsing, and static serving of the frontend.
- The token library is not modelled. Signing, signature checking, the one-day expiry and the secret are out. `jwt.verify` is a parameter, and a signed token is represented by the claims it would carry. So the token round trip and expiry are not stated.
- `UserApi.SubmitUser`: the `token` field is the claims the token carries, not the signed text.
- `UserController.SubmitForm`: the `token` field is the claims the token carries, not the signed text.
- `Jap.SubmitJap`: the bound date is read by its leading `YYYY-MM-DD` (`Dates.DayOf`), the same way as the stored column. The source applies `DATE()` only to the column (index.js:184-185 and 205-206) and binds the raw string. MySQL compares a string such as "2024-01-05 10:00:00" against a `DATE` as a DATETIME, so it would miss the existing entry and a second entry could be inserted for that day. Once-per-day is therefore shown only under the model's reading. For a canonical `YYYY-MM-DD` string, which the frontend sends, the two readings agree (`Dates.SameDayWithSuffix`).
- Concurrency is out of scope; the model runs one request at a time. The race between the existence check (index.js:185) and the insert (index.js:198) is not captured, so once-per-day is proved only for sequential requests.
- Database semantics beyond the stored rows are left out:
  - string comparison collation: case and trailing-space insensitivity;
  - number/string coercion;
  - MySQL's rejection of out-of-range dates such as 2024-13-45;
  - `DATE()` on strings that do not start with `YYYY-MM-DD`. Such a value is treated as having no day: its insert is a storage error and its lookup finds nothing.
  - the SQL row order, which is taken as insertion order.
- `CURDATE()` and the server time zone are left out. "Today" is the parameter `today`.
- `Jap.Counts`: the three count queries (index.js:223-225, run at lines 228, 234 and 240) each read `CURDATE()` on their own, one after another. The model gives all three one `today`, so daily ≤ monthly ≤ yearly is shown only when the three reads fall on the same day. A request that crosses midnight, or the new month or year, between two queries can report a daily count above the monthly one.
- Message strings and `console.error` logging are left out. Replies carry status codes and the data fields only. The exception is the route's verification error message, which is kept.
- Body values other than absent/null, strings and integers (booleans, objects, arrays) are not modelled.
- The React frontend is UI code and is not modelled. This includes its own field-presence check.
- `controllers/userController.js` uses `db` without importing it. `UserController.SubmitForm` gives it the shared store. The as-written behaviour is recorded under Findings.

## Findings

| source | as written | input that shows it | evidently intended | confidence | as-written member | corrected member |
|---|---|---|---|---|---|---|
| controllers/userController.js:16 | `db.query(...)` refers to `db`, which the file never imports. Once validation passes, the handler throws a ReferenceError and the framework answers 500. | any body with name, mobile, location and dob all non-empty | look up the shared `user` table, then reuse the matching row or create one through `createUser` | high (not executed) | `UserController.SubmitFormAsWritten`, `UserController.AsWrittenNeverLogsIn` | `UserController.SubmitForm` |
