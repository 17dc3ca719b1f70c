# Exercise tracker: a Dafny model of the request handlers

The service registers users and records exercise entries against them. It then lists a user's
entries back, with an optional date range and an optional limit. Its logic sits in the request
handlers for two resources, **users** and **exercises**. Each handler validates its input, checks that
the referenced user exists, does one write or one filtered read, and shapes a JSON reply.

The handlers are modelled as pure functions over an immutable in-memory store:

- `Storage.Store` holds the `users` and `exercises` tables and the two AUTOINCREMENT counters.
- Every handler maps `(Store, input)` to `Handled(response, store)`.
- A response is `Ok(reply)` (status 200), `BadRequest(message)` (400) or `NotFound(message)` (404).

There are two copies of the handlers:

- **Controllers** (`controllers/userController.js`, `controllers/exerciseController.js`): the
  refactored version, modelled in `UserController` and `ExerciseController`. Their log query sorts by
  date and counts before the limit.
- **Inline handlers** of `index.js`, modelled in `InlineApp`. This copy is the one the entry point
  serves. It reads the exercise owner from the body field `":_id"` and demands a numeric id on the
  logs route. Its log query has no `ORDER BY` and counts after the `LIMIT`.

`Variants` states where the two copies agree and where they differ.

Module layout:

- `Wrappers`: `Option`.
- `Dates`: calendar dates and instants. A date is valid only if it is written exactly as `YYYY-MM-DD`
  and names a real calendar day (`ParseDate`).
- `Params`: request fields, already classified the way JavaScript's coercions classify them.
- `Storage`: tables, the store invariant, and the SQL statements used.
- `Http`: replies and responses.
- `Query`: the log query (filter, projection, sort, `LIMIT`).
- `UserController`, `ExerciseController`, `InlineApp`: the handlers.
- `Variants`: how the two copies compare.
- `Scenarios`: an end-to-end run.

Abstractions:

- **Dates.** An instant is a UTC calendar day plus milliseconds since midnight. Its lexicographic
  order is chronological order. `new Date("YYYY-MM-DD")` is that day's midnight. The current time
  `now` is a parameter of the append handlers.
- **Date validity.** The source checks date strings with `dayjs(text, "YYYY-MM-DD", true).isValid()`.
  The model replaces that check with the strict `ParseDate`. This is not claimed to be what dayjs
  does: the three-argument strict form needs dayjs's customParseFormat plugin, and no file of the
  source loads that plugin.
- **Id parameters.** An id arrives as an `IdParam`: absent, or text with two facts attached. The first
  fact is whether `isNaN` rejects the text. The second is the integer user id that SQLite's
  `id = ?` comparison matches for that text, if any.
- **Durations.** A duration arrives as a `NumberParam`: missing (undefined or empty), blank
  (whitespace only), not a number, or a number.
- **Limit.** `limit` is the result of `parseInt`, with `None` standing for NaN.

## Model

| member | source | states |
|---|---|---|
| Dates.ParseFormatDate | controllers/exerciseController.js:18-23 | every real calendar day, written as `YYYY-MM-DD`, passes the date check and is read back as that same day |
| Dates.FormatParseDate | controllers/exerciseController.js:18-23 | the check is strict: any text it accepts is exactly the canonical `YYYY-MM-DD` form of the day it names |
| Params.EntryDate | controllers/exerciseController.js:34 | a given date is stored as midnight of the day whose canonical text is the submitted text; with no date, the current instant is stored |
| Params.Bound | controllers/exerciseController.js:84-92 | a `from`/`to` bound is used only when its text is non-empty and a valid date, and it then means midnight of that day |
| Storage.FindUser | controllers/exerciseController.js:25-31 | the id lookup returns a stored user carrying the key; it finds nothing exactly when no stored user has that id |
| Storage.FindUserUnique | controllers/exerciseController.js:69-78 | when user ids are distinct, looking up a stored user's id returns that very user |
| Storage.EmptyIsValid | config/db.js:10-29 | freshly created tables satisfy the store invariant |
| Storage.SchemaAllowsDuplicateUsernames | config/db.js:11-16 | the `users` table has no UNIQUE constraint: for every store, inserting an already taken username directly leaves two users with that name, so only the handler's check keeps names unique |
| Storage.CountUsernameOnce | controllers/userController.js:30-35 | when usernames are distinct, a stored username appears exactly once in the user listing |
| UserController.CreateUser | controllers/userController.js:3-28 | a missing or empty username gives 400 ValidationError; an exactly equal existing name gives 400 "User already exists"; in both cases the store is unchanged; otherwise exactly one user is appended with a fresh id and the reply carries that username and id |
| UserController.GetUsers | controllers/userController.js:30-36 | returns every stored user, in table order, and leaves the store unchanged |
| UserController.CreatedIdIsFresh | controllers/userController.js:22-25 | in a valid store, the id returned for a new user differs from every existing user's id |
| UserController.CreateUserPreservesValid | controllers/userController.js:14-25 | creating a user keeps the store invariant: ids distinct and below the counter, usernames pairwise distinct, exercises still pointing at their owners |
| UserController.CreatedUserListedOnce | controllers/userController.js:14-35 | after a successful creation, the user listing shows the new username exactly once |
| UserController.CreateUserTwiceRefused | controllers/userController.js:14-20 | creating the same username again is refused with 400 and adds no row |
| ExerciseController.AddExercise | controllers/exerciseController.js:4-61 | checks run in the order description, duration, date, user, and the first failure decides the response; a rejection never changes the store; 404 comes only when all fields are valid; success appends exactly one row owned by the path id, with the owner's username, the given day or `now`, the duration and the description, and echoes them |
| ExerciseController.StoredDateIsGivenDay | controllers/exerciseController.js:33-47 | when a date is submitted, the stored instant is midnight of exactly the day that text names |
| ExerciseController.AddExercisePreservesValid | controllers/exerciseController.js:25-47 | appending an exercise keeps the store invariant: the new row references an existing user and copies that user's username |
| ExerciseController.GetExerciseLogs | controllers/exerciseController.js:63-126 | an unknown user gives 404; the store is never modified; on success the reply names the looked-up user, its log is in ascending date order, and `count` is at least the log length |
| ExerciseController.LogEntriesMatch | controllers/exerciseController.js:80-92 | every log entry is one of the requested user's exercises, not before a valid `from` and not after a valid `to` |
| ExerciseController.LogIsComplete | controllers/exerciseController.js:80-96 | when the limit drops nothing, every exercise of the user within the bounds is in the log, and the log holds exactly the matching entries (as a multiset) |
| ExerciseController.CountIsTakenBeforeLimit | controllers/exerciseController.js:96-116 | `count` does not depend on the limit and equals the length of the unlimited log; a positive limit below `count` returns exactly the first `limit` entries, and any other limit returns the whole log |
| ExerciseController.CountIsMatchingRows | controllers/exerciseController.js:96-116 | `count` is the number of the user's rows within the valid bounds: each matching exercise is counted as often as the table holds it, and no other row is counted |
| ExerciseController.InvalidBoundsIgnored | controllers/exerciseController.js:84-92 | a `from` or `to` that is not a valid date is silently ignored: the reply is the same as with no bounds |
| Query.Where | controllers/exerciseController.js:80-92 | the filtered rows are exactly the table rows of the user within the bounds |
| Query.WhereMultiplicity | controllers/exerciseController.js:80-92 | the filter keeps every matching row exactly as often as the table holds it, and drops every other row |
| Query.Entries | controllers/exerciseController.js:117-121 | each log entry carries the description, duration and date of the row at the same position |
| Query.Insert | controllers/exerciseController.js:94 | inserting an entry adds exactly that entry (as a multiset) |
| Query.InsertChronological | controllers/exerciseController.js:94 | inserting into an ascending log keeps it ascending |
| Query.OrderByDate | controllers/exerciseController.js:94 | `ORDER BY date ASC` returns a permutation of its input in ascending date order |
| Query.LimitShape | controllers/exerciseController.js:102-105 | with `limit` added only when non-zero and a negative SQLite LIMIT meaning no bound, the result is a prefix; it is shorter than the input exactly when a positive limit below the row count is given, and then it has exactly `limit` entries |
| InlineApp.CreateUser | index.js:45-77 | same outcomes as the controller version: 400 for a missing or empty name, 400 for a duplicate, otherwise exactly one insert returning the new id |
| InlineApp.GetUsers | index.js:79-88 | returns every stored user and leaves the store unchanged |
| InlineApp.AddExercise | index.js:90-157 | a blank description, a missing or blank duration, a non-numeric or non-positive duration, and an invalid date each give 400 with no insert; the owner is looked up and stored from the body's `":_id"`, and an unknown id gives 404 |
| InlineApp.AddExerciseWithoutId | index.js:159-163 | `POST /api/users//exercises` always answers 400 and never changes the store |
| InlineApp.GetLogs | index.js:165-231 | a missing or non-numeric id gives 400 before any lookup; an unknown user gives 404; the store is never modified; on success the reply names the looked-up user, and the log is a prefix of the user's matching entries in table order, cut to exactly `limit` entries when a positive limit drops rows and complete otherwise; `count` equals the number of returned entries, so it is at most a positive `limit` |
| InlineApp.LogEntriesMatch | index.js:191-203 | every inline log entry is one of the requested user's exercises, not before a valid `from` and not after a valid `to` |
| InlineApp.InvalidBoundsIgnored | index.js:195-203 | on the inline route too, a `from` or `to` that is not a valid date is silently ignored: the reply is the same as with no bounds |
| InlineApp.AddExerciseIgnoresPath | index.js:90-92 | the inline append's outcome does not depend on the path parameter |
| Variants.CreateUserAgrees | index.js:45-77 | the inline and controller create-user handlers give the same response and store for every input |
| Variants.AddExerciseAgreesOnStore | index.js:90-157 | with the body id in place of the path id, the inline append accepts exactly what the controller accepts, leaves the same store, and sends the same success reply; only the error texts differ |
| Variants.BodyIdDecidesInlineOwner | index.js:91 | a valid request for an existing user with no `":_id"` in the body succeeds on the controller route but is a 404 on the inline route |
| Variants.LogsAgreeOnLookup | index.js:176-189 | for an id that passes the inline numeric check, both log routes answer 404 for exactly the same requests |
| Variants.NonNumericIdDiverges | index.js:166-170 | a non-numeric id is a 400 on the inline route and a 404 on the controller route |
| Variants.LogCountsDiverge | index.js:205-220 | the inline count is never above the controller count; they are equal exactly when the limit drops no row; otherwise the inline count equals the limit |
| Variants.LogsAgreeUpToOrder | index.js:191-210 | when the limit drops no row, both logs hold the same entries, and the controller's log is in date order |
| Variants.InlineLogCanBeUnordered | index.js:191-210 | on a valid store where a later-dated exercise was logged first, the inline log is out of date order while the controller's log is sorted |
| Scenarios.AliceLogsARun | controllers/exerciseController.js:4-126 | on a fresh store: creating "alice" gives id 1; a 30-minute run on 2024-01-05 is stored and echoed; the log has count 1 with that entry; an append for user 999 gives 404 and writes nothing |

## Left out

- HTTP and Express plumbing is not modelled. That covers middleware, static files, `sendFile`, `listen`
  and the routers under `routes/`. It is framework glue with no logic.
- SQLite is replaced by the in-memory store. Connection setup and schema bootstrap are left out.
  `ORDER BY` is modelled as a stable sort and `LIMIT` as a take. The engine does not fix the order of
  rows with equal dates, so the two log queries are not compared on ties. Without `ORDER BY`, rows
  come back in table order.
- The status-500 branches for storage failures are left out. They are failures of a foreign call, and
  the model says nothing about when they happen.
- JavaScript coercion is not re-implemented. That covers `isNaN`, `Number`, `parseInt`, and SQLite
  type affinity on the id parameters. Inputs arrive already classified (`IdParam`, `NumberParam`,
  `Option<int>`).
- Reply fields that echo raw request text carry the coerced value instead: the echoed `duration` is a
  number, not the submitted string.
- Request fields are assumed to be strings (or absent). `express.urlencoded({ extended: true })`
  turns a key like `description[]=x`, or a repeated key, into an array or object. Then
  `description.trim()` or `duration.trim()` throws and Express answers 500, and the controller's
  duration check accepts `duration[]=5` because `Number(["5"])` is 5. Neither path is modelled.
- Durations are modelled as exact reals. Floating point, `Infinity` and the INTEGER column affinity are
  not modelled.
- Dates are not formatted with `toDateString`. That call depends on the local time zone, so replies
  carry the instant itself.
- `Params.EntryDate`: the "Invalid Date" branch of the controller append is not modelled. Under the
  strict date check, a date that passes always builds a valid `Date`, so the branch cannot be reached.
- Date validity is not claimed to be dayjs's. `Dates.ParseDate` is a strict `YYYY-MM-DD` and calendar
  check. dayjs without its customParseFormat plugin ignores the format argument and can accept other
  texts.
- JSON reply shapes are not distinguished. Some error bodies are a bare string and others are
  `{error: ...}`; the model keeps only the message text and the status.
- The race between the duplicate-username check and the insert is not modelled. It exists only under
  concurrency, which is out of scope.

## Findings

| source | as written | input that shows it | evidently intended | confidence | as-written member | corrected member |
|---|---|---|---|---|---|---|
| index.js:205-220 | `count` is the length of the result after `LIMIT` is applied | a user with 5 exercises and `limit=2` gets `count` 2 | `count` is the full filtered count before the limit, as in the refactored controller (5 here) | medium, not executed | Variants.LogCountsDiverge | ExerciseController.CountIsTakenBeforeLimit |
| index.js:191-210 | the log query has no `ORDER BY`, so entries come back in table order | a run dated 2024-01-06 logged before a swim dated 2024-01-05 is listed first | the log is in ascending date order, as in the refactored controller | medium, not executed | Variants.InlineLogCanBeUnordered | ExerciseController.GetExerciseLogs |
