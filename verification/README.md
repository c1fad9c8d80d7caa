# fastingapi, modelled in Dafny

fastingapi is a small web API for intermittent fasting. Users register. They
start a fast, which becomes their single active fast until they end it, and
they list their fasts page by page. Weight entries are stored with a
body-mass index. An older single-user version (`old/_old.py`) keeps one
global table of fasts. It adds soft deletion, a history sorted by start time,
summary statistics and edit operations. Its times travel as
`%Y-%m-%dT%H:%M` strings, read and printed by `swap_dt`.

This project models that core as pure functions over an immutable store:

- `Schema` is the three tables as records. The store is one sequence per
  table, in insertion order.
- `Query` holds SQL `.first()`, `filter` and `OFFSET`/`LIMIT` with SQLite's
  rules for negative values, the key of a new row, and `max`.
- `Fasts` holds the request validators, the per-user queries, and the start
  and end transitions.
- `Users` holds the user queries, registration and the profile view with
  the live duration of the active fast.
- `Weights` holds pound-to-kilogram normalisation and the BMI.
- `Endpoints` holds the handlers of `main.py`. Each handler that writes
  returns the store it leaves behind and its answer; a refused request leaves
  the store unchanged. The reading handlers return only their answer.
- `DateTimeText` holds `swap_dt`: `strftime` and CPython's `strptime` rules
  for the one layout, and Python's `toordinal`-based minute count.
- `Legacy` holds the single-user lifecycle of `old/_old.py`.

Times are whole minutes. The current time is a parameter `now`.

## Model

| member | source | states |
|---|---|---|
| Query.FirstIndex | modules/fasts.py:61-63 | `.first()` after a filter: none exactly when no row matches, otherwise the position of a matching row with no match before it |
| Query.First | modules/users.py:39-40 | the first matching row, which is a stored row satisfying the filter, or none exactly when no row matches |
| Query.Where | modules/fasts.py:57-58 | the filter keeps exactly the matching rows: each kept row matches, every matching row is kept, and nothing beyond the input's rows appears |
| Query.WhereAppend | modules/fasts.py:57-58 | filtering distributes over concatenation of tables |
| Query.Offset | modules/users.py:43-44 | where SQLite starts reading: a negative offset counts as 0 and an offset past the end leaves nothing |
| Query.Page | modules/users.py:43-44 | `OFFSET`/`LIMIT`: a contiguous run starting at the offset, no longer than a non-negative limit, and running to the end of the table whenever it is shorter than the limit or the limit is negative |
| Query.PageConcat | modules/users.py:43-44 | the page at `skip` of size `a` followed by the page at `skip + a` of size `b` is the page at `skip` of size `a + b` |
| Query.PageOfFullPrefix | modules/fasts.py:57-58 | once a page has `limit` rows, rows appended later do not change it |
| Query.NextId | database/database.py:31-33 | a new integer primary key exceeds every existing key; it is 1 for an empty table and otherwise one more than the largest key |
| Query.Max | old/_old.py:67 | Python's `max`: an element of the list that no element exceeds |
| Fasts.ValidateFastCreate | modules/fasts.py:25-30 | a start time is accepted exactly when it is not after now; a refusal is a 422 with the validator's message |
| Fasts.ValidateFastEnd | modules/fasts.py:49-54 | an end time is accepted exactly when it is not after now; a refusal is a 422 with the validator's message |
| Fasts.ActiveIndex | modules/fasts.py:61-63 | the position of an uncompleted fast of the user, or none exactly when the user has no uncompleted fast |
| Fasts.GetActiveFast | modules/fasts.py:61-63 | a stored, uncompleted fast of this user, or none exactly when the user has none |
| Fasts.ActiveFastIsUnique | modules/fasts.py:61-63 | when no user has two uncompleted fasts, the active fast found is the user's only uncompleted fast |
| Fasts.PageOfUserIsOwned | modules/fasts.py:57-58 | every row of a page of a user's fasts is a stored fast of that user |
| Fasts.GetFasts | modules/fasts.py:57-58 | one scan of the table that skips the user's first `skip` fasts and keeps at most `limit` more is exactly the `OFFSET`/`LIMIT` page of the user's fasts; every returned row is theirs |
| Fasts.CreateUserFast | modules/fasts.py:66-72 | appends exactly one row, an uncompleted and undeleted fast of the user with the request's start and planned end, no end, no duration and a fresh key; the other tables are untouched |
| Fasts.EndUserFast | modules/fasts.py:75-81 | only the ended row changes; it becomes completed with the requested end and a duration of end minus start, which may be negative, and every other field keeps its value |
| Users.HashPassword | modules/users.py:48 | the stored credential is the password followed by the fixed suffix `notreallyhashed` |
| Users.HashPasswordInjective | modules/users.py:48 | two passwords with the same stored credential are equal |
| Users.GetUser | modules/users.py:30-36 | for a stored user: that user's row, and the active fast exactly when the user has one, shown with the live duration now minus start and otherwise equal to the stored row |
| Users.GetUserByEmail | modules/users.py:39-40 | a stored user with exactly this email, or none exactly when no user has it |
| Users.GetUsers | modules/users.py:43-44 | `OFFSET`/`LIMIT` over the users table: a contiguous run from the offset, at most `limit` long, exactly `limit` long when the table has that many rows past the offset, and running to the end of the table whenever it is shorter than the limit or the limit is negative |
| Users.CreateUser | modules/users.py:47-53 | appends exactly one user, with the email, the suffixed password, active, no weight, height, goal weight or unit, and a fresh key |
| Weights.Normalize | modules/weights.py:30-33 | an imperial entry is stored as weight times 0.45359237 with unit `kgs`; a metric entry keeps its weight and unit |
| Weights.CalculateBmi | modules/weights.py:42-43 | the BMI times the square of the fixed height 1.72 is the weight; a non-negative weight has a non-negative BMI |
| Weights.BmiStrictlyIncreasing | modules/weights.py:42-43 | a heavier weight has a larger BMI |
| Weights.UserWeightIn | modules/weights.py:30-39 | appends exactly one entry for the user with the normalised weight and unit, the entry time, a fresh key and the BMI of the normalised weight |
| Weights.ImperialBmiMatchesMetric | modules/weights.py:30-35 | an entry of `w` pounds gets the BMI of an entry of `w * 0.45359237` kilograms |
| Endpoints.CreateUser | main.py:28-34 | registration fails exactly when a stored user already has the email, with a 400 and the store unchanged; otherwise it appends exactly one user, with the email, the suffixed password, active, no weight, height, goal weight or unit, and a fresh key, leaving fasts and weights untouched |
| Endpoints.CreateUserKeepsEmailsDistinct | main.py:28-34 | if no two users share an email before registration, none do after it |
| Endpoints.ReadUsers | main.py:37-40 | the `OFFSET`/`LIMIT` page of the users table: a contiguous run from the offset, at most `limit` long, and running to the end of the table whenever it is shorter than the limit or the limit is negative |
| Endpoints.ReadUserAsWritten | main.py:43-48 | as written: the request fails exactly when no user has the id, and then with a 500, because the lookup dereferences the missing row first; otherwise it answers the profile `get_user` builds |
| Endpoints.ReadUserAsWrittenNeverNotFound | main.py:43-48 | the handler as written never answers 404; an unknown id on an empty store answers 500 |
| Endpoints.ReadUser | main.py:43-48 | 404 "User not found" exactly when no user has the id; otherwise the profile `get_user` builds for that stored user, active fast and live duration included |
| Endpoints.ReadUserVersionsAgree | main.py:43-48 | the handler as written and the corrected one succeed on the same requests with the same profile; they differ only in the 500 versus 404 for an unknown id |
| Endpoints.CreateFastForUser | main.py:51-58 | a future start is a 422; otherwise the request fails exactly when the user has a fast in progress, with a 400; a failure leaves the store unchanged; a success appends exactly one fast of the user, uncompleted, undeleted, with the requested start and planned end, no end, no duration and a fresh key, and leaves users and weights untouched |
| Endpoints.EndFastForUser | main.py:61-68 | a future end is a 422; otherwise the request fails exactly when the user has no fast in progress, with a 400; a success replaces only the active fast, by its completed version with the requested end and duration end minus start and every other field as it was, and leaves users and weights untouched |
| Endpoints.ReadFasts | main.py:71-74 | exactly the `OFFSET`/`LIMIT` page of the user's fasts in store order, all stored fasts of that user |
| Endpoints.StartKeepsOneActive | main.py:51-58 | starting a fast keeps at most one uncompleted fast per user |
| Endpoints.EndKeepsOneActive | main.py:61-68 | ending a fast keeps at most one uncompleted fast per user |
| Endpoints.EndTwiceFails | main.py:61-68 | after a successful end, a second end that is not in the future is refused with "There is no fast is in progress" |
| Endpoints.StartLeavesOthersAlone | main.py:51-58 | starting a fast for one user leaves every other user's fasts as they were |
| Endpoints.EndLeavesOthersAlone | main.py:61-68 | ending a fast for one user leaves every other user's fasts as they were |
| Endpoints.StartThenProfileShowsFast | modules/users.py:30-36 | after a successful start, the profile's active fast is the new fast with duration now minus its start |
| Endpoints.EndBeforeStartIsAccepted | modules/fasts.py:75-81 | an end earlier than the start is accepted and stores a negative duration |
| DateTimeText.Format | old/_old.py:139 | `strftime('%Y-%m-%dT%H:%M')` prints 16 characters, each field zero-padded |
| DateTimeText.Parse | old/_old.py:137 | `strptime('%Y-%m-%dT%H:%M')`: every accepted string denotes an existing date and time |
| DateTimeText.ParseFormat | old/_old.py:135-139 | reading what was printed gives back the same date and time |
| DateTimeText.FormatParse | old/_old.py:135-139 | printing what was read from a full-width string with an upper-case `T` gives back that string |
| DateTimeText.ParseAcceptsUnpadded | old/_old.py:137 | reading is not one-to-one: `2021-1-5t3:7` reads as the same value as `2021-01-05T03:07`, so printing cannot restore every string that reads |
| DateTimeText.ParseUnpaddedExample | old/_old.py:137 | `2021-1-5t3:7` reads as 2021-01-05 03:07: one-digit fields and a lower-case `t` are accepted |
| DateTimeText.ParseCanonicalExample | old/_old.py:137 | `2021-01-05T03:07` reads as 2021-01-05 03:07 |
| DateTimeText.EpochMinutesMonotone | old/_old.py:58 | a date and time earlier in field order has a smaller minute count, so ordering by the count is ordering by `datetime` |
| DateTimeText.EpochMinutesInjective | old/_old.py:101 | distinct date-times have distinct minute counts, so differences of counts are `datetime` differences |
| DateTimeText.ParseMinutes | old/_old.py:135-137 | a count exactly when the string reads, and then the count of the value read |
| Legacy.IndexOf | old/_old.py:48-50 | `get`: the position of a row with this id, or none exactly when no row has it |
| Legacy.ActiveFast | old/_old.py:52-54 | a stored fast neither deleted nor completed, or none exactly when no fast is running |
| Legacy.StartFast | old/_old.py:38-46 | succeeds exactly when no fast runs and the start reads; refused first while a fast runs, then when the start does not read; a success appends exactly one running fast with the start read, the planned duration and a fresh key |
| Legacy.DeleteFast | old/_old.py:84-86 | fails exactly when no row has the id; otherwise only that row changes, and only its deleted flag is set |
| Legacy.CalculateDuration | old/_old.py:98-103 | a completed fast gets and returns the duration end minus start; any other fast is unchanged and nothing is returned |
| Legacy.EndTimeOf | old/_old.py:89-94 | an empty time means now; any other time is read with `swap_dt` |
| Legacy.EndFast | old/_old.py:89-96 | succeeds exactly when a row has the id and the time is empty or reads; on success only that row changes: completed, with the given end or now and duration end minus start |
| Legacy.EditFast | old/_old.py:111-114 | succeeds exactly when a row has the id and the start reads; on success only that row changes: its start becomes the time read and its planned duration the new one |
| Legacy.EditStart | old/_old.py:106-109 | as written: succeeds exactly when a row has the id and the time reads; the row then keeps its start, and only a completed fast's duration is recomputed from the old times |
| Legacy.EditEnd | old/_old.py:116-119 | as written: succeeds exactly when a row has the id and the time reads; the row then keeps its end, and only a completed fast's duration is recomputed from the old times |
| Legacy.EditsAsWrittenKeepTimes | old/_old.py:106-119 | the edits as written never move a fast's start or end, whatever time they are given |
| Legacy.EditStartAsWrittenExample | old/_old.py:106-109 | a fast starting at minute 0 edited to start at 2021-01-05T03:07 still starts at minute 0 |
| Legacy.EditStartIntended | old/_old.py:106-109 | intended: succeeds exactly when a row has the id and the time reads; only that row changes; its start becomes the time read, every other field but the duration keeps its value (id, end, flags and planned duration included), and a completed fast's duration is the new end minus start |
| Legacy.EditEndIntended | old/_old.py:116-119 | intended: succeeds exactly when a row has the id and the time reads; only that row changes; its end becomes the time read, every other field but the duration keeps its value (id, start, flags and planned duration included), and a completed fast's duration is end minus start |
| Legacy.InsertByStart | old/_old.py:58 | inserting into a list sorted latest start first keeps it sorted and adds exactly that one fast |
| Legacy.SortByStartDesc | old/_old.py:58 | `order_by(desc(start_time))`: sorted latest start first, and a permutation of its input |
| Legacy.FastHistory | old/_old.py:56-58 | `fast_history`: sorted latest start first, a permutation of the finished fasts, and contains a fast exactly when it is stored, completed and not deleted |
| Legacy.StatsOf | old/_old.py:65-77 | the count of the list, the sum of its durations, the longest duration and the latest end (each one attained by some fast and exceeded by none), and now minus the latest end |
| Legacy.GetStats | old/_old.py:60-82 | nothing exactly when no fast is finished; otherwise the history's size and total duration, its longest duration and latest end time (each attained by a fast in the history and exceeded by none), and now minus that end |
| Legacy.HistoryEmptyIff | old/_old.py:62-66 | the history is empty exactly when no stored fast is completed and not deleted |
| Legacy.TotalOfSort | old/_old.py:69 | sorting does not change the total duration |
| Legacy.StatsMatchTable | old/_old.py:60-69 | the count and the total do not depend on the history's order: they are those of the finished fasts in table order |
| Legacy.StartFastKeepsConsistent | old/_old.py:38-46 | starting keeps ids unique, completed fasts timed and at most one fast running |
| Legacy.DeleteFastKeepsConsistent | old/_old.py:84-86 | deleting keeps the table consistent |
| Legacy.EndFastKeepsConsistent | old/_old.py:89-96 | ending keeps the table consistent |
| Legacy.EditFastKeepsConsistent | old/_old.py:111-114 | editing keeps the table consistent |
| Legacy.EditsKeepConsistent | old/_old.py:106-119 | both start and end edits, as written and as intended, keep the table consistent |
| Legacy.DeleteThenStart | old/_old.py:38-54 | deleting the running fast frees the slot, so a start whose time reads then succeeds |

## Left out

- HTTP, FastAPI routing, SQLAlchemy sessions, commits and refreshes are not modelled. Each handler that writes is a function from the store to a new store and an answer; the reading handlers return only their answer.
- Pydantic body validation is modelled only for the two time validators. A missing or mistyped field (the framework's 422) is not modelled.
- The import-time defaults of `FastCreate`, `FastEnd` and `WeightBase` are not modelled. Those fields take the time the module was loaded, not the request time. Bodies here always carry their times.
- A `null` end time in a `FastEnd` body is not modelled. The `end_time` validator still runs on it, and comparing `None` with the current time raises, so the request is refused before `end_user_fast` runs; depending on the pydantic version that refusal is a 422 or a 500.
- Concurrency is not modelled. The check for an active fast followed by the insert is not atomic in the source.
- Fasts.CreateUserFast: the user's existence is not checked, matching the source. The foreign key is not enforced by SQLite by default.
- Users.GetUser requires that the user exists, because the source dereferences the row unconditionally. Endpoints.ReadUserAsWritten models what happens otherwise.
- Floating point is not modelled: weights and BMI use exact reals.
- Time resolution is whole minutes. Seconds and microseconds of `utcnow()` and `now()` are not modelled.
- UTC (`utcnow`) versus local time (`now`, `today`) is not modelled. Every clock reading is the one parameter `now`.
- The response models are not modelled. `users.User` hides the password and the fast timedelta is serialised; nothing here depends on that.
- The unit `kgs` stored for imperial entries is not modelled as failing the response's enum.
- The router route of `new_weight_for_user` is not modelled beyond `user_weight_in`.
- The code names the models `db_models.User` and `db_models.Fast`, but the schema declares `DBUser` and `DBFast`. The model uses the declared tables and fields.
- DateTimeText.Parse does not model non-ASCII digits, which CPython's `\d` also accepts. Every other field rule is modelled: the year takes exactly four digits, the other fields one or two, and the day may also be a space followed by a digit 1–9.
- DateTimeText.Format assumes a four-digit year. Some platforms' `strftime` print years below 1000 without padding.
- `active_fast_info`, the `humanize` texts and the templates of the legacy app are not modelled. They are presentation only.
- Legacy.GetStats returns the figures `get_stats` renders, not the rendered text. The `now` it also returns is this model's parameter.
- `import_fast_data` is not modelled. It reads a JSON file and is commented out.
- Legacy.StartFast and Legacy.EditFast take the planned duration as an integer. The legacy form passes it as a string into an Integer column.
- Legacy.EndFast is atomic: a time that does not read leaves the table unchanged. In the source `completed` has already been set on the row when `swap_dt` raises, nothing rolls back the one module-level session, and the next commit of any operation stores a completed fast with no end time and no duration. That row breaks `CompletedAreTimed`, which Legacy.GetStats, Legacy.EditStart and Legacy.EditEnd require, and `get_stats` then fails summing its missing duration. The model does not follow the table into that state.
- Legacy.EditStart and Legacy.EditEnd require completed fasts to have an end time. The source's `calculate_duration` would raise on a completed fast without one.
- A start of a fast later than its planned end, or an end before its start, is accepted, as in the source.
- The source does not reconcile a planned duration with a planned end time: only the planned end is stored and the planned duration stays empty.

## Findings

| source | as written | input that shows it | evidently intended | confidence | as-written member | corrected member |
|---|---|---|---|---|---|---|
| modules/users.py:31-32 | `get_user` sets `active_fast` on the result of `.first()` before anyone checks it, so for an unknown id it fails on `None`. The handler's 404 branch in main.py:46-47 can never run. | `GET /users/1` on an empty store answers 500 | 404 with "User not found" | not executed | Endpoints.ReadUserAsWritten | Endpoints.ReadUser |
| old/_old.py:106-109 | `edit_start` assigns `self.start`, which is not a column. The stored start never changes, and the duration is recomputed from the old start. | `edit_start("2021-01-05T03:07")` on a fast starting at minute 0 leaves the start at minute 0 | set `start_time` and recompute the duration from it | not executed | Legacy.EditStart | Legacy.EditStartIntended |
| old/_old.py:116-119 | `edit_end` assigns `self.end`, which is not a column. The stored end never changes, and the duration is recomputed from the old end. | `edit_end("2021-01-05T03:07")` on any fast leaves its end time as it was | set `end_time` and recompute the duration from it | not executed | Legacy.EditEnd | Legacy.EditEndIntended |
