# Fitness tracker request handlers, modelled in Dafny

This project models the request handlers of a small PHP fitness-tracking
application. Users register and log in. They record workouts, either from a
full form (date, type, duration, notes, optional photo) or by finishing a
guided training page. The dashboard shows today's count, the lifetime count,
progress towards a daily goal of two workouts, and a five-day trend chart.

The shared state is modelled as two objects, as the handlers see it:

- `Store.Database` holds the `users` and `workouts` tables as sequences of
  rows, plus the next auto-increment id of each table.
- `Store.Session` holds the session keys `user_id`, `username` and
  `workout_type`. An unset key is `None`.

Each page is a module with a `Handle` method that reads or changes these
objects with `modifies`. Each `Handle` states the complete new state for each
branch of the page. The SQL statements are functions over the table contents:
`FindUserByName`, `FindUserById`, `CountOf`, `CountOn`, `DeleteWhere` and
`GroupedRows`. The lemmas about these functions carry most of the properties.

The same holds for PHP's own semantics, in module `Php`. That covers
`empty()`, truthiness and `basename()`. It also covers the insertion-ordered
array: `Put` is `$a[$k] = $v` ("overwrite in place if the key exists, else
append"), `PutAll` is a `foreach` of such writes, and `Values` is
`array_values`. The dashboard's loops are methods that change nothing: `BuildWindow`
and `Overlay`. Each has loop invariants and is proved equal to its
specification function.

Days are integer day numbers. "Today" and "now" are parameters. The password
hash is a symbolic term, and the salt that `password_hash` draws is a
parameter. `password_verify` accepts exactly the password the digest was
computed from, as an ideal hash would. Real bcrypt hashes only the first 72
bytes of a password, so it also accepts any password that shares those bytes
with the registered one; the model rejects such a password. The row order of the `GROUP BY` query
is SQL's choice, so `Dashboard.Handle` takes the rows as input. Its
precondition `GroupedRows` says what the rows must contain, and
`Store.GroupByDay` shows that such rows exist for every table.

Two behaviours of the code worth noting:

- A successful login writes only `user_id`, not the username. The dashboard
  fills the username in later, and only when the session has none.
  `Scenarios.StaleGreetingAfterLogin` shows the consequence: a browser that
  registered as one user and then logs in as another still greets the first.
- The two insert paths write different columns. The form writes `date`, and
  the training page writes `workout_date`. The dashboard's total counts every
  row of the user, but today's count and the trend read only `workout_date`,
  so a workout from the form adds to the total and to no day.

## Model

| member | source | states |
|---|---|---|
| `Php.Empty` | app/register.php:11 | PHP `empty()` on a string: true exactly for "" and "0" |
| `Php.Truthy` | app/dashboard.php:20 | a string in an `if` is true exactly when `empty()` is false: neither "" nor "0" |
| `Php.Basename` | app/add_workout.php:21 | the result holds no '/'; it starts at the path's start or right after a '/', and only '/' follows it, so it is the last component once trailing slashes go; it is empty only for a path of slashes; a path without '/' is its own basename |
| `Php.Put` | app/dashboard.php:52 | assigning to an existing key keeps its position and length and replaces only that entry; a new key is appended at the end; keys stay distinct |
| `Php.LastValueOfDistinct` | app/dashboard.php:66-67 | with distinct row keys, the value a key ends up with is the one row carrying it |
| `Php.LastValueAbsent` | app/dashboard.php:66-67 | a key no row carries keeps its old value |
| `Php.PutAll` | app/dashboard.php:66-68 | the `foreach` of assignments keeps keys distinct and never shrinks the array; it grows by at most one entry per row |
| `Php.Values` | app/dashboard.php:71 | one value per entry, each entry's value at that entry's position: insertion order |
| `Php.ValuesOfPut` | app/dashboard.php:52 | after an assignment, `array_values` has the new value at the old position of an existing key, or appended for a new key |
| `Php.PutAllPrefix` | app/dashboard.php:66-68 | overwriting never removes or moves an existing entry; each one keeps its key and takes the value of the last row for that key, or keeps its own |
| `Php.PutAllKeys` | app/dashboard.php:66-68 | every row's key appears in the result; every entry past the original ones comes from some row |
| `Php.PutAllLength` | app/dashboard.php:66-71 | the array keeps its length if and only if every row's key was already present |
| `Store.PasswordVerify` | app/login.php:14 | `password_verify` of the ideal hash: true for the password the digest was computed from; `Store.PasswordHash` states that no other password verifies |
| `Store.PasswordHash` | app/register.php:28 | the digest verifies for the password it was made from and for no other password |
| `Store.FindUserByName` | app/login.php:10-12 | the row found has the requested name; none is found if and only if no row has that name |
| `Store.FindUserById` | app/dashboard.php:16-18 | the row found has the requested id; none is found if and only if no row has that id |
| `Store.FindUserByNameUnique` | app/login.php:10-12 | with unique usernames, looking up a user's name finds that user |
| `Store.FindUserByNameAppended` | app/register.php:31-32 | a user appended under an unused name is what a later lookup of that name finds |
| `Store.FindUserByIdUnique` | app/dashboard.php:16-18 | with unique ids, looking up a user's id finds that user |
| `Store.CountOf` | app/dashboard.php:34-36 | the total is at most the table size, and 0 exactly when no row belongs to the user |
| `Store.CountOn` | app/dashboard.php:29-31 | the day's count is at most the table size; `Store.CountOnPositive` says when it is positive |
| `Store.CountOnAtMostCountOf` | app/dashboard.php:28-36 | today's count never exceeds the total count |
| `Store.CountOnPositive` | app/dashboard.php:29 | a day's count is positive if and only if some row of the user has its `workout_date` on that day |
| `Store.CountsAfterInsert` | app/add_workout.php:27-28 | an insert raises its owner's total by one and the count of the row's own day by one; other users' counts do not move |
| `Store.InsertUndated` | app/add_workout.php:27-28 | a row inserted without `workout_date` raises its owner's total by one and leaves every day's count as it was |
| `Store.AppendFreshWorkout` | app/add_workout.php:27-28 | a row inserted under the next auto-increment id keeps workout ids unique and below the advanced counter |
| `Store.DeleteWhere` | app/delete_workout.php:14-15 | no remaining row matches both id and user; every other row remains; nothing is added |
| `Store.DeleteWhereConcat` | app/delete_workout.php:14-15 | the delete works row by row: deleting from two halves and joining is deleting from the whole, so surviving rows keep their order and multiplicity |
| `Store.DeleteWhereSingle` | app/delete_workout.php:14-15 | a single row survives exactly when it does not match both id and user |
| `Store.DeleteNothingMatches` | app/delete_workout.php:14-15 | with no matching row the table is identical, order included |
| `Store.DeleteOthersWorkout` | app/delete_workout.php:14-15 | deleting a workout that belongs to another user leaves the table identical |
| `Store.DeleteIdempotent` | app/delete_workout.php:14-15 | a second identical delete changes nothing |
| `Store.DeleteCounts` | app/delete_workout.php:14-15 | other users' counts are untouched; the caller's total drops by exactly the number of rows removed |
| `Store.DeleteKeepsUniqueIds` | app/delete_workout.php:14-15 | deleting keeps workout ids unique |
| `Store.DeleteRemovesAtMostOne` | app/delete_workout.php:14-15 | with unique ids, exactly one row goes when the caller owns a row of that id, otherwise none |
| `Store.DaysIn` | app/dashboard.php:57-60 | each day once, each in the window with a positive count, and every such day listed |
| `Store.GroupedRows` | app/dashboard.php:56-63 | an answer of the `GROUP BY` query: distinct days, each in the window with its positive count, every such day present, in any order |
| `Store.GroupByDay` | app/dashboard.php:56-63 | the grouped query always has an answer satisfying `GroupedRows`, whatever the table holds |
| `Register.Handle` | app/register.php:7-41 | non-POST: form, nothing changes; empty or "0" username or password: the empty-fields message, nothing changes; taken name: the taken message, nothing changes; otherwise exactly one user row is appended, holding the new id, the name and the password's digest; the session gets that id and name; usernames stay unique |
| `Login.Handle` | app/login.php:6-21 | never writes the users table; non-POST changes nothing; `user_id` is set, to the found user's id, exactly when the user exists and the password verifies; the username key is left as it was; otherwise the one generic message and an unchanged session |
| `Login.Accepts` | app/login.php:14 | `$user && password_verify(...)`: a user of that name exists and the password verifies against that user's stored digest |
| `Login.AcceptsRegistered` | app/login.php:10-15 | with unique usernames, a user's name is accepted exactly with a password that verifies against that user's digest, and logs in as that user |
| `DeleteWorkout.Handle` | app/delete_workout.php:6-17 | without a session nothing changes and the page redirects to login; otherwise the table becomes `DeleteWhere` of the old table for the session user; the invariant is kept |
| `AddWorkout.ImagePath` | app/add_workout.php:19-25 | a path exists exactly when a file was uploaded with error code 0; it is "uploads/" followed by the file name's basename, which holds no '/' |
| `AddWorkout.NewRow` | app/add_workout.php:27-28 | the inserted row carries the id, the user, the four form fields and the image path as given, and falls on no day (`workout_date` stays NULL) |
| `AddWorkout.Handle` | app/add_workout.php:6-31 | without a session, or on a non-POST, nothing is inserted; a POST appends exactly one row with the session user, the fields as submitted, `date` and not `workout_date`, and the image path; the user's total rises by one and no day's count changes |
| `TrainingTemplate.SessionWorkoutType` | app/training_template.php:14 | the session's workout type when set, else the empty string |
| `TrainingTemplate.FinishedRow` | app/training_template.php:19-20 | the inserted row carries the id, the user and the workout type, falls on the day `now` and no other, and leaves `date`, duration, notes and image NULL |
| `TrainingTemplate.Handle` | app/training_template.php:6-25 | without a session: the error message, nothing inserted; a row is inserted only for a POST with `finish_workout`, holding user, type and `workout_date = now` and nothing else; each such request adds a new row; the user's total and the count for `now` each rise by one |
| `Dashboard.GreetingName` | app/dashboard.php:16-24 | the guest name, or the name of a user with that id when that name is truthy; the guest name when no such user exists |
| `Dashboard.GreetingOfRegistered` | app/dashboard.php:16-24 | with unique ids, a user whose name `empty()` accepts is greeted by that name |
| `Dashboard.Progress` | app/dashboard.php:38-42 | at most 100; below 100 it is exactly count × 100 / goal; 100 if and only if count ≥ 2; 0 if and only if count is 0 |
| `Dashboard.Labels` | app/dashboard.php:49-51 | five days, consecutive and strictly increasing, the last one today |
| `Dashboard.Prefilled` | app/dashboard.php:49-53 | its keys are the labels, in order, each mapped to 0 |
| `Dashboard.PrefilledHasKey` | app/dashboard.php:49-53 | a day is a key of the pre-filled array if and only if it lies in today−4..today |
| `Dashboard.BuildWindow` | app/dashboard.php:45-53 | the loop produces the labels and the pre-filled array |
| `Dashboard.Overlay` | app/dashboard.php:65-68 | the `foreach` loop produces `PutAll` of the pre-filled array and the rows |
| `Dashboard.Trend` | app/dashboard.php:66-71 | the series has at least the five pre-filled values and at most one more per grouped row |
| `Dashboard.TrendShape` | app/dashboard.php:56-71 | for grouped rows in any order: the series has at least five values; each label day the window covers gets its count, or 0 when it has no rows; exactly five values if and only if every row's day lies in today−4..today |
| `Dashboard.QueryWindow` | app/dashboard.php:59 | the query as written admits exactly the days from today−5 onward, with no upper bound |
| `Dashboard.AsWrittenTrend` | app/dashboard.php:56-71 | with the query's own window: the first five values are always the five days' counts; the series has exactly five values if and only if the user has no workout dated today−5 and none dated after today |
| `Dashboard.CorrectedWindow` | app/dashboard.php:49-53 | the corrected window admits exactly the days from the first label to the last |
| `Dashboard.CorrectedTrend` | app/dashboard.php:44-71 | with the window today−4..today: exactly one value per label, each being that day's count |
| `Dashboard.Handle` | app/dashboard.php:6-71 | without `user_id`: redirect, and the session is unchanged; a set username is kept, an unset one becomes the greeting name; today's count, the total count (today ≤ total), progress, labels and the series as above; other users' rows never contribute |
| `Scenarios.RegisterThenLogin` | app/login.php:14-15 | right after registering, a login with the same credentials succeeds as the new user |
| `Scenarios.RegisterTwice` | app/register.php:18-25 | a second registration of one name is refused and one account remains |
| `Scenarios.RegisterZero` | app/register.php:12-15 | the username "0" is refused as empty and nothing is inserted |
| `Scenarios.DeleteByOtherUser` | app/delete_workout.php:14-15 | another user's delete request for a workout leaves the table identical |
| `Scenarios.AddRaisesTotal` | app/add_workout.php:27-28 | a workout added from the form raises the dashboard total by one and leaves today's count and the progress unchanged |
| `Scenarios.SingleRowGrouped` | app/dashboard.php:56-63 | a one-row table groups to that row's day with count 1 |
| `Scenarios.TrendWithOneEarlierDay` | app/dashboard.php:66-71 | one row for today−5 gives the series [0, 0, 0, 0, 0, 1] |
| `Scenarios.TemplateFiveDaysAgo` | app/dashboard.php:59 | a training finished five days ago yields five labels but six values, [0, 0, 0, 0, 0, 1] |
| `Scenarios.StaleGreetingAfterLogin` | app/login.php:15 | after logging in as a second user without logging out, the session holds the second user's id but still the first user's name |

## Findings

| source | as written | input that shows it | evidently intended | confidence | as-written member | corrected member |
|---|---|---|---|---|---|---|
| app/dashboard.php:59 | the trend query selects rows from today−5 onward and has no upper bound, but only today−4..today are pre-filled (lines 49-53) | a workout finished on the training page exactly five days ago: its day is appended after today, and the chart gets six values for five labels | the query window is the five label days, one value per label | high (not executed) | `Scenarios.TemplateFiveDaysAgo` (with `Dashboard.AsWrittenTrend`) | `Dashboard.CorrectedTrend` |

`Dashboard.Handle` models the page as written, so it keeps the query's own
window: its contract states when the series gets longer than the labels.
`Dashboard.CorrectedWindow` is the window a fix would use. `Dashboard.CorrectedTrend`
proves that the series then always matches the labels.

## Left out

- Dashboard.Handle: uses the query window as written (today−5 onward), not the corrected one, because it models the page's code; see Findings.
- Php.PutAllKeys: says which keys the appended entries carry, not their order, which is the order the rows first bring them in.
- HTML rendering, `htmlspecialchars` escaping, redirects as HTTP headers and the Chart.js configuration: presentation only. Each page outcome is a datatype value.
- The training page's countdown timer runs in the browser. The model takes it as having no effect on the submission, as in the source.
- app/send_feedback.php (outbound mail), app/db.php (connection setup) and app/index.php (a bare redirect) are not modelled. logout.php and the pages that set `workout_type` in the session are not part of this model; `workout_type` is taken as found.
- `password_hash` and `password_verify` call bcrypt. Here they are a symbolic digest that stores its salt and preimage, and a verify that compares the preimage: an ideal hash with no collisions. Bcrypt's one certain collision is not modelled: it reads only the first 72 bytes of a password, so `password_verify` accepts a longer password that agrees with the registered one on those bytes, which `Login.Handle` rejects.
- `move_uploaded_file` and the file system: only the stored path is modelled. Two uploads with the same name overwriting each other is not modelled.
- Calendar arithmetic: dates are day numbers and the time of day is dropped. PHP's `date()` and MySQL's `CURDATE()`/`NOW()` are assumed to agree on the current day; a time-zone difference between them is not modelled.
- The database schema is not part of the sources. The `workout_date` column is assumed to have no default, so it stays NULL on rows from the form; likewise `date` is assumed to have no default, so it stays NULL on rows from the training page (`TrainingTemplate.FinishedRow`).
- PHP's float division in the progress: with a goal of 2 the value is always whole, so integer arithmetic gives the same numbers.
- PDO exceptions: connection failures, failed inserts and the raw error text the training page echoes.
- The check-then-insert race in registration: it needs concurrent requests, and the model is sequential.
- SQL comparisons of usernames are exact equality. MySQL's usual case-insensitive collations, which ignore trailing spaces, are not modelled.
- A missing `username` or `password` field is the empty string. `empty()` treats both the same way in registration. In login, a NULL name matches no row, while "" would match a user named "", and registration cannot create one.
- `$_GET['id']` is an integer. MySQL's conversion of a non-numeric id string is not modelled.
- PDO returns counts as strings, so the JSON series mixes the pre-filled PHP integers 0 with the overwritten counts as strings. The model uses integers throughout.
- `basename` uses '/' as its only separator. Windows separators and locale-dependent multibyte handling are not modelled.
