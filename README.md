# TernakAja backend: a verified model of the request handlers

TernakAja is a livestock-monitoring backend: farmers register, create farms
and livestock, and read the sensor readings, anomaly records and
notifications attached to each animal. This project models the HTTP handlers
of its six controllers and the Postgres schema they share, in Dafny, and
proves what each handler does to the database and what it answers.

- `values.dfy` (`Values`) covers JSON body fields with JavaScript truthiness
  (`Truthy`, `||` as `Or`, `!== undefined` as `IfDefined`), what an INSERT
  stores for an absent key (`Stored`), and what Postgres makes of a body value
  bound to an integer (`SqlInt`). It also holds timestamps, status codes and
  the handlers' `Reply`.
- `relational.dfy` (`Relational`) gives the SQL the handlers issue a meaning
  over sequences of rows:
  - `WHERE` and `… LIMIT 1` (`Where`, `First`);
  - `DELETE` and `UPDATE` (`Without`, `Modify`, `Update`);
  - inner joins (`Join`);
  - `ORDER BY … DESC` with Postgres' NULLS FIRST (`SortDesc`) and `LIMIT` (`Limit`);
  - the UNIQUE and FOREIGN KEY constraints (`UniqueBy`, `RefersTo`).
- `schema.dfy` (`Schema`) defines the row types of src/db/schema.ts. It also
  has the `Tables` value, the constraint invariant `Consistent`, and the
  shared `Db` object, whose `tables` field every state-changing handler
  reassigns. For each kind of write there is a lemma that the write keeps
  every constraint.
- There is one module per controller: `FarmController`,
  `LivestockController`, `SensorDataController`, `AnomaliesController`,
  `AuthController` and `NotificationsController`.
  - Handlers that write are methods with `modifies db`. Their postconditions
    give the whole new table state and the reply.
  - The livestock, farm, sensor and anomaly read handlers are methods that
    change nothing.
  - Login, the profile lookup and the two notification reports are
    functions over `Tables`.

Inputs the handlers take from outside are parameters:
- the authenticated caller's id;
- path ids, parsed to `Option<int>` (`None` for NaN);
- body fields;
- the current time;
- `new Date(x)` as `toDate`;
- bcrypt's `hash` and `compare`.

A signed token is modelled by its claims (`SessionToken`).

Where src/db/schema.ts and the controllers disagree, the model follows the
controllers, as these cases show:
- The controllers read and write a `farms` table, an `anomalies` table,
  `livestock.farm_id` and `sensor_data.motion_level`, none of which the schema
  declares.
  - They are modelled with the columns the controllers use.
  - `farms` and `anomalies` get no foreign key. `farms` gets a serial id.
  - `anomalies` gets no key at all, because none is ever read.
- `sensor_data` has a serial `id`, as the schema declares, so a livestock may
  own several readings. createLivestock's comment calls `livestockId` the
  primary key, but the model follows the schema here. The get-or-create
  handlers therefore rewrite every row of that livestock.

## Model

| member | source | states |
|---|---|---|
| Values.Or | src/controllers/farmController.ts:140-143 | `v \|\| fallback` yields `v` when truthy, else the fallback; the result is truthy iff either is |
| Values.IfDefined | src/controllers/livestockController.ts:243-249 | `v !== undefined ? v : fallback`: any present value wins, null and 0 included |
| Values.Stored | src/controllers/livestockController.ts:62-79 | an absent key is stored as NULL; a present value as itself |
| Values.DateOr | src/controllers/sensorDataController.ts:119 | a truthy timestamp is parsed, otherwise the current time (detectedAt alike) |
| Values.SqlInt | src/controllers/livestockController.ts:46 | a body id is usable as an integer exactly when it is an integral number within the int4 range of the `integer` column |
| Relational.First | src/controllers/farmController.ts:79-85 | `… WHERE col = v LIMIT 1` yields a matching row, the first in table order, and nothing exactly when no row matches |
| Relational.Where | src/controllers/livestockController.ts:120-123 | a WHERE keeps exactly the rows satisfying it |
| Relational.Join | src/controllers/notificationsController.ts:29-33 | an inner join holds exactly the pairs of rows satisfying the ON condition |
| Relational.WhereUnique | src/db/schema.ts:14-16 | under a UNIQUE column a lookup by it finds at most one row, and exactly one when the value is present |
| Relational.WhereCount | src/controllers/livestockController.ts:318-320 | a WHERE keeps as many rows as there are table positions satisfying it |
| Relational.FirstUnique | src/db/schema.ts:16 | under a UNIQUE column, `LIMIT 1` finds the one row holding the value |
| Relational.WithoutKeepsUnique | src/db/schema.ts:14 | a DELETE keeps every primary key and UNIQUE constraint |
| Relational.SortDescCorrect | src/controllers/notificationsController.ts:35 | `ORDER BY … DESC` (NULLs first) returns a permutation of the rows, ordered |
| Relational.TopRows | src/controllers/notificationsController.ts:35-36 | `ORDER BY key DESC LIMIT n` returns min(n, rows) rows of the input, ordered, none later than any row it left out |
| Relational.JoinDistinct | src/controllers/notificationsController.ts:97-105 | a join of tables without repeated rows repeats no pair |
| Relational.SubMultisetDistinct | src/controllers/notificationsController.ts:35-36 | rows taken from a table without repeats, as `ORDER BY … LIMIT` takes them, repeat none |
| Schema.Db.constructor | src/db/schema.ts:13-80 | the empty database satisfies every declared constraint (keys, unique and non-null email, non-null role, foreign keys); serial sequences start at 1 |
| Schema.FindOwnedLivestock | src/controllers/livestockController.ts:143-152 | the ownership lookup finds a row with that id owned by the caller, and nothing exactly when there is none |
| Schema.InsertUserConsistent | src/db/schema.ts:13-20 | inserting a user with the next serial id and a new email keeps every constraint |
| Schema.InsertLivestockConsistent | src/db/schema.ts:22-47 | inserting a livestock of an existing user with its placeholder reading and anomaly row keeps every constraint |
| Schema.UpdateLivestockConsistent | src/db/schema.ts:22-26 | rewriting a livestock row that keeps its id and owner keeps every constraint |
| Schema.UpdateFarmConsistent | src/db/schema.ts:13-80 | rewriting a farm row that keeps its id keeps every constraint |
| Schema.DeleteLivestockConsistent | src/db/schema.ts:43-80 | deleting a livestock along with its ON DELETE CASCADE rows (sensor_data, devices, notifications) keeps every constraint |
| Schema.RewriteReadingsConsistent | src/db/schema.ts:43-47 | rewriting sensor_data rows in place with ids and livestock kept keeps every constraint |
| Schema.InsertReadingConsistent | src/db/schema.ts:43-47 | inserting a reading of an existing livestock with the next serial id keeps every constraint |
| FarmController.FindOwnedFarm | src/controllers/farmController.ts:79-85 | the farm lookup finds a farm with that id owned by the caller, and nothing exactly when there is none |
| FarmController.MergeFarm | src/controllers/farmController.ts:139-144 | field by field, a truthy body value is taken and a falsy one keeps the stored value; a truthy field is never cleared; id, owner and creation time stay |
| FarmController.MergeFarmIdempotent | src/controllers/farmController.ts:139-144 | repeating an update has no further effect |
| FarmController.CreateFarm | src/controllers/farmController.ts:11-36 | 400 and no change without a truthy name; otherwise exactly one farm, owned by the caller, is appended and returned with 201 |
| FarmController.GetAllFarms | src/controllers/farmController.ts:48-57 | returns exactly the caller's farms, each once |
| FarmController.GetFarmById | src/controllers/farmController.ts:69-97 | 400 for NaN, 404 unless the caller owns a farm with that id, and 200 with that farm whenever the caller owns it |
| FarmController.UpdateFarm | src/controllers/farmController.ts:109-151 | 400 or 404 with no change; otherwise the farm's row is replaced by the merge and returned, other rows unchanged |
| FarmController.DeleteFarm | src/controllers/farmController.ts:163-192 | 400 or 404 with no change; otherwise exactly the one farm with that id is removed |
| LivestockController.RecordedAt | src/controllers/livestockController.ts:76 | a truthy recordedAt is parsed, a falsy one stored as NULL |
| LivestockController.NewLivestock | src/controllers/livestockController.ts:60-80 | the inserted row is owned by the caller, in the given farm, each body field stored as given and every absent one NULL, created and updated now |
| LivestockController.MergeLivestock | src/controllers/livestockController.ts:232-257 | each of the eight `\|\|` fields takes a truthy body value and otherwise keeps the stored one; `!== undefined` fields take any present value; recordedAt kept/cleared/parsed; id, owner, creation kept; updatedAt now |
| LivestockController.NullBodyClearsOnlyMeasurements | src/controllers/livestockController.ts:234-256 | a body of nulls clears exactly height, weight, body condition score, notes and recordedAt |
| LivestockController.EmptyBodyOnlyTouches | src/controllers/livestockController.ts:234-256 | an empty body changes only updatedAt |
| LivestockController.MergeLivestockIdempotent | src/controllers/livestockController.ts:234-256 | repeating an update has no further effect |
| LivestockController.CreateLivestock | src/controllers/livestockController.ts:16-111 | 400, 500, 403 or 500 (caller not a user) with no change; otherwise the livestock, an all-NULL sensor row and an all-NULL anomaly row are appended together and the livestock returned with 201 |
| LivestockController.GetAllLivestock | src/controllers/livestockController.ts:119-128 | returns exactly the caller's livestock, each once |
| LivestockController.GetLivestockById | src/controllers/livestockController.ts:140-164 | 500 for NaN, 404 unless the caller owns it, and 200 with that livestock whenever the caller owns it |
| LivestockController.UpdateLivestock | src/controllers/livestockController.ts:176-264 | 500/404/500/403 with no change; otherwise the row becomes the merge (farm checked when given) and is returned |
| LivestockController.DeleteLivestock | src/controllers/livestockController.ts:276-301 | 500 or 404 with no change; otherwise the livestock and, by cascade, its readings, devices and notifications go; exactly one livestock row is removed |
| LivestockController.SumMatches | src/controllers/livestockController.ts:318-320 | the SUM is NULL over no rows, otherwise exactly the number of positions whose row has that status |
| LivestockController.StatusCountsOf | src/controllers/livestockController.ts:315-324 | total is the row count; each status sum is exactly the number of rows with that status, positive iff one exists; the sums are NULL iff there are no rows |
| LivestockController.StatusCountsBounded | src/controllers/livestockController.ts:317-320 | the three sums are NULL together and otherwise add up to at most the total |
| LivestockController.GetLivestockStatusCounts | src/controllers/livestockController.ts:312-334 | 500 for NaN, otherwise the aggregate of the user's livestock; the 404 branch is unreachable |
| LivestockController.TallySpec | src/controllers/livestockController.ts:348-355 | GROUP BY species gives one group per distinct species with its row count, totals summing to the row count |
| LivestockController.SpeciesCountsUnique | src/controllers/livestockController.ts:348-356 | the species report names each species once |
| LivestockController.SpeciesCountsExact | src/controllers/livestockController.ts:348-356 | each entry's count is the number of rows of its species, and positive |
| LivestockController.SpeciesCountsCover | src/controllers/livestockController.ts:348-356 | every species among the rows has an entry |
| LivestockController.SpeciesCountsOrdered | src/controllers/livestockController.ts:348-356 | the counts add up to the row count and run from largest to smallest |
| LivestockController.SpeciesCountsCorrect | src/controllers/livestockController.ts:348-356 | the species report has one entry per species of the rows, each with its count, ordered by count descending, empty iff no rows |
| LivestockController.GetLivestockSpeciesCounts | src/controllers/livestockController.ts:345-366 | 500 for NaN, 404 exactly when the user has no livestock, otherwise the species counts |
| LivestockController.GetLivestockSensorAnomalies | src/controllers/livestockController.ts:377-430 | rows are exactly the (reading, livestock, anomaly) combinations of the user's livestock; 404 iff there are none |
| LivestockController.GetLivestockSensorAnomaliesById | src/controllers/livestockController.ts:441-498 | rows are exactly the combinations of that livestock, whoever owns it; 404 iff there are none |
| LivestockController.ReportByIdIgnoresOwner | src/controllers/livestockController.ts:484-491 | a consistent database in which a user who owns no livestock matches another user's livestock report row |
| LivestockController.NonOwnerGetsReport | src/controllers/livestockController.ts:441-498 | run on that database, the by-id handler answers 200 with a row of user 1's livestock, which user 2 does not own, since it never reads the caller |
| LivestockController.GetOwnedLivestockSensorAnomaliesById | src/controllers/livestockController.ts:484-491 | the report restricted to the caller: rows exactly the combinations of that livestock owned by the caller; 404 whenever the caller does not own it |
| SensorDataController.SetReading | src/controllers/sensorDataController.ts:115-120 | the readings and timestamp are replaced; id, livestock and sp02 are kept |
| SensorDataController.UpsertReadings | src/controllers/sensorDataController.ts:103-135 | existing rows of the livestock are rewritten in place and nothing is added, or exactly one new row is appended; other livestock's rows are unchanged; the livestock ends with a row holding the readings |
| SensorDataController.UpsertReadingsIdempotent | src/controllers/sensorDataController.ts:103-135 | repeating the same update has no further effect |
| SensorDataController.UpsertReadingsConsistent | src/controllers/sensorDataController.ts:103-135 | the get-or-create for a livestock that exists keeps every constraint, inserting with the next serial id |
| SensorDataController.GetSensorData | src/controllers/sensorDataController.ts:11-49 | 400 for NaN, 404 unless the caller owns the livestock, otherwise its first reading or null |
| SensorDataController.UpdateSensorData | src/controllers/sensorDataController.ts:61-140 | 400, 400 (a reading absent), 404 with no change; otherwise the get-or-create, the serial advancing only on insert, returning the row written |
| AnomaliesController.SetAnomaly | src/controllers/anomaliesController.ts:113-123 | type, severity, resolved and detection time are replaced; absent notes are kept, present notes (null included) replace them |
| AnomaliesController.NewAnomaly | src/controllers/anomaliesController.ts:125-136 | the inserted row carries the given fields; absent notes are stored as NULL |
| AnomaliesController.UpsertAnomalies | src/controllers/anomaliesController.ts:103-137 | existing rows of the livestock are rewritten and nothing added, or exactly one row appended; other livestock's rows unchanged |
| AnomaliesController.UpsertAnomaliesIdempotent | src/controllers/anomaliesController.ts:103-137 | repeating the same update has no further effect |
| AnomaliesController.GetAnomaliesData | src/controllers/anomaliesController.ts:11-49 | 400 for NaN, 404 unless the caller owns the livestock, otherwise its first anomaly row or null |
| AnomaliesController.UpdateAnomaliesData | src/controllers/anomaliesController.ts:61-142 | 400, 400 (a required field absent), 404 with no change; otherwise the get-or-create, returning the row written |
| AuthController.SessionFor | src/controllers/authController.ts:47-57 | the token carries the user's own id and email, the same as the returned user's |
| AuthController.SessionHidesPassword | src/controllers/authController.ts:52 | nothing returned about a user depends on the stored password hash |
| AuthController.Register | src/controllers/authController.ts:9-58 | 400 with no change when a field is falsy or the email is taken; with all fields truthy and a new email, exactly one user with the hashed password is appended and its session returned with 201; no other reply |
| AuthController.Login | src/controllers/authController.ts:66-99 | 400 when a field is falsy; one identical 401 for an unknown email and a wrong password; 200 only with the session of a user holding that email whom compare accepts |
| AuthController.LoginSucceedsIff | src/controllers/authController.ts:74-98 | with unique emails, login succeeds iff the email's user accepts the password, and returns that user's session |
| AuthController.GetProfile | src/controllers/authController.ts:110-132 | 401 for a missing or zero id, 404 exactly when no user has it, otherwise that user without the password |
| AuthController.RegisterThenLogin | src/controllers/authController.ts:33-50 | after a successful register the same email and password log in as the new user, and its profile is readable |
| NotificationsController.UserNotifications | src/controllers/notificationsController.ts:29-34 | the rows are exactly the user's notifications joined with the livestock they concern |
| NotificationsController.NotificationsDistinct | src/controllers/notificationsController.ts:29-36 | over a consistent database no joined notification row repeats, neither among all of the user's rows nor among the latest four |
| NotificationsController.LatestNotifications | src/controllers/notificationsController.ts:29-36 | at most 4 of the user's joined notifications, taken from them, newest first (NULL first), none older than any left out |
| NotificationsController.GetRecentNotifications | src/controllers/notificationsController.ts:14-46 | 500 for NaN; otherwise the latest notifications of the user, never empty on 200; 404 exactly when the user has none |
| NotificationsController.GetNotificationsWithLivestockAndSensorData | src/controllers/notificationsController.ts:57-120 | 500 for NaN; rows are exactly (notification of the user, its livestock, a reading of that livestock); 404 exactly when there are none |
| NotificationsController.OneDetailPerPair | src/controllers/notificationsController.ts:97-106 | over a consistent database each (notification, reading) pair yields exactly one row, and no row repeats |

## Left out

- HTTP plumbing: response messages, console logging and the `catch` that turns any exception into 500. A 500 is modelled only where the model knows the failure: NaN or a non-integer id reaching Postgres, and a livestock insert whose caller is not a user.
- Signing and verifying tokens (`jsonwebtoken`) and the authentication middleware. The caller's id is a parameter, and a token is its claims.
- bcrypt. `hash` and `compare` are supplied functions, and the random salt is folded into `hash`. A bcrypt call that throws on a non-string password is not modelled.
- Parsing dates (`new Date(x)`) and reading the clock are supplied as `toDate` and `now`.
- Numeric strings that Postgres would coerce for an integer column are not modelled. `SqlInt` accepts only JSON numbers.
- Path ids outside the int4 range (−2^31 to 2^31−1): Postgres rejects such a parameter and the handler's catch answers 500, whereas the model looks the id up like any other and so answers as for an id no row holds (404, or an empty report). Serial sequences are not bounded by int4 either. Body ids (`farmId`) are range-checked by `SqlInt`.
- Column type coercion and NULL comparison semantics in `WHERE col = v`: the model compares JSON values for equality.
- The real-valued and text columns are held as JSON values and are not validated against their SQL types.
- Concurrency. Each handler runs alone, so the race between register's email check and its insert, and between a get-or-create's check and its insert, is not modelled. Transactions are atomic by construction.
- Row order of unordered queries: a table's sequence order stands in for the order Postgres happens to return.
- `SELECT` projections: the reports return whole rows where the handlers pick a subset of columns.
- src/controllers/deviceController.ts and src/utils/sas.ts (Azure IoT shared-access signatures: HMAC, base64, clock), route wiring, src/index.ts and src/db/drizzle.ts are not part of this model.
- LivestockController.GetLivestockSensorAnomalies: states which rows occur, not how often each occurs.
- LivestockController.GetLivestockSensorAnomaliesById: states which rows occur, not how often each occurs.
- LivestockController.GetOwnedLivestockSensorAnomaliesById: states which rows occur, not how often each occurs.
- NotificationsController.LatestNotifications: does not state which of several rows with equal `sent_at` are kept at the limit of 4, since Postgres leaves that open.

## Findings

| source | as written | input that shows it | evidently intended | confidence | as-written member | corrected member |
|---|---|---|---|---|---|---|
| src/controllers/livestockController.ts:484-491 | the by-id sensor/anomaly report filters by livestock id only (`and(eq(livestockTable.id, livestockId))`, with no second condition) | user 2, who owns no livestock, requests the report of livestock 1, which user 1 owns; that livestock has a reading and an anomaly row | also require `livestock.user_id` to be the caller, as the one-armed `and(…)` and the "or you do not have access" 404 message indicate | medium, not executed | LivestockController.NonOwnerGetsReport | LivestockController.GetOwnedLivestockSensorAnomaliesById |
