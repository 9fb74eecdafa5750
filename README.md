# Asteroid Radar: the asteroid cache, modelled in Dafny

Asteroid Radar is an Android app. It downloads near-Earth asteroid records from the NASA
feed, keeps them in a local Room table and shows one of three views: today, this week or all.
This project models the app's cache layer and proves properties of it:

- **The table and its DAO** (`database.dfy`, module `Database`). The table is a class
  `AsteroidDao` whose `rows` field is a `map<Long, Asteroid>` keyed by asteroid id. Its
  methods mirror the DAO's SQL:
  - `GetTodaysAsteroids` is the `=` query on `closeApproachDate`.
  - `GetWeeksAsteroids` is the `>=` query. It has no upper bound, whatever the "7 days"
    comment says.
  - `GetAllAsteroids` is the full scan. All three queries are ordered by date.
  - `InsertAll` upserts with `REPLACE`.
  - `RemoveOldData` deletes the rows dated before a day and returns how many it deleted.

  A query's result is specified only up to the order of rows that share a date, because
  the SQL gives no tie-break. The scan method visits the rows in an unspecified order.
- **Dates** (`dates.dfy`, module `Dates`). Dates are `yyyy-MM-dd` strings. They are compared
  as SQLite compares TEXT values: character by character, with a proper prefix first.
  `DateOrderIsCalendarOrder` proves that, for well-formed dates, this order is the order of
  (year, month, day).
- **The repository** (`repository.dfy`, module `Repository`). It is a class with the
  `repositoryFilter` field (initially `WEEK`) and the published list `_asteroids`. The
  published list is `Option<seq<Asteroid>>`, because the LiveData holds no value until the
  first publication. `Condition` maps each filter to the query it publishes.
  `RefreshAsteroidData` upserts the fetched batch. It then republishes the ALL view under
  `ALL` and the WEEK view under `WEEK`. Under `TODAY` it calls `getToday()`, which only
  formats a date, so the published list is left as it was. The model keeps this as the
  code has it. Every exception is caught.
- **Record conversion** (`data_transfer_objects.dfy`, module `DataTransferObjects`).
  `asDatabaseModel` is a field-by-field copy. It is proved to lose nothing: a reverse copy
  inverts it.
- **The daily job** (`work.dfy`, module `Work`). `DoWork` builds a fresh repository, refreshes
  the table, then removes old rows. The `HttpException` handler can never run, so the job
  always reports success.

Inputs from outside the code become parameters:
- `today` stands for `getToday()`.
- `fetch` is the outcome of the Retrofit request plus the JSON parse: `Fetched(container)`
  or `FetchFailed`.
- `store` says whether a DAO write commits (`Committed`) or throws (`Failed`). Room runs
  each write in a transaction, so a failed write leaves the table unchanged.

The model keeps these behaviours of the code:
- The queries order by date only, with no id tie-break.
- No malformed record is skipped.
- Fetch errors are not split into network and parse errors, and the repository catches
  them all, so a failed fetch never leads to a retry.
- The published list is not refreshed after an eviction.
- The WEEK query has no upper bound.

## Model

| member | source | states |
|---|---|---|
| `Dates.TextLessIrreflexive` | starter/app/src/main/java/com/udacity/asteroidradar/database/Room.kt:32 | no date is before itself, so `< today` never selects a row dated today |
| `Dates.TextLessTransitive` | starter/app/src/main/java/com/udacity/asteroidradar/database/Room.kt:20 | the SQL text order on dates is transitive |
| `Dates.TextLessTrichotomy` | starter/app/src/main/java/com/udacity/asteroidradar/database/Room.kt:24 | any two distinct dates are ordered one way and never both ways, so `order by closeApproachDate` is a total order |
| `Dates.TextAtLeastTransitive` | starter/app/src/main/java/com/udacity/asteroidradar/database/Room.kt:20 | the `>=` comparison of the WEEK query is transitive |
| `Dates.DateOrderIsCalendarOrder` | starter/app/src/main/java/com/udacity/asteroidradar/Constants.kt:4 | for `yyyy-MM-dd` strings, text `<` holds exactly when the date is earlier in (year, month, day) order, and text equality is equality of the three fields |
| `DataTransferObjects.AsDatabaseModel` | starter/app/src/main/java/com/udacity/asteroidradar/api/DataTransferObjects.kt:26-38 | the output has the input's length, and element i is built from input element i; an empty container gives no rows |
| `DataTransferObjects.RecordCopyIsBijective` | starter/app/src/main/java/com/udacity/asteroidradar/api/DataTransferObjects.kt:28-37 | each of the eight fields is copied unchanged into the field of the same name, and the record copy is inverted by the reverse copy both ways |
| `DataTransferObjects.AsDatabaseModelRoundTrip` | starter/app/src/main/java/com/udacity/asteroidradar/api/DataTransferObjects.kt:26-38 | converting a container and converting back yields the container's list: length, order and fields are all kept |
| `DataTransferObjects.AsDatabaseModelIds` | starter/app/src/main/java/com/udacity/asteroidradar/api/DataTransferObjects.kt:29 | the set of ids of the rows is the set of ids of the feed records |
| `Database.AsteroidDao.constructor` | starter/app/src/main/java/com/udacity/asteroidradar/database/Room.kt:43-47 | the first-ever build of the `asteroids` database file has an empty, validly keyed table |
| `Database.AsteroidDao.GetTodaysAsteroids` | starter/app/src/main/java/com/udacity/asteroidradar/database/Room.kt:16-17 | returns exactly the stored rows dated `closeApproach`, each once, in date order |
| `Database.AsteroidDao.GetWeeksAsteroids` | starter/app/src/main/java/com/udacity/asteroidradar/database/Room.kt:19-21 | returns exactly the stored rows dated `closeApproach` or later, each once, in date order, with no upper bound |
| `Database.AsteroidDao.GetAllAsteroids` | starter/app/src/main/java/com/udacity/asteroidradar/database/Room.kt:23-25 | returns every stored row exactly once (the result is as long as the table), in date order |
| `Database.AsteroidDao.Scan` | starter/app/src/main/java/com/udacity/asteroidradar/database/Room.kt:16-25 | a table scan returns exactly the rows its WHERE condition selects, with distinct ids and as many as were selected, sorted by date, with no tie-break |
| `Database.AsteroidDao.InsertAll` | starter/app/src/main/java/com/udacity/asteroidradar/database/Room.kt:27-29 | the table becomes the old table with the batch upserted record by record, and rows stay keyed by id |
| `Database.AsteroidDao.RemoveOldData` | starter/app/src/main/java/com/udacity/asteroidradar/database/Room.kt:31-33 | the table keeps exactly the rows not dated before `today`; the returned count is the number of rows dated before `today`, which is the drop in table size |
| `Database.UpsertedKeeps` | starter/app/src/main/java/com/udacity/asteroidradar/database/Room.kt:28-29 | after an upsert the ids are the old ids plus the batch ids, and every row whose id is not in the batch is unchanged |
| `Database.UpsertedLastWins` | starter/app/src/main/java/com/udacity/asteroidradar/database/Room.kt:28 | a batch id maps to the last record in the batch with that id (REPLACE, last write wins) |
| `Database.UpsertedKeyed` | starter/app/src/main/java/com/udacity/asteroidradar/database/Room.kt:28-29 | an upsert keeps every row stored under its own id |
| `Database.UpsertedOverrides` | starter/app/src/main/java/com/udacity/asteroidradar/database/Room.kt:28 | for an id the batch carries, the row after the upsert does not depend on what was stored before |
| `Database.UpsertIdempotent` | starter/app/src/main/java/com/udacity/asteroidradar/database/Room.kt:28-29 | upserting the same batch twice gives the same table as upserting it once |
| `Database.EvictedSpec` | starter/app/src/main/java/com/udacity/asteroidradar/database/Room.kt:32-33 | the delete removes exactly the rows dated before `today`, leaves the others untouched, and the number removed is the count of those rows |
| `Database.EvictIdempotent` | starter/app/src/main/java/com/udacity/asteroidradar/database/Room.kt:32-33 | a second delete with the same date changes nothing and finds no row to remove |
| `Database.EvictAfterUpsertIdempotent` | starter/app/src/main/java/com/udacity/asteroidradar/work/RefreshAsteroidDataWorker.kt:26-27 | repeating an upsert followed by a delete, with the same batch and date, changes nothing further |
| `Repository.AsteroidRepository.constructor` | starter/app/src/main/java/com/udacity/asteroidradar/repository/AsteroidRepository.kt:22-33 | a new repository has filter WEEK and has published nothing yet |
| `Repository.AsteroidRepository.GetAllAsteroids` | starter/app/src/main/java/com/udacity/asteroidradar/repository/AsteroidRepository.kt:94-101 | sets the filter to ALL and publishes the whole table, each row once, in date order; the table is unchanged |
| `Repository.AsteroidRepository.GetWeeksAsteroids` | starter/app/src/main/java/com/udacity/asteroidradar/repository/AsteroidRepository.kt:104-109 | sets the filter to WEEK and publishes exactly the rows dated today or later, in date order; the table is unchanged |
| `Repository.AsteroidRepository.GetTodaysAsteroids` | starter/app/src/main/java/com/udacity/asteroidradar/repository/AsteroidRepository.kt:112-119 | sets the filter to TODAY and publishes exactly the rows dated today, in date order; the table is unchanged |
| `Repository.AsteroidRepository.RefreshAsteroidData` | starter/app/src/main/java/com/udacity/asteroidradar/repository/AsteroidRepository.kt:42-74 | never throws and never changes the filter; on a failed fetch or a failed write the table and the published list are unchanged; otherwise the batch is upserted and the current filter's view is republished, except under TODAY, where the published list stays as it was |
| `Repository.AsteroidRepository.RemoveOldAsteroidData` | starter/app/src/main/java/com/udacity/asteroidradar/repository/AsteroidRepository.kt:77-91 | never throws; deletes exactly the rows dated before today when the write commits and nothing otherwise; filter and published list unchanged |
| `Repository.FiltersNest` | starter/app/src/main/java/com/udacity/asteroidradar/database/Room.kt:16-25 | every row the TODAY filter selects is selected by WEEK, and every row WEEK selects is selected by ALL |
| `Repository.RefreshIdempotent` | starter/app/src/main/java/com/udacity/asteroidradar/repository/AsteroidRepository.kt:56 | refreshing twice with the same feed response and the same write outcome leaves the table as refreshing once |
| `Work.Caught` | starter/app/src/main/java/com/udacity/asteroidradar/work/RefreshAsteroidDataWorker.kt:29-30 | the job answers `retry` exactly when an HttpException escapes; any other exception, and only such an exception, escapes the job unchanged |
| `Work.DoWork` | starter/app/src/main/java/com/udacity/asteroidradar/work/RefreshAsteroidDataWorker.kt:19-32 | refreshes first and evicts second on a fresh repository; always returns `success`; the table ends as the refresh cycle of the old table |
| `Work.CycleLeavesNoPastRows` | starter/app/src/main/java/com/udacity/asteroidradar/work/RefreshAsteroidDataWorker.kt:26-27 | when the delete commits, no row dated before today is left, whatever the fetch outcome; every refreshed row dated today or later stays |
| `Work.RefreshCycleIdempotent` | starter/app/src/main/java/com/udacity/asteroidradar/work/RefreshAsteroidDataWorker.kt:25-28 | running the job twice on one day with the same feed response and the same insert and delete outcomes leaves the table as running it once |

## Left out

- Threading: `withContext(Dispatchers.IO)` and the asynchronous `postValue` are left out. The repository is modelled as sequential, and a publication takes effect at once.
- LiveData observers are not modelled: nothing models subscribing to or being notified of a publication.
- The synchronized lazy singleton in `getDatabase` is not modelled. The job receives the DAO as a parameter.
- Reopening the persistent `asteroids` file is not modelled as its own operation: the constructor models only the first-ever build, with an empty table. A table holding earlier runs' rows is covered because `Work.DoWork` accepts a DAO with any valid contents.
- The clock: `getToday()` is the `today` parameter. The source calls it for the request, again for the republish query and a third time in `removeOldAsteroidData`. The model uses one value for all three, so neither a refresh that straddles midnight nor a job run that straddles midnight between the refresh and the delete is covered.
- The network and JSON: the Retrofit request, the API token and `parseAsteroidsJsonResult` are left out. They become the `fetch` parameter. `parseAsteroidsJsonResult` is not part of this model.
- Store faults: these are the `store` parameters of the insert and the delete. An exception thrown by the republish query after a committed insert is not modelled.
- `Log.e` logging is left out.
- `DatabaseAsteroid` and `asDomainModel` are not part of this model. One record type with the eight fields of `Asteroid` is used for both table rows and published items, so `asDomainModel` is taken to be the identity.
- `Double` fields are kept as their 64-bit patterns and never computed with.
- Ids are 64-bit `Long` values, but no arithmetic is done on them.
- `Database.AsteroidDao.RemoveOldData`: the Kotlin `Int` count is an unbounded integer, so overflow past 2^31 - 1 deleted rows is not modelled.
- Dates are compared character by character, where a Dafny `char` is a Unicode scalar value. Ordering by scalar value is the same as ordering by UTF-8 bytes, so on a UTF-8 database the comparison matches SQLite's BINARY collation for all text. Databases in a UTF-16 encoding are not modelled.
- The UI, `MainViewModel`, the image of the day and the WorkManager scheduling constraints are outside the cache and are not modelled.
