/** The repository over the asteroid table (repository/AsteroidRepository.kt): it owns the
    current filter and the published list, refreshes the table from the feed and removes past
    asteroids. The clock is the `today` parameter; the network call and the JSON parse are
    the `fetch` parameter; whether a DAO write commits is the `store` parameter. */
module Repository {
  import opened Dates
  import opened Asteroids
  import opened DataTransferObjects
  import opened Database

  datatype RepositoryFilter = ALL | WEEK | TODAY

  datatype Option<T> = None | Some(value: T)

  /** The exceptions the code tells apart: Retrofit's HttpException, and any other. */
  datatype Fault = HttpException | OtherException

  /** How a call ends: it returns, or an exception escapes it. */
  datatype Completion<T> = Returned(value: T) | Threw(fault: Fault)

  /** The feed request and the parse of its JSON: a container of records, or an exception. */
  datatype FetchResult = Fetched(container: NetworkAsteroidContainer) | FetchFailed

  /** Whether a DAO write commits, or throws and leaves the table as it was (Room runs each
      write in a transaction). */
  datatype StoreOutcome = Committed | Failed

  /** Which query each filter publishes, evaluated on `today`. */
  function Condition(filter: RepositoryFilter, today: string): DateCondition
  {
    match filter
    case ALL => AnyDay
    case WEEK => OnOrAfter(today)
    case TODAY => SameDay(today)
  }

  /** The table after `refreshAsteroidData`: the fetched batch upserted when the fetch
      succeeded and the write committed, the old table otherwise. */
  function AfterRefresh(rows: map<Long, Asteroid>, fetch: FetchResult, store: StoreOutcome): map<Long, Asteroid>
  {
    if fetch.Fetched? && store == Committed then Upserted(rows, AsDatabaseModel(fetch.container))
    else rows
  }

  /** The table after `removeOldAsteroidData`. */
  function AfterRemoval(rows: map<Long, Asteroid>, today: string, store: StoreOutcome): map<Long, Asteroid>
  {
    if store == Committed then Evicted(rows, today) else rows
  }

  class AsteroidRepository {
    const database: AsteroidDao
    /** `_asteroids`: no value until something is first published. */
    var published: Option<seq<Asteroid>>
    var repositoryFilter: RepositoryFilter

    ghost predicate Valid()
      reads this, database
    {
      database.Valid()
    }

    constructor (database: AsteroidDao)
      requires database.Valid()
      ensures this.database == database && Valid()
      ensures repositoryFilter == WEEK && published == None
    {
      this.database := database;
      published := None;
      repositoryFilter := WEEK;
    }

    /** `getAllAsteroids`: select ALL and publish the whole table in date order. */
    method GetAllAsteroids()
      requires Valid()
      modifies this
      ensures Valid() && database.rows == old(database.rows)
      ensures repositoryFilter == ALL
      ensures published.Some? && IsQueryResult(database.rows, AnyDay, published.value)
      ensures published.Some? && |published.value| == |database.rows|
    {
      repositoryFilter := ALL;
      var rows := database.GetAllAsteroids();
      published := Some(rows);
    }

    /** `getWeeksAsteroids`: select WEEK and publish the rows dated today or later. */
    method GetWeeksAsteroids(today: string)
      requires Valid()
      modifies this
      ensures Valid() && database.rows == old(database.rows)
      ensures repositoryFilter == WEEK
      ensures published.Some? && IsQueryResult(database.rows, OnOrAfter(today), published.value)
    {
      repositoryFilter := WEEK;
      var rows := database.GetWeeksAsteroids(today);
      published := Some(rows);
    }

    /** `getTodaysAsteroids`: select TODAY and publish the rows dated today. */
    method GetTodaysAsteroids(today: string)
      requires Valid()
      modifies this
      ensures Valid() && database.rows == old(database.rows)
      ensures repositoryFilter == TODAY
      ensures published.Some? && IsQueryResult(database.rows, SameDay(today), published.value)
    {
      repositoryFilter := TODAY;
      var rows := database.GetTodaysAsteroids(today);
      published := Some(rows);
    }

    /** `refreshAsteroidData`: upsert the fetched batch, then republish under the current
        filter. Under TODAY the source calls `getToday()`, which only formats a date, so the
        published list stays as it was. Every exception is caught and logged. */
    method RefreshAsteroidData(today: string, fetch: FetchResult, store: StoreOutcome)
      returns (c: Completion<()>)
      requires Valid()
      modifies this, database
      ensures Valid() && c == Returned(())
      ensures repositoryFilter == old(repositoryFilter)
      ensures database.rows == AfterRefresh(old(database.rows), fetch, store)
      ensures !(fetch.Fetched? && store == Committed) || repositoryFilter == TODAY ==>
                published == old(published)
      ensures fetch.Fetched? && store == Committed && repositoryFilter != TODAY ==>
                published.Some? &&
                IsQueryResult(database.rows, Condition(repositoryFilter, today), published.value)
    {
      c := Returned(());
      match fetch {
        case FetchFailed =>
          // the failed request or parse is caught and logged
        case Fetched(container) =>
          if store == Failed {
            // insertAll throws and rolls back; the exception is caught and logged
            return;
          }
          database.InsertAll(AsDatabaseModel(container));
          match repositoryFilter {
            case ALL => GetAllAsteroids();
            case TODAY =>
            case WEEK => GetWeeksAsteroids(today);
          }
      }
    }

    /** `removeOldAsteroidData`: delete the rows dated before today. Neither the filter nor
        the published list changes; a store exception is caught and logged. */
    method RemoveOldAsteroidData(today: string, store: StoreOutcome) returns (c: Completion<()>)
      requires Valid()
      modifies database
      ensures Valid() && c == Returned(())
      ensures database.rows == AfterRemoval(old(database.rows), today, store)
      ensures repositoryFilter == old(repositoryFilter) && published == old(published)
    {
      c := Returned(());
      if store == Committed {
        var removed := database.RemoveOldData(today);
      }
    }
  }

  /** The three filters are nested views: what TODAY shows, WEEK shows, and what WEEK shows,
      ALL shows. */
  lemma FiltersNest(today: string, a: Asteroid)
    ensures Condition(TODAY, today).Holds(a.closeApproachDate) ==> Condition(WEEK, today).Holds(a.closeApproachDate)
    ensures Condition(WEEK, today).Holds(a.closeApproachDate) ==> Condition(ALL, today).Holds(a.closeApproachDate)
  {
    TextLessIrreflexive(today);
  }

  /** Refreshing twice with the same feed response and the same write outcome leaves the table
      as refreshing once. */
  lemma RefreshIdempotent(rows: map<Long, Asteroid>, fetch: FetchResult, store: StoreOutcome)
    ensures AfterRefresh(AfterRefresh(rows, fetch, store), fetch, store) == AfterRefresh(rows, fetch, store)
  {
    if fetch.Fetched? && store == Committed {
      UpsertIdempotent(rows, AsDatabaseModel(fetch.container));
    }
  }
}
