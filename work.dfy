/** The daily background job (work/RefreshAsteroidDataWorker.kt): refresh the table from the
    feed, then delete past asteroids, and tell the scheduler whether the run succeeded. */
module Work {
  import opened Dates
  import opened Asteroids
  import opened DataTransferObjects
  import opened Database
  import opened Repository

  /** `Result.success()` and `Result.retry()`. */
  datatype WorkResult = Success | Retry

  /** The `catch (e: HttpException)` clause of `doWork`: an HttpException turns into a retry,
      any other exception escapes `doWork` unchanged. */
  function Caught(f: Fault): (r: Completion<WorkResult>)
    ensures r == Returned(Retry) <==> f == HttpException
    ensures r.Threw? <==> f != HttpException
    ensures f != HttpException ==> r == Threw(f)
  {
    match f
    case HttpException => Returned(Retry)
    case OtherException => Threw(f)
  }

  /** The table after one run of the job: refresh first, eviction second. */
  function RefreshCycle(rows: map<Long, Asteroid>, today: string, fetch: FetchResult,
                        insertStore: StoreOutcome, deleteStore: StoreOutcome): map<Long, Asteroid>
  {
    AfterRemoval(AfterRefresh(rows, fetch, insertStore), today, deleteStore)
  }

  /** `doWork`: a fresh repository over the database refreshes, then removes old data. Both
      calls catch every exception themselves, so the HttpException handler never runs and the
      job always reports success. */
  method DoWork(database: AsteroidDao, today: string, fetch: FetchResult,
                insertStore: StoreOutcome, deleteStore: StoreOutcome)
    returns (r: Completion<WorkResult>)
    requires database.Valid()
    modifies database
    ensures database.Valid()
    ensures r == Returned(Success)
    ensures database.rows == RefreshCycle(old(database.rows), today, fetch, insertStore, deleteStore)
  {
    var repository := new AsteroidRepository(database);
    var c := repository.RefreshAsteroidData(today, fetch, insertStore);
    match c {
      case Threw(f) =>
        assert false;
        r := Caught(f);
        return;
      case Returned(_) =>
    }
    c := repository.RemoveOldAsteroidData(today, deleteStore);
    match c {
      case Threw(f) =>
        assert false;
        r := Caught(f);
        return;
      case Returned(_) =>
    }
    r := Returned(Success);
  }

  /** When the delete commits, no past asteroid is left after a run, whether or not the fetch
      succeeded; rows dated today or later that were there after the refresh all remain. */
  lemma CycleLeavesNoPastRows(rows: map<Long, Asteroid>, today: string, fetch: FetchResult,
                              insertStore: StoreOutcome)
    ensures var refreshed := AfterRefresh(rows, fetch, insertStore);
            var after := RefreshCycle(rows, today, fetch, insertStore, Committed);
            && (forall k :: k in after ==> !TextLess(after[k].closeApproachDate, today))
            && (forall k :: k in refreshed && !TextLess(refreshed[k].closeApproachDate, today) ==>
                             k in after && after[k] == refreshed[k])
  {
  }

  /** Running the job twice on the same day with the same feed response and the same write
      outcomes leaves the table as running it once. */
  lemma {:induction false} RefreshCycleIdempotent(rows: map<Long, Asteroid>, today: string,
                                                  fetch: FetchResult, insertStore: StoreOutcome,
                                                  deleteStore: StoreOutcome)
    ensures var once := RefreshCycle(rows, today, fetch, insertStore, deleteStore);
            RefreshCycle(once, today, fetch, insertStore, deleteStore) == once
  {
    var once := RefreshCycle(rows, today, fetch, insertStore, deleteStore);
    if fetch.Fetched? && insertStore == Committed {
      var batch := AsDatabaseModel(fetch.container);
      if deleteStore == Committed {
        EvictAfterUpsertIdempotent(rows, batch, today);
      } else {
        UpsertIdempotent(rows, batch);
      }
    } else if deleteStore == Committed {
      EvictIdempotent(rows, today);
    }
  }
}
