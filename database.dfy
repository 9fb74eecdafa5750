/** The asteroid table and its DAO (database/Room.kt): rows keyed by asteroid id, three date
    queries ordered by close-approach date, a keyed upsert and a delete of past rows. */
module Database {
  import opened Dates
  import opened Asteroids

  /** Every row is stored under its own id: `id` is the table's primary key. */
  ghost predicate KeyedById(rows: map<Long, Asteroid>)
  {
    forall k :: k in rows ==> rows[k].id == k
  }

  /** Record `a` is a row of the table. */
  predicate InTable(rows: map<Long, Asteroid>, a: Asteroid)
  {
    a.id in rows && rows[a.id] == a
  }

  /** The WHERE clauses of the three queries, on the `closeApproachDate` column. */
  datatype DateCondition = SameDay(day: string) | OnOrAfter(day: string) | AnyDay
  {
    predicate Holds(date: string)
    {
      match this
      case SameDay(d) => date == d
      case OnOrAfter(d) => !TextLess(date, d)
      case AnyDay => true
    }
  }

  /** The ids of the rows a condition selects. */
  ghost function Selected(rows: map<Long, Asteroid>, cond: DateCondition): set<Long>
  {
    set k | k in rows && cond.Holds(rows[k].closeApproachDate)
  }

  /** `order by closeApproachDate`: no row is dated before one that precedes it. */
  predicate SortedByDate(v: seq<Asteroid>)
  {
    forall i, j :: 0 <= i < j < |v| ==> !TextLess(v[j].closeApproachDate, v[i].closeApproachDate)
  }

  predicate DistinctIds(v: seq<Asteroid>)
  {
    forall i, j :: 0 <= i < j < |v| ==> v[i].id != v[j].id
  }

  /** `v` is a result of `select * ... where cond order by closeApproachDate`: each selected row
      exactly once, nothing else, in date order. Rows that share a date may come in any order. */
  ghost predicate IsQueryResult(rows: map<Long, Asteroid>, cond: DateCondition, v: seq<Asteroid>)
  {
    && SortedByDate(v)
    && DistinctIds(v)
    && (forall a :: a in v <==> InTable(rows, a) && cond.Holds(a.closeApproachDate))
    && |v| == |Selected(rows, cond)|
  }

  /** `insertAll` with OnConflictStrategy.REPLACE: the records are written one after the other,
      each replacing any row with its id. */
  function Upserted(rows: map<Long, Asteroid>, batch: seq<Asteroid>): map<Long, Asteroid>
    decreases |batch|
  {
    if batch == [] then rows
    else
      var last := batch[|batch| - 1];
      Upserted(rows, batch[..|batch| - 1])[last.id := last]
  }

  /** Position `i` holds the last record of the batch with that id. */
  predicate LastWithId(batch: seq<Asteroid>, i: int)
    requires 0 <= i < |batch|
  {
    forall j :: i < j < |batch| ==> batch[j].id != batch[i].id
  }

  lemma IdsSnoc(batch: seq<Asteroid>)
    requires batch != []
    ensures Ids(batch) == Ids(batch[..|batch| - 1]) + {batch[|batch| - 1].id}
  {
  }

  /** After an upsert the table holds the old ids and the batch ids, and every row whose id
      the batch does not carry is unchanged. */
  lemma {:induction false} UpsertedKeeps(rows: map<Long, Asteroid>, batch: seq<Asteroid>)
    ensures Upserted(rows, batch).Keys == rows.Keys + Ids(batch)
    ensures forall k :: k in rows && k !in Ids(batch) ==> Upserted(rows, batch)[k] == rows[k]
    decreases |batch|
  {
    if batch != [] {
      UpsertedKeeps(rows, batch[..|batch| - 1]);
      IdsSnoc(batch);
    }
  }

  /** After an upsert a batch id maps to the last batch record with that id. */
  lemma {:induction false} UpsertedLastWins(rows: map<Long, Asteroid>, batch: seq<Asteroid>, i: int)
    requires 0 <= i < |batch| && LastWithId(batch, i)
    ensures batch[i].id in Upserted(rows, batch)
    ensures Upserted(rows, batch)[batch[i].id] == batch[i]
    decreases |batch|
  {
    var n := |batch| - 1;
    if i < n {
      var init := batch[..n];
      assert init[i] == batch[i];
      assert LastWithId(init, i);
      UpsertedLastWins(rows, init, i);
    }
  }

  /** An upsert keeps every row stored under its own id. */
  lemma {:induction false} UpsertedKeyed(rows: map<Long, Asteroid>, batch: seq<Asteroid>)
    requires KeyedById(rows)
    ensures KeyedById(Upserted(rows, batch))
    decreases |batch|
  {
    if batch != [] {
      UpsertedKeyed(rows, batch[..|batch| - 1]);
    }
  }

  /** For an id the batch carries, the upsert's result does not depend on the old table. */
  lemma {:induction false} UpsertedOverrides(m1: map<Long, Asteroid>, m2: map<Long, Asteroid>,
                                             batch: seq<Asteroid>, k: Long)
    requires k in Ids(batch)
    ensures k in Upserted(m1, batch) && k in Upserted(m2, batch)
    ensures Upserted(m1, batch)[k] == Upserted(m2, batch)[k]
    decreases |batch|
  {
    var n := |batch| - 1;
    IdsSnoc(batch);
    if batch[n].id != k {
      UpsertedOverrides(m1, m2, batch[..n], k);
    }
  }

  /** Writing the same batch twice leaves the table as writing it once. */
  lemma UpsertIdempotent(rows: map<Long, Asteroid>, batch: seq<Asteroid>)
    ensures Upserted(Upserted(rows, batch), batch) == Upserted(rows, batch)
  {
    var once := Upserted(rows, batch);
    var twice := Upserted(once, batch);
    UpsertedKeeps(rows, batch);
    UpsertedKeeps(once, batch);
    forall k | k in Ids(batch) ensures twice[k] == once[k] {
      UpsertedOverrides(once, rows, batch, k);
    }
  }

  /** `delete from DatabaseAsteroid where closeApproachDate < :today` keeps these rows. */
  function Evicted(rows: map<Long, Asteroid>, today: string): map<Long, Asteroid>
  {
    map k | k in rows && !TextLess(rows[k].closeApproachDate, today) :: rows[k]
  }

  /** The ids that delete removes. */
  function StaleIds(rows: map<Long, Asteroid>, today: string): set<Long>
  {
    set k | k in rows && TextLess(rows[k].closeApproachDate, today)
  }

  /** The delete removes exactly the rows dated before `today`, leaves every other row as it
      was, and the count it reports is the number of rows that disappeared. */
  lemma EvictedSpec(rows: map<Long, Asteroid>, today: string)
    ensures Evicted(rows, today).Keys == rows.Keys - StaleIds(rows, today)
    ensures forall k :: k in Evicted(rows, today) ==> Evicted(rows, today)[k] == rows[k]
    ensures forall k :: k in Evicted(rows, today) ==> !TextLess(rows[k].closeApproachDate, today)
    ensures |StaleIds(rows, today)| == |rows| - |Evicted(rows, today)|
    ensures KeyedById(rows) ==> KeyedById(Evicted(rows, today))
  {
  }

  /** A second delete with the same date finds nothing to remove. */
  lemma EvictIdempotent(rows: map<Long, Asteroid>, today: string)
    ensures Evicted(Evicted(rows, today), today) == Evicted(rows, today)
    ensures StaleIds(Evicted(rows, today), today) == {}
  {
  }

  /** Upserting a batch and deleting past rows, done a second time, changes nothing more:
      batch rows the delete removed come back from the batch and are removed again. */
  lemma EvictAfterUpsertIdempotent(rows: map<Long, Asteroid>, batch: seq<Asteroid>, today: string)
    ensures var once := Evicted(Upserted(rows, batch), today);
            Evicted(Upserted(once, batch), today) == once
  {
    var upserted := Upserted(rows, batch);
    var once := Evicted(upserted, today);
    var again := Upserted(once, batch);
    UpsertedKeeps(rows, batch);
    UpsertedKeeps(once, batch);
    forall k | k in Ids(batch)
      ensures k in again && k in upserted && again[k] == upserted[k]
    {
      UpsertedOverrides(once, rows, batch, k);
    }
    var twice := Evicted(again, today);
    assert twice.Keys == once.Keys;
    forall k | k in once ensures twice[k] == once[k] {
    }
  }

  /** The position in a date-ordered list before the first row not dated before `date`. */
  function InsertionPoint(v: seq<Asteroid>, date: string): (i: nat)
    ensures i <= |v|
    ensures forall k :: 0 <= k < i ==> TextLess(v[k].closeApproachDate, date)
    ensures i < |v| ==> !TextLess(v[i].closeApproachDate, date)
    decreases |v|
  {
    if v == [] || !TextLess(v[0].closeApproachDate, date) then 0
    else 1 + InsertionPoint(v[1..], date)
  }

  /** Placing a record at its insertion point keeps a list in date order. */
  lemma InsertKeepsSorted(v: seq<Asteroid>, a: Asteroid)
    requires SortedByDate(v)
    ensures SortedByDate(Insert(v, a))
  {
    var i := InsertionPoint(v, a.closeApproachDate);
    var w := Insert(v, a);
    forall p, q | 0 <= p < q < |w|
      ensures !TextLess(w[q].closeApproachDate, w[p].closeApproachDate)
    {
      if q == i {
        TextLessTrichotomy(w[p].closeApproachDate, a.closeApproachDate);
      } else if p == i && q - 1 > i {
        assert w[q] == v[q - 1];
        TextAtLeastTransitive(v[q - 1].closeApproachDate, v[i].closeApproachDate, a.closeApproachDate);
      } else if p == i {
        assert w[q] == v[i];
      } else if p < i < q {
        assert w[p] == v[p] && w[q] == v[q - 1];
      } else if q < i {
        assert w[p] == v[p] && w[q] == v[q];
      } else {
        assert w[p] == v[p - 1] && w[q] == v[q - 1];
      }
    }
  }

  /** `v` with `a` placed at its insertion point. */
  function Insert(v: seq<Asteroid>, a: Asteroid): seq<Asteroid>
  {
    var i := InsertionPoint(v, a.closeApproachDate);
    v[..i] + [a] + v[i..]
  }

  /** Insertion adds exactly the one record, and adds no second row with an id already there. */
  lemma InsertMembers(v: seq<Asteroid>, a: Asteroid)
    ensures |Insert(v, a)| == |v| + 1
    ensures forall x :: x in Insert(v, a) <==> x in v || x == a
    ensures (forall x :: x in v ==> x.id != a.id) && DistinctIds(v) ==> DistinctIds(Insert(v, a))
  {
  }

  /** Halfway through a scan, with the ids in `todo` still unvisited, `r` holds the selected
      rows among the visited ones, in date order. */
  ghost predicate ScanInvariant(rows: map<Long, Asteroid>, cond: DateCondition,
                                r: seq<Asteroid>, todo: set<Long>)
  {
    && SortedByDate(r)
    && DistinctIds(r)
    && (forall a :: a in r <==> InTable(rows, a) && a.id !in todo && cond.Holds(a.closeApproachDate))
    && |r| == |Selected(rows, cond) - todo|
  }

  /** Visiting a row the condition selects: it joins the scanned result. */
  lemma ScanSelects(rows: map<Long, Asteroid>, cond: DateCondition, r: seq<Asteroid>,
                    todo: set<Long>, k: Long)
    requires KeyedById(rows) && todo <= rows.Keys && k in todo
    requires cond.Holds(rows[k].closeApproachDate)
    requires ScanInvariant(rows, cond, r, todo)
    ensures ScanInvariant(rows, cond, Insert(r, rows[k]), todo - {k})
  {
    InsertKeepsSorted(r, rows[k]);
    ScanSelectsDistinct(rows, r, todo, k);
    ScanSelectsMembers(rows, cond, r, todo, k);
    ScanSelectsCount(rows, cond, r, todo, k);
  }

  lemma ScanSelectsDistinct(rows: map<Long, Asteroid>, r: seq<Asteroid>, todo: set<Long>, k: Long)
    requires KeyedById(rows) && k in todo && k in rows
    requires DistinctIds(r)
    requires forall a :: a in r ==> a.id !in todo
    ensures DistinctIds(Insert(r, rows[k]))
  {
  }

  lemma ScanSelectsMembers(rows: map<Long, Asteroid>, cond: DateCondition, r: seq<Asteroid>,
                           todo: set<Long>, k: Long)
    requires KeyedById(rows) && k in todo && k in rows
    requires cond.Holds(rows[k].closeApproachDate)
    requires forall a :: a in r <==> InTable(rows, a) && a.id !in todo && cond.Holds(a.closeApproachDate)
    ensures forall x :: x in Insert(r, rows[k]) <==>
              InTable(rows, x) && x.id !in todo - {k} && cond.Holds(x.closeApproachDate)
  {
  }

  lemma ScanSelectsCount(rows: map<Long, Asteroid>, cond: DateCondition, r: seq<Asteroid>,
                         todo: set<Long>, k: Long)
    requires k in todo && k in rows
    requires cond.Holds(rows[k].closeApproachDate)
    requires |r| == |Selected(rows, cond) - todo|
    ensures |Insert(r, rows[k])| == |Selected(rows, cond) - (todo - {k})|
  {
    var sel := Selected(rows, cond);
    InsertMembers(r, rows[k]);
    assert sel - (todo - {k}) == (sel - todo) + {k};
  }

  /** Visiting a row the condition rejects leaves the scanned result as it was. */
  lemma ScanSkips(rows: map<Long, Asteroid>, cond: DateCondition, r: seq<Asteroid>,
                  todo: set<Long>, k: Long)
    requires KeyedById(rows) && todo <= rows.Keys && k in todo
    requires !cond.Holds(rows[k].closeApproachDate)
    requires ScanInvariant(rows, cond, r, todo)
    ensures ScanInvariant(rows, cond, r, todo - {k})
  {
    var sel := Selected(rows, cond);
    assert sel - (todo - {k}) == sel - todo;
  }

  /** The DAO over the asteroid table. */
  class AsteroidDao {
    var rows: map<Long, Asteroid>

    ghost predicate Valid()
      reads this
    {
      KeyedById(rows)
    }

    /** The first-ever build of the database file: its table starts empty. Later builds reopen
        the stored file; the job therefore takes a DAO with arbitrary contents. */
    constructor ()
      ensures Valid() && rows == map[]
    {
      rows := map[];
    }

    /** `getTodaysAsteroids`: the rows dated exactly `closeApproach`. */
    method GetTodaysAsteroids(closeApproach: string) returns (r: seq<Asteroid>)
      requires Valid()
      ensures IsQueryResult(rows, SameDay(closeApproach), r)
      ensures forall a :: a in r ==> a.closeApproachDate == closeApproach
    {
      r := Scan(SameDay(closeApproach));
    }

    /** `getWeeksAsteroids`: the rows dated `closeApproach` or later, with no upper bound. */
    method GetWeeksAsteroids(closeApproach: string) returns (r: seq<Asteroid>)
      requires Valid()
      ensures IsQueryResult(rows, OnOrAfter(closeApproach), r)
      ensures forall a :: a in r ==> !TextLess(a.closeApproachDate, closeApproach)
    {
      r := Scan(OnOrAfter(closeApproach));
    }

    /** `getAllAsteroids`: every row, once each. */
    method GetAllAsteroids() returns (r: seq<Asteroid>)
      requires Valid()
      ensures IsQueryResult(rows, AnyDay, r)
      ensures |r| == |rows|
    {
      r := Scan(AnyDay);
      assert Selected(rows, AnyDay) == rows.Keys;
    }

    /** A table scan that keeps the selected rows in date order. */
    method Scan(cond: DateCondition) returns (r: seq<Asteroid>)
      requires Valid()
      ensures IsQueryResult(rows, cond, r)
    {
      r := [];
      var todo := rows.Keys;
      while todo != {}
        invariant todo <= rows.Keys
        invariant ScanInvariant(rows, cond, r, todo)
        decreases todo
      {
        var k :| k in todo;
        if cond.Holds(rows[k].closeApproachDate) {
          ScanSelects(rows, cond, r, todo, k);
          r := Insert(r, rows[k]);
        } else {
          ScanSkips(rows, cond, r, todo, k);
        }
        todo := todo - {k};
      }
    }

    /** `insertAll`: upsert the records one after the other. */
    method InsertAll(asteroids: seq<Asteroid>)
      requires Valid()
      modifies this
      ensures Valid()
      ensures rows == Upserted(old(rows), asteroids)
    {
      var i := 0;
      while i < |asteroids|
        invariant 0 <= i <= |asteroids|
        invariant Valid()
        invariant rows == Upserted(old(rows), asteroids[..i])
      {
        assert asteroids[..i + 1][..i] == asteroids[..i];
        rows := rows[asteroids[i].id := asteroids[i]];
        i := i + 1;
      }
      assert asteroids[..i] == asteroids;
    }

    /** `removeOldData`: delete the rows dated before `today` and report how many went. */
    method RemoveOldData(today: string) returns (count: int)
      requires Valid()
      modifies this
      ensures Valid()
      ensures rows == Evicted(old(rows), today)
      ensures count == |StaleIds(old(rows), today)| == |old(rows)| - |rows|
    {
      count := |StaleIds(rows, today)|;
      EvictedSpec(rows, today);
      rows := Evicted(rows, today);
    }
  }
}
