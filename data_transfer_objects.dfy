/** The records the NASA feed delivers and their conversion to table rows
    (api/DataTransferObjects.kt). */
module DataTransferObjects {
  import opened Asteroids

  /** One asteroid as parsed from the feed; the same eight fields as a table row. */
  datatype NetworkAsteroid = NetworkAsteroid(
    id: Long,
    codename: string,
    closeApproachDate: string,
    absoluteMagnitude: DoubleBits,
    estimatedDiameter: DoubleBits,
    relativeVelocity: DoubleBits,
    distanceFromEarth: DoubleBits,
    isPotentiallyHazardous: bool)

  datatype NetworkAsteroidContainer = NetworkAsteroidContainer(asteroids: seq<NetworkAsteroid>)

  /** The constructor call inside the `map` of `asDatabaseModel`: a field-by-field copy. */
  function AsDatabaseRecord(n: NetworkAsteroid): Asteroid
  {
    Asteroid(n.id, n.codename, n.closeApproachDate, n.absoluteMagnitude, n.estimatedDiameter,
             n.relativeVelocity, n.distanceFromEarth, n.isPotentiallyHazardous)
  }

  /** The reverse copy, from a table row back to a feed record. */
  function AsNetworkRecord(a: Asteroid): NetworkAsteroid
  {
    NetworkAsteroid(a.id, a.codename, a.closeApproachDate, a.absoluteMagnitude,
                    a.estimatedDiameter, a.relativeVelocity, a.distanceFromEarth,
                    a.isPotentiallyHazardous)
  }

  /** Copying loses nothing: the two record shapes are in one-to-one correspondence, and each
      of the eight fields arrives unchanged in the field of the same name. */
  lemma RecordCopyIsBijective(n: NetworkAsteroid, a: Asteroid)
    ensures AsNetworkRecord(AsDatabaseRecord(n)) == n
    ensures AsDatabaseRecord(AsNetworkRecord(a)) == a
    ensures AsDatabaseRecord(n).id == n.id
    ensures AsDatabaseRecord(n).codename == n.codename
    ensures AsDatabaseRecord(n).closeApproachDate == n.closeApproachDate
    ensures AsDatabaseRecord(n).absoluteMagnitude == n.absoluteMagnitude
    ensures AsDatabaseRecord(n).estimatedDiameter == n.estimatedDiameter
    ensures AsDatabaseRecord(n).relativeVelocity == n.relativeVelocity
    ensures AsDatabaseRecord(n).distanceFromEarth == n.distanceFromEarth
    ensures AsDatabaseRecord(n).isPotentiallyHazardous == n.isPotentiallyHazardous
  {
  }

  /** `asDatabaseModel`: the container's list mapped element by element, in order; an empty
      container gives no rows. */
  function AsDatabaseModel(c: NetworkAsteroidContainer): (r: seq<Asteroid>)
    ensures |r| == |c.asteroids|
    ensures forall i :: 0 <= i < |r| ==> r[i] == AsDatabaseRecord(c.asteroids[i])
    decreases |c.asteroids|
  {
    if c.asteroids == [] then []
    else [AsDatabaseRecord(c.asteroids[0])] + AsDatabaseModel(NetworkAsteroidContainer(c.asteroids[1..]))
  }

  /** The converse list conversion. */
  function AsNetworkModel(rows: seq<Asteroid>): (r: seq<NetworkAsteroid>)
    ensures |r| == |rows|
    ensures forall i :: 0 <= i < |rows| ==> r[i] == AsNetworkRecord(rows[i])
    decreases |rows|
  {
    if rows == [] then [] else [AsNetworkRecord(rows[0])] + AsNetworkModel(rows[1..])
  }

  /** Converting a container and converting back gives the container's list again: the
      conversion keeps length, order and every field. */
  lemma AsDatabaseModelRoundTrip(c: NetworkAsteroidContainer)
    ensures AsNetworkModel(AsDatabaseModel(c)) == c.asteroids
  {
  }

  /** The rows carry exactly the identifiers of the feed records. */
  lemma AsDatabaseModelIds(c: NetworkAsteroidContainer)
    ensures Ids(AsDatabaseModel(c)) == set i | 0 <= i < |c.asteroids| :: c.asteroids[i].id
  {
  }
}
