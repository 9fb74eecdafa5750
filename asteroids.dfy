/** The asteroid record (Asteroid.kt), which is also the shape of a table row. */
module Asteroids {

  /** Kotlin `Long`. Identifiers are compared and used as keys, never computed with. */
  newtype Long = x: int | -0x8000_0000_0000_0000 <= x < 0x8000_0000_0000_0000

  /** Kotlin `Double`, kept as its IEEE 754 bit pattern: nothing in the cache computes with
      these values, it only copies, stores and returns them. */
  type DoubleBits = bv64

  datatype Asteroid = Asteroid(
    id: Long,
    codename: string,
    closeApproachDate: string,
    absoluteMagnitude: DoubleBits,
    estimatedDiameter: DoubleBits,
    relativeVelocity: DoubleBits,
    distanceFromEarth: DoubleBits,
    isPotentiallyHazardous: bool)

  /** The identifiers that occur in a list of records. */
  function Ids(s: seq<Asteroid>): set<Long>
  {
    set i | 0 <= i < |s| :: s[i].id
  }
}
