/**
 The six extremum searches of checkCities (game.mjs:170-187).

 Each is an `Array.prototype.reduce` without an initial value: the first city is
 the starting accumulator, and every later city replaces it unless the
 accumulator is strictly further in the category's direction. Equal values
 therefore fall to the later city.
 */
module Extrema {
  import opened Cities

  /** The six questions of a round, named after the game state's keys (game.mjs:45-53). */
  datatype Category = North | South | East | West | Largest | Smallest

  /** The comparison inside the reducer for `c`: true when `acc` is kept over `city`
      (game.mjs:171, 174, 177, 180, 183, 186). */
  predicate KeepsAcc(c: Category, acc: City, city: City) {
    match c
    case North => acc.lat > city.lat
    case South => acc.lat < city.lat
    case East => acc.lon > city.lon
    case West => acc.lon < city.lon
    case Largest => acc.population > city.population
    case Smallest => acc.population < city.population
  }

  /** One reducer step: `KeepsAcc(c, acc, city) ? acc : city`. */
  function Reducer(c: Category, acc: City, city: City): City {
    if KeepsAcc(c, acc, city) then acc else city
  }

  /** Reference order: `a` lies at least as far in the direction of `c` as `b`
      (north: latitude, east: longitude, largest: population, and their opposites). */
  predicate AtLeastAsFar(c: Category, a: City, b: City) {
    match c
    case North => a.lat >= b.lat
    case South => a.lat <= b.lat
    case East => a.lon >= b.lon
    case West => a.lon <= b.lon
    case Largest => a.population >= b.population
    case Smallest => a.population <= b.population
  }

  /** `a` lies strictly further in the direction of `c` than `b`. */
  predicate Further(c: Category, a: City, b: City) {
    !AtLeastAsFar(c, b, a)
  }

  /** `reduce` over `cities` with the reducer for `c`, folded from the left. The
      search has no result on an empty list, where `reduce` throws. */
  function Extremum(c: Category, cities: seq<City>): (r: City)
    requires |cities| > 0
    ensures r in cities
    ensures forall city | city in cities :: AtLeastAsFar(c, r, city)
  {
    if |cities| == 1 then cities[0]
    else
      var front := cities[..|cities| - 1];
      assert cities == front + [cities[|cities| - 1]];
      Reducer(c, Extremum(c, front), cities[|cities| - 1])
  }

  /** Position `k` holds the extreme value for `c`, and every later city is
      strictly behind it: `k` is the last position holding the extreme value. */
  predicate IsLastExtreme(c: Category, cities: seq<City>, k: int) {
    && 0 <= k < |cities|
    && (forall i | 0 <= i < |cities| :: AtLeastAsFar(c, cities[k], cities[i]))
    && (forall j | k < j < |cities| :: Further(c, cities[k], cities[j]))
  }

  /** Ties go to the later city: the search returns the city at the last position
      holding the extreme value. */
  lemma {:induction false} LastTieWins(c: Category, cities: seq<City>, k: int)
    requires IsLastExtreme(c, cities, k)
    ensures Extremum(c, cities) == cities[k]
    decreases |cities|
  {
    var n := |cities|;
    if n > 1 {
      var front := cities[..n - 1];
      var prev := Extremum(c, front);
      if k == n - 1 {
        assert prev in cities;
        assert AtLeastAsFar(c, cities[k], prev);
        assert !KeepsAcc(c, prev, cities[k]);
      } else {
        assert IsLastExtreme(c, front, k) by {
          forall i | 0 <= i < |front| ensures AtLeastAsFar(c, front[k], front[i]) {
            assert front[i] == cities[i];
          }
        }
        LastTieWins(c, front, k);
        assert prev == cities[k];
        assert Further(c, cities[k], cities[n - 1]);
      }
    }
  }

  /** At most one position is the last one holding the extreme value. */
  lemma LastExtremeUnique(c: Category, cities: seq<City>, j: int, k: int)
    requires IsLastExtreme(c, cities, j) && IsLastExtreme(c, cities, k)
    ensures j == k
  {
    assert AtLeastAsFar(c, cities[j], cities[k]) && AtLeastAsFar(c, cities[k], cities[j]);
  }

  /** The reduce written as the loop it performs, keeping the position of the
      accumulator: the position found is the unique last one holding the extreme
      value, and the city there is what the reduce returns. */
  method ExtremumIndex(c: Category, cities: seq<City>) returns (k: nat)
    requires |cities| > 0
    ensures IsLastExtreme(c, cities, k)
    ensures cities[k] == Extremum(c, cities)
    ensures forall j | IsLastExtreme(c, cities, j) :: j == k
  {
    k := 0;
    var i := 1;
    while i < |cities|
      invariant 1 <= i <= |cities|
      invariant k < i
      invariant forall t | 0 <= t < i :: AtLeastAsFar(c, cities[k], cities[t])
      invariant forall t | k < t < i :: Further(c, cities[k], cities[t])
    {
      if !KeepsAcc(c, cities[k], cities[i]) {
        k := i;
      }
      i := i + 1;
    }
    LastTieWins(c, cities, k);
    forall j | IsLastExtreme(c, cities, j) ensures j == k {
      LastExtremeUnique(c, cities, j, k);
    }
  }
}
