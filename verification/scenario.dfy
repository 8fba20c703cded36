/**
 A worked round: four cities, two of them tied for the highest latitude.
 */
module Scenario {
  import opened Optional
  import opened Cities
  import opened Extrema
  import opened Round

  function Place(name: string, lat: real, lon: real, population: int): City {
    City(name, "DE", "Germany", "EU", lat, lon, population)
  }

  const A := Place("A", 50.0, 10.0, 1000)
  const B := Place("B", 52.0, 8.0, 500)
  const C := Place("C", 48.0, 12.0, 2000)
  const D := Place("D", 52.0, 14.0, 100)

  const TiedCities := [A, B, C, D]

  /** The guesses of the worked round: B for north, A for west and smallest. */
  const Guessed := GameState(TiedCities, Some("B"), Some("C"), Some("D"),
                             Some("A"), Some("C"), Some("A"))

  /** B and D share the highest latitude; D comes later and is the north answer. */
  lemma TiedRoundAnswers(c: Category)
    ensures Extremum(c, TiedCities) == Answers(D, C, D, B, C, D).Of(c)
  {
    match c
    case North => LastTieWins(North, TiedCities, 3);
    case South => LastTieWins(South, TiedCities, 2);
    case East => LastTieWins(East, TiedCities, 3);
    case West => LastTieWins(West, TiedCities, 1);
    case Largest => LastTieWins(Largest, TiedCities, 2);
    case Smallest => LastTieWins(Smallest, TiedCities, 3);
  }

  /** Guessing B, the earlier of the two tied cities, for north misses; so do
      the guesses of A for west and for smallest. */
  lemma TiedRoundHits()
    ensures Hits(Guessed) == {South, East, Largest}
  {
    forall c: Category ensures Extremum(c, TiedCities) == Answers(D, C, D, B, C, D).Of(c) {
      TiedRoundAnswers(c);
    }
  }

  /** The worked round scores three right and three wrong. */
  lemma TiedRound()
    ensures Score(Guessed).Ok?
    ensures Score(Guessed).value.correct == 3 && Score(Guessed).value.wrong == 3
  {
    TiedRoundHits();
    assert |Hits(Guessed)| == 3;
  }
}
