/**
 The game state of one round and the two operations that work on it alone:
 recording a guess (activateButton) and scoring the guesses (checkCities).
 */
module Round {
  import opened Optional
  import opened Cities
  import opened Extrema

  /** The game state (game.mjs:24-34): the round's cities and one guess slot per
      category. A slot holds the name of the city the player picked, or nothing. */
  datatype GameState = GameState(
    cities: seq<City>,
    north: Option<string>,
    south: Option<string>,
    east: Option<string>,
    west: Option<string>,
    largest: Option<string>,
    smallest: Option<string>)
  {
    /** The slot of category `c`, `gameState[c]`. */
    function Guess(c: Category): Option<string> {
      match c
      case North => north
      case South => south
      case East => east
      case West => west
      case Largest => largest
      case Smallest => smallest
    }
  }

  /** The state the page starts from (game.mjs:45-55): no cities, no guesses. */
  const DefaultGameState := GameState([], None, None, None, None, None, None)

  /** activateButton's state write `gameState[name] = cityName` (game.mjs:60-61).
      Any name is accepted; nothing checks it against the round's cities. */
  function SetGuess(g: GameState, c: Category, cityName: string): (r: GameState)
    ensures r.Guess(c) == Some(cityName)
    ensures forall other: Category | other != c :: r.Guess(other) == g.Guess(other)
    ensures r.cities == g.cities
  {
    match c
    case North => g.(north := Some(cityName))
    case South => g.(south := Some(cityName))
    case East => g.(east := Some(cityName))
    case West => g.(west := Some(cityName))
    case Largest => g.(largest := Some(cityName))
    case Smallest => g.(smallest := Some(cityName))
  }

  /** Picking a category twice leaves only the second pick. */
  lemma SetGuessOverwrites(g: GameState, c: Category, first: string, second: string)
    ensures SetGuess(SetGuess(g, c, first), c, second) == SetGuess(g, c, second)
  {
  }

  /** Guesses for different categories do not interfere: their order does not matter. */
  lemma SetGuessCommutes(g: GameState, c: Category, d: Category, a: string, b: string)
    requires c != d
    ensures SetGuess(SetGuess(g, c, a), d, b) == SetGuess(SetGuess(g, d, b), c, a)
  {
  }

  /** The six cities checkCities computes (game.mjs:170-187), one per category. */
  datatype Answers = Answers(
    north: City,
    south: City,
    east: City,
    west: City,
    largest: City,
    smallest: City)
  {
    function Of(c: Category): City {
      match c
      case North => north
      case South => south
      case East => east
      case West => west
      case Largest => largest
      case Smallest => smallest
    }
  }

  /** What scoring yields: the correct answers and the two counters shown to the player. */
  datatype Tally = Tally(answers: Answers, correct: nat, wrong: nat)

  /** Scoring fails where the first `reduce` throws: on a round without cities. */
  datatype ScoreError = EmptyRound

  /** The categories in the order checkCities compares them (game.mjs:198-227). */
  const Categories: seq<Category> := [North, South, East, West, Largest, Smallest]

  /** The six categories are listed once each. */
  lemma CategoriesDistinct()
    ensures |Categories| == 6 && Distinct(Categories)
  {
  }

  predicate Distinct(cats: seq<Category>) {
    forall i, j | 0 <= i < j < |cats| :: cats[i] != cats[j]
  }

  /** The guess for `c` is the name of the correct answer; `===` against an unset slot fails. */
  predicate Hit(g: GameState, answers: Answers, c: Category) {
    g.Guess(c) == Some(answers.Of(c).name)
  }

  /** The categories among `cats` whose guess is the correct answer's name. */
  function HitsAmong(g: GameState, answers: Answers, cats: seq<Category>): set<Category> {
    set c | c in cats && Hit(g, answers, c)
  }

  /** The hits among `cats` are those of its tail, plus its head when that is a hit. */
  lemma HitsAmongSplit(g: GameState, answers: Answers, cats: seq<Category>)
    requires Distinct(cats) && cats != []
    ensures Distinct(cats[1..])
    ensures cats[0] !in HitsAmong(g, answers, cats[1..])
    ensures HitsAmong(g, answers, cats)
         == HitsAmong(g, answers, cats[1..]) + (if Hit(g, answers, cats[0]) then {cats[0]} else {})
  {
    assert forall c | c in cats :: c == cats[0] || c in cats[1..];
    assert cats[0] !in cats[1..];
  }

  /** The two counters after comparing the categories `cats` one by one, adding
      one to `correct` on a hit and one to `wrong` otherwise. */
  function Count(g: GameState, answers: Answers, cats: seq<Category>): (r: (nat, nat))
    requires Distinct(cats)
    ensures r.0 + r.1 == |cats|
    ensures r.0 == |HitsAmong(g, answers, cats)|
  {
    if cats == [] then (0, 0)
    else
      HitsAmongSplit(g, answers, cats);
      var rest := Count(g, answers, cats[1..]);
      if Hit(g, answers, cats[0]) then (rest.0 + 1, rest.1) else (rest.0, rest.1 + 1)
  }

  /** The categories the player got right: the stored guess is the name of the
      city holding that category's extreme value, ties going to the later city. */
  ghost function Hits(g: GameState): set<Category>
    requires g.cities != []
  {
    set c | c in Categories && g.Guess(c) == Some(Extremum(c, g.cities).name)
  }

  /** The scoring part of checkCities (game.mjs:169-227). It reads the game state
      and changes nothing in it. */
  function Score(g: GameState): (r: Result<Tally, ScoreError>)
    ensures r.Err? <==> g.cities == []
    ensures r.Ok? ==> forall c: Category :: r.value.answers.Of(c) == Extremum(c, g.cities)
    ensures r.Ok? ==> r.value.correct + r.value.wrong == 6
    ensures r.Ok? ==> r.value.correct == |Hits(g)|
    ensures r.Ok? ==> forall c: Category | g.Guess(c).None? :: c !in Hits(g)
  {
    if g.cities == [] then Err(EmptyRound)
    else
      var answers := Answers(
        Extremum(North, g.cities), Extremum(South, g.cities),
        Extremum(East, g.cities), Extremum(West, g.cities),
        Extremum(Largest, g.cities), Extremum(Smallest, g.cities));
      assert forall c: Category :: answers.Of(c) == Extremum(c, g.cities);
      CategoriesDistinct();
      var counters := Count(g, answers, Categories);
      assert HitsAmong(g, answers, Categories) == Hits(g);
      Ok(Tally(answers, counters.0, counters.1))
  }
}
