/**
 The round lifecycle: generating a round, checking it, revealing it, and the
 two buttons that drive it.

 The page shows exactly one of its two buttons at a time. `Guessing` is New
 hidden and Check shown; `Revealed` is Check hidden and New shown. A hidden
 button cannot be clicked; the per-city guess buttons are always live.
 */
module Lifecycle {
  import opened Optional
  import opened Cities
  import opened Extrema
  import opened Round

  datatype Mode = Guessing | Revealed

  /** The game state together with which of the two buttons is shown. */
  datatype Session = Session(game: GameState, mode: Mode)

  /** generateCities throws when the query returns no rows: sql.js then yields no
      result set, and `res[0].values` fails (game.mjs:88). */
  datatype RoundError = NoRows

  /** The session after generateCities, and the error it raised, if any. */
  datatype Generated = Generated(session: Session, error: Option<RoundError>)

  /** generateCities (game.mjs:73-167) on `drawn`, the matching table rows in the
      order the random draw put them. The city list is cleared before the rows are
      read (game.mjs:86), so a failed call still leaves the round without cities;
      it then stops before the buttons change. The guess slots are not touched. */
  function GenerateCities(s: Session, drawn: seq<Row>): (r: Generated)
    requires forall i | 0 <= i < |Limit(drawn)| :: Readable(Limit(drawn)[i])
    ensures r.error.None? <==> drawn != []
    ensures |r.session.game.cities| == if |drawn| < SampleSize then |drawn| else SampleSize
    ensures forall i | 0 <= i < |r.session.game.cities| ::
              Readable(drawn[i]) && r.session.game.cities[i] == CityOfRow(drawn[i])
    ensures forall c: Category :: r.session.game.Guess(c) == s.game.Guess(c)
    ensures r.session.mode == if r.error.None? then Guessing else s.mode
  {
    var cleared := s.game.(cities := []);
    var rows := Limit(drawn);
    if rows == [] then
      Generated(Session(cleared, s.mode), Some(NoRows))
    else
      Generated(Session(cleared.(cities := CitiesOf(rows)), Guessing), None)
  }

  /** revealCities (game.mjs:234-263) without its markup: Check is hidden and New shown. */
  function RevealCities(s: Session): (r: Session)
    ensures r.mode == Revealed
    ensures r.game == s.game
  {
    s.(mode := Revealed)
  }

  /** The session after checkCities, and the score or the error it raised. */
  datatype Checked = Checked(session: Session, score: Result<Tally, ScoreError>)

  /** checkCities (game.mjs:169-232): score the round, then reveal it only if the
      player confirms the result dialog. A round without cities throws in the
      first `reduce` before anything is shown. */
  function CheckCities(s: Session, confirmed: bool): (r: Checked)
    ensures r.score == Score(s.game)
    ensures r.score.Err? <==> s.game.cities == []
    ensures r.session.game == s.game
    ensures r.session.mode == if r.score.Ok? && confirmed then Revealed else s.mode
  {
    match Score(s.game)
    case Err(e) => Checked(s, Err(e))
    case Ok(tally) => Checked(if confirmed then RevealCities(s) else s, Ok(tally))
  }

  /** A click on the page: New with the rows its query draws from the `guess`
      table, Check with the player's answer to the dialog, or one of the six guess
      buttons of a city (game.mjs:116-159, 265-266). */
  datatype Event =
    | ClickNew(drawn: seq<GuessRow>)
    | ClickCheck(confirmed: bool)
    | ClickGuess(category: Category, cityName: string)

  /** The button behind `e` is shown. */
  predicate Shown(s: Session, e: Event) {
    match e
    case ClickNew(_) => s.mode == Revealed
    case ClickCheck(_) => s.mode == Guessing
    case ClickGuess(_, _) => true
  }

  /** The session after one click; a click on a hidden button does nothing. */
  function Step(s: Session, e: Event): (r: Session)
    ensures !Shown(s, e) ==> r == s
    ensures e.ClickGuess? ==>
              && r.game.Guess(e.category) == Some(e.cityName)
              && (forall c: Category | c != e.category :: r.game.Guess(c) == s.game.Guess(c))
              && r.game.cities == s.game.cities
              && r.mode == s.mode
    ensures Shown(s, e) && e.ClickCheck? ==>
              && r.game == s.game
              && (r.mode == Revealed <==> e.confirmed && s.game.cities != [])
    ensures Shown(s, e) && e.ClickNew? ==>
              && (forall c: Category :: r.game.Guess(c) == s.game.Guess(c))
              && |r.game.cities| == (if |e.drawn| < SampleSize then |e.drawn| else SampleSize)
              && (forall i | 0 <= i < |r.game.cities| :: r.game.cities[i] == CityOfRow(RowOf(e.drawn[i])))
              && (r.mode == Guessing <==> e.drawn != [])
  {
    if !Shown(s, e) then s
    else
      match e
      case ClickNew(drawn) => GenerateCities(s, Select(drawn)).session
      case ClickCheck(confirmed) => CheckCities(s, confirmed).session
      case ClickGuess(c, name) => s.(game := SetGuess(s.game, c, name))
  }

  /** The session after a sequence of clicks. */
  function Run(s: Session, events: seq<Event>): Session
    decreases |events|
  {
    if events == [] then s else Run(Step(s, events[0]), events[1..])
  }

  /** A round holds at most four cities, and Check is shown only for a round with cities. */
  predicate Ready(s: Session) {
    && |s.game.cities| <= SampleSize
    && (s.mode == Guessing ==> s.game.cities != [])
  }

  /** Every click keeps the session ready. A failed generation leaves no cities,
      but New is shown only in `Revealed`, which the failure keeps. */
  lemma StepKeepsReady(s: Session, e: Event)
    requires Ready(s)
    ensures Ready(Step(s, e))
  {
  }

  /** Any sequence of clicks keeps the session ready. */
  lemma {:induction false} RunKeepsReady(s: Session, events: seq<Event>)
    requires Ready(s)
    ensures Ready(Run(s, events))
    decreases |events|
  {
    if events != [] {
      StepKeepsReady(s, events[0]);
      RunKeepsReady(Step(s, events[0]), events[1..]);
    }
  }

  /** From the starting state with New shown, whatever the player clicks, a click
      on Check never meets a round without cities, so its `reduce` never throws. */
  lemma CheckNeverThrows(events: seq<Event>, confirmed: bool)
    ensures var s := Run(Session(DefaultGameState, Revealed), events);
            Shown(s, ClickCheck(confirmed)) ==> CheckCities(s, confirmed).score.Ok?
  {
    RunKeepsReady(Session(DefaultGameState, Revealed), events);
  }
}
