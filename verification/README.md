# City quiz round logic, modelled in Dafny

The quiz draws up to four cities from a `guess` table of cities, asks the
player which of them is furthest north, south, east and west, and which has
the largest and the smallest population, then counts the right and wrong
guesses and, if the player wants, reveals the solution. This project models
that round logic from `game.mjs`:

- building a round: the rows of the round query become `City` records, by
  column position, in result order, at most four of them (`Cities`);
- the six extremum searches, each a `reduce` without an initial value
  (`Extrema`);
- the game state with its six guess slots, recording a guess, and scoring
  (`Round`);
- the two-button mode (New shown or Check shown), the transitions of
  generating, checking and revealing, and an invariant over any sequence of
  clicks (`Lifecycle`);
- a worked round with a tie for the highest latitude (`Scenario`).

The random draw of the query is an input: the matching table rows in the
order the draw put them. The confirm dialog of the check is a boolean input.

Behaviour of the code that the model keeps:

- Ties go to the later city. Each reducer keeps the accumulator only when it
  is strictly further (`acc.lat > city.lat ? acc : city`, game.mjs:171, and
  likewise the five others), so the city found is the last one holding the
  extreme value. In the worked round of `Scenario.TiedRound`, where B and the
  later D share the highest latitude, a guess of B for north is wrong and the
  round scores 3 right and 3 wrong.
- Generating a round does not reset the guess slots; only the city list is
  replaced (game.mjs:86).
- A query returning one to three rows gives a short round. Only an empty
  result fails. The city list has by then been cleared (game.mjs:86), and the
  buttons are left as they were.

Files: `optional.dfy` (Option and Result), `cities.dfy`, `extrema.dfy`,
`round.dfy`, `lifecycle.dfy`, `scenario.dfy`.

## Model

| member | source | states |
|---|---|---|
| Cities.CitiesOf | game.mjs:86-102 | one city per row, same length and same order as the rows, each city built from its own row |
| Cities.Limit | game.mjs:76-80 | `LIMIT 4`: the rows returned are a prefix of the drawn rows, four of them or all if fewer were drawn |
| Cities.RowOf | geonames_cities_sqlite.py:99-110 | a `guess` table row as `SELECT *` returns it has 11 columns, and the positions game.mjs:92-100 reads (1, 3, 4, 5, 8, 9, 6) give exactly the name, country code, country, continent, latitude, longitude and population columns |
| Cities.Select | geonames_cities_sqlite.py:99-110 | the positional rows of a sequence of table rows keep their number and order |
| Extrema.Extremum | game.mjs:170-187 | each of the six searches needs a non-empty list; the city found is one of the round's cities and is at least as far north / south / east / west / large / small as every city of the round |
| Extrema.LastTieWins | game.mjs:170-187 | when several cities share the extreme value, the search returns the last of them in list order |
| Extrema.ExtremumIndex | game.mjs:170-187 | the reduce as the loop it runs: the position found holds the extreme value, every later city is strictly behind it, it is the only such position, and the city there is the reduce's result |
| Round.SetGuess | game.mjs:60-61 | a guess for category c sets slot c to the name; the other five slots and the cities are unchanged |
| Round.SetGuessOverwrites | game.mjs:61 | setting the same category twice leaves only the second name |
| Round.SetGuessCommutes | game.mjs:61 | guesses for two different categories do not interfere, in either order |
| Round.Count | game.mjs:196-227 | comparing categories one by one, correct + wrong is the number of categories compared, and correct is the number of categories whose guess is the answer's name |
| Round.Score | game.mjs:169-227 | scoring fails exactly on a round without cities; otherwise the answers are the six extrema, correct + wrong == 6, correct is the number of categories whose stored guess is the name of that category's extremum, and an unset slot is never counted correct |
| Lifecycle.GenerateCities | game.mjs:73-167 | fails exactly when no rows come back; the round has min(rows, 4) cities, the i-th built from the i-th row; guess slots are untouched; success shows Check (Guessing), failure leaves the buttons as they were |
| Lifecycle.RevealCities | game.mjs:261-262 | revealing shows New (Revealed) and leaves the game state as it is |
| Lifecycle.CheckCities | game.mjs:169-232 | checking never changes the game state; it fails exactly on a round without cities; it reveals only when the score succeeded and the player confirmed, and otherwise keeps the mode |
| Lifecycle.Step | game.mjs:265-266 | a click on a hidden button changes nothing; a guess click sets that slot and keeps the cities, the other slots and the mode; a Check click keeps the game state and reveals exactly when the player confirms a round with cities; a New click keeps every guess slot, builds min(rows, 4) cities and shows Check exactly when rows came back |
| Lifecycle.StepKeepsReady | game.mjs:86-167 | every click keeps the round at most four cities and keeps Check shown only for a round with cities |
| Lifecycle.RunKeepsReady | game.mjs:265-266 | any sequence of clicks keeps that invariant |
| Lifecycle.CheckNeverThrows | game.mjs:169-172 | starting from the default state with New shown, a click on Check never meets an empty round, so the first `reduce` never throws |
| Scenario.TiedRoundAnswers | game.mjs:170-187 | in the round A(50, 10, 1000), B(52, 8, 500), C(48, 12, 2000), D(52, 14, 100) the answers are north D, south C, east D, west B, largest C, smallest D |
| Scenario.TiedRoundHits | game.mjs:196-227 | guessing B, C, D, A, C, A in that round hits only south, east and largest |
| Scenario.TiedRound | game.mjs:169-227 | that round scores 3 correct and 3 wrong |

## Left out

- Loading sql.js and the database file, and building and running the query
  from the URL parameters `population` and `region` (game.mjs:36-40, 74-84):
  the rows the query draws are an input, in the order of the random draw.
- The randomness of `ORDER BY RANDOM()`: any order of the drawn rows is allowed.
- All page markup: building the city elements and their guess buttons
  (game.mjs:104-163), highlighting the active guess (63-70), marking the
  correct buttons (189-194) and the revealed details (235-259). Only the
  hidden/shown state of the New and Check buttons is kept, as `Mode`.
- The `confirm` dialog (game.mjs:229): the player's answer is a boolean input.
- `Intl.NumberFormat` population formatting (game.mjs:256): a locale library
  that is not part of this model.
- geonames_cities_sqlite.py apart from the `guess` table layout: reading the
  CSV files, the comment-line and field-count filter, and the SQL statements
  that fill the tables.
- Floating point: latitude and longitude are reals; NaN does not arise.
- A button carrying the `hide` class is taken to be unclickable
  (`Lifecycle.Shown`); the stylesheet that hides it is not part of this model.
- The initial visibility of the two buttons is set by the page markup, which is
  not part of this model; `Lifecycle.CheckNeverThrows` starts with New shown.
- Two cities of a round with the same name: the page uses the name as an
  element id; scoring compares names only, as modelled.
- Lifecycle.CheckCities: does not model the page failing on a city name it
  cannot use as an element id (the empty string). `getElementById` then finds
  no element, so marking the correct buttons (game.mjs:189-194) throws before
  the count and the dialog, and revealing (game.mjs:236-239) throws before the
  buttons switch; the page stays with Check shown. The model scores and
  reveals such a round like any other.
- Lifecycle.Step: the same holds for a Check click; with an empty city name
  the page stays in Guessing where the model reveals.
- Lifecycle.GenerateCities: requires every returned row to hold text in the
  name, country code, country and continent cells, an integer in the
  population cell and reals in the latitude and longitude cells; a NULL or
  differently typed cell, which the script would copy as it is, is not modelled.
