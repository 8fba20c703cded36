/**
 The city records of a round and the result rows they are read from.

 A result row is positional, as sql.js hands it over: `SELECT * FROM guess`
 yields the columns of the `guess` table in the order the table declares them.
 */
module Cities {

  /** One city of a round (game.mjs:1-10). Latitude and longitude are reals;
      the game only ever compares them. */
  datatype City = City(
    name: string,
    countryCode: string,
    country: string,
    continent: string,
    lat: real,
    lon: real,
    population: int)

  /** A value of a result row, one per SQLite storage class. */
  datatype Cell = Null | Int(intValue: int) | Real(realValue: real) | Text(textValue: string)

  type Row = seq<Cell>

  /** How many rows the round query asks for (`LIMIT 4`). */
  const SampleSize := 4

  /** The cells the row mapping reads exist and hold the type of the field they fill. */
  predicate Readable(r: Row) {
    && |r| > 9
    && r[1].Text? && r[3].Text? && r[4].Text? && r[5].Text?
    && r[6].Int? && r[8].Real? && r[9].Real?
  }

  /** The row-to-city mapping of generateCities (game.mjs:92-100), by column position. */
  function CityOfRow(r: Row): City
    requires Readable(r)
  {
    City(
      name := r[1].textValue,
      countryCode := r[3].textValue,
      country := r[4].textValue,
      continent := r[5].textValue,
      lat := r[8].realValue,
      lon := r[9].realValue,
      population := r[6].intValue)
  }

  /** The rows of a query result turned into cities, one per row, in result order
      (the loop of game.mjs:88-102). */
  function CitiesOf(rows: seq<Row>): (cs: seq<City>)
    requires forall i | 0 <= i < |rows| :: Readable(rows[i])
    ensures |cs| == |rows|
    ensures forall i | 0 <= i < |rows| :: cs[i] == CityOfRow(rows[i])
  {
    if rows == [] then [] else [CityOfRow(rows[0])] + CitiesOf(rows[1..])
  }

  /** `ORDER BY RANDOM() LIMIT 4`: of the matching rows, in the order the random
      draw put them, the query returns the first four. */
  function Limit(drawn: seq<Row>): (rows: seq<Row>)
    ensures rows <= drawn
    ensures |rows| == if |drawn| < SampleSize then |drawn| else SampleSize
  {
    if |drawn| <= SampleSize then drawn else drawn[..SampleSize]
  }

  /** A row of the `guess` table by column name (geonames_cities_sqlite.py:99-110).
      Elevation and timezone are never read by the game and may hold any cell. */
  datatype GuessRow = GuessRow(
    geonameId: int,
    name: string,
    asciiName: string,
    countryIso: string,
    country: string,
    continent: string,
    population: int,
    elevation: Cell,
    latitude: real,
    longitude: real,
    timezone: Cell)

  /** The row as `SELECT *` returns it. The positions game.mjs reads pick out the
      columns whose names match the city fields they fill. */
  function RowOf(g: GuessRow): (r: Row)
    ensures |r| == 11
    ensures Readable(r)
    ensures CityOfRow(r) == City(g.name, g.countryIso, g.country, g.continent,
                                 g.latitude, g.longitude, g.population)
  {
    [Int(g.geonameId), Text(g.name), Text(g.asciiName), Text(g.countryIso),
     Text(g.country), Text(g.continent), Int(g.population), g.elevation,
     Real(g.latitude), Real(g.longitude), g.timezone]
  }

  /** The positional rows of a sequence of table rows, in the same order. */
  function Select(table: seq<GuessRow>): (rows: seq<Row>)
    ensures |rows| == |table|
    ensures forall i | 0 <= i < |table| :: rows[i] == RowOf(table[i])
  {
    if table == [] then [] else [RowOf(table[0])] + Select(table[1..])
  }
}
