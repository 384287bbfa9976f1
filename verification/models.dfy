/** The records the extraction engine produces (src/models/models.py).
    Every record is an immutable value built fresh by one extraction call. */
module Models {
  import opened Wrappers

  /** A calendar date as produced by parsing a `day.month.year` header. */
  datatype Date = Date(day: int, month: int, year: int)

  /** One race of a day: its label and the relative link to its result page. */
  datatype Race = Race(number: string, href: string)

  /** The races listed under one date header, in document order. */
  datatype DayRaces = DayRaces(date: Date, races: seq<Race>)

  /** One row of a race's result table. */
  datatype Cart = Cart(id: string, number: string, bestLap: string, position: string)

  /** One decoded lap. `lapNumber == 0` is the start lap. A lap time or
      sector that is `None` carries no timing signal. */
  datatype LapData = LapData(
    lapNumber: int,
    lapTime: Option<string>,
    sector1: Option<string>,
    sector2: Option<string>,
    sector3: Option<string>,
    sector4: Option<string>)

  /** The detailed record of one competitor of a race. The four derived
      fields stay `None` until the assembler fills them in. */
  datatype Competitor = Competitor(
    id: string,
    num: string,
    name: string,
    pos: int,
    laps: int,
    theorLap: int,
    bestLap: string,
    binaryLaps: string,
    theorLapFormatted: Option<string>,
    displayName: Option<string>,
    gapToLeader: Option<string>,
    lapTimes: Option<seq<LapData>>)

  /** Why an extraction call failed. All of them surface as one
      `ParsingError` to the caller; the kind stands for the message. */
  datatype ParsingError =
    | ArchiveDataMissing     // no element with class archiveData
    | ResultsTableMissing    // no element with id resultsTable
    | CompetitorsMissing     // no jsCompetitors assignment in the page
    | InvalidJson            // the located literal is not a JSON object of entries
    | FieldNotInteger        // int() of pos, laps or theor_lap raised
}
