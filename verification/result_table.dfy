/** The result-table scanner (`RaceParser._parse_html`, identical in
    src/parsers/parsers.py and parsers.py). The HTML tree is abstracted to
    what the scanner reads: whether the `resultsTable` element exists and,
    for each of its `dataRow` descendants in document order, the text of
    its `num`, `best_lap_time` and `pos` cells. */
module ResultTable {
  import opened Wrappers
  import opened Text
  import opened Models

  /** One `dataRow`: the text of each cell, `None` where the row has no
      element with that id. */
  datatype DataRow = DataRow(num: Option<string>, bestLapTime: Option<string>, pos: Option<string>)

  /** A cart field read from a cell: the cell's stripped text, or empty
      when the cell is missing. */
  predicate ReadsCell(field: string, cell: Option<string>) {
    && (cell.None? ==> field == "")
    && (cell.Some? ==> field == Strip(cell.value))
  }

  function CellText(cell: Option<string>): (r: string)
    ensures ReadsCell(r, cell)
  {
    match cell
    case None => ""
    case Some(t) => Strip(t)
  }

  function CartOf(row: DataRow): Cart {
    Cart("", CellText(row.num), CellText(row.bestLapTime), CellText(row.pos))
  }

  /** `RaceParser._parse_html`: a missing table is a parsing error;
      otherwise one cart per data row, in document order, with an empty
      `id`. */
  function ScanResultTable(table: Option<seq<DataRow>>): (r: Result<seq<Cart>, ParsingError>)
    ensures r.Failure? <==> table.None?
    ensures r.Failure? ==> r.error == ResultsTableMissing
    ensures r.Success? ==>
              && |r.value| == |table.value|
              && forall i :: 0 <= i < |r.value| ==>
                   && r.value[i].id == ""
                   && ReadsCell(r.value[i].number, table.value[i].num)
                   && ReadsCell(r.value[i].bestLap, table.value[i].bestLapTime)
                   && ReadsCell(r.value[i].position, table.value[i].pos)
  {
    match table
    case None => Failure(ResultsTableMissing)
    case Some(rows) => Success(seq(|rows|, i requires 0 <= i < |rows| => CartOf(rows[i])))
  }

  lemma ReadCellStripped(field: string, cell: Option<string>)
    requires ReadsCell(field, cell)
    ensures Strip(field) == field
  {
    if cell.Some? {
      StripIdempotent(cell.value);
    } else {
      StripNoSpaceEnds(field);
    }
  }

  /** Every field of a scanned cart is free of surrounding whitespace. */
  lemma CartFieldsStripped(table: seq<DataRow>, i: int)
    requires 0 <= i < |table|
    ensures var c := ScanResultTable(Some(table)).value[i];
      && Strip(c.number) == c.number
      && Strip(c.bestLap) == c.bestLap
      && Strip(c.position) == c.position
  {
    var c := ScanResultTable(Some(table)).value[i];
    ReadCellStripped(c.number, table[i].num);
    ReadCellStripped(c.bestLap, table[i].bestLapTime);
    ReadCellStripped(c.position, table[i].pos);
  }
}
