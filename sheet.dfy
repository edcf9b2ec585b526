/**
 * Worksheet rows as the spreadsheet client hands them over: every loader
 * walks the rows after the header and reads cells by column index, treating
 * a column past the end of a short row as absent.
 */
module Sheet {

  /** A worksheet row: a list of cell strings, possibly shorter than the header. */
  type Row = seq<string>

  /** The cell in column `j`, or the empty string when the row is too short. */
  function Cell(row: Row, j: nat): string
  {
    if |row| > j then row[j] else ""
  }

  /** A data row the loaders keep: it has a first cell and that cell is not empty. */
  predicate HasKey(row: Row)
  {
    |row| > 0 && row[0] != ""
  }
}
