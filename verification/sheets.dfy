/** A worksheet as the loaders see it once the spreadsheet library has read
    it: a header row naming the columns and the data rows below it. */
module Sheets {
  import opened Wrappers
  import opened Sequences

  /** Every cell is text; an empty cell is the empty string. A row shorter
      than the header has empty cells at its end. */
  datatype Table = Table(columns: seq<string>, rows: seq<seq<string>>)

  function Cell(row: seq<string>, c: nat): string
  {
    if c < |row| then row[c] else ""
  }

  /** The column called `name`. With repeated header names the first one
      answers to the bare name, as the library renames the later ones. */
  function ColumnIndex(t: Table, name: string): (r: Option<nat>)
    ensures r.None? <==> name !in t.columns
    ensures r.Some? ==> r.value < |t.columns| && t.columns[r.value] == name
    ensures r.Some? ==> name !in t.columns[..r.value]
  {
    IndexOf(t.columns, name)
  }

  /** The values of column `c`, top to bottom. */
  function ColumnValues(t: Table, c: nat): (vs: seq<string>)
    ensures |vs| == |t.rows|
    ensures forall k :: 0 <= k < |t.rows| ==> vs[k] == Cell(t.rows[k], c)
  {
    seq(|t.rows|, k requires 0 <= k < |t.rows| => Cell(t.rows[k], c))
  }
}
