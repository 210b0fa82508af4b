/**
 * Decoded spreadsheet cells and the three conversions the extraction engine
 * applies to them. The decoder's own conversion rules for numbers, dates and
 * booleans are not visible, so a non-text cell carries the results the
 * decoder gives for it: its display text, its `as_string` value and whether
 * the decoder calls it empty.
 */
module Cells {
  import opened Wrappers

  datatype Cell =
    | Empty
    | Str(s: string)
    | Other(display: string, asText: Option<string>, blank: bool)

  /** One row of a worksheet range, positionally indexed. */
  type Row = seq<Cell>

  /** The cell as text, when the decoder can give it as text (`as_string`). */
  function AsString(c: Cell): Option<string> {
    match c
    case Empty => None
    case Str(s) => Some(s)
    case Other(_, t, _) => t
  }

  /** The cell's display text (`to_string`). */
  function ToText(c: Cell): string {
    match c
    case Empty => ""
    case Str(s) => s
    case Other(d, _, _) => d
  }

  /** Whether the decoder regards the cell as empty (`is_empty`). */
  predicate IsEmpty(c: Cell) {
    match c
    case Empty => true
    case Str(_) => false
    case Other(_, _, b) => b
  }

  /** The first cell of a row, or an empty cell when the row has none. */
  function First(row: Row): Cell {
    if |row| > 0 then row[0] else Empty
  }
}
