/** The cells and rows of the pandas data frames the analytics code passes around. */
module Frames {

  /** One cell: missing (`None`/`NaN`), text, or a number. */
  datatype Cell = Null | Str(s: string) | Num(x: real)

  /** One row: column name to cell. */
  type Row = map<string, Cell>

  /** `fillna(0)` on one cell. */
  function FillNull(c: Cell): (r: Cell)
    ensures !r.Null?
    ensures c.Null? ==> r == Num(0.0)
    ensures !c.Null? ==> r == c
  {
    if c.Null? then Num(0.0) else c
  }

  /** The number a metric cell holds once missing values count as 0. */
  function Value(c: Cell): real {
    if c.Num? then c.x else 0.0
  }

  function AsSet(xs: seq<string>): set<string> {
    set x | x in xs
  }
}
