/**
 * A spreadsheet or CSV file as pandas hands it to the application: a header
 * (the set of column names) and rows of already-parsed cells. Reading the
 * bytes (`read_csv`, `read_excel`) is not modelled; a file that cannot be
 * read at all is a `None` where the callers take an `Option<Sheet>`.
 */
module Sheets {
  import opened Wrappers

  /** A numeric cell: a whole number, an empty cell (NaN), or text that is not a number. */
  datatype Cell = Num(n: int) | Blank | Text(raw: string)

  /**
   * One file row. `nazwa` and `lokalizacja` are `None` when the cell is empty
   * (pandas gives NaN, which SQLite stores as NULL). `cena` is read only when
   * the file has a `cena` column.
   */
  datatype FileRow = FileRow(nazwa: Option<string>, ilosc: Cell, prog: Cell,
                             lokalizacja: Option<string>, cena: Cell)

  datatype Sheet = Sheet(header: set<string>, rows: seq<FileRow>)

  /** The columns every import reads by name; a missing one raises `KeyError` on every row. */
  const REQUIRED: set<string> := {"nazwa", "ilosc", "prog_alertu", "lokalizacja"}

  /**
   * The range of SQLite's 8-byte INTEGER. Python's `sqlite3` binding raises
   * `OverflowError` for an `int` outside it, before any row is written.
   */
  predicate FitsInteger(n: int)
  {
    -0x8000_0000_0000_0000 <= n < 0x8000_0000_0000_0000
  }

  /** A cell that `int()` accepts and that the store can bind. */
  predicate IsInteger(c: Cell)
  {
    c.Num? && FitsInteger(c.n)
  }

  /**
   * Python's `int(cell)` as far as the store accepts it: it fails on NaN and on
   * non-numeric text, and a number outside SQLite's INTEGER range fails when
   * it is bound.
   */
  function IntOf(c: Cell): (r: Option<int>)
    ensures r.Some? <==> IsInteger(c)
    ensures r.Some? ==> r.value == c.n
  {
    match c
    case Num(n) => if FitsInteger(n) then Some(n) else None
    case _ => None
  }

  /** The rows of a file that could be read. */
  function RowsOf(file: Option<Sheet>): (rows: Option<seq<FileRow>>)
  {
    match file
    case Some(sheet) => Some(sheet.rows)
    case None => None
  }

  /** The header of a file that could be read (no column otherwise). */
  function HeaderOf(file: Option<Sheet>): (header: set<string>)
  {
    match file
    case Some(sheet) => sheet.header
    case None => {}
  }
}
