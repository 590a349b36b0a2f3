/**
 * The five-column product of app.py and app_ND.py, and how a file row is
 * turned into one (the import and reset loops of both revisions use the same
 * coercion).
 */
module Products {
  import opened Wrappers
  import opened Store
  import opened Sheets
  import opened Batch

  /**
   * The `cena` column (`REAL DEFAULT 0.0`). Amounts are kept as whole numbers
   * of an opaque unit; `NullPrice` is the SQL NULL that a NaN price becomes.
   */
  datatype Price = Amount(value: int) | NullPrice

  /** The non-id columns `nazwa, ilosc, prog_alertu, lokalizacja, cena`. */
  datatype Product = Product(nazwa: string, ilosc: int, prog: int,
                             lokalizacja: Option<string>, cena: Price)

  /** Python's `float(cell)`: a number or NaN is accepted (NaN is stored as NULL), text is not. */
  function PriceOf(c: Cell): (r: Option<Price>)
    ensures r.Some? <==> !c.Text?
    ensures c.Num? ==> r == Some(Amount(c.n))
    ensures c.Blank? ==> r == Some(NullPrice)
  {
    match c
    case Num(n) => Some(Amount(n))
    case Blank => Some(NullPrice)
    case Text(_) => None
  }

  /**
   * The body of the import and reset loops for one row:
   * `cena = float(row["cena"]) if "cena" in row else 0.0`, then
   * `dodaj_produkt(row["nazwa"], int(row["ilosc"]), int(row["prog_alertu"]), row["lokalizacja"], cena)`.
   * It fails on a missing required column, a quantity or threshold that is not
   * an integer the store can bind, a non-numeric price, and an empty name (the
   * NOT NULL constraint on `nazwa`).
   */
  function Coerce(header: set<string>, r: FileRow): (p: Option<Product>)
    ensures p.Some? <==>
      REQUIRED <= header && r.nazwa.Some? && IsInteger(r.ilosc) && IsInteger(r.prog) &&
      ("cena" in header ==> !r.cena.Text?)
    ensures p.Some? ==>
      p.value.nazwa == r.nazwa.value && p.value.ilosc == r.ilosc.n &&
      p.value.prog == r.prog.n && p.value.lokalizacja == r.lokalizacja
    ensures p.Some? && "cena" !in header ==> p.value.cena == Amount(0)
    ensures p.Some? && "cena" in header ==> p.value.cena == (if r.cena.Num? then Amount(r.cena.n) else NullPrice)
  {
    var cena := if "cena" in header then PriceOf(r.cena) else Some(Amount(0));
    if !(REQUIRED <= header) || r.nazwa.None? then None
    else
      match (IntOf(r.ilosc), IntOf(r.prog), cena)
      case (Some(q), Some(t), Some(c)) => Some(Product(r.nazwa.value, q, t, r.lokalizacja, c))
      case _ => None
  }

  /** `Coerce` with the file's header fixed: what the loops apply to each row. */
  function Coercion(header: set<string>): (coerce: FileRow -> Option<Product>)
  {
    r => Coerce(header, r)
  }

  /**
   * The "Dodaj" button of the add form: `dodaj_produkt` runs only for a
   * non-empty name; the location comes from a text box (never NULL), and the
   * quantity, threshold and price from number boxes.
   */
  method AddForm(t: Table<Product>, nazwa: string, ilosc: int, prog: int, lokalizacja: string, cena: int)
    returns (added: bool)
    requires t.Valid()
    modifies t
    ensures t.Valid()
    ensures added <==> nazwa != ""
    ensures t.State() == AfterInsertIf(old(t.State()), added, Product(nazwa, ilosc, prog, Some(lokalizacja), Amount(cena)))
  {
    added := nazwa != "";
    if added {
      var _ := t.Insert(Product(nazwa, ilosc, prog, Some(lokalizacja), Amount(cena)));
    }
  }

  /**
   * The "Załaduj dane do bazy" button: a file pandas could not read raises
   * before the button is shown (`None`, nothing inserted); otherwise every row
   * that coerces is appended in file order and every other row is reported.
   */
  method ImportSheet(t: Table<Product>, file: Option<Sheet>) returns (failed: Option<seq<nat>>)
    requires t.Valid()
    modifies t
    ensures t.Valid()
    ensures t.State() == AfterImport(old(t.State()), RowsOf(file), Coercion(HeaderOf(file)))
    ensures failed.Some? <==> file.Some?
    ensures file.Some? ==> failed.value == Failures(file.value.rows, Coercion(file.value.header))
  {
    if file.None? {
      return None;
    }
    var f := Batch.Import(t, file.value.rows, Coercion(file.value.header));
    failed := Some(f);
  }

  /**
   * A reset from a file: the table is wiped and refilled with the file's rows
   * up to the first one that does not coerce (see `Batch.Reset`).
   */
  method ResetFromSheet(t: Table<Product>, file: Option<Sheet>) returns (outcome: ResetOutcome)
    requires t.Valid()
    modifies t
    ensures t.Valid()
    ensures t.State() == AfterReset(old(t.State()), RowsOf(file), Coercion(HeaderOf(file)))
    ensures file.None? ==> outcome == UnreadableFile
    ensures file.Some? ==>
      var k := FirstFailure(file.value.rows, Coercion(file.value.header));
      outcome == (if k < |file.value.rows| then StoppedAt(k) else Completed)
  {
    outcome := Batch.Reset(t, RowsOf(file), Coercion(HeaderOf(file)));
  }
}
