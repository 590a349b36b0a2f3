/**
 * app_v1.0.py: the first revision. Its table has no `cena` column, it has no
 * update and no reset, and its gate keeps no session: the password box is
 * checked again on every run, and a wrong or empty password stops the run
 * before anything else happens.
 */
module AppV1 {
  import opened Wrappers
  import opened Store
  import opened Sheets
  import opened Batch
  import Alert
  import opened Gate

  /** The non-id columns `nazwa, ilosc, prog_alertu, lokalizacja`. */
  datatype ProductV1 = ProductV1(nazwa: string, ilosc: int, prog: int, lokalizacja: Option<string>)

  /**
   * The body of the import loop for one row:
   * `dodaj_produkt(row["nazwa"], int(row["ilosc"]), int(row["prog_alertu"]), row["lokalizacja"])`.
   * It fails on a missing required column, a quantity or threshold that is not
   * an integer the store can bind, and an empty name. A `cena` column, if the
   * file has one, is ignored.
   */
  function CoerceV1(header: set<string>, r: FileRow): (p: Option<ProductV1>)
    ensures p.Some? <==> REQUIRED <= header && r.nazwa.Some? && IsInteger(r.ilosc) && IsInteger(r.prog)
    ensures p.Some? ==> p.value == ProductV1(r.nazwa.value, r.ilosc.n, r.prog.n, r.lokalizacja)
  {
    if !(REQUIRED <= header) || r.nazwa.None? then None
    else
      match (IntOf(r.ilosc), IntOf(r.prog))
      case (Some(q), Some(t)) => Some(ProductV1(r.nazwa.value, q, t, r.lokalizacja))
      case _ => None
  }

  /** `CoerceV1` with the file's header fixed: what the import loop applies to each row. */
  function CoercionV1(header: set<string>): (coerce: FileRow -> Option<ProductV1>)
  {
    r => CoerceV1(header, r)
  }

  /** The overview shows `SELECT *`: the columns `id, nazwa, ilosc, prog_alertu, lokalizacja`. */
  const WIDTH: nat := 5

  /** `df.style.apply(koloruj_wiersz, axis=1)`: one style list per row, highlighted exactly on low-stock rows. */
  function TableStyles(rows: seq<Row<ProductV1>>): (styles: seq<seq<string>>)
    ensures |styles| == |rows|
    ensures forall i :: 0 <= i < |rows| ==> |styles[i]| == WIDTH
    ensures forall i, c :: 0 <= i < |rows| && 0 <= c < WIDTH ==>
      (styles[i][c] == Alert.HIGHLIGHT <==> Alert.IsLow(rows[i].fields.ilosc, rows[i].fields.prog))
  {
    seq(|rows|, i requires 0 <= i < |rows| => Alert.RowStyle(WIDTH, rows[i].fields.ilosc, rows[i].fields.prog))
  }

  /** The "Dodaj" button: `dodaj_produkt` runs only for a non-empty name. */
  method AddForm(t: Table<ProductV1>, nazwa: string, ilosc: int, prog: int, lokalizacja: string)
    returns (added: bool)
    requires t.Valid()
    modifies t
    ensures t.Valid()
    ensures added <==> nazwa != ""
    ensures t.State() == AfterInsertIf(old(t.State()), added, ProductV1(nazwa, ilosc, prog, Some(lokalizacja)))
  {
    added := nazwa != "";
    if added {
      var _ := t.Insert(ProductV1(nazwa, ilosc, prog, Some(lokalizacja)));
    }
  }

  /** The import button: every row that coerces is appended in file order, every other row is reported. */
  method ImportSheet(t: Table<ProductV1>, file: Option<Sheet>) returns (failed: Option<seq<nat>>)
    requires t.Valid()
    modifies t
    ensures t.Valid()
    ensures t.State() == AfterImport(old(t.State()), RowsOf(file), CoercionV1(HeaderOf(file)))
    ensures failed.Some? <==> file.Some?
    ensures file.Some? ==> failed.value == Failures(file.value.rows, CoercionV1(file.value.header))
  {
    if file.None? {
      return None;
    }
    var f := Batch.Import(t, file.value.rows, CoercionV1(file.value.header));
    failed := Some(f);
  }

  /** What the page does once past the password box. */
  datatype Action =
    | Browse
    | AddPressed(nazwa: string, ilosc: int, prog: int, lokalizacja: string)
    | ImportPressed(file: Option<Sheet>)
    | DeletePressed(id: int)

  /** The id box of the delete form has `min_value=1`. */
  predicate WellFormed(action: Action)
  {
    action.DeletePressed? ==> action.id >= 1
  }

  /**
   * The table after one run past the password box. Browsing leaves it as it
   * is, and no action reuses an id: every row afterwards either carries an id
   * the table had or one issued in this run. A delete removes exactly the rows
   * with its id and nothing else.
   */
  function Effect(s: Snapshot<ProductV1>, action: Action): (r: Snapshot<ProductV1>)
    ensures action.Browse? ==> r == s
    ensures r.nextId >= s.nextId
    ensures forall i :: 0 <= i < |r.rows| ==> HasId(s.rows, r.rows[i].id) || r.rows[i].id >= s.nextId
    ensures action.DeletePressed? ==>
      && r.nextId == s.nextId
      && !HasId(r.rows, action.id)
      && forall i :: 0 <= i < |s.rows| && s.rows[i].id != action.id ==> s.rows[i] in r.rows
  {
    match action
    case Browse => s
    case AddPressed(nazwa, ilosc, prog, lokalizacja) =>
      AfterInsertIf(s, nazwa != "", ProductV1(nazwa, ilosc, prog, Some(lokalizacja)))
    case ImportPressed(file) =>
      AfterImport(s, RowsOf(file), CoercionV1(HeaderOf(file)))
    case DeletePressed(id) =>
      Snapshot(Without(s.rows, id), s.nextId)
  }

  /**
   * One run of app_v1.0.py. There is no session: the run goes past the gate
   * exactly when the password typed in this run is the password; a run that
   * stops at the gate leaves the table untouched, and one that goes past it
   * performs the action.
   */
  method PageRun(t: Table<ProductV1>, haslo: string, action: Action) returns (open: bool)
    requires t.Valid() && WellFormed(action)
    modifies t
    ensures t.Valid()
    ensures open <==> haslo == PASSWORD
    ensures t.State() == if open then Effect(old(t.State()), action) else old(t.State())
  {
    open := haslo == PASSWORD;
    if !open {
      return;
    }
    match action {
      case Browse =>
      case AddPressed(nazwa, ilosc, prog, lokalizacja) =>
        var _ := AddForm(t, nazwa, ilosc, prog, lokalizacja);
      case ImportPressed(file) =>
        var _ := ImportSheet(t, file);
      case DeletePressed(id) =>
        t.Delete(id);
    }
  }
}
