/**
 * What app.py adds to the shared table: the editable overview whose
 * "Zapisz zmiany" button writes every edited row back with
 * `aktualizuj_produkt`, the alert column, the reset from an uploaded file,
 * and its login page. app.py defines `usun_produkt` but never calls it, so no
 * run of this revision deletes a single product.
 */
module App {
  import opened Wrappers
  import opened Store
  import opened Sheets
  import opened Products
  import opened Batch
  import Alert
  import opened Gate

  /** One row of the edited overview, as `st.data_editor` returns it. A row added in the editor has a blank id unless the user types one. */
  datatype EditRow = EditRow(id: Cell, nazwa: Option<string>, ilosc: Cell, prog: Cell,
                             lokalizacja: Option<string>, cena: Cell)

  /** An edited row after `int(row["id"])`, `int(row["ilosc"])`, `int(row["prog_alertu"])`, `float(row["cena"])`. */
  datatype Edit = Edit(id: int, nazwa: Option<string>, ilosc: int, prog: int,
                       lokalizacja: Option<string>, cena: Price)

  /**
   * The coercions of one edited row. It fails when the id, quantity or
   * threshold is not an integer the store can bind (a row added in the editor
   * has a blank id) or the price is text; the name and location pass as they are.
   */
  function CoerceEdit(e: EditRow): (r: Option<Edit>)
    ensures r.Some? <==> IsInteger(e.id) && IsInteger(e.ilosc) && IsInteger(e.prog) && !e.cena.Text?
    ensures r.Some? ==>
      && r.value.id == e.id.n && r.value.nazwa == e.nazwa && r.value.ilosc == e.ilosc.n
      && r.value.prog == e.prog.n && r.value.lokalizacja == e.lokalizacja
      && r.value.cena == (if e.cena.Num? then Amount(e.cena.n) else NullPrice)
  {
    match (IntOf(e.id), IntOf(e.ilosc), IntOf(e.prog), PriceOf(e.cena))
    case (Some(id), Some(q), Some(t), Some(c)) => Some(Edit(id, e.nazwa, q, t, e.lokalizacja, c))
    case _ => None
  }

  /**
   * An edited row that the save loop reports: its coercion raises, or it has no
   * name and a row with its id exists, so the UPDATE violates NOT NULL.
   */
  predicate Rejected(rows: seq<Row<Product>>, e: EditRow)
  {
    CoerceEdit(e).None? || (CoerceEdit(e).value.nazwa.None? && HasId(rows, CoerceEdit(e).value.id))
  }

  /**
   * One iteration of the save loop: `None` when it raises. A coercion can fail;
   * an empty name violates NOT NULL only if a row with that id exists (an UPDATE
   * that matches no row checks nothing and changes nothing). A successful
   * iteration keeps every id in place and rewrites exactly the row with the
   * edit's id.
   */
  function EditOnce(rows: seq<Row<Product>>, e: EditRow): (r: Option<seq<Row<Product>>>)
    ensures r.None? <==> Rejected(rows, e)
    ensures r.Some? ==> |r.value| == |rows| && forall i :: 0 <= i < |rows| ==> r.value[i].id == rows[i].id
    ensures r.Some? ==> forall i :: 0 <= i < |rows| && rows[i].id != CoerceEdit(e).value.id ==> r.value[i] == rows[i]
    ensures r.Some? ==> forall i :: 0 <= i < |rows| && rows[i].id == CoerceEdit(e).value.id ==>
      var ed := CoerceEdit(e).value;
      r.value[i].fields == Product(ed.nazwa.value, ed.ilosc, ed.prog, ed.lokalizacja, ed.cena)
  {
    match CoerceEdit(e)
    case None => None
    case Some(ed) =>
      if ed.nazwa.Some? then
        Some(Replaced(rows, ed.id, Product(ed.nazwa.value, ed.ilosc, ed.prog, ed.lokalizacja, ed.cena)))
      else if HasId(rows, ed.id) then None
      else Some(rows)
  }

  /** The table after the save loop, and the indices of the edited rows it reported. */
  datatype Saved = Saved(rows: seq<Row<Product>>, failed: seq<nat>)

  /**
   * The save loop over all edited rows: each one is applied to the table the
   * previous ones left, or reported. The reports name edited rows, in order,
   * each at most once.
   */
  function SaveAll(rows: seq<Row<Product>>, edits: seq<EditRow>): (sv: Saved)
    ensures forall k :: 0 <= k < |sv.failed| ==> sv.failed[k] < |edits|
    ensures forall a, b :: 0 <= a < b < |sv.failed| ==> sv.failed[a] < sv.failed[b]
  {
    if edits == [] then Saved(rows, [])
    else
      var before := SaveAll(rows, edits[..|edits| - 1]);
      match EditOnce(before.rows, edits[|edits| - 1])
      case None => Saved(before.rows, before.failed + [|edits| - 1])
      case Some(after) => Saved(after, before.failed)
  }

  /**
   * Saving edits never adds or removes a product and never changes an id: an
   * edited row whose id is blank or matches no row updates nothing.
   */
  lemma {:induction false} SaveKeepsIds(rows: seq<Row<Product>>, edits: seq<EditRow>)
    ensures |SaveAll(rows, edits).rows| == |rows|
    ensures forall i :: 0 <= i < |rows| ==> SaveAll(rows, edits).rows[i].id == rows[i].id
  {
    if edits != [] {
      SaveKeepsIds(rows, edits[..|edits| - 1]);
    }
  }

  /** Two tables with the same ids in the same places carry the same ids. */
  lemma SameIdsHasId(a: seq<Row<Product>>, b: seq<Row<Product>>, id: int)
    requires |a| == |b| && forall i :: 0 <= i < |a| ==> a[i].id == b[i].id
    ensures HasId(a, id) <==> HasId(b, id)
  {
    if HasId(a, id) {
      var i :| 0 <= i < |a| && a[i].id == id;
      assert b[i].id == id;
    }
    if HasId(b, id) {
      var i :| 0 <= i < |b| && b[i].id == id;
      assert a[i].id == id;
    }
  }

  /**
   * The save loop goes past errors, and whether an edited row is reported does
   * not depend on the rows before it: it is reported exactly when its coercion
   * fails, or it has no name and its id is in the table the loop started from.
   */
  lemma {:induction false} SaveReportsFailures(rows: seq<Row<Product>>, edits: seq<EditRow>)
    ensures forall i :: i in SaveAll(rows, edits).failed <==> 0 <= i < |edits| && Rejected(rows, edits[i])
  {
    if edits != [] {
      var n := |edits| - 1;
      var init := edits[..n];
      SaveReportsFailures(rows, init);
      forall i | 0 <= i < n ensures init[i] == edits[i] { }
      var before := SaveAll(rows, init);
      SaveKeepsIds(rows, init);
      if CoerceEdit(edits[n]).Some? {
        SameIdsHasId(before.rows, rows, CoerceEdit(edits[n]).value.id);
      }
      assert EditOnce(before.rows, edits[n]).None? <==> Rejected(rows, edits[n]);
    }
  }

  /** Edits that all coerce and all carry a name are never reported. */
  lemma {:induction false} CleanEditsAllSaved(rows: seq<Row<Product>>, edits: seq<EditRow>)
    requires forall i :: 0 <= i < |edits| ==> CoerceEdit(edits[i]).Some? && CoerceEdit(edits[i]).value.nazwa.Some?
    ensures SaveAll(rows, edits).failed == []
  {
    if edits != [] {
      var init := edits[..|edits| - 1];
      forall i | 0 <= i < |init| ensures init[i] == edits[i] { }
      CleanEditsAllSaved(rows, init);
    }
  }

  /** Saving `xs + ys` leaves the table that saving `xs` and then `ys` leaves. */
  lemma {:induction false} SaveAllAppend(rows: seq<Row<Product>>, xs: seq<EditRow>, ys: seq<EditRow>)
    ensures SaveAll(rows, xs + ys).rows == SaveAll(SaveAll(rows, xs).rows, ys).rows
  {
    if ys == [] {
      assert xs + ys == xs;
    } else {
      var init := ys[..|ys| - 1];
      assert (xs + ys)[..|xs + ys| - 1] == xs + init;
      assert (xs + ys)[|xs + ys| - 1] == ys[|ys| - 1];
      SaveAllAppend(rows, xs, init);
    }
  }

  /** "Zapisz zmiany": `aktualizuj_produkt` for each edited row by its own id, reporting and going past errors. */
  method SaveEdits(t: Table<Product>, edits: seq<EditRow>) returns (failed: seq<nat>)
    requires t.Valid()
    modifies t
    ensures t.Valid()
    ensures t.rows == SaveAll(old(t.rows), edits).rows && t.nextId == old(t.nextId)
    ensures failed == SaveAll(old(t.rows), edits).failed
  {
    failed := [];
    var i := 0;
    while i < |edits|
      invariant 0 <= i <= |edits|
      invariant t.Valid() && t.nextId == old(t.nextId)
      invariant t.rows == SaveAll(old(t.rows), edits[..i]).rows
      invariant failed == SaveAll(old(t.rows), edits[..i]).failed
    {
      assert edits[..i + 1][..i] == edits[..i];
      match CoerceEdit(edits[i]) {
        case None =>
          failed := failed + [i];
        case Some(ed) =>
          if ed.nazwa.Some? {
            t.Update(ed.id, Product(ed.nazwa.value, ed.ilosc, ed.prog, ed.lokalizacja, ed.cena));
          } else if HasId(t.rows, ed.id) {
            failed := failed + [i];
          }
      }
      i := i + 1;
    }
    assert edits[..|edits|] == edits;
  }

  /** The "🔴 ALERT" column of the overview: one cell per row, the marker exactly on low-stock rows. */
  function AlertColumn(rows: seq<Row<Product>>): (col: seq<string>)
    ensures |col| == |rows|
    ensures forall i :: 0 <= i < |rows| ==>
      (col[i] == Alert.MARKER || col[i] == "") &&
      (col[i] != "" <==> Alert.IsLow(rows[i].fields.ilosc, rows[i].fields.prog))
  {
    seq(|rows|, i requires 0 <= i < |rows| => Alert.Marker(rows[i].fields.ilosc, rows[i].fields.prog))
  }

  /**
   * The error under app.py's login form: shown for any non-empty password that
   * pressing "Zaloguj" would not accept, whether or not the button was pressed.
   */
  function LoginRejected(haslo: string, pressed: bool): (shown: bool)
    ensures shown <==> haslo != "" && !Unlocks(Login(haslo, true))
    ensures shown ==> !Unlocks(Login(haslo, pressed))
  {
    if pressed && haslo == PASSWORD then false
    else haslo != "" && haslo != PASSWORD
  }

  /** What a run of the unlocked page does. */
  datatype Action =
    | Browse
    | LogoutPressed
    | AddPressed(nazwa: string, ilosc: int, prog: int, lokalizacja: string, cena: int)
    | ImportPressed(file: Option<Sheet>)
    | ResetPressed(upload: Option<Sheet>)
    | SavePressed(edits: seq<EditRow>)

  /**
   * The table after one run of the unlocked page. Browsing and logging out
   * leave it as it is. No action of app.py reuses an id: every row afterwards
   * either carries an id the table had or one issued in this run. Only the
   * reset can remove a product or move an id.
   */
  function Effect(s: Snapshot<Product>, action: Action): (r: Snapshot<Product>)
    ensures action.Browse? || action.LogoutPressed? ==> r == s
    ensures r.nextId >= s.nextId
    ensures forall i :: 0 <= i < |r.rows| ==> HasId(s.rows, r.rows[i].id) || r.rows[i].id >= s.nextId
    ensures !action.ResetPressed? ==> |r.rows| >= |s.rows| && forall i :: 0 <= i < |s.rows| ==> r.rows[i].id == s.rows[i].id
  {
    match action
    case Browse => s
    case LogoutPressed => s
    case AddPressed(nazwa, ilosc, prog, lokalizacja, cena) =>
      AfterInsertIf(s, nazwa != "", Product(nazwa, ilosc, prog, Some(lokalizacja), Amount(cena)))
    case ImportPressed(file) =>
      AfterImport(s, RowsOf(file), Coercion(HeaderOf(file)))
    case ResetPressed(upload) =>
      AfterReset(s, RowsOf(upload), Coercion(HeaderOf(upload)))
    case SavePressed(edits) =>
      SaveKeepsIds(s.rows, edits);
      Snapshot(SaveAll(s.rows, edits).rows, s.nextId)
  }

  /**
   * One run of app.py. A locked session sees only the login page and the table
   * is untouched; an unlocked one performs the action, and only logout relocks.
   */
  method Run(s: Session, t: Table<Product>, haslo: string, pressed: bool, action: Action) returns (rejected: bool)
    requires t.Valid()
    modifies s, t
    ensures t.Valid()
    ensures !old(s.zalogowany) ==>
      && s.zalogowany == Unlocks(Login(haslo, pressed))
      && rejected == LoginRejected(haslo, pressed)
      && t.State() == old(t.State())
    ensures old(s.zalogowany) ==>
      && !rejected
      && s.zalogowany == !action.LogoutPressed?
      && t.State() == Effect(old(t.State()), action)
  {
    if !s.zalogowany {
      rejected := LoginRejected(haslo, pressed);
      s.ShowLoginPage(haslo, pressed);
      return;
    }
    rejected := false;
    match action {
      case Browse =>
      case LogoutPressed =>
        s.PressLogout();
      case AddPressed(nazwa, ilosc, prog, lokalizacja, cena) =>
        var _ := AddForm(t, nazwa, ilosc, prog, lokalizacja, cena);
      case ImportPressed(file) =>
        var _ := ImportSheet(t, file);
      case ResetPressed(upload) =>
        var _ := ResetFromSheet(t, upload);
      case SavePressed(edits) =>
        var _ := SaveEdits(t, edits);
    }
  }
}
