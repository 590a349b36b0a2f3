/**
 * What app_ND.py adds to the shared table: a delete form, `resetuj_baze_z_csv`
 * run on the demo file, the row colouring `koloruj_wiersz`, and a login page
 * that reports a wrong password only when "Zaloguj" is pressed.
 */
module AppND {
  import opened Wrappers
  import opened Store
  import opened Sheets
  import opened Products
  import opened Batch
  import Alert
  import opened Gate

  /** The overview shows the columns `id, nazwa, ilosc, prog_alertu, lokalizacja, cena`. */
  const WIDTH: nat := 6

  /** `df.style.apply(koloruj_wiersz, axis=1)`: one style list per row, highlighted exactly on low-stock rows. */
  function TableStyles(rows: seq<Row<Product>>): (styles: seq<seq<string>>)
    ensures |styles| == |rows|
    ensures forall i :: 0 <= i < |rows| ==> |styles[i]| == WIDTH
    ensures forall i, c :: 0 <= i < |rows| && 0 <= c < WIDTH ==>
      (styles[i][c] == Alert.HIGHLIGHT <==> Alert.IsLow(rows[i].fields.ilosc, rows[i].fields.prog))
  {
    seq(|rows|, i requires 0 <= i < |rows| => Alert.RowStyle(WIDTH, rows[i].fields.ilosc, rows[i].fields.prog))
  }

  /** The error under app_ND.py's login form: shown exactly when "Zaloguj" is pressed and does not unlock. */
  function LoginRejected(haslo: string, pressed: bool): (shown: bool)
    ensures shown <==> pressed && !Unlocks(Login(haslo, pressed))
  {
    if pressed then haslo != PASSWORD else false
  }

  /** What a run of the unlocked page does. */
  datatype Action =
    | Browse
    | LogoutPressed
    | AddPressed(nazwa: string, ilosc: int, prog: int, lokalizacja: string, cena: int)
    | ImportPressed(file: Option<Sheet>)
    | ResetDemoPressed(demo: Option<Sheet>)
    | DeletePressed(id: int)

  /** The id box of the delete form has `min_value=1`. */
  predicate WellFormed(action: Action)
  {
    action.DeletePressed? ==> action.id >= 1
  }

  /**
   * The table after one run of the unlocked page. Browsing and logging out
   * leave it as it is, and no action reuses an id: every row afterwards either
   * carries an id the table had or one issued in this run. A delete removes
   * exactly the rows with its id and nothing else.
   */
  function Effect(s: Snapshot<Product>, action: Action): (r: Snapshot<Product>)
    ensures action.Browse? || action.LogoutPressed? ==> r == s
    ensures r.nextId >= s.nextId
    ensures forall i :: 0 <= i < |r.rows| ==> HasId(s.rows, r.rows[i].id) || r.rows[i].id >= s.nextId
    ensures action.DeletePressed? ==>
      && r.nextId == s.nextId
      && !HasId(r.rows, action.id)
      && forall i :: 0 <= i < |s.rows| && s.rows[i].id != action.id ==> s.rows[i] in r.rows
  {
    match action
    case Browse => s
    case LogoutPressed => s
    case AddPressed(nazwa, ilosc, prog, lokalizacja, cena) =>
      AfterInsertIf(s, nazwa != "", Product(nazwa, ilosc, prog, Some(lokalizacja), Amount(cena)))
    case ImportPressed(file) =>
      AfterImport(s, RowsOf(file), Coercion(HeaderOf(file)))
    case ResetDemoPressed(demo) =>
      AfterReset(s, RowsOf(demo), Coercion(HeaderOf(demo)))
    case DeletePressed(id) =>
      Snapshot(Without(s.rows, id), s.nextId)
  }

  /**
   * One run of app_ND.py. A locked session sees only the login page and the
   * table is untouched; an unlocked one performs the action, and only logout
   * relocks. The demo CSV the reset reads (`produkty_demo.csv`) is a parameter.
   */
  method Run(s: Session, t: Table<Product>, haslo: string, pressed: bool, action: Action) returns (rejected: bool)
    requires t.Valid() && WellFormed(action)
    modifies s, t
    ensures t.Valid()
    ensures !old(s.zalogowany) ==>
      && s.zalogowany == Unlocks(Login(haslo, pressed))
      && rejected == LoginRejected(haslo, pressed)
      && t.State() == old(t.State())
    ensures old(s.zalogowany) ==>
      && !rejected
      && s.zalogowany == !action.LogoutPressed?
      && t.State() == Effect(old(t.State()), action)
  {
    if !s.zalogowany {
      rejected := LoginRejected(haslo, pressed);
      s.ShowLoginPage(haslo, pressed);
      return;
    }
    rejected := false;
    match action {
      case Browse =>
      case LogoutPressed =>
        s.PressLogout();
      case AddPressed(nazwa, ilosc, prog, lokalizacja, cena) =>
        var _ := AddForm(t, nazwa, ilosc, prog, lokalizacja, cena);
      case ImportPressed(file) =>
        var _ := ImportSheet(t, file);
      case ResetDemoPressed(demo) =>
        var _ := ResetFromSheet(t, demo);
      case DeletePressed(id) =>
        t.Delete(id);
    }
  }
}
