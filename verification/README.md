# Inventory store of the "aplikacja-magazynowa" Streamlit app, modelled in Dafny

The repository holds three revisions of one small inventory application:
`app_v1.0.py`, `app_ND.py` and `app.py`. Beneath the Streamlit widgets and the
SQLite and pandas calls is a small sequential state machine. This project
models that machine:

- **The `produkty` table** (`Store.Table<F>`). It holds rows with a
  store-assigned id and the non-id columns `F`. The id counter behaves like
  SQLite's `AUTOINCREMENT`: an id is never issued twice, and
  `DELETE FROM produkty` does not reset the counter. The operations are
  insert, delete-by-id, update-by-id (all five non-id columns) and delete-all.
  The table does no validation, and it has no not-found error: an UPDATE or
  DELETE on a missing id affects zero rows.
- **Schemas.** `app.py` and `app_ND.py` keep five columns
  (`Products.Product`, with `cena`). `app_v1.0.py` keeps four
  (`AppV1.ProductV1`).
- **File rows** (`Sheets`). A row is made of already-parsed cells. Coercing a
  row (`int(ilosc)`, `int(prog_alertu)`, `float(cena)` when the file has a
  `cena` column) either succeeds or fails. A missing required column, or an
  empty name (the NOT NULL constraint), also makes it fail.
- **Batch loops** (`Batch`). Each is written once and used by every revision:
  - import skips each failing row and reports it;
  - reset wipes the table, inserts rows in order, and stops at the first
    failing row without undoing the wipe.
- **Save-edits loop** (`app.py` only, `App.SaveEdits`). It calls
  `aktualizuj_produkt` for each edited row, by that row's own id, and goes on
  past errors.
- **Alert rule** (`Alert`). A row is low on stock when `ilosc <= prog_alertu`.
  `app.py` shows this as a marker column. `app_ND.py` and `app_v1.0.py` show it
  as per-cell row styles (`koloruj_wiersz`).
- **Access gate.**
  - `app.py` and `app_ND.py` keep a session flag (`Gate.Session`). It is
    unlocked only by pressing "Zaloguj" with exactly `demo2025`, and relocked
    by logout. The two revisions differ in when they show the "wrong password"
    error.
  - `app_v1.0.py` keeps no session. Each run checks the typed password again
    (`AppV1.PageRun`).
- **One page run per revision** (`App.Run`, `AppND.Run`, `AppV1.PageRun`). The
  effect of each action on the table is a function from one `Store.Snapshot`
  (rows and counter) to the next (`App.Effect`, `AppND.Effect`,
  `AppV1.Effect`). A run that stops at the gate leaves the table untouched.

Prices are whole numbers in an opaque unit. `Price.NullPrice` is the SQL NULL
that a NaN price becomes. A quantity, threshold or id outside SQLite's 64-bit
INTEGER range makes Python's `sqlite3` binding raise, so such a cell fails like
a non-numeric one.

Three behaviours of the code shape the model:
- The code defines no error types of its own. A row that fails raises a Python
  exception, which the import and save loops catch and report before going on.
  An UPDATE or DELETE on an id that no row carries is not an error: it affects
  zero rows.
- Reset stops at the first failing row. The rows inserted before it stay, and
  the wipe is not undone.
- `app.py` defines `usun_produkt` but never calls it, so no run of `app.py`
  deletes one product.

## Model

| member | source | states |
|---|---|---|
| Store.Table.constructor | app.py:27-37 | A new table is empty, and the first id it issues is 1. |
| Store.Table.Insert | app.py:40-43 | Appends exactly one row with the given fields. Its id is the counter value, above every id issued before. The counter advances, and the existing rows are unchanged. |
| Store.Table.Delete | app_ND.py:51-53 | The new table is `Without(old rows, id)`, and the counter is unchanged. Ids stay unique. |
| Store.Table.Update | app.py:52-62 | The new table is `Replaced(old rows, id, f)`, and the counter is unchanged. Ids stay unique. |
| Store.Table.DeleteAll | app.py:79-80 | Empties the table and keeps the counter, so later ids still exceed earlier ones. |
| Store.AfterInsertIf | app.py:40-43 | An insert guarded by a condition adds one row exactly when the condition holds. That row carries the next id and the given fields, follows every existing row unchanged, and advances the counter by one. |
| Store.Without | app.py:48-50 | Every surviving row was in the table and does not carry the id. Every row with another id survives. |
| Store.Replaced | app.py:52-62 | Same length and the same id at every position. The row with the id carries the new fields. Every other row is unchanged. |
| Store.WithoutKeepsUnique | app.py:29 | Deleting keeps the PRIMARY KEY (no two rows share an id). |
| Store.DeleteMissingIsNoop | app_v1.0.py:36-38 | Deleting an id that no row carries leaves the table unchanged. |
| Store.DeletePresentRemovesOne | app_ND.py:51-53 | Deleting a present id removes exactly one row, and the id is gone afterwards. |
| Store.UpdateMissingIsNoop | app.py:52-62 | Updating an id that no row carries leaves the table unchanged and raises nothing. |
| Sheets.IntOf | app.py:182-184 | `int(cell)` followed by the bind succeeds exactly on a numeric cell inside SQLite's 64-bit INTEGER range, and yields that number. NaN, text and out-of-range numbers fail. |
| Products.PriceOf | app.py:183 | `float(cell)` succeeds exactly when the cell is not text. A number gives that amount, and NaN gives the NULL price. |
| Products.Coerce | app.py:182-183 | A file row becomes a product exactly when all of these hold: the required columns exist, the name is present, quantity and threshold are integers inside the INTEGER range, and the price (if the file has a `cena` column) is numeric or NaN. Fields are carried over. `cena` is 0 without the column. |
| Products.AddForm | app.py:151-164 | Reports an insert exactly when the name is non-empty. The table becomes `AfterInsertIf(old table, that condition, the form's five fields)`, so an empty name leaves it unchanged. |
| Products.ImportSheet | app.py:166-186 | The table becomes `AfterImport(old table, file, Coerce)`, so an unreadable file changes nothing. Failures are reported exactly when the file could be read, and they are `Failures(rows)`. |
| Products.ResetFromSheet | app_ND.py:55-65 | The table becomes `AfterReset(old table, file, Coerce)`. The outcome says the file was unreadable, names the first failing row, or says the reset completed. |
| Batch.AfterImport | app.py:180-185 | An unreadable file changes nothing. Otherwise the existing rows stay in front, unchanged. The new rows carry consecutive ids from the old counter, and the counter advances by their number. Inserted plus reported rows equal the file's row count. |
| Batch.AfterReset | app.py:79-84 | An unreadable file changes nothing. Otherwise the table holds exactly k rows, the images of file rows 0..k-1, where k is the first failing row. Their ids run from the old counter, and the counter advances by k. |
| Batch.Import | app.py:180-185 | The table becomes `AfterImport(old table, rows, coerce)`. The reported indices are `Failures(rows)`. |
| Batch.Reset | app.py:71-90 | The table becomes `AfterReset(old table, file, coerce)`. The outcome names row k, or says the reset completed, or says the file was unreadable. |
| Batch.FirstFailure | app_ND.py:60-62 | Every row before the stopping point coerces. The row at the stopping point (if any) does not. |
| Batch.FailuresExact | app_ND.py:150-155 | A row index is reported exactly when that row fails to coerce. |
| Batch.ImportAccountsForEveryRow | app.py:180-185 | The imported count plus the reported count equals the number of file rows. |
| Batch.ImportedAppend | app_v1.0.py:102-106 | Rows are handled independently: importing `xs + ys` inserts what importing `xs` and then `ys` inserts. |
| Batch.ImportedAllGood | app_ND.py:150-155 | If every row coerces, one product is inserted per row, in file order. |
| Batch.ResetIsPrefixOfImport | app.py:79-84 | What reset inserts is a prefix of what an import of the same file inserts. The two are equal when no row fails. |
| Alert.Marker | app.py:107 | The alert cell is either the marker or empty. It is non-empty exactly when `ilosc <= prog_alertu`. |
| Alert.RowStyle | app_ND.py:92-96 | There is one style per cell, and all styles are alike. Each is the highlight exactly when `ilosc <= prog_alertu`. |
| App.AlertColumn | app.py:106-107 | The alert column has one cell per row. A cell carries the marker exactly on low-stock rows. |
| App.CoerceEdit | app.py:116-123 | An edited row coerces exactly when id, quantity and threshold are integers inside the INTEGER range and the price is not text. The name and location pass through unchanged. |
| App.EditOnce | app.py:114-125 | One edited row raises exactly when its coercion fails, or when it has no name and its id is in the table. Otherwise every id stays in place, the row with the edit's id gets the edited fields, and every other row is unchanged. |
| App.SaveAll | app.py:113-126 | The reported indices name edited rows, in increasing order, each at most once. |
| App.SaveEdits | app.py:113-126 | The table becomes `SaveAll(old rows, edits)`, and the counter is unchanged. The reported indices are those `SaveAll` reports. |
| App.SaveKeepsIds | app.py:113-126 | Saving edits never adds or removes a product and never changes an id. |
| App.SaveReportsFailures | app.py:114-125 | An edited row is reported exactly when its coercion fails, or it has no name and its id is in the table. The earlier edits do not change this, and later rows are still processed. A row added in the editor with a blank id is therefore always reported. |
| App.CleanEditsAllSaved | app.py:116-123 | When every edited row coerces and has a name, nothing is reported. |
| App.SaveAllAppend | app.py:114 | Saving `xs + ys` leaves the table that saving `xs` and then `ys` leaves. |
| App.LoginRejected | app.py:16-20 | The error shows for every non-empty password that pressing would not accept, even before pressing. It never shows for an unlocking login. |
| App.Effect | app.py:64-186 | Browse and logout leave the table unchanged. No action reuses an id: each row afterwards carries an old id or one issued in the run. The counter never decreases. Every action except reset keeps every existing product and its id in place. |
| App.Run | app.py:13-21 | In a locked session only the login logic runs: the flag becomes true exactly on an unlocking login, and the table is untouched. In an unlocked session no error shows, only logout relocks, and the table becomes `Effect(old table, action)`. That means add, import, reset and save each have the effect of their form's method, and browse and logout change nothing. |
| Gate.Session.constructor | app.py:10-11 | A session starts locked. |
| Gate.Session.ShowLoginPage | app_ND.py:14-24 | On the login page the flag becomes true exactly when "Zaloguj" is pressed with exactly `demo2025`. |
| Gate.Session.PressLogout | app.py:147-149 | Logout locks the session. |
| Gate.UnlockedIff | app.py:10-21 | A fresh session is unlocked after a history exactly when some run pressed "Zaloguj" with the password and no logout came after it. |
| Gate.WrongPasswordKeepsLocked | app_ND.py:18-23 | A history of wrong passwords never unlocks the session. |
| AppND.LoginRejected | app_ND.py:18-23 | The error shows exactly when "Zaloguj" is pressed and the login does not unlock, including an empty password. |
| AppND.TableStyles | app_ND.py:92-98 | There is one list of six styles per row. A cell is highlighted exactly on low-stock rows. |
| AppND.Effect | app_ND.py:67-156 | Browse and logout leave the table unchanged. No action reuses an id, and the counter never decreases. Delete keeps the counter, leaves no row with its id, and keeps every row with another id. |
| AppND.Run | app_ND.py:14-24 | In a locked session the table is untouched and the flag follows the login. In an unlocked session no error shows, only logout relocks, and the table becomes `Effect(old table, action)`: add, import, demo reset and delete (id ≥ 1) each have their method's effect. |
| AppV1.CoerceV1 | app_v1.0.py:104 | A file row becomes a four-field product exactly when all of these hold: the required columns exist, the name is present, and quantity and threshold are integers inside the INTEGER range. Any `cena` column is ignored. |
| AppV1.TableStyles | app_v1.0.py:50-56 | There is one list of five styles per row. A cell is highlighted exactly on low-stock rows. |
| AppV1.AddForm | app_v1.0.py:74-86 | Reports an insert exactly when the name is non-empty. The table becomes `AfterInsertIf(old table, that condition, the form's four fields)`. |
| AppV1.ImportSheet | app_v1.0.py:88-107 | The table becomes `AfterImport(old table, file, CoerceV1)`. Failures are reported exactly when the file could be read, and they are `Failures(rows)`. |
| AppV1.Effect | app_v1.0.py:44-107 | Browse leaves the table unchanged. No action reuses an id, and the counter never decreases. Delete keeps the counter, leaves no row with its id, and keeps every row with another id. |
| AppV1.PageRun | app_v1.0.py:7-10 | With no session state, the run passes the gate exactly when this run's password is `demo2025`. A stopped run leaves the table untouched. A run past the gate makes the table `Effect(old table, action)`. |

## Left out

- Streamlit itself is left out: widgets, `data_editor`, styling strings beyond the highlight value, messages, download buttons and the `st.rerun`/`st.stop` lifecycle. Only the decisions they encode are modelled. Each run takes one action.
- SQLite mechanics are left out: the connection, `commit`, the `produkty.db` file, `CREATE TABLE IF NOT EXISTS` and `check_same_thread=False`. The table starts empty.
- The counter is unbounded: SQLite's failure once ids pass 2^63-1 is not modelled.
- pandas parsing is a foreign call. `read_csv` and `read_excel` become an already-parsed `Sheet`, or `None` when the file cannot be read.
- Export (`to_csv`, `to_excel`, the `"{x:.2f} zł"` formatting and `round`) is not modelled. It is floating-point formatting through foreign calls, so the export/import round trip is not stated.
- Floating point is left out. Prices are whole numbers, and `int()` truncation of a fractional cell is not modelled (a numeric cell holds an integer). A numeric value in a name or location column, which pandas hands over as a number rather than text, is not modelled either: those cells are text or empty.
- The reason text of each error (the row contents and the exception message) is not modelled. Only the index of the failing row is reported.
- The result order of `SELECT *` is not modelled: the table keeps insertion order internally, but no contract promises an order to a reader.
- A NULL `prog_alertu` is left out: no modelled path writes one, so the alert rule is stated only for a present threshold.
- `ilosc >= 0` and `cena >= 0` are enforced only by the number widgets, not by the store, so they are not part of any store contract.
- Streamlit's rule about where `st.set_page_config` may be called is not modelled. In `app_v1.0.py` it is called at line 41, after a widget, and whether that raises depends on the Streamlit version.
- Products.AddForm / AppV1.AddForm: the INTEGER range is not checked on the form's quantity and threshold. Streamlit's integer number boxes keep their values within ±(2^53−1), well inside it.
