/**
 * The low-stock rule and the two ways the revisions display it: a marker
 * column (app.py) and a per-row style list (`koloruj_wiersz`, app_ND.py and
 * app_v1.0.py). Thresholds are always present here: every path that writes a
 * product goes through `int(prog_alertu)` or a number widget.
 */
module Alert {

  /** A product is low on stock when its quantity has fallen to its threshold or below. */
  predicate IsLow(ilosc: int, prog: int)
  {
    ilosc <= prog
  }

  /** The marker app.py writes in its alert column. */
  const MARKER: string := "❗"

  /** The cell style `koloruj_wiersz` gives every cell of a low-stock row. */
  const HIGHLIGHT: string := "background-color: #ffcccc"

  /** The alert-column cell of one row: the marker for a low-stock row, empty otherwise. */
  function Marker(ilosc: int, prog: int): (m: string)
    ensures m == MARKER || m == ""
    ensures m != "" <==> IsLow(ilosc, prog)
  {
    if ilosc <= prog then MARKER else ""
  }

  /** Python's `[s] * n`. */
  function Repeat(s: string, n: nat): (r: seq<string>)
    ensures |r| == n && forall i :: 0 <= i < n ==> r[i] == s
  {
    if n == 0 then [] else [s] + Repeat(s, n - 1)
  }

  /**
   * `koloruj_wiersz` for a row of `width` cells: one style per cell, all alike,
   * each the highlight exactly when the row is low on stock.
   */
  function RowStyle(width: nat, ilosc: int, prog: int): (styles: seq<string>)
    ensures |styles| == width
    ensures forall i :: 0 <= i < width ==> styles[i] == (if IsLow(ilosc, prog) then HIGHLIGHT else "")
  {
    Repeat(if ilosc <= prog then HIGHLIGHT else "", width)
  }
}
