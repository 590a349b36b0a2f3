/**
 * The two loops that feed file rows into the table, written once for any
 * row type `R` and any column type `F`; each revision supplies its coercion.
 *
 * - Import keeps going: a row whose coercion fails is reported and skipped.
 * - Reset wipes the table first, then inserts rows in order and stops at the
 *   first row whose coercion fails; the wipe is not undone.
 */
module Batch {
  import opened Wrappers
  import opened Store

  /** The rows the table issues for `fs`, inserted one by one with the counter at `start`. */
  function Issued<F>(start: int, fs: seq<F>): (rs: seq<Row<F>>)
  {
    seq(|fs|, i requires 0 <= i < |fs| => Row(start + i, fs[i]))
  }

  /** The products the import loop inserts: the successful coercions, in file order. */
  function Imported<R, F>(xs: seq<R>, coerce: R -> Option<F>): (fs: seq<F>)
  {
    if xs == [] then []
    else
      Imported(xs[..|xs| - 1], coerce) +
      match coerce(xs[|xs| - 1])
      case Some(f) => [f]
      case None => []
  }

  /** The indices of the rows the import loop reports, in file order. */
  function Failures<R, F>(xs: seq<R>, coerce: R -> Option<F>): (ks: seq<nat>)
  {
    if xs == [] then []
    else Failures(xs[..|xs| - 1], coerce) + if coerce(xs[|xs| - 1]).None? then [|xs| - 1] else []
  }

  /** Where the reset loop stops: the first row whose coercion fails, or `|xs|`. */
  function FirstFailure<R, F>(xs: seq<R>, coerce: R -> Option<F>): (k: nat)
    ensures k <= |xs|
    ensures forall i :: 0 <= i < k ==> coerce(xs[i]).Some?
    ensures k < |xs| ==> coerce(xs[k]).None?
  {
    if xs == [] || coerce(xs[0]).None? then 0
    else 1 + FirstFailure(xs[1..], coerce)
  }

  lemma IssuedSnoc<F>(start: int, fs: seq<F>, f: F)
    ensures Issued(start, fs + [f]) == Issued(start, fs) + [Row(start + |fs|, f)]
  {
  }

  /** A row is reported by the import exactly when its coercion fails. */
  lemma {:induction false} FailuresExact<R, F>(xs: seq<R>, coerce: R -> Option<F>)
    ensures forall i :: i in Failures(xs, coerce) <==> 0 <= i < |xs| && coerce(xs[i]).None?
  {
    if xs != [] {
      var init := xs[..|xs| - 1];
      FailuresExact(init, coerce);
      forall i | 0 <= i < |init| ensures init[i] == xs[i] { }
    }
  }

  /** Every file row is either imported or reported, never both, never neither. */
  lemma {:induction false} ImportAccountsForEveryRow<R, F>(xs: seq<R>, coerce: R -> Option<F>)
    ensures |Imported(xs, coerce)| + |Failures(xs, coerce)| == |xs|
  {
    if xs != [] {
      ImportAccountsForEveryRow(xs[..|xs| - 1], coerce);
    }
  }

  /** Importing two files one after the other inserts what importing them joined would. */
  lemma {:induction false} ImportedAppend<R, F>(xs: seq<R>, ys: seq<R>, coerce: R -> Option<F>)
    ensures Imported(xs + ys, coerce) == Imported(xs, coerce) + Imported(ys, coerce)
  {
    if ys != [] {
      var init := ys[..|ys| - 1];
      assert (xs + ys)[..|xs + ys| - 1] == xs + init;
      ImportedAppend(xs, init, coerce);
    } else {
      assert xs + ys == xs;
    }
  }

  /** When every row coerces, the import inserts one product per row, in file order. */
  lemma {:induction false} ImportedAllGood<R, F>(xs: seq<R>, coerce: R -> Option<F>)
    requires forall i :: 0 <= i < |xs| ==> coerce(xs[i]).Some?
    ensures |Imported(xs, coerce)| == |xs|
    ensures forall i :: 0 <= i < |xs| ==> Imported(xs, coerce)[i] == coerce(xs[i]).value
  {
    if xs != [] {
      var init := xs[..|xs| - 1];
      forall i | 0 <= i < |init| ensures init[i] == xs[i] { }
      ImportedAllGood(init, coerce);
    }
  }

  /**
   * What a reset inserts is a prefix of what an import of the same file would
   * insert: the images of the rows before the first failure. With no failing
   * row the two coincide.
   */
  lemma ResetIsPrefixOfImport<R, F>(xs: seq<R>, coerce: R -> Option<F>)
    ensures var k := FirstFailure(xs, coerce);
      var p := Imported(xs[..k], coerce);
      && |p| == k
      && (forall i :: 0 <= i < k ==> p[i] == coerce(xs[i]).value)
      && p <= Imported(xs, coerce)
      && (k == |xs| ==> p == Imported(xs, coerce))
  {
    var k := FirstFailure(xs, coerce);
    forall i | 0 <= i < k ensures xs[..k][i] == xs[i] { }
    ImportedAllGood(xs[..k], coerce);
    ImportedAppend(xs[..k], xs[k..], coerce);
    assert xs[..k] + xs[k..] == xs;
    assert k == |xs| ==> xs[..k] == xs;
  }

  /**
   * The table after the import loop over a file, or unchanged when the file
   * could not be read. The existing rows stay in front; the coerced rows follow
   * in file order, each with the next id; the counter advances once per row
   * inserted, and inserted plus reported rows account for the whole file.
   */
  function AfterImport<R, F>(s: Snapshot<F>, file: Option<seq<R>>, coerce: R -> Option<F>): (r: Snapshot<F>)
    ensures file.None? ==> r == s
    ensures |s.rows| <= |r.rows| && forall i :: 0 <= i < |s.rows| ==> r.rows[i] == s.rows[i]
    ensures r.nextId == s.nextId + (|r.rows| - |s.rows|)
    ensures forall i :: |s.rows| <= i < |r.rows| ==> r.rows[i].id == s.nextId + (i - |s.rows|)
    ensures file.Some? ==> (|r.rows| - |s.rows|) + |Failures(file.value, coerce)| == |file.value|
  {
    match file
    case None => s
    case Some(xs) =>
      ImportAccountsForEveryRow(xs, coerce);
      var fs := Imported(xs, coerce);
      Snapshot(s.rows + Issued(s.nextId, fs), s.nextId + |fs|)
  }

  /**
   * The table after a reset from a file, or unchanged when the file could not
   * be read: exactly the images of the rows before the first failing one, in
   * order, with ids issued from the old counter on. The body reads it as an
   * import of that prefix into an emptied table.
   */
  function AfterReset<R, F>(s: Snapshot<F>, file: Option<seq<R>>, coerce: R -> Option<F>): (r: Snapshot<F>)
    ensures file.None? ==> r == s
    ensures file.Some? ==>
      && |r.rows| == FirstFailure(file.value, coerce)
      && r.nextId == s.nextId + |r.rows|
      && forall i :: 0 <= i < |r.rows| ==> r.rows[i] == Row(s.nextId + i, coerce(file.value[i]).value)
  {
    match file
    case None => s
    case Some(xs) =>
      ResetIsPrefixOfImport(xs, coerce);
      var k := FirstFailure(xs, coerce);
      Snapshot(Issued(s.nextId, Imported(xs[..k], coerce)), s.nextId + k)
  }

  /** The import loop: insert each successfully coerced row, report and skip the others. */
  method Import<R, F>(t: Table<F>, xs: seq<R>, coerce: R -> Option<F>) returns (failed: seq<nat>)
    requires t.Valid()
    modifies t
    ensures t.Valid()
    ensures t.State() == AfterImport(old(t.State()), Some(xs), coerce)
    ensures failed == Failures(xs, coerce)
  {
    failed := [];
    var i := 0;
    while i < |xs|
      invariant 0 <= i <= |xs|
      invariant t.Valid()
      invariant t.rows == old(t.rows) + Issued(old(t.nextId), Imported(xs[..i], coerce))
      invariant t.nextId == old(t.nextId) + |Imported(xs[..i], coerce)|
      invariant failed == Failures(xs[..i], coerce)
    {
      assert xs[..i + 1][..i] == xs[..i];
      match coerce(xs[i]) {
        case Some(f) =>
          IssuedSnoc(old(t.nextId), Imported(xs[..i], coerce), f);
          var _ := t.Insert(f);
        case None =>
          failed := failed + [i];
      }
      i := i + 1;
    }
    assert xs[..|xs|] == xs;
  }

  /** How a reset ended. */
  datatype ResetOutcome = Completed | UnreadableFile | StoppedAt(row: nat)

  /**
   * The reset: a file that cannot be read changes nothing; otherwise the table
   * is emptied and the rows are inserted in order until the first row that does
   * not coerce, which is reported. The table then holds exactly the images of the
   * rows before it, with ids issued after every earlier one.
   */
  method Reset<R, F>(t: Table<F>, file: Option<seq<R>>, coerce: R -> Option<F>) returns (outcome: ResetOutcome)
    requires t.Valid()
    modifies t
    ensures t.Valid()
    ensures t.State() == AfterReset(old(t.State()), file, coerce)
    ensures file.None? ==> outcome == UnreadableFile
    ensures file.Some? ==>
      var k := FirstFailure(file.value, coerce);
      outcome == (if k < |file.value| then StoppedAt(k) else Completed)
  {
    if file.None? {
      return UnreadableFile;
    }
    var xs := file.value;
    t.DeleteAll();
    var i := 0;
    outcome := Completed;
    while i < |xs|
      invariant 0 <= i <= FirstFailure(xs, coerce)
      invariant t.Valid()
      invariant |t.rows| == i && t.nextId == old(t.nextId) + i
      invariant forall j :: 0 <= j < i ==> t.rows[j] == Row(old(t.nextId) + j, coerce(xs[j]).value)
    {
      match coerce(xs[i]) {
        case Some(f) =>
          var _ := t.Insert(f);
        case None =>
          return StoppedAt(i);
      }
      i := i + 1;
    }
  }
}
