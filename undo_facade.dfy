/**
 * The composite operations of UndoRedoDecorator: deleting a column and
 * deleting a table, each a sequence of primitive commands recorded in one
 * transaction that is opened only when the caller has not opened one.
 *
 * The decorated datastore is seen through a `Store`: the function that
 * applies a command, the shape (row and column counts) of the table with a
 * given immutable id, and the constructors of the primitive commands used
 * here (blank one cell, delete a row, delete an empty column, delete an
 * empty table).
 */
module UndoFacade {
  import opened Wrappers
  import opened UndoLog

  datatype Shape = Shape(rows: nat, cols: nat)

  datatype Store<!C, !D> = Store(
    exec: Exec<C, D>,
    table: (D, int) -> Option<Shape>,
    blankCell: (int, int, int) -> C,    // new Set(tableId, row, col, null)
    deleteRow: (int, int) -> C,         // new DeleteRow(tableId, row)
    deleteEmptyCol: (int, int) -> C,    // new DeleteEmptyCol(tableId, col)
    deleteEmptyTable: int -> C)         // new DeleteEmptyTable(tableId)

  function Rows<C, D>(s: Store<C, D>, d: D, t: int): nat
  {
    match s.table(d, t)
    case None => 0
    case Some(sh) => sh.rows
  }

  function Cols<C, D>(s: Store<C, D>, d: D, t: int): nat
  {
    match s.table(d, t)
    case None => 0
    case Some(sh) => sh.cols
  }

  /**
   * What deleteTableById needs of the datastore for its two while loops to
   * end: deleting the last row removes a row, blanking a cell keeps the
   * columns, and deleting the last column removes a column.
   */
  ghost predicate Shrinking<C(!new), D(!new)>(s: Store<C, D>)
  {
    && (forall d, t :: Rows(s, d, t) > 0 ==>
          Rows(s, s.exec(s.deleteRow(t, Rows(s, d, t) - 1), d).1, t) < Rows(s, d, t))
    && (forall d, t, row, col :: Cols(s, s.exec(s.blankCell(t, row, col), d).1, t) == Cols(s, d, t))
    && (forall d, t :: Cols(s, d, t) > 0 ==>
          Cols(s, s.exec(s.deleteEmptyCol(t, Cols(s, d, t) - 1), d).1, t) < Cols(s, d, t))
  }

  /**
   * Since L0, the log has stayed inside transaction `tx`: the past before
   * L0's cursor is untouched, and everything made undoable since carries `tx`.
   */
  ghost predicate TaggedSince<C, D>(L0: Log<C, D>, L: Log<C, D>, tx: int)
  {
    && WellFormed(L) && 0 <= L0.position <= L.position && L0.position <= |L0.buffer|
    && L.buffer[..L0.position] == L0.buffer[..L0.position]
    && (forall k :: L0.position <= k < L.position ==> L.buffer[k].txNb == tx)
    && L.currentTx == tx && L.nextTx == L0.nextTx
  }

  /** Inside a transaction a command never throws, and keeps the run tagged. */
  lemma DoCommandInTransaction<C, D>(maxSize: int, x: Exec<C, D>, cmd: C, L0: Log<C, D>, L: Log<C, D>, tx: int)
    requires 2 <= maxSize && tx != NoTx && TaggedSince(L0, L, tx)
    ensures DoCommand(maxSize, x, cmd, L).out == Pass
    ensures TaggedSince(L0, DoCommand(maxSize, x, cmd, L).log, tx)
  {
    var a := DoCommand(maxSize, x, cmd, L);
    assert a.log.buffer[..L0.position] == L.buffer[..L.position][..L0.position];
  }

  /** Opens a transaction unless one is open: the state the composite body starts from. */
  function Open<C, D>(maxSize: int, L: Log<C, D>): (s: Step<C, D>)
    requires 2 <= maxSize && WellFormed(L)
    ensures s.out.Pass? ==> WellFormed(s.log) && IsInTransaction(s.log) && s.log.ds == L.ds
    ensures IsInTransaction(L) ==> s == Step(Pass, L)
  {
    if IsInTransaction(L) then Step(Pass, L) else StartTransaction(maxSize, L)
  }

  /** Closes the transaction opened by Open, unless the body threw. */
  function Close<C, D>(wasOpen: bool, body: Step<C, D>): Step<C, D>
  {
    if body.out.Fail? || wasOpen then body else EndTransaction(body.log)
  }

  /** The loop of deleteCol that sets every cell of the column to null, rows i to n-1. */
  function BlankRows<C, D>(s: Store<C, D>, maxSize: int, t: int, col: int, i: nat, n: nat, L: Log<C, D>): (r: Step<C, D>)
    requires 2 <= maxSize && WellFormed(L) && i <= n
    decreases n - i
    ensures r.out.Pass? ==> WellFormed(r.log)
  {
    if i == n then Step(Pass, L)
    else
      var a := DoCommand(maxSize, s.exec, s.blankCell(t, i, col), L);
      if a.out.Fail? then Step(a.out, a.log)
      else BlankRows(s, maxSize, t, col, i + 1, n, a.log)
  }

  /** deleteCol: blank every cell of the column, then delete the empty column. */
  function DeleteCol<C, D>(s: Store<C, D>, maxSize: int, t: int, col: int, L: Log<C, D>): (r: Step<C, D>)
    requires 2 <= maxSize && WellFormed(L)
    ensures r.out.Pass? ==> WellFormed(r.log)
  {
    var o := Open(maxSize, L);
    if o.out.Fail? then o
    else
      var body :=
        match s.table(o.log.ds, t)
        case None => Step(Pass, o.log)
        case Some(sh) =>
          var b := BlankRows(s, maxSize, t, col, 0, sh.rows, o.log);
          if b.out.Fail? then b
          else
            var a := DoCommand(maxSize, s.exec, s.deleteEmptyCol(t, col), b.log);
            Step(a.out, a.log);
      Close(IsInTransaction(L), body)
  }

  /** The first loop of deleteTableById: delete the last row while there is one. */
  function DeleteRows<C(!new), D(!new)>(s: Store<C, D>, maxSize: int, t: int, L: Log<C, D>): (r: Step<C, D>)
    requires 2 <= maxSize && WellFormed(L) && Shrinking(s)
    decreases Rows(s, L.ds, t)
    ensures r.out.Pass? ==> WellFormed(r.log)
  {
    var n := Rows(s, L.ds, t);
    if n == 0 then Step(Pass, L)
    else
      var a := DoCommand(maxSize, s.exec, s.deleteRow(t, n - 1), L);
      if a.out.Fail? then Step(a.out, a.log)
      else DeleteRows(s, maxSize, t, a.log)
  }

  /** Blanking cells leaves the column count as it was. */
  lemma {:induction false} BlankRowsKeepsCols<C(!new), D(!new)>(s: Store<C, D>, maxSize: int, t: int, col: int, i: nat, n: nat, L: Log<C, D>)
    requires 2 <= maxSize && WellFormed(L) && i <= n && Shrinking(s)
    requires BlankRows(s, maxSize, t, col, i, n, L).out.Pass?
    decreases n - i
    ensures Cols(s, BlankRows(s, maxSize, t, col, i, n, L).log.ds, t) == Cols(s, L.ds, t)
  {
    if i < n {
      var a := DoCommand(maxSize, s.exec, s.blankCell(t, i, col), L);
      BlankRowsKeepsCols(s, maxSize, t, col, i + 1, n, a.log);
    }
  }

  /** Deleting the last column of a table with columns removes one. */
  lemma DeleteLastColShrinks<C(!new), D(!new)>(s: Store<C, D>, maxSize: int, t: int, L: Log<C, D>)
    requires 2 <= maxSize && WellFormed(L) && Shrinking(s) && Cols(s, L.ds, t) > 0
    requires DeleteCol(s, maxSize, t, Cols(s, L.ds, t) - 1, L).out.Pass?
    ensures Cols(s, DeleteCol(s, maxSize, t, Cols(s, L.ds, t) - 1, L).log.ds, t) < Cols(s, L.ds, t)
  {
    var o := Open(maxSize, L);
    var sh := s.table(o.log.ds, t).value;
    BlankRowsKeepsCols(s, maxSize, t, Cols(s, L.ds, t) - 1, 0, sh.rows, o.log);
  }

  /** The second loop of deleteTableById: delete the last column while there is one. */
  function DeleteCols<C(!new), D(!new)>(s: Store<C, D>, maxSize: int, t: int, L: Log<C, D>): (r: Step<C, D>)
    requires 2 <= maxSize && WellFormed(L) && Shrinking(s)
    decreases Cols(s, L.ds, t)
    ensures r.out.Pass? ==> WellFormed(r.log)
  {
    var n := Cols(s, L.ds, t);
    if n == 0 then Step(Pass, L)
    else
      var c := DeleteCol(s, maxSize, t, n - 1, L);
      if c.out.Fail? then c
      else
        DeleteLastColShrinks(s, maxSize, t, L);
        DeleteCols(s, maxSize, t, c.log)
  }

  /** One iteration of the column loop: a failure ends it, a success shrinks the table and loops. */
  lemma DeleteColsStep<C(!new), D(!new)>(s: Store<C, D>, maxSize: int, t: int, L: Log<C, D>, c: Step<C, D>)
    requires 2 <= maxSize && WellFormed(L) && Shrinking(s) && Cols(s, L.ds, t) > 0
    requires c == DeleteCol(s, maxSize, t, Cols(s, L.ds, t) - 1, L)
    ensures c.out.Fail? ==> DeleteCols(s, maxSize, t, L) == c
    ensures c.out.Pass? ==> WellFormed(c.log) && Cols(s, c.log.ds, t) < Cols(s, L.ds, t)
    ensures c.out.Pass? ==> DeleteCols(s, maxSize, t, L) == DeleteCols(s, maxSize, t, c.log)
  {
    assert DeleteCols(s, maxSize, t, L) == if c.out.Fail? then c else DeleteCols(s, maxSize, t, c.log);
    if c.out.Pass? {
      DeleteLastColShrinks(s, maxSize, t, L);
    }
  }

  /** deleteTableById: delete the rows, then the columns, then the empty table. */
  function DeleteTableById<C(!new), D(!new)>(s: Store<C, D>, maxSize: int, t: int, L: Log<C, D>): (r: Step<C, D>)
    requires 2 <= maxSize && WellFormed(L) && Shrinking(s)
    ensures r.out.Pass? ==> WellFormed(r.log)
  {
    var o := Open(maxSize, L);
    if o.out.Fail? then o
    else
      var body :=
        if s.table(o.log.ds, t).None? then Step(Pass, o.log)
        else
          var rs := DeleteRows(s, maxSize, t, o.log);
          if rs.out.Fail? then rs
          else
            var cs := DeleteCols(s, maxSize, t, rs.log);
            if cs.out.Fail? then cs
            else
              var a := DoCommand(maxSize, s.exec, s.deleteEmptyTable(t), cs.log);
              Step(a.out, a.log);
      Close(IsInTransaction(L), body)
  }

  // ---------------------------------------------------------------------
  // Everything a composite records belongs to one transaction
  // ---------------------------------------------------------------------

  lemma {:induction false} BlankRowsTagged<C, D>(s: Store<C, D>, maxSize: int, t: int, col: int, i: nat, n: nat, L0: Log<C, D>, L: Log<C, D>, tx: int)
    requires 2 <= maxSize && i <= n && tx != NoTx && TaggedSince(L0, L, tx)
    decreases n - i
    ensures BlankRows(s, maxSize, t, col, i, n, L).out == Pass
    ensures TaggedSince(L0, BlankRows(s, maxSize, t, col, i, n, L).log, tx)
  {
    if i < n {
      DoCommandInTransaction(maxSize, s.exec, s.blankCell(t, i, col), L0, L, tx);
      var a := DoCommand(maxSize, s.exec, s.blankCell(t, i, col), L);
      BlankRowsTagged(s, maxSize, t, col, i + 1, n, L0, a.log, tx);
    }
  }

  /** deleteCol inside an open transaction never throws and records only under its number. */
  lemma DeleteColTagged<C, D>(s: Store<C, D>, maxSize: int, t: int, col: int, L0: Log<C, D>, L: Log<C, D>, tx: int)
    requires 2 <= maxSize && tx != NoTx && TaggedSince(L0, L, tx)
    ensures DeleteCol(s, maxSize, t, col, L).out == Pass
    ensures TaggedSince(L0, DeleteCol(s, maxSize, t, col, L).log, tx)
  {
    match s.table(L.ds, t)
    case None =>
    case Some(sh) =>
      BlankRowsTagged(s, maxSize, t, col, 0, sh.rows, L0, L, tx);
      var b := BlankRows(s, maxSize, t, col, 0, sh.rows, L);
      DoCommandInTransaction(maxSize, s.exec, s.deleteEmptyCol(t, col), L0, b.log, tx);
  }

  lemma {:induction false} DeleteRowsTagged<C(!new), D(!new)>(s: Store<C, D>, maxSize: int, t: int, L0: Log<C, D>, L: Log<C, D>, tx: int)
    requires 2 <= maxSize && Shrinking(s) && tx != NoTx && TaggedSince(L0, L, tx)
    decreases Rows(s, L.ds, t)
    ensures DeleteRows(s, maxSize, t, L).out == Pass
    ensures TaggedSince(L0, DeleteRows(s, maxSize, t, L).log, tx)
  {
    var n := Rows(s, L.ds, t);
    if n > 0 {
      DoCommandInTransaction(maxSize, s.exec, s.deleteRow(t, n - 1), L0, L, tx);
      var a := DoCommand(maxSize, s.exec, s.deleteRow(t, n - 1), L);
      DeleteRowsTagged(s, maxSize, t, L0, a.log, tx);
    }
  }

  lemma {:induction false} DeleteColsTagged<C(!new), D(!new)>(s: Store<C, D>, maxSize: int, t: int, L0: Log<C, D>, L: Log<C, D>, tx: int)
    requires 2 <= maxSize && Shrinking(s) && tx != NoTx && TaggedSince(L0, L, tx)
    decreases Cols(s, L.ds, t)
    ensures DeleteCols(s, maxSize, t, L).out == Pass
    ensures TaggedSince(L0, DeleteCols(s, maxSize, t, L).log, tx)
  {
    var n := Cols(s, L.ds, t);
    if n > 0 {
      DeleteColTagged(s, maxSize, t, n - 1, L0, L, tx);
      DeleteLastColShrinks(s, maxSize, t, L);
      DeleteColsTagged(s, maxSize, t, L0, DeleteCol(s, maxSize, t, n - 1, L).log, tx);
    }
  }

  /**
   * deleteCol records all of its commands under the number of the
   * transaction it runs in: the caller's when one is open (and then it
   * cannot throw), otherwise a fresh one that it closes again.
   */
  lemma DeleteColIsOneTransaction<C, D>(s: Store<C, D>, maxSize: int, t: int, col: int, L: Log<C, D>)
    requires 2 <= maxSize && WellFormed(L)
    ensures var o := Open(maxSize, L); var r := DeleteCol(s, maxSize, t, col, L);
      && (IsInTransaction(L) ==> r.out == Pass)
      && (r.out == Pass <==> o.out == Pass)
      && (r.out == Pass ==>
            && r.log.currentTx == L.currentTx
            && TaggedSince(o.log, r.log.(currentTx := o.log.currentTx), o.log.currentTx))
  {
    var o := Open(maxSize, L);
    if o.out == Pass {
      DeleteColTagged(s, maxSize, t, col, o.log, o.log, o.log.currentTx);
    }
  }

  /** deleteTableById likewise records everything under one transaction number. */
  lemma DeleteTableIsOneTransaction<C(!new), D(!new)>(s: Store<C, D>, maxSize: int, t: int, L: Log<C, D>)
    requires 2 <= maxSize && WellFormed(L) && Shrinking(s)
    ensures var o := Open(maxSize, L); var r := DeleteTableById(s, maxSize, t, L);
      && (IsInTransaction(L) ==> r.out == Pass)
      && (r.out == Pass <==> o.out == Pass)
      && (r.out == Pass ==>
            && r.log.currentTx == L.currentTx
            && TaggedSince(o.log, r.log.(currentTx := o.log.currentTx), o.log.currentTx))
  {
    var o := Open(maxSize, L);
    if o.out == Pass {
      var tx := o.log.currentTx;
      if s.table(o.log.ds, t).Some? {
        DeleteRowsTagged(s, maxSize, t, o.log, o.log, tx);
        var rs := DeleteRows(s, maxSize, t, o.log);
        DeleteColsTagged(s, maxSize, t, o.log, rs.log, tx);
        var cs := DeleteCols(s, maxSize, t, rs.log);
        DoCommandInTransaction(maxSize, s.exec, s.deleteEmptyTable(t), o.log, cs.log, tx);
      }
    }
  }
}
