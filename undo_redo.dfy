/**
 * UndoRedoDecorator: the undoable datastore decorator as an object whose
 * methods update its history, cursor and transaction counters in place.
 * Each method is proved to leave the object in the state, and to return the
 * outcome, that the corresponding function of UndoLog or UndoFacade gives
 * for the state it started from.
 */
module UndoRedo {
  import opened Wrappers
  import opened UndoLog
  import opened UndoFacade

  class UndoRedoDecorator<C(!new), D(!new)> {
    /** The decorated datastore's command semantics and table shapes. */
    const store: Store<C, D>
    /** The history size bound (Integer.MAX_VALUE in the source). */
    const maxSize: int

    var buffer: seq<Entry<C>>
    var position: int
    var currentTx: int
    var nextTx: int
    var lastFired: Option<UndoState>
    /** How many times the undo-state listeners have been notified. */
    ghost var fired: nat
    /** The abstract state of the decorated datastore. */
    var ds: D

    ghost function State(): Log<C, D>
      reads this
    {
      Log(buffer, position, currentTx, nextTx, lastFired, fired, ds)
    }

    ghost predicate Valid()
      reads this
    {
      2 <= maxSize && WellFormed(State())
    }

    constructor (store: Store<C, D>, maxSize: int, ds: D)
      requires 2 <= maxSize
      ensures Valid() && State() == Init(ds)
      ensures this.store == store && this.maxSize == maxSize
    {
      this.store := store;
      this.maxSize := maxSize;
      buffer := [];
      position := 0;
      currentTx := NoTx;
      nextTx := 1;
      lastFired := None;
      fired := 0;
      this.ds := ds;
    }

    method GetNextCommandNb() returns (n: int)
      requires Valid()
      modifies this`nextTx
      ensures Valid() && n == NextTxNb(old(nextTx)) && nextTx == n
    {
      if nextTx == IntMax {
        nextTx := 1;
      } else {
        nextTx := nextTx + 1;
      }
      n := nextTx;
    }

    method FireUndoStateListeners()
      requires Valid()
      modifies this`lastFired, this`fired
      ensures Valid() && State() == Fire(old(State()))
    {
      var st := UndoState(position > 0, position < |buffer|);
      if lastFired.None? || lastFired != Some(st) {
        lastFired := Some(st);
        fired := fired + 1;
      }
    }

    method Undo() returns (r: Outcome<Error>)
      requires Valid()
      modifies this
      ensures Valid()
      ensures r == UndoLog.Undo(store.exec, old(State())).out
      ensures State() == UndoLog.Undo(store.exec, old(State())).log
    {
      if currentTx != NoTx {
        return Fail(InTransaction);
      }
      if position > 0 {
        var tx := buffer[position - 1].txNb;
        position := position - 1;
        var res := store.exec(buffer[position].undoCmd, ds);
        ds := res.1;
        if res.0.None? {
          return Fail(NullInverse);
        }
        buffer := buffer[position := buffer[position].(redoCmd := res.0.value)];
        if tx != NoTx {
          var ok := UndoRun(tx);
          if !ok {
            return Fail(NullInverse);
          }
        }
        FireUndoStateListeners();
      }
      return Pass;
    }

    /** The while loop of undo: unwind backward over the entries carrying `tx`. */
    method UndoRun(tx: int) returns (ok: bool)
      requires Valid()
      modifies this`buffer, this`position, this`ds
      ensures Valid()
      ensures var w := UndoLoop(store.exec, tx, old(buffer), old(position), old(ds));
        ok == w.ok && buffer == w.buffer && position == w.position && ds == w.ds
    {
      ghost var w := UndoLoop(store.exec, tx, buffer, position, ds);
      while position > 0 && buffer[position - 1].txNb == tx
        invariant 0 <= position <= |buffer| == |old(buffer)|
        invariant UndoLoop(store.exec, tx, buffer, position, ds) == w
        decreases position
      {
        var res := store.exec(buffer[position - 1].undoCmd, ds);
        if res.0.None? {
          ds := res.1;
          position := position - 1;
          return false;
        }
        UndoLoopStep(store.exec, tx, buffer, position, ds);
        ds := res.1;
        buffer := buffer[position - 1 := buffer[position - 1].(redoCmd := res.0.value)];
        position := position - 1;
      }
      return true;
    }

    method Redo() returns (r: Outcome<Error>)
      requires Valid()
      modifies this
      ensures Valid()
      ensures r == UndoLog.Redo(store.exec, old(State())).out
      ensures State() == UndoLog.Redo(store.exec, old(State())).log
    {
      if currentTx != NoTx {
        return Fail(InTransaction);
      }
      if position < |buffer| {
        var tx := buffer[position].txNb;
        var res := store.exec(buffer[position].redoCmd, ds);
        ds := res.1;
        if res.0.None? {
          return Fail(NullInverse);
        }
        buffer := buffer[position := buffer[position].(undoCmd := res.0.value)];
        position := position + 1;
        if tx != NoTx {
          var ok := RedoRun(tx);
          if !ok {
            return Fail(NullInverse);
          }
        }
        FireUndoStateListeners();
      }
      return Pass;
    }

    /** The while loop of redo: replay forward over the entries carrying `tx`. */
    method RedoRun(tx: int) returns (ok: bool)
      requires Valid()
      modifies this`buffer, this`position, this`ds
      ensures Valid()
      ensures var w := RedoLoop(store.exec, tx, old(buffer), old(position), old(ds));
        ok == w.ok && buffer == w.buffer && position == w.position && ds == w.ds
    {
      ghost var w := RedoLoop(store.exec, tx, buffer, position, ds);
      while position < |buffer| && buffer[position].txNb == tx
        invariant 0 <= position <= |buffer| == |old(buffer)|
        invariant RedoLoop(store.exec, tx, buffer, position, ds) == w
        decreases |buffer| - position
      {
        var res := store.exec(buffer[position].redoCmd, ds);
        if res.0.None? {
          ds := res.1;
          return false;
        }
        RedoLoopStep(store.exec, tx, buffer, position, ds);
        ds := res.1;
        buffer := buffer[position := buffer[position].(undoCmd := res.0.value)];
        position := position + 1;
      }
      return true;
    }

    method Trim() returns (r: Outcome<Error>)
      requires Valid()
      modifies this
      ensures r != Fail(NegativePosition) ==> Valid()
      ensures r == UndoLog.Trim(maxSize, old(State())).out
      ensures State() == UndoLog.Trim(maxSize, old(State())).log
    {
      if currentTx != NoTx {
        return Fail(InTransaction);
      }
      if |buffer| > maxSize {
        var currentSize := |buffer|;
        var targetSize := maxSize;
        while targetSize < currentSize && Joined(buffer, targetSize)
          invariant maxSize <= targetSize <= currentSize
          invariant TrimTarget(buffer, targetSize) == TrimTarget(buffer, maxSize)
          decreases currentSize - targetSize
        {
          targetSize := targetSize + 1;
        }
        ghost var drop := currentSize - targetSize;
        while |buffer| > targetSize
          invariant targetSize <= |buffer| <= currentSize
          invariant buffer == old(buffer)[currentSize - |buffer|..]
          invariant position == old(position) - (currentSize - |buffer|)
          invariant position >= 0
          invariant currentTx == old(currentTx) && nextTx == old(nextTx) && ds == old(ds)
          invariant lastFired == old(lastFired) && fired == old(fired)
          decreases |buffer|
        {
          buffer := buffer[1..];
          position := position - 1;
          if position < 0 {
            return Fail(NegativePosition);
          }
        }
      }
      FireUndoStateListeners();
      return Pass;
    }

    method ClearRedos()
      requires Valid()
      modifies this
      ensures Valid() && State() == UndoLog.ClearRedos(old(State()))
    {
      while position < |buffer|
        invariant position <= |buffer| <= |old(buffer)|
        invariant buffer == old(buffer)[..|buffer|]
        invariant position == old(position) && currentTx == old(currentTx) && nextTx == old(nextTx)
        invariant ds == old(ds) && lastFired == old(lastFired) && fired == old(fired)
        decreases |buffer|
      {
        buffer := buffer[..|buffer| - 1];
      }
      FireUndoStateListeners();
    }

    method StartTransaction() returns (r: Outcome<Error>)
      requires Valid()
      modifies this
      ensures r != Fail(NegativePosition) ==> Valid()
      ensures r == UndoLog.StartTransaction(maxSize, old(State())).out
      ensures State() == UndoLog.StartTransaction(maxSize, old(State())).log
    {
      if currentTx != NoTx {
        return Fail(AlreadyInTransaction);
      }
      r := Trim();
      if r.Fail? {
        return;
      }
      currentTx := GetNextCommandNb();
    }

    method EndTransaction() returns (r: Outcome<Error>)
      requires Valid()
      modifies this`currentTx
      ensures Valid()
      ensures r == UndoLog.EndTransaction(old(State())).out
      ensures State() == UndoLog.EndTransaction(old(State())).log
    {
      if currentTx == NoTx {
        return Fail(NotInTransaction);
      }
      currentTx := NoTx;
      return Pass;
    }

    method RollbackTransaction() returns (r: Outcome<Error>)
      requires Valid()
      modifies this
      ensures Valid()
      ensures r == Rollback(store.exec, old(State())).out
      ensures State() == Rollback(store.exec, old(State())).log
    {
      var command := currentTx;
      r := EndTransaction();
      if r.Fail? {
        return;
      }
      if position > 0 && buffer[position - 1].txNb == command {
        r := Undo();
        if r.Fail? {
          return;
        }
      }
      FireUndoStateListeners();
    }

    /** The path of every facade mutation (setValueAt, insertEmptyRow, createTable, ...). */
    method DoCommand(command: C) returns (r: Outcome<Error>, inverse: Option<C>)
      requires Valid()
      modifies this
      ensures r != Fail(NegativePosition) ==> Valid()
      ensures r == UndoLog.DoCommand(maxSize, store.exec, command, old(State())).out
      ensures inverse == UndoLog.DoCommand(maxSize, store.exec, command, old(State())).inverse
      ensures State() == UndoLog.DoCommand(maxSize, store.exec, command, old(State())).log
    {
      inverse := None;
      if currentTx == NoTx {
        r := Trim();
        if r.Fail? {
          return;
        }
      }
      ClearRedos();
      var res := store.exec(command, ds);
      ds := res.1;
      inverse := res.0;
      if inverse.Some? {
        buffer := buffer + [Entry(inverse.value, command, currentTx)];
        position := position + 1;
      }
      FireUndoStateListeners();
      r := Pass;
    }

    method DeleteCol(tableId: int, col: int) returns (r: Outcome<Error>)
      requires Valid()
      modifies this
      ensures r != Fail(NegativePosition) ==> Valid()
      ensures r == UndoFacade.DeleteCol(store, maxSize, tableId, col, old(State())).out
      ensures State() == UndoFacade.DeleteCol(store, maxSize, tableId, col, old(State())).log
    {
      var transaction := currentTx != NoTx;
      if !transaction {
        r := StartTransaction();
        if r.Fail? {
          return;
        }
      }
      ghost var started := State();
      r := Pass;
      var table := store.table(ds, tableId);
      if table.Some? {
        var nbRows := table.value.rows;
        for i := 0 to nbRows
          invariant Valid()
          invariant BlankRows(store, maxSize, tableId, col, i, nbRows, State())
                 == BlankRows(store, maxSize, tableId, col, 0, nbRows, started)
        {
          var inv;
          r, inv := DoCommand(store.blankCell(tableId, i, col));
          if r.Fail? {
            return;
          }
        }
        var inv;
        r, inv := DoCommand(store.deleteEmptyCol(tableId, col));
        if r.Fail? {
          return;
        }
      }
      if !transaction {
        r := EndTransaction();
      }
    }

    method DeleteTableById(tableId: int) returns (r: Outcome<Error>)
      requires Valid() && Shrinking(store)
      modifies this
      ensures r != Fail(NegativePosition) ==> Valid()
      ensures r == UndoFacade.DeleteTableById(store, maxSize, tableId, old(State())).out
      ensures State() == UndoFacade.DeleteTableById(store, maxSize, tableId, old(State())).log
    {
      var transaction := currentTx != NoTx;
      if !transaction {
        r := StartTransaction();
        if r.Fail? {
          return;
        }
      }
      r := Pass;
      if store.table(ds, tableId).Some? {
        r := DeleteAllRows(tableId);
        if r.Fail? {
          return;
        }
        r := DeleteAllCols(tableId);
        if r.Fail? {
          return;
        }
        var inv;
        r, inv := DoCommand(store.deleteEmptyTable(tableId));
        if r.Fail? {
          return;
        }
      }
      if !transaction {
        r := EndTransaction();
      }
    }

    /** The first while loop of deleteTableById: delete the last row while there is one. */
    method DeleteAllRows(tableId: int) returns (r: Outcome<Error>)
      requires Valid() && Shrinking(store)
      modifies this
      ensures r != Fail(NegativePosition) ==> Valid()
      ensures r == DeleteRows(store, maxSize, tableId, old(State())).out
      ensures State() == DeleteRows(store, maxSize, tableId, old(State())).log
    {
      r := Pass;
      while Rows(store, ds, tableId) > 0
        invariant Valid() && r == Pass
        invariant DeleteRows(store, maxSize, tableId, State()) == DeleteRows(store, maxSize, tableId, old(State()))
        decreases Rows(store, ds, tableId)
      {
        var inv;
        r, inv := DoCommand(store.deleteRow(tableId, Rows(store, ds, tableId) - 1));
        if r.Fail? {
          return;
        }
      }
    }

    /** The second while loop of deleteTableById: delete the last column while there is one. */
    method DeleteAllCols(tableId: int) returns (r: Outcome<Error>)
      requires Valid() && Shrinking(store)
      modifies this
      ensures r != Fail(NegativePosition) ==> Valid()
      ensures r == DeleteCols(store, maxSize, tableId, old(State())).out
      ensures State() == DeleteCols(store, maxSize, tableId, old(State())).log
    {
      r := Pass;
      while Cols(store, ds, tableId) > 0
        invariant Valid() && r == Pass
        invariant DeleteCols(store, maxSize, tableId, State()) == DeleteCols(store, maxSize, tableId, old(State()))
        decreases Cols(store, ds, tableId)
      {
        r := DeleteLastCol(tableId);
        if r.Fail? {
          return;
        }
      }
    }

    /** One iteration of the column loop, stated against DeleteCols. */
    method DeleteLastCol(tableId: int) returns (r: Outcome<Error>)
      requires Valid() && Shrinking(store) && Cols(store, ds, tableId) > 0
      modifies this
      ensures r != Fail(NegativePosition) ==> Valid()
      ensures r.Fail? ==> r == DeleteCols(store, maxSize, tableId, old(State())).out
      ensures r.Fail? ==> State() == DeleteCols(store, maxSize, tableId, old(State())).log
      ensures r.Pass? ==> Cols(store, ds, tableId) < old(Cols(store, ds, tableId))
      ensures r.Pass? ==> DeleteCols(store, maxSize, tableId, State()) == DeleteCols(store, maxSize, tableId, old(State()))
    {
      ghost var before := State();
      var n := Cols(store, ds, tableId);
      r := DeleteCol(tableId, n - 1);
      ghost var c := UndoFacade.DeleteCol(store, maxSize, tableId, n - 1, before);
      DeleteColsStep(store, maxSize, tableId, before, c);
    }

    /** bulkAppend is refused on an undoable datastore. */
    method BulkAppend(tableId: int, rows: seq<seq<int>>) returns (r: Outcome<Error>)
      ensures r == UndoLog.BulkAppend(State()).out
    {
      r := Fail(Unsupported);
    }
  }
}
