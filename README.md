# Undo/redo log and non-overlapping-polygon layers, in Dafny

This project models two parts of the Open Door Logistics core.

The first is `UndoRedoDecorator`, the datastore decorator that records every mutation as an entry holding an undo command, a redo command and a transaction number. It keeps a history buffer and a cursor into it. `undo` and `redo` walk the cursor over one whole transaction at a time. `startTransaction`, `endTransaction` and `rollbackTransaction` open and close transactions. `trim` drops entries from the head of the history and `clearRedos` drops them from the tail. Listeners hear of a change only when the pair {hasUndo, hasRedo} changes. `deleteCol` and `deleteTableById` are composite operations whose primitive commands are all recorded under one transaction number.

The second is `NOPLManager`. Its `splitDrawablesIntoLayers` groups drawables into runs: NORMAL layers for objects without a non-overlapping-polygon key, and NOVLPL layers keyed by the standardised key. Its `update` reconciles the cache of layers, keyed by standardised group id, against a new list of layers.

Modules:

- `Wrappers` (`wrappers.dfy`) holds `Option` and `Outcome`. A thrown `RuntimeException` or `UnsupportedOperationException` is a `Fail` outcome carrying an `Error`.
- `UndoLog` (`undo_log.dfy`) holds the log as a value, `Log`, with one function per operation and their properties as lemmas.
  - Commands are a type parameter `C` and the decorated datastore is a type parameter `D`.
  - Running a command is a function `Exec<C, D>` that returns the inverse command, or `None` for null, together with the new datastore.
- `UndoFacade` (`undo_facade.dfy`) holds the composite operations. The datastore is seen through a `Store`: the command semantics, the shape of the table with a given id, and the four primitive commands that the composites build.
- `UndoRedo` (`undo_redo.dfy`) holds the class `UndoRedoDecorator`.
  - Its fields are the fields of the Java class.
  - Every method updates them in place with the source's loops.
  - Every method is proved to reach exactly the state, and return exactly the outcome, that the `UndoLog`/`UndoFacade` function gives.
- `NoplLayers` (`nopl_layers.dfy`) holds run grouping and cache reconciliation as functions over values, with their lemmas.
  - String standardisation (`Strings.std`) is a parameter `std`.
  - The hasGeom test of a layer (`DrawableObjectLayer.hasGeom`) is a parameter `hasGeom`.
- `LayerManager` (`nopl_manager.dfy`) holds the classes `LayerCache` and `NoplManager`. Their methods are written as the Java loops and proved against `NoplLayers`.

## Model

| member | source | states |
|---|---|---|
| UndoLog.Init | com.opendoorlogistics.core/src/com/opendoorlogistics/core/tables/decorators/datastores/UndoRedoDecorator.java:39-45 | the fields' initial values: an empty history, cursor 0, no open transaction (-1), counter 1, nothing fired yet; InitIsWellFormed states what they mean |
| UndoLog.HasUndo | com.opendoorlogistics.core/src/com/opendoorlogistics/core/tables/decorators/datastores/UndoRedoDecorator.java:180-183 | hasUndo is position > 0; AvailabilityMatchesCursor states it as a non-empty undoable past |
| UndoLog.HasRedo | com.opendoorlogistics.core/src/com/opendoorlogistics/core/tables/decorators/datastores/UndoRedoDecorator.java:175-178 | hasRedo is position < size; AvailabilityMatchesCursor states it as a non-empty redoable future |
| UndoLog.IsInTransaction | com.opendoorlogistics.core/src/com/opendoorlogistics/core/tables/decorators/datastores/UndoRedoDecorator.java:245-248 | a transaction is open exactly when the current number is not -1 |
| UndoLog.InitIsWellFormed | com.opendoorlogistics.core/src/com/opendoorlogistics/core/tables/decorators/datastores/UndoRedoDecorator.java:39-45 | a new decorator has an empty history, cursor 0, no open transaction, and nothing to undo or redo |
| UndoLog.AvailabilityMatchesCursor | com.opendoorlogistics.core/src/com/opendoorlogistics/core/tables/decorators/datastores/UndoRedoDecorator.java:175-183 | hasUndo holds exactly when the undoable past buffer[..position] is non-empty; hasRedo holds exactly when the redoable future buffer[position..] is non-empty |
| UndoLog.NextTxNb | com.opendoorlogistics.core/src/com/opendoorlogistics/core/tables/decorators/datastores/UndoRedoDecorator.java:117-125 | the next transaction number is the successor modulo Integer.MAX_VALUE; it is in [1, MAX_VALUE] and never -1 |
| UndoLog.FirstTxNbIsTwo | com.opendoorlogistics.core/src/com/opendoorlogistics/core/tables/decorators/datastores/UndoRedoDecorator.java:41 | because the counter increments before returning, the first transaction number handed out is 2 |
| UndoLog.Fire | com.opendoorlogistics.core/src/com/opendoorlogistics/core/tables/decorators/datastores/UndoRedoDecorator.java:499-511 | the listeners are notified, and the pair remembered, exactly when {hasUndo, hasRedo} differs from the last pair fired; nothing else changes |
| UndoLog.FireTwiceFiresOnce | com.opendoorlogistics.core/src/com/opendoorlogistics/core/tables/decorators/datastores/UndoRedoDecorator.java:505-510 | notifying twice in a row notifies at most once; the second notification is a no-op |
| UndoLog.FirstFireAlwaysFires | com.opendoorlogistics.core/src/com/opendoorlogistics/core/tables/decorators/datastores/UndoRedoDecorator.java:505 | when nothing has been fired yet, the notification always fires |
| UndoLog.ClearRedos | com.opendoorlogistics.core/src/com/opendoorlogistics/core/tables/decorators/datastores/UndoRedoDecorator.java:210-216 | only the tail after the cursor is removed; the past and the cursor are kept, and nothing is left to redo |
| UndoLog.TrimTarget | com.opendoorlogistics.core/src/com/opendoorlogistics/core/tables/decorators/datastores/UndoRedoDecorator.java:190-195 | the target size is at least maxSize and at most the buffer size; every index it passed joins two entries of one transaction; it stops at the first index that does not |
| UndoLog.Trim | com.opendoorlogistics.core/src/com/opendoorlogistics/core/tables/decorators/datastores/UndoRedoDecorator.java:185-208 | refused inside a transaction; otherwise it passes or throws NegativePosition, and throws exactly when the cursor would pass below zero, leaving the buffer from the slot after the cursor and the cursor at -1; leaves buffer and cursor as they are when the size is within maxSize; otherwise, on success, keeps the suffix of exactly TrimTarget entries and moves the cursor back by the number removed |
| UndoLog.TrimCanSplitATransaction | com.opendoorlogistics.core/src/com/opendoorlogistics/core/tables/decorators/datastores/UndoRedoDecorator.java:192-198 | the extension loop looks at the head of the buffer, so trimming can remove the first entry of a transaction and keep its second |
| UndoLog.UndoLoop | com.opendoorlogistics.core/src/com/opendoorlogistics/core/tables/decorators/datastores/UndoRedoDecorator.java:139-142 | the while loop of undo as a walk: the history keeps its length and the cursor only moves back; UndoLoopFacts and UndoLoopOutcome state what it does to the slots |
| UndoLog.UndoLoopFacts | com.opendoorlogistics.core/src/com/opendoorlogistics/core/tables/decorators/datastores/UndoRedoDecorator.java:96-101 | the undo loop leaves the numbers and undo commands of every slot and all the slots it did not visit as they were; every visited slot carries the transaction; on completion it stopped at the run's start |
| UndoLog.RedoLoopFacts | com.opendoorlogistics.core/src/com/opendoorlogistics/core/tables/decorators/datastores/UndoRedoDecorator.java:103-108 | the redo loop is the mirror image: redo commands and numbers are kept, visited slots carry the transaction, and on completion it stopped at the run's end |
| UndoLog.RedoLoop | com.opendoorlogistics.core/src/com/opendoorlogistics/core/tables/decorators/datastores/UndoRedoDecorator.java:163-166 | the while loop of redo as a walk: the history keeps its length and the cursor only moves forward; RedoLoopFacts and RedoLoopOutcome state what it does to the slots |
| UndoLog.UndoLoopOutcome | com.opendoorlogistics.core/src/com/opendoorlogistics/core/tables/decorators/datastores/UndoRedoDecorator.java:96-101 | the undo loop fails only at a slot whose undo command can return null, leaving that slot as it was; the first slot it replays holds, as its redo command, the inverse returned on the datastore the loop started from; each later replayed slot holds an inverse its command can return |
| UndoLog.RedoLoopOutcome | com.opendoorlogistics.core/src/com/opendoorlogistics/core/tables/decorators/datastores/UndoRedoDecorator.java:103-108 | the redo loop fails only at a slot whose redo command can return null, leaving it as it was; the first slot it replays holds, as its undo command, the inverse returned on the datastore the loop started from; each later replayed slot holds an inverse its command can return |
| UndoLog.Undo | com.opendoorlogistics.core/src/com/opendoorlogistics/core/tables/decorators/datastores/UndoRedoDecorator.java:127-150 | refused inside a transaction; a no-op without history; fails only with InTransaction or NullInverse; on success moves back over exactly one entry tagged -1, or over the whole contiguous run of the last entry's transaction, leaving something to redo; numbers and undo commands never change, nor do slots it did not pass |
| UndoLog.Redo | com.opendoorlogistics.core/src/com/opendoorlogistics/core/tables/decorators/datastores/UndoRedoDecorator.java:152-173 | the mirror image of undo: moves forward over one -1 entry or the whole run of the entry at the cursor, leaving something to undo; numbers and redo commands never change |
| UndoLog.UndoOutcome | com.opendoorlogistics.core/src/com/opendoorlogistics/core/tables/decorators/datastores/UndoRedoDecorator.java:127-150 | undo throws NullInverse only at a slot whose undo command can return null, and leaves the cursor there; the first replayed slot holds the inverse returned on the current datastore as its redo command; each later replayed slot holds an inverse its command can return |
| UndoLog.RedoOutcome | com.opendoorlogistics.core/src/com/opendoorlogistics/core/tables/decorators/datastores/UndoRedoDecorator.java:152-173 | redo throws NullInverse only at a slot whose redo command can return null, with the cursor there; the first replayed slot holds the inverse returned on the current datastore as its undo command; each later replayed slot holds an inverse its command can return |
| UndoLog.UndoSucceedsWhenTotal | com.opendoorlogistics.core/src/com/opendoorlogistics/core/tables/decorators/datastores/UndoRedoDecorator.java:96-101 | outside a transaction, when every command returns an inverse, undo never throws |
| UndoLog.RedoSucceedsWhenTotal | com.opendoorlogistics.core/src/com/opendoorlogistics/core/tables/decorators/datastores/UndoRedoDecorator.java:103-108 | outside a transaction, when every command returns an inverse, redo never throws |
| UndoLog.RedoRetracesUndoLoop | com.opendoorlogistics.core/src/com/opendoorlogistics/core/tables/decorators/datastores/UndoRedoDecorator.java:96-108 | with inverses that restore the datastore, replaying forward from where the undo loop stopped reaches the state the loop started from |
| UndoLog.UndoIsUndoLoop | com.opendoorlogistics.core/src/com/opendoorlogistics/core/tables/decorators/datastores/UndoRedoDecorator.java:134-142 | for an entry of a transaction, undo's first step followed by its loop is one run of the loop from the cursor |
| UndoLog.RedoIsRedoLoop | com.opendoorlogistics.core/src/com/opendoorlogistics/core/tables/decorators/datastores/UndoRedoDecorator.java:158-166 | for an entry of a transaction, redo's first step followed by its loop is one run of the loop from the cursor |
| UndoLog.UndoThenRedoRestores | com.opendoorlogistics.core/src/com/opendoorlogistics/core/tables/decorators/datastores/UndoRedoDecorator.java:127-173 | for commands whose inverse restores the datastore, a redo right after a successful undo from the end of a transaction restores the cursor, the datastore and every undo command |
| UndoLog.PreCommand | com.opendoorlogistics.core/src/com/opendoorlogistics/core/tables/decorators/datastores/UndoRedoDecorator.java:256-258 | inside a transaction nothing is trimmed |
| UndoLog.DoCommand | com.opendoorlogistics.core/src/com/opendoorlogistics/core/tables/decorators/datastores/UndoRedoDecorator.java:255-272 | after the trim, redos are cleared even for a no-op; with an inverse exactly one entry (inverse, command, current transaction) is appended after the kept past and the cursor advances by one; without one the cursor stays |
| UndoLog.DoCommandKeepsPast | com.opendoorlogistics.core/src/com/opendoorlogistics/core/tables/decorators/datastores/UndoRedoDecorator.java:255-272 | when no trim is due the undoable past is untouched, nothing is left to redo, and the cursor advances exactly when an inverse was returned |
| UndoLog.StartTransaction | com.opendoorlogistics.core/src/com/opendoorlogistics/core/tables/decorators/datastores/UndoRedoDecorator.java:218-227 | refused when a transaction is open; otherwise trims and opens the next transaction number; when the trim throws, the log is the one the trim left |
| UndoLog.EndTransaction | com.opendoorlogistics.core/src/com/opendoorlogistics/core/tables/decorators/datastores/UndoRedoDecorator.java:229-237 | refused when no transaction is open; otherwise closes it and changes nothing else |
| UndoLog.Rollback | com.opendoorlogistics.core/src/com/opendoorlogistics/core/tables/decorators/datastores/UndoRedoDecorator.java:406-417 | refused outside a transaction; closes it; changes nothing else unless the entry behind the cursor carries the closed number; in that case, on success, it moves the cursor before the whole run, and the run stays in the buffer as redo-able |
| UndoLog.RollbackIsUndo | com.opendoorlogistics.core/src/com/opendoorlogistics/core/tables/decorators/datastores/UndoRedoDecorator.java:406-413 | when the entry behind the cursor carries the closed number, rollback has the outcome, history, cursor and datastore of an undo of the closed log |
| UndoLog.RollbackSucceedsWhenTotal | com.opendoorlogistics.core/src/com/opendoorlogistics/core/tables/decorators/datastores/UndoRedoDecorator.java:406-417 | inside a transaction, when every command returns an inverse, rollback never throws |
| UndoLog.BulkAppend | com.opendoorlogistics.core/src/com/opendoorlogistics/core/tables/decorators/datastores/UndoRedoDecorator.java:290-291 | always refused, changing nothing |
| UndoLog.DoThenUndoRestores | com.opendoorlogistics.core/src/com/opendoorlogistics/core/tables/decorators/datastores/UndoRedoDecorator.java:127-150 | with inverses that restore the datastore and no trim due, undoing a command just recorded outside a transaction restores the datastore and the cursor, and a redo then reapplies it |
| UndoLog.DoAll | com.opendoorlogistics.core/src/com/opendoorlogistics/core/tables/decorators/datastores/UndoRedoDecorator.java:255-272 | doCommand called for each command in turn, stopping at the first that throws; inside a transaction none throws, and the log stays well formed with the same transaction |
| UndoLog.UndoLoopPrefix | com.opendoorlogistics.core/src/com/opendoorlogistics/core/tables/decorators/datastores/UndoRedoDecorator.java:139-142 | the undo loop's outcome, stopping point and datastore depend only on the slots behind the cursor |
| UndoLog.UnwindStep | com.opendoorlogistics.core/src/com/opendoorlogistics/core/tables/decorators/datastores/UndoRedoDecorator.java:255-272 | one more command recorded inside the transaction is unwound first by the undo loop, which then continues as before; nothing is left to redo |
| UndoLog.TransactionUnwinds | com.opendoorlogistics.core/src/com/opendoorlogistics/core/tables/decorators/datastores/UndoRedoDecorator.java:139-142 | after any commands inside a transaction, one walk of the undo loop returns to the cursor and datastore the transaction started from |
| UndoLog.StartKeepsHistory | com.opendoorlogistics.core/src/com/opendoorlogistics/core/tables/decorators/datastores/UndoRedoDecorator.java:218-227 | with no trim due, startTransaction keeps the history, cursor and datastore and opens the next number |
| UndoLog.RollbackUnwinds | com.opendoorlogistics.core/src/com/opendoorlogistics/core/tables/decorators/datastores/UndoRedoDecorator.java:406-417 | rolling back a log that the undo loop unwinds to a start state returns to that state's cursor and datastore |
| UndoLog.RollbackRestores | com.opendoorlogistics.core/src/com/opendoorlogistics/core/tables/decorators/datastores/UndoRedoDecorator.java:406-417 | a rollback of a transaction, whatever commands it ran, restores the datastore and cursor of before startTransaction |
| UndoLog.TransactionUndoRedo | com.opendoorlogistics.core/src/com/opendoorlogistics/core/tables/decorators/datastores/UndoRedoDecorator.java:127-173 | once a transaction that recorded something is closed, one undo reverts it and restores the datastore and cursor of before startTransaction, and one redo reapplies all its commands |
| UndoLog.UndoN | com.opendoorlogistics.core/src/com/opendoorlogistics/core/tables/decorators/datastores/UndoRedoDecorator.java:127-150 | undo called k times, stopping at the first that throws; the cursor only moves back |
| UndoLog.RedoN | com.opendoorlogistics.core/src/com/opendoorlogistics/core/tables/decorators/datastores/UndoRedoDecorator.java:152-173 | redo called k times, stopping at the first that throws; the cursor only moves forward |
| UndoLog.DoAllStacks | com.opendoorlogistics.core/src/com/opendoorlogistics/core/tables/decorators/datastores/UndoRedoDecorator.java:255-272 | commands recorded one by one outside a transaction, each returning an inverse and with no trim due, leave one entry per command (its inverse, the command, -1) after the starting cursor, with the cursor after the last and the datastore they reach |
| UndoLog.UndoPops | com.opendoorlogistics.core/src/com/opendoorlogistics/core/tables/decorators/datastores/UndoRedoDecorator.java:127-150 | for commands whose inverse restores the datastore, undo of the top entry of such a stack passes and goes back to the cursor and datastore before that command, keeping the history |
| UndoLog.RedoPushes | com.opendoorlogistics.core/src/com/opendoorlogistics/core/tables/decorators/datastores/UndoRedoDecorator.java:152-173 | redo of the next entry of such a stack passes and goes forward to the cursor and datastore after that command, keeping the history |
| UndoLog.UndoNPops | com.opendoorlogistics.core/src/com/opendoorlogistics/core/tables/decorators/datastores/UndoRedoDecorator.java:127-150 | k undos from j commands into the stack pass and go back to k commands earlier |
| UndoLog.RedoNPushes | com.opendoorlogistics.core/src/com/opendoorlogistics/core/tables/decorators/datastores/UndoRedoDecorator.java:152-173 | k redos from j commands into the stack pass and go forward k commands |
| UndoLog.UndoesOneAtATime | com.opendoorlogistics.core/src/com/opendoorlogistics/core/tables/decorators/datastores/UndoRedoDecorator.java:127-150 | for commands whose inverse restores the datastore, k undos after recording the commands outside a transaction lead to the datastore and cursor that recording all but the last k would have left |
| UndoLog.SequenceUndoRedo | com.opendoorlogistics.core/src/com/opendoorlogistics/core/tables/decorators/datastores/UndoRedoDecorator.java:127-173 | for commands whose inverse restores the datastore, undoing a recorded sequence as many times as it has commands restores the datastore and cursor of before the first, and as many redos reach the datastore, cursor and history of after the last |
| UndoFacade.Open | com.opendoorlogistics.core/src/com/opendoorlogistics/core/tables/decorators/datastores/UndoRedoDecorator.java:341-344 | the composite body runs inside a transaction, the caller's one when it was open |
| UndoFacade.Close | com.opendoorlogistics.core/src/com/opendoorlogistics/core/tables/decorators/datastores/UndoRedoDecorator.java:358-360 | the transaction is ended only when the composite opened it and its body did not throw; DeleteColIsOneTransaction states the effect |
| UndoFacade.DoCommandInTransaction | com.opendoorlogistics.core/src/com/opendoorlogistics/core/tables/decorators/datastores/UndoRedoDecorator.java:255-272 | inside a transaction a command never throws and tags what it records with the open number |
| UndoFacade.BlankRows | com.opendoorlogistics.core/src/com/opendoorlogistics/core/tables/decorators/datastores/UndoRedoDecorator.java:349-352 | the blanking loop keeps the log well formed when it passes; BlankRowsKeepsCols and BlankRowsTagged state what it does |
| UndoFacade.DeleteCol | com.opendoorlogistics.core/src/com/opendoorlogistics/core/tables/decorators/datastores/UndoRedoDecorator.java:339-361 | deleteCol keeps the log well formed when it passes; DeleteColIsOneTransaction states that it records everything under one transaction |
| UndoFacade.DeleteRows | com.opendoorlogistics.core/src/com/opendoorlogistics/core/tables/decorators/datastores/UndoRedoDecorator.java:388-390 | the row loop keeps the log well formed when it passes, and terminates because each deletion shrinks the table; DeleteRowsTagged states what it records |
| UndoFacade.DeleteCols | com.opendoorlogistics.core/src/com/opendoorlogistics/core/tables/decorators/datastores/UndoRedoDecorator.java:393-395 | the column loop keeps the log well formed when it passes, and terminates by DeleteLastColShrinks; DeleteColsTagged states what it records |
| UndoFacade.DeleteTableById | com.opendoorlogistics.core/src/com/opendoorlogistics/core/tables/decorators/datastores/UndoRedoDecorator.java:378-404 | deleteTableById keeps the log well formed when it passes; DeleteTableIsOneTransaction states that it records everything under one transaction |
| UndoFacade.BlankRowsKeepsCols | com.opendoorlogistics.core/src/com/opendoorlogistics/core/tables/decorators/datastores/UndoRedoDecorator.java:350-352 | blanking the cells of a column keeps the column count |
| UndoFacade.DeleteLastColShrinks | com.opendoorlogistics.core/src/com/opendoorlogistics/core/tables/decorators/datastores/UndoRedoDecorator.java:393-395 | a successful deleteCol of the last column reduces the column count, so the column loop of deleteTableById ends |
| UndoFacade.DeleteColsStep | com.opendoorlogistics.core/src/com/opendoorlogistics/core/tables/decorators/datastores/UndoRedoDecorator.java:393-395 | an iteration of the column loop either throws, which ends the loop, or shrinks the table and continues |
| UndoFacade.BlankRowsTagged | com.opendoorlogistics.core/src/com/opendoorlogistics/core/tables/decorators/datastores/UndoRedoDecorator.java:350-352 | inside transaction tx, the blanking loop never throws and records only under tx |
| UndoFacade.DeleteColTagged | com.opendoorlogistics.core/src/com/opendoorlogistics/core/tables/decorators/datastores/UndoRedoDecorator.java:346-356 | inside transaction tx, deleteCol never throws and records only under tx |
| UndoFacade.DeleteRowsTagged | com.opendoorlogistics.core/src/com/opendoorlogistics/core/tables/decorators/datastores/UndoRedoDecorator.java:388-390 | inside transaction tx, the row loop never throws and records only under tx |
| UndoFacade.DeleteColsTagged | com.opendoorlogistics.core/src/com/opendoorlogistics/core/tables/decorators/datastores/UndoRedoDecorator.java:393-395 | inside transaction tx, the column loop never throws and records only under tx |
| UndoFacade.DeleteColIsOneTransaction | com.opendoorlogistics.core/src/com/opendoorlogistics/core/tables/decorators/datastores/UndoRedoDecorator.java:339-361 | deleteCol succeeds exactly when opening succeeds, never throws inside the caller's transaction, restores the caller's transaction state, and records every entry under one transaction number while keeping the earlier past |
| UndoFacade.DeleteTableIsOneTransaction | com.opendoorlogistics.core/src/com/opendoorlogistics/core/tables/decorators/datastores/UndoRedoDecorator.java:378-404 | the same for deleteTableById: rows, columns and table deletions all share one transaction number |
| UndoRedo.UndoRedoDecorator.constructor | com.opendoorlogistics.core/src/com/opendoorlogistics/core/tables/decorators/datastores/UndoRedoDecorator.java:39-45 | the fields start as the initial log |
| UndoRedo.UndoRedoDecorator.GetNextCommandNb | com.opendoorlogistics.core/src/com/opendoorlogistics/core/tables/decorators/datastores/UndoRedoDecorator.java:117-125 | updates the counter in place to NextTxNb of its old value and returns it |
| UndoRedo.UndoRedoDecorator.FireUndoStateListeners | com.opendoorlogistics.core/src/com/opendoorlogistics/core/tables/decorators/datastores/UndoRedoDecorator.java:499-511 | the new state is Fire of the old state |
| UndoRedo.UndoRedoDecorator.Undo | com.opendoorlogistics.core/src/com/opendoorlogistics/core/tables/decorators/datastores/UndoRedoDecorator.java:127-150 | the in-place loop reaches the state and outcome of UndoLog.Undo and keeps the cursor bounds |
| UndoRedo.UndoRedoDecorator.Redo | com.opendoorlogistics.core/src/com/opendoorlogistics/core/tables/decorators/datastores/UndoRedoDecorator.java:152-173 | the in-place loop reaches the state and outcome of UndoLog.Redo and keeps the cursor bounds |
| UndoRedo.UndoRedoDecorator.UndoRun | com.opendoorlogistics.core/src/com/opendoorlogistics/core/tables/decorators/datastores/UndoRedoDecorator.java:139-142 | the while loop of undo reaches the walk UndoLoop describes |
| UndoRedo.UndoRedoDecorator.RedoRun | com.opendoorlogistics.core/src/com/opendoorlogistics/core/tables/decorators/datastores/UndoRedoDecorator.java:162-167 | the while loop of redo reaches the walk RedoLoop describes |
| UndoRedo.UndoRedoDecorator.Trim | com.opendoorlogistics.core/src/com/opendoorlogistics/core/tables/decorators/datastores/UndoRedoDecorator.java:185-208 | the two loops, extending the target and removing from the head, reach the state and outcome of UndoLog.Trim |
| UndoRedo.UndoRedoDecorator.ClearRedos | com.opendoorlogistics.core/src/com/opendoorlogistics/core/tables/decorators/datastores/UndoRedoDecorator.java:210-216 | the removal loop reaches UndoLog.ClearRedos |
| UndoRedo.UndoRedoDecorator.StartTransaction | com.opendoorlogistics.core/src/com/opendoorlogistics/core/tables/decorators/datastores/UndoRedoDecorator.java:218-227 | reaches UndoLog.StartTransaction |
| UndoRedo.UndoRedoDecorator.EndTransaction | com.opendoorlogistics.core/src/com/opendoorlogistics/core/tables/decorators/datastores/UndoRedoDecorator.java:229-237 | reaches UndoLog.EndTransaction |
| UndoRedo.UndoRedoDecorator.RollbackTransaction | com.opendoorlogistics.core/src/com/opendoorlogistics/core/tables/decorators/datastores/UndoRedoDecorator.java:406-417 | reaches UndoLog.Rollback |
| UndoRedo.UndoRedoDecorator.DoCommand | com.opendoorlogistics.core/src/com/opendoorlogistics/core/tables/decorators/datastores/UndoRedoDecorator.java:255-272 | reaches the state of UndoLog.DoCommand and returns its inverse |
| UndoRedo.UndoRedoDecorator.DeleteCol | com.opendoorlogistics.core/src/com/opendoorlogistics/core/tables/decorators/datastores/UndoRedoDecorator.java:339-361 | the blanking for loop and the column deletion reach UndoFacade.DeleteCol |
| UndoRedo.UndoRedoDecorator.DeleteTableById | com.opendoorlogistics.core/src/com/opendoorlogistics/core/tables/decorators/datastores/UndoRedoDecorator.java:378-404 | reaches UndoFacade.DeleteTableById |
| UndoRedo.UndoRedoDecorator.DeleteAllRows | com.opendoorlogistics.core/src/com/opendoorlogistics/core/tables/decorators/datastores/UndoRedoDecorator.java:388-390 | the row while loop reaches UndoFacade.DeleteRows |
| UndoRedo.UndoRedoDecorator.DeleteAllCols | com.opendoorlogistics.core/src/com/opendoorlogistics/core/tables/decorators/datastores/UndoRedoDecorator.java:393-395 | the column while loop reaches UndoFacade.DeleteCols |
| UndoRedo.UndoRedoDecorator.DeleteLastCol | com.opendoorlogistics.core/src/com/opendoorlogistics/core/tables/decorators/datastores/UndoRedoDecorator.java:394 | one iteration either ends the loop as DeleteCols does or shrinks the table, keeping what DeleteCols reaches |
| UndoRedo.UndoRedoDecorator.BulkAppend | com.opendoorlogistics.core/src/com/opendoorlogistics/core/tables/decorators/datastores/UndoRedoDecorator.java:290-291 | always refused |
| NoplLayers.Scan | com.opendoorlogistics.core/src/com/opendoorlogistics/core/gis/map/tiled/NOPLManager.java:98-105 | the scan yields -1 or the index of a layer of the list |
| NoplLayers.ScanNeverMatches | com.opendoorlogistics.core/src/com/opendoorlogistics/core/gis/map/tiled/NOPLManager.java:100 | because the group id is compared with a Boolean, the scan never finds an earlier layer |
| NoplLayers.Choose | com.opendoorlogistics.core/src/com/opendoorlogistics/core/gis/map/tiled/NOPLManager.java:92-120 | the first half of an iteration always leaves a current layer within the list |
| NoplLayers.Place | com.opendoorlogistics.core/src/com/opendoorlogistics/core/gis/map/tiled/NOPLManager.java:89-124 | one iteration: choose the current layer, then add the object to it; the current layer stays within the list |
| NoplLayers.Run | com.opendoorlogistics.core/src/com/opendoorlogistics/core/gis/map/tiled/NOPLManager.java:87-125 | the loop state after a prefix of the input, with the current layer within the list; RunIsWellGrouped states its laws |
| NoplLayers.Split | com.opendoorlogistics.core/src/com/opendoorlogistics/core/gis/map/tiled/NOPLManager.java:83-128 | the returned list is the layers of Run over the whole input; SplitIsWellGrouped and SplitIsUnique characterise it |
| NoplLayers.PlaceAtEnd | com.opendoorlogistics.core/src/com/opendoorlogistics/core/gis/map/tiled/NOPLManager.java:92-123 | with the current layer last, an object joins it when its kind and standardised key match, and otherwise opens a new layer holding just that object |
| NoplLayers.PlaceKeepsGrouping | com.opendoorlogistics.core/src/com/opendoorlogistics/core/gis/map/tiled/NOPLManager.java:89-125 | one iteration keeps the grouping laws and appends the object to the concatenation of the layers |
| NoplLayers.RunIsWellGrouped | com.opendoorlogistics.core/src/com/opendoorlogistics/core/gis/map/tiled/NOPLManager.java:89-125 | after any prefix of the input, the current layer is the last one, the layers obey the grouping laws, and they concatenate to that prefix |
| NoplLayers.SplitIsWellGrouped | com.opendoorlogistics.core/src/com/opendoorlogistics/core/gis/map/tiled/NOPLManager.java:83-128 | the layers are non-empty and concatenate to the input in order; empty keys sit only in NORMAL layers; every object of a NOVLPL layer standardises to its group id; no two consecutive layers share kind and group id |
| NoplLayers.SplitSnoc | com.opendoorlogistics.core/src/com/opendoorlogistics/core/gis/map/tiled/NOPLManager.java:89-125 | the layers of a longer input are those of its prefix with the last object added to the last layer when it fits and to a new layer otherwise |
| NoplLayers.DropLastFacts | com.opendoorlogistics.core/src/com/opendoorlogistics/core/gis/map/tiled/NOPLManager.java:92-123 | every layering with the grouping laws is such an extension of a smaller layering with the laws |
| NoplLayers.SplitIsUnique | com.opendoorlogistics.core/src/com/opendoorlogistics/core/gis/map/tiled/NOPLManager.java:92-123 | any layering with those laws that concatenates to the input is the one returned: a new layer starts exactly when the kind or the group id changes |
| NoplLayers.Reconcile | com.opendoorlogistics.core/src/com/opendoorlogistics/core/gis/map/tiled/NOPLManager.java:40-65 | one iteration of the first loop: a new id, or a cached layer that lacks one of the new geometries, gets a fresh entry; otherwise the entry is kept |
| NoplLayers.ReconcileAll | com.opendoorlogistics.core/src/com/opendoorlogistics/core/gis/map/tiled/NOPLManager.java:39-66 | the first loop over all new layers; ReconcileAllKeys, ReconcileAllKept and ReconcileAllFresh state its result |
| NoplLayers.Update | com.opendoorlogistics.core/src/com/opendoorlogistics/core/gis/map/tiled/NOPLManager.java:35-75 | the first loop restricted to the new ids by the second; UpdateFacts states its result |
| NoplLayers.UpdateFacts | com.opendoorlogistics.core/src/com/opendoorlogistics/core/gis/map/tiled/NOPLManager.java:35-75 | after update the keys are exactly the standardised ids of the new layers; an id keeps its old cache exactly when it was cached and no new layer with that id has a non-null geometry the cached layer lacks; every other id holds a fresh cache of one of its new layers |
| NoplLayers.NullGeometriesKeepCache | com.opendoorlogistics.core/src/com/opendoorlogistics/core/gis/map/tiled/NOPLManager.java:49-50 | objects with a null geometry never invalidate a cached layer |
| NoplLayers.ReconcileAllKeys | com.opendoorlogistics.core/src/com/opendoorlogistics/core/gis/map/tiled/NOPLManager.java:39-66 | the first loop adds the new ids to the cached ones and removes none for good |
| NoplLayers.ReconcileAllKept | com.opendoorlogistics.core/src/com/opendoorlogistics/core/gis/map/tiled/NOPLManager.java:44-61 | after the first loop, an entry is the old cache exactly when no new layer of its id brought an unknown geometry |
| NoplLayers.ReconcileAllFresh | com.opendoorlogistics.core/src/com/opendoorlogistics/core/gis/map/tiled/NOPLManager.java:63-65 | after the first loop, a replaced entry wraps one of the new layers with its id |
| LayerManager.LayerCache.constructor | com.opendoorlogistics.core/src/com/opendoorlogistics/core/gis/map/tiled/NOPLManager.java:30-32 | the cache entry holds the layer it was built from |
| LayerManager.NoplManager.constructor | com.opendoorlogistics.core/src/com/opendoorlogistics/core/gis/map/tiled/NOPLManager.java:24 | the cache of current layers starts empty |
| LayerManager.NoplManager.Update | com.opendoorlogistics.core/src/com/opendoorlogistics/core/gis/map/tiled/NOPLManager.java:35-75 | the two in-place loops leave exactly the ids of NoplLayers.Update; kept ids still hold the very same LayerCache object, and replaced or new ids hold a freshly allocated one wrapping the layer Update chose |
| LayerManager.NoplManager.ReconcileLayer | com.opendoorlogistics.core/src/com/opendoorlogistics/core/gis/map/tiled/NOPLManager.java:40-65 | one iteration updates the map as Reconcile does; every entry is either the object it held before or a fresh one |
| LayerManager.NoplManager.HasUnknownGeom | com.opendoorlogistics.core/src/com/opendoorlogistics/core/gis/map/tiled/NOPLManager.java:49-60 | the inner loop with break finds a non-null geometry unknown to the cached layer exactly when there is one |
| LayerManager.NoplManager.ScanLayers | com.opendoorlogistics.core/src/com/opendoorlogistics/core/gis/map/tiled/NOPLManager.java:98-105 | the scan loop keeps the last matching layer, as Scan defines |
| LayerManager.NoplManager.ChooseLayer | com.opendoorlogistics.core/src/com/opendoorlogistics/core/gis/map/tiled/NOPLManager.java:92-120 | chooses or creates the current layer as Choose defines |
| LayerManager.NoplManager.RemoveUnused | com.opendoorlogistics.core/src/com/opendoorlogistics/core/gis/map/tiled/NOPLManager.java:68-74 | the cache keeps exactly the entries whose ids are among the new ids, each the same object as before |
| LayerManager.NoplManager.SplitDrawablesIntoLayers | com.opendoorlogistics.core/src/com/opendoorlogistics/core/gis/map/tiled/NOPLManager.java:83-128 | the loop returns Split of the input, so the layers obey the grouping laws and concatenate to the input |

## Left out

- The concrete command classes (`Set`, `DeleteRow`, `InsertEmptyCol`, `CreateTable`, and so on) and the decorated datastore are not shown. Commands are an opaque type `C` and the datastore an opaque state `D`, and running a command is the parameter `exec`.
- The forwarding mutators (`setValueAt`, `setValueById`, `createEmptyRow`, `insertEmptyRow`, `addColumn`, `insertCol`, `deleteRow`, `createTable`, `setColumnFlags`, `setFlags`, `setTableName`, `setColumnTags`, `setTags`, `setColumnDefaultValue`, `setColumnDescription`) each build one command and call `doCommand`. They are covered by `DoCommand` on an opaque command. What each returns (a table, a column index, a boolean) depends on classes that are not part of this model.
- `getTableCount`, `toString`, `isRollbackSupported`, the constructor's superclass call and the `main` harness are left out. They forward, print or return a constant.
- The listener set and its callbacks are left out; a notification is counted in the ghost field `fired`. `addUndoStateListener`/`removeUndoStateListener` and `UndoState.equals`/`hashCode` are left out, and the undo state is a pair of booleans.
- The listener switches are left out: `decorated.disableListeners`/`enableListeners` in startTransaction and endTransaction, and the decorator's own `disableListeners`/`enableListeners` in undo and redo (SimpleDecorator is not part of this model). When a replayed command throws, undo and redo leave the listeners disabled; the model does not record that.
- `LargeList` is a `seq`, and removing its head entry is a slice.
- The history bound is a constructor parameter `maxSize` of at least 2. In the source it is fixed at Integer.MAX_VALUE, which makes trimming unreachable. Trim reads `buffer[targetSize-2]`, so a smaller bound would index out of range.
- UndoLog.Undo, UndoLog.Redo, UndoLog.UndoLoop, UndoLog.RedoLoop: when a replayed command returns null, Java stores null in the slot and then throws. The model keeps the slot's previous command and returns `Fail(NullInverse)`, with the cursor where Java leaves it.
- UndoLog.Trim: when the cursor passes below zero, Java has removed part of the head and then throws. The model keeps the cursor at -1 and the shorter buffer, so the object then no longer satisfies `Valid()`, and the class methods promise `Valid()` only for the other outcomes.
- UndoFacade.DeleteTableById: Java holds the table object and reads its live row and column counts. The model looks the shape up again by id after every command. The two while loops end only when deleting the last row or column shrinks the table, which the model requires of the datastore as `Shrinking`; in Java a command that did not shrink the table would loop for ever.
- Integer overflow of the cursor and of the buffer size is not modelled, since the history would have to hold 2^31 entries. The transaction counter's wrap-around is modelled, in NextTxNb.
- The trim extension loop reads the entries at targetSize-1 and targetSize-2 counted from the head of the buffer, as written. The source's comment at UndoRedoDecorator.java:188 says trim always deletes whole commands, but the code can split one, and UndoLog.TrimCanSplitATransaction shows such a case.
- UndoLog.UndoThenRedoRestores, UndoLog.DoThenUndoRestores, UndoLog.UndoesOneAtATime, UndoLog.SequenceUndoRedo, UndoLog.RollbackRestores, UndoLog.TransactionUndoRedo: the datastore round trips hold for commands whose inverse, applied right after, restores the datastore (`Involutive`); the transaction-level ones also need commands that return null to change nothing (`NullIsNoOp`). The ones that record commands are stated with no trim due; the sequence ones also need every command to return an inverse on the datastore it meets (`ReturnsAll`). RollbackRestores and TransactionUndoRedo also need the entry behind the starting cursor not to carry the new transaction's number. After the numbers wrap, an older transaction with that number would otherwise be undone along with the new one.
- `rollbackTransaction` is modelled as written: it only undoes, so the rolled-back entries stay in the buffer and can be redone.
- In NOPLManager, `getTile`, the tile cache (`RecentlyUsedCache`) inside `LayerCache` and the rendering classes are left out.
- `Strings.std` and `StandardisedCache.std` are the same parameter `std`. `StandardisedStringTreeMap` and `StandardisedStringSet` standardise their keys again; the model assumes the keys they receive, which are already standardised, are stored unchanged.
- `DrawableObjectLayer` is not part of this model. A layer is a value `(kind, groupId, objects)`, a NORMAL layer's group id is "" (this is what `update` standardises for it), and `hasGeom` is a parameter. The list returned by `splitDrawablesIntoLayers` holds layer values, and `currentLayer` is an index into it rather than an alias.
- `Strings.isEmpty` of a key is the test `key == ""`; a null key is the empty string.
- `update` iterates over a copy of the key set in sorted order to remove stale ids. The model removes them in any order, which gives the same map because removals commute.
