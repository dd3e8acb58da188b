/**
 * The transactional undo/redo log of UndoRedoDecorator, as a value.
 *
 * A `Log` holds the history buffer of (undo command, redo command,
 * transaction number) entries, the cursor `position`, the number of the
 * open transaction (`NoTx` when none is open), the transaction-number
 * generator, the last availability state handed to the listeners, a count
 * of listener firings, and the abstract state of the decorated datastore.
 *
 * Commands are opaque (type parameter C) and the datastore is abstract
 * (type parameter D): applying a command is a function `Exec` that returns
 * the command's inverse, or None when the command changed nothing, together
 * with the datastore's new state.
 *
 * Every operation is a function from a log to an outcome and a new log; the
 * class UndoRedo.UndoRedoDecorator implements each of them with the
 * source's loops and is proved equal to it.
 */
module UndoLog {
  import opened Wrappers

  /** Java's Integer.MAX_VALUE, the largest transaction number. */
  const IntMax: int := 0x7fff_ffff

  /** The transaction number of a command recorded outside any transaction. */
  const NoTx: int := -1

  /** Applying a command to the decorated datastore. */
  type Exec<!C, !D> = (C, D) -> (Option<C>, D)

  /** One slot of the history (the inner class UndoRedo). */
  datatype Entry<C> = Entry(undoCmd: C, redoCmd: C, txNb: int)

  /** The pair handed to the undo-state listeners. */
  datatype UndoState = UndoState(hasUndo: bool, hasRedo: bool)

  /** The conditions under which the source throws. */
  datatype Error =
    | AlreadyInTransaction  // startTransaction while a transaction is open
    | NotInTransaction      // endTransaction (or rollbackTransaction) with none open
    | InTransaction         // undo, redo or trim while a transaction is open
    | NullInverse           // a replayed command returned no inverse
    | NegativePosition      // trimming moved the cursor below zero
    | Unsupported           // bulk append on an undoable datastore

  datatype Log<C, D> = Log(
    buffer: seq<Entry<C>>,
    position: int,
    currentTx: int,
    nextTx: int,
    lastFired: Option<UndoState>,
    fired: nat,
    ds: D)

  /** What an operation returns: whether it threw, and the state it left. */
  datatype Step<C, D> = Step(out: Outcome<Error>, log: Log<C, D>)

  /** A freshly constructed decorator over the datastore `ds`. */
  function Init<C, D>(ds: D): Log<C, D>
  {
    Log([], 0, NoTx, 1, None, 0, ds)
  }

  /** Cursor within the buffer; transaction numbers in range. */
  predicate WellFormed<C, D>(L: Log<C, D>)
  {
    && 0 <= L.position <= |L.buffer|
    && 1 <= L.nextTx <= IntMax
    && (L.currentTx == NoTx || 1 <= L.currentTx <= IntMax)
  }

  predicate HasUndo<C, D>(L: Log<C, D>) { L.position > 0 }

  predicate HasRedo<C, D>(L: Log<C, D>) { L.position < |L.buffer| }

  predicate IsInTransaction<C, D>(L: Log<C, D>) { L.currentTx != NoTx }

  function CurrentState<C, D>(L: Log<C, D>): UndoState
  {
    UndoState(HasUndo(L), HasRedo(L))
  }

  lemma InitIsWellFormed<C, D>(ds: D)
    ensures WellFormed(Init<C, D>(ds))
    ensures !HasUndo(Init<C, D>(ds)) && !HasRedo(Init<C, D>(ds))
    ensures !IsInTransaction(Init<C, D>(ds))
  {
  }

  /** The undoable past is buffer[..position], the redoable future buffer[position..]. */
  lemma AvailabilityMatchesCursor<C, D>(L: Log<C, D>)
    requires WellFormed(L)
    ensures HasUndo(L) <==> L.buffer[..L.position] != []
    ensures HasRedo(L) <==> L.buffer[L.position..] != []
  {
  }

  // ---------------------------------------------------------------------
  // Transaction numbers
  // ---------------------------------------------------------------------

  /** getNextCommandNb: increments before returning and wraps MAX_VALUE to 1. */
  function NextTxNb(n: int): (r: int)
    requires 1 <= n <= IntMax
    ensures 1 <= r <= IntMax && r != NoTx
    ensures r == n % IntMax + 1
  {
    if n == IntMax then 1 else n + 1
  }

  lemma FirstTxNbIsTwo()
    ensures NextTxNb(Init<int, int>(0).nextTx) == 2
  {
  }

  // ---------------------------------------------------------------------
  // Listener notification
  // ---------------------------------------------------------------------

  /**
   * fireUndoStateListeners: the listeners are called, and the pair
   * remembered, only when {hasUndo, hasRedo} differs from the last pair
   * fired; nothing else changes.
   */
  function Fire<C, D>(L: Log<C, D>): (r: Log<C, D>)
    ensures r.lastFired == Some(CurrentState(L))
    ensures r.fired == L.fired + 1 <==> L.lastFired != Some(CurrentState(L))
    ensures r.fired == L.fired <==> L.lastFired == Some(CurrentState(L))
    ensures r.(lastFired := L.lastFired, fired := L.fired) == L
  {
    var st := CurrentState(L);
    if L.lastFired == Some(st) then L
    else L.(lastFired := Some(st), fired := L.fired + 1)
  }

  /** Firing twice in a row notifies at most once. */
  lemma FireTwiceFiresOnce<C, D>(L: Log<C, D>)
    ensures Fire(Fire(L)) == Fire(L)
    ensures Fire(L).fired <= L.fired + 1
  {
  }

  /** The first notification always fires. */
  lemma FirstFireAlwaysFires<C, D>(L: Log<C, D>)
    requires L.lastFired == None
    ensures Fire(L).fired == L.fired + 1
  {
  }

  // ---------------------------------------------------------------------
  // clearRedos and trim
  // ---------------------------------------------------------------------

  /** clearRedos: drops the redoable tail, keeps the past, then notifies. */
  function ClearRedos<C, D>(L: Log<C, D>): (r: Log<C, D>)
    requires WellFormed(L)
    ensures WellFormed(r) && !HasRedo(r)
    ensures r.position == L.position && r.buffer == L.buffer[..L.position]
    ensures r.currentTx == L.currentTx && r.nextTx == L.nextTx && r.ds == L.ds
  {
    Fire(L.(buffer := L.buffer[..L.position]))
  }

  /** The entries at t-1 and t-2 belong to the same transaction. */
  predicate Joined<C>(buf: seq<Entry<C>>, t: int)
    requires 2 <= t <= |buf|
  {
    buf[t - 1].txNb != NoTx && buf[t - 2].txNb == buf[t - 1].txNb
  }

  /**
   * The extension loop of trim: starting from `t`, the target size grows
   * while the entries at t-1 and t-2, counted from the head of the buffer,
   * belong to the same transaction.
   */
  function TrimTarget<C>(buf: seq<Entry<C>>, t: int): (r: int)
    requires 2 <= t
    decreases |buf| - t
    ensures t <= r
    ensures t < |buf| ==> r <= |buf|
    ensures forall k :: t <= k < r ==> k < |buf| && Joined(buf, k)
    ensures r < |buf| ==> !Joined(buf, r)
  {
    if t < |buf| && Joined(buf, t) then TrimTarget(buf, t + 1)
    else t
  }

  /**
   * trim: refused inside a transaction; when the buffer is over `maxSize`,
   * entries are removed from the head until TrimTarget entries remain, the
   * cursor moving back by one per removal. If the cursor goes below zero it
   * throws, leaving what it had removed so far removed.
   */
  function Trim<C, D>(maxSize: int, L: Log<C, D>): (s: Step<C, D>)
    requires 2 <= maxSize && WellFormed(L)
    ensures IsInTransaction(L) ==> s == Step(Fail(InTransaction), L)
    ensures s.log.ds == L.ds && s.log.currentTx == L.currentTx && s.log.nextTx == L.nextTx
    ensures !IsInTransaction(L) && |L.buffer| <= maxSize ==>
      s.out == Pass && s.log.buffer == L.buffer && s.log.position == L.position
    ensures s.out == Fail(NegativePosition) <==>
      !IsInTransaction(L) && |L.buffer| > maxSize
      && L.position < |L.buffer| - TrimTarget(L.buffer, maxSize)
    ensures s.out.Pass? ==>
      && WellFormed(s.log)
      && |s.log.buffer| <= |L.buffer|
      && s.log.buffer == L.buffer[|L.buffer| - |s.log.buffer|..]
      && s.log.position == L.position - (|L.buffer| - |s.log.buffer|)
      && (|s.log.buffer| >= maxSize || s.log.buffer == L.buffer)
    ensures !IsInTransaction(L) ==> s.out == Pass || s.out == Fail(NegativePosition)
    ensures !IsInTransaction(L) && |L.buffer| > maxSize && s.out == Pass ==>
      |s.log.buffer| == TrimTarget(L.buffer, maxSize)
    ensures s.out == Fail(NegativePosition) ==>
      s.log.buffer == L.buffer[L.position + 1..] && s.log.position == -1
  {
    if IsInTransaction(L) then Step(Fail(InTransaction), L)
    else if |L.buffer| <= maxSize then Step(Pass, Fire(L))
    else
      var drop := |L.buffer| - TrimTarget(L.buffer, maxSize);
      if L.position < drop then
        Step(Fail(NegativePosition), L.(buffer := L.buffer[L.position + 1..], position := -1))
      else
        Step(Pass, Fire(L.(buffer := L.buffer[drop..], position := L.position - drop)))
  }

  /**
   * The extension loop inspects the head of the buffer rather than the cut
   * point, so trimming can keep the tail of a transaction and drop its head:
   * here transaction 7 occupies slots 1 and 2, and slot 1 is removed.
   */
  lemma TrimCanSplitATransaction<C, D>(c: C, ds: D)
    ensures
      var L := Log([Entry(c, c, NoTx), Entry(c, c, 7), Entry(c, c, 7), Entry(c, c, NoTx)],
                   4, NoTx, 7, None, 0, ds);
      var s := Trim(2, L);
      && s.out == Pass
      && s.log.buffer == L.buffer[2..]
      && s.log.buffer[0].txNb == 7 && L.buffer[1].txNb == 7
  {
    var L := Log([Entry(c, c, NoTx), Entry(c, c, 7), Entry(c, c, 7), Entry(c, c, NoTx)],
                 4, NoTx, 7, None, 0, ds);
    assert TrimTarget(L.buffer, 2) == 2;
  }

  // ---------------------------------------------------------------------
  // Undo and redo
  // ---------------------------------------------------------------------

  /** Where a walk over the buffer stopped, and whether it completed. */
  datatype Walk<C, D> = Walk(ok: bool, buffer: seq<Entry<C>>, position: int, ds: D)

  /**
   * The loop of undo (after its first step): while the entry behind the
   * cursor carries transaction `tx`, step back and replay that entry's undo
   * command, storing the returned inverse as the slot's redo command.
   */
  function UndoLoop<C, D>(x: Exec<C, D>, tx: int, buf: seq<Entry<C>>, p: int, ds: D): (w: Walk<C, D>)
    requires 0 <= p <= |buf|
    decreases p
    ensures |w.buffer| == |buf| && 0 <= w.position <= p
  {
    if p > 0 && buf[p - 1].txNb == tx then
      var res := x(buf[p - 1].undoCmd, ds);
      if res.0.None? then Walk(false, buf, p - 1, res.1)
      else UndoLoop(x, tx, buf[p - 1 := buf[p - 1].(redoCmd := res.0.value)], p - 1, res.1)
    else Walk(true, buf, p, ds)
  }

  /**
   * The undo loop keeps every slot's number and undo command and every slot
   * it did not visit; every visited slot carries the transaction; on
   * completion it stopped at the start of the run.
   */
  lemma {:induction false} UndoLoopFacts<C, D>(x: Exec<C, D>, tx: int, buf: seq<Entry<C>>, p: int, ds: D)
    requires 0 <= p <= |buf|
    decreases p
    ensures var w := UndoLoop(x, tx, buf, p, ds);
      && (forall k :: 0 <= k < |buf| ==>
            w.buffer[k].txNb == buf[k].txNb && w.buffer[k].undoCmd == buf[k].undoCmd)
      && (forall k :: 0 <= k < w.position || p <= k < |buf| ==> w.buffer[k] == buf[k])
      && (forall k :: w.position <= k < p ==> buf[k].txNb == tx)
      && (w.ok ==> w.position == 0 || buf[w.position - 1].txNb != tx)
  {
    if p > 0 && buf[p - 1].txNb == tx {
      var res := x(buf[p - 1].undoCmd, ds);
      if res.0.Some? {
        UndoLoopFacts(x, tx, buf[p - 1 := buf[p - 1].(redoCmd := res.0.value)], p - 1, res.1);
      }
    }
  }

  /**
   * The loop of redo (after its first step): while the entry at the cursor
   * carries transaction `tx`, replay its redo command, store the returned
   * inverse as its undo command, and step forward.
   */
  function RedoLoop<C, D>(x: Exec<C, D>, tx: int, buf: seq<Entry<C>>, p: int, ds: D): (w: Walk<C, D>)
    requires 0 <= p <= |buf|
    decreases |buf| - p
    ensures |w.buffer| == |buf| && p <= w.position <= |buf|
  {
    if p < |buf| && buf[p].txNb == tx then
      var res := x(buf[p].redoCmd, ds);
      if res.0.None? then Walk(false, buf, p, res.1)
      else RedoLoop(x, tx, buf[p := buf[p].(undoCmd := res.0.value)], p + 1, res.1)
    else Walk(true, buf, p, ds)
  }

  /**
   * The redo loop keeps every slot's number and redo command and every slot
   * it did not visit; every visited slot carries the transaction; on
   * completion it stopped at the end of the run.
   */
  lemma {:induction false} RedoLoopFacts<C, D>(x: Exec<C, D>, tx: int, buf: seq<Entry<C>>, p: int, ds: D)
    requires 0 <= p <= |buf|
    decreases |buf| - p
    ensures var w := RedoLoop(x, tx, buf, p, ds);
      && (forall k :: 0 <= k < |buf| ==>
            w.buffer[k].txNb == buf[k].txNb && w.buffer[k].redoCmd == buf[k].redoCmd)
      && (forall k :: 0 <= k < p || w.position <= k < |buf| ==> w.buffer[k] == buf[k])
      && (forall k :: p <= k < w.position ==> buf[k].txNb == tx)
      && (w.ok ==> w.position == |buf| || buf[w.position].txNb != tx)
  {
    if p < |buf| && buf[p].txNb == tx {
      var res := x(buf[p].redoCmd, ds);
      if res.0.Some? {
        RedoLoopFacts(x, tx, buf[p := buf[p].(undoCmd := res.0.value)], p + 1, res.1);
      }
    }
  }

  /** One step of the undo loop. */
  lemma UndoLoopStep<C, D>(x: Exec<C, D>, tx: int, buf: seq<Entry<C>>, p: int, ds: D)
    requires 0 < p <= |buf| && buf[p - 1].txNb == tx && x(buf[p - 1].undoCmd, ds).0.Some?
    ensures var res := x(buf[p - 1].undoCmd, ds);
      UndoLoop(x, tx, buf, p, ds) == UndoLoop(x, tx, buf[p - 1 := buf[p - 1].(redoCmd := res.0.value)], p - 1, res.1)
  {
  }

  /** One step of the redo loop. */
  lemma RedoLoopStep<C, D>(x: Exec<C, D>, tx: int, buf: seq<Entry<C>>, p: int, ds: D)
    requires 0 <= p < |buf| && buf[p].txNb == tx && x(buf[p].redoCmd, ds).0.Some?
    ensures var res := x(buf[p].redoCmd, ds);
      RedoLoop(x, tx, buf, p, ds) == RedoLoop(x, tx, buf[p := buf[p].(undoCmd := res.0.value)], p + 1, res.1)
  {
  }

  /**
   * undo: refused inside a transaction, nothing to do without history;
   * otherwise steps back over one entry, and over the whole run of its
   * transaction when it has one, then notifies. A replayed command that
   * returns no inverse throws, leaving the cursor at that slot.
   */
  function Undo<C, D>(x: Exec<C, D>, L: Log<C, D>): (s: Step<C, D>)
    requires WellFormed(L)
    ensures IsInTransaction(L) ==> s == Step(Fail(InTransaction), L)
    ensures !IsInTransaction(L) && !HasUndo(L) ==> s == Step(Pass, L)
    ensures s.out.Fail? ==> s.out.error == InTransaction || s.out.error == NullInverse
    ensures WellFormed(s.log) && |s.log.buffer| == |L.buffer| && s.log.position <= L.position
    ensures s.log.currentTx == L.currentTx && s.log.nextTx == L.nextTx
    ensures forall k :: 0 <= k < |L.buffer| ==>
      s.log.buffer[k].txNb == L.buffer[k].txNb && s.log.buffer[k].undoCmd == L.buffer[k].undoCmd
    ensures forall k :: 0 <= k < s.log.position || L.position <= k < |L.buffer| ==>
      s.log.buffer[k] == L.buffer[k]
    ensures !IsInTransaction(L) && HasUndo(L) && s.out == Pass ==>
      var tx := L.buffer[L.position - 1].txNb;
      && s.log.position < L.position
      && HasRedo(s.log)
      && (tx == NoTx ==> s.log.position == L.position - 1)
      && (tx != NoTx ==>
            && (forall k :: s.log.position <= k < L.position ==> L.buffer[k].txNb == tx)
            && (s.log.position == 0 || L.buffer[s.log.position - 1].txNb != tx))
  {
    if IsInTransaction(L) then Step(Fail(InTransaction), L)
    else if !HasUndo(L) then Step(Pass, L)
    else
      var tx := L.buffer[L.position - 1].txNb;
      var p := L.position - 1;
      var res := x(L.buffer[p].undoCmd, L.ds);
      if res.0.None? then Step(Fail(NullInverse), L.(position := p, ds := res.1))
      else
        var buf1 := L.buffer[p := L.buffer[p].(redoCmd := res.0.value)];
        UndoLoopFacts(x, tx, buf1, p, res.1);
        var w := if tx != NoTx then UndoLoop(x, tx, buf1, p, res.1) else Walk(true, buf1, p, res.1);
        var L1 := L.(buffer := w.buffer, position := w.position, ds := w.ds);
        if w.ok then Step(Pass, Fire(L1)) else Step(Fail(NullInverse), L1)
  }

  /** redo: the mirror image of undo, walking forward from the cursor. */
  function Redo<C, D>(x: Exec<C, D>, L: Log<C, D>): (s: Step<C, D>)
    requires WellFormed(L)
    ensures IsInTransaction(L) ==> s == Step(Fail(InTransaction), L)
    ensures !IsInTransaction(L) && !HasRedo(L) ==> s == Step(Pass, L)
    ensures s.out.Fail? ==> s.out.error == InTransaction || s.out.error == NullInverse
    ensures WellFormed(s.log) && |s.log.buffer| == |L.buffer| && s.log.position >= L.position
    ensures s.log.currentTx == L.currentTx && s.log.nextTx == L.nextTx
    ensures forall k :: 0 <= k < |L.buffer| ==>
      s.log.buffer[k].txNb == L.buffer[k].txNb && s.log.buffer[k].redoCmd == L.buffer[k].redoCmd
    ensures forall k :: 0 <= k < L.position || s.log.position <= k < |L.buffer| ==>
      s.log.buffer[k] == L.buffer[k]
    ensures !IsInTransaction(L) && HasRedo(L) && s.out == Pass ==>
      var tx := L.buffer[L.position].txNb;
      && s.log.position > L.position
      && HasUndo(s.log)
      && (tx == NoTx ==> s.log.position == L.position + 1)
      && (tx != NoTx ==>
            && (forall k :: L.position <= k < s.log.position ==> L.buffer[k].txNb == tx)
            && (s.log.position == |L.buffer| || L.buffer[s.log.position].txNb != tx))
  {
    if IsInTransaction(L) then Step(Fail(InTransaction), L)
    else if !HasRedo(L) then Step(Pass, L)
    else
      var p := L.position;
      var tx := L.buffer[p].txNb;
      var res := x(L.buffer[p].redoCmd, L.ds);
      if res.0.None? then Step(Fail(NullInverse), L.(ds := res.1))
      else
        var buf1 := L.buffer[p := L.buffer[p].(undoCmd := res.0.value)];
        RedoLoopFacts(x, tx, buf1, p + 1, res.1);
        var w := if tx != NoTx then RedoLoop(x, tx, buf1, p + 1, res.1) else Walk(true, buf1, p + 1, res.1);
        var L1 := L.(buffer := w.buffer, position := w.position, ds := w.ds);
        if w.ok then Step(Pass, Fire(L1)) else Step(Fail(NullInverse), L1)
  }

  /** Applying `c` to some datastore returns no inverse. */
  ghost predicate CanFail<C, D(!new)>(x: Exec<C, D>, c: C)
  {
    exists d :: x(c, d).0.None?
  }

  /** Applying `c` to some datastore returns the inverse `r`. */
  ghost predicate CanReturn<C, D(!new)>(x: Exec<C, D>, c: C, r: C)
  {
    exists d :: x(c, d).0 == Some(r)
  }

  /** Commands that always return an inverse. */
  ghost predicate Total<C(!new), D(!new)>(x: Exec<C, D>)
  {
    forall c, d :: x(c, d).0.Some?
  }

  /**
   * The undo loop fails only at a slot whose undo command can return no
   * inverse, and leaves that slot as it was. The first slot it replays holds,
   * as its redo command, the inverse returned on the datastore the loop
   * started from; every later replayed slot holds an inverse its undo command
   * can return.
   */
  lemma {:induction false} UndoLoopOutcome<C, D(!new)>(x: Exec<C, D>, tx: int, buf: seq<Entry<C>>, p: int, ds: D)
    requires 0 <= p <= |buf|
    decreases p
    ensures var w := UndoLoop(x, tx, buf, p, ds);
      && (!w.ok ==>
            && w.position < p && w.buffer[w.position] == buf[w.position]
            && CanFail(x, buf[w.position].undoCmd))
      && (forall k :: w.position <= k < p && (w.ok || w.position < k) ==>
            CanReturn(x, buf[k].undoCmd, w.buffer[k].redoCmd))
      && (w.position < p && (w.ok || w.position < p - 1) ==>
            x(buf[p - 1].undoCmd, ds).0 == Some(w.buffer[p - 1].redoCmd))
  {
    if p > 0 && buf[p - 1].txNb == tx {
      var res := x(buf[p - 1].undoCmd, ds);
      if res.0.Some? {
        var buf1 := buf[p - 1 := buf[p - 1].(redoCmd := res.0.value)];
        UndoLoopOutcome(x, tx, buf1, p - 1, res.1);
        UndoLoopFacts(x, tx, buf1, p - 1, res.1);
        var w := UndoLoop(x, tx, buf1, p - 1, res.1);
        assert UndoLoop(x, tx, buf, p, ds) == w;
        assert w.buffer[p - 1] == buf1[p - 1];
        forall k | w.position <= k < p && (w.ok || w.position < k)
          ensures CanReturn(x, buf[k].undoCmd, w.buffer[k].redoCmd)
        {
          if k == p - 1 {
            assert w.buffer[p - 1] == buf1[p - 1];
            assert x(buf[k].undoCmd, ds).0 == Some(w.buffer[k].redoCmd);
          } else {
            assert buf1[k] == buf[k];
          }
        }
      } else {
        assert x(buf[p - 1].undoCmd, ds).0.None?;
      }
    }
  }

  /**
   * The mirror image for the redo loop, which fails at the slot under the
   * cursor; the first slot it replays holds the inverse returned on the
   * datastore it started from.
   */
  lemma {:induction false} RedoLoopOutcome<C, D(!new)>(x: Exec<C, D>, tx: int, buf: seq<Entry<C>>, p: int, ds: D)
    requires 0 <= p <= |buf|
    decreases |buf| - p
    ensures var w := RedoLoop(x, tx, buf, p, ds);
      && (!w.ok ==>
            && w.position < |buf| && w.buffer[w.position] == buf[w.position]
            && CanFail(x, buf[w.position].redoCmd))
      && (forall k :: p <= k < w.position ==>
            CanReturn(x, buf[k].redoCmd, w.buffer[k].undoCmd))
      && (w.position > p ==> x(buf[p].redoCmd, ds).0 == Some(w.buffer[p].undoCmd))
  {
    if p < |buf| && buf[p].txNb == tx {
      var res := x(buf[p].redoCmd, ds);
      if res.0.Some? {
        var buf1 := buf[p := buf[p].(undoCmd := res.0.value)];
        RedoLoopOutcome(x, tx, buf1, p + 1, res.1);
        RedoLoopFacts(x, tx, buf1, p + 1, res.1);
        var w := RedoLoop(x, tx, buf1, p + 1, res.1);
        assert RedoLoop(x, tx, buf, p, ds) == w;
        assert w.buffer[p] == buf1[p];
        forall k | p <= k < w.position
          ensures CanReturn(x, buf[k].redoCmd, w.buffer[k].undoCmd)
        {
          if k == p {
            assert w.buffer[p] == buf1[p];
            assert x(buf[k].redoCmd, ds).0 == Some(w.buffer[k].undoCmd);
          } else {
            assert buf1[k] == buf[k];
          }
        }
      } else {
        assert x(buf[p].redoCmd, ds).0.None?;
      }
    }
  }

  /**
   * undo throws NullInverse only at a slot whose undo command can return no
   * inverse, where it leaves the cursor. The slot behind the cursor, replayed
   * first, then holds as its redo command the inverse returned on the current
   * datastore; every later slot it stepped back over and replayed holds an
   * inverse its undo command can return.
   */
  lemma UndoOutcome<C, D(!new)>(x: Exec<C, D>, L: Log<C, D>)
    requires WellFormed(L)
    ensures var s := Undo(x, L);
      && (s.out == Fail(NullInverse) ==>
            && !IsInTransaction(L) && s.log.position < L.position
            && CanFail(x, L.buffer[s.log.position].undoCmd))
      && (forall k :: s.log.position <= k < L.position && (s.out == Pass || s.log.position < k) ==>
            CanReturn(x, L.buffer[k].undoCmd, s.log.buffer[k].redoCmd))
      && (!IsInTransaction(L) && HasUndo(L) && (s.out == Pass || s.log.position < L.position - 1) ==>
            x(L.buffer[L.position - 1].undoCmd, L.ds).0 == Some(s.log.buffer[L.position - 1].redoCmd))
  {
    if !IsInTransaction(L) && HasUndo(L) {
      var tx := L.buffer[L.position - 1].txNb;
      var p := L.position - 1;
      var res := x(L.buffer[p].undoCmd, L.ds);
      if res.0.None? {
        assert x(L.buffer[p].undoCmd, L.ds).0.None?;
      } else {
        var buf1 := L.buffer[p := L.buffer[p].(redoCmd := res.0.value)];
        if tx != NoTx {
          UndoLoopOutcome(x, tx, buf1, p, res.1);
          UndoLoopFacts(x, tx, buf1, p, res.1);
          var w := UndoLoop(x, tx, buf1, p, res.1);
          assert Undo(x, L).log.buffer == w.buffer && Undo(x, L).log.position == w.position;
          assert Undo(x, L).out == Pass <==> w.ok;
          assert w.buffer[p] == buf1[p];
          forall k | w.position <= k < L.position && (w.ok || w.position < k)
            ensures CanReturn(x, L.buffer[k].undoCmd, w.buffer[k].redoCmd)
          {
            if k == p {
              assert w.buffer[p] == buf1[p];
              assert x(L.buffer[k].undoCmd, L.ds).0 == Some(w.buffer[k].redoCmd);
            } else {
              assert buf1[k] == L.buffer[k];
            }
          }
        } else {
          assert x(L.buffer[p].undoCmd, L.ds).0 == Some(buf1[p].redoCmd);
        }
      }
    }
  }

  /**
   * redo throws NullInverse only at a slot whose redo command can return no
   * inverse; the slot under the cursor, replayed first, holds the inverse
   * returned on the current datastore, and every later replayed slot an
   * inverse its redo command can return.
   */
  lemma RedoOutcome<C, D(!new)>(x: Exec<C, D>, L: Log<C, D>)
    requires WellFormed(L)
    ensures var s := Redo(x, L);
      && (s.out == Fail(NullInverse) ==>
            && !IsInTransaction(L) && L.position <= s.log.position < |L.buffer|
            && CanFail(x, L.buffer[s.log.position].redoCmd))
      && (forall k :: L.position <= k < s.log.position ==>
            CanReturn(x, L.buffer[k].redoCmd, s.log.buffer[k].undoCmd))
      && (!IsInTransaction(L) && HasRedo(L) && s.log.position > L.position ==>
            x(L.buffer[L.position].redoCmd, L.ds).0 == Some(s.log.buffer[L.position].undoCmd))
  {
    if !IsInTransaction(L) && HasRedo(L) {
      var p := L.position;
      var tx := L.buffer[p].txNb;
      var res := x(L.buffer[p].redoCmd, L.ds);
      if res.0.None? {
        assert x(L.buffer[p].redoCmd, L.ds).0.None?;
      } else {
        var buf1 := L.buffer[p := L.buffer[p].(undoCmd := res.0.value)];
        if tx != NoTx {
          RedoLoopOutcome(x, tx, buf1, p + 1, res.1);
          RedoLoopFacts(x, tx, buf1, p + 1, res.1);
          var w := RedoLoop(x, tx, buf1, p + 1, res.1);
          assert Redo(x, L).log.buffer == w.buffer && Redo(x, L).log.position == w.position;
          assert w.buffer[p] == buf1[p];
          forall k | L.position <= k < w.position
            ensures CanReturn(x, L.buffer[k].redoCmd, w.buffer[k].undoCmd)
          {
            if k == p {
              assert w.buffer[p] == buf1[p];
              assert x(L.buffer[k].redoCmd, L.ds).0 == Some(w.buffer[k].undoCmd);
            } else {
              assert buf1[k] == L.buffer[k];
            }
          }
        } else {
          assert x(L.buffer[p].redoCmd, L.ds).0 == Some(buf1[p].undoCmd);
        }
      }
    }
  }

  /** Outside a transaction, undo succeeds whenever every command returns an inverse. */
  lemma UndoSucceedsWhenTotal<C(!new), D(!new)>(x: Exec<C, D>, L: Log<C, D>)
    requires WellFormed(L) && !IsInTransaction(L) && Total(x)
    ensures Undo(x, L).out == Pass
  {
    UndoOutcome(x, L);
  }

  /** Outside a transaction, redo succeeds whenever every command returns an inverse. */
  lemma RedoSucceedsWhenTotal<C(!new), D(!new)>(x: Exec<C, D>, L: Log<C, D>)
    requires WellFormed(L) && !IsInTransaction(L) && Total(x)
    ensures Redo(x, L).out == Pass
  {
    RedoOutcome(x, L);
  }

  /** Commands whose inverse, applied right after, restores the datastore and returns the command. */
  ghost predicate Involutive<C(!new), D(!new)>(x: Exec<C, D>)
  {
    forall c, d :: x(c, d).0.Some? ==> x(x(c, d).0.value, x(c, d).1) == (Some(c), d)
  }

  /** The cursor sits after the last entry of a transaction. */
  predicate AtRunEnd<C, D>(L: Log<C, D>)
    requires WellFormed(L)
  {
    L.position == 0 || L.position == |L.buffer|
    || L.buffer[L.position - 1].txNb == NoTx
    || L.buffer[L.position].txNb != L.buffer[L.position - 1].txNb
  }

  /**
   * Replaying forward what UndoLoop undid, starting where it stopped, reaches
   * the state it started from.
   */
  lemma {:induction false} RedoRetracesUndoLoop<C(!new), D(!new)>(x: Exec<C, D>, tx: int, buf: seq<Entry<C>>, p: int, ds: D)
    requires Involutive(x) && 0 <= p <= |buf|
    requires UndoLoop(x, tx, buf, p, ds).ok
    decreases p
    ensures var w := UndoLoop(x, tx, buf, p, ds);
      RedoLoop(x, tx, w.buffer, w.position, w.ds) == RedoLoop(x, tx, w.buffer, p, ds)
  {
    if p > 0 && buf[p - 1].txNb == tx {
      var res := x(buf[p - 1].undoCmd, ds);
      var buf1 := buf[p - 1 := buf[p - 1].(redoCmd := res.0.value)];
      var w := UndoLoop(x, tx, buf1, p - 1, res.1);
      RedoRetracesUndoLoop(x, tx, buf1, p - 1, res.1);
      UndoLoopFacts(x, tx, buf1, p - 1, res.1);
      assert w.buffer[p - 1] == buf1[p - 1];
      assert x(res.0.value, res.1) == (Some(buf[p - 1].undoCmd), ds);
      assert w.buffer[p - 1 := w.buffer[p - 1].(undoCmd := buf[p - 1].undoCmd)] == w.buffer;
    }
  }

  /** Inside a transaction run, the first step of undo is one more step of its loop. */
  lemma UndoIsUndoLoop<C, D>(x: Exec<C, D>, L: Log<C, D>)
    requires WellFormed(L) && !IsInTransaction(L) && HasUndo(L)
    requires L.buffer[L.position - 1].txNb != NoTx
    ensures var w := UndoLoop(x, L.buffer[L.position - 1].txNb, L.buffer, L.position, L.ds);
      var s := Undo(x, L);
      && (s.out == Pass <==> w.ok)
      && s.log.buffer == w.buffer && s.log.position == w.position && s.log.ds == w.ds
  {
  }

  /** Inside a transaction run, the first step of redo is one more step of its loop. */
  lemma RedoIsRedoLoop<C, D>(x: Exec<C, D>, L: Log<C, D>)
    requires WellFormed(L) && !IsInTransaction(L) && HasRedo(L)
    requires L.buffer[L.position].txNb != NoTx
    ensures var w := RedoLoop(x, L.buffer[L.position].txNb, L.buffer, L.position, L.ds);
      var s := Redo(x, L);
      && (s.out == Pass <==> w.ok)
      && s.log.buffer == w.buffer && s.log.position == w.position && s.log.ds == w.ds
  {
  }

  /**
   * With commands whose inverses restore the datastore, a redo right after
   * a successful undo from the end of a transaction returns the cursor and
   * the datastore to where they were, keeping every undo command.
   */
  lemma {:induction false} UndoThenRedoRestores<C(!new), D(!new)>(x: Exec<C, D>, L: Log<C, D>)
    requires Involutive(x) && WellFormed(L)
    requires !IsInTransaction(L) && HasUndo(L) && AtRunEnd(L)
    requires Undo(x, L).out == Pass
    ensures var R := Redo(x, Undo(x, L).log);
      && R.out == Pass
      && R.log.position == L.position
      && R.log.ds == L.ds
      && |R.log.buffer| == |L.buffer|
      && forall k :: 0 <= k < |L.buffer| ==>
           R.log.buffer[k].undoCmd == L.buffer[k].undoCmd && R.log.buffer[k].txNb == L.buffer[k].txNb
  {
    var p := L.position - 1;
    var tx := L.buffer[p].txNb;
    var U := Undo(x, L).log;
    if tx == NoTx {
      var res := x(L.buffer[p].undoCmd, L.ds);
      assert x(res.0.value, res.1) == (Some(L.buffer[p].undoCmd), L.ds);
      assert U.position == p && U.ds == res.1 && U.buffer == L.buffer[p := L.buffer[p].(redoCmd := res.0.value)];
    } else {
      UndoIsUndoLoop(x, L);
      var w := UndoLoop(x, tx, L.buffer, L.position, L.ds);
      RedoRetracesUndoLoop(x, tx, L.buffer, L.position, L.ds);
      assert U.buffer[U.position].txNb == tx;
      RedoIsRedoLoop(x, U);
      assert RedoLoop(x, tx, w.buffer, L.position, L.ds) == Walk(true, w.buffer, L.position, L.ds);
    }
  }

  // ---------------------------------------------------------------------
  // Recording a command
  // ---------------------------------------------------------------------

  /** What doCommand returns besides its new state: the inverse, or None for a no-op. */
  datatype Applied<C, D> = Applied(out: Outcome<Error>, log: Log<C, D>, inverse: Option<C>)

  /** The trim doCommand performs first, outside a transaction only. */
  function PreCommand<C, D>(maxSize: int, L: Log<C, D>): (s: Step<C, D>)
    requires 2 <= maxSize && WellFormed(L)
    ensures IsInTransaction(L) ==> s == Step(Pass, L)
  {
    if IsInTransaction(L) then Step(Pass, L) else Trim(maxSize, L)
  }

  /**
   * doCommand: trims when no transaction is open, clears the redos even when
   * the command turns out to be a no-op, runs the command, and records
   * (inverse, command, current transaction) only when it returned an
   * inverse; then notifies.
   */
  function DoCommand<C, D>(maxSize: int, x: Exec<C, D>, cmd: C, L: Log<C, D>): (a: Applied<C, D>)
    requires 2 <= maxSize && WellFormed(L)
    ensures a.out == PreCommand(maxSize, L).out
    ensures a.out.Fail? ==> a.log == PreCommand(maxSize, L).log && a.inverse.None?
    ensures a.out.Pass? ==>
      var T := PreCommand(maxSize, L).log;
      && WellFormed(a.log) && !HasRedo(a.log)
      && a.inverse == x(cmd, L.ds).0 && a.log.ds == x(cmd, L.ds).1
      && a.log.currentTx == L.currentTx && a.log.nextTx == L.nextTx
      && (a.inverse.Some? ==>
            a.log.buffer == T.buffer[..T.position] + [Entry(a.inverse.value, cmd, L.currentTx)]
            && a.log.position == T.position + 1)
      && (a.inverse.None? ==> a.log.buffer == T.buffer[..T.position] && a.log.position == T.position)
  {
    var pre := PreCommand(maxSize, L);
    if pre.out.Fail? then Applied(pre.out, pre.log, None)
    else
      var L1 := ClearRedos(pre.log);
      var res := x(cmd, L1.ds);
      var L2 := if res.0.Some? then
                  L1.(buffer := L1.buffer + [Entry(res.0.value, cmd, L1.currentTx)],
                      position := L1.position + 1, ds := res.1)
                else L1.(ds := res.1);
      Applied(Pass, Fire(L2), res.0)
  }

  /**
   * When no trimming is due, recording a command keeps the undoable past
   * untouched and leaves nothing to redo; with an inverse it appends exactly
   * one entry tagged with the current transaction.
   */
  lemma DoCommandKeepsPast<C, D>(maxSize: int, x: Exec<C, D>, cmd: C, L: Log<C, D>)
    requires 2 <= maxSize && WellFormed(L)
    requires IsInTransaction(L) || |L.buffer| <= maxSize
    ensures var a := DoCommand(maxSize, x, cmd, L);
      && a.out == Pass
      && a.log.buffer[..L.position] == L.buffer[..L.position]
      && !HasRedo(a.log)
      && (a.inverse.Some? <==> a.log.position == L.position + 1)
      && (a.inverse.Some? ==> a.log.buffer[L.position] == Entry(a.inverse.value, cmd, L.currentTx))
      && (a.inverse.None? ==> a.log.position == L.position)
  {
  }

  // ---------------------------------------------------------------------
  // Transactions
  // ---------------------------------------------------------------------

  /** startTransaction: refused when one is open; trims, then opens a fresh number. */
  function StartTransaction<C, D>(maxSize: int, L: Log<C, D>): (s: Step<C, D>)
    requires 2 <= maxSize && WellFormed(L)
    ensures IsInTransaction(L) ==> s == Step(Fail(AlreadyInTransaction), L)
    ensures !IsInTransaction(L) ==> s.out == Trim(maxSize, L).out
    ensures s.out.Pass? ==>
      && WellFormed(s.log) && IsInTransaction(s.log)
      && s.log.currentTx == NextTxNb(L.nextTx) && s.log.nextTx == s.log.currentTx
      && s.log.buffer == Trim(maxSize, L).log.buffer
      && s.log.position == Trim(maxSize, L).log.position
      && s.log.ds == L.ds
    ensures !IsInTransaction(L) && s.out.Fail? ==> s.log == Trim(maxSize, L).log
  {
    if IsInTransaction(L) then Step(Fail(AlreadyInTransaction), L)
    else
      var t := Trim(maxSize, L);
      if t.out.Fail? then t
      else
        var n := NextTxNb(t.log.nextTx);
        Step(Pass, t.log.(currentTx := n, nextTx := n))
  }

  /** endTransaction: refused when none is open; closes it and changes nothing else. */
  function EndTransaction<C, D>(L: Log<C, D>): (s: Step<C, D>)
    ensures !IsInTransaction(L) ==> s == Step(Fail(NotInTransaction), L)
    ensures IsInTransaction(L) ==> s.out == Pass && !IsInTransaction(s.log)
    ensures s.log.(currentTx := L.currentTx) == L
    ensures WellFormed(L) ==> WellFormed(s.log)
  {
    if !IsInTransaction(L) then Step(Fail(NotInTransaction), L)
    else Step(Pass, L.(currentTx := NoTx))
  }

  /**
   * rollbackTransaction: closes the open transaction and, when the entry
   * behind the cursor carries its number, undoes once; then notifies.
   */
  function Rollback<C, D>(x: Exec<C, D>, L: Log<C, D>): (s: Step<C, D>)
    requires WellFormed(L)
    ensures !IsInTransaction(L) ==> s == Step(Fail(NotInTransaction), L)
    ensures WellFormed(s.log) && |s.log.buffer| == |L.buffer| && s.log.nextTx == L.nextTx
    ensures IsInTransaction(L) ==> !IsInTransaction(s.log)
    ensures IsInTransaction(L) && !(HasUndo(L) && L.buffer[L.position - 1].txNb == L.currentTx) ==>
      s.out == Pass
      && s.log.buffer == L.buffer && s.log.position == L.position && s.log.ds == L.ds
    ensures IsInTransaction(L) && HasUndo(L) && L.buffer[L.position - 1].txNb == L.currentTx
            && s.out == Pass ==>
      && HasRedo(s.log)
      && s.log.position < L.position
      && (forall k :: s.log.position <= k < L.position ==> L.buffer[k].txNb == L.currentTx)
      && (s.log.position == 0 || L.buffer[s.log.position - 1].txNb != L.currentTx)
  {
    var closing := L.currentTx;
    var e := EndTransaction(L);
    if e.out.Fail? then e
    else
      var L1 := e.log;
      var u := if L1.position > 0 && L1.buffer[L1.position - 1].txNb == closing
               then Undo(x, L1) else Step(Pass, L1);
      if u.out.Fail? then u else Step(Pass, Fire(u.log))
  }

  /**
   * When the entry behind the cursor belongs to the transaction being rolled
   * back, rollback is an undo of the closed log: same outcome, history,
   * cursor and datastore.
   */
  lemma RollbackIsUndo<C, D>(x: Exec<C, D>, L: Log<C, D>)
    requires WellFormed(L) && IsInTransaction(L)
    requires HasUndo(L) && L.buffer[L.position - 1].txNb == L.currentTx
    ensures var u := Undo(x, L.(currentTx := NoTx));
      var s := Rollback(x, L);
      && s.out == u.out && !IsInTransaction(s.log)
      && s.log.buffer == u.log.buffer && s.log.position == u.log.position && s.log.ds == u.log.ds
  {
  }

  /** Inside a transaction, rollback succeeds whenever every command returns an inverse. */
  lemma RollbackSucceedsWhenTotal<C(!new), D(!new)>(x: Exec<C, D>, L: Log<C, D>)
    requires WellFormed(L) && IsInTransaction(L) && Total(x)
    ensures Rollback(x, L).out == Pass
  {
    UndoSucceedsWhenTotal(x, L.(currentTx := NoTx));
  }

  /** bulkAppend always throws and changes nothing. */
  function BulkAppend<C, D>(L: Log<C, D>): (s: Step<C, D>)
    ensures s.out.Fail? && s.log == L
  {
    Step(Fail(Unsupported), L)
  }
  // ---------------------------------------------------------------------
  // Datastore round trips
  // ---------------------------------------------------------------------

  /** Commands that return no inverse leave the datastore as it was. */
  ghost predicate NullIsNoOp<C(!new), D(!new)>(x: Exec<C, D>)
  {
    forall c, d :: x(c, d).0.None? ==> x(c, d).1 == d
  }

  /**
   * With commands whose inverses restore the datastore, recording a command
   * outside a transaction and then undoing it restores the datastore and the
   * cursor; a redo then reapplies the command.
   */
  lemma DoThenUndoRestores<C(!new), D(!new)>(maxSize: int, x: Exec<C, D>, cmd: C, L: Log<C, D>)
    requires 2 <= maxSize && WellFormed(L) && Involutive(x)
    requires !IsInTransaction(L) && |L.buffer| <= maxSize && x(cmd, L.ds).0.Some?
    ensures var a := DoCommand(maxSize, x, cmd, L);
      var u := Undo(x, a.log);
      && u.out == Pass && u.log.ds == L.ds && u.log.position == L.position
      && Redo(x, u.log).out == Pass && Redo(x, u.log).log.ds == a.log.ds
      && Redo(x, u.log).log.position == a.log.position
  {
    var a := DoCommand(maxSize, x, cmd, L);
    assert x(a.inverse.value, a.log.ds) == (Some(cmd), L.ds);
    UndoThenRedoRestores(x, a.log);
  }

  /**
   * doCommand called for each command in turn, stopping at the first call
   * that throws; inside a transaction none throws.
   */
  function DoAll<C, D>(maxSize: int, x: Exec<C, D>, cmds: seq<C>, L: Log<C, D>): (s: Step<C, D>)
    requires 2 <= maxSize && WellFormed(L)
    decreases |cmds|
    ensures IsInTransaction(L) ==> s.out == Pass
    ensures s.out.Pass? ==> WellFormed(s.log) && s.log.currentTx == L.currentTx && s.log.nextTx == L.nextTx
  {
    if cmds == [] then Step(Pass, L)
    else
      var s0 := DoAll(maxSize, x, cmds[..|cmds| - 1], L);
      if s0.out.Fail? then s0
      else
        var a := DoCommand(maxSize, x, cmds[|cmds| - 1], s0.log);
        Step(a.out, a.log)
  }

  /** The undo loop's outcome, stopping point and datastore depend only on the slots behind the cursor. */
  lemma {:induction false} UndoLoopPrefix<C, D>(x: Exec<C, D>, tx: int, b1: seq<Entry<C>>, b2: seq<Entry<C>>, p: int, ds: D)
    requires 0 <= p <= |b1| && p <= |b2| && b1[..p] == b2[..p]
    decreases p
    ensures var w1 := UndoLoop(x, tx, b1, p, ds);
      var w2 := UndoLoop(x, tx, b2, p, ds);
      w1.ok == w2.ok && w1.position == w2.position && w1.ds == w2.ds
  {
    if p > 0 {
      assert b1[p - 1] == b1[..p][p - 1] == b2[p - 1];
      if b1[p - 1].txNb == tx {
        var res := x(b1[p - 1].undoCmd, ds);
        if res.0.Some? {
          var c1 := b1[p - 1 := b1[p - 1].(redoCmd := res.0.value)];
          var c2 := b2[p - 1 := b2[p - 1].(redoCmd := res.0.value)];
          assert c1[..p - 1] == b1[..p - 1] == b2[..p - 1] == c2[..p - 1];
          UndoLoopPrefix(x, tx, c1, c2, p - 1, res.1);
        }
      }
    }
  }

  /**
   * The log `R`, reached from `S` inside transaction `tx`, keeps the history
   * behind S's cursor, and one walk of the undo loop leads from R back to
   * S's cursor and datastore.
   */
  ghost predicate Unwound<C(!new), D(!new)>(x: Exec<C, D>, tx: int, S: Log<C, D>, R: Log<C, D>)
    requires WellFormed(S) && WellFormed(R)
  {
    var w := UndoLoop(x, tx, R.buffer, R.position, R.ds);
    && R.position >= S.position
    && R.buffer[..S.position] == S.buffer[..S.position]
    && w.ok && w.position == S.position && w.ds == S.ds
  }

  /** One more command inside the transaction: the undo loop over the new entry unwinds it first. */
  lemma UnwindStep<C(!new), D(!new)>(maxSize: int, x: Exec<C, D>, cmd: C, S: Log<C, D>, R: Log<C, D>)
    requires 2 <= maxSize && WellFormed(S) && WellFormed(R) && IsInTransaction(R)
    requires Involutive(x) && NullIsNoOp(x)
    requires Unwound(x, R.currentTx, S, R)
    ensures var a := DoCommand(maxSize, x, cmd, R).log;
      Unwound(x, R.currentTx, S, a) && !HasRedo(a)
  {
    var tx := R.currentTx;
    var a := DoCommand(maxSize, x, cmd, R).log;
    var base := R.buffer[..R.position];
    var res := x(cmd, R.ds);
    if res.0.None? {
      assert a.buffer == base && a.position == R.position && a.ds == R.ds;
      UndoLoopPrefix(x, tx, a.buffer, R.buffer, R.position, R.ds);
    } else {
      var e := Entry(res.0.value, cmd, tx);
      assert a.buffer == base + [e] && a.position == R.position + 1 && a.ds == res.1;
      assert x(res.0.value, res.1) == (Some(cmd), R.ds);
      assert a.buffer[R.position := a.buffer[R.position].(redoCmd := cmd)] == a.buffer;
      assert UndoLoop(x, tx, a.buffer, a.position, a.ds) == UndoLoop(x, tx, a.buffer, R.position, R.ds);
      assert a.buffer[..R.position] == base;
      UndoLoopPrefix(x, tx, a.buffer, R.buffer, R.position, R.ds);
    }
    assert a.buffer[..S.position] == base[..S.position];
  }

  /**
   * The commands of a transaction, undone by one walk of the undo loop from
   * the cursor, restore the datastore and the cursor of the transaction's
   * start, provided the entry behind that cursor belongs to another
   * transaction.
   */
  lemma {:induction false} TransactionUnwinds<C(!new), D(!new)>(maxSize: int, x: Exec<C, D>, cmds: seq<C>, S: Log<C, D>)
    requires 2 <= maxSize && WellFormed(S) && IsInTransaction(S)
    requires Involutive(x) && NullIsNoOp(x)
    requires S.position == 0 || S.buffer[S.position - 1].txNb != S.currentTx
    decreases |cmds|
    ensures var R := DoAll(maxSize, x, cmds, S).log;
      Unwound(x, S.currentTx, S, R) && (cmds != [] ==> !HasRedo(R))
  {
    if cmds != [] {
      var init := cmds[..|cmds| - 1];
      var R0 := DoAll(maxSize, x, init, S).log;
      TransactionUnwinds(maxSize, x, init, S);
      UnwindStep(maxSize, x, cmds[|cmds| - 1], S, R0);
    }
  }

  /** With no trimming due, startTransaction keeps the history, the cursor and the datastore. */
  lemma StartKeepsHistory<C, D>(maxSize: int, L: Log<C, D>)
    requires 2 <= maxSize && WellFormed(L) && !IsInTransaction(L) && |L.buffer| <= maxSize
    ensures var S := StartTransaction(maxSize, L);
      && S.out == Pass && IsInTransaction(S.log) && S.log.currentTx == NextTxNb(L.nextTx)
      && S.log.buffer == L.buffer && S.log.position == L.position && S.log.ds == L.ds
  {
  }

  /** Rolling back a log that unwinds to `S` returns to S's cursor and datastore. */
  lemma RollbackUnwinds<C(!new), D(!new)>(x: Exec<C, D>, S: Log<C, D>, R: Log<C, D>)
    requires WellFormed(S) && WellFormed(R) && IsInTransaction(R)
    requires Unwound(x, R.currentTx, S, R)
    requires S.position == 0 || S.buffer[S.position - 1].txNb != R.currentTx
    ensures var b := Rollback(x, R);
      b.out == Pass && b.log.ds == S.ds && b.log.position == S.position && !IsInTransaction(b.log)
  {
    var tx := R.currentTx;
    if R.position > S.position {
      UndoLoopFacts(x, tx, R.buffer, R.position, R.ds);
      RollbackIsUndo(x, R);
      UndoIsUndoLoop(x, R.(currentTx := NoTx));
    } else if S.position > 0 {
      var k := S.position - 1;
      assert R.buffer[..S.position][k] == S.buffer[..S.position][k];
    }
  }

  /**
   * A transaction opened with no trimming due and filled with commands whose
   * inverses restore the datastore is rolled back as a whole: the datastore
   * and cursor return to those of before startTransaction. The entry behind
   * the starting cursor must not carry the new transaction's number, which
   * can only happen after the numbers wrap.
   */
  lemma RollbackRestores<C(!new), D(!new)>(maxSize: int, x: Exec<C, D>, cmds: seq<C>, L: Log<C, D>)
    requires 2 <= maxSize && WellFormed(L) && !IsInTransaction(L) && |L.buffer| <= maxSize
    requires Involutive(x) && NullIsNoOp(x)
    requires L.position == 0 || L.buffer[L.position - 1].txNb != NextTxNb(L.nextTx)
    ensures StartTransaction(maxSize, L).out == Pass
    ensures var R := DoAll(maxSize, x, cmds, StartTransaction(maxSize, L).log).log;
      var b := Rollback(x, R);
      b.out == Pass && b.log.ds == L.ds && b.log.position == L.position && !IsInTransaction(b.log)
  {
    StartKeepsHistory(maxSize, L);
    var S := StartTransaction(maxSize, L).log;
    TransactionUnwinds(maxSize, x, cmds, S);
    RollbackUnwinds(x, S, DoAll(maxSize, x, cmds, S).log);
  }

  /**
   * Under the same conditions, once the transaction is closed, one undo
   * reverts all of its commands, restoring the datastore and cursor of
   * before startTransaction, and one redo then reapplies them all.
   */
  lemma TransactionUndoRedo<C(!new), D(!new)>(maxSize: int, x: Exec<C, D>, cmds: seq<C>, L: Log<C, D>)
    requires 2 <= maxSize && WellFormed(L) && !IsInTransaction(L) && |L.buffer| <= maxSize
    requires Involutive(x) && NullIsNoOp(x)
    requires L.position == 0 || L.buffer[L.position - 1].txNb != NextTxNb(L.nextTx)
    ensures StartTransaction(maxSize, L).out == Pass
    ensures var R := DoAll(maxSize, x, cmds, StartTransaction(maxSize, L).log).log;
      var E := EndTransaction(R).log;
      var U := Undo(x, E);
      R.position > L.position ==>
        && U.out == Pass && U.log.ds == L.ds && U.log.position == L.position
        && Redo(x, U.log).out == Pass && Redo(x, U.log).log.ds == R.ds
        && Redo(x, U.log).log.position == R.position
  {
    StartKeepsHistory(maxSize, L);
    var S := StartTransaction(maxSize, L).log;
    var tx := S.currentTx;
    TransactionUnwinds(maxSize, x, cmds, S);
    var R := DoAll(maxSize, x, cmds, S).log;
    var E := EndTransaction(R).log;
    if R.position > S.position {
      UndoLoopFacts(x, tx, R.buffer, R.position, R.ds);
      UndoIsUndoLoop(x, E);
      UndoThenRedoRestores(x, E);
    }
  }

  // ---------------------------------------------------------------------
  // A sequence of commands outside a transaction
  // ---------------------------------------------------------------------

  /** The datastore after applying the commands in turn to `d`. */
  function Replay<C, D>(x: Exec<C, D>, cmds: seq<C>, d: D): D
    decreases |cmds|
  {
    if cmds == [] then d else x(cmds[|cmds| - 1], Replay(x, cmds[..|cmds| - 1], d)).1
  }

  /** Every command returns an inverse on the datastore it meets. */
  predicate ReturnsAll<C, D>(x: Exec<C, D>, cmds: seq<C>, d: D)
  {
    forall i :: 0 <= i < |cmds| ==> x(cmds[i], Replay(x, cmds[..i], d)).0.Some?
  }

  lemma ReplaySnoc<C, D>(x: Exec<C, D>, cmds: seq<C>, i: int, d: D)
    requires 0 <= i < |cmds|
    ensures Replay(x, cmds[..i + 1], d) == x(cmds[i], Replay(x, cmds[..i], d)).1
  {
    assert cmds[..i + 1][..i] == cmds[..i];
  }

  lemma ReturnsAllPrefix<C, D>(x: Exec<C, D>, cmds: seq<C>, n: int, d: D)
    requires ReturnsAll(x, cmds, d) && 0 <= n <= |cmds|
    ensures ReturnsAll(x, cmds[..n], d)
  {
    forall i | 0 <= i < n
      ensures x(cmds[..n][i], Replay(x, cmds[..n][..i], d)).0.Some?
    {
      assert cmds[..n][..i] == cmds[..i];
    }
  }

  /**
   * `M` stands `j` commands into `cmds`, recorded one by one from `L`
   * outside a transaction: from L's cursor on, the history holds one entry
   * per command, with the inverse it returned on the datastore it met, and
   * M's cursor and datastore are those after the first `j` commands.
   */
  ghost predicate Stacked<C, D>(x: Exec<C, D>, cmds: seq<C>, L: Log<C, D>, M: Log<C, D>, j: int)
  {
    && WellFormed(M) && !IsInTransaction(M) && M.nextTx == L.nextTx
    && 0 <= j <= |cmds|
    && M.position == L.position + j && M.ds == Replay(x, cmds[..j], L.ds)
    && Holds(x, cmds, L, M.buffer)
  }

  /** From L's cursor on, `buf` holds one entry per command of `cmds`. */
  ghost predicate Holds<C, D>(x: Exec<C, D>, cmds: seq<C>, L: Log<C, D>, buf: seq<Entry<C>>)
  {
    && 0 <= L.position && L.position + |cmds| <= |buf|
    && forall i :: 0 <= i < |cmds| ==> Recorded(x, cmds, L, buf, i)
  }

  /**
   * Slot L.position + i of `buf` records command i with the inverse it
   * returned on the datastore it met.
   */
  ghost predicate Recorded<C, D>(x: Exec<C, D>, cmds: seq<C>, L: Log<C, D>, buf: seq<Entry<C>>, i: int)
    requires 0 <= i < |cmds| && 0 <= L.position && L.position + |cmds| <= |buf|
  {
    var r := x(cmds[i], Replay(x, cmds[..i], L.ds));
    r.0.Some? && buf[L.position + i] == Entry(r.0.value, cmds[i], NoTx)
  }

  /** Outside a transaction and with no trimming due, a command that returns an inverse appends one entry. */
  lemma RecordOne<C, D>(maxSize: int, x: Exec<C, D>, cmd: C, M: Log<C, D>)
    requires 2 <= maxSize && WellFormed(M) && !IsInTransaction(M) && |M.buffer| <= maxSize
    requires x(cmd, M.ds).0.Some?
    ensures var a := DoCommand(maxSize, x, cmd, M);
      && a.out == Pass && WellFormed(a.log) && !IsInTransaction(a.log) && a.log.nextTx == M.nextTx
      && a.log.buffer == M.buffer[..M.position] + [Entry(x(cmd, M.ds).0.value, cmd, NoTx)]
      && a.log.position == M.position + 1 && a.log.ds == x(cmd, M.ds).1
  {
  }

  /** Appending the entry of the next command to a history that holds the others. */
  lemma HoldsSnoc<C, D>(x: Exec<C, D>, cmds: seq<C>, L: Log<C, D>, buf: seq<Entry<C>>, e: Entry<C>)
    requires cmds != [] && Holds(x, cmds[..|cmds| - 1], L, buf)
    requires L.position + |cmds| - 1 <= |buf|
    requires var n := |cmds| - 1;
      var r := x(cmds[n], Replay(x, cmds[..n], L.ds));
      r.0.Some? && e == Entry(r.0.value, cmds[n], NoTx)
    ensures Holds(x, cmds, L, buf[..L.position + |cmds| - 1] + [e])
  {
    var n := |cmds| - 1;
    var init := cmds[..n];
    var b := buf[..L.position + n] + [e];
    forall i | 0 <= i < |cmds|
      ensures Recorded(x, cmds, L, b, i)
    {
      if i < n {
        assert Recorded(x, init, L, buf, i);
        assert init[i] == cmds[i] && init[..i] == cmds[..i];
        assert b[L.position + i] == buf[L.position + i];
      }
    }
  }

  /** A log that appends the next command's entry to a stack of the others stacks all of them. */
  lemma StackedSnoc<C, D>(x: Exec<C, D>, cmds: seq<C>, L: Log<C, D>, M: Log<C, D>, A: Log<C, D>)
    requires cmds != [] && Stacked(x, cmds[..|cmds| - 1], L, M, |cmds| - 1)
    requires var r := x(cmds[|cmds| - 1], M.ds);
      && r.0.Some? && WellFormed(A) && !IsInTransaction(A) && A.nextTx == M.nextTx
      && A.buffer == M.buffer[..M.position] + [Entry(r.0.value, cmds[|cmds| - 1], NoTx)]
      && A.position == M.position + 1 && A.ds == r.1
    ensures Stacked(x, cmds, L, A, |cmds|)
  {
    var n := |cmds| - 1;
    assert M.ds == Replay(x, cmds[..n], L.ds) by { assert cmds[..n][..n] == cmds[..n]; }
    ReplaySnoc(x, cmds, n, L.ds);
    assert cmds[..n + 1] == cmds;
    HoldsSnoc(x, cmds, L, M.buffer, A.buffer[M.position]);
  }

  /** Recording the commands one by one, with no trimming due, stacks one entry per command. */
  lemma {:induction false} DoAllStacks<C, D>(maxSize: int, x: Exec<C, D>, cmds: seq<C>, L: Log<C, D>)
    requires 2 <= maxSize && WellFormed(L) && !IsInTransaction(L)
    requires |L.buffer| <= maxSize && L.position + |cmds| <= maxSize
    requires ReturnsAll(x, cmds, L.ds)
    decreases |cmds|
    ensures var D := DoAll(maxSize, x, cmds, L);
      && D.out == Pass && Stacked(x, cmds, L, D.log, |cmds|)
      && (cmds != [] ==> |D.log.buffer| == L.position + |cmds|)
  {
    if cmds == [] {
      assert cmds[..0] == [];
    } else {
      var n := |cmds| - 1;
      var init := cmds[..n];
      ReturnsAllPrefix(x, cmds, n, L.ds);
      DoAllStacks(maxSize, x, init, L);
      var M := DoAll(maxSize, x, init, L).log;
      assert x(cmds[n], M.ds).0.Some? by { assert init[..n] == init; }
      RecordOne(maxSize, x, cmds[n], M);
      StackedSnoc(x, cmds, L, M, DoCommand(maxSize, x, cmds[n], M).log);
    }
  }

  /** Undo one entry of the stack: back to the state before its command. */
  lemma UndoPops<C(!new), D(!new)>(x: Exec<C, D>, cmds: seq<C>, L: Log<C, D>, M: Log<C, D>, j: int)
    requires Involutive(x) && Stacked(x, cmds, L, M, j) && 0 < j
    ensures var u := Undo(x, M);
      u.out == Pass && u.log.buffer == M.buffer && Stacked(x, cmds, L, u.log, j - 1)
  {
    var i := j - 1;
    var d := Replay(x, cmds[..i], L.ds);
    ReplaySnoc(x, cmds, i, L.ds);
    var r := x(cmds[i], d);
    assert Recorded(x, cmds, L, M.buffer, i);
    assert x(r.0.value, r.1) == (Some(cmds[i]), d);
    assert M.buffer[M.position - 1 := M.buffer[M.position - 1].(redoCmd := cmds[i])] == M.buffer;
  }

  /** Redo one entry of the stack: forward to the state after its command. */
  lemma RedoPushes<C, D>(x: Exec<C, D>, cmds: seq<C>, L: Log<C, D>, M: Log<C, D>, j: int)
    requires Stacked(x, cmds, L, M, j) && j < |cmds|
    ensures var u := Redo(x, M);
      u.out == Pass && u.log.buffer == M.buffer && Stacked(x, cmds, L, u.log, j + 1)
  {
    var d := Replay(x, cmds[..j], L.ds);
    ReplaySnoc(x, cmds, j, L.ds);
    var r := x(cmds[j], d);
    assert Recorded(x, cmds, L, M.buffer, j);
    assert M.buffer[M.position := M.buffer[M.position].(undoCmd := r.0.value)] == M.buffer;
  }

  /** undo called `k` times, stopping at the first call that throws. */
  function UndoN<C, D>(x: Exec<C, D>, k: nat, L: Log<C, D>): (s: Step<C, D>)
    requires WellFormed(L)
    decreases k
    ensures WellFormed(s.log) && |s.log.buffer| == |L.buffer| && s.log.position <= L.position
  {
    if k == 0 then Step(Pass, L)
    else
      var u := Undo(x, L);
      if u.out.Fail? then u else UndoN(x, k - 1, u.log)
  }

  /** redo called `k` times, stopping at the first call that throws. */
  function RedoN<C, D>(x: Exec<C, D>, k: nat, L: Log<C, D>): (s: Step<C, D>)
    requires WellFormed(L)
    decreases k
    ensures WellFormed(s.log) && |s.log.buffer| == |L.buffer| && s.log.position >= L.position
  {
    if k == 0 then Step(Pass, L)
    else
      var u := Redo(x, L);
      if u.out.Fail? then u else RedoN(x, k - 1, u.log)
  }

  lemma {:induction false} UndoNPops<C(!new), D(!new)>(x: Exec<C, D>, cmds: seq<C>, L: Log<C, D>, M: Log<C, D>, j: int, k: nat)
    requires Involutive(x) && Stacked(x, cmds, L, M, j) && k <= j
    decreases k
    ensures var u := UndoN(x, k, M);
      u.out == Pass && u.log.buffer == M.buffer && Stacked(x, cmds, L, u.log, j - k)
  {
    if k > 0 {
      UndoPops(x, cmds, L, M, j);
      UndoNPops(x, cmds, L, Undo(x, M).log, j - 1, k - 1);
    }
  }

  lemma {:induction false} RedoNPushes<C, D>(x: Exec<C, D>, cmds: seq<C>, L: Log<C, D>, M: Log<C, D>, j: int, k: nat)
    requires Stacked(x, cmds, L, M, j) && j + k <= |cmds|
    decreases k
    ensures var u := RedoN(x, k, M);
      u.out == Pass && u.log.buffer == M.buffer && Stacked(x, cmds, L, u.log, j + k)
  {
    if k > 0 {
      RedoPushes(x, cmds, L, M, j);
      RedoNPushes(x, cmds, L, Redo(x, M).log, j + 1, k - 1);
    }
  }

  /**
   * Commands recorded one by one outside a transaction, each returning an
   * inverse and with no trimming due, are undone one at a time: k undos
   * lead to the datastore and cursor of before the last k commands.
   */
  lemma UndoesOneAtATime<C(!new), D(!new)>(maxSize: int, x: Exec<C, D>, cmds: seq<C>, L: Log<C, D>, k: nat)
    requires 2 <= maxSize && WellFormed(L) && !IsInTransaction(L) && Involutive(x)
    requires |L.buffer| <= maxSize && L.position + |cmds| <= maxSize
    requires ReturnsAll(x, cmds, L.ds) && k <= |cmds|
    ensures DoAll(maxSize, x, cmds, L).out == Pass && DoAll(maxSize, x, cmds[..|cmds| - k], L).out == Pass
    ensures var D := DoAll(maxSize, x, cmds, L);
      var P := DoAll(maxSize, x, cmds[..|cmds| - k], L);
      var U := UndoN(x, k, D.log);
      U.out == Pass && U.log.ds == P.log.ds && U.log.position == P.log.position
  {
    var j := |cmds| - k;
    DoAllStacks(maxSize, x, cmds, L);
    UndoNPops(x, cmds, L, DoAll(maxSize, x, cmds, L).log, |cmds|, k);
    ReturnsAllPrefix(x, cmds, j, L.ds);
    DoAllStacks(maxSize, x, cmds[..j], L);
    assert cmds[..j][..j] == cmds[..j];
  }

  /**
   * The whole sequence, undone as many times as there were commands,
   * returns the datastore and cursor of before the first command; as many
   * redos then reach the datastore, cursor and history after the last.
   */
  lemma SequenceUndoRedo<C(!new), D(!new)>(maxSize: int, x: Exec<C, D>, cmds: seq<C>, L: Log<C, D>)
    requires 2 <= maxSize && WellFormed(L) && !IsInTransaction(L) && Involutive(x)
    requires |L.buffer| <= maxSize && L.position + |cmds| <= maxSize
    requires ReturnsAll(x, cmds, L.ds)
    ensures DoAll(maxSize, x, cmds, L).out == Pass
    ensures var D := DoAll(maxSize, x, cmds, L);
      var U := UndoN(x, |cmds|, D.log);
      var R := RedoN(x, |cmds|, U.log);
      && D.log.position == L.position + |cmds| && D.log.ds == Replay(x, cmds, L.ds)
      && U.out == Pass && U.log.ds == L.ds && U.log.position == L.position
      && R.out == Pass && R.log.ds == D.log.ds && R.log.position == D.log.position
      && R.log.buffer == D.log.buffer
  {
    var D := DoAll(maxSize, x, cmds, L);
    DoAllStacks(maxSize, x, cmds, L);
    UndoNPops(x, cmds, L, D.log, |cmds|, |cmds|);
    var U := UndoN(x, |cmds|, D.log);
    RedoNPushes(x, cmds, L, U.log, 0, |cmds|);
    assert cmds[..|cmds|] == cmds && cmds[..0] == [];
  }
}
