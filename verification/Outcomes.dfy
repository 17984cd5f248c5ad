/** Why transactions abort, and what an aborted or finished transaction leaves behind. */
module Outcomes {
  import opened Basics
  import opened Protocol
  import opened Invariant
  import opened Preservation
  import opened Publication
  import opened Snapshots

  // ---------------------------------------------------------------- rollback

  /** The assertion in rollback never fails, and no read ever falls off its chain. */
  lemma NeverPanics(st: State, t: TxId)
    requires Reachable(st) && t in st.txs
    ensures st.txs[t].pc != Panicked && st.txs[t].pc != Running(InvalidLogicalAddress)
  {
    ReachableInv(st);
    assert TxOk(st, t, st.txs[t]);
  }

  /** Each swap of an abort puts back the pointer that was replaced, the newest committed object. */
  lemma RollbackRestores(st: State, t: TxId)
    requires Reachable(st) && t in st.txs && DoRollbackOne(st, t).Some?
    ensures var w, st' := st.txs[t].writeset[st.txs[t].pc.i], DoRollbackOne(st, t).value;
      && w.dst in st.slots && st.slots[w.dst] == w.copy && VerAt(st, w.copy) == 0
      && st'.slots == st.slots[w.dst := w.current]
      && st'.txs[t].pc == RollingBack(st.txs[t].pc.i + 1)
      && w.current == Newest(st.base, st.hist, |st.hist|, w.dst) && VerAt(st', w.current) > 0
  {
    ReachableInv(st);
    RollbackFindsCopy(st, t);
    InstalledIsUncommitted(st, t, st.txs[t].pc.i);
    NewestIsCommitted(st, |st.hist|, st.txs[t].writeset[st.txs[t].pc.i].dst);
    assert VerAt(DoRollbackOne(st, t).value, st.txs[t].writeset[st.txs[t].pc.i].current)
        == VerAt(st, st.txs[t].writeset[st.txs[t].pc.i].current);
  }

  /** No stuck latch: a finished transaction heads a cell only with a committed object. */
  lemma FinishedHoldsNoLatch(st: State, t: TxId, x: Slot)
    requires Reachable(st) && t in st.txs && st.txs[t].pc.Finished? && x in st.slots
    ensures forall i :: 0 <= i < |st.txs[t].writeset| && st.txs[t].writeset[i].copy == st.slots[x] ==>
      st.txs[t].pc.committed && VerAt(st, st.slots[x]) > 0
  {
    ReachableInv(st);
    assert TxOk(st, t, st.txs[t]) && HeadOk(st, x);
    forall i | 0 <= i < |st.txs[t].writeset| && st.txs[t].writeset[i].copy == st.slots[x]
      ensures st.txs[t].pc.committed && VerAt(st, st.slots[x]) > 0 {
      assert WriteOk(st, t, st.txs[t], i);
      NewestIsCommitted(st, |st.hist|, x);
    }
  }

  // ---------------------------------------------------------------- conflicts

  /** The cell is latched, or its head is newer than the snapshot. */
  predicate Conflict(st: State, a: Addr, snapshot: nat) {
    VerAt(st, a) == 0 || VerAt(st, a) > snapshot
  }

  /** The swap of a write fails exactly when another transaction latched or committed the cell. */
  lemma InstallFailsOnConflict(st: State, t: TxId)
    requires Reachable(st) && t in st.txs && DoInstallCopy(st, t).Some?
    ensures DoInstallCopy(st, t).value.txs[t].pc == Running(TxAborted)
            <==> Conflict(st, st.slots[st.txs[t].pc.x], st.txs[t].snapshot)
  {
    ReachableInv(st);
    var tx := st.txs[t];
    assert TxOk(st, t, tx);
    var a := st.slots[tx.pc.x];
    NewestIsCommitted(st, tx.begunAt, tx.pc.x);
    CommittedWithinSnapshot(st, t, tx.pc.x);
    if a != tx.pc.a && VerAt(st, a) > 0 {
      CommittedHeadIsNewest(st, tx.pc.x);
      NewestBetween(st, tx.begunAt, |st.hist|, tx.pc.x);
    }
  }

  /** The object a cell had when the snapshot was taken is within the snapshot. */
  lemma CommittedWithinSnapshot(st: State, t: TxId, x: Slot)
    requires Inv(st) && t in st.txs && x in st.slots && st.txs[t].begunAt <= |st.hist|
    ensures VerAt(st, Newest(st.base, st.hist, st.txs[t].begunAt, x)) <= st.txs[t].snapshot
  {
    assert TxOk(st, t, st.txs[t]);
    NewestWithin(st, st.txs[t].begunAt, x, st.txs[t].snapshot);
  }

  lemma {:induction false} NewestWithin(st: State, j: nat, x: Slot, bound: nat)
    requires BaseOk(st) && HistHeap(st) && j <= |st.hist| && x in st.slots && 1 <= bound
    requires forall k :: 0 <= k < j ==> st.hist[k].version <= bound
    ensures VerAt(st, Newest(st.base, st.hist, j, x)) <= bound
  {
    if j > 0 {
      if x in st.hist[j - 1].objs {
        assert EntryObject(st, j - 1, x);
      } else {
        NewestWithin(st, j - 1, x, bound);
      }
    }
  }

  /** Between its load and its test a write at most allocates its log word; the others do anything. */
  predicate BetweenLoadAndTest(ls: seq<Label>, t: TxId) {
    forall i :: 0 <= i < |ls| && ls[i].t == t ==> ls[i].AllocLog?
  }

  lemma {:induction false} StaysLoaded(st: State, ls: seq<Label>, t: TxId)
    requires t in st.txs && st.txs[t].pc.Loaded? && Run(st, ls).Some? && BetweenLoadAndTest(ls, t)
    ensures t in Run(st, ls).value.txs
    ensures Run(st, ls).value.txs[t].pc == st.txs[t].pc
    decreases |ls|
  {
    if |ls| > 0 {
      var prev, l := ls[..|ls| - 1], ls[|ls| - 1];
      assert forall i :: 0 <= i < |prev| ==> prev[i] == ls[i];
      StaysLoaded(st, prev, t);
      KeepsLoaded(Run(st, prev).value, l, t);
    }
  }

  lemma KeepsLoaded(st: State, l: Label, t: TxId)
    requires t in st.txs && st.txs[t].pc.Loaded? && Step(st, l).Some? && (l.t == t ==> l.AllocLog?)
    ensures t in Step(st, l).value.txs && Step(st, l).value.txs[t].pc == st.txs[t].pc
  {
    if l.t == t {
      assert Step(st, l) == DoAllocLog(st, t, l.a);
    }
  }

  /**
   The test of a write fails exactly when the head that it loaded was latched or newer than its
   snapshot at the moment of the load, whatever others do before the test.
   */
  lemma CheckFailsOnConflict(st: State, t: TxId, x: Slot, ls: seq<Label>)
    requires Reachable(st) && t in st.txs && DoLoadHead(st, t, x).Some?
    requires Run(DoLoadHead(st, t, x).value, ls).Some? && BetweenLoadAndTest(ls, t)
    ensures var st2 := Run(DoLoadHead(st, t, x).value, ls).value;
      && t in st2.txs && (DoCheckHead(st2, t).Some? <==> st2.txs[t].log.Some?)
      && (DoCheckHead(st2, t).Some? ==>
            DoCheckHead(st2, t).value.txs[t].pc
              == if Conflict(st, st.slots[x], st.txs[t].snapshot) then Running(TxAborted) else Checked(x, st.slots[x]))
  {
    ReachableInv(st);
    KeepLoadHead(st, t, x);
    var st1 := DoLoadHead(st, t, x).value;
    StaysLoaded(st1, ls, t);
    VisibilityIsFixed(st1, ls, t, st.slots[x]);
    assert VerAt(st1, st.slots[x]) == VerAt(st, st.slots[x]);
    TestDecides(Run(st1, ls).value, t);
  }

  lemma TestDecides(st: State, t: TxId)
    requires t in st.txs && st.txs[t].pc.Loaded?
    ensures DoCheckHead(st, t).Some? <==> st.txs[t].log.Some?
    ensures DoCheckHead(st, t).Some? ==>
      DoCheckHead(st, t).value.txs[t].pc
        == if Accepts(st, st.txs[t].pc.a, st.txs[t].snapshot) then Checked(st.txs[t].pc.x, st.txs[t].pc.a)
          else Running(TxAborted)
  {
  }

  lemma {:induction false} OthersLeaveTx(st: State, ls: seq<Label>, t: TxId)
    requires t in st.txs && Run(st, ls).Some? && forall i :: 0 <= i < |ls| ==> ls[i].t != t
    ensures t in Run(st, ls).value.txs && Run(st, ls).value.txs[t] == st.txs[t]
    decreases |ls|
  {
    if |ls| > 0 {
      OthersLeaveTx(st, ls[..|ls| - 1], t);
    }
  }

  /** The same for `read_for_write`: it aborts exactly on a conflict of the head that it loaded. */
  lemma StrictReadFailsOnConflict(st: State, t: TxId, x: Slot, ls: seq<Label>)
    requires Reachable(st) && t in st.txs && DoStartRead(st, t, x, true).Some?
    requires Run(DoStartRead(st, t, x, true).value, ls).Some? && forall i :: 0 <= i < |ls| ==> ls[i].t != t
    ensures var st2 := Run(DoStartRead(st, t, x, true).value, ls).value;
      && t in st2.txs && DoHop(st2, t).Some?
      && DoHop(st2, t).value.txs[t].pc
           == Running(if Conflict(st, st.slots[x], st.txs[t].snapshot) then TxAborted else Fine)
  {
    ReachableInv(st);
    KeepStartRead(st, t, x, true);
    var st1 := DoStartRead(st, t, x, true).value;
    OthersLeaveTx(st1, ls, t);
    VisibilityIsFixed(st1, ls, t, st.slots[x]);
    assert VerAt(st1, st.slots[x]) == VerAt(st, st.slots[x]);
    KeepRun(st1, ls);
    StrictHopDecides(Run(st1, ls).value, t);
  }

  lemma StrictHopDecides(st: State, t: TxId)
    requires Inv(st) && t in st.txs && st.txs[t].pc.Reading? && st.txs[t].pc.strict
    ensures DoHop(st, t).Some?
    ensures DoHop(st, t).value.txs[t].pc
         == Running(if Accepts(st, st.txs[t].pc.cursor, st.txs[t].snapshot) then Fine else TxAborted)
  {
    assert TxOk(st, t, st.txs[t]);
  }

  lemma EndIsNoOperation(st: State, l: Label)
    requires l.t in st.txs && !InClosure(l) && StepAtEnd(st, l).Some?
    ensures !StepAtEnd(st, l).value.txs[l.t].pc.Running?
  {
  }

  /** Which action ends an operation with which error. */
  lemma ClosureErrors(st: State, l: Label)
    requires l.t in st.txs && InClosure(l) && StepInClosure(st, l).Some?
    requires StepInClosure(st, l).value.txs[l.t].pc.Running? && !l.Mutate?
    ensures var pc := st.txs[l.t].pc; var snapshot := st.txs[l.t].snapshot;
      match StepInClosure(st, l).value.txs[l.t].pc.last
      case TxAborted =>
        || (l.Hop? && pc.Reading? && pc.strict && !Accepts(st, pc.cursor, snapshot))
        || (l.CheckHead? && pc.Loaded? && !Accepts(st, pc.a, snapshot))
        || (l.InstallCopy? && DoInstallCopy(st, l.t).Some? && StepInClosure(st, l) == DoInstallCopy(st, l.t))
      case NoAvailableMemory => l.OutOfMemory? && ((pc.Loaded? && st.txs[l.t].log.None?) || pc.Checked?)
      case _ => true
  {
  }

  lemma StepDoesNotPanic(st: State, l: Label, st': State)
    requires Reachable(st) && Step(st, l) == Some(st')
    ensures st'.txs[l.t].pc != Running(InvalidLogicalAddress)
  {
    Go(st, l, st');
    NeverPanics(st', l.t);
  }

  /** The swap of a copy is only tried with a copy, and fails only on a conflict. */
  lemma SwapFails(st: State, t: TxId)
    requires Reachable(st) && t in st.txs && DoInstallCopy(st, t).Some?
    ensures st.txs[t].pc.Copied? && st.txs[t].pc.x in st.slots
    ensures DoInstallCopy(st, t).value.txs[t].pc == Running(TxAborted) ==>
      Conflict(st, st.slots[st.txs[t].pc.x], st.txs[t].snapshot)
  {
    InstallFailsOnConflict(st, t);
  }

  /** No operation aborts but on a conflict, and none but an allocation runs out of memory. */
  lemma OperationsFailOnConflict(st: State, l: Label, st': State)
    requires Reachable(st) && l.t in st.txs && !l.Mutate? && Step(st, l) == Some(st') && st'.txs[l.t].pc.Running?
    ensures var pc := st.txs[l.t].pc; var snapshot := st.txs[l.t].snapshot;
      match st'.txs[l.t].pc.last
      case Fine => true
      case TxAborted =>
        || (l.Hop? && pc.Reading? && pc.strict && !Accepts(st, pc.cursor, snapshot))
        || (l.CheckHead? && pc.Loaded? && !Accepts(st, pc.a, snapshot))
        || (l.InstallCopy? && pc.Copied? && pc.x in st.slots && Conflict(st, st.slots[pc.x], snapshot))
      case NoAvailableMemory => l.OutOfMemory? && ((pc.Loaded? && st.txs[l.t].log.None?) || pc.Checked?)
      case InvalidLogicalAddress => false
  {
    StepDoesNotPanic(st, l, st');
    if InClosure(l) {
      ClosureErrors(st, l);
      if l.InstallCopy? && DoInstallCopy(st, l.t).Some? {
        SwapFails(st, l.t);
      }
    } else {
      EndIsNoOperation(st, l);
    }
  }

  // ---------------------------------------------------------------- validation

  /** Only the holder of the lock stores a version or gives the lock up. */
  lemma LockIsExclusive(st: State, l: Label, t: TxId)
    requires LockOk(st) && st.lock == Some(t) && Step(st, l).Some? && l.t != t
    ensures !l.StoreVersion? && Step(st, l).value.lock == Some(t)
  {
    if l.t in st.txs {
      if InClosure(l) {
        ClosureKeepsLock(st, l);
      } else {
        assert HoldsLock(st.txs[l.t].pc) ==> st.lock == Some(l.t);
        EndKeepsLock(st, l);
      }
    }
  }

  lemma ClosureKeepsLock(st: State, l: Label)
    requires l.t in st.txs && InClosure(l) && StepInClosure(st, l).Some?
    ensures StepInClosure(st, l).value.lock == st.lock
  {
  }

  lemma EndKeepsLock(st: State, l: Label)
    requires l.t in st.txs && !InClosure(l) && !l.Begin? && StepAtEnd(st, l).Some?
    requires st.lock.Some? && !HoldsLock(st.txs[l.t].pc)
    ensures !l.StoreVersion? && StepAtEnd(st, l).value.lock == st.lock
  {
  }

  /** While t holds the lock nobody else changes the version of any object. */
  lemma LockFreezesVersions(st: State, l: Label, t: TxId, a: Addr)
    requires Inv(st) && st.lock == Some(t) && Step(st, l).Some? && l.t != t
    ensures VerAt(Step(st, l).value, a) == VerAt(st, a)
    ensures Step(st, l).value.lock == Some(t)
  {
    LockIsExclusive(st, l, t);
    StepKeepsVersions(st, l, a);
  }

  lemma {:induction false} OthersLeaveVersions(st: State, ls: seq<Label>, t: TxId, a: Addr)
    requires Inv(st) && st.lock == Some(t) && t in st.txs && Run(st, ls).Some?
    requires forall i :: 0 <= i < |ls| ==> ls[i].t != t
    ensures Inv(Run(st, ls).value) && VerAt(Run(st, ls).value, a) == VerAt(st, a)
    ensures Run(st, ls).value.lock == Some(t) && t in Run(st, ls).value.txs && Run(st, ls).value.txs[t] == st.txs[t]
    decreases |ls|
  {
    if |ls| > 0 {
      OthersLeaveVersions(st, ls[..|ls| - 1], t, a);
      KeepStep(Run(st, ls[..|ls| - 1]).value, ls[|ls| - 1]);
      LockFreezesVersions(Run(st, ls[..|ls| - 1]).value, ls[|ls| - 1], t, a);
    }
  }

  /**
   Exact meaning of validation: whatever others do meanwhile, a readset entry passes if and only if
   the head of its cell was uncommitted when it was loaded.
   */
  lemma EntryPassesIffLatched(st: State, t: TxId, ls: seq<Label>)
    requires Reachable(st) && t in st.txs && DoLoadEntry(st, t).Some?
    requires Run(DoLoadEntry(st, t).value, ls).Some? && forall i :: 0 <= i < |ls| ==> ls[i].t != t
    ensures var st2 := Run(DoLoadEntry(st, t).value, ls).value;
      && t in st2.txs && DoCompareEntry(st2, t).Some?
      && (DoCompareEntry(st2, t).value.txs[t].pc.Validating?
          <==> VerAt(st, st.slots[st.txs[t].readset[st.txs[t].pc.i]]) == 0)
  {
    ReachableInv(st);
    KeepLoadEntry(st, t);
    var st1 := DoLoadEntry(st, t).value;
    var a := st.slots[st.txs[t].readset[st.txs[t].pc.i]];
    assert TxOk(st, t, st.txs[t]);
    assert VerAt(st1, a) == VerAt(st, a);
    OthersLeaveVersions(st1, ls, t, a);
    ComparePassesIffUncommitted(Run(st1, ls).value, t);
  }

  /** The comparison itself: the transaction's own version still reads zero. */
  lemma ComparePassesIffUncommitted(st: State, t: TxId)
    requires Inv(st) && t in st.txs && st.txs[t].pc.Comparing?
    ensures DoCompareEntry(st, t).Some?
    ensures DoCompareEntry(st, t).value.txs[t].pc
         == if VerAt(st, st.txs[t].pc.a) == 0 then Validating(st.txs[t].pc.i + 1) else Invalid
  {
    assert TxOk(st, t, st.txs[t]);
  }

  /** A transaction that wrote every cell of its readset never fails validation. */
  lemma WritersPassValidation(st: State, t: TxId)
    requires Reachable(st) && t in st.txs
    requires forall i :: 0 <= i < |st.txs[t].readset| ==> !NeverWrote(st.txs[t], st.txs[t].readset[i])
    ensures st.txs[t].pc != Invalid
  {
    ReachableInv(st);
    assert TxOk(st, t, st.txs[t]);
  }
}
