/** Every label of the protocol but the store of a version keeps the invariant. */
module Preservation {
  import opened Basics
  import opened Protocol
  import opened Invariant

  // ---------------------------------------------------------------- small facts

  /** An installed copy is uncommitted. */
  lemma InstalledIsUncommitted(st: State, t: TxId, i: nat)
    requires TxsOk(st) && t in st.txs && FirstInstalled(st.txs[t]) <= i < |st.txs[t].writeset|
    ensures st.txs[t].writeset[i].copy in st.heap && VerAt(st, st.txs[t].writeset[i].copy) == 0
  {
    assert TxOk(st, t, st.txs[t]);
    assert WriteOk(st, t, st.txs[t], i);
  }

  /** A transaction without a write version has written nothing. */
  lemma WritesNeedLog(st: State, t: TxId, tx: Tx)
    requires WritesOk(st, t, tx)
    ensures |tx.writeset| > 0 ==> tx.log.Some?
  {
    if |tx.writeset| > 0 {
      assert WriteOk(st, t, tx, 0);
    }
  }

  /** Loading a cell gives a good cursor, for every past commit count. */
  lemma HeadIsCursor(st: State, x: Slot, lo: nat)
    requires Inv(st) && x in st.slots && lo <= |st.hist|
    ensures CursorOk(st, x, st.slots[x], lo)
  {
    var a := st.slots[x];
    assert HeadOk(st, x);
    if a == Newest(st.base, st.hist, |st.hist|, x) {
      assert WasNewest(st, x, a, lo);
    } else {
      var u := st.heap[a].owner;
      var i :| FirstInstalled(st.txs[u]) <= i < |st.txs[u].writeset| && st.txs[u].writeset[i].dst == x
        && st.txs[u].writeset[i].copy == a;
      InstalledIsUncommitted(st, u, i);
      assert TxOk(st, u, st.txs[u]);
      assert WriteOk(st, u, st.txs[u], i);
      assert WasNewest(st, x, st.heap[a].other.value, lo);
    }
  }

  /** A committed head is the newest committed object of its cell. */
  lemma CommittedHeadIsNewest(st: State, x: Slot)
    requires Inv(st) && x in st.slots && VerAt(st, st.slots[x]) > 0
    ensures st.slots[x] == Newest(st.base, st.hist, |st.hist|, x)
  {
    var a := st.slots[x];
    assert HeadOk(st, x);
    if a != Newest(st.base, st.hist, |st.hist|, x) {
      var u := st.heap[a].owner;
      var i :| FirstInstalled(st.txs[u]) <= i < |st.txs[u].writeset| && st.txs[u].writeset[i].dst == x
        && st.txs[u].writeset[i].copy == a;
      InstalledIsUncommitted(st, u, i);
      assert false;
    }
  }

  // ---------------------------------------------------------------- private actions

  lemma KeepStartRead(st: State, t: TxId, x: Slot, strict: bool)
    requires Inv(st) && t in st.txs && DoStartRead(st, t, x, strict).Some?
    ensures Inv(DoStartRead(st, t, x, strict).value)
  {
    assert TxOk(st, t, st.txs[t]);
    HeadIsCursor(st, x, st.txs[t].begunAt);
    PrivateStep(st, t, DoStartRead(st, t, x, strict).value.txs[t]);
  }

  /** What one hop leaves in the transaction. */
  lemma HopTarget(st: State, t: TxId, tx: Tx)
    requires BaseOk(st) && HistShape(st.init, st.hist) && HistHeap(st) && HeapOk(st)
    requires t in st.txs && tx == st.txs[t] && TxOk(st, t, tx) && DoHop(st, t).Some?
    ensures var tx' := DoHop(st, t).value.txs[t];
      && DoHop(st, t).value == SetTx(st, t, tx') && SameRole(tx, tx') && tx'.readset == tx.readset
      && PcOk(st, t, tx') && SeenOk(st.init, st.hist, tx'.seen, tx'.begunAt)
  {
    var a := tx.pc.cursor;
    if Accepts(st, a, tx.snapshot) {
      AcceptedIsSnapshot(st, tx.pc.x, a, tx.snapshot, tx.begunAt);
    } else {
      RefusedMovesBack(st, tx.pc.x, a, tx.snapshot, tx.begunAt);
    }
  }

  lemma KeepHop(st: State, t: TxId)
    requires Inv(st) && t in st.txs && DoHop(st, t).Some?
    ensures Inv(DoHop(st, t).value)
  {
    HopTarget(st, t, st.txs[t]);
    PrivateStep(st, t, DoHop(st, t).value.txs[t]);
  }

  lemma KeepLoadHead(st: State, t: TxId, x: Slot)
    requires Inv(st) && t in st.txs && DoLoadHead(st, t, x).Some?
    ensures Inv(DoLoadHead(st, t, x).value)
  {
    assert TxOk(st, t, st.txs[t]);
    HeadIsCursor(st, x, st.txs[t].begunAt);
    PrivateStep(st, t, DoLoadHead(st, t, x).value.txs[t]);
  }

  lemma KeepCheckHead(st: State, t: TxId)
    requires Inv(st) && t in st.txs && DoCheckHead(st, t).Some?
    ensures Inv(DoCheckHead(st, t).value)
  {
    var tx := st.txs[t];
    assert TxOk(st, t, tx);
    if Accepts(st, tx.pc.a, tx.snapshot) {
      AcceptedIsSnapshot(st, tx.pc.x, tx.pc.a, tx.snapshot, tx.begunAt);
    }
    PrivateStep(st, t, DoCheckHead(st, t).value.txs[t]);
  }

  lemma KeepOutOfMemory(st: State, t: TxId)
    requires Inv(st) && t in st.txs && DoOutOfMemory(st, t).Some?
    ensures Inv(DoOutOfMemory(st, t).value)
  {
    assert TxOk(st, t, st.txs[t]);
    PrivateStep(st, t, DoOutOfMemory(st, t).value.txs[t]);
  }

  lemma KeepCommitReadOnly(st: State, t: TxId)
    requires Inv(st) && t in st.txs && DoCommitReadOnly(st, t).Some?
    ensures Inv(DoCommitReadOnly(st, t).value)
  {
    assert TxOk(st, t, st.txs[t]);
    WritesNeedLog(st, t, st.txs[t]);
    PrivateStep(st, t, DoCommitReadOnly(st, t).value.txs[t]);
  }

  lemma KeepLoadEntry(st: State, t: TxId)
    requires Inv(st) && t in st.txs && DoLoadEntry(st, t).Some?
    ensures Inv(DoLoadEntry(st, t).value)
  {
    var tx := st.txs[t];
    assert TxOk(st, t, tx);
    assert HeadOk(st, tx.readset[tx.pc.i]);
    forall k | 0 <= k < |tx.writeset| && tx.writeset[k].dst == tx.readset[tx.pc.i]
      ensures tx.writeset[k].copy == st.slots[tx.readset[tx.pc.i]] {
      assert WriteOk(st, t, tx, k);
    }
    PrivateStep(st, t, DoLoadEntry(st, t).value.txs[t]);
  }

  lemma KeepCompareEntry(st: State, t: TxId)
    requires Inv(st) && t in st.txs && DoCompareEntry(st, t).Some?
    ensures Inv(DoCompareEntry(st, t).value)
  {
    var tx := st.txs[t];
    assert TxOk(st, t, tx);
    if VerAt(st, tx.pc.a) > 0 {
      forall k | 0 <= k < |tx.writeset| ensures tx.writeset[k].dst != tx.readset[tx.pc.i] {
        InstalledIsUncommitted(st, t, k);
      }
      assert NeverWrote(tx, tx.readset[tx.pc.i]);
    }
    PrivateStep(st, t, DoCompareEntry(st, t).value.txs[t]);
  }

  lemma KeepStartAbort(st: State, t: TxId)
    requires Inv(st) && t in st.txs && DoStartAbort(st, t).Some?
    ensures Inv(DoStartAbort(st, t).value)
  {
    assert TxOk(st, t, st.txs[t]);
    PrivateStep(st, t, DoStartAbort(st, t).value.txs[t]);
  }

  lemma KeepEndAbort(st: State, t: TxId)
    requires Inv(st) && t in st.txs && DoEndAbort(st, t).Some?
    ensures Inv(DoEndAbort(st, t).value)
  {
    assert TxOk(st, t, st.txs[t]);
    PrivateStep(st, t, DoEndAbort(st, t).value.txs[t]);
  }

  // ---------------------------------------------------------------- actions on shared state

  lemma KeepBegin(st: State, t: TxId)
    requires Inv(st) && DoBegin(st, t).Some?
    ensures Inv(DoBegin(st, t).value)
  {
    var st' := DoBegin(st, t).value;
    assert Extends(st, st');
    SharedKept(st, st');
    forall u | u in st'.txs ensures TxOk(st', u, st'.txs[u]) {
      if u != t {
        assert TxOk(st, u, st.txs[u]);
        PcKept(st, st', u, st.txs[u]);
        TxKept(st, st', u, st.txs[u], st'.txs[u]);
      }
    }
  }

  lemma AllocLogExtends(st: State, t: TxId, a: Addr)
    requires BaseOk(st) && HeapOk(st) && t in st.txs && DoAllocLog(st, t, a).Some?
    ensures Extends(st, DoAllocLog(st, t, a).value) && HeapOk(DoAllocLog(st, t, a).value)
  {
    var st' := DoAllocLog(st, t, a).value;
    forall b | b in st.heap ensures SameObject(st, st', b) {
      assert ObjOk(st, b);
    }
    forall b | b in st'.heap ensures ObjOk(st', b) {
      ObjectKept(st, st', b);
    }
  }

  lemma AllocLogTx(st: State, t: TxId, a: Addr, u: TxId)
    requires t in st.txs && DoAllocLog(st, t, a).Some? && Extends(st, DoAllocLog(st, t, a).value)
    requires u in st.txs && TxOk(st, u, st.txs[u])
    ensures TxOk(DoAllocLog(st, t, a).value, u, DoAllocLog(st, t, a).value.txs[u])
  {
    var st' := DoAllocLog(st, t, a).value;
    if u == t {
      WritesNeedLog(st, t, st.txs[t]);
    } else {
      WritesKept(st, st', u, st.txs[u], st'.txs[u]);
    }
    PcKept(st, st', u, st.txs[u]);
  }

  lemma KeepAllocLog(st: State, t: TxId, a: Addr)
    requires Inv(st) && t in st.txs && DoAllocLog(st, t, a).Some?
    ensures Inv(DoAllocLog(st, t, a).value)
  {
    var st' := DoAllocLog(st, t, a).value;
    AllocLogExtends(st, t, a);
    HistoryKept(st, st');
    HeadsKept(st, st');
    AllocLogTxs(st, t, a);
  }

  lemma AllocLogTxs(st: State, t: TxId, a: Addr)
    requires TxsOk(st) && t in st.txs && DoAllocLog(st, t, a).Some? && Extends(st, DoAllocLog(st, t, a).value)
    ensures TxsOk(DoAllocLog(st, t, a).value)
  {
    var st' := DoAllocLog(st, t, a).value;
    forall u | u in st'.txs ensures TxOk(st', u, st'.txs[u]) {
      assert TxOk(st, u, st.txs[u]);
      AllocLogTx(st, t, a, u);
    }
  }

  lemma CopyObjectExtends(st: State, t: TxId, a: Addr)
    requires BaseOk(st) && HistShape(st.init, st.hist) && HistHeap(st) && HeapOk(st)
    requires t in st.txs && TxOk(st, t, st.txs[t]) && DoCopyObject(st, t, a).Some?
    ensures Extends(st, DoCopyObject(st, t, a).value) && HeapOk(DoCopyObject(st, t, a).value)
  {
    var st' := DoCopyObject(st, t, a).value;
    forall b | b in st.heap ensures SameObject(st, st', b) {
      assert VerAt(st', b) == VerAt(st, b);
    }
    NewestIsCommitted(st, st.txs[t].begunAt, st.txs[t].pc.x);
    forall b | b in st'.heap ensures ObjOk(st', b) {
      if b != a {
        ObjectKept(st, st', b);
      } else {
        assert SameObject(st, st', st.txs[t].pc.a);
      }
    }
  }

  lemma CopyObjectTx(st: State, t: TxId, a: Addr, u: TxId)
    requires BaseOk(st) && HistShape(st.init, st.hist) && HistHeap(st)
    requires t in st.txs && DoCopyObject(st, t, a).Some? && Extends(st, DoCopyObject(st, t, a).value)
    requires u in st.txs && TxOk(st, u, st.txs[u])
    ensures TxOk(DoCopyObject(st, t, a).value, u, DoCopyObject(st, t, a).value.txs[u])
  {
    var st' := DoCopyObject(st, t, a).value;
    WritesKept(st, st', u, st.txs[u], st'.txs[u]);
    if u == t {
      NewestIsCommitted(st, st.txs[t].begunAt, st.txs[t].pc.x);
      forall i | 0 <= i < |st.txs[t].writeset| ensures st.txs[t].writeset[i].copy != a {
        assert WriteOk(st, t, st.txs[t], i);
      }
    } else {
      PcKept(st, st', u, st.txs[u]);
    }
  }

  lemma KeepCopyObject(st: State, t: TxId, a: Addr)
    requires Inv(st) && t in st.txs && DoCopyObject(st, t, a).Some?
    ensures Inv(DoCopyObject(st, t, a).value)
  {
    var st' := DoCopyObject(st, t, a).value;
    CopyObjectExtends(st, t, a);
    HistoryKept(st, st');
    HeadsKept(st, st');
    CopyObjectTxs(st, t, a);
  }

  lemma CopyObjectTxs(st: State, t: TxId, a: Addr)
    requires BaseOk(st) && HistShape(st.init, st.hist) && HistHeap(st) && TxsOk(st)
    requires t in st.txs && DoCopyObject(st, t, a).Some? && Extends(st, DoCopyObject(st, t, a).value)
    ensures TxsOk(DoCopyObject(st, t, a).value)
  {
    var st' := DoCopyObject(st, t, a).value;
    forall u | u in st'.txs ensures TxOk(st', u, st'.txs[u]) {
      assert TxOk(st, u, st.txs[u]);
      CopyObjectTx(st, t, a, u);
    }
  }

  lemma MutateExtends(st: State, t: TxId, i: nat, v: Value)
    requires t in st.txs && DoMutate(st, t, i, v).Some?
    requires VerAt(st, st.txs[t].writeset[i].copy) == 0
    ensures Extends(st, DoMutate(st, t, i, v).value)
  {
    var st' := DoMutate(st, t, i, v).value;
    forall b | b in st.heap ensures SameObject(st, st', b) {
      assert VerAt(st', b) == VerAt(st, b);
    }
  }

  lemma MutateTx(st: State, t: TxId, i: nat, v: Value, u: TxId)
    requires t in st.txs && DoMutate(st, t, i, v).Some? && Extends(st, DoMutate(st, t, i, v).value)
    requires WriteOk(st, t, st.txs[t], i)
    requires u in st.txs && TxOk(st, u, st.txs[u])
    ensures TxOk(DoMutate(st, t, i, v).value, u, DoMutate(st, t, i, v).value.txs[u])
  {
    var st' := DoMutate(st, t, i, v).value;
    PcKept(st, st', u, st.txs[u]);
    TxKept(st, st', u, st.txs[u], st'.txs[u]);
  }

  lemma KeepMutate(st: State, t: TxId, i: nat, v: Value)
    requires Inv(st) && t in st.txs && DoMutate(st, t, i, v).Some?
    ensures Inv(DoMutate(st, t, i, v).value)
  {
    var st' := DoMutate(st, t, i, v).value;
    InstalledIsUncommitted(st, t, i);
    MutateExtends(st, t, i, v);
    SharedKept(st, st');
    assert TxOk(st, t, st.txs[t]);
    forall u | u in st'.txs ensures TxOk(st', u, st'.txs[u]) {
      MutateTx(st, t, i, v, u);
    }
  }

  lemma KeepLockCounter(st: State, t: TxId)
    requires Inv(st) && t in st.txs && DoLockCounter(st, t).Some?
    ensures Inv(DoLockCounter(st, t).value)
  {
    var st' := DoLockCounter(st, t).value;
    assert Extends(st, st');
    SharedKept(st, st');
    forall u | u in st'.txs ensures TxOk(st', u, st'.txs[u]) {
      assert TxOk(st, u, st.txs[u]);
      WritesKept(st, st', u, st.txs[u], st'.txs[u]);
      PcKept(st, st', u, st.txs[u]);
    }
  }

  /** Releasing the lock: a stored version is final, a failed validation goes on to roll back. */
  lemma UnlockExtends(st: State, t: TxId)
    requires t in st.txs && st.lock == Some(t) && DoUnlock(st, t).Some?
    ensures Extends(st, DoUnlock(st, t).value)
  {
    var st' := DoUnlock(st, t).value;
    forall b | b in st.heap ensures SameObject(st, st', b) {
      assert VerAt(st', b) == VerAt(st, b);
    }
  }

  lemma UnlockSelf(st: State, t: TxId)
    requires t in st.txs && DoUnlock(st, t).Some? && Extends(st, DoUnlock(st, t).value)
    requires TxOk(st, t, st.txs[t])
    ensures TxOk(DoUnlock(st, t).value, t, DoUnlock(st, t).value.txs[t])
  {
    var st' := DoUnlock(st, t).value;
    WritesKept(st, st', t, st.txs[t], st'.txs[t]);
  }

  lemma UnlockOther(st: State, t: TxId, u: TxId)
    requires t in st.txs && DoUnlock(st, t).Some? && Extends(st, DoUnlock(st, t).value)
    requires u in st.txs && u != t && TxOk(st, u, st.txs[u])
    ensures TxOk(DoUnlock(st, t).value, u, st.txs[u])
  {
    var st' := DoUnlock(st, t).value;
    PcKept(st, st', u, st.txs[u]);
    TxKept(st, st', u, st.txs[u], st.txs[u]);
  }

  lemma UnlockTxs(st: State, t: TxId)
    requires TxsOk(st) && t in st.txs && DoUnlock(st, t).Some? && Extends(st, DoUnlock(st, t).value)
    ensures TxsOk(DoUnlock(st, t).value)
  {
    forall u | u in st.txs ensures TxOk(DoUnlock(st, t).value, u, DoUnlock(st, t).value.txs[u]) {
      assert TxOk(st, u, st.txs[u]);
      if u == t {
        UnlockSelf(st, t);
      } else {
        UnlockOther(st, t, u);
      }
    }
  }

  lemma KeepUnlock(st: State, t: TxId)
    requires Inv(st) && t in st.txs && DoUnlock(st, t).Some?
    ensures Inv(DoUnlock(st, t).value)
  {
    UnlockExtends(st, t);
    SharedKept(st, DoUnlock(st, t).value);
    UnlockTxs(st, t);
  }

  // ---------------------------------------------------------------- swapping a pointer

  /** Only its owner has a cell latched with a copy; a committed head is latched by nobody. */
  lemma LatchedElsewhere(st: State, t: TxId, u: TxId, x: Slot, i: nat)
    requires TxsOk(st) && u in st.txs && x in st.slots && st.slots[x] in st.heap
    requires VerAt(st, st.slots[x]) > 0 || (st.heap[st.slots[x]].owner == t && u != t)
    requires FirstInstalled(st.txs[u]) <= i < |st.txs[u].writeset|
    ensures st.txs[u].writeset[i].dst != x
  {
    InstalledIsUncommitted(st, u, i);
    assert TxOk(st, u, st.txs[u]);
    assert WriteOk(st, u, st.txs[u], i);
  }

  lemma InstallExtends(st: State, t: TxId)
    requires t in st.txs && st.txs[t].pc.Copied? && DoInstallCopy(st, t).Some?
    ensures Extends(st, DoInstallCopy(st, t).value)
  {
    var st' := DoInstallCopy(st, t).value;
    forall b | b in st.heap ensures SameObject(st, st', b) {
      assert VerAt(st', b) == VerAt(st, b);
    }
  }

  lemma InstallHeads(st: State, t: TxId)
    requires HeadsOk(st) && t in st.txs && TxOk(st, t, st.txs[t]) && DoInstallCopy(st, t).Some?
    requires st.slots[st.txs[t].pc.x] == st.txs[t].pc.a && Extends(st, DoInstallCopy(st, t).value)
    ensures HeadsOk(DoInstallCopy(st, t).value)
  {
    var st' := DoInstallCopy(st, t).value;
    var x := st.txs[t].pc.x;
    assert st'.txs[t].writeset[|st.txs[t].writeset|] == Write(x, st.txs[t].pc.a, st.txs[t].pc.copy);
    forall y | y in st'.slots ensures HeadOk(st', y) {
      if y != x {
        HeadKept(st, st', y);
      }
    }
  }

  lemma InstallSelf(st: State, t: TxId)
    requires Inv(st) && t in st.txs && DoInstallCopy(st, t).Some?
    requires st.slots[st.txs[t].pc.x] == st.txs[t].pc.a && Extends(st, DoInstallCopy(st, t).value)
    ensures TxOk(DoInstallCopy(st, t).value, t, DoInstallCopy(st, t).value.txs[t])
  {
    var st' := DoInstallCopy(st, t).value;
    var tx, tx' := st.txs[t], st'.txs[t];
    var x := tx.pc.x;
    assert TxOk(st, t, tx);
    NewestIsCommitted(st, tx.begunAt, x);
    CommittedHeadIsNewest(st, x);
    forall i | 0 <= i < |tx.writeset| ensures tx.writeset[i].dst != x {
      LatchedElsewhere(st, t, t, x, i);
    }
    var tx0 := tx'.(writeset := tx.writeset);
    WritesKept(st, st', t, tx, tx0);
    forall i | 0 <= i < |tx'.writeset| ensures WriteOk(st', t, tx', i) {
      if i < |tx.writeset| {
        assert WriteOk(st', t, tx0, i);
      }
    }
  }

  lemma InstallOther(st: State, t: TxId, u: TxId)
    requires TxsOk(st) && BaseOk(st) && HistShape(st.init, st.hist) && HistHeap(st)
    requires t in st.txs && DoInstallCopy(st, t).Some? && u in st.txs && u != t
    requires st.slots[st.txs[t].pc.x] == st.txs[t].pc.a && Extends(st, DoInstallCopy(st, t).value)
    ensures TxOk(DoInstallCopy(st, t).value, u, st.txs[u])
  {
    var st' := DoInstallCopy(st, t).value;
    assert TxOk(st, t, st.txs[t]) && TxOk(st, u, st.txs[u]);
    NewestIsCommitted(st, st.txs[t].begunAt, st.txs[t].pc.x);
    forall i | FirstInstalled(st.txs[u]) <= i < |st.txs[u].writeset|
      ensures st.txs[u].writeset[i].dst != st.txs[t].pc.x {
      LatchedElsewhere(st, t, u, st.txs[t].pc.x, i);
    }
    PcKept(st, st', u, st.txs[u]);
    TxKept(st, st', u, st.txs[u], st.txs[u]);
  }

  lemma InstallTxs(st: State, t: TxId)
    requires Inv(st) && t in st.txs && DoInstallCopy(st, t).Some?
    requires st.slots[st.txs[t].pc.x] == st.txs[t].pc.a && Extends(st, DoInstallCopy(st, t).value)
    ensures TxsOk(DoInstallCopy(st, t).value)
  {
    var st' := DoInstallCopy(st, t).value;
    forall u | u in st'.txs ensures TxOk(st', u, st'.txs[u]) {
      if u == t {
        InstallSelf(st, t);
      } else {
        InstallOther(st, t, u);
      }
    }
  }

  lemma KeepInstallCopy(st: State, t: TxId)
    requires Inv(st) && t in st.txs && DoInstallCopy(st, t).Some?
    ensures Inv(DoInstallCopy(st, t).value)
  {
    var st' := DoInstallCopy(st, t).value;
    assert TxOk(st, t, st.txs[t]);
    if st.slots[st.txs[t].pc.x] == st.txs[t].pc.a {
      InstallExtends(st, t);
      HistoryKept(st, st');
      InstallHeads(st, t);
      HeapKept(st, st');
      InstallTxs(st, t);
    } else {
      PrivateStep(st, t, st'.txs[t]);
    }
  }

  /** The swap in rollback always finds the copy that this transaction installed. */
  lemma RollbackFindsCopy(st: State, t: TxId)
    requires TxsOk(st) && t in st.txs && DoRollbackOne(st, t).Some?
    ensures var w := st.txs[t].writeset[st.txs[t].pc.i];
      && w.dst in st.slots && st.slots[w.dst] == w.copy
      && w.current == Newest(st.base, st.hist, |st.hist|, w.dst)
      && w.copy in st.heap && st.heap[w.copy].owner == t && st.heap[w.copy].other == Some(w.current)
      && DoRollbackOne(st, t).value ==
           Goto(st, t, RollingBack(st.txs[t].pc.i + 1)).(slots := st.slots[w.dst := w.current])
  {
    assert TxOk(st, t, st.txs[t]);
    assert WriteOk(st, t, st.txs[t], st.txs[t].pc.i);
  }

  lemma RollbackExtends(st: State, t: TxId)
    requires TxsOk(st) && t in st.txs && DoRollbackOne(st, t).Some?
    ensures Extends(st, DoRollbackOne(st, t).value)
  {
    var st' := DoRollbackOne(st, t).value;
    RollbackFindsCopy(st, t);
    forall b | b in st.heap ensures SameObject(st, st', b) {
      assert VerAt(st', b) == VerAt(st, b);
    }
  }

  lemma RollbackHeads(st: State, t: TxId)
    requires Inv(st) && t in st.txs && DoRollbackOne(st, t).Some? && Extends(st, DoRollbackOne(st, t).value)
    ensures HeadsOk(DoRollbackOne(st, t).value)
  {
    var st' := DoRollbackOne(st, t).value;
    RollbackFindsCopy(st, t);
    var n := st.txs[t].pc.i;
    var w := st.txs[t].writeset[n];
    NewestIsCommitted(st, |st.hist|, w.dst);
    forall y | y in st'.slots ensures HeadOk(st', y) {
      assert HeadOk(st, y);
      var a := st.slots[y];
      if y != w.dst && a != Newest(st.base, st.hist, |st.hist|, y) {
        var u := st.heap[a].owner;
        var i :| FirstInstalled(st.txs[u]) <= i < |st.txs[u].writeset| && st.txs[u].writeset[i].dst == y
          && st.txs[u].writeset[i].copy == a;
        assert u == t ==> i != n;
        assert st'.txs[u].writeset[i] == st.txs[u].writeset[i];
      }
    }
  }

  lemma RollbackTx(st: State, t: TxId, u: TxId)
    requires TxsOk(st) && t in st.txs && DoRollbackOne(st, t).Some? && Extends(st, DoRollbackOne(st, t).value)
    requires u in st.txs
    ensures TxOk(DoRollbackOne(st, t).value, u, DoRollbackOne(st, t).value.txs[u])
  {
    var st' := DoRollbackOne(st, t).value;
    RollbackFindsCopy(st, t);
    assert TxOk(st, u, st.txs[u]);
    var n := st.txs[t].pc.i;
    forall i | FirstInstalled(st'.txs[u]) <= i < |st.txs[u].writeset|
      ensures st.txs[u].writeset[i].dst != st.txs[t].writeset[n].dst {
      if u == t {
        assert WriteOk(st, t, st.txs[t], i);
      } else {
        LatchedElsewhere(st, t, u, st.txs[t].writeset[n].dst, i);
      }
    }
    if u != t {
      PcKept(st, st', u, st.txs[u]);
    }
    TxKept(st, st', u, st.txs[u], st'.txs[u]);
  }

  lemma KeepRollbackOne(st: State, t: TxId)
    requires Inv(st) && t in st.txs && DoRollbackOne(st, t).Some?
    ensures Inv(DoRollbackOne(st, t).value)
  {
    var st' := DoRollbackOne(st, t).value;
    RollbackExtends(st, t);
    RollbackFindsCopy(st, t);
    HistoryKept(st, st');
    RollbackHeads(st, t);
    HeapKept(st, st');
    assert TxsOk(st') by {
      forall u | u in st'.txs ensures TxOk(st', u, st'.txs[u]) {
        RollbackTx(st, t, u);
      }
    }
  }
}
