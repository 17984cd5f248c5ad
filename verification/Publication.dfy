/** Storing the version word keeps the invariant too; hence it holds in every reachable state. */
module Publication {
  import opened Basics
  import opened Protocol
  import opened Invariant
  import opened Preservation

  /** st' is st after t stored its version. */
  ghost predicate Publishes(st: State, st': State, t: TxId) {
    t in st.txs && DoStoreVersion(st, t) == Some(st')
  }

  /** `Objs` finds exactly the copies of a writeset that names no cell twice. */
  lemma ObjsOfDistinct(ws: seq<Write>, i: nat)
    requires i < |ws| && forall j, k :: 0 <= j < k < |ws| ==> ws[j].dst != ws[k].dst
    ensures ws[i].dst in Objs(ws) && Objs(ws)[ws[i].dst] == ws[i].copy
  {
  }

  lemma WritesetIsDistinct(st: State, t: TxId)
    requires t in st.txs && WritesOk(st, t, st.txs[t])
    ensures var ws := st.txs[t].writeset; forall j, k :: 0 <= j < k < |ws| ==> ws[j].dst != ws[k].dst
  {
    var ws := st.txs[t].writeset;
    forall j, k | 0 <= j < k < |ws| ensures ws[j].dst != ws[k].dst {
      assert WriteOk(st, t, st.txs[t], k);
    }
  }

  lemma ObjsOfWriteset(st: State, t: TxId)
    requires t in st.txs && WritesOk(st, t, st.txs[t])
    ensures forall x, a :: x in Objs(st.txs[t].writeset) && Objs(st.txs[t].writeset)[x] == a ==> Wrote(st.txs[t], x, a)
    ensures forall i :: 0 <= i < |st.txs[t].writeset| ==>
      st.txs[t].writeset[i].dst in Objs(st.txs[t].writeset)
      && Objs(st.txs[t].writeset)[st.txs[t].writeset[i].dst] == st.txs[t].writeset[i].copy
  {
    WritesetIsDistinct(st, t);
    var ws := st.txs[t].writeset;
    forall i | 0 <= i < |ws| ensures ws[i].dst in Objs(ws) && Objs(ws)[ws[i].dst] == ws[i].copy {
      ObjsOfDistinct(ws, i);
    }
  }

  /** The write behind one published cell. */
  lemma PublishedWrite(st: State, t: TxId, x: Slot) returns (i: nat)
    requires t in st.txs && WritesOk(st, t, st.txs[t]) && x in Objs(st.txs[t].writeset)
    ensures i < |st.txs[t].writeset| && st.txs[t].writeset[i].dst == x
    ensures st.txs[t].writeset[i].copy == Objs(st.txs[t].writeset)[x]
    ensures WriteOk(st, t, st.txs[t], i)
  {
    i :| 0 <= i < |st.txs[t].writeset| && st.txs[t].writeset[i].dst == x
         && st.txs[t].writeset[i].copy == Objs(st.txs[t].writeset)[x];
    assert WriteOk(st, t, st.txs[t], i);
  }

  /** Only objects that point at the stored log word change their version. */
  lemma VersionsAfter(st: State, st': State, t: TxId, a: Addr)
    requires Publishes(st, st', t) && a in st.heap
    ensures VerAt(st', a) == (if st.heap[a].version == Indirect(st.txs[t].log.value) then st.counter else VerAt(st, a))
  {
  }

  lemma CommittedUnchanged(st: State, st': State, t: TxId, a: Addr)
    requires Publishes(st, st', t) && LogOk(st, t, st.txs[t]) && VerAt(st, a) > 0
    ensures VerAt(st', a) == VerAt(st, a)
  {
  }

  lemma SettledAfter(st: State, st': State, t: TxId)
    requires LockOk(st) && Publishes(st, st', t)
    ensures st.lock == Some(t) && Settled(st) == st.counter - 1 && Settled(st') == st.counter && st'.lock == st.lock
  {
  }

  /** No transaction published any cell of t since t took its snapshot. */
  lemma NobodyBetween(st: State, t: TxId, j: nat, x: Slot)
    requires BaseOk(st) && HistShape(st.init, st.hist) && HistHeap(st)
    requires t in st.txs && TxOk(st, t, st.txs[t]) && FirstInstalled(st.txs[t]) == 0
    requires st.txs[t].begunAt <= j < |st.hist| && x in Objs(st.txs[t].writeset)
    ensures x !in st.hist[j].objs
  {
    var i := PublishedWrite(st, t, x);
    NewestBetween(st, st.txs[t].begunAt, |st.hist|, x);
    NewestIsCommitted(st, st.txs[t].begunAt, x);
  }

  lemma StoreEntryShape(st: State, st': State, t: TxId)
    requires BaseOk(st) && HistShape(st.init, st.hist) && HistHeap(st) && LockOk(st)
    requires Publishes(st, st', t) && TxOk(st, t, st.txs[t])
    ensures EntryShape(st'.init, st'.hist, |st.hist|)
  {
    var tx, n, e := st.txs[t], |st.hist|, CommitOf(st, t);
    SettledAfter(st, st', t);
    assert st'.hist == st.hist + [e];
    forall x | x in e.objs ensures x in st.init {
      var i := PublishedWrite(st, t, x);
    }
    forall j, x | e.cut <= j < n && x in st'.hist[j].objs ensures x !in e.objs {
      if x in e.objs {
        NobodyBetween(st, t, j, x);
      }
    }
    forall i | 0 <= i < |e.seen| ensures e.seen[i].1 == ReplayAt(st'.init, st'.hist, e.cut, e.seen[i].0) {
      PastIsStable(st.base, st.init, st.hist, e, e.cut, e.seen[i].0);
    }
  }

  lemma OldEntryShape(st: State, st': State, t: TxId, k: nat)
    requires HistShape(st.init, st.hist) && Publishes(st, st', t) && k < |st.hist|
    ensures EntryShape(st'.init, st'.hist, k)
  {
    assert EntryShape(st.init, st.hist, k);
    var e := st.hist[k];
    forall i | 0 <= i < |e.seen| ensures e.seen[i].1 == ReplayAt(st'.init, st'.hist, e.cut, e.seen[i].0) {
      PastIsStable(st.base, st.init, st.hist, CommitOf(st, t), e.cut, e.seen[i].0);
    }
  }

  lemma StoreHistShape(st: State, st': State, t: TxId)
    requires BaseOk(st) && HistShape(st.init, st.hist) && HistHeap(st) && LockOk(st)
    requires Publishes(st, st', t) && TxOk(st, t, st.txs[t])
    ensures HistShape(st'.init, st'.hist)
  {
    forall k | 0 <= k < |st'.hist| ensures EntryShape(st'.init, st'.hist, k) {
      if k == |st.hist| {
        StoreEntryShape(st, st', t);
      } else {
        OldEntryShape(st, st', t, k);
      }
    }
  }

  lemma StoreEntryObject(st: State, st': State, t: TxId, x: Slot)
    requires Publishes(st, st', t) && TxOk(st, t, st.txs[t]) && x in Objs(st.txs[t].writeset)
    ensures EntryObject(st', |st.hist|, x)
  {
    var i := PublishedWrite(st, t, x);
    VersionsAfter(st, st', t, st.txs[t].writeset[i].copy);
    PastIsStable(st.base, st.init, st.hist, CommitOf(st, t), |st.hist|, x);
  }

  lemma OldEntryObject(st: State, st': State, t: TxId, k: nat, x: Slot)
    requires HistShape(st.init, st.hist) && HistHeap(st) && Publishes(st, st', t) && LogOk(st, t, st.txs[t])
    requires k < |st.hist| && x in st.hist[k].objs
    ensures EntryObject(st', k, x)
  {
    assert EntryObject(st, k, x) && EntryShape(st.init, st.hist, k);
    CommittedUnchanged(st, st', t, st.hist[k].objs[x]);
    PastIsStable(st.base, st.init, st.hist, CommitOf(st, t), k, x);
  }

  lemma StoreSettled(st: State, st': State, t: TxId)
    requires HistHeap(st) && LockOk(st) && Publishes(st, st', t) && TxOk(st, t, st.txs[t])
    ensures forall k :: 0 <= k < |st'.hist| ==> st'.hist[k].version <= Settled(st')
  {
    SettledAfter(st, st', t);
  }

  lemma StoreHistHeap(st: State, st': State, t: TxId)
    requires HistShape(st.init, st.hist) && HistHeap(st) && LockOk(st)
    requires Publishes(st, st', t) && TxOk(st, t, st.txs[t])
    ensures HistHeap(st')
  {
    StoreSettled(st, st', t);
    forall k, x | 0 <= k < |st'.hist| && x in st'.hist[k].objs ensures EntryObject(st', k, x) {
      if k == |st.hist| {
        StoreEntryObject(st, st', t, x);
      } else {
        OldEntryObject(st, st', t, k, x);
      }
    }
  }

  lemma StoreHeap(st: State, st': State, t: TxId)
    requires BaseOk(st) && HeapOk(st) && LockOk(st) && Publishes(st, st', t) && LogOk(st, t, st.txs[t])
    ensures HeapOk(st')
  {
    SettledAfter(st, st', t);
    forall a | a in st'.heap ensures ObjOk(st', a) {
      assert ObjOk(st, a);
      VersionsAfter(st, st', t, a);
      if st.heap[a].other.Some? {
        var b := st.heap[a].other.value;
        assert ObjOk(st, b);
        CommittedUnchanged(st, st', t, b);
      }
    }
  }

  /** A cell latched by another transaction is not among the published ones. */
  lemma LatchedNotPublished(st: State, t: TxId, u: TxId, i: nat)
    requires TxsOk(st) && t in st.txs && u in st.txs && u != t && FirstInstalled(st.txs[t]) == 0
    requires FirstInstalled(st.txs[u]) <= i < |st.txs[u].writeset|
    ensures st.txs[u].writeset[i].dst !in Objs(st.txs[t].writeset)
  {
    assert TxOk(st, t, st.txs[t]) && TxOk(st, u, st.txs[u]);
    assert WriteOk(st, u, st.txs[u], i);
    if st.txs[u].writeset[i].dst in Objs(st.txs[t].writeset) {
      var k := PublishedWrite(st, t, st.txs[u].writeset[i].dst);
    }
  }

  lemma StoreHeads(st: State, st': State, t: TxId)
    requires HeadsOk(st) && TxsOk(st) && Publishes(st, st', t)
    ensures HeadsOk(st')
  {
    assert TxOk(st, t, st.txs[t]);
    forall x | x in st'.slots ensures HeadOk(st', x) {
      assert HeadOk(st, x);
      var a := st.slots[x];
      PastIsStable(st.base, st.init, st.hist, CommitOf(st, t), |st.hist|, x);
      if x in Objs(st.txs[t].writeset) {
        var i := PublishedWrite(st, t, x);
      } else if a != Newest(st.base, st.hist, |st.hist|, x) {
        var u := st.heap[a].owner;
        var i :| FirstInstalled(st.txs[u]) <= i < |st.txs[u].writeset| && st.txs[u].writeset[i].dst == x
          && st.txs[u].writeset[i].copy == a;
        ObjsOfWriteset(st, t);
        assert st'.txs[u].writeset[i] == st.txs[u].writeset[i];
      }
    }
  }

  lemma StoreWasNewest(st: State, st': State, t: TxId, x: Slot, a: Addr, lo: nat)
    requires Publishes(st, st', t) && WasNewest(st, x, a, lo)
    ensures WasNewest(st', x, a, lo)
  {
    var j :| lo <= j <= |st.hist| && a == Newest(st.base, st.hist, j, x);
    PastIsStable(st.base, st.init, st.hist, CommitOf(st, t), j, x);
    assert a == Newest(st'.base, st'.hist, j, x);
  }

  lemma StoreCursor(st: State, st': State, t: TxId, x: Slot, a: Addr, lo: nat)
    requires TxsOk(st) && Publishes(st, st', t) && CursorOk(st, x, a, lo) && lo <= |st.hist|
    ensures CursorOk(st', x, a, lo)
  {
    if WasNewest(st, x, a, lo) {
      StoreWasNewest(st, st', t, x, a, lo);
    } else {
      var u := st.heap[a].owner;
      var i :| 0 <= i < |st.txs[u].writeset| && st.txs[u].writeset[i].dst == x && st.txs[u].writeset[i].copy == a;
      assert TxOk(st, t, st.txs[t]) && TxOk(st, u, st.txs[u]);
      assert WriteOk(st, u, st.txs[u], i);
      if u == t {
        ObjsOfWriteset(st, t);
        assert a == Newest(st'.base, st'.hist, |st'.hist|, x);
      } else {
        VersionsAfter(st, st', t, a);
        StoreWasNewest(st, st', t, x, st.heap[a].other.value, lo);
        assert st'.txs[u].writeset[i] == st.txs[u].writeset[i];
      }
    }
  }

  lemma StorePc(st: State, st': State, t: TxId, u: TxId)
    requires TxsOk(st) && Publishes(st, st', t) && u in st.txs
    ensures PcOk(st', u, st'.txs[u])
  {
    var tx := st.txs[u];
    assert TxOk(st, u, tx);
    if u != t && (tx.pc.Checked? || tx.pc.Copied?) {
      PastIsStable(st.base, st.init, st.hist, CommitOf(st, t), tx.begunAt, tx.pc.x);
    } else if u != t && tx.pc.Reading? {
      StoreCursor(st, st', t, tx.pc.x, tx.pc.cursor, tx.begunAt);
    } else if u != t && tx.pc.Loaded? {
      StoreCursor(st, st', t, tx.pc.x, tx.pc.a, tx.begunAt);
    }
  }

  lemma StoreWrite(st: State, st': State, t: TxId, u: TxId, i: nat)
    requires TxsOk(st) && Publishes(st, st', t) && u in st.txs && i < |st.txs[u].writeset|
    ensures WriteOk(st', u, st'.txs[u], i)
  {
    var tx := st.txs[u];
    assert TxOk(st, u, tx);
    assert WriteOk(st, u, tx, i);
    PastIsStable(st.base, st.init, st.hist, CommitOf(st, t), tx.begunAt, tx.writeset[i].dst);
    PastIsStable(st.base, st.init, st.hist, CommitOf(st, t), |st.hist|, tx.writeset[i].dst);
    if u != t && i >= FirstInstalled(tx) {
      LatchedNotPublished(st, t, u, i);
    }
  }

  lemma StoreWrites(st: State, st': State, t: TxId, u: TxId)
    requires TxsOk(st) && Publishes(st, st', t) && u in st.txs
    ensures WritesOk(st', u, st'.txs[u])
  {
    forall i | 0 <= i < |st.txs[u].writeset| ensures WriteOk(st', u, st'.txs[u], i) {
      StoreWrite(st, st', t, u, i);
    }
  }

  lemma StoreTx(st: State, st': State, t: TxId, u: TxId)
    requires TxsOk(st) && LockOk(st) && BaseOk(st) && Publishes(st, st', t) && u in st.txs
    ensures TxOk(st', u, st'.txs[u])
  {
    var tx := st.txs[u];
    assert TxOk(st, u, tx) && TxOk(st, t, st.txs[t]);
    SettledAfter(st, st', t);
    StorePc(st, st', t, u);
    StoreWrites(st, st', t, u);
    SeenStays(st, tx.seen, tx.begunAt, CommitOf(st, t));
    StoreCut(st.hist, CommitOf(st, t), tx.snapshot, tx.begunAt);
  }

  /** A newer commit is not within the snapshot. */
  lemma StoreCut(hist: seq<Commit>, e: Commit, snapshot: nat, cut: nat)
    requires CutOk(hist, |hist|, snapshot, cut) && snapshot < e.version
    ensures CutOk(hist + [e], |hist| + 1, snapshot, cut)
  {
  }

  /** One more commit leaves what was seen earlier as it was. */
  lemma SeenStays(st: State, seen: seq<(Slot, Value)>, cut: nat, e: Commit)
    requires SeenOk(st.init, st.hist, seen, cut) && cut <= |st.hist|
    ensures SeenOk(st.init, st.hist + [e], seen, cut)
  {
    forall i | 0 <= i < |seen| ensures seen[i].1 == ReplayAt(st.init, st.hist + [e], cut, seen[i].0) {
      PastIsStable(st.base, st.init, st.hist, e, cut, seen[i].0);
    }
  }

  lemma StoreTxs(st: State, st': State, t: TxId)
    requires TxsOk(st) && LockOk(st) && BaseOk(st) && Publishes(st, st', t)
    ensures TxsOk(st')
  {
    forall u | u in st'.txs ensures TxOk(st', u, st'.txs[u]) {
      StoreTx(st, st', t, u);
    }
  }

  lemma KeepStoreVersion(st: State, t: TxId)
    requires Inv(st) && t in st.txs && DoStoreVersion(st, t).Some?
    ensures Inv(DoStoreVersion(st, t).value)
  {
    var st' := DoStoreVersion(st, t).value;
    assert TxOk(st, t, st.txs[t]);
    SettledAfter(st, st', t);
    StoreHistShape(st, st', t);
    StoreHistHeap(st, st', t);
    StoreHeap(st, st', t);
    StoreHeads(st, st', t);
    StoreTxs(st, st', t);
  }

  // ---------------------------------------------------------------- all labels, all runs

  lemma KeepInClosure(st: State, l: Label)
    requires Inv(st) && l.t in st.txs && InClosure(l) && StepInClosure(st, l).Some?
    ensures Inv(StepInClosure(st, l).value)
  {
    match l
    case StartRead(t, x, strict) => KeepStartRead(st, t, x, strict);
    case Hop(t) => KeepHop(st, t);
    case LoadHead(t, x) => KeepLoadHead(st, t, x);
    case AllocLog(t, a) => KeepAllocLog(st, t, a);
    case CheckHead(t) => KeepCheckHead(st, t);
    case CopyObject(t, a) => KeepCopyObject(st, t, a);
    case OutOfMemory(t) => KeepOutOfMemory(st, t);
    case InstallCopy(t) => KeepInstallCopy(st, t);
    case Mutate(t, i, v) => KeepMutate(st, t, i, v);
  }

  lemma KeepAtEnd(st: State, l: Label)
    requires Inv(st) && l.t in st.txs && !InClosure(l) && StepAtEnd(st, l).Some?
    ensures Inv(StepAtEnd(st, l).value)
  {
    match l
    case CommitReadOnly(t) => KeepCommitReadOnly(st, t);
    case LockCounter(t) => KeepLockCounter(st, t);
    case LoadEntry(t) => KeepLoadEntry(st, t);
    case CompareEntry(t) => KeepCompareEntry(st, t);
    case StoreVersion(t) => KeepStoreVersion(st, t);
    case Unlock(t) => KeepUnlock(st, t);
    case StartAbort(t) => KeepStartAbort(st, t);
    case RollbackOne(t) => KeepRollbackOne(st, t);
    case EndAbort(t) => KeepEndAbort(st, t);
  }

  /** Every label keeps the invariant. */
  lemma KeepStep(st: State, l: Label)
    requires Inv(st) && Step(st, l).Some?
    ensures Inv(Step(st, l).value)
  {
    if l.Begin? {
      KeepBegin(st, l.t);
    } else if InClosure(l) {
      KeepInClosure(st, l);
    } else {
      KeepAtEnd(st, l);
    }
  }

  /** A run keeps the invariant from any state that has it. */
  lemma {:induction false} KeepRun(st: State, ls: seq<Label>)
    requires Inv(st) && Run(st, ls).Some?
    ensures Inv(Run(st, ls).value)
    decreases |ls|
  {
    if |ls| > 0 {
      KeepRun(st, ls[..|ls| - 1]);
      KeepStep(Run(st, ls[..|ls| - 1]).value, ls[|ls| - 1]);
    }
  }

  /** Every reachable state of every interleaving has the invariant. */
  lemma ReachableInv(st: State)
    requires Reachable(st)
    ensures Inv(st)
  {
    var st0, ls := RunToReachable(st);
    InitialInv(st0);
    KeepRun(st0, ls);
  }

  lemma {:induction false} TraceRuns(ss: seq<State>, ls: seq<Label>, k: nat)
    requires Trace(ss, ls) && k <= |ls|
    ensures Run(ss[0], ls[..k]) == Some(ss[k])
  {
    if k > 0 {
      TraceRuns(ss, ls, k - 1);
      assert ls[..k][..k - 1] == ls[..k - 1];
      assert StepAt(ss, ls, k - 1);
    }
  }

  /** A reachable state is the end of a run from an initial state. */
  lemma RunToReachable(st: State) returns (st0: State, ls: seq<Label>)
    requires Reachable(st)
    ensures Initial(st0) && Run(st0, ls) == Some(st)
  {
    var ss: seq<State>, ks: seq<Label> :| History(ss, ks) && st == ss[|ks|];
    TraceRuns(ss, ks, |ks|);
    assert ks[..|ks|] == ks;
    st0, ls := ss[0], ks;
  }

  lemma InitialIsReachable(st: State)
    requires Initial(st)
    ensures Reachable(st)
  {
    assert History([st], []);
  }

  /** One more label leads from a reachable state to a reachable state. */
  lemma Go(st: State, l: Label, st': State)
    requires Reachable(st) && Step(st, l) == Some(st')
    ensures Reachable(st')
  {
    var ss: seq<State>, ls: seq<Label> :| History(ss, ls) && st == ss[|ls|];
    OneMoreStep(ss, ls, l, st');
    assert History(ss + [st'], ls + [l]);
  }

  lemma OneMoreStep(ss: seq<State>, ls: seq<Label>, l: Label, st': State)
    requires Trace(ss, ls) && Step(ss[|ls|], l) == Some(st')
    ensures Trace(ss + [st'], ls + [l])
  {
    forall i | 0 <= i < |ls + [l]| ensures StepAt(ss + [st'], ls + [l], i) {
      if i < |ls| {
        EarlierStep(ss, ls, l, st', i);
      } else {
        LastStep(ss, ls, l, st');
      }
    }
  }

  lemma EarlierStep(ss: seq<State>, ls: seq<Label>, l: Label, st': State, i: nat)
    requires |ss| == |ls| + 1 && i < |ls| && StepAt(ss, ls, i)
    ensures StepAt(ss + [st'], ls + [l], i)
  {
    assert (ss + [st'])[i] == ss[i] && (ss + [st'])[i + 1] == ss[i + 1] && (ls + [l])[i] == ls[i];
  }

  lemma LastStep(ss: seq<State>, ls: seq<Label>, l: Label, st': State)
    requires |ss| == |ls| + 1 && Step(ss[|ls|], l) == Some(st')
    ensures StepAt(ss + [st'], ls + [l], |ls|)
  {
  }

  /** There is always an address that was never used. */
  lemma FreshExists(st: State) returns (a: Addr)
    ensures FreshAddr(st, a)
  {
    a := Above(st.heap.Keys + st.logs.Keys);
  }

  ghost function Above(s: set<Addr>): (a: Addr)
    ensures forall b :: b in s ==> b < a
  {
    if s == {} then 0
    else
      var c :| c in s;
      var rest := Above(s - {c});
      assert s == (s - {c}) + {c};
      if c < rest then rest else c + 1
  }
}
