/** The invariant of the protocol, what follows from it, and what every label but one leaves alone. */
module Invariant {
  import opened Basics
  import opened Protocol

  // ---------------------------------------------------------------- history

  /** The object of cell x after the first j commits. */
  function Newest(base: map<Slot, Addr>, hist: seq<Commit>, j: nat, x: Slot): Addr {
    if j == 0 || j > |hist| then (if x in base then base[x] else 0)
    else if x in hist[j - 1].objs then hist[j - 1].objs[x]
    else Newest(base, hist, j - 1, x)
  }

  /** The value of cell x after replaying the first j commits on the initial values. */
  function ReplayAt(init: map<Slot, Value>, hist: seq<Commit>, j: nat, x: Slot): Value {
    if j == 0 || j > |hist| then (if x in init then init[x] else [])
    else if x in hist[j - 1].vals then hist[j - 1].vals[x]
    else ReplayAt(init, hist, j - 1, x)
  }

  /** Exactly the first `cut` of n commits have versions within the snapshot. */
  ghost predicate CutOk(hist: seq<Commit>, n: nat, snapshot: nat, cut: nat) {
    && cut <= n <= |hist|
    && forall j :: 0 <= j < n ==> (j < cut <==> hist[j].version <= snapshot)
  }

  ghost predicate SeenOk(init: map<Slot, Value>, hist: seq<Commit>, seen: seq<(Slot, Value)>, cut: nat) {
    forall i :: 0 <= i < |seen| ==> seen[i].0 in init && seen[i].1 == ReplayAt(init, hist, cut, seen[i].0)
  }

  /** Entry k: versions increase, reads came from its snapshot, nobody wrote its cells since. */
  ghost predicate EntryShape(init: map<Slot, Value>, hist: seq<Commit>, k: nat)
    requires k < |hist|
  {
    var e := hist[k];
    && 1 < e.version && 1 <= e.snapshot < e.version
    && (forall j :: 0 <= j < k ==> hist[j].version < e.version)
    && CutOk(hist, k, e.snapshot, e.cut)
    && e.objs.Keys == e.vals.Keys && e.objs.Keys <= init.Keys
    && (forall j, x :: e.cut <= j < k && x in hist[j].objs ==> x !in e.objs)
    && SeenOk(init, hist, e.seen, e.cut)
  }

  ghost predicate HistShape(init: map<Slot, Value>, hist: seq<Commit>) {
    forall k {:trigger EntryShape(init, hist, k)} :: 0 <= k < |hist| ==> EntryShape(init, hist, k)
  }

  /** The heap object of entry k for cell x carries the entry's version and value and links on. */
  ghost predicate EntryObject(st: State, k: nat, x: Slot)
    requires k < |st.hist| && x in st.hist[k].objs
  {
    var a := st.hist[k].objs[x];
    && a in st.heap
    && st.heap[a].home == x
    && st.heap[a].version.Indirect?
    && VerAt(st, a) == st.hist[k].version
    && x in st.hist[k].vals && st.heap[a].val == st.hist[k].vals[x]
    && st.heap[a].other == Some(Newest(st.base, st.hist, k, x))
  }

  ghost predicate HistHeap(st: State) {
    && (forall k, x {:trigger EntryObject(st, k, x)} ::
          0 <= k < |st.hist| && x in st.hist[k].objs ==> EntryObject(st, k, x))
    && (forall k :: 0 <= k < |st.hist| ==> st.hist[k].version <= Settled(st))
  }

  // ---------------------------------------------------------------- shared memory

  predicate HoldsLock(pc: Pc) {
    pc.Validating? || pc.Comparing? || pc.Invalid? || pc.Published?
  }

  /** The largest version number that can be stored so far. */
  function Settled(st: State): int {
    if st.lock.Some? && st.lock.value in st.txs && !st.txs[st.lock.value].pc.Published?
    then st.counter - 1 else st.counter
  }

  ghost predicate BaseOk(st: State) {
    && st.slots.Keys == st.base.Keys == st.init.Keys
    && st.counter >= 1 && Settled(st) >= 1
    && forall x :: x in st.base ==>
         st.base[x] in st.heap && st.heap[st.base[x]] == Obj(Direct(1), None, st.init[x], x, 0)
  }

  ghost predicate ObjOk(st: State, a: Addr)
    requires a in st.heap
  {
    var o := st.heap[a];
    && (o.version.Direct? ==> o.version.number == 1)
    && (o.version.Indirect? ==> o.version.log in st.logs && o.other.Some?)
    && (o.other.Some? ==>
          var b := o.other.value;
          && b in st.heap && st.heap[b].home == o.home && VerAt(st, b) > 0
          && (VerAt(st, a) > 0 ==> VerAt(st, b) < VerAt(st, a)))
  }

  ghost predicate HeapOk(st: State) {
    && (forall a {:trigger ObjOk(st, a)} :: a in st.heap ==> ObjOk(st, a))
    && (forall l :: l in st.logs ==> st.logs[l].word <= Settled(st) && st.logs[l].word != 1)
  }

  /** The first writeset entry that is still installed. */
  function FirstInstalled(tx: Tx): nat {
    match tx.pc
    case RollingBack(i) => i
    case Published => |tx.writeset|
    case Panicked => |tx.writeset|
    case Finished(_) => |tx.writeset|
    case _ => 0
  }

  ghost predicate Wrote(tx: Tx, x: Slot, a: Addr) {
    exists i :: 0 <= i < |tx.writeset| && tx.writeset[i].dst == x && tx.writeset[i].copy == a
  }

  ghost predicate Latches(tx: Tx, x: Slot, a: Addr) {
    exists i :: FirstInstalled(tx) <= i < |tx.writeset| && tx.writeset[i].dst == x && tx.writeset[i].copy == a
  }

  /** A cell holds the newest committed object, or an uncommitted copy its owner latched it with. */
  ghost predicate HeadOk(st: State, x: Slot)
    requires x in st.slots
  {
    var a := st.slots[x];
    && a in st.heap && st.heap[a].home == x
    && (|| a == Newest(st.base, st.hist, |st.hist|, x)
        || (st.heap[a].owner in st.txs && Latches(st.txs[st.heap[a].owner], x, a)))
  }

  ghost predicate HeadsOk(st: State) {
    forall x {:trigger HeadOk(st, x)} :: x in st.slots ==> HeadOk(st, x)
  }

  ghost predicate LockOk(st: State) {
    && (st.lock.Some? ==> st.lock.value in st.txs && HoldsLock(st.txs[st.lock.value].pc))
    && (forall t :: t in st.txs && HoldsLock(st.txs[t].pc) ==> st.lock == Some(t))
  }

  // ---------------------------------------------------------------- transactions

  /** a was the newest object of x at some commit count from `lo` on. */
  ghost predicate WasNewest(st: State, x: Slot, a: Addr, lo: nat) {
    exists j :: lo <= j <= |st.hist| && a == Newest(st.base, st.hist, j, x)
  }

  /** A cursor stands on a formerly newest object, or on a copy above one, maybe rolled back. */
  ghost predicate CursorOk(st: State, x: Slot, a: Addr, lo: nat) {
    && x in st.slots && a in st.heap && st.heap[a].home == x
    && (|| WasNewest(st, x, a, lo)
        || (&& VerAt(st, a) == 0 && st.heap[a].other.Some?
            && st.heap[a].owner in st.txs && Wrote(st.txs[st.heap[a].owner], x, a)
            && WasNewest(st, x, st.heap[a].other.value, lo)))
  }

  ghost predicate WriteOk(st: State, t: TxId, tx: Tx, i: nat)
    requires i < |tx.writeset|
  {
    var w := tx.writeset[i];
    && w.dst in st.slots && tx.log.Some?
    && w.copy in st.heap
    && st.heap[w.copy] == Obj(Indirect(tx.log.value), Some(w.current), st.heap[w.copy].val, w.dst, t)
    && tx.begunAt <= |st.hist| && w.current == Newest(st.base, st.hist, tx.begunAt, w.dst)
    && (i >= FirstInstalled(tx) ==>
          st.slots[w.dst] == w.copy && w.current == Newest(st.base, st.hist, |st.hist|, w.dst))
    && (forall j :: 0 <= j < i ==> tx.writeset[j].dst != w.dst)
  }

  ghost predicate WritesOk(st: State, t: TxId, tx: Tx) {
    forall i {:trigger WriteOk(st, t, tx, i)} :: 0 <= i < |tx.writeset| ==> WriteOk(st, t, tx, i)
  }

  predicate Stored(pc: Pc) {
    pc.Published? || pc == Finished(true)
  }

  ghost predicate LogOk(st: State, t: TxId, tx: Tx) {
    tx.log.Some? ==>
      && tx.log.value in st.logs && st.logs[tx.log.value].owner == t
      && (Stored(tx.pc) <==> st.logs[tx.log.value].word != 0)
  }

  predicate NeverWrote(tx: Tx, x: Slot) {
    forall k :: 0 <= k < |tx.writeset| ==> tx.writeset[k].dst != x
  }

  ghost predicate PcOk(st: State, t: TxId, tx: Tx) {
    match tx.pc
    case Reading(x, a, _) => CursorOk(st, x, a, tx.begunAt)
    case Loaded(x, a) => CursorOk(st, x, a, tx.begunAt)
    case Checked(x, a) =>
      tx.log.Some? && x in st.slots && tx.begunAt <= |st.hist| && a == Newest(st.base, st.hist, tx.begunAt, x)
    case Copied(x, a, c) =>
      && tx.log.Some? && x in st.slots && tx.begunAt <= |st.hist|
      && a == Newest(st.base, st.hist, tx.begunAt, x)
      && c in st.heap
      && st.heap[c] == Obj(Indirect(tx.log.value), Some(a), ReplayAt(st.init, st.hist, tx.begunAt, x), x, t)
      && (forall i :: 0 <= i < |tx.writeset| ==> tx.writeset[i].copy != c)
    case Validating(i) => tx.log.Some? && i <= |tx.readset|
    case Comparing(i, a) =>
      && tx.log.Some? && i < |tx.readset| && a in st.heap
      && (forall k :: 0 <= k < |tx.writeset| && tx.writeset[k].dst == tx.readset[i] ==> tx.writeset[k].copy == a)
    case Invalid => tx.log.Some? && exists i :: 0 <= i < |tx.readset| && NeverWrote(tx, tx.readset[i])
    case Published => tx.log.Some?
    case RollingBack(i) => i <= |tx.writeset|
    case Running(o) => o != InvalidLogicalAddress
    case Panicked => false
    case Finished(_) => true
  }

  ghost predicate TxOk(st: State, t: TxId, tx: Tx) {
    && 1 <= tx.snapshot <= (if st.lock.Some? then st.counter - 1 else st.counter)
    && CutOk(st.hist, |st.hist|, tx.snapshot, tx.begunAt)
    && LogOk(st, t, tx)
    && WritesOk(st, t, tx)
    && PcOk(st, t, tx)
    && SeenOk(st.init, st.hist, tx.seen, tx.begunAt)
    && (forall i :: 0 <= i < |tx.readset| ==> tx.readset[i] in st.slots)
  }

  ghost predicate TxsOk(st: State) {
    forall t {:trigger TxOk(st, t, st.txs[t])} :: t in st.txs ==> TxOk(st, t, st.txs[t])
  }

  ghost predicate Inv(st: State) {
    && BaseOk(st)
    && HistShape(st.init, st.hist)
    && HistHeap(st)
    && HeapOk(st)
    && HeadsOk(st)
    && LockOk(st)
    && TxsOk(st)
  }

  lemma InitialInv(st: State)
    requires Initial(st)
    ensures Inv(st)
  {
  }

  // ---------------------------------------------------------------- facts about the newest objects

  /** The newest object after j commits is committed, belongs to x and holds the replayed value. */
  lemma {:induction false} NewestIsCommitted(st: State, j: nat, x: Slot)
    requires BaseOk(st) && HistShape(st.init, st.hist) && HistHeap(st)
    requires j <= |st.hist| && x in st.slots
    ensures var a := Newest(st.base, st.hist, j, x);
      && a in st.heap && st.heap[a].home == x && VerAt(st, a) > 0
      && st.heap[a].val == ReplayAt(st.init, st.hist, j, x)
      && (forall k :: j <= k < |st.hist| ==> VerAt(st, a) < st.hist[k].version)
  {
    if j == 0 {
      forall k | 0 <= k < |st.hist| ensures 1 < st.hist[k].version {
        assert EntryShape(st.init, st.hist, k);
      }
    } else {
      assert EntryShape(st.init, st.hist, j - 1);
      if x in st.hist[j - 1].objs {
        assert EntryObject(st, j - 1, x);
        forall k | j <= k < |st.hist| ensures st.hist[j - 1].version < st.hist[k].version {
          assert EntryShape(st.init, st.hist, k);
        }
      } else {
        NewestIsCommitted(st, j - 1, x);
      }
    }
  }

  /** Between j and k, either nothing touched x, or the newest object is later than entry j. */
  lemma {:induction false} NewestBetween(st: State, j: nat, k: nat, x: Slot)
    requires BaseOk(st) && HistShape(st.init, st.hist) && HistHeap(st)
    requires j <= k <= |st.hist| && x in st.slots
    ensures || (Newest(st.base, st.hist, k, x) == Newest(st.base, st.hist, j, x)
                && forall i :: j <= i < k ==> x !in st.hist[i].objs)
            || (j < |st.hist| && VerAt(st, Newest(st.base, st.hist, k, x)) >= st.hist[j].version)
  {
    if j < k {
      if x in st.hist[k - 1].objs {
        assert EntryObject(st, k - 1, x);
        assert EntryShape(st.init, st.hist, k - 1);
      } else {
        NewestBetween(st, j, k - 1, x);
      }
    }
  }

  /** Appending a commit leaves the past alone. */
  lemma {:induction false} PastIsStable(base: map<Slot, Addr>, init: map<Slot, Value>, hist: seq<Commit>,
                                           e: Commit, j: nat, x: Slot)
    requires j <= |hist|
    ensures Newest(base, hist + [e], j, x) == Newest(base, hist, j, x)
    ensures ReplayAt(init, hist + [e], j, x) == ReplayAt(init, hist, j, x)
  {
    if j > 0 {
      PastIsStable(base, init, hist, e, j - 1, x);
    }
  }

  /** An object accepted under a snapshot is the one its cell had when the snapshot was taken. */
  lemma AcceptedIsSnapshot(st: State, x: Slot, a: Addr, snapshot: nat, cut: nat)
    requires BaseOk(st) && HistShape(st.init, st.hist) && HistHeap(st)
    requires CutOk(st.hist, |st.hist|, snapshot, cut) && CursorOk(st, x, a, cut)
    requires Accepts(st, a, snapshot)
    ensures a == Newest(st.base, st.hist, cut, x)
    ensures st.heap[a].val == ReplayAt(st.init, st.hist, cut, x)
  {
    var j :| cut <= j <= |st.hist| && a == Newest(st.base, st.hist, j, x);
    NewestBetween(st, cut, j, x);
    NewestIsCommitted(st, cut, x);
  }

  /** A refused cursor that follows `other` stays on the past of its cell. */
  lemma RefusedMovesBack(st: State, x: Slot, a: Addr, snapshot: nat, cut: nat)
    requires BaseOk(st) && HistShape(st.init, st.hist) && HistHeap(st) && HeapOk(st)
    requires CutOk(st.hist, |st.hist|, snapshot, cut) && CursorOk(st, x, a, cut)
    requires 1 <= snapshot && !Accepts(st, a, snapshot)
    ensures st.heap[a].other.Some? && CursorOk(st, x, st.heap[a].other.value, cut)
  {
    if WasNewest(st, x, a, cut) {
      var j :| cut <= j <= |st.hist| && a == Newest(st.base, st.hist, j, x);
      NewestIsCommitted(st, j, x);
      NewestLink(st, cut, j, x);
    } else {
      var b := st.heap[a].other.value;
      var j :| cut <= j <= |st.hist| && b == Newest(st.base, st.hist, j, x);
      NewestIsCommitted(st, j, x);
    }
  }

  /** Below the newest object of x after j commits lies the newest one of an earlier count. */
  lemma {:induction false} NewestLink(st: State, cut: nat, j: nat, x: Slot)
    requires BaseOk(st) && HistShape(st.init, st.hist) && HistHeap(st)
    requires cut <= j <= |st.hist| && x in st.slots
    requires forall k :: 0 <= k < cut ==> st.hist[k].version < VerAt(st, Newest(st.base, st.hist, j, x))
    requires VerAt(st, Newest(st.base, st.hist, j, x)) > 1
    ensures var a := Newest(st.base, st.hist, j, x);
      a in st.heap && st.heap[a].other.Some? && WasNewest(st, x, st.heap[a].other.value, cut)
      && st.heap[a].other.value in st.heap && st.heap[st.heap[a].other.value].home == x
  {
    if j > 0 {
      if x in st.hist[j - 1].objs {
        assert EntryObject(st, j - 1, x);
        assert EntryShape(st.init, st.hist, j - 1);
        assert j - 1 >= cut;
        NewestIsCommitted(st, j - 1, x);
      } else {
        NewestIsCommitted(st, j - 1, x);
        if cut < j {
          NewestLink(st, cut, j - 1, x);
        }
      }
    }
  }

  // ---------------------------------------------------------------- what every action but the store keeps

  /** Objects, versions and writesets only grow; only uncommitted bytes may change. */
  ghost predicate Extends(st: State, st': State) {
    && st'.base == st.base && st'.init == st.init && st'.hist == st.hist
    && st'.slots.Keys == st.slots.Keys
    && Settled(st) <= Settled(st') && st.counter <= st'.counter
    && (forall a {:trigger SameObject(st, st', a)} :: a in st.heap ==> SameObject(st, st', a))
    && (forall u :: u in st.txs ==> u in st'.txs && st.txs[u].writeset <= st'.txs[u].writeset)
  }

  ghost predicate SameObject(st: State, st': State, a: Addr)
    requires a in st.heap
  {
    && a in st'.heap && VerAt(st', a) == VerAt(st, a)
    && st'.heap[a].(val := st.heap[a].val) == st.heap[a]
    && (VerAt(st, a) > 0 ==> st'.heap[a].val == st.heap[a].val)
  }

  lemma HistoryKept(st: State, st': State)
    requires BaseOk(st) && HistShape(st.init, st.hist) && HistHeap(st) && Extends(st, st')
    ensures BaseOk(st') && HistShape(st'.init, st'.hist) && HistHeap(st')
  {
    forall k, x | 0 <= k < |st'.hist| && x in st'.hist[k].objs ensures EntryObject(st', k, x) {
      assert EntryObject(st, k, x);
      assert EntryShape(st.init, st.hist, k);
      assert SameObject(st, st', st.hist[k].objs[x]);
    }
    forall x | x in st.base ensures SameObject(st, st', st.base[x]) {}
  }

  lemma ObjectKept(st: State, st': State, a: Addr)
    requires a in st.heap && ObjOk(st, a) && Extends(st, st')
    requires st.logs.Keys <= st'.logs.Keys
    ensures a in st'.heap && ObjOk(st', a)
  {
    assert SameObject(st, st', a);
    if st.heap[a].other.Some? {
      assert SameObject(st, st', st.heap[a].other.value);
    }
  }

  lemma HeapKept(st: State, st': State)
    requires HeapOk(st) && Extends(st, st') && st'.heap.Keys == st.heap.Keys && st'.logs == st.logs
    ensures HeapOk(st')
  {
    forall a | a in st'.heap ensures ObjOk(st', a) {
      ObjectKept(st, st', a);
    }
  }

  /** A cursor stays good. */
  lemma CursorKept(st: State, st': State, x: Slot, a: Addr, lo: nat)
    requires CursorOk(st, x, a, lo) && Extends(st, st')
    ensures CursorOk(st', x, a, lo)
  {
    assert SameObject(st, st', a);
    if WasNewest(st, x, a, lo) {
      assert WasNewest(st', x, a, lo);
    } else {
      var u := st.heap[a].owner;
      var i :| 0 <= i < |st.txs[u].writeset| && st.txs[u].writeset[i].dst == x && st.txs[u].writeset[i].copy == a;
      assert st'.txs[u].writeset[i] == st.txs[u].writeset[i];
      assert WasNewest(st', x, st'.heap[a].other.value, lo);
    }
  }

  /** The writeset of u stays good, given that the cells it latches are left alone. */
  lemma WritesKept(st: State, st': State, u: TxId, tx: Tx, tx': Tx)
    requires WritesOk(st, u, tx) && Extends(st, st')
    requires tx'.writeset == tx.writeset && tx'.log == tx.log && tx'.begunAt == tx.begunAt
    requires FirstInstalled(tx') >= FirstInstalled(tx)
    requires forall i :: FirstInstalled(tx') <= i < |tx.writeset| && tx.writeset[i].dst in st.slots ==>
      st'.slots[tx.writeset[i].dst] == st.slots[tx.writeset[i].dst]
    ensures WritesOk(st', u, tx')
  {
    forall i | 0 <= i < |tx'.writeset| ensures WriteOk(st', u, tx', i) {
      assert WriteOk(st, u, tx, i);
      assert SameObject(st, st', tx.writeset[i].copy);
    }
  }

  /** A position in the code stays good. */
  lemma PcKept(st: State, st': State, u: TxId, tx: Tx)
    requires PcOk(st, u, tx) && Extends(st, st')
    requires tx.pc.Copied? ==> tx.pc.copy in st'.heap && st'.heap[tx.pc.copy] == st.heap[tx.pc.copy]
    ensures PcOk(st', u, tx)
  {
    if tx.pc.Reading? {
      CursorKept(st, st', tx.pc.x, tx.pc.cursor, tx.begunAt);
    } else if tx.pc.Loaded? {
      CursorKept(st, st', tx.pc.x, tx.pc.a, tx.begunAt);
    } else if tx.pc.Comparing? {
      assert SameObject(st, st', tx.pc.a);
    }
  }

  /** A head that is latched before and after by the same copy stays good. */
  lemma HeadKept(st: State, st': State, x: Slot)
    requires x in st.slots && HeadOk(st, x) && Extends(st, st')
    requires st'.slots[x] == st.slots[x]
    requires forall u :: u in st.txs && Latches(st.txs[u], x, st.slots[x]) ==>
      FirstInstalled(st'.txs[u]) <= FirstInstalled(st.txs[u])
    ensures HeadOk(st', x)
  {
    var a := st.slots[x];
    assert SameObject(st, st', a);
    if a != Newest(st.base, st.hist, |st.hist|, x) {
      var u := st.heap[a].owner;
      var i :| FirstInstalled(st.txs[u]) <= i < |st.txs[u].writeset| && st.txs[u].writeset[i].dst == x
        && st.txs[u].writeset[i].copy == a;
      assert st'.txs[u].writeset[i] == st.txs[u].writeset[i];
    }
  }

  // ---------------------------------------------------------------- actions on private state

  /** tx is the same transaction as before, with another private position. */
  ghost predicate SameRole(tx: Tx, tx': Tx) {
    && tx'.snapshot == tx.snapshot && tx'.begunAt == tx.begunAt
    && tx'.log == tx.log && tx'.writeset == tx.writeset
    && FirstInstalled(tx') == FirstInstalled(tx)
    && HoldsLock(tx'.pc) == HoldsLock(tx.pc)
    && tx'.pc.Published? == tx.pc.Published?
    && (tx'.log.Some? ==> Stored(tx'.pc) == Stored(tx.pc))
  }

  lemma PrivateExtends(st: State, t: TxId, tx: Tx)
    requires t in st.txs && SameRole(st.txs[t], tx)
    ensures Extends(st, SetTx(st, t, tx))
    ensures Settled(SetTx(st, t, tx)) == Settled(st)
  {
    var st' := SetTx(st, t, tx);
    forall a | a in st.heap ensures SameObject(st, st', a) {
      assert VerAt(st', a) == VerAt(st, a);
    }
  }

  lemma HeadsKept(st: State, st': State)
    requires HeadsOk(st) && Extends(st, st') && st'.slots == st.slots
    requires forall u :: u in st.txs ==> FirstInstalled(st'.txs[u]) <= FirstInstalled(st.txs[u])
    ensures HeadsOk(st')
  {
    forall x | x in st'.slots ensures HeadOk(st', x) {
      HeadKept(st, st', x);
    }
  }

  lemma SharedKept(st: State, st': State)
    requires BaseOk(st) && HistShape(st.init, st.hist) && HistHeap(st) && HeapOk(st) && HeadsOk(st)
    requires Extends(st, st') && st'.slots == st.slots && st'.heap.Keys == st.heap.Keys && st'.logs == st.logs
    requires forall u :: u in st.txs ==> FirstInstalled(st'.txs[u]) <= FirstInstalled(st.txs[u])
    ensures BaseOk(st') && HistShape(st'.init, st'.hist) && HistHeap(st') && HeapOk(st') && HeadsOk(st')
  {
    HistoryKept(st, st');
    HeapKept(st, st');
    HeadsKept(st, st');
  }

  /** A transaction stays good if its new position is good and its latched cells are left alone. */
  lemma TxKept(st: State, st': State, u: TxId, tx: Tx, tx': Tx)
    requires TxOk(st, u, tx) && Extends(st, st')
    requires tx'.snapshot == tx.snapshot && tx'.begunAt == tx.begunAt
    requires tx'.log == tx.log && tx'.writeset == tx.writeset
    requires FirstInstalled(tx') >= FirstInstalled(tx)
    requires forall i :: FirstInstalled(tx') <= i < |tx.writeset| && tx.writeset[i].dst in st.slots ==>
      st'.slots[tx.writeset[i].dst] == st.slots[tx.writeset[i].dst]
    requires st'.lock.Some? ==> tx.snapshot < st'.counter
    requires LogOk(st', u, tx') && PcOk(st', u, tx') && SeenOk(st.init, st.hist, tx'.seen, tx'.begunAt)
    requires forall i :: 0 <= i < |tx'.readset| ==> tx'.readset[i] in st.slots
    ensures TxOk(st', u, tx')
  {
    WritesKept(st, st', u, tx, tx');
  }

  lemma PrivateTxs(st: State, t: TxId, tx: Tx)
    requires LockOk(st) && TxsOk(st) && t in st.txs && SameRole(st.txs[t], tx)
    requires PcOk(st, t, tx) && SeenOk(st.init, st.hist, tx.seen, tx.begunAt)
    requires forall i :: 0 <= i < |tx.readset| ==> tx.readset[i] in st.slots
    ensures TxsOk(SetTx(st, t, tx)) && LockOk(SetTx(st, t, tx))
  {
    var st' := SetTx(st, t, tx);
    PrivateExtends(st, t, tx);
    forall u | u in st'.txs ensures TxOk(st', u, st'.txs[u]) {
      assert TxOk(st, u, st.txs[u]);
      PcKept(st, st', u, st'.txs[u]);
      TxKept(st, st', u, st.txs[u], st'.txs[u]);
    }
  }

  /** Actions that change only one transaction, not its writeset, its log or its hold on the lock. */
  lemma PrivateStep(st: State, t: TxId, tx: Tx)
    requires Inv(st) && t in st.txs && SameRole(st.txs[t], tx)
    requires PcOk(st, t, tx) && SeenOk(st.init, st.hist, tx.seen, tx.begunAt)
    requires forall i :: 0 <= i < |tx.readset| ==> tx.readset[i] in st.slots
    ensures Inv(SetTx(st, t, tx))
  {
    PrivateExtends(st, t, tx);
    SharedKept(st, SetTx(st, t, tx));
    PrivateTxs(st, t, tx);
  }
}
