/**
 Validation does not make `read_for_write` serializable: every store with two cells has a run that
 commits a write skew.
 */
module WriteSkew {
  import opened Basics
  import opened Protocol
  import opened Invariant
  import opened Publication
  import opened Snapshots
  import opened Serializability

  // ---------------------------------------------------------------- single labels

  /** One label, and the state that its action gives. */
  lemma Move(st: State, l: Label, r: Option<State>) returns (st': State)
    requires Reachable(st) && Step(st, l) == r && r.Some?
    ensures Reachable(st') && st' == r.value
  {
    st' := r.value;
    Go(st, l, st');
  }

  /** The write version of a transaction points at a log word. */
  lemma HasLogWord(st: State, t: TxId)
    requires Reachable(st) && t in st.txs && st.txs[t].log.Some?
    ensures st.txs[t].log.value in st.logs
  {
    ReachableInv(st);
    assert TxOk(st, t, st.txs[t]);
  }

  // ---------------------------------------------------------------- whole operations, uninterrupted

  /** Everything but transaction t and its new objects is as before. */
  ghost predicate Calm(st: State, st': State, t: TxId) {
    && st'.counter == st.counter && st'.lock == st.lock && st'.hist == st.hist
    && st'.base == st.base && st'.init == st.init
    && t in st'.txs && st'.txs == st.txs[t := st'.txs[t]]
    && (forall a :: a in st.heap ==> a in st'.heap && st'.heap[a] == st.heap[a] && VerAt(st', a) == VerAt(st, a))
  }

  /** `read_for_write` of a cell whose head is within the snapshot. */
  lemma ReadAlone(st: State, t: TxId, x: Slot) returns (st': State)
    requires Reachable(st) && t in st.txs && st.txs[t].pc.Running? && x in st.slots
    requires st.slots[x] in st.heap && Accepts(st, st.slots[x], st.txs[t].snapshot)
    ensures Reachable(st') && st' == SetTx(st, t, st.txs[t].(readset := st.txs[t].readset + [x],
      seen := st.txs[t].seen + [(x, st.heap[st.slots[x]].val)], pc := Running(Fine)))
  {
    var st1 := Move(st, StartRead(t, x, true), DoStartRead(st, t, x, true));
    st' := Move(st1, Hop(t), DoHop(st1, t));
    assert st'.txs == st.txs[t := st'.txs[t]];
  }

  /** The tests of a first `write` to a cell whose head is within the snapshot. */
  lemma TestsAlone(st: State, t: TxId, x: Slot) returns (st': State, l: Addr)
    requires Reachable(st) && t in st.txs && st.txs[t].pc.Running? && x in st.slots && st.txs[t].log.None?
    requires st.slots[x] in st.heap && Accepts(st, st.slots[x], st.txs[t].snapshot)
    ensures Reachable(st')
    ensures st' == SetTx(st, t, st.txs[t].(log := Some(l), pc := Checked(x, st.slots[x]))).(
      logs := st.logs[l := Log(0, t)])
    ensures forall a :: a in st.heap ==> VerAt(st', a) == VerAt(st, a)
  {
    var st1 := Move(st, LoadHead(t, x), DoLoadHead(st, t, x));
    l := FreshExists(st1);
    var st2 := Move(st1, AllocLog(t, l), DoAllocLog(st1, t, l));
    st' := Move(st2, CheckHead(t), DoCheckHead(st2, t));
    assert st'.txs == st.txs[t := st'.txs[t]];
  }

  lemma OwnLogReadsZero(st: State, t: TxId)
    requires Reachable(st) && t in st.txs && st.txs[t].log.Some? && !Stored(st.txs[t].pc)
    ensures Number(st.logs, Indirect(st.txs[t].log.value)) == 0
  {
    ReachableInv(st);
    assert TxOk(st, t, st.txs[t]);
  }

  /** Copying and installing, after the tests. */
  lemma CopyAlone(st: State, t: TxId) returns (st': State, c: Addr)
    requires Reachable(st) && t in st.txs && st.txs[t].pc.Checked? && st.txs[t].log.Some? && st.txs[t].writeset == []
    requires st.txs[t].pc.x in st.slots && st.slots[st.txs[t].pc.x] == st.txs[t].pc.a && st.txs[t].pc.a in st.heap
    ensures Reachable(st') && c !in st.heap && VerAt(st', c) == 0
    ensures st' == SetTx(st, t, st.txs[t].(writeset := [Write(st.txs[t].pc.x, st.txs[t].pc.a, c)],
        seen := st.txs[t].seen + [(st.txs[t].pc.x, st.heap[st.txs[t].pc.a].val)],
        bufs := st.txs[t].bufs + [st.heap[st.txs[t].pc.a].val], pc := Running(Fine))).(
      slots := st.slots[st.txs[t].pc.x := c],
      heap := st.heap[c :=
        Obj(Indirect(st.txs[t].log.value), Some(st.txs[t].pc.a), st.heap[st.txs[t].pc.a].val, st.txs[t].pc.x, t)])
  {
    OwnLogReadsZero(st, t);
    c := FreshExists(st);
    var st1 := Move(st, CopyObject(t, c), DoCopyObject(st, t, c));
    st' := Move(st1, InstallCopy(t), DoInstallCopy(st1, t));
    assert st1.txs[t].writeset + [Write(st.txs[t].pc.x, st.txs[t].pc.a, c)]
      == [Write(st.txs[t].pc.x, st.txs[t].pc.a, c)];
    assert st'.txs == st.txs[t := st'.txs[t]];
  }

  lemma EditAlone(st: State, t: TxId, v: Value, c: Addr) returns (st': State)
    requires Reachable(st) && t in st.txs && st.txs[t].pc.Running? && |st.txs[t].writeset| > 0
    requires st.txs[t].writeset[0].copy == c && c in st.heap && VerAt(st, c) == 0
    ensures Reachable(st') && Calm(st, st'.(heap := st.heap), t) && st'.slots == st.slots && st'.logs == st.logs
    ensures st'.txs == st.txs[t := st.txs[t].(bufs := Filled(st.txs[t].bufs, 0, v))]
    ensures st'.heap == st.heap[c := st.heap[c].(val := v)]
    ensures forall a :: VerAt(st', a) == VerAt(st, a)
  {
    st' := Move(st, Mutate(t, 0, v), DoMutate(st, t, 0, v));
  }

  /** The first `write` of a transaction, to a cell whose head is within the snapshot. */
  lemma FirstWriteAlone(st: State, t: TxId, x: Slot, v: Value) returns (st': State, c: Addr)
    requires Reachable(st) && t in st.txs && st.txs[t].pc.Running? && x in st.slots
    requires st.txs[t].log.None? && st.txs[t].writeset == []
    requires st.slots[x] in st.heap && Accepts(st, st.slots[x], st.txs[t].snapshot)
    ensures Reachable(st') && Calm(st, st', t) && st'.slots == st.slots[x := c]
    ensures c !in st.heap && c in st'.heap && VerAt(st', c) == 0 && st'.heap[c].val == v
    ensures st'.txs[t].log.Some? && st'.heap[c].version == Indirect(st'.txs[t].log.value)
    ensures st'.txs[t] == st.txs[t].(log := st'.txs[t].log, writeset := [Write(x, st.slots[x], c)],
      seen := st.txs[t].seen + [(x, st.heap[st.slots[x]].val)], pc := Running(Fine), bufs := st'.txs[t].bufs)
  {
    var st1, l := TestsAlone(st, t, x);
    var st2;
    st2, c := CopyAlone(st1, t);
    forall a | a in st.heap ensures VerAt(st2, a) == VerAt(st1, a) {}
    st' := EditAlone(st2, t, v, c);
    assert st'.txs == st.txs[t := st'.txs[t]];
  }

  /** Locking and validating one readset entry whose cell is latched. */
  lemma ValidateAlone(st: State, t: TxId) returns (st': State)
    requires Reachable(st) && t in st.txs && st.txs[t].pc.Running? && st.lock.None?
    requires st.txs[t].log.Some? && |st.txs[t].readset| == 1
    requires st.txs[t].readset[0] in st.slots && VerAt(st, st.slots[st.txs[t].readset[0]]) == 0
    ensures Reachable(st') && st' == Goto(st, t, Validating(1)).(counter := st.counter + 1, lock := Some(t))
  {
    var st1 := Move(st, LockCounter(t), DoLockCounter(st, t));
    var st2 := Move(st1, LoadEntry(t), DoLoadEntry(st1, t));
    st' := Move(st2, CompareEntry(t), DoCompareEntry(st2, t));
    assert st'.txs == st.txs[t := st'.txs[t]];
  }

  /** `commit` of a writer with one readset entry, whose cell is latched at that moment. */
  lemma CommitAlone(st: State, t: TxId) returns (st': State)
    requires Reachable(st) && t in st.txs && st.txs[t].pc.Running? && st.lock.None?
    requires st.txs[t].log.Some? && |st.txs[t].readset| == 1
    requires st.txs[t].readset[0] in st.slots && VerAt(st, st.slots[st.txs[t].readset[0]]) == 0
    ensures Reachable(st') && st'.slots == st.slots && st'.heap == st.heap && st'.init == st.init && st'.base == st.base
    ensures st'.lock.None? && st'.counter == st.counter + 1
    ensures st'.txs == st.txs[t := st.txs[t].(pc := Finished(true))]
    ensures st'.hist == st.hist + [CommitOf(st, t).(version := st.counter + 1)]
    ensures forall a :: a in st.heap ==>
      VerAt(st', a) == (if st.heap[a].version == Indirect(st.txs[t].log.value) then st.counter + 1 else VerAt(st, a))
  {
    HasLogWord(st, t);
    var st1 := ValidateAlone(st, t);
    st' := PublishAlone(st1, t);
    assert st'.txs == st.txs[t := st'.txs[t]];
  }

  lemma StoreAlone(st: State, t: TxId) returns (st': State)
    requires Reachable(st) && t in st.txs && st.txs[t].pc == Validating(|st.txs[t].readset|)
    requires st.txs[t].log.Some? && st.txs[t].log.value in st.logs
    ensures Reachable(st')
    ensures st' == Goto(st, t, Published).(
      logs := st.logs[st.txs[t].log.value := st.logs[st.txs[t].log.value].(word := st.counter)],
      hist := st.hist + [CommitOf(st, t)])
  {
    st' := DoStoreVersion(st, t).value;
    StoreIs(st, t);
    Go(st, StoreVersion(t), st');
  }

  lemma StoreIs(st: State, t: TxId)
    requires t in st.txs && st.txs[t].pc == Validating(|st.txs[t].readset|)
    requires st.txs[t].log.Some? && st.txs[t].log.value in st.logs
    ensures Step(st, StoreVersion(t)) == DoStoreVersion(st, t) && DoStoreVersion(st, t).Some?
  {
  }

  /** Storing the version and releasing the lock, after validation. */
  lemma PublishAlone(st: State, t: TxId) returns (st': State)
    requires Reachable(st) && t in st.txs && st.txs[t].pc == Validating(|st.txs[t].readset|)
    requires st.txs[t].log.Some? && st.txs[t].log.value in st.logs
    ensures Reachable(st')
    ensures st' == Goto(st, t, Finished(true)).(
      logs := st.logs[st.txs[t].log.value := st.logs[st.txs[t].log.value].(word := st.counter)],
      hist := st.hist + [CommitOf(st, t)], lock := None)
  {
    var st1 := StoreAlone(st, t);
    st' := Move(st1, Unlock(t), DoUnlock(st1, t));
    assert st'.txs == st.txs[t := st'.txs[t]];
  }

  // ---------------------------------------------------------------- the skew

  /** Transactions 1 and 2 have each looked, with validation, at the cell the other one will write. */
  ghost predicate BothRead(st0: State, st: State, x: Slot, y: Slot) {
    && x in st0.slots && y in st0.slots && x != y && x in st0.init && y in st0.init
    && st.slots == st0.slots && st.heap == st0.heap && st.init == st0.init
    && st.lock.None? && st.counter == 1 && st.hist == [] && st.txs.Keys == {1, 2}
    && st.txs[1] == Tx(1, None, [], [x], [(x, st0.init[x])], 0, Running(Fine), [])
    && st.txs[2] == Tx(1, None, [], [y], [(y, st0.init[y])], 0, Running(Fine), [])
    && VerAt(st, st.slots[x]) == 1 && VerAt(st, st.slots[y]) == 1
    && st.slots[x] in st.heap && st.heap[st.slots[x]].val == st0.init[x]
    && st.slots[y] in st.heap && st.heap[st.slots[y]].val == st0.init[y]
  }

  lemma RunBegins(st0: State) returns (st: State)
    requires Initial(st0)
    ensures Reachable(st) && st == st0.(txs := st.txs) && st.txs.Keys == {1, 2}
    ensures st.txs[1] == st.txs[2] == Tx(1, None, [], [], [], 0, Running(Fine), [])
  {
    InitialIsReachable(st0);
    var st1 := Move(st0, Begin(1), DoBegin(st0, 1));
    st := Move(st1, Begin(2), DoBegin(st1, 2));
  }

  lemma RunBothReads(st0: State, st: State, x: Slot, y: Slot) returns (st': State)
    requires Reachable(st) && st == st0.(txs := st.txs) && st.txs.Keys == {1, 2} && x != y
    requires st.txs[1] == st.txs[2] == Tx(1, None, [], [], [], 0, Running(Fine), [])
    requires st.lock.None? && st.counter == 1 && st.hist == [] && x in st.init && y in st.init
    requires x in st.slots && st.slots[x] in st.heap && st.heap[st.slots[x]] == Obj(Direct(1), None, st.init[x], x, 0)
    requires y in st.slots && st.slots[y] in st.heap && st.heap[st.slots[y]] == Obj(Direct(1), None, st.init[y], y, 0)
    ensures Reachable(st') && BothRead(st0, st', x, y)
  {
    var st1 := ReadAlone(st, 1, x);
    st' := ReadAlone(st1, 2, y);
  }

  lemma RunReads(st0: State, x: Slot, y: Slot) returns (st: State)
    requires Initial(st0) && x in st0.slots && y in st0.slots && x != y
    ensures Reachable(st) && BothRead(st0, st, x, y)
  {
    var st1 := RunBegins(st0);
    st := RunBothReads(st0, st1, x, y);
  }

  /** Transaction 1 has written w to y, and transaction 2 has written v to x. */
  ghost predicate BothWrote(st0: State, st: State, x: Slot, y: Slot, v: Value, w: Value, cx: Addr, cy: Addr) {
    && x in st0.init && y in st0.init && x != y && st.init == st0.init
    && x in st.slots && y in st.slots && st.slots[x] == cx && st.slots[y] == cy
    && cx in st.heap && cy in st.heap && st.heap[cx].val == v && st.heap[cy].val == w
    && VerAt(st, cx) == 0 && VerAt(st, cy) == 0
    && st.lock.None? && st.counter == 1 && st.hist == [] && st.txs.Keys == {1, 2}
    && st.txs[1].log.Some? && st.txs[2].log.Some? && st.txs[1].log != st.txs[2].log
    && st.heap[cy].version == Indirect(st.txs[1].log.value) && st.heap[cx].version == Indirect(st.txs[2].log.value)
    && (exists b :: st.txs[1] ==
         Tx(1, st.txs[1].log, [Write(y, b, cy)], [x], [(x, st0.init[x]), (y, st0.init[y])], 0, Running(Fine),
            st.txs[1].bufs))
    && (exists b :: st.txs[2] ==
         Tx(1, st.txs[2].log, [Write(x, b, cx)], [y], [(y, st0.init[y]), (x, st0.init[x])], 0, Running(Fine),
            st.txs[2].bufs))
  }

  lemma DistinctLogs(st: State, t: TxId, u: TxId)
    requires Reachable(st) && t in st.txs && u in st.txs && t != u && st.txs[t].log.Some?
    ensures st.txs[t].log != st.txs[u].log
  {
    ReachableInv(st);
    assert TxOk(st, t, st.txs[t]) && TxOk(st, u, st.txs[u]);
  }

  lemma RunWrites(st0: State, st: State, x: Slot, y: Slot, v: Value, w: Value) returns (st': State, cx: Addr, cy: Addr)
    requires Reachable(st) && BothRead(st0, st, x, y)
    ensures Reachable(st') && BothWrote(st0, st', x, y, v, w, cx, cy)
  {
    var st1;
    st1, cy := FirstWriteAlone(st, 1, y, w);
    st', cx := FirstWriteAlone(st1, 2, x, v);
    assert st'.txs[1] ==
      Tx(1, st'.txs[1].log, [Write(y, st.slots[y], cy)], [x], [(x, st0.init[x]), (y, st0.init[y])], 0, Running(Fine),
         st'.txs[1].bufs);
    assert st'.txs[2] ==
      Tx(1, st'.txs[2].log, [Write(x, st.slots[x], cx)], [y], [(y, st0.init[y]), (x, st0.init[x])], 0, Running(Fine),
         st'.txs[2].bufs);
    DistinctLogs(st', 1, 2);
  }

  /** The history entry of a transaction that wrote one cell. */
  lemma OneWrite(st: State, t: TxId, x: Slot, c: Addr, v: Value)
    requires t in st.txs && |st.txs[t].writeset| == 1 && st.txs[t].writeset[0].dst == x
      && st.txs[t].writeset[0].copy == c
    requires c in st.heap && st.heap[c].val == v
    ensures CommitOf(st, t).vals == map[x := v] && CommitOf(st, t).seen == st.txs[t].seen
  {
    assert st.txs[t].writeset[..0] == [];
    assert Objs(st.txs[t].writeset) == map[x := c];
  }

  /** Transaction 1 committed; transaction 3 latches y again; transaction 2 is about to commit. */
  ghost predicate FirstCommitted(st0: State, st: State, x: Slot, y: Slot, v: Value, w: Value, cx: Addr) {
    && x in st0.init && y in st0.init && x != y && st.init == st0.init
    && x in st.slots && y in st.slots && VerAt(st, st.slots[y]) == 0
    && cx in st.heap && st.heap[cx].val == v && VerAt(st, cx) == 0
    && st.lock.None? && st.counter == 2 && 1 in st.txs && 2 in st.txs && st.txs[2].log.Some?
    && st.txs[1].readset == [x]
    && (exists b :: st.txs[2] ==
         Tx(1, st.txs[2].log, [Write(x, b, cx)], [y], [(y, st0.init[y]), (x, st0.init[x])], 0, Running(Fine),
            st.txs[2].bufs))
    && |st.hist| == 1 && st.hist[0].tx == 1 && st.hist[0].version == 2
    && st.hist[0].vals == map[y := w] && st.hist[0].seen == [(x, st0.init[x]), (y, st0.init[y])]
  }

  lemma RunFirstCommit(st0: State, st: State, x: Slot, y: Slot, v: Value, w: Value, cx: Addr, cy: Addr)
    returns (st': State)
    requires Reachable(st) && BothWrote(st0, st, x, y, v, w, cx, cy)
    ensures Reachable(st') && FirstCommitted(st0, st', x, y, v, w, cx)
  {
    OneWrite(st, 1, y, cy, w);
    var st1 := CommitAlone(st, 1);
    var st2 := Move(st1, Begin(3), DoBegin(st1, 3));
    var c;
    st', c := FirstWriteAlone(st2, 3, y, w);
  }

  lemma RunSecondCommit(st0: State, st: State, x: Slot, y: Slot, v: Value, w: Value, cx: Addr) returns (st': State)
    requires Reachable(st) && FirstCommitted(st0, st, x, y, v, w, cx)
    ensures Reachable(st') && st'.init == st0.init && st'.counter == 3 && |st'.hist| == 2
    ensures st'.slots.Keys == st.slots.Keys
    ensures st'.hist[0] == st.hist[0] && st'.hist[1].tx == 2 && st'.hist[1].version == 3
    ensures st'.hist[1].vals == map[x := v] && st'.hist[1].seen == [(y, st0.init[y]), (x, st0.init[x])]
    ensures 1 in st'.txs && 2 in st'.txs && st'.txs[1].readset == [x] && st'.txs[2].readset == [y]
  {
    OneWrite(st, 2, x, cx, v);
    st' := CommitAlone(st, 2);
  }

  /** Writes `hit` to `out` if `src` holds the expected value, else `miss`. */
  function Guarded(src: Slot, out: Slot, expected: Value, hit: Value, miss: Value): Program {
    Program({src}, (m: map<Slot, Value>) => map[out := if src in m && m[src] == expected then hit else miss])
  }

  lemma ExecutesGuarded(e: Commit, src: Slot, out: Slot, expected: Value, hit: Value, miss: Value)
    requires (src, expected) in e.seen && e.vals == map[out := hit]
    ensures Executes(e, Guarded(src, out, expected, hit, miss))
  {
    var m: map<Slot, Value> := map[src := expected];
    assert m.Keys == {src};
    assert e.vals == Guarded(src, out, expected, hit, miss).f(m);
  }

  /** The first of two guarded programs spoils the guard of the second. */
  lemma GuardedInOrder(init: map<Slot, Value>, x: Slot, y: Slot, a': Value, b': Value)
    requires x in init && y in init && x != y && init[y] != b'
    ensures x in RunAlone(init, [Guarded(x, y, init[x], b', init[y]), Guarded(y, x, init[y], a', init[x])])
    ensures RunAlone(init, [Guarded(x, y, init[x], b', init[y]), Guarded(y, x, init[y], a', init[x])])[x] == init[x]
  {
    var p, q := Guarded(x, y, init[x], b', init[y]), Guarded(y, x, init[y], a', init[x]);
    RunTwo(init, p, q);
    assert View(init, {x}) == map[x := init[x]];
    var s := init + p.f(View(init, p.footprint));
    assert s[y] == b';
    assert View(s, {y}) == map[y := b'];
  }

  lemma RunTwo(init: map<Slot, Value>, p: Program, q: Program)
    ensures var s := init + p.f(View(init, p.footprint));
      RunAlone(init, [p, q]) == s + q.f(View(s, q.footprint))
  {
    assert [p, q][..1] == [p] && [p][..0] == [];
    assert RunAlone(init, [p]) == init + p.f(View(init, p.footprint));
  }

  /**
   For every initial store and any two cells there is a run in which two transactions commit whose
   every read was validated, and whose outcome no order of running them alone produces. Writing
   what is read, as `Serializable` demands, cannot be replaced by `read_for_write`.
   */
  lemma ReadForWriteAllowsWriteSkew(st0: State, x: Slot, y: Slot, v: Value, w: Value)
    returns (st: State, p: Program, q: Program)
    requires Initial(st0) && x in st0.slots && y in st0.slots && x != y
    requires v != st0.init[x] && w != st0.init[y]
    ensures Reachable(st) && st.init == st0.init && |st.hist| == 2
    ensures Executes(st.hist[0], p) && Executes(st.hist[1], q)
    ensures st.hist[0].tx in st.txs && forall c :: c in p.footprint ==> c in st.txs[st.hist[0].tx].readset
    ensures st.hist[1].tx in st.txs && forall c :: c in q.footprint ==> c in st.txs[st.hist[1].tx].readset
    ensures Linked(st) && x in st.slots && y in st.slots
    ensures x in RunAlone(st.init, [p, q]) && Walk(st, st.slots[x], st.counter) != Some(RunAlone(st.init, [p, q])[x])
    ensures y in RunAlone(st.init, [q, p]) && Walk(st, st.slots[y], st.counter) != Some(RunAlone(st.init, [q, p])[y])
  {
    var st1 := RunReads(st0, x, y);
    var st2, cx, cy := RunWrites(st0, st1, x, y, v, w);
    var st3 := RunFirstCommit(st0, st2, x, y, v, w, cx, cy);
    st := RunSecondCommit(st0, st3, x, y, v, w, cx);
    p := Guarded(x, y, st0.init[x], w, st0.init[y]);
    q := Guarded(y, x, st0.init[y], v, st0.init[x]);
    assert st.hist[0].seen[0] == (x, st0.init[x]) && st.hist[1].seen[0] == (y, st0.init[y]);
    ExecutesGuarded(st.hist[0], x, y, st0.init[x], w, st0.init[y]);
    ExecutesGuarded(st.hist[1], y, x, st0.init[y], v, st0.init[x]);
    GuardedInOrder(st0.init, x, y, v, w);
    GuardedInOrder(st0.init, y, x, w, v);
    SkewIsVisible(st, x, y, v, w);
  }

  lemma SkewIsVisible(st: State, x: Slot, y: Slot, v: Value, w: Value)
    requires Reachable(st) && x in st.slots && y in st.slots && x != y && st.counter == 3 && |st.hist| == 2
    requires st.hist[0].version == 2 && st.hist[0].vals == map[y := w]
    requires st.hist[1].version == 3 && st.hist[1].vals == map[x := v]
    ensures Linked(st)
    ensures Walk(st, st.slots[x], st.counter) == Some(v) && Walk(st, st.slots[y], st.counter) == Some(w)
  {
    ReachableInv(st);
    HeadWalks(st, x, 3);
    HeadWalks(st, y, 3);
    assert st.hist[..1] == [st.hist[0]] && st.hist[..1][..0] == [];
    assert ReplayUpTo(st.init, st.hist[..1], 3) == st.init + map[y := w];
  }
}
