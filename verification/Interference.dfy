/** What one thread may rely on while other threads act. */
module Interference {
  import opened Basics
  import opened Protocol
  import opened Invariant
  import opened Preservation
  import opened Publication
  import opened Snapshots
  import opened Serializability
  import opened Outcomes

  /** What the actions of others leave alone, seen from transaction t. */
  ghost predicate Interfered(t: TxId, st: State, st': State) {
    && (t in st.txs ==> t in st'.txs && st'.txs[t] == st.txs[t])
    && st.hist <= st'.hist && st'.init == st.init && st'.slots.Keys == st.slots.Keys
    && (forall a :: VerAt(st, a) > 0 ==> VerAt(st', a) == VerAt(st, a))
    && (t in st.txs && st.lock == Some(t) ==>
          st'.lock == Some(t) && st'.counter == st.counter && forall a :: VerAt(st', a) == VerAt(st, a))
    && (t in st.txs ==> SameSight(st.txs[t].snapshot, st, st'))
  }

  /** A snapshot accepts the same objects in both states. */
  ghost predicate SameSight(snapshot: nat, st: State, st': State) {
    forall a :: Accepts(st', a, snapshot) == Accepts(st, a, snapshot)
  }

  /** No action changes what a running transaction accepts, its own actions included. */
  lemma StepKeepsSight(st: State, l: Label, t: TxId)
    requires Reachable(st) && Step(st, l).Some? && t in st.txs
    ensures SameSight(st.txs[t].snapshot, st, Step(st, l).value)
  {
    ReachableInv(st);
    forall a ensures Accepts(Step(st, l).value, a, st.txs[t].snapshot) == Accepts(st, a, st.txs[t].snapshot) {
      StepKeepsVisibility(st, l, t, a);
    }
  }

  lemma SightAdds(snapshot: nat, st: State, st1: State, st2: State)
    requires SameSight(snapshot, st, st1) && SameSight(snapshot, st1, st2)
    ensures SameSight(snapshot, st, st2)
  {
    forall a ensures Accepts(st2, a, snapshot) == Accepts(st, a, snapshot) {
      assert Accepts(st1, a, snapshot) == Accepts(st, a, snapshot);
    }
  }

  /** One label of a script: an enabled action of another transaction happens, any other label does nothing. */
  ghost predicate ActsAt(me: TxId, ss: seq<State>, batch: seq<Label>, i: nat)
    requires i < |batch| && |ss| == |batch| + 1
  {
    if batch[i].t != me && Step(ss[i], batch[i]).Some? then Step(ss[i], batch[i]) == Some(ss[i + 1])
    else ss[i + 1] == ss[i]
  }

  /** What a batch of a script leads to. */
  ghost predicate Acted(me: TxId, st: State, batch: seq<Label>, st': State) {
    exists ss: seq<State> {:trigger ActedThrough(me, ss, batch)} ::
      ActedThrough(me, ss, batch) && ss[0] == st && ss[|batch|] == st'
  }

  ghost predicate ActedThrough(me: TxId, ss: seq<State>, batch: seq<Label>) {
    |ss| == |batch| + 1 && forall i {:trigger ActsAt(me, ss, batch, i)} :: 0 <= i < |batch| ==> ActsAt(me, ss, batch, i)
  }

  lemma ActedNothing(me: TxId, st: State)
    ensures Acted(me, st, [], st)
  {
    assert ActedThrough(me, [st], []);
  }

  lemma ActedOneMore(me: TxId, st: State, batch: seq<Label>, st1: State, l: Label, st2: State)
    requires Acted(me, st, batch, st1)
    requires if l.t != me && Step(st1, l).Some? then Step(st1, l) == Some(st2) else st2 == st1
    ensures Acted(me, st, batch + [l], st2)
  {
    var ss: seq<State> :| ActedThrough(me, ss, batch) && ss[0] == st && ss[|batch|] == st1;
    var more, longer := ss + [st2], batch + [l];
    forall i | 0 <= i < |longer| ensures ActsAt(me, more, longer, i) {
      if i < |batch| {
        assert ActsAt(me, ss, batch, i);
      }
    }
    assert ActedThrough(me, more, longer);
  }

  /** A trace with actions of others only. */
  ghost predicate OthersTrace(t: TxId, ss: seq<State>, ls: seq<Label>) {
    Trace(ss, ls) && forall i :: 0 <= i < |ls| ==> ls[i].t != t
  }

  /** The one state leads to the other by actions of others. */
  ghost predicate ByOthers(t: TxId, st: State, st': State) {
    exists ss: seq<State>, ls: seq<Label> {:trigger OthersTrace(t, ss, ls)} ::
      OthersTrace(t, ss, ls) && ss[0] == st && ss[|ls|] == st'
  }

  lemma ByNobody(t: TxId, st: State)
    ensures ByOthers(t, st, st)
  {
    assert OthersTrace(t, [st], []);
  }

  lemma ByOneMore(t: TxId, st: State, st1: State, l: Label, st2: State)
    requires ByOthers(t, st, st1) && Step(st1, l) == Some(st2) && l.t != t
    ensures ByOthers(t, st, st2)
  {
    var ss: seq<State>, ls: seq<Label> :| OthersTrace(t, ss, ls) && ss[0] == st && ss[|ls|] == st1;
    OneMoreStep(ss, ls, l, st2);
    ByLonger(t, ss, ls, l, st2);
  }

  lemma ByLonger(t: TxId, ss: seq<State>, ls: seq<Label>, l: Label, st2: State)
    requires OthersTrace(t, ss, ls) && Trace(ss + [st2], ls + [l]) && l.t != t
    ensures ByOthers(t, ss[0], st2)
  {
    assert OthersTrace(t, ss + [st2], ls + [l]);
  }

  /** That is, by a run of their labels. */
  lemma ByOthersIsRun(t: TxId, st: State, st': State) returns (ls: seq<Label>)
    requires ByOthers(t, st, st')
    ensures Run(st, ls) == Some(st') && forall i :: 0 <= i < |ls| ==> ls[i].t != t
  {
    var ss: seq<State>, ks: seq<Label> :| OthersTrace(t, ss, ks) && ss[0] == st && ss[|ks|] == st';
    TraceRuns(ss, ks, |ks|);
    assert ks[..|ks|] == ks;
    ls := ks;
  }

  /** Validation of one entry: its head is loaded in the state `at`, others act, then it is compared. */
  ghost predicate Validates(t: TxId, at: State, done: State) {
    t in at.txs && DoLoadEntry(at, t).Some? && Compared(t, DoLoadEntry(at, t).value, done)
  }

  ghost predicate Compared(t: TxId, loaded: State, done: State) {
    exists st {:trigger ByOthers(t, loaded, st)} ::
      ByOthers(t, loaded, st) && t in st.txs && DoCompareEntry(st, t) == Some(done)
  }

  /** A committed version number never changes. */
  lemma CommittedIsFinal(st: State, l: Label, a: Addr)
    requires Inv(st) && Step(st, l).Some? && VerAt(st, a) > 0
    ensures VerAt(Step(st, l).value, a) == VerAt(st, a)
  {
    if l.StoreVersion? {
      assert TxOk(st, l.t, st.txs[l.t]);
      CommittedUnchanged(st, Step(st, l).value, l.t, a);
    } else {
      StepKeepsVersions(st, l, a);
    }
  }

  lemma LockKeepsCounter(st: State, l: Label, t: TxId)
    requires st.lock == Some(t) && Step(st, l).Some? && l.t != t
    ensures Step(st, l).value.counter == st.counter
  {
  }

  lemma OneInterference(t: TxId, st: State, l: Label)
    requires Reachable(st) && Step(st, l).Some? && l.t != t
    ensures Reachable(Step(st, l).value) && Interfered(t, st, Step(st, l).value)
  {
    var st' := Step(st, l).value;
    Go(st, l, st');
    ReachableInv(st);
    forall a | VerAt(st, a) > 0 ensures VerAt(st', a) == VerAt(st, a) {
      CommittedIsFinal(st, l, a);
    }
    if t in st.txs {
      StepKeepsSight(st, l, t);
    }
    if t in st.txs && st.lock == Some(t) {
      LockKeepsCounter(st, l, t);
      forall a ensures VerAt(st', a) == VerAt(st, a) {
        LockFreezesVersions(st, l, t, a);
      }
      LockFreezesVersions(st, l, t, 0);
    }
  }

  lemma InterferenceAdds(t: TxId, st: State, st1: State, st2: State)
    requires Interfered(t, st, st1) && Interfered(t, st1, st2)
    ensures Interfered(t, st, st2)
  {
    if t in st.txs {
      SightAdds(st.txs[t].snapshot, st, st1, st2);
    }
  }

  /** The snapshot of a transaction is the same store in every later state. */
  lemma SnapshotIsConstant(st: State, st': State, t: TxId)
    requires Reachable(st) && Reachable(st') && t in st.txs && t in st'.txs
    requires st.hist <= st'.hist && st'.init == st.init
    requires st'.txs[t].snapshot == st.txs[t].snapshot && st'.txs[t].begunAt == st.txs[t].begunAt
    ensures ReplayUpTo(st'.init, st'.hist, st.txs[t].snapshot) == ReplayUpTo(st.init, st.hist, st.txs[t].snapshot)
  {
    ReachableInv(st);
    ReachableInv(st');
    SnapshotIsPrefix(st, t);
    SnapshotIsPrefix(st', t);
    assert st'.hist[..st.txs[t].begunAt] == st.hist[..st.txs[t].begunAt];
  }

  // ---------------------------------------------------------------- what single actions do, as their callers need it

  /** A hop returns the snapshot value, or refuses a strict read, or moves down the chain. */
  lemma HopCases(st: State, t: TxId)
    requires Reachable(st) && t in st.txs && st.txs[t].pc.Reading?
    ensures DoHop(st, t).Some? && Step(st, Hop(t)) == DoHop(st, t)
    ensures var st', tx, tx' := DoHop(st, t).value, st.txs[t], DoHop(st, t).value.txs[t];
      && st' == SetTx(st, t, tx')
      && tx' == tx.(seen := tx'.seen, pc := tx'.pc)
      && if Accepts(st, tx.pc.cursor, tx.snapshot) then
           && tx'.pc == Running(Fine) && |tx'.seen| == |tx.seen| + 1 && tx'.seen[|tx.seen|].0 == tx.pc.x
           && tx.pc.x in ReplayUpTo(st.init, st.hist, tx.snapshot)
           && tx'.seen[|tx.seen|].1 == ReplayUpTo(st.init, st.hist, tx.snapshot)[tx.pc.x]
         else if tx.pc.strict then tx'.pc == Running(TxAborted)
         else
           && tx'.pc.Reading? && tx'.pc.x == tx.pc.x && !tx'.pc.strict && VerAt(st', tx'.pc.cursor) > 0
           && (VerAt(st, tx.pc.cursor) > 0 ==> VerAt(st', tx'.pc.cursor) < VerAt(st, tx.pc.cursor))
  {
    ReachableInv(st);
    var tx := st.txs[t];
    assert TxOk(st, t, tx);
    if Accepts(st, tx.pc.cursor, tx.snapshot) {
      AcceptedIsSnapshot(st, tx.pc.x, tx.pc.cursor, tx.snapshot, tx.begunAt);
      ReplayMatches(st, tx.snapshot, tx.begunAt, tx.pc.x);
    } else {
      RefusedMovesBack(st, tx.pc.x, tx.pc.cursor, tx.snapshot, tx.begunAt);
      assert ObjOk(st, tx.pc.cursor);
    }
  }

  /** What the closure finds in the buffer of a write is the snapshot value of the cell. */
  lemma SwapCases(st: State, t: TxId)
    requires Reachable(st) && t in st.txs && st.txs[t].pc.Copied?
    ensures DoInstallCopy(st, t).Some? && Step(st, InstallCopy(t)) == DoInstallCopy(st, t)
    ensures st.txs[t].pc.x in st.slots && st.txs[t].pc.copy in st.heap && VerAt(st, st.txs[t].pc.copy) == 0
    ensures st.txs[t].pc.x in ReplayUpTo(st.init, st.hist, st.txs[t].snapshot)
    ensures st.heap[st.txs[t].pc.copy].val == ReplayUpTo(st.init, st.hist, st.txs[t].snapshot)[st.txs[t].pc.x]
  {
    ReachableInv(st);
    var tx := st.txs[t];
    assert TxOk(st, t, tx);
    ReplayMatches(st, tx.snapshot, tx.begunAt, tx.pc.x);
  }

  /** Adding a log word or a copy leaves the version of every object as it was. */
  lemma NewWordKeepsVersions(st: State, t: TxId, a: Addr)
    requires Reachable(st) && t in st.txs && DoAllocLog(st, t, a).Some?
    ensures forall b :: b in st.heap ==> VerAt(DoAllocLog(st, t, a).value, b) == VerAt(st, b)
  {
    ReachableInv(st);
    AllocLogExtends(st, t, a);
    forall b | b in st.heap ensures VerAt(DoAllocLog(st, t, a).value, b) == VerAt(st, b) {
      assert SameObject(st, DoAllocLog(st, t, a).value, b);
    }
  }

  /** An object that passed the test of a write can be copied. */
  lemma CheckedIsThere(st: State, t: TxId)
    requires Reachable(st) && t in st.txs && st.txs[t].pc.Checked?
    ensures st.txs[t].log.Some? && st.txs[t].pc.a in st.heap && st.txs[t].pc.x in st.slots
  {
    ReachableInv(st);
    assert TxOk(st, t, st.txs[t]);
    NewestIsCommitted(st, st.txs[t].begunAt, st.txs[t].pc.x);
  }

  /** The copy behind a writeset entry is in the heap. */
  lemma CopyIsThere(st: State, t: TxId, i: nat)
    requires Reachable(st) && t in st.txs && i < |st.txs[t].writeset|
    ensures st.txs[t].writeset[i].copy in st.heap
  {
    ReachableInv(st);
    assert TxOk(st, t, st.txs[t]);
    assert WriteOk(st, t, st.txs[t], i);
  }

  /** The head of a cell is in the heap, with a version up to the counter. */
  lemma HeadIsThere(st: State, x: Slot)
    requires Reachable(st) && x in st.slots
    ensures st.slots[x] in st.heap && VerAt(st, st.slots[x]) <= st.counter
  {
    ReachableInv(st);
    assert HeadOk(st, x);
    assert ObjOk(st, st.slots[x]);
  }

  /** Comparing one readset entry passes exactly when its loaded head is uncommitted. */
  lemma CompareCases(st: State, t: TxId)
    requires Reachable(st) && t in st.txs && st.txs[t].pc.Comparing?
    ensures DoCompareEntry(st, t).Some? && Step(st, CompareEntry(t)) == DoCompareEntry(st, t)
    ensures DoCompareEntry(st, t).value ==
      Goto(st, t, if VerAt(st, st.txs[t].pc.a) == 0 then Validating(st.txs[t].pc.i + 1) else Invalid)
  {
    ReachableInv(st);
    ComparePassesIffUncommitted(st, t);
  }

  /** The cells of a readset exist, and a write version points at a log word. */
  lemma CommitIsReady(st: State, t: TxId)
    requires Reachable(st) && t in st.txs
    ensures forall i :: 0 <= i < |st.txs[t].readset| ==> st.txs[t].readset[i] in st.slots
    ensures st.txs[t].log.Some? ==> st.txs[t].log.value in st.logs
    ensures HoldsLock(st.txs[t].pc) ==> st.lock == Some(t) && st.txs[t].log.Some?
  {
    ReachableInv(st);
    assert TxOk(st, t, st.txs[t]);
  }

  /** The one store gives every copy of the transaction its number. */
  lemma StoreNumbersCopies(st: State, t: TxId)
    requires Reachable(st) && t in st.txs && DoStoreVersion(st, t).Some?
    ensures var st' := DoStoreVersion(st, t).value;
      && st'.counter == st.counter
      && (forall i :: 0 <= i < |st.txs[t].writeset| ==>
            VerAt(st, st.txs[t].writeset[i].copy) == 0 && VerAt(st', st.txs[t].writeset[i].copy) == st.counter)
  {
    ReachableInv(st);
    var st' := DoStoreVersion(st, t).value;
    assert TxOk(st, t, st.txs[t]);
    forall i | 0 <= i < |st.txs[t].writeset|
      ensures VerAt(st, st.txs[t].writeset[i].copy) == 0 && VerAt(st', st.txs[t].writeset[i].copy) == st.counter {
      assert WriteOk(st, t, st.txs[t], i);
    }
  }
}
