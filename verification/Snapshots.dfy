/** What a snapshot sees, and that nothing any other transaction does changes it. */
module Snapshots {
  import opened Basics
  import opened Protocol
  import opened Invariant
  import opened Preservation
  import opened Publication

  // ---------------------------------------------------------------- the reference: replaying commits

  /** The store after replaying, in order, every commit with a version within the snapshot. */
  function ReplayUpTo(init: map<Slot, Value>, hist: seq<Commit>, snapshot: nat): map<Slot, Value>
    decreases |hist|
  {
    if |hist| == 0 then init
    else
      var before := ReplayUpTo(init, hist[..|hist| - 1], snapshot);
      var last := hist[|hist| - 1];
      if last.version <= snapshot then before + last.vals else before
  }

  /** The number of commits within a snapshot. */
  function Cut(hist: seq<Commit>, snapshot: nat): nat
    decreases |hist|
  {
    if |hist| == 0 then 0
    else Cut(hist[..|hist| - 1], snapshot) + (if hist[|hist| - 1].version <= snapshot then 1 else 0)
  }

  ghost predicate Increasing(hist: seq<Commit>) {
    forall j, k :: 0 <= j < k < |hist| ==> hist[j].version < hist[k].version
  }

  lemma {:induction false} CutIsOk(hist: seq<Commit>, snapshot: nat)
    requires Increasing(hist)
    ensures CutOk(hist, |hist|, snapshot, Cut(hist, snapshot))
    decreases |hist|
  {
    if |hist| > 0 {
      var h := hist[..|hist| - 1];
      CutIsOk(h, snapshot);
      assert forall j :: 0 <= j < |h| ==> h[j] == hist[j];
    }
  }

  lemma VersionsIncrease(init: map<Slot, Value>, hist: seq<Commit>)
    requires HistShape(init, hist)
    ensures Increasing(hist)
  {
    forall j, k | 0 <= j < k < |hist| ensures hist[j].version < hist[k].version {
      assert EntryShape(init, hist, k);
    }
  }

  /** Replaying commits cell by cell agrees with replaying them on the whole store. */
  lemma {:induction false} ReplayIsPointwise(init: map<Slot, Value>, hist: seq<Commit>, j: nat, snapshot: nat, cut: nat)
    requires HistShape(init, hist) && j <= |hist| && CutOk(hist, |hist|, snapshot, cut)
    ensures ReplayUpTo(init, hist[..j], snapshot).Keys == init.Keys
    ensures forall x :: x in init ==>
      ReplayUpTo(init, hist[..j], snapshot)[x] == ReplayAt(init, hist, if j < cut then j else cut, x)
  {
    if j > 0 {
      ReplayIsPointwise(init, hist, j - 1, snapshot, cut);
      assert hist[..j][..j - 1] == hist[..j - 1];
      assert EntryShape(init, hist, j - 1);
    }
  }

  lemma ReplayMatches(st: State, snapshot: nat, cut: nat, x: Slot)
    requires HistShape(st.init, st.hist) && CutOk(st.hist, |st.hist|, snapshot, cut) && x in st.init
    ensures x in ReplayUpTo(st.init, st.hist, snapshot)
    ensures ReplayUpTo(st.init, st.hist, snapshot)[x] == ReplayAt(st.init, st.hist, cut, x)
  {
    ReplayIsPointwise(st.init, st.hist, |st.hist|, snapshot, cut);
    assert st.hist[..|st.hist|] == st.hist;
  }

  // ---------------------------------------------------------------- the chain walk

  /** Links go from uncommitted to committed objects and from newer to older versions. */
  ghost predicate Linked(st: State) {
    forall a {:trigger st.heap[a]} :: a in st.heap && st.heap[a].other.Some? ==>
      var b := st.heap[a].other.value;
      VerAt(st, b) > 0 && (VerAt(st, a) > 0 ==> VerAt(st, b) < VerAt(st, a))
  }

  lemma InvLinked(st: State)
    requires Inv(st)
    ensures Linked(st)
  {
    forall a | a in st.heap && st.heap[a].other.Some?
      ensures VerAt(st, st.heap[a].other.value) > 0
      ensures VerAt(st, a) > 0 ==> VerAt(st, st.heap[a].other.value) < VerAt(st, a) {
      assert ObjOk(st, a);
    }
  }

  /** `VersionedReader::read` in one go; None is the error of falling off the chain. */
  ghost function Walk(st: State, a: Addr, snapshot: nat): Option<Value>
    requires Linked(st)
    decreases if VerAt(st, a) == 0 then 1 else 0, VerAt(st, a)
  {
    if a !in st.heap then None
    else if Accepts(st, a, snapshot) then Some(st.heap[a].val)
    else if st.heap[a].other.None? then None
    else Walk(st, st.heap[a].other.value, snapshot)
  }

  /** From any good cursor the walk ends at the value the cell had after `cut` commits. */
  lemma {:induction false} CursorWalks(st: State, x: Slot, a: Addr, snapshot: nat, cut: nat)
    requires Inv(st) && Linked(st) && 1 <= snapshot
    requires CutOk(st.hist, |st.hist|, snapshot, cut) && CursorOk(st, x, a, cut)
    ensures Walk(st, a, snapshot) == Some(ReplayAt(st.init, st.hist, cut, x))
    decreases if VerAt(st, a) == 0 then 1 else 0, VerAt(st, a)
  {
    if Accepts(st, a, snapshot) {
      AcceptedIsSnapshot(st, x, a, snapshot, cut);
    } else {
      RefusedMovesBack(st, x, a, snapshot, cut);
      CursorWalks(st, x, st.heap[a].other.value, snapshot, cut);
    }
  }

  /**
   Snapshot refinement: in every reachable state, walking the chain of any cell with any snapshot
   gives the value obtained by replaying the commits with versions within it.
   */
  lemma SnapshotRefinement(st: State, x: Slot, snapshot: nat)
    requires Reachable(st) && x in st.slots && 1 <= snapshot
    ensures Linked(st) && x in ReplayUpTo(st.init, st.hist, snapshot)
    ensures Walk(st, st.slots[x], snapshot) == Some(ReplayUpTo(st.init, st.hist, snapshot)[x])
  {
    ReachableInv(st);
    HeadWalks(st, x, snapshot);
  }

  lemma HeadWalks(st: State, x: Slot, snapshot: nat)
    requires Inv(st) && x in st.slots && 1 <= snapshot
    ensures Linked(st) && x in ReplayUpTo(st.init, st.hist, snapshot)
    ensures Walk(st, st.slots[x], snapshot) == Some(ReplayUpTo(st.init, st.hist, snapshot)[x])
  {
    InvLinked(st);
    VersionsIncrease(st.init, st.hist);
    CutIsOk(st.hist, snapshot);
    var cut := Cut(st.hist, snapshot);
    HeadIsCursor(st, x, cut);
    CursorWalks(st, x, st.slots[x], snapshot, cut);
    ReplayMatches(st, snapshot, cut, x);
  }

  /**
   Repeatable read: wherever the cursor of an unfinished read stands, on a committed, latched or
   rolled-back object, the rest of the walk still ends at the snapshot value of its cell.
   */
  lemma CursorReadsSnapshot(st: State, t: TxId)
    requires Reachable(st) && t in st.txs && st.txs[t].pc.Reading?
    ensures Linked(st) && st.txs[t].pc.x in ReplayUpTo(st.init, st.hist, st.txs[t].snapshot)
    ensures Walk(st, st.txs[t].pc.cursor, st.txs[t].snapshot)
            == Some(ReplayUpTo(st.init, st.hist, st.txs[t].snapshot)[st.txs[t].pc.x])
  {
    ReachableInv(st);
    InvLinked(st);
    var tx := st.txs[t];
    assert TxOk(st, t, tx);
    CursorWalks(st, tx.pc.x, tx.pc.cursor, tx.snapshot, tx.begunAt);
    ReplayMatches(st, tx.snapshot, tx.begunAt, tx.pc.x);
  }

  /** Every value a closure was ever handed is the value of its snapshot; so reads repeat. */
  lemma SeenIsSnapshot(st: State, t: TxId, i: nat)
    requires Reachable(st) && t in st.txs && i < |st.txs[t].seen|
    ensures st.txs[t].seen[i].0 in ReplayUpTo(st.init, st.hist, st.txs[t].snapshot)
    ensures st.txs[t].seen[i].1 == ReplayUpTo(st.init, st.hist, st.txs[t].snapshot)[st.txs[t].seen[i].0]
  {
    ReachableInv(st);
    var tx := st.txs[t];
    assert TxOk(st, t, tx);
    ReplayMatches(st, tx.snapshot, tx.begunAt, tx.seen[i].0);
  }

  /** A hop that follows a link moves strictly down, so a read takes finitely many hops. */
  ghost function HopsLeft(st: State, t: TxId): (nat, nat)
    requires t in st.txs && st.txs[t].pc.Reading?
  {
    var v := VerAt(st, st.txs[t].pc.cursor);
    (if v == 0 then 1 else 0, v)
  }

  lemma HopsDecrease(st: State, t: TxId)
    requires Reachable(st) && t in st.txs && DoHop(st, t).Some?
    requires DoHop(st, t).value.txs[t].pc.Reading?
    ensures var (p, v), (p', v') := HopsLeft(st, t), HopsLeft(DoHop(st, t).value, t);
      p' == 0 && (p == 1 || v' < v)
  {
    ReachableInv(st);
    InvLinked(st);
    assert st.heap[st.txs[t].pc.cursor].other.Some?;
    assert VerAt(DoHop(st, t).value, st.heap[st.txs[t].pc.cursor].other.value)
      == VerAt(st, st.heap[st.txs[t].pc.cursor].other.value);
  }

  // ---------------------------------------------------------------- visibility is fixed at begin

  lemma AllocLogKeepsVersions(st: State, t: TxId, l: Addr, a: Addr)
    requires HeapOk(st) && t in st.txs && DoAllocLog(st, t, l).Some?
    ensures VerAt(DoAllocLog(st, t, l).value, a) == VerAt(st, a)
  {
    if a in st.heap {
      assert ObjOk(st, a);
    }
  }

  lemma CopyKeepsVersions(st: State, t: TxId, c: Addr, a: Addr)
    requires TxsOk(st) && t in st.txs && DoCopyObject(st, t, c).Some?
    ensures VerAt(DoCopyObject(st, t, c).value, a) == VerAt(st, a)
  {
    assert TxOk(st, t, st.txs[t]);
  }

  lemma ClosureKeepsVersions(st: State, l: Label, a: Addr)
    requires Inv(st) && l.t in st.txs && InClosure(l) && StepInClosure(st, l).Some?
    ensures VerAt(StepInClosure(st, l).value, a) == VerAt(st, a)
  {
    if l.AllocLog? {
      AllocLogKeepsVersions(st, l.t, l.a, a);
    } else if l.CopyObject? {
      CopyKeepsVersions(st, l.t, l.a, a);
    } else {
      OthersKeepVersions(st, l, a);
    }
  }

  lemma OthersKeepVersions(st: State, l: Label, a: Addr)
    requires l.t in st.txs && InClosure(l) && StepInClosure(st, l).Some? && !l.AllocLog? && !l.CopyObject?
    ensures VerAt(StepInClosure(st, l).value, a) == VerAt(st, a)
  {
  }

  lemma EndKeepsVersions(st: State, l: Label, a: Addr)
    requires l.t in st.txs && !InClosure(l) && StepAtEnd(st, l).Some? && !l.StoreVersion?
    ensures VerAt(StepAtEnd(st, l).value, a) == VerAt(st, a)
  {
  }

  /** Only the store of a version word changes the version of an object. */
  lemma StepKeepsVersions(st: State, l: Label, a: Addr)
    requires Inv(st) && Step(st, l).Some? && !l.StoreVersion?
    ensures VerAt(Step(st, l).value, a) == VerAt(st, a)
  {
    if l.Begin? {
    } else if InClosure(l) {
      ClosureKeepsVersions(st, l, a);
    } else {
      EndKeepsVersions(st, l, a);
    }
  }

  /** One step neither makes an object visible to a running snapshot nor hides one. */
  lemma StepKeepsVisibility(st: State, l: Label, t: TxId, a: Addr)
    requires Inv(st) && Step(st, l).Some? && t in st.txs
    ensures t in Step(st, l).value.txs && Step(st, l).value.txs[t].snapshot == st.txs[t].snapshot
    ensures Accepts(Step(st, l).value, a, st.txs[t].snapshot) <==> Accepts(st, a, st.txs[t].snapshot)
  {
    if l.StoreVersion? {
      StoreKeepsVisibility(st, l.t, t, a);
    } else {
      StepKeepsVersions(st, l, a);
    }
  }

  lemma StoreKeepsVisibility(st: State, u: TxId, t: TxId, a: Addr)
    requires Inv(st) && u in st.txs && DoStoreVersion(st, u).Some? && t in st.txs
    ensures Accepts(DoStoreVersion(st, u).value, a, st.txs[t].snapshot) <==> Accepts(st, a, st.txs[t].snapshot)
  {
    assert TxOk(st, t, st.txs[t]) && TxOk(st, u, st.txs[u]);
    SettledAfter(st, DoStoreVersion(st, u).value, u);
    if a in st.heap {
      VersionsAfter(st, DoStoreVersion(st, u).value, u, a);
    }
  }

  /**
   The objects a transaction can see are exactly those it could see when it began, however the
   run goes on: a commit in progress is refused before and after its version is stored.
   */
  lemma {:induction false} VisibilityIsFixed(st: State, ls: seq<Label>, t: TxId, a: Addr)
    requires Inv(st) && Run(st, ls).Some? && t in st.txs
    ensures t in Run(st, ls).value.txs && Run(st, ls).value.txs[t].snapshot == st.txs[t].snapshot
    ensures Accepts(Run(st, ls).value, a, st.txs[t].snapshot) <==> Accepts(st, a, st.txs[t].snapshot)
    decreases |ls|
  {
    if |ls| > 0 {
      VisibilityIsFixed(st, ls[..|ls| - 1], t, a);
      KeepRun(st, ls[..|ls| - 1]);
      StepKeepsVisibility(Run(st, ls[..|ls| - 1]).value, ls[|ls| - 1], t, a);
    }
  }

  /** The copies of one transaction are visible to a snapshot together or not at all. */
  lemma VisibleTogether(st: State, t: TxId, u: TxId, i: nat, j: nat)
    requires Reachable(st) && t in st.txs && u in st.txs
    requires i < |st.txs[u].writeset| && j < |st.txs[u].writeset|
    ensures Accepts(st, st.txs[u].writeset[i].copy, st.txs[t].snapshot)
            <==> Accepts(st, st.txs[u].writeset[j].copy, st.txs[t].snapshot)
  {
    ReachableInv(st);
    assert TxOk(st, u, st.txs[u]);
    assert WriteOk(st, u, st.txs[u], i) && WriteOk(st, u, st.txs[u], j);
  }

  /** A transaction that begins after u stored its version sees every copy of u, whatever happens. */
  lemma LaterSnapshotSeesAll(st: State, ls: seq<Label>, t: TxId, u: TxId, i: nat)
    requires Reachable(st) && u in st.txs && Stored(st.txs[u].pc) && i < |st.txs[u].writeset|
    requires DoBegin(st, t).Some? && Run(DoBegin(st, t).value, ls).Some?
    ensures var st' := Run(DoBegin(st, t).value, ls).value;
      t in st'.txs && Accepts(st', st.txs[u].writeset[i].copy, st'.txs[t].snapshot)
  {
    ReachableInv(st);
    var st1 := DoBegin(st, t).value;
    KeepBegin(st, t);
    assert TxOk(st, u, st.txs[u]);
    assert WriteOk(st, u, st.txs[u], i);
    var a := st.txs[u].writeset[i].copy;
    assert VerAt(st1, a) == VerAt(st, a) == st.logs[st.txs[u].log.value].word;
    VisibilityIsFixed(st1, ls, t, a);
  }

  // ---------------------------------------------------------------- only commits change what is visible

  /** Apart from the store of a version, no action changes the visible value of any cell. */
  lemma OnlyCommitsChangeValues(st: State, l: Label, x: Slot, snapshot: nat)
    requires Reachable(st) && Step(st, l).Some? && x in st.slots && 1 <= snapshot
    requires l.StoreVersion? ==> snapshot < st.counter
    ensures Linked(st) && Linked(Step(st, l).value) && x in Step(st, l).value.slots
    ensures Walk(Step(st, l).value, Step(st, l).value.slots[x], snapshot) == Walk(st, st.slots[x], snapshot)
  {
    ReachableInv(st);
    KeepStep(st, l);
    var st' := Step(st, l).value;
    HeadWalks(st, x, snapshot);
    HeadWalks(st', x, snapshot);
    if l.StoreVersion? {
      assert st'.hist[..|st'.hist| - 1] == st.hist;
    }
  }

  /** The store makes exactly the written cells take the transaction's values, from its version on. */
  lemma CommitPublishes(st: State, t: TxId, x: Slot, snapshot: nat)
    requires Reachable(st) && t in st.txs && DoStoreVersion(st, t).Some? && x in st.slots && st.counter <= snapshot
    ensures Linked(st) && Linked(DoStoreVersion(st, t).value)
    ensures var e := CommitOf(st, t);
      Walk(DoStoreVersion(st, t).value, DoStoreVersion(st, t).value.slots[x], snapshot)
      == (if x in e.vals then Some(e.vals[x]) else Walk(st, st.slots[x], snapshot))
  {
    ReachableInv(st);
    KeepStoreVersion(st, t);
    var st' := DoStoreVersion(st, t).value;
    HeadWalks(st, x, snapshot);
    HeadWalks(st', x, snapshot);
    assert st'.hist[..|st'.hist| - 1] == st.hist;
  }
}
