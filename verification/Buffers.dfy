/** The bytes that a closure leaves in the buffers of its writes are the bytes its commit publishes. */
module Buffers {
  import opened Protocol
  import opened Invariant
  import opened Publication
  import opened Serializability

  /** The copy behind write i holds what the closure left there. */
  ghost predicate BufOk(st: State, t: TxId, i: nat)
    requires t in st.txs && i < |st.txs[t].writeset|
  {
    var a := st.txs[t].writeset[i].copy;
    i < |st.txs[t].bufs| && a in st.heap && st.heap[a].val == st.txs[t].bufs[i]
  }

  ghost predicate BufsOk(st: State, t: TxId)
    requires t in st.txs
  {
    && |st.txs[t].bufs| == |st.txs[t].writeset|
    && forall i {:trigger BufOk(st, t, i)} :: 0 <= i < |st.txs[t].writeset| ==> BufOk(st, t, i)
  }

  ghost predicate Buffered(st: State) {
    forall t {:trigger BufsOk(st, t)} :: t in st.txs ==> BufsOk(st, t)
  }

  // ---------------------------------------------------------------- who changes bytes

  lemma ClosureKeepsObjects(st: State, l: Label, a: Addr)
    requires l.t in st.txs && InClosure(l) && StepInClosure(st, l).Some? && !l.Mutate? && a in st.heap
    ensures a in StepInClosure(st, l).value.heap && StepInClosure(st, l).value.heap[a] == st.heap[a]
  {
  }

  lemma EndKeepsObjects(st: State, l: Label, a: Addr)
    requires l.t in st.txs && !InClosure(l) && StepAtEnd(st, l).Some? && a in st.heap
    ensures a in StepAtEnd(st, l).value.heap && StepAtEnd(st, l).value.heap[a] == st.heap[a]
  {
  }

  lemma StepKeepsObjects(st: State, l: Label, a: Addr)
    requires Step(st, l).Some? && !l.Mutate? && a in st.heap
    ensures a in Step(st, l).value.heap && Step(st, l).value.heap[a] == st.heap[a]
  {
    if l.Begin? {
    } else if InClosure(l) {
      ClosureKeepsObjects(st, l, a);
    } else {
      EndKeepsObjects(st, l, a);
    }
  }

  lemma ClosureKeepsBufs(st: State, l: Label)
    requires l.t in st.txs && InClosure(l) && StepInClosure(st, l).Some? && !l.InstallCopy? && !l.Mutate?
    ensures StepInClosure(st, l).value.txs[l.t].bufs == st.txs[l.t].bufs
  {
  }

  lemma EndKeepsBufs(st: State, l: Label)
    requires l.t in st.txs && !InClosure(l) && StepAtEnd(st, l).Some?
    ensures StepAtEnd(st, l).value.txs[l.t].bufs == st.txs[l.t].bufs
  {
  }

  lemma StepKeepsBufs(st: State, l: Label)
    requires Step(st, l).Some? && l.t in st.txs && !l.InstallCopy? && !l.Mutate?
    ensures Step(st, l).value.txs[l.t].bufs == st.txs[l.t].bufs
    ensures Step(st, l).value.txs[l.t].writeset == st.txs[l.t].writeset
  {
    StepKeepsWriteset(st, l);
    if !l.Begin? {
      if InClosure(l) {
        ClosureKeepsBufs(st, l);
      } else {
        EndKeepsBufs(st, l);
      }
    }
  }

  /** No two writes, of one transaction or of two, share a copy. */
  lemma CopiesAreDistinct(st: State, t: TxId, i: nat, u: TxId, j: nat)
    requires TxsOk(st) && t in st.txs && i < |st.txs[t].writeset| && u in st.txs && j < |st.txs[u].writeset|
    requires st.txs[t].writeset[i].copy == st.txs[u].writeset[j].copy
    ensures t == u && i == j
  {
    assert TxOk(st, t, st.txs[t]) && TxOk(st, u, st.txs[u]);
    assert WriteOk(st, t, st.txs[t], i) && WriteOk(st, u, st.txs[u], j);
  }

  // ---------------------------------------------------------------- every label keeps the buffers

  lemma MutateKeepsBufs(st: State, t: TxId, i: nat, v: Value, u: TxId)
    requires TxsOk(st) && Buffered(st) && t in st.txs && DoMutate(st, t, i, v).Some? && u in st.txs
    ensures BufsOk(DoMutate(st, t, i, v).value, u)
  {
    var st' := DoMutate(st, t, i, v).value;
    assert BufsOk(st, u) && BufsOk(st, t);
    forall j | 0 <= j < |st'.txs[u].writeset| ensures BufOk(st', u, j) {
      assert BufOk(st, u, j);
      if st.txs[u].writeset[j].copy == st.txs[t].writeset[i].copy {
        CopiesAreDistinct(st, u, j, t, i);
      }
    }
  }

  lemma InstallKeepsBufs(st: State, t: TxId)
    requires Buffered(st) && t in st.txs && DoInstallCopy(st, t).Some?
    ensures BufsOk(DoInstallCopy(st, t).value, t)
  {
    var st' := DoInstallCopy(st, t).value;
    assert BufsOk(st, t);
    forall j | 0 <= j < |st'.txs[t].writeset| ensures BufOk(st', t, j) {
      assert j < |st.txs[t].writeset| ==> BufOk(st, t, j);
    }
  }

  lemma SameBufsStayOk(st: State, st': State, t: TxId)
    requires t in st.txs && t in st'.txs && BufsOk(st, t)
    requires st'.txs[t].bufs == st.txs[t].bufs && st'.txs[t].writeset == st.txs[t].writeset
    requires forall a :: a in st.heap ==> a in st'.heap && st'.heap[a] == st.heap[a]
    ensures BufsOk(st', t)
  {
    forall j | 0 <= j < |st'.txs[t].writeset| ensures BufOk(st', t, j) {
      assert BufOk(st, t, j);
    }
  }

  lemma KeepBufs(st: State, l: Label, t: TxId)
    requires TxsOk(st) && Buffered(st) && Step(st, l).Some? && t in Step(st, l).value.txs
    ensures BufsOk(Step(st, l).value, t)
  {
    var st' := Step(st, l).value;
    if t in st.txs {
      assert BufsOk(st, t);
      if l.Mutate? {
        MutateKeepsBufs(st, l.t, l.i, l.v, t);
      } else if l.InstallCopy? && t == l.t {
        InstallKeepsBufs(st, t);
      } else {
        forall a | a in st.heap ensures a in st'.heap && st'.heap[a] == st.heap[a] {
          StepKeepsObjects(st, l, a);
        }
        if t == l.t {
          StepKeepsBufs(st, l);
        }
        SameBufsStayOk(st, st', t);
      }
    }
  }

  lemma {:induction false} RunBuffered(st: State, ls: seq<Label>)
    requires Inv(st) && Buffered(st) && Run(st, ls).Some?
    ensures Buffered(Run(st, ls).value)
    decreases |ls|
  {
    if |ls| > 0 {
      var prev, l := Run(st, ls[..|ls| - 1]).value, ls[|ls| - 1];
      RunBuffered(st, ls[..|ls| - 1]);
      KeepRun(st, ls[..|ls| - 1]);
      forall t | t in Step(prev, l).value.txs ensures BufsOk(Step(prev, l).value, t) {
        KeepBufs(prev, l, t);
      }
    }
  }

  lemma ReachableBuffered(st: State)
    requires Reachable(st)
    ensures Buffered(st)
  {
    var st0, ls := RunToReachable(st);
    InitialInv(st0);
    RunBuffered(st0, ls);
  }

  // ---------------------------------------------------------------- what follows

  /** Nobody but the closure itself changes the bytes of a buffer that its write returned. */
  lemma BuffersArePrivate(st: State, l: Label, t: TxId, i: nat)
    requires Reachable(st) && Step(st, l).Some? && t in st.txs && i < |st.txs[t].writeset|
    ensures var a := st.txs[t].writeset[i].copy; var st' := Step(st, l).value;
      && a in st.heap && a in st'.heap
      && st'.heap[a].val == if l.Mutate? && l.t == t && l.i == i then l.v else st.heap[a].val
  {
    ReachableInv(st);
    ReachableBuffered(st);
    assert BufsOk(st, t) && BufOk(st, t, i);
    if l.Mutate? {
      if st.txs[l.t].writeset[l.i].copy == st.txs[t].writeset[i].copy {
        CopiesAreDistinct(st, t, i, l.t, l.i);
      }
    } else {
      StepKeepsObjects(st, l, st.txs[t].writeset[i].copy);
    }
  }

  /** A commit publishes, in exactly the cells written, what the closure left in its buffers. */
  lemma CommitPublishesBuffers(st: State, k: nat)
    requires Reachable(st) && k < |st.hist|
    ensures st.hist[k].tx in st.txs
    ensures var tx, e := st.txs[st.hist[k].tx], st.hist[k];
      && |tx.bufs| == |tx.writeset|
      && (forall i :: 0 <= i < |tx.writeset| ==>
            tx.writeset[i].dst in e.vals && e.vals[tx.writeset[i].dst] == tx.bufs[i])
      && (forall x :: x in e.vals ==> exists i :: 0 <= i < |tx.writeset| && tx.writeset[i].dst == x)
  {
    ReachableInv(st);
    ReachableTied(st);
    ReachableBuffered(st);
    assert EntryTied(st, k);
    var t, e := st.hist[k].tx, st.hist[k];
    var tx := st.txs[t];
    assert BufsOk(st, t) && TxOk(st, t, tx) && EntryShape(st.init, st.hist, k);
    ObjsOfWriteset(st, t);
    forall i | 0 <= i < |tx.writeset|
      ensures tx.writeset[i].dst in e.vals && e.vals[tx.writeset[i].dst] == tx.bufs[i] {
      assert BufOk(st, t, i) && EntryObject(st, k, tx.writeset[i].dst);
    }
  }
}
