/** The exact shape of the version chain behind every cell. */
module Chains {
  import opened Basics
  import opened Protocol
  import opened Invariant
  import opened Preservation
  import opened Publication
  import opened Snapshots

  /** All objects on the chain from a, newest first. */
  ghost function Chain(st: State, a: Addr): seq<Addr>
    requires Linked(st)
    decreases if VerAt(st, a) == 0 then 1 else 0, VerAt(st, a)
  {
    if a !in st.heap then []
    else [a] + (if st.heap[a].other.None? then [] else Chain(st, st.heap[a].other.value))
  }

  /** The objects that the first j commits published on x, newest first, above the base object. */
  function Published(base: map<Slot, Addr>, hist: seq<Commit>, j: nat, x: Slot): seq<Addr> {
    if j == 0 || j > |hist| then (if x in base then [base[x]] else [])
    else (if x in hist[j - 1].objs then [hist[j - 1].objs[x]] else []) + Published(base, hist, j - 1, x)
  }

  lemma {:induction false} NewestChain(st: State, j: nat, x: Slot)
    requires Inv(st) && Linked(st) && j <= |st.hist| && x in st.slots
    ensures Chain(st, Newest(st.base, st.hist, j, x)) == Published(st.base, st.hist, j, x)
  {
    if j > 0 {
      if x in st.hist[j - 1].objs {
        assert EntryObject(st, j - 1, x);
      }
      NewestChain(st, j - 1, x);
    }
  }

  /**
   The chain of a cell is the list of everything committed on it, newest first and ending in its
   base object, under at most one latching copy.
   */
  lemma ChainIsHistory(st: State, x: Slot)
    requires Reachable(st) && x in st.slots
    ensures Linked(st)
    ensures Chain(st, st.slots[x]) ==
      (if VerAt(st, st.slots[x]) == 0 then [st.slots[x]] else []) + Published(st.base, st.hist, |st.hist|, x)
  {
    ReachableInv(st);
    InvLinked(st);
    var a := st.slots[x];
    NewestChain(st, |st.hist|, x);
    NewestIsCommitted(st, |st.hist|, x);
    assert HeadOk(st, x);
    if VerAt(st, a) == 0 {
      var u, i := LatchOwner(st, x);
    } else {
      CommittedHeadIsNewest(st, x);
    }
  }

  /** The owner of a latched cell and the writeset entry that latches it. */
  lemma LatchOwner(st: State, x: Slot) returns (u: TxId, i: nat)
    requires Inv(st) && x in st.slots && VerAt(st, st.slots[x]) == 0
    ensures u in st.txs && !st.txs[u].pc.Finished? && FirstInstalled(st.txs[u]) <= i < |st.txs[u].writeset|
    ensures st.txs[u].writeset[i].dst == x && st.txs[u].writeset[i].copy == st.slots[x]
    ensures st.slots[x] in st.heap && st.heap[st.slots[x]].owner == u
    ensures st.heap[st.slots[x]].other == Some(st.txs[u].writeset[i].current)
    ensures st.txs[u].writeset[i].current == Newest(st.base, st.hist, |st.hist|, x)
  {
    var a := st.slots[x];
    assert HeadOk(st, x);
    NewestIsCommitted(st, |st.hist|, x);
    u := st.heap[a].owner;
    i :| FirstInstalled(st.txs[u]) <= i < |st.txs[u].writeset| && st.txs[u].writeset[i].dst == x
      && st.txs[u].writeset[i].copy == a;
    assert TxOk(st, u, st.txs[u]);
    assert WriteOk(st, u, st.txs[u], i);
  }

  /** A head is the copy of at most one entry of at most one transaction. */
  lemma LatchIsUnique(st: State, x: Slot, u: TxId, i: nat, v: TxId, j: nat)
    requires Reachable(st) && x in st.slots
    requires u in st.txs && i < |st.txs[u].writeset| && st.txs[u].writeset[i].copy == st.slots[x]
    requires v in st.txs && j < |st.txs[v].writeset| && st.txs[v].writeset[j].copy == st.slots[x]
    ensures u == v && i == j && st.txs[u].writeset[i].dst == x
  {
    ReachableInv(st);
    assert TxOk(st, u, st.txs[u]) && TxOk(st, v, st.txs[v]);
    assert WriteOk(st, u, st.txs[u], i) && WriteOk(st, v, st.txs[v], j);
    assert HeadOk(st, x);
  }

  /** So an uncommitted head belongs to exactly one entry of exactly one transaction, which is still running. */
  lemma LatchHasOneOwner(st: State, x: Slot) returns (u: TxId, i: nat)
    requires Reachable(st) && x in st.slots && VerAt(st, st.slots[x]) == 0
    ensures u in st.txs && !st.txs[u].pc.Finished? && i < |st.txs[u].writeset|
    ensures st.txs[u].writeset[i].dst == x && st.txs[u].writeset[i].copy == st.slots[x]
    ensures st.slots[x] in st.heap && st.heap[st.slots[x]].other == Some(st.txs[u].writeset[i].current)
    ensures forall v, j ::
      v in st.txs && 0 <= j < |st.txs[v].writeset| && st.txs[v].writeset[j].copy == st.slots[x] ==> v == u && j == i
  {
    ReachableInv(st);
    u, i := LatchOwner(st, x);
    forall v, j | v in st.txs && 0 <= j < |st.txs[v].writeset| && st.txs[v].writeset[j].copy == st.slots[x]
      ensures v == u && j == i {
      LatchIsUnique(st, x, u, i, v, j);
    }
  }

  lemma {:induction false} ChainDescends(st: State, a: Addr, i: nat, k: nat)
    requires Linked(st) && i < k < |Chain(st, a)|
    ensures VerAt(st, Chain(st, a)[k]) > 0
    ensures VerAt(st, Chain(st, a)[i]) > 0 ==> VerAt(st, Chain(st, a)[k]) < VerAt(st, Chain(st, a)[i])
    decreases if VerAt(st, a) == 0 then 1 else 0, VerAt(st, a)
  {
    var b := st.heap[a].other.value;
    assert Chain(st, a)[k] == Chain(st, b)[k - 1];
    assert Chain(st, b)[0] == b;
    if i > 0 {
      assert Chain(st, a)[i] == Chain(st, b)[i - 1];
      ChainDescends(st, b, i - 1, k - 1);
    } else if k > 1 {
      ChainDescends(st, b, 0, k - 1);
    }
  }

  /** Below the head everything is committed, versions strictly decrease, no object repeats. */
  lemma ChainIsSound(st: State, x: Slot)
    requires Reachable(st) && x in st.slots
    ensures Linked(st)
    ensures forall k :: 0 < k < |Chain(st, st.slots[x])| ==> VerAt(st, Chain(st, st.slots[x])[k]) > 0
    ensures forall i, k :: 0 <= i < k < |Chain(st, st.slots[x])| && VerAt(st, Chain(st, st.slots[x])[i]) > 0 ==>
      VerAt(st, Chain(st, st.slots[x])[k]) < VerAt(st, Chain(st, st.slots[x])[i])
    ensures forall i, k :: 0 <= i < k < |Chain(st, st.slots[x])| ==>
      Chain(st, st.slots[x])[i] != Chain(st, st.slots[x])[k]
  {
    ReachableInv(st);
    InvLinked(st);
    forall i, k | 0 <= i < k < |Chain(st, st.slots[x])|
      ensures VerAt(st, Chain(st, st.slots[x])[k]) > 0
      ensures VerAt(st, Chain(st, st.slots[x])[i]) > 0 ==>
        VerAt(st, Chain(st, st.slots[x])[k]) < VerAt(st, Chain(st, st.slots[x])[i]) {
      ChainDescends(st, st.slots[x], i, k);
    }
    forall k | 0 < k < |Chain(st, st.slots[x])| ensures VerAt(st, Chain(st, st.slots[x])[k]) > 0 {
      ChainDescends(st, st.slots[x], 0, k);
    }
  }
}
