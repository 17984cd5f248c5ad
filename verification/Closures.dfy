/** What the operations of a closure amount to once its transaction committed. */
module Closures {
  import opened Basics
  import opened Protocol
  import opened Invariant
  import opened Publication
  import opened Snapshots
  import opened Serializability
  import opened Buffers

  /**
   One operation of a closure. Each hands out the bytes of a cell; Put also fills the buffer it was
   handed, depending on all bytes that the closure was handed so far.
   */
  datatype Op = Get(x: Slot) | GetForWrite(x: Slot) | Put(x: Slot, edit: seq<Value> -> Value)

  /** The cells that operations use. */
  function CellsOf(ops: seq<Op>): set<Slot> {
    set i | 0 <= i < |ops| :: ops[i].x
  }

  /** The bytes handed out when the cells hold these values. */
  function Handed(ops: seq<Op>, sees: map<Slot, Value>): seq<Value> {
    seq(|ops|, i requires 0 <= i < |ops| => if ops[i].x in sees then sees[ops[i].x] else [])
  }

  /** The writes, in order, with what the closure leaves in their buffers. */
  function Results(ops: seq<Op>, sees: map<Slot, Value>): seq<(Slot, Value)>
    decreases |ops|
  {
    if |ops| == 0 then []
    else
      var last := ops[|ops| - 1];
      Results(ops[..|ops| - 1], sees) + if last.Put? then [(last.x, last.edit(Handed(ops, sees)))] else []
  }

  function AsMap(results: seq<(Slot, Value)>): map<Slot, Value>
    decreases |results|
  {
    if |results| == 0 then map[]
    else AsMap(results[..|results| - 1])[results[|results| - 1].0 := results[|results| - 1].1]
  }

  lemma HandedNext(ops: seq<Op>, i: nat, sees: map<Slot, Value>)
    requires i < |ops| && ops[i].x in sees
    ensures Handed(ops[..i + 1], sees) == Handed(ops[..i], sees) + [sees[ops[i].x]]
  {
  }

  // ---------------------------------------------------------------- what the writes left behind

  /** Each write latched its cell, and its buffer holds what the closure left there. */
  ghost predicate Did(ws: seq<Write>, bufs: seq<Value>, results: seq<(Slot, Value)>) {
    && |ws| == |bufs| == |results|
    && forall i {:trigger DidPut(ws[i], bufs[i], results[i])} :: 0 <= i < |ws| ==> DidPut(ws[i], bufs[i], results[i])
  }

  predicate DidPut(w: Write, buf: Value, result: (Slot, Value)) {
    w.dst == result.0 && buf == result.1
  }

  lemma DidOneMore(ws: seq<Write>, bufs: seq<Value>, results: seq<(Slot, Value)>, ws': seq<Write>, x: Slot, v: Value)
    requires Did(ws, bufs, results)
    requires |ws'| == |ws| + 1 && ws'[..|ws|] == ws && ws'[|ws|].dst == x
    ensures Did(ws', bufs + [v], results + [(x, v)])
  {
    var bufs', results' := bufs + [v], results + [(x, v)];
    forall i | 0 <= i < |ws'| ensures DidPut(ws'[i], bufs'[i], results'[i]) {
      if i < |ws| {
        assert DidPut(ws[i], bufs[i], results[i]);
        assert ws'[..|ws|][i] == ws[i];
      }
    }
  }

  /**
   The commit holds exactly what the closure computes from the snapshot, and every cell that the closure
   used is among those the transaction saw.
   */
  ghost predicate HasPublished(st: State, k: nat, ops: seq<Op>)
    requires k < |st.hist|
  {
    && st.hist[k].vals == AsMap(Results(ops, SnapshotOf(st, k)))
    && forall x :: x in CellsOf(ops) ==> Saw(st.hist[k].seen, x)
  }

  lemma {:induction false} AsMapOfDistinct(results: seq<(Slot, Value)>)
    requires forall i, j :: 0 <= i < j < |results| ==> results[i].0 != results[j].0
    ensures forall i :: 0 <= i < |results| ==>
      results[i].0 in AsMap(results) && AsMap(results)[results[i].0] == results[i].1
    ensures forall x :: x in AsMap(results) ==> exists i :: 0 <= i < |results| && results[i].0 == x
    decreases |results|
  {
    if |results| > 0 {
      AsMapOfDistinct(results[..|results| - 1]);
    }
  }

  /** A committed transaction that did these writes published them. */
  lemma CommittedIsPublished(st: State, t: TxId, ops: seq<Op>) returns (k: nat)
    requires Reachable(st) && t in st.txs && st.txs[t].pc == Finished(true) && |st.txs[t].writeset| > 0
    requires Did(st.txs[t].writeset, st.txs[t].bufs, Results(ops, ReplayUpTo(st.init, st.hist, st.txs[t].snapshot)))
    requires forall x :: x in CellsOf(ops) ==> Saw(st.txs[t].seen, x)
    ensures k < |st.hist| && st.hist[k].tx == t && HasPublished(st, k, ops)
  {
    HasLog(st, t);
    HistoryIsTheCommits(st, t);
    k :| 0 <= k < |st.hist| && st.hist[k].tx == t;
    CommitPublishesBuffers(st, k);
    ReachableTied(st);
    assert EntryTied(st, k);
    WritesAreDistinct(st, t);
    ValsFromDid(st.txs[t].writeset, st.txs[t].bufs, Results(ops, SnapshotOf(st, k)), st.hist[k].vals);
  }

  lemma HasLog(st: State, t: TxId)
    requires Reachable(st) && t in st.txs && |st.txs[t].writeset| > 0
    ensures st.txs[t].log.Some?
  {
    ReachableInv(st);
    assert TxOk(st, t, st.txs[t]);
    assert WriteOk(st, t, st.txs[t], 0);
  }

  lemma WritesAreDistinct(st: State, t: TxId)
    requires Reachable(st) && t in st.txs
    ensures var ws := st.txs[t].writeset; forall i, j :: 0 <= i < j < |ws| ==> ws[i].dst != ws[j].dst
  {
    ReachableInv(st);
    assert TxOk(st, t, st.txs[t]);
    WritesetIsDistinct(st, t);
  }

  lemma ValsFromDid(ws: seq<Write>, bufs: seq<Value>, results: seq<(Slot, Value)>, vals: map<Slot, Value>)
    requires Did(ws, bufs, results) && forall i, j :: 0 <= i < j < |ws| ==> ws[i].dst != ws[j].dst
    requires forall i :: 0 <= i < |ws| ==> ws[i].dst in vals && vals[ws[i].dst] == bufs[i]
    requires forall x :: x in vals ==> exists i :: 0 <= i < |ws| && ws[i].dst == x
    ensures vals == AsMap(results)
  {
    forall i | 0 <= i < |ws| ensures DidPut(ws[i], bufs[i], results[i]) && results[i].0 == ws[i].dst {
    }
    AsMapOfDistinct(results);
    forall x | x in vals ensures x in AsMap(results) && AsMap(results)[x] == vals[x] {
      var i :| 0 <= i < |ws| && ws[i].dst == x;
      assert results[i].0 == x;
    }
    forall x | x in AsMap(results) ensures x in vals {
      var i :| 0 <= i < |results| && results[i].0 == x;
      assert ws[i].dst == x;
    }
  }

  // ---------------------------------------------------------------- closures as programs

  /** The deterministic transaction that a closure describes. */
  function ProgramOf(ops: seq<Op>): Program {
    Program(CellsOf(ops), (m: map<Slot, Value>) => AsMap(Results(ops, m)))
  }

  /** A closure computes from the cells it uses, and from nothing else. */
  lemma {:induction false} ResultsDependOnCells(ops: seq<Op>, s: map<Slot, Value>, t: map<Slot, Value>)
    requires forall i :: 0 <= i < |ops| ==> ops[i].x in s && ops[i].x in t && s[ops[i].x] == t[ops[i].x]
    ensures Results(ops, s) == Results(ops, t)
    decreases |ops|
  {
    if |ops| > 0 {
      ResultsDependOnCells(ops[..|ops| - 1], s, t);
      assert Handed(ops, s) == Handed(ops, t);
    }
  }

  /** What a committed closure published is an execution of its program. */
  lemma PublishedIsProgram(st: State, k: nat, ops: seq<Op>)
    requires Reachable(st) && k < |st.hist| && HasPublished(st, k, ops)
    ensures Executes(st.hist[k], ProgramOf(ops))
  {
    var e, p, sees := st.hist[k], ProgramOf(ops), SnapshotOf(st, k);
    var m := View(sees, p.footprint);
    forall x | x in p.footprint ensures x in sees && (x, sees[x]) in e.seen {
      var i :| 0 <= i < |e.seen| && e.seen[i].0 == x;
      CommitSawSnapshot(st, k, i);
      assert e.seen[i] == (x, sees[x]);
    }
    forall i | 0 <= i < |ops| ensures ops[i].x in sees && ops[i].x in m && sees[ops[i].x] == m[ops[i].x] {
      assert ops[i].x in p.footprint;
    }
    ResultsDependOnCells(ops, sees, m);
    assert m.Keys == p.footprint && e.vals == p.f(m);
  }

  /** All commits came from these closures. */
  ghost predicate AllPublished(st: State, closures: seq<seq<Op>>) {
    && |closures| == |st.hist|
    && forall k {:trigger HasPublished(st, k, closures[k])} :: 0 <= k < |closures| ==> HasPublished(st, k, closures[k])
  }

  function ProgramsOf(closures: seq<seq<Op>>): seq<Program> {
    seq(|closures|, k requires 0 <= k < |closures| => ProgramOf(closures[k]))
  }

  /**
   If nobody committed a cell that a closure used between its snapshot and its commit, the visible store
   is what the closures leave when they run one after another, alone.
   */
  lemma ClosuresAreSerializable(st: State, closures: seq<seq<Op>>, x: Slot)
    requires Reachable(st) && x in st.slots && AllPublished(st, closures)
    requires forall k, y :: 0 <= k < |closures| && y in CellsOf(closures[k]) ==> StillCurrent(st.hist, k, y)
    ensures Linked(st) && x in RunAlone(st.init, ProgramsOf(closures))
    ensures Walk(st, st.slots[x], st.counter) == Some(RunAlone(st.init, ProgramsOf(closures))[x])
  {
    var ps := ProgramsOf(closures);
    forall k | 0 <= k < |ps| ensures ReadsCurrent(st.hist, k, ps[k]) {
      assert HasPublished(st, k, closures[k]);
      PublishedIsProgram(st, k, closures[k]);
    }
    Serializable(st, ps, x);
  }

  /** The cells that operations put to. */
  function Puts(ops: seq<Op>): set<Slot>
    decreases |ops|
  {
    if |ops| == 0 then {}
    else Puts(ops[..|ops| - 1]) + (if ops[|ops| - 1].Put? then {ops[|ops| - 1].x} else {})
  }

  lemma {:induction false} PutsHaveResults(ops: seq<Op>, sees: map<Slot, Value>)
    ensures AsMap(Results(ops, sees)).Keys == Puts(ops)
    ensures Puts(ops) != {} <==> |Results(ops, sees)| > 0
    decreases |ops|
  {
    if |ops| > 0 {
      var init := ops[..|ops| - 1];
      PutsHaveResults(init, sees);
      var r := Results(ops, sees);
      if ops[|ops| - 1].Put? {
        assert r[..|r| - 1] == Results(init, sees);
      } else {
        assert r == Results(init, sees);
      }
    }
  }

  /** In particular if every closure puts to each cell that it uses. */
  lemma PuttingClosuresAreSerializable(st: State, closures: seq<seq<Op>>, x: Slot)
    requires Reachable(st) && x in st.slots && AllPublished(st, closures)
    requires forall k :: 0 <= k < |closures| ==> CellsOf(closures[k]) <= Puts(closures[k])
    ensures Linked(st) && x in RunAlone(st.init, ProgramsOf(closures))
    ensures Walk(st, st.slots[x], st.counter) == Some(RunAlone(st.init, ProgramsOf(closures))[x])
  {
    forall k, y | 0 <= k < |closures| && y in CellsOf(closures[k]) ensures StillCurrent(st.hist, k, y) {
      assert HasPublished(st, k, closures[k]) && CellsOf(closures[k]) <= Puts(closures[k]);
      PutsHaveResults(closures[k], SnapshotOf(st, k));
      KeysOfEntry(st, k);
      WrittenIsCurrent(st, k, y);
    }
    ClosuresAreSerializable(st, closures, x);
  }

  lemma KeysOfEntry(st: State, k: nat)
    requires Reachable(st) && k < |st.hist|
    ensures st.hist[k].objs.Keys == st.hist[k].vals.Keys
  {
    ReachableInv(st);
    assert EntryShape(st.init, st.hist, k);
  }
}
