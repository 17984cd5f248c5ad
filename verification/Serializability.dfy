/** First committer wins, when what was read is serial, and when transactions run as if one after another. */
module Serializability {
  import opened Basics
  import opened Protocol
  import opened Invariant
  import opened Publication
  import opened Snapshots
  import opened Outcomes

  // ---------------------------------------------------------------- the history is the list of commits

  /** Entry k is what its transaction did: same version, writeset, snapshot and reads. */
  ghost predicate EntryTied(st: State, k: nat)
    requires k < |st.hist|
  {
    var e := st.hist[k];
    && e.tx in st.txs
    && var tx := st.txs[e.tx];
      && tx.log.Some? && tx.log.value in st.logs && st.logs[tx.log.value].word == e.version
      && Stored(tx.pc) && e.objs == Objs(tx.writeset) && e.snapshot == tx.snapshot && e.seen == tx.seen
  }

  ghost predicate Recorded(st: State, t: TxId) {
    exists k :: 0 <= k < |st.hist| && st.hist[k].tx == t
  }

  /** The bytes that `write` handed out are among the values seen. */
  ghost predicate WritesSeen(tx: Tx) {
    forall i :: 0 <= i < |tx.writeset| ==> Saw(tx.seen, tx.writeset[i].dst)
  }

  ghost predicate Saw(seen: seq<(Slot, Value)>, x: Slot) {
    exists k :: 0 <= k < |seen| && seen[k].0 == x
  }

  ghost predicate Tied(st: State) {
    && (forall k {:trigger EntryTied(st, k)} :: 0 <= k < |st.hist| ==> EntryTied(st, k))
    && (forall t :: t in st.txs && Stored(st.txs[t].pc) && st.txs[t].log.Some? ==> Recorded(st, t))
    && (forall t :: t in st.txs ==> WritesSeen(st.txs[t]))
  }

  /** A transaction that stored its version has nothing left to do but release the lock. */
  lemma StoredIsFinal(st: State, l: Label)
    requires Step(st, l).Some? && l.t in st.txs && Stored(st.txs[l.t].pc)
    ensures l.Unlock? && Step(st, l).value.logs == st.logs
    ensures Step(st, l).value.txs[l.t] == st.txs[l.t].(pc := Finished(true))
  {
  }

  lemma EntryStaysTied(st: State, l: Label, k: nat)
    requires Inv(st) && Tied(st) && Step(st, l).Some? && k < |st.hist|
    ensures k < |Step(st, l).value.hist| && Step(st, l).value.hist[k] == st.hist[k]
    ensures EntryTied(Step(st, l).value, k)
  {
    var u := st.hist[k].tx;
    assert EntryTied(st, k);
    assert TxOk(st, u, st.txs[u]);
    if l.t == u {
      StoredIsFinal(st, l);
    } else if l.StoreVersion? {
      assert TxOk(st, l.t, st.txs[l.t]);
    } else {
      StepKeepsLogs(st, l, st.txs[u].log.value);
    }
  }

  lemma StepKeepsLogs(st: State, l: Label, a: Addr)
    requires Step(st, l).Some? && !l.StoreVersion? && a in st.logs
    ensures a in Step(st, l).value.logs && Step(st, l).value.logs[a] == st.logs[a]
  {
  }

  /** In the closure nothing is stored; at the end only the store of a version word stores. */
  lemma OnlyStoreStores(st: State, l: Label)
    requires Step(st, l).Some? && Stored(Step(st, l).value.txs[l.t].pc) && Step(st, l).value.txs[l.t].log.Some?
    requires !(l.t in st.txs && Stored(st.txs[l.t].pc) && st.txs[l.t].log.Some?)
    ensures l.StoreVersion?
  {
    if l.t in st.txs && InClosure(l) {
      ClosureKeepsRunning(st, l);
    } else if l.t in st.txs {
      EndStores(st, l);
    }
  }

  lemma ClosureKeepsRunning(st: State, l: Label)
    requires l.t in st.txs && InClosure(l) && StepInClosure(st, l).Some?
    ensures !Stored(StepInClosure(st, l).value.txs[l.t].pc)
  {
  }

  lemma EndStores(st: State, l: Label)
    requires l.t in st.txs && !InClosure(l) && StepAtEnd(st, l).Some?
    requires Stored(StepAtEnd(st, l).value.txs[l.t].pc) && StepAtEnd(st, l).value.txs[l.t].log.Some?
    ensures l.StoreVersion? || (Stored(st.txs[l.t].pc) && st.txs[l.t].log.Some?)
  {
  }

  lemma StepRecords(st: State, l: Label, t: TxId)
    requires Tied(st) && Step(st, l).Some? && t in Step(st, l).value.txs
    requires Stored(Step(st, l).value.txs[t].pc) && Step(st, l).value.txs[t].log.Some?
    ensures Recorded(Step(st, l).value, t)
  {
    if t in st.txs && Stored(st.txs[t].pc) && st.txs[t].log.Some? {
      var k :| 0 <= k < |st.hist| && st.hist[k].tx == t;
      assert Step(st, l).value.hist[k] == st.hist[k];
    } else {
      OnlyStoreStores(st, l);
      assert Step(st, l).value.hist[|st.hist|].tx == t;
    }
  }

  lemma InstallSees(st: State, t: TxId)
    requires t in st.txs && WritesSeen(st.txs[t]) && DoInstallCopy(st, t).Some?
    ensures WritesSeen(DoInstallCopy(st, t).value.txs[t])
  {
    var tx, tx' := st.txs[t], DoInstallCopy(st, t).value.txs[t];
    if tx'.writeset != tx.writeset {
      forall i | 0 <= i < |tx'.writeset| ensures Saw(tx'.seen, tx'.writeset[i].dst) {
        if i < |tx.writeset| {
          SawStays(tx.seen, tx'.seen, tx.writeset[i].dst);
        } else {
          assert tx'.seen[|tx.seen|].0 == tx'.writeset[i].dst;
        }
      }
    }
  }

  lemma SawStays(seen: seq<(Slot, Value)>, seen': seq<(Slot, Value)>, x: Slot)
    requires Saw(seen, x) && seen <= seen'
    ensures Saw(seen', x)
  {
    var k :| 0 <= k < |seen| && seen[k].0 == x;
    assert seen'[k] == seen[k];
  }

  lemma StepSees(st: State, l: Label, t: TxId)
    requires Tied(st) && Step(st, l).Some? && t in Step(st, l).value.txs
    ensures WritesSeen(Step(st, l).value.txs[t])
  {
    if t == l.t && l.InstallCopy? {
      InstallSees(st, t);
    } else if t == l.t && t in st.txs {
      StepKeepsWriteset(st, l);
      forall i | 0 <= i < |st.txs[t].writeset| ensures Saw(Step(st, l).value.txs[t].seen, st.txs[t].writeset[i].dst) {
        SawStays(st.txs[t].seen, Step(st, l).value.txs[t].seen, st.txs[t].writeset[i].dst);
      }
    }
  }

  lemma ClosureKeepsWriteset(st: State, l: Label)
    requires l.t in st.txs && InClosure(l) && StepInClosure(st, l).Some? && !l.InstallCopy?
    ensures StepInClosure(st, l).value.txs[l.t].writeset == st.txs[l.t].writeset
  {
  }

  lemma EndKeepsWriteset(st: State, l: Label)
    requires l.t in st.txs && !InClosure(l) && StepAtEnd(st, l).Some?
    ensures StepAtEnd(st, l).value.txs[l.t].writeset == st.txs[l.t].writeset
  {
  }

  /** Only installing a copy extends the writeset. */
  lemma StepKeepsWriteset(st: State, l: Label)
    requires Step(st, l).Some? && l.t in st.txs && !l.InstallCopy?
    ensures Step(st, l).value.txs[l.t].writeset == st.txs[l.t].writeset
  {
    if InClosure(l) {
      ClosureKeepsWriteset(st, l);
    } else if !l.Begin? {
      EndKeepsWriteset(st, l);
    }
  }

  lemma KeepTied(st: State, l: Label)
    requires Inv(st) && Tied(st) && Step(st, l).Some?
    ensures Tied(Step(st, l).value)
  {
    var st' := Step(st, l).value;
    forall k | 0 <= k < |st'.hist| ensures EntryTied(st', k) {
      if k < |st.hist| {
        EntryStaysTied(st, l, k);
      } else {
        assert l.StoreVersion?;
      }
    }
    forall t | t in st'.txs && Stored(st'.txs[t].pc) && st'.txs[t].log.Some? ensures Recorded(st', t) {
      StepRecords(st, l, t);
    }
    forall t | t in st'.txs ensures WritesSeen(st'.txs[t]) {
      StepSees(st, l, t);
    }
  }

  lemma {:induction false} RunTied(st: State, ls: seq<Label>)
    requires Inv(st) && Tied(st) && Run(st, ls).Some?
    ensures Tied(Run(st, ls).value)
    decreases |ls|
  {
    if |ls| > 0 {
      RunTied(st, ls[..|ls| - 1]);
      KeepRun(st, ls[..|ls| - 1]);
      KeepTied(Run(st, ls[..|ls| - 1]).value, ls[|ls| - 1]);
    }
  }

  lemma ReachableTied(st: State)
    requires Reachable(st)
    ensures Tied(st)
  {
    var st0, ls := RunToReachable(st);
    InitialInv(st0);
    RunTied(st0, ls);
  }

  /** The history lists each committed writing transaction once, with its own version. */
  lemma HistoryIsTheCommits(st: State, t: TxId)
    requires Reachable(st) && t in st.txs && st.txs[t].log.Some?
    ensures Stored(st.txs[t].pc) <==> exists k :: 0 <= k < |st.hist| && st.hist[k].tx == t
    ensures forall j, k ::
      0 <= j < |st.hist| && 0 <= k < |st.hist| && st.hist[j].tx == t && st.hist[k].tx == t ==> j == k
  {
    ReachableInv(st);
    ReachableTied(st);
    VersionsIncrease(st.init, st.hist);
    if Stored(st.txs[t].pc) {
      assert Recorded(st, t);
    }
    forall j, k | 0 <= j < |st.hist| && 0 <= k < |st.hist| && st.hist[j].tx == t && st.hist[k].tx == t ensures j == k {
      assert EntryTied(st, j) && EntryTied(st, k);
    }
    if k :| 0 <= k < |st.hist| && st.hist[k].tx == t {
      assert EntryTied(st, k);
    }
  }

  // ---------------------------------------------------------------- first committer wins

  /** Nobody commits a version between the snapshot and the version of k on a cell that k wrote. */
  lemma FirstCommitterWins(st: State, j: nat, k: nat, x: Slot)
    requires Reachable(st) && j < |st.hist| && k < |st.hist|
    requires st.hist[k].snapshot < st.hist[j].version < st.hist[k].version
    requires x in st.hist[k].objs
    ensures x !in st.hist[j].objs
  {
    ReachableInv(st);
    VersionsIncrease(st.init, st.hist);
    assert EntryShape(st.init, st.hist, k);
  }

  // ---------------------------------------------------------------- serial execution

  /** The store after every commit of the history. */
  function After(init: map<Slot, Value>, hist: seq<Commit>): map<Slot, Value>
    decreases |hist|
  {
    if |hist| == 0 then init else After(init, hist[..|hist| - 1]) + hist[|hist| - 1].vals
  }

  lemma {:induction false} AfterIsPointwise(init: map<Slot, Value>, hist: seq<Commit>, j: nat)
    requires HistShape(init, hist) && j <= |hist|
    ensures After(init, hist[..j]).Keys == init.Keys
    ensures forall x :: x in init ==> After(init, hist[..j])[x] == ReplayAt(init, hist, j, x)
  {
    if j > 0 {
      AfterIsPointwise(init, hist, j - 1);
      assert hist[..j][..j - 1] == hist[..j - 1];
      assert EntryShape(init, hist, j - 1);
    }
  }

  /** No commit between the snapshot of k and k itself wrote the cell. */
  ghost predicate StillCurrent(hist: seq<Commit>, k: nat, x: Slot)
    requires k < |hist|
  {
    forall i :: hist[k].cut <= i < k ==> x !in hist[i].objs
  }

  /** The newest object stays the same exactly as long as nobody commits the cell. */
  lemma {:induction false} NewestStaysIff(st: State, cut: nat, j: nat, x: Slot)
    requires Inv(st) && cut <= j <= |st.hist| && x in st.slots
    ensures Newest(st.base, st.hist, j, x) == Newest(st.base, st.hist, cut, x)
      <==> forall i :: cut <= i < j ==> x !in st.hist[i].objs
  {
    if cut < j {
      NewestStaysIff(st, cut, j - 1, x);
      if x in st.hist[j - 1].objs {
        assert EntryObject(st, j - 1, x);
        NewestIsCommitted(st, cut, x);
      } else if Newest(st.base, st.hist, j - 1, x) != Newest(st.base, st.hist, cut, x) {
        var i :| cut <= i < j - 1 && x in st.hist[i].objs;
      }
    }
  }

  /**
   When a read is serial: the object that the snapshot of k shows is the one that all earlier commits
   together left, exactly if none of them wrote the cell after the snapshot was taken.
   */
  lemma ReadIsSerialIff(st: State, k: nat, x: Slot)
    requires Reachable(st) && k < |st.hist| && x in st.slots
    ensures st.hist[k].cut <= k
    ensures Newest(st.base, st.hist, st.hist[k].cut, x) == Newest(st.base, st.hist, k, x)
      <==> StillCurrent(st.hist, k, x)
  {
    ReachableInv(st);
    assert EntryShape(st.init, st.hist, k);
    NewestStaysIff(st, st.hist[k].cut, k, x);
  }

  /**
   The test that validation lacks: for a running transaction no commit has written the cell since its
   snapshot, exactly if the newest committed object of the cell is within the snapshot.
   */
  lemma CurrentIffWithinSnapshot(st: State, t: TxId, x: Slot)
    requires Reachable(st) && t in st.txs && x in st.slots
    ensures st.txs[t].begunAt <= |st.hist|
    ensures VerAt(st, Newest(st.base, st.hist, |st.hist|, x)) <= st.txs[t].snapshot
      <==> forall i :: st.txs[t].begunAt <= i < |st.hist| ==> x !in st.hist[i].objs
  {
    ReachableInv(st);
    assert TxOk(st, t, st.txs[t]);
    NewestStaysIff(st, st.txs[t].begunAt, |st.hist|, x);
    NewestBetween(st, st.txs[t].begunAt, |st.hist|, x);
    CommittedWithinSnapshot(st, t, x);
  }

  /** A cell that k wrote was still current: the first committer won it. */
  lemma WrittenIsCurrent(st: State, k: nat, x: Slot)
    requires Reachable(st) && k < |st.hist| && x in st.hist[k].objs
    ensures StillCurrent(st.hist, k, x)
  {
    ReachableInv(st);
    assert EntryShape(st.init, st.hist, k);
  }

  /** What k saw of a cell that is still current is what every earlier commit together left there. */
  lemma {:induction false} SeenIsCurrent(init: map<Slot, Value>, hist: seq<Commit>, cut: nat, j: nat, x: Slot)
    requires HistShape(init, hist) && cut <= j <= |hist| && forall i :: cut <= i < j ==> x !in hist[i].objs
    ensures ReplayAt(init, hist, j, x) == ReplayAt(init, hist, cut, x)
  {
    if cut < j {
      assert EntryShape(init, hist, j - 1);
      SeenIsCurrent(init, hist, cut, j - 1, x);
    }
  }

  /** Every value that a committed transaction saw of a cell still current comes from the serial store. */
  lemma CommitSawSerialStore(st: State, k: nat, i: nat)
    requires Reachable(st) && k < |st.hist| && i < |st.hist[k].seen| && StillCurrent(st.hist, k, st.hist[k].seen[i].0)
    ensures st.hist[k].seen[i].0 in After(st.init, st.hist[..k])
    ensures st.hist[k].seen[i].1 == After(st.init, st.hist[..k])[st.hist[k].seen[i].0]
  {
    ReachableInv(st);
    assert EntryShape(st.init, st.hist, k);
    AfterIsPointwise(st.init, st.hist, k);
    SeenIsCurrent(st.init, st.hist, st.hist[k].cut, k, st.hist[k].seen[i].0);
  }

  /** A deterministic transaction: the cells it looks at, and what it writes given their values. */
  datatype Program = Program(footprint: set<Slot>, f: map<Slot, Value> -> map<Slot, Value>)

  function View(store: map<Slot, Value>, cells: set<Slot>): map<Slot, Value> {
    map x | x in cells && x in store :: store[x]
  }

  /** The commit is an execution of the program on the values it saw. */
  ghost predicate Executes(e: Commit, p: Program) {
    exists m: map<Slot, Value> ::
      m.Keys == p.footprint && (forall x :: x in m ==> (x, m[x]) in e.seen) && e.vals == p.f(m)
  }

  /** The commit executed a program that looks only at cells which the commit wrote. */
  ghost predicate WritesWhatItReads(e: Commit, p: Program) {
    Executes(e, p) && p.footprint <= e.objs.Keys
  }

  /** The commit executed a program, and every cell it looks at was still current. */
  ghost predicate ReadsCurrent(hist: seq<Commit>, k: nat, p: Program)
    requires k < |hist|
  {
    Executes(hist[k], p) && forall x :: x in p.footprint ==> StillCurrent(hist, k, x)
  }

  ghost predicate AllReadCurrent(hist: seq<Commit>, ps: seq<Program>) {
    && |ps| == |hist|
    && forall k {:trigger ReadsCurrent(hist, k, ps[k])} :: 0 <= k < |ps| ==> ReadsCurrent(hist, k, ps[k])
  }

  /** Writing what is read is enough, and a program can see to it by itself. */
  lemma WritersReadCurrent(st: State, k: nat, p: Program)
    requires Reachable(st) && k < |st.hist| && WritesWhatItReads(st.hist[k], p)
    ensures ReadsCurrent(st.hist, k, p)
  {
    forall x | x in p.footprint ensures StillCurrent(st.hist, k, x) {
      WrittenIsCurrent(st, k, x);
    }
  }

  /** Run the programs one after another, alone. */
  function RunAlone(init: map<Slot, Value>, ps: seq<Program>): map<Slot, Value>
    decreases |ps|
  {
    if |ps| == 0 then init
    else
      var store := RunAlone(init, ps[..|ps| - 1]);
      store + ps[|ps| - 1].f(View(store, ps[|ps| - 1].footprint))
  }

  lemma SawSerialValue(st: State, k: nat, x: Slot, v: Value)
    requires Reachable(st) && k < |st.hist| && (x, v) in st.hist[k].seen && StillCurrent(st.hist, k, x)
    ensures x in After(st.init, st.hist[..k]) && After(st.init, st.hist[..k])[x] == v
  {
    var i :| 0 <= i < |st.hist[k].seen| && st.hist[k].seen[i] == (x, v);
    CommitSawSerialStore(st, k, i);
  }

  /** A program whose cells were still current saw the serial store. */
  lemma ExecutedOnSerialStore(st: State, k: nat, p: Program)
    requires Reachable(st) && k < |st.hist| && ReadsCurrent(st.hist, k, p)
    ensures st.hist[k].vals == p.f(View(After(st.init, st.hist[..k]), p.footprint))
  {
    var e := st.hist[k];
    var m: map<Slot, Value> :|
      m.Keys == p.footprint && (forall x :: x in m ==> (x, m[x]) in e.seen) && e.vals == p.f(m);
    forall x | x in m ensures x in After(st.init, st.hist[..k]) && m[x] == After(st.init, st.hist[..k])[x] {
      SawSerialValue(st, k, x, m[x]);
    }
    assert m == View(After(st.init, st.hist[..k]), p.footprint);
  }

  /** The store in the snapshot of commit k. */
  function SnapshotOf(st: State, k: nat): map<Slot, Value>
    requires k < |st.hist|
  {
    ReplayUpTo(st.init, st.hist, st.hist[k].snapshot)
  }

  /** What a commit saw is what its snapshot holds. */
  lemma CommitSawSnapshot(st: State, k: nat, i: nat)
    requires Reachable(st) && k < |st.hist| && i < |st.hist[k].seen|
    ensures st.hist[k].seen[i].0 in SnapshotOf(st, k)
    ensures st.hist[k].seen[i].1 == SnapshotOf(st, k)[st.hist[k].seen[i].0]
  {
    ReachableTied(st);
    assert EntryTied(st, k);
    SeenIsSnapshot(st, st.hist[k].tx, i);
  }

  lemma SawSnapshotValue(st: State, k: nat, x: Slot, v: Value)
    requires Reachable(st) && k < |st.hist| && (x, v) in st.hist[k].seen
    ensures x in SnapshotOf(st, k) && SnapshotOf(st, k)[x] == v
  {
    var i :| 0 <= i < |st.hist[k].seen| && st.hist[k].seen[i] == (x, v);
    CommitSawSnapshot(st, k, i);
  }

  /** Every execution of a commit ran on its snapshot. */
  lemma ExecutedOnSnapshot(st: State, k: nat, p: Program)
    requires Reachable(st) && k < |st.hist| && Executes(st.hist[k], p)
    ensures st.hist[k].vals == p.f(View(SnapshotOf(st, k), p.footprint))
  {
    var e := st.hist[k];
    var m: map<Slot, Value> :|
      m.Keys == p.footprint && (forall x :: x in m ==> (x, m[x]) in e.seen) && e.vals == p.f(m);
    forall x | x in m ensures x in SnapshotOf(st, k) && m[x] == SnapshotOf(st, k)[x] {
      SawSnapshotValue(st, k, x, m[x]);
    }
    assert m == View(SnapshotOf(st, k), p.footprint);
  }

  /** A program that tells one view from all others. */
  function Telling(cells: set<Slot>, view: map<Slot, Value>, vals: map<Slot, Value>): Program {
    Program(cells, (m: map<Slot, Value>) => if m == view then vals else if vals == map[] then map[0 := []] else map[])
  }

  lemma TellingTells(cells: set<Slot>, view: map<Slot, Value>, vals: map<Slot, Value>, other: map<Slot, Value>)
    requires other != view
    ensures Telling(cells, view, vals).f(other) != vals
  {
    var none: map<Slot, Value> := map[];
    var one: map<Slot, Value> := map[0 := []];
    assert 0 in one && 0 !in none;
    assert Telling(cells, view, vals).f(other) == if vals == none then one else none;
  }

  lemma ExecutesTelling(st: State, k: nat, cells: set<Slot>)
    requires Reachable(st) && k < |st.hist| && forall x :: x in cells ==> Saw(st.hist[k].seen, x)
    ensures Executes(st.hist[k], Telling(cells, View(SnapshotOf(st, k), cells), st.hist[k].vals))
  {
    var e, view := st.hist[k], View(SnapshotOf(st, k), cells);
    forall x | x in cells ensures x in view && (x, view[x]) in e.seen {
      var i :| 0 <= i < |e.seen| && e.seen[i].0 == x;
      CommitSawSnapshot(st, k, i);
      assert e.seen[i] == (x, view[x]);
    }
    assert view.Keys == cells;
  }

  /**
   The exact condition for one commit: whatever program over the cells it ran, running it alone after
   the earlier commits gives what was committed, if and only if its snapshot of these cells is what
   the earlier commits left.
   */
  lemma SerialWhateverItRanIff(st: State, k: nat, cells: set<Slot>)
    requires Reachable(st) && k < |st.hist| && forall x :: x in cells ==> Saw(st.hist[k].seen, x)
    ensures View(SnapshotOf(st, k), cells) == View(After(st.init, st.hist[..k]), cells)
      <==> forall p: Program :: p.footprint == cells && Executes(st.hist[k], p) ==>
             st.hist[k].vals == p.f(View(After(st.init, st.hist[..k]), cells))
  {
    var mine, serial := View(SnapshotOf(st, k), cells), View(After(st.init, st.hist[..k]), cells);
    if mine == serial {
      forall p: Program | p.footprint == cells && Executes(st.hist[k], p) ensures st.hist[k].vals == p.f(serial) {
        ExecutedOnSnapshot(st, k, p);
      }
    } else {
      var p := Telling(cells, mine, st.hist[k].vals);
      ExecutesTelling(st, k, cells);
      TellingTells(cells, mine, st.hist[k].vals, serial);
    }
  }

  lemma RunAloneNext(init: map<Slot, Value>, ps: seq<Program>, k: nat)
    requires k < |ps|
    ensures RunAlone(init, ps[..k + 1])
      == RunAlone(init, ps[..k]) + ps[k].f(View(RunAlone(init, ps[..k]), ps[k].footprint))
  {
    assert ps[..k + 1][..k] == ps[..k];
  }

  lemma AfterNext(init: map<Slot, Value>, hist: seq<Commit>, k: nat)
    requires k < |hist|
    ensures After(init, hist[..k + 1]) == After(init, hist[..k]) + hist[k].vals
  {
    assert hist[..k + 1][..k] == hist[..k];
  }

  lemma {:induction false} SerialPrefix(st: State, ps: seq<Program>, k: nat)
    requires Reachable(st) && AllReadCurrent(st.hist, ps) && k <= |ps|
    ensures RunAlone(st.init, ps[..k]) == After(st.init, st.hist[..k])
  {
    if k > 0 {
      SerialPrefix(st, ps, k - 1);
      assert ReadsCurrent(st.hist, k - 1, ps[k - 1]);
      ExecutedOnSerialStore(st, k - 1, ps[k - 1]);
      RunAloneNext(st.init, ps, k - 1);
      AfterNext(st.init, st.hist, k - 1);
    }
  }

  /**
   Serializability: if nobody committed a cell that a committed transaction looks at between its
   snapshot and its commit, the visible store is what running the committed programs alone, in
   version order, leaves.
   */
  lemma Serializable(st: State, ps: seq<Program>, x: Slot)
    requires Reachable(st) && x in st.slots && AllReadCurrent(st.hist, ps)
    ensures Linked(st) && x in RunAlone(st.init, ps)
    ensures Walk(st, st.slots[x], st.counter) == Some(RunAlone(st.init, ps)[x])
  {
    ReachableInv(st);
    SerialPrefix(st, ps, |ps|);
    assert ps[..|ps|] == ps && st.hist[..|st.hist|] == st.hist;
    HeadWalks(st, x, st.counter);
    AllWithinCounter(st);
    ReplayMatches(st, st.counter, |st.hist|, x);
    AfterIsPointwise(st.init, st.hist, |st.hist|);
  }

  /** In particular if every committed transaction writes each cell it looks at. */
  lemma WritersAreSerializable(st: State, ps: seq<Program>, x: Slot)
    requires Reachable(st) && x in st.slots && |ps| == |st.hist|
    requires forall j {:trigger WritesWhatItReads(st.hist[j], ps[j])} :: 0 <= j < |ps| ==>
      WritesWhatItReads(st.hist[j], ps[j])
    ensures Linked(st) && x in RunAlone(st.init, ps)
    ensures Walk(st, st.slots[x], st.counter) == Some(RunAlone(st.init, ps)[x])
  {
    forall k | 0 <= k < |ps| ensures ReadsCurrent(st.hist, k, ps[k]) {
      assert WritesWhatItReads(st.hist[k], ps[k]);
      WritersReadCurrent(st, k, ps[k]);
    }
    Serializable(st, ps, x);
  }

  lemma AllWithinCounter(st: State)
    requires Inv(st)
    ensures CutOk(st.hist, |st.hist|, st.counter, |st.hist|)
  {
  }

  /** A snapshot is the store after some prefix of the history. */
  lemma SnapshotIsPrefix(st: State, t: TxId)
    requires Inv(st) && t in st.txs
    ensures st.txs[t].begunAt <= |st.hist|
    ensures ReplayUpTo(st.init, st.hist, st.txs[t].snapshot) == After(st.init, st.hist[..st.txs[t].begunAt])
  {
    var tx := st.txs[t];
    assert TxOk(st, t, tx);
    ReplayIsPointwise(st.init, st.hist, |st.hist|, tx.snapshot, tx.begunAt);
    AfterIsPointwise(st.init, st.hist, tx.begunAt);
    assert st.hist[..|st.hist|] == st.hist;
  }

  /**
   Whatever all programs preserve when run alone, every running transaction finds preserved in its
   snapshot, no matter how the runs are interleaved.
   */
  lemma SnapshotsAreConsistent(st: State, ps: seq<Program>, good: map<Slot, Value> -> bool, t: TxId)
    requires Reachable(st) && t in st.txs && AllReadCurrent(st.hist, ps)
    requires good(st.init)
    requires forall j, s: map<Slot, Value> :: 0 <= j < |ps| && good(s) ==> good(s + ps[j].f(View(s, ps[j].footprint)))
    ensures good(ReplayUpTo(st.init, st.hist, st.txs[t].snapshot))
  {
    ReachableInv(st);
    SnapshotIsPrefix(st, t);
    SerialPrefix(st, ps, st.txs[t].begunAt);
    PreservedAlone(st.init, ps, good, st.txs[t].begunAt);
  }

  lemma {:induction false} PreservedAlone(init: map<Slot, Value>, ps: seq<Program>, good: map<Slot, Value> -> bool,
                                             k: nat)
    requires good(init) && k <= |ps|
    requires forall j, s: map<Slot, Value> :: 0 <= j < |ps| && good(s) ==> good(s + ps[j].f(View(s, ps[j].footprint)))
    ensures good(RunAlone(init, ps[..k]))
  {
    if k > 0 {
      PreservedAlone(init, ps, good, k - 1);
      assert ps[..k][..k - 1] == ps[..k - 1];
    }
  }

  // ---------------------------------------------------------------- the counter

  /** The commit overwrote cell x with a value one higher than the one it saw there. */
  ghost predicate Increments(e: Commit, x: Slot, num: Value -> int) {
    x in e.objs && x in e.vals
    && forall i :: 0 <= i < |e.seen| && e.seen[i].0 == x ==> num(e.vals[x]) == num(e.seen[i].1) + 1
  }

  lemma {:induction false} CountsCommits(st: State, x: Slot, num: Value -> int, k: nat)
    requires Reachable(st) && x in st.slots && k <= |st.hist|
    requires forall j :: 0 <= j < |st.hist| ==> Increments(st.hist[j], x, num)
    ensures x in After(st.init, st.hist[..k]) && x in st.init
    ensures num(After(st.init, st.hist[..k])[x]) == num(st.init[x]) + k
  {
    ReachableInv(st);
    if k > 0 {
      CountsCommits(st, x, num, k - 1);
      assert st.hist[..k][..k - 1] == st.hist[..k - 1];
      var e := st.hist[k - 1];
      assert Increments(e, x, num);
      var i := WriterSaw(st, k - 1, x);
      WrittenIsCurrent(st, k - 1, x);
      CommitSawSerialStore(st, k - 1, i);
    }
  }

  /** Whoever committed a cell saw a value of it. */
  lemma WriterSaw(st: State, k: nat, x: Slot) returns (i: nat)
    requires Reachable(st) && k < |st.hist| && x in st.hist[k].objs
    ensures i < |st.hist[k].seen| && st.hist[k].seen[i].0 == x
  {
    ReachableTied(st);
    assert EntryTied(st, k);
    var tx := st.txs[st.hist[k].tx];
    var n :| 0 <= n < |tx.writeset| && tx.writeset[n].dst == x && tx.writeset[n].copy == st.hist[k].objs[x];
    assert WritesSeen(tx) && Saw(tx.seen, tx.writeset[n].dst);
    i :| 0 <= i < |tx.seen| && tx.seen[i].0 == x;
  }

  /** The concurrent counter: its visible value is its initial value plus the number of commits. */
  lemma CounterCountsCommits(st: State, x: Slot, num: Value -> int)
    requires Reachable(st) && x in st.slots
    requires forall j :: 0 <= j < |st.hist| ==> Increments(st.hist[j], x, num)
    ensures Linked(st) && Walk(st, st.slots[x], st.counter).Some? && x in st.init
    ensures num(Walk(st, st.slots[x], st.counter).value) == num(st.init[x]) + |st.hist|
  {
    ReachableInv(st);
    CountsCommits(st, x, num, |st.hist|);
    assert st.hist[..|st.hist|] == st.hist;
    HeadWalks(st, x, st.counter);
    AllWithinCounter(st);
    ReplayMatches(st, st.counter, |st.hist|, x);
    AfterIsPointwise(st.init, st.hist, |st.hist|);
  }
}
