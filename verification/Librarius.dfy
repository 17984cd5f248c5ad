/** `Librarius::run_once`: a closure, then commit or abort; and exactly when it succeeds alone. */
module Librarius {
  import opened Basics
  import opened Protocol
  import opened Publication
  import opened Snapshots
  import opened Serializability
  import opened Outcomes
  import opened Interference
  import opened Transactions
  import opened Buffers
  import opened Closures

  datatype RunResult = Done | Aborted(error: Outcome) | Blocked

  /** The cells that operations get for writing. */
  function Gets(ops: seq<Op>): set<Slot>
    decreases |ops|
  {
    if |ops| == 0 then {}
    else Gets(ops[..|ops| - 1]) + (if ops[|ops| - 1].GetForWrite? then {ops[|ops| - 1].x} else {})
  }

  /** An operation that meets the transaction's own latch. */
  predicate MeetsOwnLatch(op: Op, puts: set<Slot>) {
    !op.Get? && op.x in puts
  }

  predicate Clean(ops: seq<Op>)
    decreases |ops|
  {
    |ops| > 0 ==> Clean(ops[..|ops| - 1]) && !MeetsOwnLatch(ops[|ops| - 1], Puts(ops[..|ops| - 1]))
  }

  /** No cell is put to or got for writing after it was put to, and a writer puts what it gets. */
  predicate SucceedsAlone(ops: seq<Op>) {
    Clean(ops) && (Puts(ops) == {} || Gets(ops) <= Puts(ops))
  }

  lemma {:induction false} CleanPrefix(ops: seq<Op>, n: nat)
    requires n <= |ops| && Clean(ops)
    ensures Clean(ops[..n])
    decreases |ops| - n
  {
    if n == |ops| {
      assert ops[..n] == ops;
    } else {
      CleanPrefix(ops, n + 1);
      assert ops[..n + 1][..n] == ops[..n];
    }
  }

  lemma NotClean(ops: seq<Op>, i: nat)
    requires i < |ops| && MeetsOwnLatch(ops[i], Puts(ops[..i]))
    ensures !Clean(ops)
  {
    assert ops[..i + 1][..i] == ops[..i];
    if Clean(ops) {
      CleanPrefix(ops, i + 1);
    }
  }

  /** The cells in use: latched by this transaction if it put to them, else as they were. */
  ghost predicate Alone(st: State, snapshot: nat, cells: set<Slot>, puts: set<Slot>) {
    && st.lock.None? && st.counter == snapshot && cells <= st.slots.Keys && puts <= cells
    && forall x :: x in cells ==>
         && st.slots[x] in st.heap
         && if x in puts then VerAt(st, st.slots[x]) == 0 else Accepts(st, st.slots[x], snapshot)
  }

  /** What the fields of the transaction say about the operations so far. */
  ghost predicate Tracks(writeset: seq<Write>, readset: seq<Slot>, version: Option<Addr>,
                         puts: set<Slot>, gets: set<Slot>) {
    && (forall i :: 0 <= i < |writeset| ==> writeset[i].dst in puts)
    && (forall i :: 0 <= i < |readset| ==> readset[i] in gets)
    && (forall x :: x in gets ==> x in readset)
    && (version.Some? <==> puts != {})
  }

  lemma AlonePut(st: State, st': State, snapshot: nat, cells: set<Slot>, puts: set<Slot>, x: Slot)
    requires Alone(st, snapshot, cells, puts) && x in cells
    requires st'.lock == st.lock && st'.counter == st.counter
    requires forall a :: a in st.heap ==> a in st'.heap && VerAt(st', a) == VerAt(st, a)
    requires x in st'.slots && st'.slots == st.slots[x := st'.slots[x]] && st'.slots[x] in st'.heap
      && VerAt(st', st'.slots[x]) == 0
    ensures Alone(st', snapshot, cells, puts + {x})
  {
  }

  lemma AloneSame(st: State, st': State, snapshot: nat, cells: set<Slot>, puts: set<Slot>)
    requires Alone(st, snapshot, cells, puts)
    requires st'.lock == st.lock && st'.counter == st.counter && st'.slots == st.slots
    requires forall a :: a in st.heap ==> a in st'.heap && VerAt(st', a) == VerAt(st, a)
    ensures Alone(st', snapshot, cells, puts)
  {
  }

  /** What the closure left in the buffers of its writes so far. */
  ghost function Bufs(tx: Transaction): seq<Value>
    requires tx.Live()
    reads tx, tx.store
  {
    tx.store.st.txs[tx.id].bufs
  }

  ghost function Seen(tx: Transaction): seq<(Slot, Value)>
    requires tx.Live()
    reads tx, tx.store
  {
    tx.store.st.txs[tx.id].seen
  }

  lemma BufferPerWrite(tx: Transaction)
    requires tx.Live()
    ensures |Bufs(tx)| == |tx.writeset|
  {
    ReachableBuffered(tx.store.st);
    assert BufsOk(tx.store.st, tx.id);
  }

  /** An operation takes at most two allocations, and only for want of them it runs out of memory. */
  predicate FailsFor(memory0: nat, o: Outcome, memory: nat) {
    memory <= memory0 <= memory + 2 && (o == NoAvailableMemory ==> memory0 < 2) && o != InvalidLogicalAddress
  }

  /** What each operation can answer: a plain read always succeeds, and only a write allocates. */
  predicate Answers(op: Op, o: Outcome) {
    && (op.Get? ==> o == Fine) && (o == NoAvailableMemory ==> op.Put?) && o != InvalidLogicalAddress
  }

  /** Earlier in this run the head of the cell was latched, or newer than the snapshot. */
  ghost predicate Met(tx: Transaction, at: State, x: Slot)
    reads tx, tx.store
  {
    tx.Later(at, tx.store.st) && x in at.slots && Conflict(at, at.slots[x], tx.snapshot)
  }

  /** A write and its edit. */
  method PutTo(tx: Transaction, x: Slot, edit: seq<Value> -> Value, handed: seq<Value>,
               ghost cells: set<Slot>, ghost puts: set<Slot>)
    returns (o: Outcome, v: Value, ghost at: State)
    requires tx.Idle() && x in tx.store.st.slots
    modifies tx`version, tx`writeset, tx.store`st, tx.store`script, tx.store`memory
    ensures tx.Idle() && tx.store.st.slots.Keys == old(tx.store.st.slots.Keys)
    ensures FailsFor(old(tx.store.memory), o, tx.store.memory) && (o == TxAborted ==> Met(tx, at, x))
    ensures if o == Fine
      then |tx.writeset| == |old(tx.writeset)| + 1 && tx.writeset[..|old(tx.writeset)|] == old(tx.writeset)
        && tx.writeset[|old(tx.writeset)|].dst == x && tx.version.Some?
      else tx.writeset == old(tx.writeset)
    ensures tx.Sees() == old(tx.Sees())
    ensures old(Seen(tx)) <= Seen(tx)
    ensures o == Fine ==>
      x in tx.Sees() && v == tx.Sees()[x] && Saw(Seen(tx), x) && Bufs(tx) == old(Bufs(tx)) + [edit(handed + [v])]
    ensures (&& old(tx.store.Quiet()) && old(tx.store.memory) >= 2 && x in cells
             && Alone(old(tx.store.st), tx.snapshot, cells, puts)) ==>
      tx.store.Quiet() && tx.version.Some? && (o == Fine <==> x !in puts)
      && (o == Fine ==> Alone(tx.store.st, tx.snapshot, cells, puts + {x}))
  {
    var r;
    r, at := LatchAlone(tx, x, cells, puts);
    if r.Err? {
      return r.error, [], at;
    }
    v := r.value;
    EditLast(tx, edit(handed + [v]), cells, puts + {x});
    o := Fine;
  }

  /** A write, and what it means for a transaction that runs alone. */
  method LatchAlone(tx: Transaction, x: Slot, ghost cells: set<Slot>, ghost puts: set<Slot>)
    returns (r: Result<Value, Outcome>, ghost at: State)
    requires tx.Idle() && x in tx.store.st.slots
    modifies tx`version, tx`writeset, tx.store`st, tx.store`script, tx.store`memory
    ensures tx.Idle() && tx.store.st.slots.Keys == old(tx.store.st.slots.Keys)
    ensures FailsFor(old(tx.store.memory), if r.Ok? then Fine else r.error, tx.store.memory)
    ensures r == Err(TxAborted) ==> Met(tx, at, x)
    ensures r.Err? ==> r.error != Fine && tx.writeset == old(tx.writeset)
    ensures r.Ok? ==>
      && |tx.writeset| == |old(tx.writeset)| + 1 && tx.writeset[..|old(tx.writeset)|] == old(tx.writeset)
      && tx.writeset[|old(tx.writeset)|].dst == x && tx.version.Some?
      && x in tx.Sees() && r.value == tx.Sees()[x] && Saw(Seen(tx), x) && Bufs(tx) == old(Bufs(tx)) + [r.value]
    ensures tx.Sees() == old(tx.Sees()) && old(Seen(tx)) <= Seen(tx)
    ensures (&& old(tx.store.Quiet()) && old(tx.store.memory) >= 2 && x in cells
             && Alone(old(tx.store.st), tx.snapshot, cells, puts)) ==>
      && tx.store.Quiet() && tx.version.Some? && (r.Ok? <==> x !in puts)
      && (r.Ok? ==> Alone(tx.store.st, tx.snapshot, cells, puts + {x}))
  {
    ghost var st0 := tx.store.st;
    ghost var alone := tx.store.Quiet() && tx.store.memory >= 2 && x in cells && Alone(st0, tx.snapshot, cells, puts);
    r, at := tx.Write(x);
    if alone && r.Ok? {
      HeadIsThere(tx.store.st, x);
      AlonePut(st0, tx.store.st, tx.snapshot, cells, puts, x);
    }
  }

  /** The closure fills the buffer of its last write. */
  method EditLast(tx: Transaction, v: Value, ghost cells: set<Slot>, ghost puts: set<Slot>)
    requires tx.Idle() && |tx.writeset| > 0
    modifies tx.store`st
    ensures tx.Idle() && tx.store.st.slots == old(tx.store.st.slots) && tx.Sees() == old(tx.Sees())
      && Seen(tx) == old(Seen(tx))
    ensures |old(Bufs(tx))| == |tx.writeset| && Bufs(tx) == old(Bufs(tx))[..|tx.writeset| - 1] + [v]
    ensures Alone(old(tx.store.st), tx.snapshot, cells, puts) ==> Alone(tx.store.st, tx.snapshot, cells, puts)
  {
    ghost var st0 := tx.store.st;
    BufferPerWrite(tx);
    tx.Edit(|tx.writeset| - 1, v);
    if Alone(st0, tx.snapshot, cells, puts) {
      AloneSame(st0, tx.store.st, tx.snapshot, cells, puts);
    }
  }

  /** A read, plain or for writing. */
  method GetFrom(tx: Transaction, x: Slot, strict: bool, ghost cells: set<Slot>, ghost puts: set<Slot>)
    returns (o: Outcome, v: Value, ghost at: State)
    requires tx.Idle() && x in tx.store.st.slots
    modifies tx`readset, tx.store`st, tx.store`script
    ensures tx.Idle() && tx.store.st.slots.Keys == old(tx.store.st.slots.Keys)
    ensures tx.readset == old(tx.readset) + (if strict then [x] else [])
    ensures o == Fine || (strict && o == TxAborted && Met(tx, at, x))
    ensures tx.Sees() == old(tx.Sees()) && Bufs(tx) == old(Bufs(tx)) && old(Seen(tx)) <= Seen(tx)
    ensures o == Fine ==> x in tx.Sees() && v == tx.Sees()[x] && Saw(Seen(tx), x)
    ensures old(tx.store.Quiet()) && x in cells && Alone(old(tx.store.st), tx.snapshot, cells, puts) ==>
      && tx.store.Quiet() && Alone(tx.store.st, tx.snapshot, cells, puts)
      && (strict ==> (o == Fine <==> x !in puts))
  {
    ghost var st0 := tx.store.st;
    ghost var alone := tx.store.Quiet() && x in cells && Alone(st0, tx.snapshot, cells, puts);
    var r;
    r, at := tx.Read(x, strict);
    o, v := if r.Ok? then Fine else r.error, if r.Ok? then r.value else [];
    if alone {
      forall a | a in st0.heap ensures VerAt(tx.store.st, a) == VerAt(st0, a) {}
      AloneSame(st0, tx.store.st, tx.snapshot, cells, puts);
    }
  }

  function PutsAfter(puts: set<Slot>, op: Op): set<Slot> {
    puts + (if op.Put? then {op.x} else {})
  }

  function GetsAfter(gets: set<Slot>, op: Op): set<Slot> {
    gets + (if op.GetForWrite? then {op.x} else {})
  }

  lemma TracksPut(ws: seq<Write>, ws': seq<Write>, rs: seq<Slot>, v: Option<Addr>, v': Option<Addr>,
                  puts: set<Slot>, gets: set<Slot>, x: Slot)
    requires Tracks(ws, rs, v, puts, gets) && v'.Some?
    requires |ws'| == |ws| + 1 && ws'[..|ws|] == ws && ws'[|ws|].dst == x
    ensures Tracks(ws', rs, v', puts + {x}, gets)
  {
    forall i | 0 <= i < |ws'| ensures ws'[i].dst in puts + {x} {
      if i < |ws| {
        assert ws'[..|ws|][i] == ws[i];
      }
    }
  }

  lemma TracksGet(ws: seq<Write>, rs: seq<Slot>, rs': seq<Slot>, v: Option<Addr>,
                  puts: set<Slot>, gets: set<Slot>, op: Op)
    requires Tracks(ws, rs, v, puts, gets) && !op.Put?
    requires rs' == rs + (if op.GetForWrite? then [op.x] else [])
    ensures Tracks(ws, rs', v, puts, GetsAfter(gets, op))
  {
  }

  /** One operation of the closure. Alone, it fails exactly on the transaction's own latch. */
  method Perform(tx: Transaction, op: Op, handed: seq<Value>, ghost cells: set<Slot>,
                 ghost puts: set<Slot>, ghost gets: set<Slot>, ghost done: seq<(Slot, Value)>)
    returns (o: Outcome, v: Value, ghost at: State)
    requires tx.Idle() && op.x in tx.store.st.slots
    modifies tx, tx.store`st, tx.store`script, tx.store`memory
    ensures tx.Idle() && tx.store.st.slots.Keys == old(tx.store.st.slots.Keys)
    ensures FailsFor(old(tx.store.memory), o, tx.store.memory) && Answers(op, o)
    ensures o == TxAborted ==> Met(tx, at, op.x)
    ensures tx.readset == old(tx.readset) + (if op.GetForWrite? then [op.x] else [])
    ensures o == Fine ==> (tx.version.Some? <==> op.Put? || old(tx.version).Some?)
    ensures tx.Sees() == old(tx.Sees()) && old(Seen(tx)) <= Seen(tx)
    ensures o == Fine ==> op.x in tx.Sees() && v == tx.Sees()[op.x] && Saw(Seen(tx), op.x)
    ensures o == Fine && Did(old(tx.writeset), old(Bufs(tx)), done) ==>
      Did(tx.writeset, Bufs(tx), done + (if op.Put? then [(op.x, op.edit(handed + [v]))] else []))
    ensures (&& old(tx.store.Quiet()) && old(tx.store.memory) >= 2 && op.x in cells
             && Alone(old(tx.store.st), tx.snapshot, cells, puts)
             && Tracks(old(tx.writeset), old(tx.readset), old(tx.version), puts, gets)) ==>
      && tx.store.Quiet() && (o == Fine <==> !MeetsOwnLatch(op, puts))
      && (o == Fine ==>
            && Alone(tx.store.st, tx.snapshot, cells, PutsAfter(puts, op))
            && Tracks(tx.writeset, tx.readset, tx.version, PutsAfter(puts, op), GetsAfter(gets, op)))
  {
    if op.Put? {
      ghost var ws, rs, word, bufs := tx.writeset, tx.readset, tx.version, Bufs(tx);
      o, v, at := PutTo(tx, op.x, op.edit, handed, cells, puts);
      if o == Fine && Did(ws, bufs, done) {
        DidOneMore(ws, bufs, done, tx.writeset, op.x, op.edit(handed + [v]));
      }
      if o == Fine && Tracks(ws, rs, word, puts, gets) {
        TracksPut(ws, tx.writeset, rs, word, tx.version, puts, gets, op.x);
      }
      assert GetsAfter(gets, op) == gets;
    } else {
      ghost var ws, rs, word := tx.writeset, tx.readset, tx.version;
      o, v, at := GetFrom(tx, op.x, op.GetForWrite?, cells, puts);
      if Tracks(ws, rs, word, puts, gets) {
        TracksGet(ws, rs, tx.readset, word, puts, gets, op);
      }
      assert PutsAfter(puts, op) == puts;
    }
  }

  /** Alone, the readset is latched exactly when every cell got for writing was put to. */
  lemma LatchedIffPut(tx: Transaction, cells: set<Slot>, puts: set<Slot>, gets: set<Slot>)
    requires Alone(tx.store.st, tx.snapshot, cells, puts) && gets <= cells
    requires Tracks(tx.writeset, tx.readset, tx.version, puts, gets)
    ensures tx.AllLatched(tx.store.st, |tx.readset|) <==> gets <= puts
  {
    if tx.AllLatched(tx.store.st, |tx.readset|) {
      forall x | x in gets ensures x in puts {
        var i :| 0 <= i < |tx.readset| && tx.readset[i] == x;
      }
    }
  }

  /** The outcome of a closure is the one of its first operation that fails,
    and each one before was handed its value. */
  ghost predicate StopsAt(tx: Transaction, ops: seq<Op>, o: Outcome, handed: seq<Value>, at: State)
    requires tx.Live()
    reads tx, tx.store
  {
    && |handed| <= |ops| && handed == Handed(ops[..|handed|], tx.Sees())
    && (o == Fine <==> |handed| == |ops|)
    && (o != Fine ==> Answers(ops[|handed|], o))
    && (o == TxAborted ==> Met(tx, at, ops[|handed|].x))
  }

  /** The closure runs until its first error. */
  method RunClosure(tx: Transaction, ops: seq<Op>, ghost cells: set<Slot>)
    returns (o: Outcome, handed: seq<Value>, ghost at: State)
    requires tx.Idle() && tx.writeset == [] && tx.readset == [] && tx.version == None
    requires forall i :: 0 <= i < |ops| ==> ops[i].x in tx.store.st.slots && ops[i].x in cells
    requires Bufs(tx) == []
    modifies tx, tx.store`st, tx.store`script, tx.store`memory
    ensures tx.Idle() && tx.Sees() == old(tx.Sees())
    ensures StopsAt(tx, ops, o, handed, at) && (o == Fine ==> DidAll(tx, ops))
    ensures o == NoAvailableMemory ==> old(tx.store.memory) < 2 * |ops|
    ensures old(Going(tx, cells, ops, 0)) ==>
      if o == Fine then Clean(ops) && Going(tx, cells, ops, |ops|) else tx.store.Quiet() && !Clean(ops)
  {
    ghost var alone, sees := Going(tx, cells, ops, 0), tx.Sees();
    var i := 0;
    handed, at := [], tx.store.st;
    while i < |ops|
      invariant i <= |ops| && tx.Idle() && tx.store.st.slots.Keys == old(tx.store.st.slots.Keys)
      invariant tx.Sees() == sees && DidAll(tx, ops[..i]) && handed == Handed(ops[..i], sees)
      invariant tx.store.memory + 2 * i >= old(tx.store.memory)
      invariant alone ==> Going(tx, cells, ops, i)
    {
      var v;
      o, v, at := NextOp(tx, ops, i, handed, cells);
      if o != Fine {
        return;
      }
      handed := handed + [v];
      i := i + 1;
    }
    assert ops[..i] == ops;
    o := Fine;
  }

  /** The cells of reads for writing, in order. */
  function ReadsForWrite(ops: seq<Op>): seq<Slot>
    decreases |ops|
  {
    if |ops| == 0 then []
    else ReadsForWrite(ops[..|ops| - 1]) + if ops[|ops| - 1].GetForWrite? then [ops[|ops| - 1].x] else []
  }

  /**
   The buffers hold what the operations compute from the snapshot, the readset holds the cells of the reads for
   writing, all cells were seen, and there is a write version if anything was put.
   */
  ghost predicate DidAll(tx: Transaction, ops: seq<Op>)
    requires tx.Live()
    reads tx, tx.store
  {
    && Did(tx.writeset, Bufs(tx), Results(ops, tx.Sees())) && SawAll(Seen(tx), ops)
    && tx.readset == ReadsForWrite(ops) && (tx.version.Some? <==> Puts(ops) != {})
  }

  ghost predicate SawAll(seen: seq<(Slot, Value)>, ops: seq<Op>) {
    forall i {:trigger Saw(seen, ops[i].x)} :: 0 <= i < |ops| ==> Saw(seen, ops[i].x)
  }

  lemma SawOneMore(seen: seq<(Slot, Value)>, seen': seq<(Slot, Value)>, ops: seq<Op>, i: nat)
    requires i < |ops| && SawAll(seen, ops[..i]) && seen <= seen' && Saw(seen', ops[i].x)
    ensures SawAll(seen', ops[..i + 1])
  {
    var more := ops[..i + 1];
    forall j | 0 <= j < |more| ensures Saw(seen', more[j].x) {
      if j < i {
        assert Saw(seen, ops[..i][j].x);
        SawStays(seen, seen', more[j].x);
      }
    }
  }

  /** Undisturbed, after the first i operations succeeded. */
  ghost predicate Going(tx: Transaction, cells: set<Slot>, ops: seq<Op>, i: nat)
    requires i <= |ops|
    reads tx, tx.store
  {
    && tx.store.Quiet() && tx.store.memory >= 2 * (|ops| - i) && Clean(ops[..i])
    && Alone(tx.store.st, tx.snapshot, cells, Puts(ops[..i])) && Gets(ops[..i]) <= cells
    && Tracks(tx.writeset, tx.readset, tx.version, Puts(ops[..i]), Gets(ops[..i]))
  }

  /** The next operation of a closure. */
  method NextOp(tx: Transaction, ops: seq<Op>, i: nat, handed: seq<Value>, ghost cells: set<Slot>)
    returns (o: Outcome, v: Value, ghost at: State)
    requires tx.Idle() && i < |ops| && ops[i].x in tx.store.st.slots && ops[i].x in cells
    requires DidAll(tx, ops[..i]) && handed == Handed(ops[..i], tx.Sees())
    modifies tx, tx.store`st, tx.store`script, tx.store`memory
    ensures tx.Idle() && tx.store.st.slots.Keys == old(tx.store.st.slots.Keys) && tx.Sees() == old(tx.Sees())
    ensures FailsFor(old(tx.store.memory), o, tx.store.memory)
    ensures o != Fine ==> StopsAt(tx, ops, o, handed, at)
    ensures o == Fine ==> DidAll(tx, ops[..i + 1]) && handed + [v] == Handed(ops[..i + 1], tx.Sees())
    ensures old(Going(tx, cells, ops, i)) ==>
      if o == Fine then Going(tx, cells, ops, i + 1) else tx.store.Quiet() && !Clean(ops)
  {
    ghost var alone := Going(tx, cells, ops, i);
    assert ops[..i + 1][..i] == ops[..i];
    ghost var seen := Seen(tx);
    o, v, at := Perform(tx, ops[i], handed, cells, Puts(ops[..i]), Gets(ops[..i]), Results(ops[..i], tx.Sees()));
    if alone && o != Fine {
      NotClean(ops, i);
    }
    if o == Fine {
      HandedNext(ops, i, tx.Sees());
      SawOneMore(seen, Seen(tx), ops, i);
    }
  }

  /** The end of `run_once`: commit after a value, abort after an error. */
  method Finish(tx: Transaction, ok: bool, error: Outcome) returns (r: RunResult, ghost at: State)
    requires tx.Idle()
    modifies tx.store`st, tx.store`script
    ensures tx.Live() && tx.Onward(old(tx.store.st), tx.store.st) && tx.Sees() == old(tx.Sees())
    ensures Ended(tx, r)
    ensures ok && r.Aborted? ==> r.error == TxAborted && tx.Unlatched(at)
    ensures tx.WroteReadset() && ok ==> !r.Aborted?
    ensures !ok ==> r == Aborted(error)
    ensures ok && tx.version.None? ==> r.Done?
    ensures ok && tx.version.Some? && old(tx.store.Quiet()) && old(tx.store.st.lock.None?) ==>
      !r.Blocked? && (r.Done? <==> tx.AllLatched(old(tx.store.st), |tx.readset|))
  {
    ghost var before := tx.store.st;
    if ok {
      var e;
      e, at := tx.Commit();
      r := if e == Committed then Done else if e == Failed then Aborted(TxAborted) else Blocked;
    } else {
      tx.Abort();
      r, at := Aborted(error), tx.store.st;
    }
    SnapshotIsConstant(before, tx.store.st, tx.id);
    if !r.Blocked? {
      NoLatchLeft(tx);
    }
  }

  /** No cell is headed by an uncommitted copy of this transaction, and by a committed one only after success. */
  ghost predicate NothingLatched(tx: Transaction, done: bool)
    reads tx, tx.store
  {
    forall x, i :: x in tx.store.st.slots && 0 <= i < |tx.writeset| && tx.writeset[i].copy == tx.store.st.slots[x] ==>
      done && VerAt(tx.store.st, tx.store.st.slots[x]) > 0
  }

  /** The cells of the operations are unlatched, no other thread acts, and memory suffices. */
  ghost predicate Undisturbed(store: Store, ops: seq<Op>)
    reads store
  {
    && store.Quiet() && store.memory >= 2 * |ops|
    && forall i :: 0 <= i < |ops| ==> ops[i].x in store.st.slots && VerAt(store.st, store.st.slots[ops[i].x]) > 0
  }

  /**
   `run_once`: run the closure, then commit if it returned a value and abort if it returned an
   error, which is the one of its first failing operation or, when all succeeded, `own`. When it comes
   back no cell is left latched by this transaction.

   If it succeeded, whatever other threads did, the closure was handed the bytes that were visible at the
   start, and its commit holds exactly what it computes from them. If it aborted, the error says why: a
   conflict that an operation met, a readset cell that was found committed, too little memory, or `own`.
   The commit of a closure that puts nothing, or puts to every cell it gets for writing, never fails.
   Undisturbed, it succeeds if and only if `SucceedsAlone` holds of the operations.
   */
  method RunOnce(store: Store, id: TxId, ops: seq<Op>, own: Outcome)
    returns (r: RunResult, tx: Transaction, o: Outcome, handed: seq<Value>, ghost at: State)
    requires store.Valid() && id !in store.st.txs && store.st.lock.None?
    requires forall i :: 0 <= i < |ops| ==> ops[i].x in store.st.slots
    modifies store`st, store`script, store`memory
    ensures tx.store == store && tx.id == id && tx.Live() && Ended(tx, r)
    ensures CellsOf(ops) <= old(ReplayUpTo(store.st.init, store.st.hist, store.st.counter)).Keys
    ensures tx.Sees() == old(ReplayUpTo(store.st.init, store.st.hist, store.st.counter))
    ensures StopsAt(tx, ops, o, handed, at)
    ensures r.Done? ==> o == own == Fine
    ensures r.Done? && Puts(ops) != {} ==>
      exists k :: 0 <= k < |store.st.hist| && store.st.hist[k].tx == id && HasPublished(store.st, k, ops)
    ensures o != Fine ==> r == Aborted(o)
    ensures o == Fine && own != Fine ==> r == Aborted(own)
    ensures o == own == Fine && r.Aborted? ==> r.error == TxAborted && tx.Unlatched(at)
    ensures o == own == Fine && Gets(ops) <= Puts(ops) ==> !r.Aborted?
    ensures o == own == Fine && Puts(ops) == {} ==> r.Done?
    ensures o == NoAvailableMemory ==> old(store.memory) < 2 * |ops|
    ensures own == Fine && old(store.memory) >= 2 * |ops| && r.Aborted? ==> r.error == TxAborted
    ensures old(Undisturbed(store, ops)) && own == Fine ==> !r.Blocked? && (r.Done? <==> SucceedsAlone(ops))
  {
    CellsAreVisible(store.st, ops);
    o, tx, handed, at := BeginAndRun(store, id, ops);
    r, at := End(tx, ops, o, own, handed, at);
  }

  /** The second half: commit or abort, and what that means for the closure. */
  method End(tx: Transaction, ops: seq<Op>, o: Outcome, own: Outcome, handed: seq<Value>, ghost met: State)
    returns (r: RunResult, ghost at: State)
    requires tx.Idle() && StopsAt(tx, ops, o, handed, met) && (o == Fine ==> DidAll(tx, ops))
    requires CellsOf(ops) <= tx.Sees().Keys
    modifies tx.store`st, tx.store`script
    ensures tx.Live() && tx.Sees() == old(tx.Sees()) && StopsAt(tx, ops, o, handed, at)
    ensures Ended(tx, r)
    ensures r.Done? ==> o == own == Fine
    ensures r.Done? && Puts(ops) != {} ==>
      exists k :: 0 <= k < |tx.store.st.hist| && tx.store.st.hist[k].tx == tx.id && HasPublished(tx.store.st, k, ops)
    ensures o != Fine ==> r == Aborted(o)
    ensures o == Fine && own != Fine ==> r == Aborted(own)
    ensures o == own == Fine && r.Aborted? ==> r.error == TxAborted && tx.Unlatched(at)
    ensures o == own == Fine && Gets(ops) <= Puts(ops) ==> !r.Aborted?
    ensures o == own == Fine && Puts(ops) == {} ==> r.Done?
    ensures o == own == Fine && tx.version.Some? && old(tx.store.Quiet()) && old(tx.store.st.lock.None?) ==>
      !r.Blocked? && (r.Done? <==> tx.AllLatched(old(tx.store.st), |tx.readset|))
  {
    if o == Fine && Gets(ops) <= Puts(ops) {
      PutsCoverReadset(tx, ops);
    }
    ghost var before, done := tx.store.st, o == Fine && DidAll(tx, ops);
    r, at := Finish(tx, o == own == Fine, if o != Fine then o else own);
    if o != Fine {
      at := met;
    }
    if r.Done? && Puts(ops) != {} {
      PublishedAtEnd(tx, ops, before);
    }
  }

  /** Where `run_once` leaves its transaction. */
  ghost predicate Ended(tx: Transaction, r: RunResult)
    requires tx.Live()
    reads tx, tx.store
  {
    && (r.Done? ==> tx.store.st.txs[tx.id].pc == Finished(true))
    && (r.Aborted? ==> tx.store.st.txs[tx.id].pc == Finished(false))
    && (r.Blocked? ==> tx.store.script == [] && tx.store.st.lock.Some?)
    && (!r.Blocked? ==> NothingLatched(tx, r.Done?))
  }

  lemma PublishedAtEnd(tx: Transaction, ops: seq<Op>, before: State)
    requires tx.Live() && tx.Keeps(before, tx.store.st) && tx.store.st.txs[tx.id].pc == Finished(true)
    requires CellsOf(ops) <= tx.Sees().Keys && Puts(ops) != {}
    requires Did(tx.writeset, before.txs[tx.id].bufs, Results(ops, tx.Sees()))
    requires SawAll(before.txs[tx.id].seen, ops)
    ensures exists k ::
      0 <= k < |tx.store.st.hist| && tx.store.st.hist[k].tx == tx.id && HasPublished(tx.store.st, k, ops)
  {
    PutsHaveResults(ops, tx.Sees());
    SawCells(before.txs[tx.id].seen, Seen(tx), ops);
    var k := CommittedIsPublished(tx.store.st, tx.id, ops);
  }

  lemma {:induction false} ReadsAreGets(ops: seq<Op>)
    ensures forall i :: 0 <= i < |ReadsForWrite(ops)| ==> ReadsForWrite(ops)[i] in Gets(ops)
    decreases |ops|
  {
    if |ops| > 0 {
      ReadsAreGets(ops[..|ops| - 1]);
    }
  }

  lemma {:induction false} PutHasResult(ops: seq<Op>, sees: map<Slot, Value>, x: Slot) returns (j: nat)
    requires x in Puts(ops)
    ensures j < |Results(ops, sees)| && Results(ops, sees)[j].0 == x
    decreases |ops|
  {
    if x in Puts(ops[..|ops| - 1]) {
      j := PutHasResult(ops[..|ops| - 1], sees, x);
    } else {
      j := |Results(ops, sees)| - 1;
    }
  }

  /** A closure that puts to all cells it got for writing wrote its whole readset. */
  lemma PutsCoverReadset(tx: Transaction, ops: seq<Op>)
    requires tx.Live() && DidAll(tx, ops) && Gets(ops) <= Puts(ops)
    ensures tx.WroteReadset()
  {
    var results := Results(ops, tx.Sees());
    ReadsAreGets(ops);
    forall i | 0 <= i < |tx.readset| ensures exists j :: 0 <= j < |tx.writeset| && tx.writeset[j].dst == tx.readset[i] {
      assert tx.readset[i] in Puts(ops);
      var j := PutHasResult(ops, tx.Sees(), tx.readset[i]);
      assert DidPut(tx.writeset[j], Bufs(tx)[j], results[j]);
    }
  }

  lemma CellsAreVisible(st: State, ops: seq<Op>)
    requires Reachable(st) && forall i :: 0 <= i < |ops| ==> ops[i].x in st.slots
    ensures CellsOf(ops) <= ReplayUpTo(st.init, st.hist, st.counter).Keys
  {
    forall x | x in CellsOf(ops) ensures x in ReplayUpTo(st.init, st.hist, st.counter) {
      CellIsVisible(st, x);
    }
  }

  lemma CellIsVisible(st: State, x: Slot)
    requires Reachable(st) && x in st.slots
    ensures x in ReplayUpTo(st.init, st.hist, st.counter)
  {
    ReachableInv(st);
    HeadWalks(st, x, st.counter);
  }

  lemma SawCells(seen: seq<(Slot, Value)>, seen': seq<(Slot, Value)>, ops: seq<Op>)
    requires SawAll(seen, ops) && seen <= seen'
    ensures forall x :: x in CellsOf(ops) ==> Saw(seen', x)
  {
    forall x | x in CellsOf(ops) ensures Saw(seen', x) {
      var i :| 0 <= i < |ops| && ops[i].x == x;
      assert Saw(seen, ops[i].x);
      SawStays(seen, seen', x);
    }
  }

  /** The first half: a new transaction runs the closure. */
  method BeginAndRun(store: Store, id: TxId, ops: seq<Op>)
    returns (o: Outcome, tx: Transaction, handed: seq<Value>, ghost at: State)
    requires store.Valid() && id !in store.st.txs && store.st.lock.None?
    requires forall i :: 0 <= i < |ops| ==> ops[i].x in store.st.slots
    modifies store`st, store`script, store`memory
    ensures fresh(tx) && tx.store == store && tx.id == id && tx.Idle()
    ensures tx.Sees() == old(ReplayUpTo(store.st.init, store.st.hist, store.st.counter))
    ensures StopsAt(tx, ops, o, handed, at) && (o == Fine ==> DidAll(tx, ops))
    ensures o == NoAvailableMemory ==> old(store.memory) < 2 * |ops|
    ensures old(Undisturbed(store, ops)) ==>
      && store.Quiet() && (o == Fine <==> Clean(ops))
      && (o == Fine ==>
            && store.st.lock.None? && (tx.version.Some? <==> Puts(ops) != {})
            && (tx.AllLatched(store.st, |tx.readset|) <==> Gets(ops) <= Puts(ops)))
  {
    ghost var cells := set i | 0 <= i < |ops| :: ops[i].x;
    ghost var alone, st0 := Undisturbed(store, ops), store.st;
    tx := new Transaction(store, id);
    if alone {
      StartsGoing(tx, st0, ops, cells);
    }
    o, handed, at := RunClosure(tx, ops, cells);
    if alone && o == Fine {
      GoingEnds(tx, ops, cells);
    }
  }

  lemma StartsGoing(tx: Transaction, st0: State, ops: seq<Op>, cells: set<Slot>)
    requires Undisturbed(tx.store, ops) && tx.Live() && tx.store.st.counter == tx.snapshot
    requires Reachable(st0) && tx.store.st == st0.(txs := tx.store.st.txs) && st0.lock.None?
    requires cells == set i | 0 <= i < |ops| :: ops[i].x
    requires tx.writeset == [] && tx.readset == [] && tx.version == None
    ensures Going(tx, cells, ops, 0)
  {
    forall i | 0 <= i < |ops| ensures VerAt(st0, st0.slots[ops[i].x]) > 0 {
      assert VerAt(tx.store.st, st0.slots[ops[i].x]) == VerAt(st0, st0.slots[ops[i].x]);
    }
    BegunAlone(st0, tx.store.st, ops, cells);
    assert ops[..0] == [];
  }

  lemma GoingEnds(tx: Transaction, ops: seq<Op>, cells: set<Slot>)
    requires tx.Live() && Going(tx, cells, ops, |ops|)
    ensures tx.store.st.lock.None? && (tx.version.Some? <==> Puts(ops) != {})
    ensures tx.AllLatched(tx.store.st, |tx.readset|) <==> Gets(ops) <= Puts(ops)
  {
    assert ops[..|ops|] == ops;
    LatchedIffPut(tx, cells, Puts(ops), Gets(ops));
  }

  lemma BegunAlone(st0: State, st: State, ops: seq<Op>, cells: set<Slot>)
    requires Reachable(st0) && Reachable(st) && st == st0.(txs := st.txs) && st0.lock.None?
    requires cells == set i | 0 <= i < |ops| :: ops[i].x
    requires forall i :: 0 <= i < |ops| ==> ops[i].x in st0.slots && VerAt(st0, st0.slots[ops[i].x]) > 0
    ensures Alone(st, st.counter, cells, {})
  {
    forall x | x in cells ensures x in st.slots && st.slots[x] in st.heap && Accepts(st, st.slots[x], st.counter) {
      HeadIsThere(st, x);
      assert VerAt(st, st.slots[x]) == VerAt(st0, st0.slots[x]);
    }
  }

  lemma NoLatchLeft(tx: Transaction)
    requires tx.Live() && tx.store.st.txs[tx.id].pc.Finished?
    ensures NothingLatched(tx, tx.store.st.txs[tx.id].pc.committed)
  {
    var st := tx.store.st;
    forall x, i | x in st.slots && 0 <= i < |tx.writeset| && tx.writeset[i].copy == st.slots[x]
      ensures st.txs[tx.id].pc.committed && VerAt(st, st.slots[x]) > 0 {
      FinishedHoldsNoLatch(st, tx.id, x);
    }
  }
}
