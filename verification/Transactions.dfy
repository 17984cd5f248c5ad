/**
 `Transaction` as the code runs it: methods and loops over the shared store, with other threads
 acting between any two atomic actions. A script, about which nothing is known, says what they do.
 */
module Transactions {
  import opened Basics
  import opened Protocol
  import opened Publication
  import opened Snapshots
  import opened Serializability
  import opened Outcomes
  import opened Interference

  /** How `commit` ends; Waiting means that another thread still holds the lock. */
  datatype Ending = Committed | Failed | Waiting

  /** The memory that all threads share, and what other threads are going to do. */
  class Store {
    var st: State
    var script: seq<seq<Label>>
    var memory: nat

    ghost predicate Valid()
      reads this
    {
      Reachable(st)
    }

    /** No other thread acts any more. */
    ghost predicate Quiet()
      reads this
    {
      forall i :: 0 <= i < |script| ==> script[i] == []
    }

    constructor (st: State, script: seq<seq<Label>>, memory: nat)
      requires Reachable(st)
      ensures Valid() && this.st == st && this.script == script && this.memory == memory
    {
      this.st, this.script, this.memory := st, script, memory;
    }

    /** One atomic action. */
    method Act(l: Label)
      requires Valid() && Step(st, l).Some?
      modifies this`st
      ensures Valid() && Step(old(st), l) == Some(st)
    {
      ghost var before := st;
      st := Step(st, l).value;
      Go(before, l, st);
    }

    /** Other threads act for a while; labels that are not enabled do nothing. */
    method Interrupt(me: TxId)
      requires Valid()
      modifies this`st, this`script
      ensures Valid() && Interfered(me, old(st), st) && ByOthers(me, old(st), st)
      ensures script == if old(script) == [] then [] else old(script)[1..]
      ensures Acted(me, old(st), if old(script) == [] then [] else old(script)[0], st)
      ensures old(Quiet()) ==> Quiet() && st == old(st)
    {
      ByNobody(me, st);
      ActedNothing(me, st);
      if |script| == 0 {
        return;
      }
      var batch := script[0];
      script := script[1..];
      for i := 0 to |batch|
        invariant Valid() && Interfered(me, old(st), st) && ByOthers(me, old(st), st) && script == old(script)[1..]
        invariant Acted(me, old(st), batch[..i], st)
        invariant old(Quiet()) ==> st == old(st)
      {
        var l := batch[i];
        ghost var before := st;
        if l.t != me && Step(st, l).Some? {
          OneInterference(me, st, l);
          Act(l);
          ByOneMore(me, old(st), before, l, st);
          InterferenceAdds(me, old(st), before, st);
        }
        ActedOneMore(me, old(st), batch[..i], before, l, st);
        assert batch[..i + 1] == batch[..i] + [l];
      }
      assert batch[..|batch|] == batch;
    }

    /** An address for a log word or an object, unless memory has run out. */
    method Allocate() returns (a: Option<Addr>)
      modifies this`memory
      ensures a.Some? <==> old(memory) > 0
      ensures a.Some? ==> FreshAddr(st, a.value)
      ensures memory == if a.Some? then old(memory) - 1 else 0
    {
      if memory == 0 {
        return None;
      }
      memory := memory - 1;
      ghost var b := FreshExists(st);
      var c: nat :| FreshAddr(st, c);
      a := Some(c);
    }
  }

  class Transaction {
    const store: Store
    const id: TxId
    const snapshot: nat
    var version: Option<Addr>
    var writeset: seq<Write>
    var readset: seq<Slot>

    /** The protocol state of this transaction is what its fields say. */
    ghost predicate Live()
      reads this, store
    {
      && store.Valid() && id in store.st.txs
      && var tx := store.st.txs[id];
        tx.snapshot == snapshot && tx.log == version && tx.writeset == writeset && tx.readset == readset
    }

    ghost predicate Idle()
      reads this, store
    {
      Live() && store.st.txs[id].pc.Running?
    }

    /** The store that this transaction sees. */
    ghost function Sees(): map<Slot, Value>
      reads this, store
    {
      ReplayUpTo(store.st.init, store.st.hist, snapshot)
    }

    /** `Transaction::new`, at a moment when no commit holds the lock. */
    constructor (store: Store, id: TxId)
      requires store.Valid() && id !in store.st.txs && store.st.lock.None?
      modifies store`st
      ensures this.store == store && this.id == id && Idle()
      ensures snapshot == store.st.counter == old(store.st.counter)
      ensures version == None && writeset == [] && readset == []
      ensures store.st == SetTx(old(store.st), id, Tx(snapshot, None, [], [], [], |store.st.hist|, Running(Fine), []))
    {
      this.store, this.id := store, id;
      this.snapshot := store.st.counter;
      version, writeset, readset := None, [], [];
      new;
      store.Act(Begin(id));
    }

    // -------------------------------------------------------------- reading

    /** The first load of a read; `read_for_write` records the cell before it looks. */
    method LoadForRead(x: Slot, strict: bool)
      requires Idle() && x in store.st.slots
      modifies this`readset, store`st
      ensures Live() && readset == old(readset) + (if strict then [x] else [])
      ensures store.st == SetTx(old(store.st), id, old(store.st.txs[id]).(
        readset := readset, pc := Reading(x, old(store.st.slots[x]), strict)))
    {
      if strict {
        readset := readset + [x];
      }
      store.Act(StartRead(id, x, strict));
    }

    /** One version: return its bytes, refuse, or go to the older version. */
    method LookAtVersion() returns (r: Option<Result<Value, Outcome>>)
      requires Live() && store.st.txs[id].pc.Reading?
      modifies store`st
      ensures Live() && store.st == SetTx(old(store.st), id, store.st.txs[id])
      ensures store.st.txs[id].begunAt == old(store.st.txs[id].begunAt) && Keeps(old(store.st), store.st)
      ensures r.Some? ==> store.st.txs[id].pc == Running(if r.value.Ok? then Fine else TxAborted)
      ensures r.Some? && r.value.Ok? ==>
        && Accepts(old(store.st), old(store.st.txs[id].pc.cursor), snapshot)
        && Saw(store.st.txs[id].seen, old(store.st.txs[id].pc.x))
        && old(store.st.txs[id].pc.x) in Sees() && r.value.value == Sees()[old(store.st.txs[id].pc.x)]
      ensures r.Some? && r.value.Err? ==>
        && r.value.error == TxAborted && old(store.st.txs[id].pc.strict)
        && !Accepts(old(store.st), old(store.st.txs[id].pc.cursor), snapshot)
      ensures r.None? ==>
        && store.st.txs[id].pc.Reading? && store.st.txs[id].pc.x == old(store.st.txs[id].pc.x)
        && !old(store.st.txs[id].pc.strict) && !store.st.txs[id].pc.strict
        && VerAt(store.st, store.st.txs[id].pc.cursor) > 0
        && (VerAt(old(store.st), old(store.st.txs[id].pc.cursor)) > 0 ==>
              VerAt(store.st, store.st.txs[id].pc.cursor) < VerAt(old(store.st), old(store.st.txs[id].pc.cursor)))
    {
      HopCases(store.st, id);
      store.Act(Hop(id));
      var tx := store.st.txs[id];
      if tx.pc.Running? {
        r := Some(if tx.pc.last == Fine then Ok(tx.seen[|tx.seen| - 1].1) else Err(tx.pc.last));
      } else {
        r := None;
      }
    }

    /**
     `VersionedReader::read`: one version, then recursion on the older one. It ends whatever other
     threads do, because a committed version number never changes.
     */
    method ReadFrom() returns (r: Result<Value, Outcome>)
      requires Live() && store.st.txs[id].pc.Reading?
      modifies store`st, store`script
      ensures Idle() && store.st.txs[id].begunAt == old(store.st.txs[id].begunAt) && Keeps(old(store.st), store.st)
      ensures old(store.st.hist) <= store.st.hist && store.st.init == old(store.st.init)
      ensures store.st.slots.Keys == old(store.st.slots.Keys)
      ensures r.Ok? ==> old(store.st.txs[id].pc.x) in Sees() && r.value == Sees()[old(store.st.txs[id].pc.x)]
      ensures r.Ok? ==> Saw(store.st.txs[id].seen, old(store.st.txs[id].pc.x))
      ensures r.Err? ==> r.error == TxAborted && old(store.st.txs[id].pc.strict)
      ensures store.st.txs[id].pc == Running(if r.Ok? then Fine else TxAborted)
      ensures old(store.st.txs[id].pc.strict) ==>
        (r.Ok? <==> Accepts(old(store.st), old(store.st.txs[id].pc.cursor), snapshot))
      ensures old(store.Quiet()) ==> store.Quiet() && store.st == SetTx(old(store.st), id, store.st.txs[id])
      decreases if VerAt(store.st, store.st.txs[id].pc.cursor) == 0 then 1 else 0,
                VerAt(store.st, store.st.txs[id].pc.cursor)
    {
      ghost var st0 := store.st;
      store.Interrupt(id);
      ghost var st1 := store.st;
      assert st1.txs[id] == st0.txs[id];
      var found := LookAtVersion();
      if found.Some? {
        r := found.value;
      } else {
        ghost var st2 := store.st;
        assert VerAt(st0, st0.txs[id].pc.cursor) > 0 ==>
          VerAt(st2, st2.txs[id].pc.cursor) < VerAt(st0, st0.txs[id].pc.cursor);
        r := ReadFrom();
        assert st1.txs[id := st2.txs[id]][id := store.st.txs[id]] == st1.txs[id := store.st.txs[id]];
      }
    }

    /** Others may act before the first load, which happens in the state `at`. */
    method StartReading(x: Slot, strict: bool) returns (ghost at: State)
      requires Idle() && x in store.st.slots
      modifies this`readset, store`st, store`script
      ensures Live() && readset == old(readset) + (if strict then [x] else [])
      ensures store.st.txs[id].begunAt == old(store.st.txs[id].begunAt) && Keeps(old(store.st), store.st)
      ensures old(store.st.hist) <= store.st.hist && store.st.init == old(store.st.init)
      ensures store.st.slots.Keys == old(store.st.slots.Keys)
      ensures ByOthers(id, old(store.st), at) && Moment(old(store.st), at, x, store.st)
      ensures SameSight(snapshot, at, store.st)
      ensures store.st.txs[id].pc == Reading(x, at.slots[x], strict)
      ensures old(store.Quiet()) ==>
        store.Quiet() && at == old(store.st) && store.st == SetTx(old(store.st), id, store.st.txs[id])
    {
      store.Interrupt(id);
      at := store.st;
      LoadForRead(x, strict);
    }

    /** The whole read, in terms of the store it ends in. */
    method StartAndRead(x: Slot, strict: bool) returns (r: Result<Value, Outcome>, ghost at: State)
      requires Idle() && x in store.st.slots
      modifies this`readset, store`st, store`script
      ensures Idle() && readset == old(readset) + (if strict then [x] else [])
      ensures Onward(old(store.st), store.st)
      ensures r.Ok? ==> x in Sees() && r.value == Sees()[x] && Saw(store.st.txs[id].seen, x)
      ensures r.Err? ==> r.error == TxAborted && strict
      ensures store.st.txs[id].pc == Running(if r.Ok? then Fine else TxAborted)
      ensures ByOthers(id, old(store.st), at) && Moment(old(store.st), at, x, store.st)
      ensures strict ==> (r.Ok? <==> Accepts(at, at.slots[x], snapshot))
      ensures old(store.Quiet()) ==>
        store.Quiet() && at == old(store.st) && store.st == SetTx(old(store.st), id, store.st.txs[id])
    {
      at := StartReading(x, strict);
      r := ReadFrom();
    }

    /**
     `read` and `read_for_write`. A plain read always succeeds; both return the value that the cell
     has in the snapshot, however other threads interfere. A strict one aborts exactly if the head was
     in conflict in the state `at` in which it was loaded; up to there only other threads acted.
     */
    method Read(x: Slot, strict: bool) returns (r: Result<Value, Outcome>, ghost at: State)
      requires Idle() && x in store.st.slots
      modifies this`readset, store`st, store`script
      ensures Idle() && readset == old(readset) + (if strict then [x] else [])
      ensures Onward(old(store.st), store.st) && Sees() == old(Sees()) && Moment(old(store.st), at, x, store.st)
      ensures r.Ok? ==> x in Sees() && r.value == Sees()[x] && Saw(store.st.txs[id].seen, x)
      ensures r.Err? ==> r.error == TxAborted && strict
      ensures store.st.txs[id].pc == Running(if r.Ok? then Fine else TxAborted)
      ensures ByOthers(id, old(store.st), at)
      ensures strict ==> (r.Err? <==> Conflict(at, at.slots[x], snapshot))
      ensures old(store.Quiet()) ==>
        store.Quiet() && at == old(store.st) && store.st == SetTx(old(store.st), id, store.st.txs[id])
    {
      ghost var before := store.st;
      r, at := StartAndRead(x, strict);
      SnapshotIsConstant(before, store.st, id);
    }

    // -------------------------------------------------------------- writing

    method LoadForWrite(x: Slot)
      requires Idle() && x in store.st.slots
      modifies store`st
      ensures Live() && store.st == Goto(old(store.st), id, Loaded(x, old(store.st.slots[x])))
    {
      store.Act(LoadHead(id, x));
    }

    /** `write_version`: the log word is allocated by the first write. */
    method WriteVersion() returns (ok: bool)
      requires Live() && store.st.txs[id].pc.Loaded?
      modifies this`version, store`st, store`memory
      ensures Live() && (ok <==> version.Some?) && (ok <==> old(version).Some? || old(store.memory) > 0)
      ensures old(version).Some? ==>
        version == old(version) && store.st == old(store.st) && store.memory == old(store.memory)
      ensures old(version).None? && ok ==>
        && FreshAddr(old(store.st), version.value) && store.memory == old(store.memory) - 1
        && version.value in store.st.logs && store.st.logs[version.value] == Log(0, id)
      ensures ok ==> store.st.txs[id].pc == old(store.st.txs[id].pc)
      ensures !ok ==> store.st.txs[id].pc == Running(NoAvailableMemory) && store.memory == 0
      ensures SameShared(old(store.st), store.st) && store.st.slots == old(store.st.slots)
      ensures Keeps(old(store.st), store.st) && SameSight(snapshot, old(store.st), store.st)
    {
      if version.Some? {
        return true;
      }
      var a := store.Allocate();
      if a.Some? {
        NewLogWord(a.value);
      } else {
        store.Act(OutOfMemory(id));
      }
      ok := a.Some?;
    }

    method NewLogWord(a: Addr)
      requires Live() && store.st.txs[id].pc.Loaded? && version.None? && FreshAddr(store.st, a)
      modifies this`version, store`st
      ensures Live() && version == Some(a) && store.st.txs[id].pc == old(store.st.txs[id].pc)
      ensures a in store.st.logs && store.st.logs[a] == Log(0, id)
      ensures SameShared(old(store.st), store.st) && store.st.slots == old(store.st.slots)
      ensures Keeps(old(store.st), store.st) && SameSight(snapshot, old(store.st), store.st)
    {
      NewWordKeepsVersions(store.st, id, a);
      StepKeepsSight(store.st, AllocLog(id, a), id);
      version := Some(a);
      store.Act(AllocLog(id, a));
    }

    /** Later in the same run, with this transaction still there. */
    ghost predicate Later(st: State, st': State)
      reads this
    {
      && st.hist <= st'.hist && st'.init == st.init && st'.slots.Keys == st.slots.Keys
      && id in st.txs && id in st'.txs && st'.txs[id].begunAt == st.txs[id].begunAt
      && st.txs[id].seen <= st'.txs[id].seen
    }

    /** Its buffers are as they were, and what it saw is not forgotten. */
    ghost predicate Keeps(st: State, st': State)
      reads this
    {
      && id in st.txs && id in st'.txs
      && st'.txs[id].bufs == st.txs[id].bufs && st.txs[id].seen <= st'.txs[id].seen
    }

    /** Later, with all its buffers as they were. */
    ghost predicate Onward(st: State, st': State)
      reads this
    {
      Later(st, st') && Keeps(st, st')
    }

    /** What the steps of a write leave alone in the shared state. */
    ghost predicate SameShared(st: State, st': State)
      reads this
    {
      && st'.counter == st.counter && st'.lock == st.lock && st'.hist == st.hist && st'.init == st.init
      && id in st.txs && id in st'.txs && st'.txs[id].begunAt == st.txs[id].begunAt
      && (forall a :: a in st.heap ==> a in st'.heap && VerAt(st', a) == VerAt(st, a))
    }

    /** The copied pointer must head a version within the snapshot. */
    method TestHead() returns (ok: bool)
      requires Live() && store.st.txs[id].pc.Loaded? && version.Some?
      modifies store`st
      ensures Live() && ok == Accepts(old(store.st), old(store.st.txs[id].pc.a), snapshot)
      ensures store.st == Goto(old(store.st), id,
        if ok then Checked(old(store.st.txs[id].pc.x), old(store.st.txs[id].pc.a)) else Running(TxAborted))
    {
      store.Act(CheckHead(id));
      ok := store.st.txs[id].pc.Checked?;
    }

    method MakeCopy() returns (ok: bool)
      requires Live() && store.st.txs[id].pc.Checked?
      modifies store`st, store`memory
      ensures Live() && (ok <==> old(store.memory) > 0)
      ensures store.memory == if ok then old(store.memory) - 1 else 0
      ensures ok ==>
        && store.st.txs[id].pc.Copied? && store.st.txs[id].pc.x == old(store.st.txs[id].pc.x)
        && store.st.txs[id].pc.a == old(store.st.txs[id].pc.a)
      ensures !ok ==> store.st.txs[id].pc == Running(NoAvailableMemory)
      ensures SameShared(old(store.st), store.st) && store.st.slots == old(store.st.slots)
      ensures Keeps(old(store.st), store.st)
    {
      CheckedIsThere(store.st, id);
      var a := store.Allocate();
      if a.Some? {
        store.Act(CopyObject(id, a.value));
        return true;
      } else {
        store.Act(OutOfMemory(id));
        return false;
      }
    }

    /** `TransactionWrite::perform`. */
    method SwapIn() returns (r: Result<Value, Outcome>)
      requires Live() && store.st.txs[id].pc.Copied?
      modifies this`writeset, store`st
      ensures Idle() && SameShared(old(store.st), store.st) && Later(old(store.st), store.st)
      ensures old(store.st.txs[id].pc.x) in old(store.st.slots)
      ensures r.Ok? <==> old(store.st.slots)[old(store.st.txs[id].pc.x)] == old(store.st.txs[id].pc.a)
      ensures r.Ok? ==>
        var x, a, c := old(store.st.txs[id].pc.x), old(store.st.txs[id].pc.a), old(store.st.txs[id].pc.copy);
        && writeset == old(writeset) + [Protocol.Write.Write(x, a, c)] && store.st.slots == old(store.st.slots)[x := c]
        && c in store.st.heap && VerAt(store.st, c) == 0 && x in Sees() && r.value == Sees()[x]
        && store.st.txs[id].bufs == old(store.st.txs[id].bufs) + [r.value]
        && Saw(store.st.txs[id].seen, x)
      ensures r.Err? <==> Conflict(old(store.st), old(store.st.slots)[old(store.st.txs[id].pc.x)], snapshot)
      ensures r.Err? ==> r.error == TxAborted && writeset == old(writeset) && store.st.slots == old(store.st.slots)
      ensures store.st.txs[id].pc == Running(if r.Ok? then Fine else TxAborted)
      ensures r.Err? ==> Keeps(old(store.st), store.st)
    {
      SwapCases(store.st, id);
      InstallFailsOnConflict(store.st, id);
      var pc := store.st.txs[id].pc;
      store.Act(InstallCopy(id));
      if store.st.txs[id].pc == Running(Fine) {
        writeset := writeset + [Protocol.Write.Write(pc.x, pc.a, pc.copy)];
        r := Ok(store.st.heap[pc.copy].val);
        assert store.st.txs[id].seen[|store.st.txs[id].seen| - 1].0 == pc.x;
      } else {
        r := Err(TxAborted);
      }
    }

    /** The head of the cell, and a write version to go with it. */
    method LoadAndVersion(x: Slot) returns (ok: bool, ghost at: State)
      requires Idle() && x in store.st.slots
      modifies this`version, store`st, store`script, store`memory
      ensures Live() && Onward(old(store.st), store.st)
      ensures (ok <==> old(version).Some? || old(store.memory) > 0) && (old(version).Some? ==> version == old(version))
      ensures store.memory == if ok then old(store.memory) - (old(Cost()) - 1) else 0
      ensures Moment(old(store.st), at, x, store.st) && SameSight(snapshot, at, store.st)
      ensures ok ==> store.st.txs[id].pc == Loaded(x, at.slots[x]) && version.Some?
      ensures !ok ==> store.st.txs[id].pc == Running(NoAvailableMemory)
      ensures old(store.Quiet()) ==>
        && store.Quiet() && SameShared(old(store.st), store.st) && store.st.slots == old(store.st.slots)
        && at == old(store.st)
    {
      at := LoadHeadOf(x);
      ghost var loaded := store.st;
      ok := VersionAfterLoad();
      SightAdds(snapshot, at, loaded, store.st);
    }

    /** Others act, then the pointer is cloned, in the state `at`. */
    method LoadHeadOf(x: Slot) returns (ghost at: State)
      requires Idle() && x in store.st.slots
      modifies store`st, store`script
      ensures Live() && Onward(old(store.st), store.st) && SameSight(snapshot, at, store.st)
      ensures Moment(old(store.st), at, x, store.st) && store.st.txs[id].pc == Loaded(x, at.slots[x])
      ensures old(store.Quiet()) ==>
        && store.Quiet() && SameShared(old(store.st), store.st) && store.st.slots == old(store.st.slots)
        && at == old(store.st)
    {
      store.Interrupt(id);
      at := store.st;
      LoadForWrite(x);
    }

    /** Others act, then the log word is there or memory has run out. */
    method VersionAfterLoad() returns (ok: bool)
      requires Live() && store.st.txs[id].pc.Loaded?
      modifies this`version, store`st, store`script, store`memory
      ensures Live() && Onward(old(store.st), store.st) && SameSight(snapshot, old(store.st), store.st)
      ensures (ok <==> old(version).Some? || old(store.memory) > 0) && (old(version).Some? ==> version == old(version))
      ensures store.memory == if ok then old(store.memory) - (old(Cost()) - 1) else 0
      ensures ok ==> store.st.txs[id].pc == old(store.st.txs[id].pc) && version.Some?
      ensures !ok ==> store.st.txs[id].pc == Running(NoAvailableMemory)
      ensures old(store.Quiet()) ==>
        store.Quiet() && SameShared(old(store.st), store.st) && store.st.slots == old(store.st.slots)
    {
      ghost var before := store.st;
      store.Interrupt(id);
      ghost var between := store.st;
      ok := WriteVersion();
      SightAdds(snapshot, before, between, store.st);
    }

    /** The number of allocations that a write needs: a copy, and a log word if there is none. */
    ghost function Cost(): nat
      reads this
    {
      if version.None? then 2 else 1
    }

    /** A state between these two in which the cell has a head. */
    ghost predicate Moment(st: State, at: State, x: Slot, st': State)
      reads this
    {
      Later(st, at) && Later(at, st') && x in at.slots
    }

    /** `write` up to the copy of the head. */
    method PrepareWrite(x: Slot) returns (o: Outcome, ghost at: State)
      requires Idle() && x in store.st.slots
      modifies this`version, store`st, store`script, store`memory
      ensures Live() && Onward(old(store.st), store.st) && Moment(old(store.st), at, x, store.st)
      ensures Spent(old(version), old(store.memory), o)
      ensures o == Fine ==> store.st.txs[id].pc.Copied? && store.st.txs[id].pc.x == x && version.Some?
      ensures o != Fine ==> store.st.txs[id].pc == Running(o)
      ensures o == TxAborted ==> Conflict(at, at.slots[x], snapshot)
      ensures old(store.Quiet()) ==>
        && store.Quiet() && SameShared(old(store.st), store.st) && store.st.slots == old(store.st.slots)
        && (o == TxAborted ==> at == old(store.st))
        && (o == Fine ==>
              store.st.txs[id].pc.a == old(store.st.slots[x])
                && !Conflict(old(store.st), old(store.st.slots[x]), snapshot))
    {
      var ok;
      ok, at := LoadAndVersion(x);
      if !ok {
        return NoAvailableMemory, at;
      }
      ghost var between := store.st;
      o := TestCopied(at, between, x);
    }

    /** The second half, which sees what it would have seen at the load. */
    method TestCopied(ghost at: State, ghost between: State, x: Slot) returns (o: Outcome)
      requires Live() && store.st == between && x in at.slots && SameSight(snapshot, at, between)
      requires store.st.txs[id].pc == Loaded(x, at.slots[x]) && version.Some?
      modifies store`st, store`script, store`memory
      ensures Live() && Onward(between, store.st)
      ensures o == Fine ==> store.st.txs[id].pc.Copied? && store.st.txs[id].pc.x == x
      ensures o != Fine ==> store.st.txs[id].pc == Running(o)
      ensures o == TxAborted <==> Conflict(at, at.slots[x], snapshot)
      ensures o == Fine ==> old(store.memory) > 0 && store.memory == old(store.memory) - 1
      ensures o == TxAborted ==> store.memory == old(store.memory)
      ensures o == NoAvailableMemory ==> old(store.memory) == 0 == store.memory
      ensures o in {Fine, TxAborted, NoAvailableMemory}
      ensures old(store.Quiet()) ==>
        && store.Quiet() && SameShared(between, store.st) && store.st.slots == between.slots
        && (o == Fine ==> store.st.txs[id].pc.a == at.slots[x])
    {
      store.Interrupt(id);
      SightAdds(snapshot, at, between, store.st);
      o := TestAndCopy();
    }

    /** How a write uses memory: the error comes exactly with too little of it. */
    ghost predicate Spent(version0: Option<Addr>, memory0: nat, o: Outcome)
      reads this, store
    {
      var cost := if version0.None? then 2 else 1;
      && o in {Fine, TxAborted, NoAvailableMemory}
      && (version0.Some? ==> version == version0)
      && store.memory <= memory0 <= store.memory + cost
      && (o == Fine ==> memory0 == store.memory + cost)
      && (o == NoAvailableMemory ==> memory0 < cost && store.memory == 0)
      && (version0.None? && memory0 == 0 ==> o == NoAvailableMemory)
      && (version0.None? && memory0 > 0 ==> version.Some?)
    }

    /** The test of the copied pointer, and the copy. */
    method TestAndCopy() returns (o: Outcome)
      requires Live() && store.st.txs[id].pc.Loaded? && version.Some?
      modifies store`st, store`script, store`memory
      ensures Live() && Onward(old(store.st), store.st)
      ensures o == Fine ==> store.st.txs[id].pc.Copied? && store.st.txs[id].pc.x == old(store.st.txs[id].pc.x)
      ensures o != Fine ==> store.st.txs[id].pc == Running(o)
      ensures o in {Fine, TxAborted, NoAvailableMemory}
      ensures o == TxAborted <==> !Accepts(old(store.st), old(store.st.txs[id].pc.a), snapshot)
      ensures o == Fine ==> old(store.memory) > 0 && store.memory == old(store.memory) - 1
      ensures o == TxAborted ==> store.memory == old(store.memory)
      ensures o == NoAvailableMemory ==> old(store.memory) == 0 == store.memory
      ensures old(store.Quiet()) ==>
        && store.Quiet() && SameShared(old(store.st), store.st) && store.st.slots == old(store.st.slots)
        && (o == Fine ==> store.st.txs[id].pc.a == old(store.st.txs[id].pc.a))
    {
      var ok := TestHead();
      if !ok {
        return TxAborted;
      }
      store.Interrupt(id);
      ok := MakeCopy();
      o := if ok then Fine else NoAvailableMemory;
    }

    /**
     `write`: latch the cell with a copy and hand out the copy's bytes. The bytes are those of the
     snapshot. It succeeds if the head was not in conflict in the state `at` of its compare-and-swap, and
     aborts only if the head was in conflict in the state `at` of its load or of its compare-and-swap.
     Memory runs out only if there was too little for the allocations that this write needs.
     */
    method Write(x: Slot) returns (r: Result<Value, Outcome>, ghost at: State)
      requires Idle() && x in store.st.slots
      modifies this`version, this`writeset, store`st, store`script, store`memory
      ensures Idle() && Later(old(store.st), store.st) && Sees() == old(Sees())
      ensures store.st.txs[id].bufs == old(store.st.txs[id].bufs) + (if r.Ok? then [r.value] else [])
      ensures r.Ok? ==> Saw(store.st.txs[id].seen, x)
      ensures store.st.txs[id].pc == Running(if r.Ok? then Fine else r.error)
      ensures Spent(old(version), old(store.memory), if r.Ok? then Fine else r.error)
      ensures Moment(old(store.st), at, x, store.st)
      ensures r == Err(TxAborted) ==> Conflict(at, at.slots[x], snapshot)
      ensures r.Ok? ==> !Conflict(at, at.slots[x], snapshot) && store.st.slots == at.slots[x := store.st.slots[x]]
      ensures r.Ok? ==>
        && |writeset| == |old(writeset)| + 1 && writeset[..|old(writeset)|] == old(writeset)
        && writeset[|old(writeset)|].dst == x && store.st.slots[x] == writeset[|old(writeset)|].copy
        && version.Some? && VerAt(store.st, store.st.slots[x]) == 0 && x in Sees() && r.value == Sees()[x]
      ensures r.Err? ==> writeset == old(writeset) && r.error in {TxAborted, NoAvailableMemory}
      ensures old(store.Quiet()) ==>
        && store.Quiet() && SameShared(old(store.st), store.st)
        && store.st.slots == (if r.Ok? then old(store.st.slots)[x := store.st.slots[x]] else old(store.st.slots))
        && (old(store.memory) >= 2 ==> (r.Ok? <==> !Conflict(old(store.st), old(store.st.slots[x]), snapshot)))
    {
      ghost var before := store.st;
      var o;
      o, at := PrepareWrite(x);
      if o != Fine {
        r := Err(o);
      } else {
        r, at := SwapWith(x);
      }
      SnapshotIsConstant(before, store.st, id);
    }

    /** Others act, then the copy is swapped into the cell, in the state `at`. */
    method SwapWith(x: Slot) returns (r: Result<Value, Outcome>, ghost at: State)
      requires Live() && store.st.txs[id].pc.Copied? && store.st.txs[id].pc.x == x && x in store.st.slots
      modifies this`writeset, store`st, store`script
      ensures Idle() && Later(old(store.st), store.st) && Moment(old(store.st), at, x, store.st)
      ensures store.st.txs[id].pc == Running(if r.Ok? then Fine else TxAborted)
      ensures r.Err? ==> r.error == TxAborted && writeset == old(writeset) && Keeps(old(store.st), store.st)
      ensures r.Err? <==> Conflict(at, at.slots[x], snapshot)
      ensures r.Ok? ==>
        && |writeset| == |old(writeset)| + 1 && writeset[..|old(writeset)|] == old(writeset)
        && writeset[|old(writeset)|].dst == x && store.st.slots[x] == writeset[|old(writeset)|].copy
        && store.st.slots == at.slots[x := store.st.slots[x]] && VerAt(store.st, store.st.slots[x]) == 0
        && x in Sees() && r.value == Sees()[x] && Saw(store.st.txs[id].seen, x)
        && store.st.txs[id].bufs == old(store.st.txs[id].bufs) + [r.value]
      ensures old(store.Quiet()) ==>
        && store.Quiet() && SameShared(old(store.st), store.st)
        && store.st.slots == (if r.Ok? then old(store.st.slots)[x := store.st.slots[x]] else old(store.st.slots))
        && (r.Ok? <==> old(store.st.slots[x]) == old(store.st.txs[id].pc.a))
    {
      store.Interrupt(id);
      at := store.st;
      r := SwapIn();
    }

    /** The closure edits the bytes that its i-th write handed out; only it can see them. */
    method Edit(i: nat, v: Value)
      requires Idle() && i < |writeset|
      modifies store`st
      ensures Idle() && writeset[i].copy in store.st.heap && store.st.heap[writeset[i].copy].val == v
      ensures store.st == SetTx(old(store.st), id,
        old(store.st.txs[id]).(bufs := store.st.txs[id].bufs)).(heap := store.st.heap)
      ensures store.st.txs[id].bufs == Filled(old(store.st.txs[id].bufs), i, v) && SameShared(old(store.st), store.st)
    {
      CopyIsThere(store.st, id, i);
      store.Act(Mutate(id, i, v));
    }

    // -------------------------------------------------------------- aborting

    /** The swaps of an abort. Each one succeeds, although other threads act in between. */
    method RollBack()
      requires Live() && store.st.txs[id].pc == RollingBack(0)
      modifies store`st, store`script
      ensures Live() && store.st.txs[id].pc == Finished(false)
      ensures Onward(old(store.st), store.st)
      ensures old(store.Quiet()) ==> store.Quiet()
    {
      var i := 0;
      while i < |writeset|
        invariant i <= |writeset|
        invariant Live() && store.st.txs[id].pc == RollingBack(i)
        invariant Onward(old(store.st), store.st)
        invariant old(store.Quiet()) ==> store.Quiet()
      {
        store.Interrupt(id);
        var success := SwapBack(i);
        assert success;
        i := i + 1;
      }
      store.Act(EndAbort(id));
    }

    /** `TransactionWrite::rollback`, up to its assertion. */
    method SwapBack(i: nat) returns (success: bool)
      requires Live() && i < |writeset| && store.st.txs[id].pc == RollingBack(i)
      modifies store`st
      ensures Live() && success && store.st.txs[id].pc == RollingBack(i + 1)
      ensures store.st.slots == old(store.st.slots)[writeset[i].dst := writeset[i].current]
      ensures Onward(old(store.st), store.st)
    {
      RollbackRestores(store.st, id);
      success := writeset[i].dst in store.st.slots && store.st.slots[writeset[i].dst] == writeset[i].copy;
      store.Act(RollbackOne(id));
    }

    /** `abort`: afterwards no copy of this transaction heads any cell. */
    method Abort()
      requires Idle()
      modifies store`st, store`script
      ensures Live() && store.st.txs[id].pc == Finished(false) && Onward(old(store.st), store.st)
      ensures forall x, i :: x in store.st.slots && 0 <= i < |writeset| ==> writeset[i].copy != store.st.slots[x]
      ensures old(store.Quiet()) ==> store.Quiet()
    {
      store.Act(StartAbort(id));
      RollBack();
      NoCopyLeft();
    }

    lemma NoCopyLeft()
      requires Live() && store.st.txs[id].pc == Finished(false)
      ensures forall x, i :: x in store.st.slots && 0 <= i < |writeset| ==> writeset[i].copy != store.st.slots[x]
    {
      forall x, i | x in store.st.slots && 0 <= i < |writeset| ensures writeset[i].copy != store.st.slots[x] {
        FinishedHoldsNoLatch(store.st, id, x);
      }
    }

    // -------------------------------------------------------------- committing

    /** `read_version` of one readset cell; also whether that head is uncommitted right now. */
    method LoadReadsetEntry(i: nat) returns (latched: bool)
      requires Live() && i < |readset| && store.st.txs[id].pc == Validating(i)
      modifies store`st
      ensures Live() && readset[i] in old(store.st.slots) && store.st.lock == Some(id)
      ensures latched == (VerAt(store.st, old(store.st.slots)[readset[i]]) == 0)
      ensures store.st == Goto(old(store.st), id, Comparing(i, old(store.st.slots)[readset[i]]))
      ensures DoLoadEntry(old(store.st), id) == Some(store.st)
    {
      CommitIsReady(store.st, id);
      latched := VerAt(store.st, store.st.slots[readset[i]]) == 0;
      store.Act(LoadEntry(id));
    }

    /** `Version::newer` against the own version, which is still zero. */
    method CompareReadsetEntry(i: nat) returns (passes: bool)
      requires Live() && i < |readset| && store.st.txs[id].pc.Comparing? && store.st.txs[id].pc.i == i
      modifies store`st
      ensures Live() && passes == (VerAt(old(store.st), old(store.st.txs[id].pc.a)) == 0)
      ensures store.st == Goto(old(store.st), id, if passes then Validating(i + 1) else Invalid)
      ensures DoCompareEntry(old(store.st), id) == Some(store.st)
    {
      CompareCases(store.st, id);
      store.Act(CompareEntry(id));
      passes := !store.st.txs[id].pc.Invalid?;
    }

    /** In this state, earlier in this run, some cell of the readset was headed by a committed object. */
    ghost predicate Unlatched(at: State)
      reads this, store
    {
      && Later(at, store.st)
      && exists i :: 0 <= i < |readset| && readset[i] in at.slots && VerAt(at, at.slots[readset[i]]) > 0
    }

    /** The i-th readset cell was latched in this state. */
    ghost predicate LatchedAt(st: State, i: nat)
      reads this
      requires i < |readset|
    {
      readset[i] in st.slots && VerAt(st, st.slots[readset[i]]) == 0
    }

    /**
     One readset entry, with other threads acting before and after its head is loaded. `at` is the
     state in which it was loaded.
     */
    method ValidateEntry(i: nat) returns (passes: bool, ghost at: State)
      requires Live() && i < |readset| && store.st.txs[id].pc == Validating(i)
      modifies store`st, store`script
      ensures Live() && Onward(old(store.st), store.st)
      ensures ByOthers(id, old(store.st), at) && Validates(id, at, store.st)
      ensures (passes <==> LatchedAt(at, i)) && (!passes ==> Unlatched(at))
      ensures store.st.txs[id].pc == if passes then Validating(i + 1) else Invalid
      ensures old(store.Quiet()) ==>
        && store.Quiet() && SameCells(old(store.st), store.st) && readset[i] in old(store.st.slots)
        && passes == (VerAt(old(store.st), old(store.st.slots)[readset[i]]) == 0)
    {
      store.Interrupt(id);
      at := store.st;
      var latched := LoadReadsetEntry(i);
      ghost var loaded := store.st;
      store.Interrupt(id);
      passes := CompareReadsetEntry(i);
      assert readset[i] in at.slots;
      assert Compared(id, loaded, store.st);
    }

    /**
     The run of a validation: `at` and `done` are the states in which each entry was loaded and in which
     its comparison left the store, with actions of others in between.
     */
    ghost predicate ValidatedBy(st: State, at: seq<State>, done: seq<State>)
      reads this
    {
      && |at| == |done| <= |readset|
      && forall i {:trigger ValidatedInTurn(st, at, done, i)} :: 0 <= i < |at| ==> ValidatedInTurn(st, at, done, i)
    }

    ghost predicate ValidatedInTurn(st: State, at: seq<State>, done: seq<State>, i: nat)
      reads this
      requires i < |at| == |done|
    {
      ByOthers(id, if i == 0 then st else done[i - 1], at[i]) && Validates(id, at[i], done[i])
    }

    lemma ValidatedNext(st: State, at: seq<State>, done: seq<State>, next: State, after: State)
      requires ValidatedBy(st, at, done) && |at| < |readset|
      requires ByOthers(id, if |at| == 0 then st else done[|done| - 1], next) && Validates(id, next, after)
      ensures ValidatedBy(st, at + [next], done + [after])
    {
      forall i | 0 <= i < |at + [next]| ensures ValidatedInTurn(st, at + [next], done + [after], i) {
        if i < |at| {
          assert ValidatedInTurn(st, at, done, i);
        }
      }
    }

    /**
     The validation loop of `commit`. It passes exactly when every head was uncommitted at the
     moment it was loaded; so it always passes when this transaction wrote the whole readset.
     */
    method Validate() returns (ok: bool, ghost at: seq<State>, ghost done: seq<State>)
      requires Live() && store.st.txs[id].pc == Validating(0)
      modifies store`st, store`script
      ensures Live() && Onward(old(store.st), store.st)
      ensures store.st.txs[id].pc == if ok then Validating(|readset|) else Invalid
      ensures ValidatedBy(old(store.st), at, done) && (ok ==> |at| == |readset|)
      ensures store.st == if |done| == 0 then old(store.st) else done[|done| - 1]
      ensures ok <==> forall i {:trigger LatchedAt(at[i], i)} :: 0 <= i < |at| ==> LatchedAt(at[i], i)
      ensures !ok ==> |at| > 0 && Unlatched(at[|at| - 1])
      ensures old(store.Quiet()) ==> store.Quiet() && (ok <==> AllLatched(old(store.st), |readset|))
    {
      var i := 0;
      at, done := [], [];
      ghost var st0, quiet := store.st, store.Quiet();
      while i < |readset|
        invariant |at| == i <= |readset| && Followed(st0, at, done)
        invariant forall j {:trigger LatchedAt(at[j], j)} :: 0 <= j < i ==> LatchedAt(at[j], j)
        invariant Live() && store.st.txs[id].pc == Validating(i)
        invariant quiet ==> QuietUpTo(st0, i)
      {
        var passes, next := NextEntry(i, st0, at, done);
        at, done := at + [next], done + [store.st];
        if !passes {
          assert !LatchedAt(at[i], i);
          return false, at, done;
        }
        i := i + 1;
      }
      ok := true;
    }

    /** The store is where a validation that started in st left it. */
    ghost predicate Followed(st: State, at: seq<State>, done: seq<State>)
      reads this, store
    {
      && ValidatedBy(st, at, done) && Onward(st, store.st)
      && store.st == if |done| == 0 then st else done[|done| - 1]
    }

    /** Nobody else acted, and the first n entries passed. */
    ghost predicate QuietUpTo(st: State, n: nat)
      reads this, store
      requires n <= |readset|
    {
      store.Quiet() && SameCells(st, store.st) && AllLatched(st, n)
    }

    /** One more entry of a validation. */
    method NextEntry(i: nat, ghost st0: State, ghost at: seq<State>, ghost done: seq<State>)
      returns (passes: bool, ghost next: State)
      requires Live() && i < |readset| && store.st.txs[id].pc == Validating(i)
      requires |at| == i && Followed(st0, at, done)
      modifies store`st, store`script
      ensures Live() && Followed(st0, at + [next], done + [store.st])
      ensures (passes <==> LatchedAt(next, i)) && (!passes ==> Unlatched(next))
      ensures store.st.txs[id].pc == if passes then Validating(i + 1) else Invalid
      ensures old(QuietUpTo(st0, i)) ==>
        store.Quiet() && if passes then QuietUpTo(st0, i + 1) else !AllLatched(st0, |readset|)
    {
      ghost var st1, quiet := store.st, QuietUpTo(st0, i);
      passes, next := ValidateEntry(i);
      ValidatedNext(st0, at, done, next, store.st);
      if quiet {
        SameCellsSameVersion(st0, st1, st0.slots[readset[i]]);
        assert passes <==> VerAt(st0, st0.slots[readset[i]]) == 0;
        if passes {
          LatchedNext(st0, i);
        }
      }
    }

    /** The first n readset cells are all headed by uncommitted objects. */
    ghost predicate AllLatched(st: State, n: nat)
      reads this
      requires n <= |readset|
    {
      forall i :: 0 <= i < n ==> readset[i] in st.slots && VerAt(st, st.slots[readset[i]]) == 0
    }

    lemma LatchedNext(st: State, n: nat)
      requires n < |readset| && AllLatched(st, n)
      requires readset[n] in st.slots && VerAt(st, st.slots[readset[n]]) == 0
      ensures AllLatched(st, n + 1)
    {
    }

    lemma SameCellsSameVersion(st: State, st': State, a: Addr)
      requires SameCells(st, st')
      ensures VerAt(st', a) == VerAt(st, a)
    {
    }

    ghost predicate SameCells(st: State, st': State) {
      st'.slots == st.slots && st'.heap == st.heap && st'.logs == st.logs
    }

    method StoreIntoLog()
      requires Live() && store.st.txs[id].pc == Validating(|readset|)
      modifies store`st
      ensures Live() && store.st.txs[id].pc == Published && Onward(old(store.st), store.st)
      ensures DoStoreVersion(old(store.st), id) == Some(store.st)
    {
      CommitIsReady(store.st, id);
      store.Act(StoreVersion(id));
    }

    /** `Version::commit`: the one store that publishes everything. */
    method StoreWord()
      requires Live() && store.st.txs[id].pc == Validating(|readset|)
      modifies store`st
      ensures Live() && store.st.txs[id].pc == Published && Onward(old(store.st), store.st)
      ensures |store.st.hist| == |old(store.st.hist)| + 1
      ensures store.st.hist[|old(store.st.hist)|] == CommitOf(old(store.st), id)
      ensures forall i :: 0 <= i < |writeset| ==>
        && VerAt(old(store.st), writeset[i].copy) == 0 && VerAt(store.st, writeset[i].copy) == store.st.counter
    {
      ghost var before := store.st;
      StoreIntoLog();
      StoreNumbersCopies(before, id);
    }

    /** The store of the version word and the release of the lock. */
    method Publish()
      requires Live() && store.st.txs[id].pc == Validating(|readset|)
      modifies store`st, store`script
      ensures Live() && store.st.txs[id].pc == Finished(true) && Onward(old(store.st), store.st)
      ensures old(store.Quiet()) ==> store.Quiet()
    {
      StoreWord();
      Release();
    }

    /** The lock is dropped, after others acted. */
    method Release()
      requires Live() && (store.st.txs[id].pc.Published? || store.st.txs[id].pc.Invalid?)
      modifies store`st, store`script
      ensures Live() && Onward(old(store.st), store.st)
      ensures store.st.txs[id].pc == if old(store.st.txs[id].pc.Published?) then Finished(true) else RollingBack(0)
      ensures old(store.Quiet()) ==> store.Quiet()
    {
      store.Interrupt(id);
      store.Act(Unlock(id));
    }

    /** A failed validation releases the lock and aborts. */
    method GiveUp()
      requires Live() && store.st.txs[id].pc == Invalid
      modifies store`st, store`script
      ensures Live() && store.st.txs[id].pc == Finished(false) && Onward(old(store.st), store.st)
      ensures forall x, i :: x in store.st.slots && 0 <= i < |writeset| ==> writeset[i].copy != store.st.slots[x]
      ensures old(store.Quiet()) ==> store.Quiet()
    {
      Release();
      RollBack();
      NoCopyLeft();
    }

    /** `commit_version` takes the counter lock, waiting for other threads if need be. */
    method TakeLock() returns (ok: bool)
      requires Idle() && version.Some?
      modifies store`st, store`script
      ensures Live() && Onward(old(store.st), store.st)
      ensures ok ==> store.st.txs[id].pc == Validating(0)
      ensures !ok ==> store.st.txs[id].pc.Running? && store.st.lock.Some? && store.script == []
      ensures old(store.Quiet()) && old(store.st.lock.None?) ==>
        && ok && store.Quiet()
        && store.st == Goto(old(store.st), id, Validating(0)).(counter := old(store.st.counter) + 1, lock := Some(id))
    {
      store.Interrupt(id);
      while store.st.lock.Some? && |store.script| > 0
        invariant Idle() && Onward(old(store.st), store.st)
        invariant old(store.Quiet()) ==> store.Quiet() && store.st == old(store.st)
        decreases |store.script|
      {
        store.Interrupt(id);
      }
      ok := store.st.lock.None?;
      if ok {
        store.Act(LockCounter(id));
      }
    }

    /**
     `commit`. A transaction that wrote every cell of its readset never fails here. Without
     interference it commits exactly when it wrote nothing or every readset head is uncommitted. If it fails,
     some readset cell was headed by a committed object in the state `at`.
     */
    method Commit() returns (e: Ending, ghost at: State)
      requires Idle()
      modifies store`st, store`script
      ensures Live()
      ensures Onward(old(store.st), store.st)
      ensures e == Committed ==> store.st.txs[id].pc == Finished(true)
      ensures e == Failed ==> store.st.txs[id].pc == Finished(false) && Unlatched(at)
      ensures e == Failed ==>
        forall x, i :: x in store.st.slots && 0 <= i < |writeset| ==> writeset[i].copy != store.st.slots[x]
      ensures e == Waiting ==> store.st.txs[id].pc.Running? && store.st.lock.Some? && store.script == []
      ensures version.None? ==> e == Committed
      ensures WroteReadset() ==> e != Failed
      ensures old(store.Quiet()) && old(store.st.lock.None?) && version.Some? ==>
        && e != Waiting
        && (e == Committed <==> AllLatched(old(store.st), |readset|))
    {
      if version.None? {
        store.Act(CommitReadOnly(id));
        return Committed, store.st;
      }
      var locked := TakeLock();
      if !locked {
        return Waiting, store.st;
      }
      e, at := Decide();
    }

    /** Every cell of the readset was also written. */
    ghost predicate WroteReadset()
      reads this
    {
      forall i :: 0 <= i < |readset| ==> exists j :: 0 <= j < |writeset| && writeset[j].dst == readset[i]
    }

    lemma WroteReadsetPasses()
      requires Live() && WroteReadset()
      ensures store.st.txs[id].pc != Invalid
    {
      WritersPassValidation(store.st, id);
    }

    /** What `commit_version` and `commit` do once the lock is held. */
    method Decide() returns (e: Ending, ghost at: State)
      requires Live() && store.st.txs[id].pc == Validating(0)
      modifies store`st, store`script
      ensures Live() && e != Waiting
      ensures Onward(old(store.st), store.st)
      ensures e == Committed ==> store.st.txs[id].pc == Finished(true)
      ensures e == Failed ==> store.st.txs[id].pc == Finished(false) && Unlatched(at)
      ensures e == Failed ==>
        forall x, i :: x in store.st.slots && 0 <= i < |writeset| ==> writeset[i].copy != store.st.slots[x]
      ensures WroteReadset() ==> e != Failed
      ensures old(store.Quiet()) ==> (e == Committed <==> AllLatched(old(store.st), |readset|))
    {
      var ok, loads, done := Validate();
      if ok {
        Publish();
        e, at := Committed, store.st;
      } else {
        at := loads[|loads| - 1];
        if WroteReadset() {
          WroteReadsetPasses();
        }
        GiveUp();
        e := Failed;
      }
    }
  }
}
