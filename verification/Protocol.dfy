/**
 The multi-version transaction protocol of tx.rs and vos.rs as a labelled step system.

 Any number of transactions share atomic pointer cells (slots), a heap of object versions,
 one log word for each writing transaction, and a commit counter guarded by a lock.
 Every label is one atomic action of one transaction; a run is any interleaving of labels.
 */
module Protocol {
  import opened Basics

  /** The user bytes of one object version. */
  type Value = seq<byte>
  /** The location of an `UntypedPointer` cell. */
  type Slot = nat
  /** The address of an object version or of a log word; nothing is ever freed or reused. */
  type Addr = nat
  type TxId = nat

  /** A version word holds a number, or points at the log word of the writing transaction. */
  datatype VersionWord = Direct(number: nat) | Indirect(log: Addr)

  /** An object version. `home` and `owner` are history variables: no action tests them. */
  datatype Obj = Obj(version: VersionWord, other: Option<Addr>, val: Value, home: Slot, owner: TxId)

  /** A log word; zero means not committed. `owner` is a history variable. */
  datatype Log = Log(word: nat, owner: TxId)

  /** `TransactionWrite`: the cell, the address it held, the copy that was installed. */
  datatype Write = Write(dst: Slot, current: Addr, copy: Addr)

  /** What the last operation of the user closure returned. */
  datatype Outcome = Fine | TxAborted | NoAvailableMemory | InvalidLogicalAddress

  /** Where a transaction stands between two atomic actions. */
  datatype Pc =
    | Running(last: Outcome)                        // inside the user closure
    | Reading(x: Slot, cursor: Addr, strict: bool)  // VersionedReader::read, before one hop
    | Loaded(x: Slot, a: Addr)                      // write: the pointer was cloned
    | Checked(x: Slot, a: Addr)                     // write: the head was accepted
    | Copied(x: Slot, a: Addr, copy: Addr)         // write: the copy exists, not installed
    | Validating(i: nat)                            // commit: lock held, next readset entry i
    | Comparing(i: nat, a: Addr)                    // commit: lock held, head of entry i loaded
    | Invalid                                       // commit: lock held, validation failed
    | Published                                     // commit: lock held, version stored
    | RollingBack(i: nat)                           // abort: next writeset entry i
    | Panicked                                      // the assertion in rollback failed
    | Finished(committed: bool)

  /**
   A transaction. `log` is its write version;
   `seen` (every value handed to the closure), `begunAt` (the number of commits when it
   began) and `bufs` (what the closure left in the buffer of each write) are history variables.
   */
  datatype Tx = Tx(
    snapshot: nat, log: Option<Addr>, writeset: seq<Write>, readset: seq<Slot>,
    seen: seq<(Slot, Value)>, begunAt: nat, pc: Pc, bufs: seq<Value>)

  /** History: one committed transaction, with the objects and the values it published. */
  datatype Commit = Commit(
    tx: TxId, version: nat, snapshot: nat, cut: nat,
    objs: map<Slot, Addr>, vals: map<Slot, Value>, seen: seq<(Slot, Value)>)

  /** Shared memory and all transactions; `base`, `init` and `hist` are history variables. */
  datatype State = State(
    slots: map<Slot, Addr>, heap: map<Addr, Obj>, logs: map<Addr, Log>,
    counter: nat, lock: Option<TxId>, txs: map<TxId, Tx>,
    base: map<Slot, Addr>, init: map<Slot, Value>, hist: seq<Commit>)

  datatype Label =
    | Begin(t: TxId)
    | StartRead(t: TxId, x: Slot, strict: bool)
    | Hop(t: TxId)
    | LoadHead(t: TxId, x: Slot)
    | AllocLog(t: TxId, a: Addr)
    | CheckHead(t: TxId)
    | CopyObject(t: TxId, a: Addr)
    | OutOfMemory(t: TxId)
    | InstallCopy(t: TxId)
    | Mutate(t: TxId, i: nat, v: Value)
    | CommitReadOnly(t: TxId)
    | LockCounter(t: TxId)
    | LoadEntry(t: TxId)
    | CompareEntry(t: TxId)
    | StoreVersion(t: TxId)
    | Unlock(t: TxId)
    | StartAbort(t: TxId)
    | RollbackOne(t: TxId)
    | EndAbort(t: TxId)

  /** `Version::read`: the number behind a version word, through at most one indirection. */
  function Number(logs: map<Addr, Log>, v: VersionWord): nat {
    match v
    case Direct(n) => n
    case Indirect(l) => if l in logs then logs[l].word else 0
  }

  function VerAt(st: State, a: Addr): nat {
    if a in st.heap then Number(st.logs, st.heap[a].version) else 0
  }

  /** The visibility test of `VersionedReader::read`. */
  predicate Accepts(st: State, a: Addr, snapshot: nat) {
    VerAt(st, a) != 0 && VerAt(st, a) <= snapshot
  }

  function SetTx(st: State, t: TxId, tx: Tx): State {
    st.(txs := st.txs[t := tx])
  }

  function Goto(st: State, t: TxId, pc: Pc): State
    requires t in st.txs
  {
    SetTx(st, t, st.txs[t].(pc := pc))
  }

  /** An action belongs to one transaction, whose writeset and seen values only grow. */
  ghost predicate Effect(st: State, st': State, t: TxId) {
    && st'.base == st.base && st'.init == st.init && st.hist <= st'.hist
    && st'.slots.Keys == st.slots.Keys
    && t in st'.txs && st'.txs == st.txs[t := st'.txs[t]]
    && (t in st.txs ==>
          var tx, tx' := st.txs[t], st'.txs[t];
          && tx'.snapshot == tx.snapshot && tx'.begunAt == tx.begunAt
          && tx.seen <= tx'.seen && tx.writeset <= tx'.writeset)
  }

  predicate FreshAddr(st: State, a: Addr) {
    a !in st.heap && a !in st.logs
  }

  /** `Transaction::new`: the snapshot is the counter, read under the shared lock. */
  function DoBegin(st: State, t: TxId): (r: Option<State>)
    ensures r.Some? ==> Effect(st, r.value, t)
  {
    if t !in st.txs && st.lock.None? then
      Some(SetTx(st, t, Tx(st.counter, None, [], [], [], |st.hist|, Running(Fine), [])))
    else None
  }

  /** `read` and `read_for_write` load the cell; the latter first records it in the readset. */
  function DoStartRead(st: State, t: TxId, x: Slot, strict: bool): (r: Option<State>)
    requires t in st.txs
    ensures r.Some? ==> Effect(st, r.value, t)
  {
    var tx := st.txs[t];
    if tx.pc.Running? && x in st.slots then
      Some(SetTx(st, t, tx.(
        readset := if strict then tx.readset + [x] else tx.readset,
        pc := Reading(x, st.slots[x], strict))))
    else None
  }

  /** One level of `VersionedReader::read`: accept this version, refuse, or follow `other`. */
  function DoHop(st: State, t: TxId): (r: Option<State>)
    requires t in st.txs
    ensures r.Some? ==> Effect(st, r.value, t)
  {
    var tx := st.txs[t];
    if tx.pc.Reading? && tx.pc.cursor in st.heap then
      var a := tx.pc.cursor;
      if Accepts(st, a, tx.snapshot) then
        Some(SetTx(st, t, tx.(seen := tx.seen + [(tx.pc.x, st.heap[a].val)], pc := Running(Fine))))
      else if tx.pc.strict then
        Some(Goto(st, t, Running(TxAborted)))
      else if st.heap[a].other.None? then
        Some(Goto(st, t, Running(InvalidLogicalAddress)))
      else
        Some(Goto(st, t, Reading(tx.pc.x, st.heap[a].other.value, false)))
    else None
  }

  /** `write` clones the pointer. */
  function DoLoadHead(st: State, t: TxId, x: Slot): (r: Option<State>)
    requires t in st.txs
    ensures r.Some? ==> Effect(st, r.value, t)
  {
    if st.txs[t].pc.Running? && x in st.slots then Some(Goto(st, t, Loaded(x, st.slots[x])))
    else None
  }

  /** `write_version` allocates the log word on the first write. */
  function DoAllocLog(st: State, t: TxId, a: Addr): (r: Option<State>)
    requires t in st.txs
    ensures r.Some? ==> Effect(st, r.value, t)
  {
    var tx := st.txs[t];
    if tx.pc.Loaded? && tx.log.None? && FreshAddr(st, a) then
      Some(SetTx(st, t, tx.(log := Some(a))).(logs := st.logs[a := Log(0, t)]))
    else None
  }

  /** `write` reads the cloned head with `abort_on_conflict`. */
  function DoCheckHead(st: State, t: TxId): (r: Option<State>)
    requires t in st.txs
    ensures r.Some? ==> Effect(st, r.value, t)
  {
    var tx := st.txs[t];
    if tx.pc.Loaded? && tx.log.Some? then
      Some(Goto(st, t, if Accepts(st, tx.pc.a, tx.snapshot) then Checked(tx.pc.x, tx.pc.a)
                       else Running(TxAborted)))
    else None
  }

  /** `write` allocates a copy of the head whose `other` is the head. */
  function DoCopyObject(st: State, t: TxId, a: Addr): (r: Option<State>)
    requires t in st.txs
    ensures r.Some? ==> Effect(st, r.value, t)
  {
    var tx := st.txs[t];
    if tx.pc.Checked? && tx.log.Some? && tx.pc.a in st.heap && FreshAddr(st, a) then
      var o := Obj(Indirect(tx.log.value), Some(tx.pc.a), st.heap[tx.pc.a].val, tx.pc.x, t);
      Some(Goto(st, t, Copied(tx.pc.x, tx.pc.a, a)).(heap := st.heap[a := o]))
    else None
  }

  /** Either allocation inside `write` may fail. */
  function DoOutOfMemory(st: State, t: TxId): (r: Option<State>)
    requires t in st.txs
    ensures r.Some? ==> Effect(st, r.value, t)
  {
    var tx := st.txs[t];
    if (tx.pc.Loaded? && tx.log.None?) || tx.pc.Checked? then
      Some(Goto(st, t, Running(NoAvailableMemory)))
    else None
  }

  /** `TransactionWrite::perform`: compare-and-swap the copy into the cell. */
  function DoInstallCopy(st: State, t: TxId): (r: Option<State>)
    requires t in st.txs
    ensures r.Some? ==> Effect(st, r.value, t)
  {
    var tx := st.txs[t];
    if tx.pc.Copied? && tx.pc.x in st.slots && tx.pc.copy in st.heap then
      if st.slots[tx.pc.x] == tx.pc.a then
        Some(SetTx(st, t, tx.(
          writeset := tx.writeset + [Write(tx.pc.x, tx.pc.a, tx.pc.copy)],
          seen := tx.seen + [(tx.pc.x, st.heap[tx.pc.copy].val)],
          bufs := tx.bufs + [st.heap[tx.pc.copy].val],
          pc := Running(Fine))).(slots := st.slots[tx.pc.x := tx.pc.copy]))
      else
        Some(Goto(st, t, Running(TxAborted)))
    else None
  }

  function Filled(bufs: seq<Value>, i: nat, v: Value): seq<Value> {
    if i < |bufs| then bufs[i := v] else bufs
  }

  /** The closure edits the buffer that `write` returned. */
  function DoMutate(st: State, t: TxId, i: nat, v: Value): (r: Option<State>)
    requires t in st.txs
    ensures r.Some? ==> Effect(st, r.value, t)
  {
    var tx := st.txs[t];
    if tx.pc.Running? && i < |tx.writeset| && tx.writeset[i].copy in st.heap then
      var a := tx.writeset[i].copy;
      Some(SetTx(st, t, tx.(bufs := Filled(tx.bufs, i, v))).(heap := st.heap[a := st.heap[a].(val := v)]))
    else None
  }

  /** `commit` of a transaction without a write version. */
  function DoCommitReadOnly(st: State, t: TxId): (r: Option<State>)
    requires t in st.txs
    ensures r.Some? ==> Effect(st, r.value, t)
  {
    if st.txs[t].pc.Running? && st.txs[t].log.None? then Some(Goto(st, t, Finished(true)))
    else None
  }

  /** `commit_version` takes the lock and increments the counter. */
  function DoLockCounter(st: State, t: TxId): (r: Option<State>)
    requires t in st.txs
    ensures r.Some? ==> Effect(st, r.value, t)
  {
    if st.txs[t].pc.Running? && st.txs[t].log.Some? && st.lock.None? then
      Some(Goto(st, t, Validating(0)).(counter := st.counter + 1, lock := Some(t)))
    else None
  }

  /** Validation loads the head of one readset cell ... */
  function DoLoadEntry(st: State, t: TxId): (r: Option<State>)
    requires t in st.txs
    ensures r.Some? ==> Effect(st, r.value, t)
  {
    var tx := st.txs[t];
    if tx.pc.Validating? && tx.pc.i < |tx.readset| && tx.readset[tx.pc.i] in st.slots then
      Some(Goto(st, t, Comparing(tx.pc.i, st.slots[tx.readset[tx.pc.i]])))
    else None
  }

  /** ... and fails if that head is newer than the transaction's own version word. */
  function DoCompareEntry(st: State, t: TxId): (r: Option<State>)
    requires t in st.txs
    ensures r.Some? ==> Effect(st, r.value, t)
  {
    var tx := st.txs[t];
    if tx.pc.Comparing? && tx.log.Some? then
      Some(Goto(st, t,
        if VerAt(st, tx.pc.a) > Number(st.logs, Indirect(tx.log.value)) then Invalid
        else Validating(tx.pc.i + 1)))
    else None
  }

  /** The objects a writeset installed, by cell. */
  function Objs(ws: seq<Write>): (m: map<Slot, Addr>)
    ensures forall i :: 0 <= i < |ws| ==> ws[i].dst in m
    ensures forall x :: x in m ==> exists i :: 0 <= i < |ws| && ws[i].dst == x && ws[i].copy == m[x]
  {
    if |ws| == 0 then map[]
    else Objs(ws[..|ws| - 1])[ws[|ws| - 1].dst := ws[|ws| - 1].copy]
  }

  function ValsOf(heap: map<Addr, Obj>, objs: map<Slot, Addr>): map<Slot, Value> {
    map x | x in objs :: if objs[x] in heap then heap[objs[x]].val else []
  }

  function CommitOf(st: State, t: TxId): Commit
    requires t in st.txs
  {
    var tx := st.txs[t];
    var objs := Objs(tx.writeset);
    Commit(t, st.counter, tx.snapshot, tx.begunAt, objs, ValsOf(st.heap, objs), tx.seen)
  }

  /** `Version::commit`: one store publishes every write of the transaction. */
  function DoStoreVersion(st: State, t: TxId): (r: Option<State>)
    requires t in st.txs
    ensures r.Some? ==> Effect(st, r.value, t)
  {
    var tx := st.txs[t];
    if tx.pc.Validating? && tx.pc.i == |tx.readset| && tx.log.Some? && tx.log.value in st.logs then
      var l := tx.log.value;
      Some(Goto(st, t, Published).(
        logs := st.logs[l := st.logs[l].(word := st.counter)],
        hist := st.hist + [CommitOf(st, t)]))
    else None
  }

  /** `commit_version` returns and drops the lock; a failed validation goes on to abort. */
  function DoUnlock(st: State, t: TxId): (r: Option<State>)
    requires t in st.txs
    ensures r.Some? ==> Effect(st, r.value, t)
  {
    var tx := st.txs[t];
    if tx.pc.Published? || tx.pc.Invalid? then
      Some(Goto(st, t, if tx.pc.Published? then Finished(true) else RollingBack(0)).(lock := None))
    else None
  }

  /** The closure returned an error. */
  function DoStartAbort(st: State, t: TxId): (r: Option<State>)
    requires t in st.txs
    ensures r.Some? ==> Effect(st, r.value, t)
  {
    if st.txs[t].pc.Running? then Some(Goto(st, t, RollingBack(0))) else None
  }

  /** `TransactionWrite::rollback`: swap the old pointer back and assert success. */
  function DoRollbackOne(st: State, t: TxId): (r: Option<State>)
    requires t in st.txs
    ensures r.Some? ==> Effect(st, r.value, t)
  {
    var tx := st.txs[t];
    if tx.pc.RollingBack? && tx.pc.i < |tx.writeset| then
      var w := tx.writeset[tx.pc.i];
      if w.dst in st.slots && st.slots[w.dst] == w.copy then
        Some(Goto(st, t, RollingBack(tx.pc.i + 1)).(slots := st.slots[w.dst := w.current]))
      else
        Some(Goto(st, t, Panicked))
    else None
  }

  function DoEndAbort(st: State, t: TxId): (r: Option<State>)
    requires t in st.txs
    ensures r.Some? ==> Effect(st, r.value, t)
  {
    var tx := st.txs[t];
    if tx.pc.RollingBack? && tx.pc.i == |tx.writeset| then Some(Goto(st, t, Finished(false)))
    else None
  }

  /** Labels that happen inside the user closure; the others begin or end a transaction. */
  predicate InClosure(l: Label) {
    l.StartRead? || l.Hop? || l.LoadHead? || l.AllocLog? || l.CheckHead? || l.CopyObject?
    || l.OutOfMemory? || l.InstallCopy? || l.Mutate?
  }

  function StepInClosure(st: State, l: Label): (r: Option<State>)
    requires l.t in st.txs && InClosure(l)
    ensures r.Some? ==> Effect(st, r.value, l.t) && r.value.hist == st.hist
  {
    match l
    case StartRead(t, x, strict) => DoStartRead(st, t, x, strict)
    case Hop(t) => DoHop(st, t)
    case LoadHead(t, x) => DoLoadHead(st, t, x)
    case AllocLog(t, a) => DoAllocLog(st, t, a)
    case CheckHead(t) => DoCheckHead(st, t)
    case CopyObject(t, a) => DoCopyObject(st, t, a)
    case OutOfMemory(t) => DoOutOfMemory(st, t)
    case InstallCopy(t) => DoInstallCopy(st, t)
    case Mutate(t, i, v) => DoMutate(st, t, i, v)
  }

  function StepAtEnd(st: State, l: Label): (r: Option<State>)
    requires l.t in st.txs && !InClosure(l)
    ensures r.Some? ==> Effect(st, r.value, l.t) && (!l.StoreVersion? ==> r.value.hist == st.hist)
  {
    match l
    case Begin(_) => None
    case CommitReadOnly(t) => DoCommitReadOnly(st, t)
    case LockCounter(t) => DoLockCounter(st, t)
    case LoadEntry(t) => DoLoadEntry(st, t)
    case CompareEntry(t) => DoCompareEntry(st, t)
    case StoreVersion(t) => DoStoreVersion(st, t)
    case Unlock(t) => DoUnlock(st, t)
    case StartAbort(t) => DoStartAbort(st, t)
    case RollbackOne(t) => DoRollbackOne(st, t)
    case EndAbort(t) => DoEndAbort(st, t)
  }

  /** The effect of a label, or None when the label is not enabled. */
  function Step(st: State, l: Label): (r: Option<State>)
    ensures r.Some? ==> Effect(st, r.value, l.t)
    ensures r.Some? && !l.StoreVersion? ==> r.value.hist == st.hist
  {
    if l.Begin? then DoBegin(st, l.t)
    else if l.t !in st.txs then None
    else if InClosure(l) then StepInClosure(st, l)
    else StepAtEnd(st, l)
  }

  /** The state after a whole run, or None when some label of it is not enabled. */
  function Run(st: State, ls: seq<Label>): Option<State>
    decreases |ls|
  {
    if |ls| == 0 then Some(st)
    else
      var prev := Run(st, ls[..|ls| - 1]);
      if prev.None? then None else Step(prev.value, ls[|ls| - 1])
  }

  /** A store as `root_alloc` leaves it: every cell heads one committed base object. */
  ghost predicate Initial(st: State) {
    && st.counter == 1 && st.lock == None && st.txs == map[] && st.logs == map[] && st.hist == []
    && st.slots == st.base && st.init.Keys == st.slots.Keys
    && st.heap.Keys == st.base.Values
    && forall x :: x in st.base ==>
         st.base[x] in st.heap && st.heap[st.base[x]] == Obj(Direct(1), None, st.init[x], x, 0)
  }

  /** Label i is enabled in state i and leads to the next state. */
  ghost predicate StepAt(ss: seq<State>, ls: seq<Label>, i: nat)
    requires |ss| == |ls| + 1 && i < |ls|
  {
    Step(ss[i], ls[i]) == Some(ss[i + 1])
  }

  /** Labels, and the states before, between and after them. */
  ghost predicate Trace(ss: seq<State>, ls: seq<Label>) {
    && |ss| == |ls| + 1
    && forall i {:trigger StepAt(ss, ls, i)} :: 0 <= i < |ls| ==> StepAt(ss, ls, i)
  }

  /** A history: a trace from an initial state. */
  ghost predicate History(ss: seq<State>, ls: seq<Label>) {
    Trace(ss, ls) && Initial(ss[0])
  }

  /** Some interleaving leads here. */
  ghost predicate Reachable(st: State) {
    exists ss: seq<State>, ls: seq<Label> {:trigger History(ss, ls)} :: History(ss, ls) && st == ss[|ls|]
  }
}
