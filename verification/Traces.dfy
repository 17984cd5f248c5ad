/** Laws over whole histories: what a commit must have tested before, and what the counter counts. */
module Traces {
  import opened Protocol
  import opened Invariant
  import opened Publication
  import opened Outcomes

  /** States of a history are reachable, so they have the invariant. */
  lemma {:induction false} HistoryInv(ss: seq<State>, ls: seq<Label>, n: nat)
    requires History(ss, ls) && n <= |ls|
    ensures Inv(ss[n])
  {
    if n == 0 {
      InitialInv(ss[0]);
    } else {
      HistoryInv(ss, ls, n - 1);
      assert StepAt(ss, ls, n - 1);
      KeepStep(ss[n - 1], ls[n - 1]);
    }
  }

  // ---------------------------------------------------------------- the counter

  /** How often the counter lock was taken. */
  function Locks(ls: seq<Label>): nat
    decreases |ls|
  {
    if |ls| == 0 then 0 else Locks(ls[..|ls| - 1]) + if ls[|ls| - 1].LockCounter? then 1 else 0
  }

  lemma ClosureKeepsCounter(st: State, l: Label)
    requires l.t in st.txs && InClosure(l) && StepInClosure(st, l).Some?
    ensures StepInClosure(st, l).value.counter == st.counter
  {
  }

  lemma EndCounts(st: State, l: Label)
    requires l.t in st.txs && !InClosure(l) && StepAtEnd(st, l).Some?
    ensures StepAtEnd(st, l).value.counter == st.counter + if l.LockCounter? then 1 else 0
  {
  }

  lemma StepCounts(st: State, l: Label)
    requires Step(st, l).Some?
    ensures Step(st, l).value.counter == st.counter + if l.LockCounter? then 1 else 0
  {
    if !l.Begin? {
      if InClosure(l) {
        ClosureKeepsCounter(st, l);
      } else {
        EndCounts(st, l);
      }
    }
  }

  /** The counter is one plus the number of commits begun, failed validations included. */
  lemma {:induction false} CounterCountsLocks(ss: seq<State>, ls: seq<Label>, n: nat)
    requires History(ss, ls) && n <= |ls|
    ensures ss[n].counter == 1 + Locks(ls[..n])
  {
    if n > 0 {
      CounterCountsLocks(ss, ls, n - 1);
      assert ls[..n][..n - 1] == ls[..n - 1];
      assert StepAt(ss, ls, n - 1);
      StepCounts(ss[n - 1], ls[n - 1]);
    }
  }

  // ---------------------------------------------------------------- validation

  predicate InValidation(pc: Pc) {
    pc.Validating? || pc.Comparing?
  }

  lemma ClosureIsNotValidation(st: State, l: Label)
    requires l.t in st.txs && InClosure(l) && StepInClosure(st, l).Some?
    ensures var pc := StepInClosure(st, l).value.txs[l.t].pc; !InValidation(pc) && !pc.Invalid?
  {
  }

  /** The only ways into and on in a validation. */
  lemma IntoValidation(st: State, l: Label)
    requires Step(st, l).Some? && InValidation(Step(st, l).value.txs[l.t].pc)
    ensures l.t in st.txs && Step(st, l).value.txs[l.t].readset == st.txs[l.t].readset
    ensures var tx, pc' := st.txs[l.t], Step(st, l).value.txs[l.t].pc;
      || (l.LockCounter? && pc' == Validating(0))
      || (&& l.LoadEntry? && tx.pc.Validating? && tx.pc.i < |tx.readset| && tx.readset[tx.pc.i] in st.slots
          && pc' == Comparing(tx.pc.i, st.slots[tx.readset[tx.pc.i]])
          && Step(st, l) == DoLoadEntry(st, l.t))
      || (l.CompareEntry? && tx.pc.Comparing? && pc' == Validating(tx.pc.i + 1)
        && Step(st, l) == DoCompareEntry(st, l.t))
  {
    if l.t in st.txs && InClosure(l) {
      ClosureIsNotValidation(st, l);
    }
  }

  /** The only way into a failed one. */
  lemma IntoInvalid(st: State, l: Label)
    requires Step(st, l).Some? && Step(st, l).value.txs[l.t].pc.Invalid?
    ensures l.t in st.txs && Step(st, l).value.txs[l.t].readset == st.txs[l.t].readset
    ensures l.CompareEntry? && st.txs[l.t].pc.Comparing? && Step(st, l) == DoCompareEntry(st, l.t)
  {
    if l.t in st.txs && InClosure(l) {
      ClosureIsNotValidation(st, l);
    }
  }

  /** Between two moments t loaded entry k of this readset. */
  ghost predicate LoadAt(ss: seq<State>, ls: seq<Label>, t: TxId, readset: seq<Slot>, lo: nat, m: nat, hi: nat, k: nat)
    requires |ss| == |ls| + 1
  {
    && lo < m < hi <= |ls| && ls[m] == LoadEntry(t)
    && t in ss[m].txs && ss[m].txs[t].pc == Validating(k) && ss[m].txs[t].readset == readset
    && k < |readset| && readset[k] in ss[m].slots
  }

  /** The head of the cell of an entry. */
  function Head(st: State, readset: seq<Slot>, k: nat): Addr
    requires k < |readset| && readset[k] in st.slots
  {
    st.slots[readset[k]]
  }

  /** The moment of the last load before entry k, or of taking the lock. */
  function Before(l: nat, loads: seq<nat>, k: nat): nat
    requires k <= |loads|
  {
    if k == 0 then l else loads[k - 1]
  }

  /** Entry k was loaded at its moment, after the one before it, and was uncommitted then. */
  ghost predicate PassedAt(ss: seq<State>, ls: seq<Label>, t: TxId, readset: seq<Slot>, l: nat, loads: seq<nat>,
    n: nat, k: nat)
    requires |ss| == |ls| + 1 && k < |loads|
  {
    && LoadAt(ss, ls, t, readset, Before(l, loads, k), loads[k], n, k)
    && VerAt(ss[loads[k]], Head(ss[loads[k]], readset, k)) == 0
  }

  ghost predicate AllPassed(ss: seq<State>, ls: seq<Label>, t: TxId, readset: seq<Slot>, l: nat, loads: seq<nat>,
    n: nat)
    requires |ss| == |ls| + 1
  {
    forall k {:trigger PassedAt(ss, ls, t, readset, l, loads, n, k)} ::
      0 <= k < |loads| ==> PassedAt(ss, ls, t, readset, l, loads, n, k)
  }

  lemma PassedLater(ss: seq<State>, ls: seq<Label>, t: TxId, readset: seq<Slot>, l: nat, loads: seq<nat>, n: nat,
    n': nat)
    requires |ss| == |ls| + 1 && n <= n' <= |ls| && AllPassed(ss, ls, t, readset, l, loads, n)
    ensures AllPassed(ss, ls, t, readset, l, loads, n')
  {
    forall k | 0 <= k < |loads| ensures PassedAt(ss, ls, t, readset, l, loads, n', k) {
      assert PassedAt(ss, ls, t, readset, l, loads, n, k);
    }
  }

  lemma OneMorePassed(ss: seq<State>, ls: seq<Label>, t: TxId, readset: seq<Slot>, l: nat, loads: seq<nat>, n: nat,
    m: nat)
    requires |ss| == |ls| + 1 && AllPassed(ss, ls, t, readset, l, loads, n)
    requires LoadAt(ss, ls, t, readset, Before(l, loads, |loads|), m, n, |loads|)
    requires VerAt(ss[m], Head(ss[m], readset, |loads|)) == 0
    ensures AllPassed(ss, ls, t, readset, l, loads + [m], n)
  {
    var more := loads + [m];
    forall k | 0 <= k < |more| ensures PassedAt(ss, ls, t, readset, l, more, n, k) {
      if k < |loads| {
        assert PassedAt(ss, ls, t, readset, l, loads, n, k);
      }
    }
  }

  /** The entry that is being compared was loaded at m, and its head still has the version it had then. */
  ghost predicate Pending(ss: seq<State>, ls: seq<Label>, t: TxId, lo: nat, m: nat, n: nat)
    requires |ss| == |ls| + 1 && n <= |ls| && t in ss[n].txs && ss[n].txs[t].pc.Comparing?
  {
    var tx := ss[n].txs[t];
    && LoadAt(ss, ls, t, tx.readset, lo, m, n, tx.pc.i)
    && tx.pc.a == Head(ss[m], tx.readset, tx.pc.i) && VerAt(ss[n], tx.pc.a) == VerAt(ss[m], tx.pc.a)
  }

  /** Actions of others leave a pending entry pending: its owner holds the lock. */
  lemma StaysPending(ss: seq<State>, ls: seq<Label>, t: TxId, lo: nat, m: nat, n: nat)
    requires History(ss, ls) && n < |ls| && ls[n].t != t
    requires t in ss[n].txs && ss[n].txs[t].pc.Comparing? && Pending(ss, ls, t, lo, m, n)
    ensures t in ss[n + 1].txs && ss[n + 1].txs[t] == ss[n].txs[t] && Pending(ss, ls, t, lo, m, n + 1)
  {
    HistoryInv(ss, ls, n);
    assert StepAt(ss, ls, n);
    LockFreezesVersions(ss[n], ls[n], t, ss[n].txs[t].pc.a);
  }

  lemma LoadIsPending(ss: seq<State>, ls: seq<Label>, t: TxId, lo: nat, n: nat)
    requires History(ss, ls) && lo < n < |ls| && ls[n] == LoadEntry(t)
    requires t in ss[n + 1].txs && ss[n + 1].txs[t].pc.Comparing?
    ensures Pending(ss, ls, t, lo, n, n + 1)
  {
    assert StepAt(ss, ls, n);
    IntoValidation(ss[n], ls[n]);
    var a := ss[n + 1].txs[t].pc.a;
    assert VerAt(ss[n + 1], a) == VerAt(ss[n], a);
  }

  /**
   What lies behind a transaction in the middle of a validation: it took the lock, and since then loaded
   its readset entries one after the other, each with an uncommitted head.
   */
  lemma {:induction false} ValidationSoFar(ss: seq<State>, ls: seq<Label>, t: TxId, n: nat)
    returns (l: nat, loads: seq<nat>, last: nat)
    requires History(ss, ls) && n <= |ls| && t in ss[n].txs && InValidation(ss[n].txs[t].pc)
    ensures l < n && ls[l] == LockCounter(t) && |loads| == ss[n].txs[t].pc.i
    ensures AllPassed(ss, ls, t, ss[n].txs[t].readset, l, loads, n)
    ensures Before(l, loads, |loads|) < n
    ensures ss[n].txs[t].pc.Comparing? ==> Pending(ss, ls, t, Before(l, loads, |loads|), last, n)
    decreases n
  {
    assert n > 0;
    ComesFrom(ss, ls, t, n - 1);
    if ls[n - 1] == LockCounter(t) {
      l, loads, last := n - 1, [], 0;
    } else if ls[n - 1].t == t {
      l, loads, last := ValidationSoFar(ss, ls, t, n - 1);
      loads, last := OwnStep(ss, ls, t, n - 1, l, loads, last);
    } else {
      l, loads, last := ValidationSoFar(ss, ls, t, n - 1);
      PassedLater(ss, ls, t, ss[n].txs[t].readset, l, loads, n - 1, n);
      if ss[n - 1].txs[t].pc.Comparing? {
        StaysPending(ss, ls, t, Before(l, loads, |loads|), last, n - 1);
      }
    }
  }

  /** A transaction in a validation has just taken the lock, or was in it before with the same readset. */
  lemma ComesFrom(ss: seq<State>, ls: seq<Label>, t: TxId, n: nat)
    requires Trace(ss, ls) && n < |ls| && t in ss[n + 1].txs && InValidation(ss[n + 1].txs[t].pc)
    ensures t in ss[n].txs && ss[n + 1].txs[t].readset == ss[n].txs[t].readset
    ensures ls[n] == LockCounter(t) ==> ss[n + 1].txs[t].pc == Validating(0)
    ensures ls[n] != LockCounter(t) ==> InValidation(ss[n].txs[t].pc)
    ensures ls[n].t != t ==> ss[n + 1].txs[t] == ss[n].txs[t]
  {
    assert StepAt(ss, ls, n);
    if ls[n].t == t {
      IntoValidation(ss[n], ls[n]);
    }
  }

  /** One more load or comparison of the validation itself. */
  lemma OwnStep(ss: seq<State>, ls: seq<Label>, t: TxId, n: nat, l: nat, loads: seq<nat>, last: nat)
    returns (more: seq<nat>, m: nat)
    requires History(ss, ls) && n < |ls| && ls[n].t == t && !ls[n].LockCounter?
    requires t in ss[n].txs && InValidation(ss[n].txs[t].pc)
    requires t in ss[n + 1].txs && InValidation(ss[n + 1].txs[t].pc)
    requires l < n && |loads| == ss[n].txs[t].pc.i && AllPassed(ss, ls, t, ss[n].txs[t].readset, l, loads, n)
    requires Before(l, loads, |loads|) < n
    requires ss[n].txs[t].pc.Comparing? ==> Pending(ss, ls, t, Before(l, loads, |loads|), last, n)
    ensures |more| == ss[n + 1].txs[t].pc.i && AllPassed(ss, ls, t, ss[n + 1].txs[t].readset, l, more, n + 1)
    ensures Before(l, more, |more|) < n + 1
    ensures ss[n + 1].txs[t].pc.Comparing? ==> Pending(ss, ls, t, Before(l, more, |more|), m, n + 1)
  {
    assert StepAt(ss, ls, n);
    IntoValidation(ss[n], ls[n]);
    PassedLater(ss, ls, t, ss[n].txs[t].readset, l, loads, n, n + 1);
    if ls[n].LoadEntry? {
      LoadIsPending(ss, ls, t, Before(l, loads, |loads|), n);
      more, m := loads, n;
    } else {
      HistoryInv(ss, ls, n);
      ComparePassesIffUncommitted(ss[n], t);
      OneMorePassed(ss, ls, t, ss[n].txs[t].readset, l, loads, n + 1, last);
      more, m := loads + [last], last;
    }
  }

  /**
   No commit without validation: when a version is stored, its transaction took the lock before, and
   since then loaded every entry of its readset, in order, each time with an uncommitted head.
   */
  lemma CommitsAreValidated(ss: seq<State>, ls: seq<Label>, t: TxId, n: nat) returns (l: nat, loads: seq<nat>)
    requires History(ss, ls) && n < |ls| && ls[n] == StoreVersion(t)
    ensures t in ss[n].txs && l < n && ls[l] == LockCounter(t)
    ensures |loads| == |ss[n].txs[t].readset| && AllPassed(ss, ls, t, ss[n].txs[t].readset, l, loads, n)
  {
    assert StepAt(ss, ls, n);
    assert DoStoreVersion(ss[n], t).Some?;
    var last;
    l, loads, last := ValidationSoFar(ss, ls, t, n);
  }

  /** A validation fails exactly on its first entry with a committed head. */
  ghost predicate FailedAt(ss: seq<State>, ls: seq<Label>, t: TxId, readset: seq<Slot>, l: nat, loads: seq<nat>,
    m: nat, n: nat)
    requires |ss| == |ls| + 1
  {
    && AllPassed(ss, ls, t, readset, l, loads, n)
    && LoadAt(ss, ls, t, readset, Before(l, loads, |loads|), m, n, |loads|)
    && VerAt(ss[m], Head(ss[m], readset, |loads|)) > 0
  }

  lemma FailsLater(ss: seq<State>, ls: seq<Label>, t: TxId, readset: seq<Slot>, l: nat, loads: seq<nat>, m: nat, n: nat)
    requires |ss| == |ls| + 1 && n < |ls| && FailedAt(ss, ls, t, readset, l, loads, m, n)
    ensures FailedAt(ss, ls, t, readset, l, loads, m, n + 1)
  {
    PassedLater(ss, ls, t, readset, l, loads, n, n + 1);
  }

  /** No failure without a cause: the entry that failed had a committed head when it was loaded. */
  lemma {:induction false} FailuresAreJustified(ss: seq<State>, ls: seq<Label>, t: TxId, n: nat)
    returns (l: nat, loads: seq<nat>, m: nat)
    requires History(ss, ls) && n <= |ls| && t in ss[n].txs && ss[n].txs[t].pc.Invalid?
    ensures l < n && ls[l] == LockCounter(t)
    ensures FailedAt(ss, ls, t, ss[n].txs[t].readset, l, loads, m, n)
    decreases n
  {
    assert StepAt(ss, ls, n - 1) by {
      assert n > 0;
    }
    if ls[n - 1].t != t {
      l, loads, m := FailuresAreJustified(ss, ls, t, n - 1);
      FailsLater(ss, ls, t, ss[n].txs[t].readset, l, loads, m, n - 1);
    } else {
      IntoInvalid(ss[n - 1], ls[n - 1]);
      l, loads, m := ValidationSoFar(ss, ls, t, n - 1);
      HistoryInv(ss, ls, n - 1);
      ComparePassesIffUncommitted(ss[n - 1], t);
      PassedLater(ss, ls, t, ss[n].txs[t].readset, l, loads, n - 1, n);
    }
  }

  lemma ClosureDoesNotAbort(st: State, l: Label)
    requires l.t in st.txs && InClosure(l) && StepInClosure(st, l).Some?
    ensures !StepInClosure(st, l).value.txs[l.t].pc.RollingBack?
  {
  }

  lemma IntoRollback(st: State, l: Label)
    requires l.t in st.txs && Step(st, l).Some? && Step(st, l).value.txs[l.t].pc.RollingBack?
    ensures || (l == StartAbort(l.t) && st.txs[l.t].pc.Running?)
            || (l == Unlock(l.t) && st.txs[l.t].pc.Invalid?)
            || (l == RollbackOne(l.t) && st.txs[l.t].pc.RollingBack?)
  {
    if InClosure(l) {
      ClosureDoesNotAbort(st, l);
    }
  }

  /** A transaction begins to roll back only when its closure ended, or after a validation that failed with a cause. */
  lemma AbortsAreJustified(ss: seq<State>, ls: seq<Label>, t: TxId, n: nat)
    returns (l: nat, loads: seq<nat>, m: nat)
    requires History(ss, ls) && n < |ls| && ls[n].t == t && t in ss[n].txs
    requires t in ss[n + 1].txs && ss[n + 1].txs[t].pc.RollingBack? && !ss[n].txs[t].pc.RollingBack?
    ensures || (ls[n] == StartAbort(t) && ss[n].txs[t].pc.Running?)
            || (&& ls[n] == Unlock(t) && l < n && ls[l] == LockCounter(t)
                && FailedAt(ss, ls, t, ss[n].txs[t].readset, l, loads, m, n))
  {
    assert StepAt(ss, ls, n);
    IntoRollback(ss[n], ls[n]);
    l, loads, m := 0, [], 0;
    if ls[n].Unlock? {
      l, loads, m := FailuresAreJustified(ss, ls, t, n);
    }
  }
}
