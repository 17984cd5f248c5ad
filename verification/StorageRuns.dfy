/** Whole histories of allocations, writes, flushes and fetches over one address space. */
module StorageRuns {
  import opened Basics
  import opened Rounding
  import opened Spaces
  import opened Backing
  import opened Allocation

  /**
   The address space, the active page of each allocator, and two histories: everything ever handed
   out, the slices of the allocators and the pages of the fetches, and every page taken for it.
   */
  datatype Machine = Machine(sp: Space, actives: map<nat, Slice>, handed: seq<Slice>, taken: set<nat>)

  datatype Op =
    | Alloc(id: nat, size: nat)
    | FetchOp(slice: Slice)
    | FlushOp(slice: Slice)
    | WriteOp(slice: Slice, data: seq<byte>)

  /** What callers owe: arguments that meet the assertions, and no write into a page that backs another. */
  ghost predicate Legal(sp: Space, op: Op) {
    match op
    case Alloc(_, _) => true
    case FetchOp(s) => Sized(sp, s)
    case FlushOp(s) => Sized(sp, s) && (Resolves(sp, s) ==> SourceOf(sp, s).byteAddressable)
    case WriteOp(s, data) =>
      && Sized(sp, s) && (Accepted(sp, s) ==> OnePage(s, sp.pagesize))
      && |data| == s.len && (Resolves(sp, s) ==> SourceOf(sp, s).byteAddressable)
      && !IsTarget(sp, PageOf(s.offset, sp.pagesize))
  }

  function Active(m: Machine, id: nat): Option<Slice> {
    if id in m.actives then Some(m.actives[id]) else None
  }

  function AfterBump(m: Machine, id: nat, b: Bumped): Machine {
    Machine(m.sp.(sources := b.sources),
            if b.active.Some? then m.actives[id := b.active.value] else m.actives - {id},
            if b.result.Ok? then m.handed + [b.result.value] else m.handed,
            if b.page.Some? then m.taken + {b.page.value.offset} else m.taken)
  }

  function AfterWrite(sp: Space, s: Slice, data: seq<byte>): Space
    requires WellFormed(sp) && |data| == s.len
  {
    if Usable(sp, s) && Resolves(sp, s) then
      PageInSource(sp, s);
      sp.(sources := Store(sp.sources, s.offset, data))
    else sp
  }

  function Step(m: Machine, op: Op): Machine
    requires WellFormed(m.sp) && Legal(m.sp, op)
  {
    match op
    case Alloc(id, size) => AfterBump(m, id, Bump(Active(m, id), m.sp.sources, size))
    case FetchOp(s) =>
      if !Accepted(m.sp, s) || Fetch(m.sp, s).Err? then m
      else
        var r := Fetch(m.sp, s);
        var page := Slice(PageOf(r.value.1.offset, m.sp.pagesize), m.sp.pagesize);
        m.(sp := r.value.0, handed := m.handed + [page], taken := m.taken + {page.offset})
    case FlushOp(s) =>
      if !Accepted(m.sp, s) || Flush(m.sp, s).Err? then m else m.(sp := Flush(m.sp, s).value.0)
    case WriteOp(s, data) => m.(sp := AfterWrite(m.sp, s, data))
  }

  // ---------------------------------------------------------------- pages

  /** A page that is free, in use, or backs another page. */
  ghost predicate Accounted(sp: Space, taken: set<nat>, a: nat) {
    FreeAt(sp.sources, a) || a in taken || IsTarget(sp, a)
  }

  ghost predicate TakenOk(sp: Space, a: nat) {
    && Aligned(a, sp.pagesize) && InSource(sp.sources, a, sp.pagesize)
    && !FreeAt(sp.sources, a) && !IsTarget(sp, a)
  }

  /** Every page is accounted for as it was at the start, in exactly one way. */
  ghost predicate PagesInv(start: Space, sp: Space, taken: set<nat>) {
    && WellFormed(sp) && sp.pagesize == start.pagesize
    && (forall a {:trigger TakenOk(sp, a)} :: a in taken ==> TakenOk(sp, a))
    && (forall a {:trigger Accounted(sp, taken, a)} :: Accounted(sp, taken, a) <==> Accounted(start, {}, a))
  }

  lemma TargetsSame(sp: Space, tt: seq<Source>, a: nat)
    ensures IsTarget(sp.(sources := tt), a) <==> IsTarget(sp, a)
  {
  }

  lemma StoreKeepsPages(start: Space, sp: Space, taken: set<nat>, tt: seq<Source>)
    requires PagesInv(start, sp, taken) && SameShape(sp.sources, tt)
    ensures PagesInv(start, sp.(sources := tt), taken)
  {
    StoreKeeps(sp, tt);
    FreeSameShape(sp.sources, tt, sp.pagesize);
    var sq := sp.(sources := tt);
    forall a | a in taken ensures TakenOk(sq, a) {
      assert TakenOk(sp, a);
      InSourceSame(sp.sources, tt, a, sp.pagesize);
      TargetsSame(sp, tt, a);
    }
    forall a ensures Accounted(sq, taken, a) <==> Accounted(start, {}, a) {
      assert Accounted(sp, taken, a) <==> Accounted(start, {}, a);
      TargetsSame(sp, tt, a);
    }
  }

  lemma TakeKeepsPages(start: Space, sp: Space, taken: set<nat>, tt: seq<Source>, page: Slice)
    requires PagesInv(start, sp, taken) && Taken(sp.sources, tt, page, sp.pagesize)
    ensures PagesInv(start, sp.(sources := tt), taken + {page.offset}) && page.offset !in taken
  {
    TakeKeeps(sp, tt, page);
    var sq, more := sp.(sources := tt), taken + {page.offset};
    forall a | a in more ensures TakenOk(sq, a) {
      if a in taken {
        assert TakenOk(sp, a);
        InSourceSame(sp.sources, tt, a, sp.pagesize);
      }
      TargetsSame(sp, tt, a);
    }
    forall a ensures Accounted(sq, more, a) <==> Accounted(start, {}, a) {
      assert Accounted(sp, taken, a) <==> Accounted(start, {}, a);
      TargetsSame(sp, tt, a);
    }
    assert page.offset in taken ==> TakenOk(sp, page.offset);
  }

  lemma NewTargetKeepsPages(start: Space, sp: Space, taken: set<nat>, key: nat)
    requires PagesInv(start, sp, taken) && AllocateBacking(sp, key).Ok?
    ensures PagesInv(start, AllocateBacking(sp, key).value, taken)
  {
    if key !in sp.backing {
      BackingKeeps(sp, key);
      var i := BestPersistent(sp.sources).value;
      TakeIsTaken(sp.sources, i, sp.pagesize);
      TargetAdds(sp, key);
      var sq := AllocateBacking(sp, key).value;
      forall a | a in taken ensures TakenOk(sq, a) {
        assert TakenOk(sp, a);
        InSourceSame(sp.sources, sq.sources, a, sp.pagesize);
      }
      forall a ensures Accounted(sq, taken, a) <==> Accounted(start, {}, a) {
        assert Accounted(sp, taken, a) <==> Accounted(start, {}, a);
      }
    }
  }

  /** A new backing page is exactly one page that was free. */
  lemma TargetAdds(sp: Space, key: nat)
    requires WellFormed(sp) && key !in sp.backing && AllocateBacking(sp, key).Ok?
    ensures var sq := AllocateBacking(sp, key).value; var t := sq.backing[key].slice.offset;
      && (forall a :: IsTarget(sq, a) <==> IsTarget(sp, a) || a == t)
      && FreeAt(sp.sources, t) && (forall a :: FreeAt(sq.sources, a) <==> FreeAt(sp.sources, a) && a != t)
  {
    var i := BestPersistent(sp.sources).value;
    TakeIsTaken(sp.sources, i, sp.pagesize);
    var sq := AllocateBacking(sp, key).value;
    forall a ensures IsTarget(sq, a) <==> IsTarget(sp, a) || a == sq.backing[key].slice.offset {
      if IsTarget(sp, a) {
        var k :| k in sp.backing && sp.backing[k].slice.offset == a;
        assert k in sq.backing && sq.backing[k] == sp.backing[k];
      }
    }
  }

  // ---------------------------------------------------------------- slices

  predicate Disjoint(s: Slice, t: Slice) {
    s.offset + s.len <= t.offset || t.offset + t.len <= s.offset
  }

  predicate Within(s: Slice, a: nat, p: nat) {
    a <= s.offset && s.offset + s.len <= a + p
  }

  ghost predicate InTaken(s: Slice, taken: set<nat>, p: nat) {
    exists a {:trigger Within(s, a, p)} :: a in taken && Within(s, a, p)
  }

  /** All slices lie in one taken page each, and no two of them overlap, handed out or still to be. */
  ghost predicate SlicesInv(p: nat, taken: set<nat>, actives: map<nat, Slice>, handed: seq<Slice>) {
    && (forall i {:trigger InTaken(handed[i], taken, p)} :: 0 <= i < |handed| ==> InTaken(handed[i], taken, p))
    && (forall d {:trigger InTaken(actives[d], taken, p)} :: d in actives ==> InTaken(actives[d], taken, p))
    && (forall i, j {:trigger Disjoint(handed[i], handed[j])} ::
          0 <= i < j < |handed| ==> Disjoint(handed[i], handed[j]))
    && (forall i, d {:trigger Disjoint(handed[i], actives[d])} ::
          0 <= i < |handed| && d in actives ==> Disjoint(handed[i], actives[d]))
    && (forall d, e {:trigger Disjoint(actives[d], actives[e])} ::
          d in actives && e in actives && d != e ==> Disjoint(actives[d], actives[e]))
  }

  lemma MoreTaken(s: Slice, taken: set<nat>, more: set<nat>, p: nat)
    requires InTaken(s, taken, p) && taken <= more
    ensures InTaken(s, more, p)
  {
    var a :| a in taken && Within(s, a, p);
    assert a in more;
  }

  lemma TakenGrows(p: nat, taken: set<nat>, more: set<nat>, actives: map<nat, Slice>, handed: seq<Slice>)
    requires SlicesInv(p, taken, actives, handed) && taken <= more
    ensures SlicesInv(p, more, actives, handed)
  {
    forall i | 0 <= i < |handed| ensures InTaken(handed[i], more, p) {
      MoreTaken(handed[i], taken, more, p);
    }
    forall d | d in actives ensures InTaken(actives[d], more, p) {
      MoreTaken(actives[d], taken, more, p);
    }
  }

  lemma DropActive(p: nat, taken: set<nat>, actives: map<nat, Slice>, handed: seq<Slice>, id: nat)
    requires SlicesInv(p, taken, actives, handed)
    ensures SlicesInv(p, taken, actives - {id}, handed)
  {
    var rest := actives - {id};
    forall d | d in rest ensures InTaken(rest[d], taken, p) {
      assert InTaken(actives[d], taken, p);
    }
    forall i, d | 0 <= i < |handed| && d in rest ensures Disjoint(handed[i], rest[d]) {
      assert Disjoint(handed[i], actives[d]);
    }
    forall d, e | d in rest && e in rest && d != e ensures Disjoint(rest[d], rest[e]) {
      assert Disjoint(actives[d], actives[e]);
    }
  }

  /** Whatever lies in taken pages is disjoint from a page that was not taken. */
  lemma FreshIsDisjoint(s: Slice, taken: set<nat>, page: Slice, p: nat)
    requires p > 0 && InTaken(s, taken, p) && page.offset !in taken && page.len == p && Aligned(page.offset, p)
    requires forall a :: a in taken ==> Aligned(a, p)
    ensures Disjoint(s, page) && Disjoint(page, s)
  {
    var a :| a in taken && Within(s, a, p);
    PagesApart(a, page.offset, p);
  }

  /** A fresh page can become an allocator's active page. */
  lemma NewActive(p: nat, taken: set<nat>, actives: map<nat, Slice>, handed: seq<Slice>, id: nat, page: Slice)
    requires p > 0 && SlicesInv(p, taken, actives, handed)
    requires page.offset !in taken && page.len == p && Aligned(page.offset, p)
    requires forall a :: a in taken ==> Aligned(a, p)
    ensures SlicesInv(p, taken + {page.offset}, actives[id := page], handed)
  {
    var now, more := actives[id := page], taken + {page.offset};
    TakenGrows(p, taken, more, actives, handed);
    assert Within(page, page.offset, p);
    forall d | d in now ensures InTaken(now[d], more, p) {
      assert d != id ==> InTaken(actives[d], more, p);
    }
    forall i, d | 0 <= i < |handed| && d in now ensures Disjoint(handed[i], now[d]) {
      assert InTaken(handed[i], taken, p);
      if d == id {
        FreshIsDisjoint(handed[i], taken, page, p);
      } else {
        assert Disjoint(handed[i], actives[d]);
      }
    }
    forall d, e | d in now && e in now && d != e ensures Disjoint(now[d], now[e]) {
      if d == id {
        assert InTaken(actives[e], taken, p);
        FreshIsDisjoint(actives[e], taken, page, p);
      } else if e == id {
        assert InTaken(actives[d], taken, p);
        FreshIsDisjoint(actives[d], taken, page, p);
      } else {
        assert Disjoint(actives[d], actives[e]);
      }
    }
  }

  lemma PartInTaken(s: Slice, t: Slice, taken: set<nat>, p: nat)
    requires InTaken(s, taken, p) && Within(t, s.offset, s.len)
    ensures InTaken(t, taken, p)
  {
    var a :| a in taken && Within(s, a, p);
    assert Within(t, a, p);
  }

  /** Handing out the front of an active page. */
  lemma Carve(p: nat, taken: set<nat>, actives: map<nat, Slice>, handed: seq<Slice>, id: nat, size: nat)
    requires SlicesInv(p, taken, actives, handed) && id in actives && size <= actives[id].len
    ensures var v := Consume(actives[id], size, size).value;
      SlicesInv(p, taken, actives[id := v.1], handed + [v.0])
  {
    var s := actives[id];
    var v := Consume(s, size, size).value;
    var now, out := actives[id := v.1], handed + [v.0];
    assert InTaken(s, taken, p);
    PartInTaken(s, v.0, taken, p);
    PartInTaken(s, v.1, taken, p);
    forall i | 0 <= i < |out| ensures InTaken(out[i], taken, p) {
      assert i < |handed| ==> InTaken(handed[i], taken, p);
    }
    forall d | d in now ensures InTaken(now[d], taken, p) {
      assert d != id ==> InTaken(actives[d], taken, p);
    }
    forall i, j | 0 <= i < j < |out| ensures Disjoint(out[i], out[j]) {
      assert j < |handed| ==> Disjoint(handed[i], handed[j]);
      assert Disjoint(handed[i], actives[id]);
    }
    forall i, d | 0 <= i < |out| && d in now ensures Disjoint(out[i], now[d]) {
      CarveApart(actives, handed, id, size, i, d);
    }
    forall d, e | d in now && e in now && d != e ensures Disjoint(now[d], now[e]) {
      assert Disjoint(actives[d], actives[e]);
    }
  }

  lemma CarveApart(actives: map<nat, Slice>, handed: seq<Slice>, id: nat, size: nat, i: nat, d: nat)
    requires id in actives && d in actives && size <= actives[id].len && i <= |handed|
    requires i < |handed| ==> Disjoint(handed[i], actives[d])
    requires d != id ==> Disjoint(actives[id], actives[d])
    ensures var v := Consume(actives[id], size, size).value;
      Disjoint((handed + [v.0])[i], actives[id := v.1][d])
  {
  }

  // ---------------------------------------------------------------- every step keeps both

  ghost predicate Inv(start: Space, m: Machine) {
    PagesInv(start, m.sp, m.taken) && SlicesInv(start.pagesize, m.taken, m.actives, m.handed)
  }

  lemma TakenAreAligned(start: Space, m: Machine)
    requires Inv(start, m)
    ensures forall a :: a in m.taken ==> Aligned(a, start.pagesize)
  {
    forall a | a in m.taken ensures Aligned(a, start.pagesize) {
      assert TakenOk(m.sp, a);
    }
  }

  /** The machine after an allocator made a fresh page its active one. */
  function WithPage(m: Machine, id: nat, tt: seq<Source>, page: Slice): Machine {
    Machine(m.sp.(sources := tt), m.actives[id := page], m.handed, m.taken + {page.offset})
  }

  lemma PageKeeps(start: Space, m: Machine, id: nat, tt: seq<Source>, page: Slice)
    requires Inv(start, m) && Taken(m.sp.sources, tt, page, m.sp.pagesize)
    ensures Inv(start, WithPage(m, id, tt, page))
  {
    TakeKeepsPages(start, m.sp, m.taken, tt, page);
    TakenAreAligned(start, m);
    NewActive(start.pagesize, m.taken, m.actives, m.handed, id, page);
  }

  lemma ServeKeeps(start: Space, m: Machine, id: nat, size: nat)
    requires Inv(start, m) && id in m.actives
    ensures Inv(start, AfterBump(m, id, Serve(m.actives[id], m.sp.sources, None, size)))
  {
    if size <= m.actives[id].len {
      Carve(start.pagesize, m.taken, m.actives, m.handed, id, size);
    } else {
      assert m.actives[id := m.actives[id]] == m.actives;
    }
  }

  lemma AllocKeeps(start: Space, m: Machine, id: nat, size: nat)
    requires Inv(start, m)
    ensures Inv(start, Step(m, Alloc(id, size)))
  {
    var active := Active(m, id);
    if active.Some? && size <= active.value.len {
      ServeKeeps(start, m, id, size);
    } else if AllocPage(m.sp.sources).Err? {
      DropActive(start.pagesize, m.taken, m.actives, m.handed, id);
    } else {
      FreshPageKeeps(start, m, id, size);
    }
  }

  lemma FreshPageKeeps(start: Space, m: Machine, id: nat, size: nat)
    requires Inv(start, m) && AllocPage(m.sp.sources).Ok?
    ensures var v := AllocPage(m.sp.sources).value; Inv(start, AfterBump(m, id, Serve(v.1, v.0, Some(v.1), size)))
  {
    var v := AllocPage(m.sp.sources).value;
    AllocIsTaken(m.sp.sources, m.sp.pagesize);
    PageKeeps(start, m, id, v.0, v.1);
    ServeKeeps(start, WithPage(m, id, v.0, v.1), id, size);
    var left := Serve(v.1, v.0, Some(v.1), size).active.value;
    assert m.actives[id := v.1][id := left] == m.actives[id := left];
  }

  lemma FetchStepKeeps(start: Space, m: Machine, s: Slice)
    requires Inv(start, m) && Sized(m.sp, s)
    ensures Inv(start, Step(m, FetchOp(s)))
  {
    if Accepted(m.sp, s) && Fetch(m.sp, s).Ok? {
      var tt, page := FetchTakesPage(m.sp, s);
      TakeKeepsPages(start, m.sp, m.taken, tt, page);
      StoreKeepsPages(start, m.sp.(sources := tt), m.taken + {page.offset}, Fetch(m.sp, s).value.0.sources);
      TakenAreAligned(start, m);
      HandPage(start.pagesize, m.taken, m.actives, m.handed, page);
    }
  }

  /** A fresh page can be handed out whole. */
  lemma HandPage(p: nat, taken: set<nat>, actives: map<nat, Slice>, handed: seq<Slice>, page: Slice)
    requires p > 0 && SlicesInv(p, taken, actives, handed)
    requires page.offset !in taken && page.len == p && Aligned(page.offset, p)
    requires forall a :: a in taken ==> Aligned(a, p)
    ensures SlicesInv(p, taken + {page.offset}, actives, handed + [page])
  {
    var more, out := taken + {page.offset}, handed + [page];
    TakenGrows(p, taken, more, actives, handed);
    assert Within(page, page.offset, p);
    forall i | 0 <= i < |out| ensures InTaken(out[i], more, p) {
      assert i < |handed| ==> InTaken(handed[i], more, p);
    }
    forall i, j | 0 <= i < j < |out| ensures Disjoint(out[i], out[j]) {
      assert j < |handed| ==> Disjoint(handed[i], handed[j]);
      assert InTaken(handed[i], taken, p);
      if j == |handed| {
        FreshIsDisjoint(handed[i], taken, page, p);
      }
    }
    forall i, d | 0 <= i < |out| && d in actives ensures Disjoint(out[i], actives[d]) {
      assert i < |handed| ==> Disjoint(handed[i], actives[d]);
      assert InTaken(actives[d], taken, p);
      if i == |handed| {
        FreshIsDisjoint(actives[d], taken, page, p);
      }
    }
  }

  lemma FlushStepKeeps(start: Space, m: Machine, s: Slice)
    requires Inv(start, m) && Legal(m.sp, FlushOp(s))
    ensures Inv(start, Step(m, FlushOp(s)))
  {
    if Accepted(m.sp, s) && Flush(m.sp, s).Ok? && !SourceOf(m.sp, s).persistent {
      var b, key := FlushIsWriteBack(m.sp, s);
      NewTargetKeepsPages(start, m.sp, m.taken, key);
      StoreKeepsPages(start, b, m.taken, WriteBack(b, key).sources);
    }
  }

  lemma StepKeeps(start: Space, m: Machine, op: Op)
    requires Inv(start, m) && Legal(m.sp, op)
    ensures Inv(start, Step(m, op))
  {
    match op
    case Alloc(id, size) => AllocKeeps(start, m, id, size);
    case FetchOp(s) => FetchStepKeeps(start, m, s);
    case FlushOp(s) => FlushStepKeeps(start, m, s);
    case WriteOp(s, data) =>
      StoreKeepsPages(start, m.sp, m.taken, AfterWrite(m.sp, s, data).sources);
  }

  // ---------------------------------------------------------------- histories

  /** The i-th operation is legal when its turn comes and leads to the next state. */
  ghost predicate StepAt(ms: seq<Machine>, ops: seq<Op>, i: nat)
    requires |ms| == |ops| + 1 && i < |ops|
  {
    WellFormed(ms[i].sp) && Legal(ms[i].sp, ops[i]) && ms[i + 1] == Step(ms[i], ops[i])
  }

  /** A history: the operations, and the states before, between and after them. */
  ghost predicate IsRun(ms: seq<Machine>, ops: seq<Op>) {
    && |ms| == |ops| + 1
    && forall i {:trigger StepAt(ms, ops, i)} :: 0 <= i < |ops| ==> StepAt(ms, ops, i)
  }

  lemma {:induction false} RunKeeps(start: Space, ms: seq<Machine>, ops: seq<Op>, k: nat)
    requires IsRun(ms, ops) && Inv(start, ms[0]) && k <= |ops|
    ensures Inv(start, ms[k])
  {
    if k > 0 {
      RunKeeps(start, ms, ops, k - 1);
      assert StepAt(ms, ops, k - 1);
      StepKeeps(start, ms[k - 1], ops[k - 1]);
    }
  }

  function Initial(start: Space): Machine {
    Machine(start, map[], [], {})
  }

  lemma InitialInv(start: Space)
    requires WellFormed(start)
    ensures Inv(start, Initial(start))
  {
  }

  /** Where an initially free page lies: in its source, behind the header and the meta page. */
  ghost predicate BehindMeta(start: Space, a: nat) {
    exists i :: 0 <= i < |start.sources| && start.sources[i].base + 2 * start.pagesize <= a
                && a + start.pagesize <= start.sources[i].base + |start.sources[i].bytes|
  }

  lemma FreeIsBehindMeta(start: Space, a: nat)
    requires WellFormed(start) && FreeAt(start.sources, a)
    ensures BehindMeta(start, a)
  {
    var i :| 0 <= i < |start.sources| && IsFree(start.sources[i], a);
    var k :| 0 <= k < |start.sources[i].free| && a == start.sources[i].base + start.sources[i].free[k].offset;
    assert SourceOk(start.sources[i], start.pagesize);
    FreeOffset(start.sources[i], start.pagesize, k);
  }

  /** Pages never come back: what is a backing page stays one. */
  lemma TargetsGrow(m: Machine, op: Op, a: nat)
    requires WellFormed(m.sp) && Legal(m.sp, op) && IsTarget(m.sp, a)
    ensures IsTarget(Step(m, op).sp, a)
  {
    var k :| k in m.sp.backing && m.sp.backing[k].slice.offset == a;
    if op.FlushOp? && Accepted(m.sp, op.slice) && Flush(m.sp, op.slice).Ok? && !SourceOf(m.sp, op.slice).persistent {
      var key := PageOf(op.slice.offset, m.sp.pagesize);
      BackingKeeps(m.sp, key);
    }
    assert k in Step(m, op).sp.backing && Step(m, op).sp.backing[k].slice.offset == a;
  }

  lemma {:induction false} TargetsStay(ms: seq<Machine>, ops: seq<Op>, k: nat, a: nat)
    requires IsRun(ms, ops) && k <= |ops| && IsTarget(ms[0].sp, a)
    ensures IsTarget(ms[k].sp, a)
  {
    if k > 0 {
      TargetsStay(ms, ops, k - 1, a);
      assert StepAt(ms, ops, k - 1);
      TargetsGrow(ms[k - 1], ops[k - 1], a);
    }
  }

  /** Over any history of any number of allocators, two slices handed out never overlap. */
  lemma AllocationsAreDisjoint(start: Space, ms: seq<Machine>, ops: seq<Op>, n: Machine, i: nat, j: nat)
    requires WellFormed(start) && IsRun(ms, ops) && ms[0] == Initial(start) && n in ms && i < j < |n.handed|
    ensures Disjoint(n.handed[i], n.handed[j])
    ensures n.handed[i].len > 0 && n.handed[j].len > 0 ==> n.handed[i].offset != n.handed[j].offset
  {
    InitialInv(start);
    var k :| 0 <= k < |ms| && ms[k] == n;
    RunKeeps(start, ms, ops, k);
  }

  /** Each lies inside one page that was free at the start, so behind the header and the meta page. */
  lemma AllocationsLieInPages(start: Space, ms: seq<Machine>, ops: seq<Op>, n: Machine, i: nat)
    requires WellFormed(start) && IsRun(ms, ops) && ms[0] == Initial(start) && n in ms && i < |n.handed|
    ensures exists a {:trigger Within(n.handed[i], a, start.pagesize)} ::
      a in n.taken && Within(n.handed[i], a, start.pagesize) && FreeAt(start.sources, a) && BehindMeta(start, a)
  {
    InitialInv(start);
    var k :| 0 <= k < |ms| && ms[k] == n;
    RunKeeps(start, ms, ops, k);
    assert InTaken(n.handed[i], n.taken, start.pagesize);
    var a :| a in n.taken && Within(n.handed[i], a, start.pagesize);
    assert TakenOk(n.sp, a) && Accounted(n.sp, n.taken, a);
    assert Accounted(start, {}, a);
    if IsTarget(start, a) {
      TargetsStay(ms, ops, k, a);
    }
    FreeIsBehindMeta(start, a);
  }

  /** No page is lost and none is in two hands: free, taken and backing pages partition the initial ones. */
  lemma PagesAreAccountedFor(start: Space, ms: seq<Machine>, ops: seq<Op>, n: Machine, a: nat)
    requires WellFormed(start) && IsRun(ms, ops) && ms[0] == Initial(start) && n in ms
    ensures FreeAt(start.sources, a) || IsTarget(start, a)
      <==> FreeAt(n.sp.sources, a) || a in n.taken || IsTarget(n.sp, a)
    ensures !(FreeAt(n.sp.sources, a) && a in n.taken)
    ensures !(a in n.taken && IsTarget(n.sp, a)) && !(FreeAt(n.sp.sources, a) && IsTarget(n.sp, a))
  {
    InitialInv(start);
    var i :| 0 <= i < |ms| && ms[i] == n;
    RunKeeps(start, ms, ops, i);
    assert Accounted(n.sp, n.taken, a) <==> Accounted(start, {}, a);
    assert a in n.taken ==> TakenOk(n.sp, a);
    if IsTarget(n.sp, a) {
      var k :| k in n.sp.backing && n.sp.backing[k].slice.offset == a;
      assert TargetOk(n.sp.sources, n.sp.backing[k], n.sp.pagesize);
    }
  }

  /** Two pages are never backed by the same page. */
  lemma BackingIsInjective(start: Space, ms: seq<Machine>, ops: seq<Op>, n: Machine, k: nat, l: nat)
    requires WellFormed(start) && IsRun(ms, ops) && ms[0] == Initial(start) && n in ms
    requires k in n.sp.backing && l in n.sp.backing && k != l
    ensures n.sp.backing[k].slice.offset != n.sp.backing[l].slice.offset
    ensures Disjoint(n.sp.backing[k].slice, n.sp.backing[l].slice)
  {
    InitialInv(start);
    var i :| 0 <= i < |ms| && ms[i] == n;
    RunKeeps(start, ms, ops, i);
    assert Apart(n.sp.backing[k], n.sp.backing[l]);
    assert TargetOk(n.sp.sources, n.sp.backing[k], n.sp.pagesize);
    assert TargetOk(n.sp.sources, n.sp.backing[l], n.sp.pagesize);
    PagesApart(n.sp.backing[k].slice.offset, n.sp.backing[l].slice.offset, n.sp.pagesize);
  }

  // ---------------------------------------------------------------- bytes that stay

  /** The operation does not write into the page at this address. */
  ghost predicate Spares(sp: Space, op: Op, a: nat) {
    match op
    case Alloc(_, _) => true
    case FetchOp(_) => true
    case FlushOp(s) =>
      var key := PageOf(s.offset, sp.pagesize);
      key in sp.backing ==> sp.backing[key].slice.offset != a
    case WriteOp(s, _) => PageOf(s.offset, sp.pagesize) != a
  }

  /** A mapped page in use. */
  ghost predicate InUse(sp: Space, a: nat) {
    Aligned(a, sp.pagesize) && InSource(sp.sources, a, sp.pagesize) && !FreeAt(sp.sources, a)
  }

  /** Writing whole pages elsewhere leaves a page alone. */
  lemma StoreSparesPage(ss: seq<Source>, b: nat, data: seq<byte>, a: nat, p: nat)
    requires p > 0 && |data| == p && Aligned(a, p) && Aligned(b, p) && a != b
    requires InSource(ss, a, p) && InSource(ss, b, p)
    ensures InSource(Store(ss, b, data), a, p) && Load(Store(ss, b, data), a, p) == Load(ss, a, p)
  {
    PagesApart(a, b, p);
    LoadElsewhere(ss, b, data, a, p);
  }

  lemma FetchSpares(sp: Space, s: Slice, a: nat)
    requires WellFormed(sp) && Accepted(sp, s) && Fetch(sp, s).Ok? && InUse(sp, a)
    ensures var tt := Fetch(sp, s).value.0.sources;
      InSource(tt, a, sp.pagesize) && Load(tt, a, sp.pagesize) == Load(sp.sources, a, sp.pagesize) && !FreeAt(tt, a)
  {
    var tt, page := FetchTakesPage(sp, s);
    var data := Load(sp.sources, PageOf(s.offset, sp.pagesize), sp.pagesize);
    LoadSameBytes(sp.sources, tt, a, sp.pagesize);
    StoreSparesPage(tt, page.offset, data, a, sp.pagesize);
    FreeSameShape(tt, Store(tt, page.offset, data), sp.pagesize);
  }

  lemma WriteBackSpares(b: Space, key: nat, a: nat)
    requires WellFormed(b) && key in b.backing && InSource(b.sources, key, b.pagesize)
    requires InUse(b, a) && b.backing[key].slice.offset != a
    ensures var tt := WriteBack(b, key).sources;
      InSource(tt, a, b.pagesize) && Load(tt, a, b.pagesize) == Load(b.sources, a, b.pagesize) && !FreeAt(tt, a)
  {
    assert TargetOk(b.sources, b.backing[key], b.pagesize);
    StoreSparesPage(b.sources, b.backing[key].slice.offset, Load(b.sources, key, b.pagesize), a, b.pagesize);
    FreeSameShape(b.sources, WriteBack(b, key).sources, b.pagesize);
  }

  lemma FlushSpares(sp: Space, s: Slice, a: nat)
    requires WellFormed(sp) && Accepted(sp, s) && Flush(sp, s).Ok? && InUse(sp, a) && Spares(sp, FlushOp(s), a)
    ensures var tt := Flush(sp, s).value.0.sources;
      InSource(tt, a, sp.pagesize) && Load(tt, a, sp.pagesize) == Load(sp.sources, a, sp.pagesize) && !FreeAt(tt, a)
  {
    if !SourceOf(sp, s).persistent {
      var b, key := FlushIsWriteBack(sp, s);
      if key !in sp.backing {
        TargetAdds(sp, key);
      }
      LoadSameBytes(sp.sources, b.sources, a, sp.pagesize);
      WriteBackSpares(b, key, a);
    }
  }

  lemma WriteSpares(sp: Space, s: Slice, data: seq<byte>, b: nat, n: nat)
    requires WellFormed(sp) && |data| == s.len && InSource(sp.sources, b, n)
    requires Disjoint(s, Slice(b, n))
    ensures var tt := AfterWrite(sp, s, data).sources;
      InSource(tt, b, n) && Load(tt, b, n) == Load(sp.sources, b, n)
  {
    if Usable(sp, s) && Resolves(sp, s) {
      PageInSource(sp, s);
      LoadElsewhere(sp.sources, s.offset, data, b, n);
    }
  }

  /** A page in use that an operation does not write keeps its bytes and stays in use. */
  lemma StepSpares(start: Space, m: Machine, op: Op, a: nat)
    requires Inv(start, m) && Legal(m.sp, op) && InUse(m.sp, a) && Spares(m.sp, op, a)
    ensures var sp := Step(m, op).sp; var p := start.pagesize;
      InUse(sp, a) && Load(sp.sources, a, p) == Load(m.sp.sources, a, p)
  {
    StepKeeps(start, m, op);
    match op
    case Alloc(id, size) =>
      AllocSpares(m.sp.sources, Active(m, id), size, a, m.sp.pagesize);
    case FetchOp(s) =>
      if Accepted(m.sp, s) && Fetch(m.sp, s).Ok? {
        FetchSpares(m.sp, s, a);
      }
    case FlushOp(s) =>
      if Accepted(m.sp, s) && Flush(m.sp, s).Ok? {
        FlushSpares(m.sp, s, a);
      }
    case WriteOp(s, data) =>
      WholePageSpared(m.sp, s, data, a);
  }

  lemma AllocSpares(ss: seq<Source>, active: Option<Slice>, size: nat, a: nat, p: nat)
    requires p > 0 && Placed(ss, p) && InSource(ss, a, p) && !FreeAt(ss, a)
    ensures var tt := Bump(active, ss, size).sources;
      InSource(tt, a, p) && Load(tt, a, p) == Load(ss, a, p) && !FreeAt(tt, a)
  {
    if AllocPage(ss).Ok? {
      AllocIsTaken(ss, p);
      LoadSameBytes(ss, AllocPage(ss).value.0, a, p);
    }
  }

  lemma WholePageSpared(sp: Space, s: Slice, data: seq<byte>, a: nat)
    requires WellFormed(sp) && |data| == s.len && InUse(sp, a) && PageOf(s.offset, sp.pagesize) != a
    ensures var tt := AfterWrite(sp, s, data).sources;
      InSource(tt, a, sp.pagesize) && Load(tt, a, sp.pagesize) == Load(sp.sources, a, sp.pagesize) && !FreeAt(tt, a)
  {
    PageOfIsAligned(s.offset, sp.pagesize);
    PagesApart(PageOf(s.offset, sp.pagesize), a, sp.pagesize);
    if Usable(sp, s) {
      WriteSpares(sp, s, data, a, sp.pagesize);
    }
    FreeSameShape(sp.sources, AfterWrite(sp, s, data).sources, sp.pagesize);
  }

  // ---------------------------------------------------------------- storage is durable

  /** No operation flushes the page at this address again. */
  ghost predicate NoFlushOf(ops: seq<Op>, key: nat, p: nat)
    requires p > 0
  {
    forall i :: 0 <= i < |ops| && ops[i].FlushOp? ==> PageOf(ops[i].slice.offset, p) != key
  }

  /** The bytes of a backing page change only when the page it backs is flushed again. */
  lemma {:induction false} BackingSurvives(start: Space, ms: seq<Machine>, ops: seq<Op>, k: nat, key: nat)
    requires IsRun(ms, ops) && Inv(start, ms[0]) && k <= |ops|
    requires key in ms[0].sp.backing && NoFlushOf(ops, key, start.pagesize)
    ensures ms[k].sp.pagesize == ms[0].sp.pagesize == start.pagesize
    ensures key in ms[k].sp.backing && ms[k].sp.backing[key] == ms[0].sp.backing[key]
    ensures var a := ms[0].sp.backing[key].slice.offset;
      && InUse(ms[0].sp, a) && InUse(ms[k].sp, a)
      && Load(ms[k].sp.sources, a, start.pagesize) == Load(ms[0].sp.sources, a, start.pagesize)
  {
    assert TargetOk(ms[0].sp.sources, ms[0].sp.backing[key], start.pagesize);
    if k > 0 {
      BackingSurvives(start, ms, ops, k - 1, key);
      RunKeeps(start, ms, ops, k - 1);
      assert StepAt(ms, ops, k - 1);
      var m, op := ms[k - 1], ops[k - 1];
      TargetIsSpared(m.sp, op, key);
      StepKeeps(start, m, op);
      StepSpares(start, m, op, m.sp.backing[key].slice.offset);
      BackingStays(m, op, key);
    }
  }

  lemma TargetIsSpared(sp: Space, op: Op, key: nat)
    requires WellFormed(sp) && Legal(sp, op) && key in sp.backing
    requires op.FlushOp? ==> PageOf(op.slice.offset, sp.pagesize) != key
    ensures Spares(sp, op, sp.backing[key].slice.offset)
  {
    if op.FlushOp? && PageOf(op.slice.offset, sp.pagesize) in sp.backing {
      assert Apart(sp.backing[PageOf(op.slice.offset, sp.pagesize)], sp.backing[key]);
    }
  }

  lemma BackingStays(m: Machine, op: Op, key: nat)
    requires WellFormed(m.sp) && Legal(m.sp, op) && key in m.sp.backing
    ensures key in Step(m, op).sp.backing && Step(m, op).sp.backing[key] == m.sp.backing[key]
  {
    if op.FlushOp? && Accepted(m.sp, op.slice) && Flush(m.sp, op.slice).Ok? && !SourceOf(m.sp, op.slice).persistent {
      BackingKeeps(m.sp, PageOf(op.slice.offset, m.sp.pagesize));
    }
  }

  /**
   What was flushed from a volatile page can be fetched and read back at any time in a history that
   does not flush that page again.
   */
  lemma FlushedIsDurable(start: Space, m: Machine, s: Slice, ms: seq<Machine>, ops: seq<Op>, k: nat)
    requires Inv(start, m) && Legal(m.sp, FlushOp(s)) && Usable(m.sp, s)
    requires Flush(m.sp, s).Ok? && !SourceOf(m.sp, s).persistent
    requires IsRun(ms, ops) && ms[0] == Step(m, FlushOp(s)) && k <= |ops|
    requires NoFlushOf(ops, PageOf(s.offset, start.pagesize), start.pagesize)
    ensures InSource(m.sp.sources, s.offset, s.len) && Flush(m.sp, s).value.1.slice.len == s.len
    ensures FetchesAs(ms[k].sp, Flush(m.sp, s).value.1.slice, Load(m.sp.sources, s.offset, s.len))
  {
    var f, key := FlushStep(start, m, s);
    PartSurvives(start, ms, ops, k, key, s.offset - key, s.len);
    RunKeeps(start, ms, ops, k);
    HeldIsFetched(ms[k].sp, Flush(m.sp, s).value.1.slice, Load(m.sp.sources, s.offset, s.len));
  }

  /** What a flush of a volatile page leaves behind. */
  lemma FlushStep(start: Space, m: Machine, s: Slice) returns (f: Machine, key: nat)
    requires Inv(start, m) && Legal(m.sp, FlushOp(s)) && Usable(m.sp, s)
    requires Flush(m.sp, s).Ok? && !SourceOf(m.sp, s).persistent
    ensures f == Step(m, FlushOp(s)) && Inv(start, f)
    ensures key == PageOf(s.offset, start.pagesize) && key in f.sp.backing
    ensures 0 < s.len && s.offset - key + s.len <= start.pagesize
    ensures var t := f.sp.backing[key].slice.offset + (s.offset - key);
      && Flush(m.sp, s).value.1.slice == Slice(t, s.len)
      && InSource(m.sp.sources, s.offset, s.len) && InSource(f.sp.sources, t, s.len)
      && Load(f.sp.sources, t, s.len) == Load(m.sp.sources, s.offset, s.len)
  {
    f := Step(m, FlushOp(s));
    StepKeeps(start, m, FlushOp(s));
    FlushWrites(m.sp, s);
    var b, k := FlushIsWriteBack(m.sp, s);
    key := k;
  }

  lemma PartSurvives(start: Space, ms: seq<Machine>, ops: seq<Op>, k: nat, key: nat, o: nat, len: nat)
    requires IsRun(ms, ops) && Inv(start, ms[0]) && k <= |ops|
    requires key in ms[0].sp.backing && NoFlushOf(ops, key, start.pagesize)
    requires len > 0 && o + len <= start.pagesize
    ensures var t := ms[0].sp.backing[key].slice.offset + o;
      InSource(ms[0].sp.sources, t, len) && Holding(ms[k].sp, Slice(t, len), Load(ms[0].sp.sources, t, len))
  {
    BackingSurvives(start, ms, ops, k, key);
    RunKeeps(start, ms, ops, k);
    SamePageSamePart(ms[0].sp, ms[k].sp, ms[0].sp.backing[key].slice.offset, o, len);
  }

  /** Equal pages hold equal parts. */
  lemma SamePageSamePart(sp: Space, sq: Space, a: nat, o: nat, len: nat)
    requires WellFormed(sp) && WellFormed(sq) && sp.pagesize == sq.pagesize && InUse(sp, a) && InUse(sq, a)
    requires Load(sp.sources, a, sp.pagesize) == Load(sq.sources, a, sq.pagesize)
    requires len > 0 && o + len <= sp.pagesize
    ensures InSource(sp.sources, a + o, len)
    ensures Holding(sq, Slice(a + o, len), Load(sp.sources, a + o, len))
  {
    PartIsHeld(sp, a, o, len);
    PartIsHeld(sq, a, o, len);
  }

  // ---------------------------------------------------------------- handed-out slices are private

  /** No operation writes over any byte of the slice. */
  ghost predicate NoWriteOver(ops: seq<Op>, s: Slice) {
    forall i :: 0 <= i < |ops| && ops[i].WriteOp? ==> Disjoint(ops[i].slice, s)
  }

  lemma HandedStays(m: Machine, op: Op, j: nat)
    requires WellFormed(m.sp) && Legal(m.sp, op) && j < |m.handed|
    ensures j < |Step(m, op).handed| && Step(m, op).handed[j] == m.handed[j]
  {
  }

  lemma HandedIsMapped(start: Space, m: Machine, j: nat) returns (a: nat)
    requires Inv(start, m) && j < |m.handed| && m.handed[j].len > 0
    ensures a in m.taken && Within(m.handed[j], a, start.pagesize) && InUse(m.sp, a) && TakenOk(m.sp, a)
    ensures var o := m.handed[j].offset - a;
      Holding(m.sp, m.handed[j], Load(m.sp.sources, a, start.pagesize)[o..o + m.handed[j].len])
  {
    assert InTaken(m.handed[j], m.taken, start.pagesize);
    a :| a in m.taken && Within(m.handed[j], a, start.pagesize);
    assert TakenOk(m.sp, a);
    PartIsHeld(m.sp, a, m.handed[j].offset - a, m.handed[j].len);
  }

  lemma StepKeepsSlice(start: Space, m: Machine, op: Op, j: nat)
    requires Inv(start, m) && Legal(m.sp, op) && j < |m.handed| && m.handed[j].len > 0
    requires op.WriteOp? ==> Disjoint(op.slice, m.handed[j])
    ensures var s := m.handed[j];
      && InSource(m.sp.sources, s.offset, s.len)
      && Holding(Step(m, op).sp, s, Load(m.sp.sources, s.offset, s.len))
  {
    var s := m.handed[j];
    var a := HandedIsMapped(start, m, j);
    StepKeeps(start, m, op);
    HandedStays(m, op, j);
    if op.WriteOp? {
      WriteSpares(m.sp, op.slice, op.data, s.offset, s.len);
      var _ := HandedIsMapped(start, Step(m, op), j);
    } else {
      TakenIsSpared(m.sp, op, a);
      StepSpares(start, m, op, a);
      SamePageSamePart(m.sp, Step(m, op).sp, a, s.offset - a, s.len);
    }
  }

  lemma TakenIsSpared(sp: Space, op: Op, a: nat)
    requires TakenOk(sp, a) && !op.WriteOp?
    ensures Spares(sp, op, a)
  {
  }

  /**
   A slice handed out to one owner keeps its bytes through every history in which nobody writes over
   it: no allocation, fetch, flush or write of anything else can reach them.
   */
  lemma {:induction false} SliceIsPrivate(start: Space, ms: seq<Machine>, ops: seq<Op>, k: nat, j: nat)
    requires IsRun(ms, ops) && Inv(start, ms[0]) && k <= |ops|
    requires j < |ms[0].handed| && ms[0].handed[j].len > 0 && NoWriteOver(ops, ms[0].handed[j])
    ensures var s := ms[0].handed[j];
      && InSource(ms[0].sp.sources, s.offset, s.len) && j < |ms[k].handed| && ms[k].handed[j] == s
      && Holding(ms[k].sp, s, Load(ms[0].sp.sources, s.offset, s.len))
  {
    if k == 0 {
      var _ := HandedIsMapped(start, ms[0], j);
    } else {
      SliceIsPrivate(start, ms, ops, k - 1, j);
      RunKeeps(start, ms, ops, k - 1);
      assert StepAt(ms, ops, k - 1);
      StepKeepsSlice(start, ms[k - 1], ops[k - 1], j);
      HandedStays(ms[k - 1], ops[k - 1], j);
    }
  }
}
