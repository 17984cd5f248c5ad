/** What histories of storage operations are good for: dense allocation, readable copies,
  and which pages have a backing. */
module StorageLaws {
  import opened Basics
  import opened Rounding
  import opened Spaces
  import opened Backing
  import opened Allocation
  import opened StorageRuns

  // ---------------------------------------------------------------- what an allocation hands out

  /** The allocator took this page and served the request from its front, or kept it when it was too small. */
  ghost predicate FreshServes(m: Machine, n: Machine, id: nat, size: nat, page: Slice) {
    && Taken(m.sp.sources, n.sp.sources, page, m.sp.pagesize) && n.sp == m.sp.(sources := n.sp.sources)
    && n.taken == m.taken + {page.offset}
    && n.handed == (if size <= page.len then m.handed + [Slice(page.offset, size)] else m.handed)
    && n.actives == m.actives[id :=
         if size <= page.len then Slice(page.offset + size, page.len - size) else page]
  }

  /** The request fits into the active page. */
  predicate Fits(m: Machine, id: nat, size: nat) {
    id in m.actives && size <= m.actives[id].len
  }

  /** An allocation hands out the front of the active page, or of a fresh one if the request does not fit. */
  lemma AllocHands(start: Space, m: Machine, id: nat, size: nat) returns (page: Slice)
    requires Inv(start, m)
    ensures var n := Step(m, Alloc(id, size));
      if Fits(m, id, size) then
        && n.handed == m.handed + [Slice(m.actives[id].offset, size)] && n.sp == m.sp && n.taken == m.taken
        && n.actives == m.actives[id := Slice(m.actives[id].offset + size, m.actives[id].len - size)]
      else if HasMemory(m.sp.sources) then FreshServes(m, n, id, size, page)
      else n == m.(actives := m.actives - {id})
  {
    var b := Bump(Active(m, id), m.sp.sources, size);
    FreshPageOnlyWhenFull(Active(m, id), m.sp.sources, size, m.sp.pagesize);
    page := if b.page.Some? then b.page.value else Slice(0, 0);
  }

  /** The active page of an allocator changes only by its own requests. */
  lemma {:induction false} ActiveStays(ms: seq<Machine>, ops: seq<Op>, i: nat, k: nat, id: nat)
    requires IsRun(ms, ops) && i <= k <= |ops|
    requires forall j :: i <= j < k && ops[j].Alloc? ==> ops[j].id != id
    ensures Active(ms[k], id) == Active(ms[i], id)
  {
    if i < k {
      ActiveStays(ms, ops, i, k - 1, id);
      assert StepAt(ms, ops, k - 1);
      OtherActiveStays(ms[k - 1], ops[k - 1], id);
    }
  }

  lemma OtherActiveStays(m: Machine, op: Op, id: nat)
    requires WellFormed(m.sp) && Legal(m.sp, op) && (op.Alloc? ==> op.id != id)
    ensures Active(Step(m, op), id) == Active(m, id)
  {
  }

  /** Every active page ends where a page ends. */
  ghost predicate EndsPages(actives: map<nat, Slice>, p: nat)
    requires p > 0
  {
    forall d {:trigger EndsPage(actives[d], p)} :: d in actives ==> EndsPage(actives[d], p)
  }

  predicate EndsPage(s: Slice, p: nat)
    requires p > 0
  {
    Aligned(s.offset + s.len, p)
  }

  lemma StepEndsPages(start: Space, m: Machine, op: Op)
    requires Inv(start, m) && Legal(m.sp, op) && EndsPages(m.actives, start.pagesize)
    ensures EndsPages(Step(m, op).actives, start.pagesize)
  {
    if op.Alloc? {
      var page := AllocHands(start, m, op.id, op.size);
      AllocEndsPages(start, m, Step(m, op), op.id, op.size, page);
    }
  }

  lemma AllocEndsPages(start: Space, m: Machine, n: Machine, id: nat, size: nat, page: Slice)
    requires m.sp.pagesize == start.pagesize && EndsPages(m.actives, start.pagesize)
    requires if Fits(m, id, size) then
               n.actives == m.actives[id := Slice(m.actives[id].offset + size, m.actives[id].len - size)]
             else if HasMemory(m.sp.sources) then FreshServes(m, n, id, size, page)
             else n.actives == m.actives - {id}
    ensures EndsPages(n.actives, start.pagesize)
  {
    var p := start.pagesize;
    if !Fits(m, id, size) && HasMemory(m.sp.sources) {
      RemAbove(page.offset, p, p);
    }
    forall d | d in n.actives ensures EndsPage(n.actives[d], p) {
      assert d in m.actives ==> EndsPage(m.actives[d], p);
    }
  }

  lemma {:induction false} RunEndsPages(start: Space, ms: seq<Machine>, ops: seq<Op>, k: nat)
    requires WellFormed(start) && IsRun(ms, ops) && ms[0] == Initial(start) && k <= |ops|
    ensures Inv(start, ms[k]) && EndsPages(ms[k].actives, start.pagesize)
  {
    InitialInv(start);
    RunKeeps(start, ms, ops, k);
    if k > 0 {
      RunEndsPages(start, ms, ops, k - 1);
      assert StepAt(ms, ops, k - 1);
      StepEndsPages(start, ms[k - 1], ops[k - 1]);
    }
  }

  /** What is left active behind a slice reaches to the end of the slice's page. */
  lemma RestOfPage(s: Slice, taken: set<nat>, p: nat, size: nat)
    requires p > 0 && 0 < size <= s.len && EndsPage(s, p) && InTaken(s, taken, p)
    requires forall a :: a in taken ==> Aligned(a, p)
    ensures s.offset + s.len == PageOf(s.offset, p) + p
  {
    var a :| a in taken && Within(s, a, p);
    PageOfPage(a, p, s.offset - a);
    if s.offset + s.len < a + p {
      AlignedStep(a, s.offset + s.len, p);
    }
  }

  /** After a successful request of some bytes, the active page is the rest of the page of what was handed out. */
  lemma ActiveAfter(start: Space, m: Machine, id: nat, size: nat)
    requires Inv(start, m) && EndsPages(m.actives, start.pagesize) && size > 0
    requires |Step(m, Alloc(id, size)).handed| > |m.handed|
    ensures var n := Step(m, Alloc(id, size)); var h := n.handed[|m.handed|]; var p := start.pagesize;
      && n.handed == m.handed + [h] && h.len == size && id in n.actives
      && n.actives[id].offset == h.offset + size
      && n.actives[id].offset + n.actives[id].len == PageOf(h.offset, p) + p
  {
    var page := AllocHands(start, m, id, size);
    TakenAreAligned(start, m);
    if Fits(m, id, size) {
      assert EndsPage(m.actives[id], start.pagesize) && InTaken(m.actives[id], m.taken, start.pagesize);
      RestOfPage(m.actives[id], m.taken, start.pagesize, size);
    } else {
      PageOfPage(page.offset, start.pagesize, 0);
    }
  }

  /**
   The bump allocator bumps: over any history, whatever else is allocated, fetched, flushed or written in
   between, the next slice of an allocator starts where its previous one ended exactly while it still fits
   into the page of the previous one. Only then is no page taken.
   */
  lemma AllocContinues(start: Space, ms: seq<Machine>, ops: seq<Op>, i: nat, k: nat, id: nat) returns (page: Slice)
    requires WellFormed(start) && IsRun(ms, ops) && ms[0] == Initial(start) && i < k < |ops|
    requires ops[i].Alloc? && ops[i].id == id && ops[i].size > 0 && ops[k].Alloc? && ops[k].id == id
    requires forall j :: i < j < k && ops[j].Alloc? ==> ops[j].id != id
    requires |ms[i + 1].handed| > |ms[i].handed|
    ensures var h := ms[i + 1].handed[|ms[i].handed|]; var m, n := ms[k], ms[k + 1]; var size := ops[k].size;
      && h.len == ops[i].size
      && if h.offset + h.len + size <= PageOf(h.offset, start.pagesize) + start.pagesize then
           n.handed == m.handed + [Slice(h.offset + h.len, size)] && n.sp == m.sp && n.taken == m.taken
         else if HasMemory(m.sp.sources) then FreshServes(m, n, id, size, page)
         else n.handed == m.handed && n.sp == m.sp && n.taken == m.taken && id !in n.actives
  {
    RunEndsPages(start, ms, ops, i);
    assert StepAt(ms, ops, i);
    ActiveAfter(start, ms[i], id, ops[i].size);
    ActiveStays(ms, ops, i + 1, k, id);
    RunEndsPages(start, ms, ops, k);
    assert StepAt(ms, ops, k);
    page := AllocHands(start, ms[k], id, ops[k].size);
  }

  // ---------------------------------------------------------------- what is handed out is memory

  /** The same sources at the same places, with the same flags. */
  ghost predicate SameFlags(ss: seq<Source>, tt: seq<Source>) {
    && |ss| == |tt|
    && forall i :: 0 <= i < |ss| ==>
         tt[i] == ss[i].(bytes := tt[i].bytes, free := tt[i].free) && |tt[i].bytes| == |ss[i].bytes|
  }

  lemma StepKeepsFlags(m: Machine, op: Op)
    requires WellFormed(m.sp) && Legal(m.sp, op)
    ensures SameFlags(m.sp.sources, Step(m, op).sp.sources)
  {
    match op
    case Alloc(id, size) => BumpKeepsFlags(Active(m, id), m.sp.sources, size, m.sp.pagesize);
    case FetchOp(s) =>
      if Accepted(m.sp, s) && Fetch(m.sp, s).Ok? {
        FetchKeepsFlags(m.sp, s);
      }
    case FlushOp(s) =>
      if Accepted(m.sp, s) && Flush(m.sp, s).Ok? {
        FlushKeepsFlags(m.sp, s);
      }
    case WriteOp(_, _) =>
  }

  lemma BumpKeepsFlags(active: Option<Slice>, ss: seq<Source>, size: nat, p: nat)
    requires p > 0 && Placed(ss, p)
    ensures SameFlags(ss, Bump(active, ss, size).sources)
  {
    if AllocPage(ss).Ok? {
      AllocIsTaken(ss, p);
    }
  }

  lemma FetchKeepsFlags(sp: Space, s: Slice)
    requires WellFormed(sp) && Accepted(sp, s) && Fetch(sp, s).Ok?
    ensures SameFlags(sp.sources, Fetch(sp, s).value.0.sources)
  {
    var tt, page := FetchTakesPage(sp, s);
  }

  lemma FlushKeepsFlags(sp: Space, s: Slice)
    requires WellFormed(sp) && Accepted(sp, s) && Flush(sp, s).Ok?
    ensures SameFlags(sp.sources, Flush(sp, s).value.0.sources)
  {
    if !SourceOf(sp, s).persistent {
      var b, key := FlushIsWriteBack(sp, s);
    }
  }

  /** The page at this address is on a byte-addressable source. */
  ghost predicate InMemory(sp: Space, a: nat) {
    Locate(sp.sources, a).Some? && sp.sources[Locate(sp.sources, a).value].byteAddressable
  }

  lemma MemoryStays(m: Machine, op: Op, a: nat)
    requires WellFormed(m.sp) && Legal(m.sp, op) && InMemory(m.sp, a)
    ensures InMemory(Step(m, op).sp, a)
  {
    StepKeepsFlags(m, op);
    LocateSame(m.sp.sources, Step(m, op).sp.sources, a);
  }

  /** Pages are only taken from memory. */
  lemma NewIsMemory(start: Space, m: Machine, op: Op, a: nat)
    requires Inv(start, m) && Legal(m.sp, op) && a !in m.taken && a in Step(m, op).taken
    ensures InMemory(m.sp, a)
  {
    match op
    case Alloc(_, _) => AllocatedInMemory(m.sp);
    case FetchOp(s) => FetchedIntoMemory(m.sp, s);
  }

  lemma AllocatedInMemory(sp: Space)
    requires WellFormed(sp) && AllocPage(sp.sources).Ok?
    ensures InMemory(sp, AllocPage(sp.sources).value.1.offset)
  {
    AllocIsTaken(sp.sources, sp.pagesize);
  }

  lemma FetchedIntoMemory(sp: Space, s: Slice)
    requires WellFormed(sp) && Accepted(sp, s) && Fetch(sp, s).Ok?
    ensures InMemory(sp, PageOf(Fetch(sp, s).value.1.offset, sp.pagesize))
  {
    AllocatedInMemory(sp);
    AllocIsTaken(sp.sources, sp.pagesize);
    PageInSource(sp, s);
    PageOfPage(AllocPage(sp.sources).value.1.offset, sp.pagesize, s.offset - PageOf(s.offset, sp.pagesize));
  }

  lemma {:induction false} TakenIsMemory(start: Space, ms: seq<Machine>, ops: seq<Op>, k: nat, a: nat)
    requires WellFormed(start) && IsRun(ms, ops) && ms[0] == Initial(start) && k <= |ops| && a in ms[k].taken
    ensures InMemory(ms[k].sp, a)
  {
    assert k > 0;
    assert StepAt(ms, ops, k - 1);
    InitialInv(start);
    RunKeeps(start, ms, ops, k - 1);
    if a in ms[k - 1].taken {
      TakenIsMemory(start, ms, ops, k - 1, a);
    } else {
      NewIsMemory(start, ms[k - 1], ops[k - 1], a);
    }
    MemoryStays(ms[k - 1], ops[k - 1], a);
  }

  /** Whatever was handed out can be written: no assertion of `write` is in the way. */
  lemma HandedIsWritable(start: Space, ms: seq<Machine>, ops: seq<Op>, k: nat, j: nat, data: seq<byte>)
    requires WellFormed(start) && IsRun(ms, ops) && ms[0] == Initial(start) && k <= |ops|
    requires j < |ms[k].handed| && 0 < ms[k].handed[j].len == |data|
    ensures Legal(ms[k].sp, WriteOp(ms[k].handed[j], data)) && Usable(ms[k].sp, ms[k].handed[j])
  {
    InitialInv(start);
    RunKeeps(start, ms, ops, k);
    var s, p := ms[k].handed[j], start.pagesize;
    var a := HandedIsMapped(start, ms[k], j);
    TakenIsMemory(start, ms, ops, k, a);
    PageOfPage(a, p, s.offset - a);
    PartIsHeld(ms[k].sp, a, s.offset - a, s.len);
  }

  // ---------------------------------------------------------------- what is written is read

  lemma WriteIsRead(start: Space, m: Machine, j: nat, data: seq<byte>)
    requires Inv(start, m) && j < |m.handed| && 0 < m.handed[j].len == |data|
    requires Legal(m.sp, WriteOp(m.handed[j], data))
    ensures Holding(Step(m, WriteOp(m.handed[j], data)).sp, m.handed[j], data)
    ensures Step(m, WriteOp(m.handed[j], data)).handed == m.handed
  {
    var s := m.handed[j];
    var n := Step(m, WriteOp(s, data));
    var a := HandedIsMapped(start, m, j);
    StepKeeps(start, m, WriteOp(s, data));
    var b := HandedIsMapped(start, n, j);
    LoadStored(m.sp.sources, s.offset, data);
  }

  /** What an owner writes into its slice is read back at any later time until somebody writes over it. */
  lemma WrittenStays(start: Space, ms: seq<Machine>, ops: seq<Op>, i: nat, k: nat, j: nat, data: seq<byte>)
    requires WellFormed(start) && IsRun(ms, ops) && ms[0] == Initial(start) && i < k <= |ops|
    requires j < |ms[i].handed| && 0 < ms[i].handed[j].len == |data| && ops[i] == WriteOp(ms[i].handed[j], data)
    requires NoWriteOver(ops[i + 1..], ms[i].handed[j])
    ensures j < |ms[k].handed| && ms[k].handed[j] == ms[i].handed[j]
    ensures Holding(ms[k].sp, ms[k].handed[j], data)
  {
    InitialInv(start);
    RunKeeps(start, ms, ops, i);
    assert StepAt(ms, ops, i);
    WriteIsRead(start, ms[i], j, data);
    RunKeeps(start, ms, ops, i + 1);
    RestIsRun(ms, ops, i + 1);
    SliceIsPrivate(start, ms[i + 1..], ops[i + 1..], k - (i + 1), j);
  }

  lemma RestIsRun(ms: seq<Machine>, ops: seq<Op>, i: nat)
    requires IsRun(ms, ops) && i <= |ops|
    ensures IsRun(ms[i..], ops[i..])
  {
    forall j | 0 <= j < |ops[i..]| ensures StepAt(ms[i..], ops[i..], j) {
      assert StepAt(ms, ops, i + j);
    }
  }

  /** A fetch hands out a whole page that was free, and the place of the slice in it reads as the slice. */
  lemma FetchHands(start: Space, m: Machine, s: Slice)
    requires Inv(start, m) && Sized(m.sp, s)
    ensures var n, p := Step(m, FetchOp(s)), start.pagesize;
      if Accepted(m.sp, s) && Resolves(m.sp, s) && HasMemory(m.sp.sources) then
        && |n.handed| == |m.handed| + 1 && n.handed[..|m.handed|] == m.handed
        && var page := n.handed[|m.handed|];
          && page.len == p && FreeAt(m.sp.sources, page.offset) && n.taken == m.taken + {page.offset}
          && (OnePage(s, p) ==>
                && InSource(m.sp.sources, s.offset, s.len)
                && Holding(n.sp, Slice(page.offset + (s.offset - PageOf(s.offset, p)), s.len),
                           Load(m.sp.sources, s.offset, s.len)))
      else n == m
  {
    if Accepted(m.sp, s) {
      FetchSucceedsIff(m.sp, s);
      if Fetch(m.sp, s).Ok? {
        FetchCopies(m.sp, s);
        if OnePage(s, start.pagesize) {
          FetchReads(m.sp, s);
        }
      }
    }
  }

  lemma FetchCopies(sp: Space, s: Slice)
    requires WellFormed(sp) && Accepted(sp, s) && Fetch(sp, s).Ok?
    ensures var r, p := Fetch(sp, s).value, sp.pagesize; var page := PageOf(r.1.offset, p);
      FreeAt(sp.sources, page) && r.1 == Slice(page + (s.offset - PageOf(s.offset, p)), s.len)
  {
    FetchFrees(sp, s);
    var r, page := FetchIsCopy(sp, s);
    PageOfPage(page.offset, sp.pagesize, s.offset - PageOf(s.offset, sp.pagesize));
  }

  // ---------------------------------------------------------------- which pages have a backing

  /** The operation flushes this volatile page, which is backed or can get a backing. */
  ghost predicate FlushesPage(sp: Space, op: Op, key: nat) {
    && op.FlushOp? && PageOf(op.slice.offset, sp.pagesize) == key
    && Accepted(sp, op.slice) && Resolves(sp, op.slice) && !SourceOf(sp, op.slice).persistent
    && (key in sp.backing || HasStorage(sp.sources))
  }

  lemma StepBacks(m: Machine, op: Op, key: nat)
    requires WellFormed(m.sp) && Legal(m.sp, op)
    ensures key in Step(m, op).sp.backing <==> key in m.sp.backing || FlushesPage(m.sp, op, key)
  {
    if op.FlushOp? && Accepted(m.sp, op.slice) {
      FlushSucceedsIff(m.sp, op.slice);
      if Flush(m.sp, op.slice).Ok? && !SourceOf(m.sp, op.slice).persistent {
        BackingKeeps(m.sp, PageOf(op.slice.offset, m.sp.pagesize));
      }
    }
  }

  /** A page has a backing exactly if it had one at the start or was flushed since. */
  lemma {:induction false} BackedIffFlushed(start: Space, ms: seq<Machine>, ops: seq<Op>, k: nat, key: nat)
    requires IsRun(ms, ops) && Inv(start, ms[0]) && k <= |ops|
    ensures key in ms[k].sp.backing <==>
      key in ms[0].sp.backing || exists i :: 0 <= i < k && FlushesPage(ms[i].sp, ops[i], key)
  {
    if k > 0 {
      BackedIffFlushed(start, ms, ops, k - 1, key);
      assert StepAt(ms, ops, k - 1);
      StepBacks(ms[k - 1], ops[k - 1], key);
    }
  }

  /**
   `get_backing` finds none exactly for a slice of a volatile page that had no backing at the start and was not
   flushed since; it fails exactly for an address that resolves to no source.
   */
  lemma NoBackingIffUnflushed(start: Space, ms: seq<Machine>, ops: seq<Op>, k: nat, s: Slice)
    requires IsRun(ms, ops) && Inv(start, ms[0]) && k <= |ops|
    ensures GetBacking(ms[k].sp, s).Err? <==> !Resolves(ms[0].sp, s)
    ensures GetBacking(ms[k].sp, s) == Ok(None) <==>
      && Resolves(ms[0].sp, s) && !SourceOf(ms[0].sp, s).persistent
      && PageOf(s.offset, start.pagesize) !in ms[0].sp.backing
      && forall i :: 0 <= i < k ==> !FlushesPage(ms[i].sp, ops[i], PageOf(s.offset, start.pagesize))
  {
    RunKeeps(start, ms, ops, k);
    BackedIffFlushed(start, ms, ops, k, PageOf(s.offset, start.pagesize));
    RunKeepsFlags(ms, ops, k);
    LocateSame(ms[0].sp.sources, ms[k].sp.sources, s.offset);
  }

  lemma {:induction false} RunKeepsFlags(ms: seq<Machine>, ops: seq<Op>, k: nat)
    requires IsRun(ms, ops) && k <= |ops|
    ensures SameFlags(ms[0].sp.sources, ms[k].sp.sources)
  {
    if k > 0 {
      RunKeepsFlags(ms, ops, k - 1);
      assert StepAt(ms, ops, k - 1);
      StepKeepsFlags(ms[k - 1], ops[k - 1]);
    }
  }
}
