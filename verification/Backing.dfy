/** Taking pages, and the backing pages behind flush and fetch, on values. */
module Backing {
  import opened Basics
  import opened Bits
  import opened Rounding
  import opened Pages
  import opened Spaces

  /** The mapped sources and which page backs which. */
  datatype Space = Space(pagesize: Size, sources: seq<Source>, backing: map<nat, Stored>)

  type Size = p: nat | p > 0 witness 1

  // ---------------------------------------------------------------- free pages

  ghost predicate IsFree(s: Source, a: nat) {
    exists k :: 0 <= k < |s.free| && a == s.base + s.free[k].offset
  }

  /** The page at this address is on its source's free list. */
  ghost predicate FreeAt(ss: seq<Source>, a: nat) {
    exists i {:trigger IsFree(ss[i], a)} :: 0 <= i < |ss| && IsFree(ss[i], a)
  }

  /** `get_best_source`: the first source, in address order, with some property. */
  function First(ss: seq<Source>, f: Source -> bool): (r: Option<nat>)
    ensures r.Some? ==> r.value < |ss| && f(ss[r.value])
    ensures forall j :: 0 <= j < (if r.Some? then r.value else |ss|) ==> !f(ss[j])
  {
    if |ss| == 0 then None
    else if f(ss[0]) then Some(0)
    else
      var r := First(ss[1..], f);
      if r.None? then None else Some(r.value + 1)
  }

  function BestByteAddressable(ss: seq<Source>): Option<nat> {
    First(ss, (s: Source) => s.byteAddressable)
  }

  function BestPersistent(ss: seq<Source>): Option<nat> {
    First(ss, (s: Source) => s.persistent)
  }

  /** One page from one source. */
  function TakePage(ss: seq<Source>, i: nat): Answer<(seq<Source>, Slice)>
    requires i < |ss|
  {
    if |ss[i].free| == 0 then Err(NoAvailableMemory)
    else Ok((ss[i := ss[i].(free := ss[i].free[1..])], FromPage(ss[i].free[0], ss[i].base)))
  }

  /** `LogicalAddressSpace::alloc`. */
  function AllocPage(ss: seq<Source>): Answer<(seq<Source>, Slice)> {
    var i := BestByteAddressable(ss);
    if i.None? then Err(NoAvailableMemory) else TakePage(ss, i.value)
  }

  /** What taking a page means: a whole mapped page leaves the free pages, and nothing else changes. */
  ghost predicate Taken(ss: seq<Source>, tt: seq<Source>, page: Slice, p: nat)
    requires p > 0
  {
    && Placed(tt, p) && SameBytes(ss, tt)
    && page.len == p && Aligned(page.offset, p) && InSource(tt, page.offset, p)
    && FreeAt(ss, page.offset)
    && forall a :: FreeAt(tt, a) <==> FreeAt(ss, a) && a != page.offset
  }

  lemma FreeOffset(s: Source, p: nat, k: nat)
    requires p > 0 && SourceOk(s, p) && k < |s.free|
    ensures s.free[k].len == p && Aligned(s.base + s.free[k].offset, p)
    ensures 2 * p <= s.free[k].offset && s.free[k].offset + p <= |s.bytes|
  {
    assert GoodPage(s.free[k], p, |s.bytes|);
    RemAbove(s.base, s.free[k].offset, p);
  }

  lemma FreePageIsMapped(ss: seq<Source>, p: nat, i: nat, k: nat)
    requires p > 0 && Placed(ss, p) && i < |ss| && k < |ss[i].free|
    ensures var a := ss[i].base + ss[i].free[k].offset;
      && Aligned(a, p) && Locate(ss, a) == Some(i) && InSource(ss, a, p) && ss[i].base + 2 * p <= a && Holds(ss[i], a)
  {
    var a := ss[i].base + ss[i].free[k].offset;
    FreeOffset(ss[i], p, k);
    AddressFindsItsSource(ss, i, a);
  }

  lemma FreeInOneSource(ss: seq<Source>, p: nat, i: nat, j: nat, a: nat)
    requires p > 0 && Placed(ss, p) && i < |ss| && j < |ss| && IsFree(ss[i], a) && IsFree(ss[j], a)
    ensures i == j
  {
    var k :| 0 <= k < |ss[i].free| && a == ss[i].base + ss[i].free[k].offset;
    var l :| 0 <= l < |ss[j].free| && a == ss[j].base + ss[j].free[l].offset;
    FreePageIsMapped(ss, p, i, k);
    FreePageIsMapped(ss, p, j, l);
  }

  /** Dropping the first free page of a source frees exactly its address from the list. */
  lemma FreeRest(s: Source, p: nat, a: nat)
    requires p > 0 && SourceOk(s, p) && |s.free| > 0
    ensures IsFree(s.(free := s.free[1..]), a) <==> IsFree(s, a) && a != s.base + s.free[0].offset
  {
    var t := s.(free := s.free[1..]);
    if IsFree(t, a) {
      var k :| 0 <= k < |t.free| && a == t.base + t.free[k].offset;
      assert t.free[k] == s.free[k + 1];
      assert Before(s.free[0], s.free[k + 1]) && GoodPage(s.free[0], p, |s.bytes|);
    }
    if IsFree(s, a) && a != s.base + s.free[0].offset {
      var k :| 0 <= k < |s.free| && a == s.base + s.free[k].offset;
      assert k > 0 && t.free[k - 1] == s.free[k];
    }
  }

  lemma RestIsGood(free: seq<Page>, p: nat, len: nat)
    requires p > 0 && GoodPages(free, p, len) && |free| > 0
    ensures GoodPages(free[1..], p, len)
  {
    var rest := free[1..];
    forall i | 0 <= i < |rest| ensures GoodPage(rest[i], p, len) {
      assert GoodPage(free[i + 1], p, len);
    }
    forall i, j | 0 <= i < j < |rest| ensures Before(rest[i], rest[j]) {
      assert Before(free[i + 1], free[j + 1]);
    }
  }

  lemma TakeFrees(ss: seq<Source>, i: nat, p: nat, a: nat)
    requires p > 0 && Placed(ss, p) && i < |ss| && |ss[i].free| > 0
    ensures FreeAt(TakePage(ss, i).value.0, a) <==> FreeAt(ss, a) && a != ss[i].base + ss[i].free[0].offset
  {
    var tt := TakePage(ss, i).value.0;
    FreeRest(ss[i], p, a);
    if FreeAt(tt, a) {
      var j :| 0 <= j < |tt| && IsFree(tt[j], a);
      assert IsFree(ss[j], a);
      if IsFree(ss[i], a) {
        FreeInOneSource(ss, p, i, j, a);
      }
      assert IsFree(ss[i], ss[i].base + ss[i].free[0].offset);
    }
    if FreeAt(ss, a) && a != ss[i].base + ss[i].free[0].offset {
      var j :| 0 <= j < |ss| && IsFree(ss[j], a);
      assert IsFree(tt[j], a);
    }
  }

  lemma TakeIsPlaced(ss: seq<Source>, i: nat, p: nat)
    requires p > 0 && Placed(ss, p) && i < |ss| && |ss[i].free| > 0
    ensures Placed(TakePage(ss, i).value.0, p) && SameBytes(ss, TakePage(ss, i).value.0)
  {
    assert SourceOk(ss[i], p);
    RestIsGood(ss[i].free, p, |ss[i].bytes|);
    SortedSame(ss, TakePage(ss, i).value.0);
    forall j | 0 <= j < |ss| && j != i ensures SourceOk(TakePage(ss, i).value.0[j], p) {
      assert SourceOk(ss[j], p);
    }
  }

  lemma TakeFreesOne(ss: seq<Source>, i: nat, p: nat)
    requires p > 0 && Placed(ss, p) && i < |ss| && |ss[i].free| > 0
    ensures var r := TakePage(ss, i).value; forall a :: FreeAt(r.0, a) <==> FreeAt(ss, a) && a != r.1.offset
  {
    forall a ensures FreeAt(TakePage(ss, i).value.0, a) <==> FreeAt(ss, a) && a != TakePage(ss, i).value.1.offset {
      TakeFrees(ss, i, p, a);
    }
  }

  lemma TakenIsMapped(ss: seq<Source>, i: nat, p: nat)
    requires p > 0 && Placed(ss, p) && i < |ss| && |ss[i].free| > 0
    ensures var tt, page := TakePage(ss, i).value.0, TakePage(ss, i).value.1;
      && page.len == p && Aligned(page.offset, p) && InSource(tt, page.offset, p) && Locate(ss, page.offset) == Some(i)
      && FreeAt(ss, page.offset)
  {
    var tt, page := TakePage(ss, i).value.0, TakePage(ss, i).value.1;
    FreePageIsMapped(ss, p, i, 0);
    FreeOffset(ss[i], p, 0);
    assert IsFree(ss[i], page.offset);
    InSourceSame(ss, tt, page.offset, p);
  }

  /** A page taken from a source. */
  lemma TakeIsTaken(ss: seq<Source>, i: nat, p: nat)
    requires p > 0 && Placed(ss, p) && i < |ss| && TakePage(ss, i).Ok?
    ensures Taken(ss, TakePage(ss, i).value.0, TakePage(ss, i).value.1, p)
    ensures Locate(ss, TakePage(ss, i).value.1.offset) == Some(i)
  {
    TakeIsPlaced(ss, i, p);
    TakenIsMapped(ss, i, p);
    TakeFreesOne(ss, i, p);
  }

  lemma AllocIsTaken(ss: seq<Source>, p: nat)
    requires p > 0 && Placed(ss, p) && AllocPage(ss).Ok?
    ensures Taken(ss, AllocPage(ss).value.0, AllocPage(ss).value.1, p)
    ensures BestByteAddressable(ss).Some? && Locate(ss, AllocPage(ss).value.1.offset) == BestByteAddressable(ss)
  {
    TakeIsTaken(ss, BestByteAddressable(ss).value, p);
  }

  // ---------------------------------------------------------------- which source serves

  ghost predicate FirstByteAddressable(ss: seq<Source>, i: nat) {
    i < |ss| && ss[i].byteAddressable && forall j :: 0 <= j < i ==> !ss[j].byteAddressable
  }

  ghost predicate FirstPersistent(ss: seq<Source>, i: nat) {
    i < |ss| && ss[i].persistent && forall j :: 0 <= j < i ==> !ss[j].persistent
  }

  /** The free page of a source with the lowest address. */
  ghost predicate LowestFree(s: Source, a: nat) {
    IsFree(s, a) && forall b :: IsFree(s, b) ==> a <= b
  }

  /** Some memory is free in the first byte-addressable source. */
  ghost predicate HasMemory(ss: seq<Source>) {
    exists i: nat, a: nat {:trigger FirstByteAddressable(ss, i), IsFree(ss[i], a)} ::
      FirstByteAddressable(ss, i) && IsFree(ss[i], a)
  }

  /** Some page is free in the first persistent source. */
  ghost predicate HasStorage(ss: seq<Source>) {
    exists i: nat, a: nat {:trigger FirstPersistent(ss, i), IsFree(ss[i], a)} ::
      FirstPersistent(ss, i) && IsFree(ss[i], a)
  }

  /** A source gives its lowest free page, whole, if it has any; no other source changes. */
  lemma TakeGivesLowest(ss: seq<Source>, i: nat, p: nat)
    requires p > 0 && Placed(ss, p) && i < |ss|
    ensures TakePage(ss, i).Ok? <==> exists a :: IsFree(ss[i], a)
    ensures TakePage(ss, i).Ok? ==>
      var r := TakePage(ss, i).value;
      && LowestFree(ss[i], r.1.offset) && r.1.len == p
      && |r.0| == |ss| && forall j :: 0 <= j < |ss| && j != i ==> r.0[j] == ss[j]
  {
    if |ss[i].free| > 0 {
      TakeIsTaken(ss, i, p);
      assert IsFree(ss[i], ss[i].base + ss[i].free[0].offset);
      forall b | IsFree(ss[i], b) ensures ss[i].base + ss[i].free[0].offset <= b {
        FirstIsLowest(ss[i], p, b);
      }
    }
  }

  lemma FirstIsLowest(s: Source, p: nat, b: nat)
    requires p > 0 && SourceOk(s, p) && IsFree(s, b)
    ensures |s.free| > 0 && s.base + s.free[0].offset <= b
  {
    var k :| 0 <= k < |s.free| && b == s.base + s.free[k].offset;
    if k > 0 {
      assert Before(s.free[0], s.free[k]);
    }
  }

  /**
   `alloc` succeeds exactly if the first byte-addressable source has a free page, whatever the later ones
   have, and gives its lowest one.
   */
  lemma AllocServes(ss: seq<Source>, p: nat)
    requires p > 0 && Placed(ss, p)
    ensures AllocPage(ss).Ok? <==> HasMemory(ss)
    ensures AllocPage(ss).Err? ==> AllocPage(ss).error == NoAvailableMemory
    ensures AllocPage(ss).Ok? ==>
      forall i: nat {:trigger FirstByteAddressable(ss, i)} :: FirstByteAddressable(ss, i) ==>
        && LowestFree(ss[i], AllocPage(ss).value.1.offset) && AllocPage(ss).value.1.len == p
        && Locate(ss, AllocPage(ss).value.1.offset) == Some(i)
  {
    forall i: nat | FirstByteAddressable(ss, i)
      ensures BestByteAddressable(ss) == Some(i) && (AllocPage(ss).Ok? <==> exists a :: IsFree(ss[i], a)) {
      TakeGivesLowest(ss, i, p);
    }
    if BestByteAddressable(ss).Some? {
      var i := BestByteAddressable(ss).value;
      assert FirstByteAddressable(ss, i);
      TakeGivesLowest(ss, i, p);
      if AllocPage(ss).Ok? {
        TakeIsTaken(ss, i, p);
      }
    }
  }

  lemma SortedSame(ss: seq<Source>, tt: seq<Source>)
    requires Sorted(ss) && (SameShape(ss, tt) || SameBytes(ss, tt))
    ensures Sorted(tt)
  {
    forall i, j | 0 <= i < j < |tt| ensures Precedes(tt[i], tt[j]) {
      assert Precedes(ss[i], ss[j]);
    }
  }

  lemma FreeSameShape(ss: seq<Source>, tt: seq<Source>, p: nat)
    requires p > 0 && Placed(ss, p) && SameShape(ss, tt)
    ensures Placed(tt, p) && forall a :: FreeAt(tt, a) <==> FreeAt(ss, a)
  {
    SortedSame(ss, tt);
    forall i | 0 <= i < |tt| ensures SourceOk(tt[i], p) {
      assert SourceOk(ss[i], p);
    }
    forall a ensures FreeAt(tt, a) <==> FreeAt(ss, a) {
      forall i | 0 <= i < |ss| ensures IsFree(ss[i], a) <==> IsFree(tt[i], a) {
      }
    }
  }

  // ---------------------------------------------------------------- well-formed spaces

  /** A backing page: whole, persistent, tagged by how its source is addressed, and not free. */
  ghost predicate TargetOk(ss: seq<Source>, t: Stored, p: nat)
    requires p > 0
  {
    && t.slice.len == p && Aligned(t.slice.offset, p) && InSource(ss, t.slice.offset, p)
    && var s := ss[Locate(ss, t.slice.offset).value];
    && s.persistent && (t.ByteSlice? <==> s.byteAddressable)
    && !FreeAt(ss, t.slice.offset)
  }

  ghost predicate Injective(backing: map<nat, Stored>) {
    forall k, l {:trigger Apart(backing[k], backing[l])} ::
      k in backing && l in backing && k != l ==> Apart(backing[k], backing[l])
  }

  predicate Apart(t: Stored, u: Stored) {
    t.slice.offset != u.slice.offset
  }

  ghost predicate WellFormed(sp: Space) {
    && Placed(sp.sources, sp.pagesize)
    && (forall k {:trigger TargetOk(sp.sources, sp.backing[k], sp.pagesize)} ::
          k in sp.backing ==> TargetOk(sp.sources, sp.backing[k], sp.pagesize))
    && Injective(sp.backing)
  }

  /** Some page is backed by the page at this address. */
  ghost predicate IsTarget(sp: Space, a: nat) {
    exists k :: k in sp.backing && sp.backing[k].slice.offset == a
  }

  // ---------------------------------------------------------------- operations

  /** What the assertion of `to_page` demands of every argument: not empty, and not longer than a page. */
  predicate Sized(sp: Space, s: Slice) {
    0 < s.len <= sp.pagesize && s.offset < WORD
  }

  /** It also starts inside the source it resolves to, if any. It may run into the next page. */
  predicate Accepted(sp: Space, s: Slice) {
    Sized(sp, s) && (Resolves(sp, s) ==> InSource(sp.sources, s.offset, 1))
  }

  /** It lies inside one page. */
  predicate Usable(sp: Space, s: Slice) {
    Accepted(sp, s) && OnePage(s, sp.pagesize)
  }

  predicate Resolves(sp: Space, s: Slice) {
    Locate(sp.sources, s.offset).Some?
  }

  function SourceOf(sp: Space, s: Slice): Source
    requires Resolves(sp, s)
  {
    sp.sources[Locate(sp.sources, s.offset).value]
  }

  /** The error of reading a page behind the end of a source. */
  function Overrun(s: Source): Error {
    if s.byteAddressable then InvalidMemory else PartialIO
  }

  /** A slice and the page around it resolve to the same source. */
  lemma PageResolves(sp: Space, s: Slice)
    requires WellFormed(sp)
    ensures Locate(sp.sources, PageOf(s.offset, sp.pagesize)) == Locate(sp.sources, s.offset)
    ensures Resolves(sp, s) ==> Aligned(SourceOf(sp, s).base, sp.pagesize)
  {
    var p, ss := sp.pagesize, sp.sources;
    var a := PageOf(s.offset, p);
    var k := Locate(ss, s.offset);
    if k.Some? {
      assert SourceOk(ss[k.value], p);
      PageAboveBase(s.offset, p, ss[k.value].base);
    }
    LocatedAlike(ss, a, s.offset);
  }

  /** Addresses above the same bases resolve alike. */
  lemma LocatedAlike(ss: seq<Source>, a: nat, b: nat)
    requires a <= b
    requires Locate(ss, b).Some? ==> ss[Locate(ss, b).value].base <= a
    ensures Locate(ss, a) == Locate(ss, b)
  {
    var l, k := Locate(ss, a), Locate(ss, b);
    if l.Some? {
      assert !StartsAbove(ss[l.value], b);
    }
    if k.Some? {
      assert !StartsAbove(ss[k.value], a);
      assert l.Some? && k.value <= l.value;
      assert l.value <= k.value;
    }
  }

  /** The whole page around a slice lies in the slice's source. */
  lemma PageInSource(sp: Space, s: Slice)
    requires WellFormed(sp) && Accepted(sp, s)
    ensures Locate(sp.sources, PageOf(s.offset, sp.pagesize)) == Locate(sp.sources, s.offset)
    ensures Resolves(sp, s) ==> Aligned(SourceOf(sp, s).base, sp.pagesize)
    ensures Resolves(sp, s) ==>
      && InSource(sp.sources, PageOf(s.offset, sp.pagesize), sp.pagesize)
      && (OnePage(s, sp.pagesize) ==> InSource(sp.sources, s.offset, s.len))
  {
    PageResolves(sp, s);
    if Resolves(sp, s) {
      PageStartsInside(sp, s);
    }
  }

  /** A slice starts inside the source it resolves to exactly if the whole page around it lies there. */
  lemma PageStartsInside(sp: Space, s: Slice)
    requires WellFormed(sp) && Resolves(sp, s)
    ensures InSource(sp.sources, s.offset, 1)
      <==> PageOf(s.offset, sp.pagesize) + sp.pagesize <= SourceOf(sp, s).base + |SourceOf(sp, s).bytes|
    ensures InSource(sp.sources, s.offset, 1) <==> InSource(sp.sources, PageOf(s.offset, sp.pagesize), sp.pagesize)
  {
    var p, src := sp.pagesize, SourceOf(sp, s);
    var a := PageOf(s.offset, p);
    PageResolves(sp, s);
    assert SourceOk(src, p);
    PageAboveBase(s.offset, p, src.base);
    PageOfIsAligned(s.offset, p);
    EndIsMultiple(src, p);
    if a < src.base + |src.bytes| {
      AlignedStep(a, src.base + |src.bytes|, p);
    }
  }

  lemma EndIsMultiple(s: Source, p: nat)
    requires p > 0 && SourceOk(s, p)
    ensures Aligned(s.base + |s.bytes|, p)
  {
    RemAbove(s.base, |s.bytes|, p);
  }

  /** `allocate_backing`: a page of the first persistent source, unless the key has one already. */
  function AllocateBacking(sp: Space, key: nat): Answer<Space> {
    if key in sp.backing then Ok(sp)
    else
      var i := BestPersistent(sp.sources);
      if i.None? then Err(NoAvailableMemory)
      else
        var r := TakePage(sp.sources, i.value);
        if r.Err? then Err(r.error)
        else Ok(sp.(sources := r.value.0,
                    backing := sp.backing[key := NewStored(r.value.1, sp.sources[i.value].byteAddressable)]))
  }

  /** The same part of the backing page as the slice is of its own page. */
  function Moved(t: Stored, offset: nat, len: nat): Stored {
    match t
    case BlockSlice(s) => BlockSlice(Slice(s.offset + offset, len))
    case ByteSlice(s) => ByteSlice(Slice(s.offset + offset, len))
  }

  /** `get_backing`. */
  function GetBacking(sp: Space, s: Slice): Answer<Option<Stored>>
  {
    var key := PageOf(s.offset, sp.pagesize);
    if !Resolves(sp, s) then Err(InvalidLogicalAddress)
    else if SourceOf(sp, s).persistent then Ok(Some(ByteSlice(s)))
    else if key in sp.backing then Ok(Some(Moved(sp.backing[key], s.offset - key, s.len)))
    else Ok(None)
  }

  /** The copy of a page into its backing page. */
  function WriteBack(sp: Space, key: nat): (r: Space)
    requires WellFormed(sp) && key in sp.backing && InSource(sp.sources, key, sp.pagesize)
    ensures r.pagesize == sp.pagesize && r.backing == sp.backing && SameShape(sp.sources, r.sources)
  {
    assert TargetOk(sp.sources, sp.backing[key], sp.pagesize);
    sp.(sources := Store(sp.sources, sp.backing[key].slice.offset, Load(sp.sources, key, sp.pagesize)))
  }

  /** `flush`. */
  function Flush(sp: Space, s: Slice): Answer<(Space, Stored)>
    requires WellFormed(sp) && Accepted(sp, s)
  {
    PageInSource(sp, s);
    var key := PageOf(s.offset, sp.pagesize);
    if !Resolves(sp, s) then Err(InvalidLogicalAddress)
    else if SourceOf(sp, s).persistent then Ok((sp, ByteSlice(s)))
    else
      var b := AllocateBacking(sp, key);
      if b.Err? then Err(b.error)
      else
        BackingKeeps(sp, key);
        InSourceSame(sp.sources, b.value.sources, key, sp.pagesize);
        Ok((WriteBack(b.value, key), Moved(b.value.backing[key], s.offset - key, s.len)))
  }

  /** `fetch`. */
  function Fetch(sp: Space, s: Slice): Answer<(Space, Slice)>
    requires WellFormed(sp) && Accepted(sp, s)
  {
    PageInSource(sp, s);
    var p := sp.pagesize;
    var key := PageOf(s.offset, p);
    if !Resolves(sp, s) then Err(InvalidLogicalAddress)
    else
      var r := AllocPage(sp.sources);
      if r.Err? then Err(r.error)
      else
        AllocIsTaken(sp.sources, p);
        var data := Load(sp.sources, key, p);
        Ok((sp.(sources := Store(r.value.0, r.value.1.offset, data)),
            Slice(r.value.1.offset + (s.offset - key), s.len)))
  }

  // ---------------------------------------------------------------- what the operations keep

  lemma TargetSurvives(ss: seq<Source>, tt: seq<Source>, t: Stored, p: nat)
    requires p > 0 && TargetOk(ss, t, p) && (SameShape(ss, tt) || SameBytes(ss, tt))
    requires !FreeAt(tt, t.slice.offset)
    ensures TargetOk(tt, t, p)
  {
    LocateSame(ss, tt, t.slice.offset);
  }

  /** Storing bytes keeps a space well formed. */
  lemma StoreKeeps(sp: Space, tt: seq<Source>)
    requires WellFormed(sp) && SameShape(sp.sources, tt)
    ensures WellFormed(sp.(sources := tt))
  {
    var p := sp.pagesize;
    FreeSameShape(sp.sources, tt, p);
    forall k | k in sp.backing ensures TargetOk(tt, sp.backing[k], p) {
      assert TargetOk(sp.sources, sp.backing[k], p);
      TargetSurvives(sp.sources, tt, sp.backing[k], p);
    }
  }

  /** So does taking a page. */
  lemma TakeKeeps(sp: Space, tt: seq<Source>, page: Slice)
    requires WellFormed(sp) && Taken(sp.sources, tt, page, sp.pagesize)
    ensures WellFormed(sp.(sources := tt))
    ensures !IsTarget(sp, page.offset) && !FreeAt(tt, page.offset)
  {
    var p := sp.pagesize;
    forall k | k in sp.backing ensures TargetOk(tt, sp.backing[k], p) && sp.backing[k].slice.offset != page.offset {
      assert TargetOk(sp.sources, sp.backing[k], p);
      TargetSurvives(sp.sources, tt, sp.backing[k], p);
    }
  }

  /** A new backing page is nobody else's, so the map stays one to one. */
  lemma AddTarget(sp: Space, key: nat, t: Stored)
    requires WellFormed(sp) && TargetOk(sp.sources, t, sp.pagesize) && !IsTarget(sp, t.slice.offset)
    ensures WellFormed(sp.(backing := sp.backing[key := t]))
  {
    var b := sp.backing[key := t];
    forall k | k in b ensures TargetOk(sp.sources, b[k], sp.pagesize) {
      assert k != key ==> TargetOk(sp.sources, sp.backing[k], sp.pagesize);
    }
    forall k, l | k in b && l in b && k != l ensures Apart(b[k], b[l]) {
      assert k != key && l != key ==> Apart(sp.backing[k], sp.backing[l]);
    }
  }

  /** A page taken from a persistent source can back another page. */
  lemma TakeTarget(sp: Space, i: nat)
    requires WellFormed(sp) && i < |sp.sources| && sp.sources[i].persistent && TakePage(sp.sources, i).Ok?
    ensures var r := TakePage(sp.sources, i).value;
      && WellFormed(sp.(sources := r.0)) && SameBytes(sp.sources, r.0) && !IsTarget(sp, r.1.offset)
      && TargetOk(r.0, NewStored(r.1, sp.sources[i].byteAddressable), sp.pagesize)
  {
    var r := TakePage(sp.sources, i).value;
    TakeIsTaken(sp.sources, i, sp.pagesize);
    TakeKeeps(sp, r.0, r.1);
    LocateSame(sp.sources, r.0, r.1.offset);
  }

  lemma NewTarget(sp: Space, key: nat, i: nat)
    requires WellFormed(sp) && i < |sp.sources| && sp.sources[i].persistent && TakePage(sp.sources, i).Ok?
    ensures var r := TakePage(sp.sources, i).value;
      && WellFormed(Space(sp.pagesize, r.0, sp.backing[key := NewStored(r.1, sp.sources[i].byteAddressable)]))
      && SameBytes(sp.sources, r.0)
  {
    TakeTarget(sp, i);
    var r := TakePage(sp.sources, i).value;
    AddTarget(Space(sp.pagesize, r.0, sp.backing), key, NewStored(r.1, sp.sources[i].byteAddressable));
  }

  lemma BackingKeeps(sp: Space, key: nat)
    requires WellFormed(sp) && AllocateBacking(sp, key).Ok?
    ensures var r := AllocateBacking(sp, key).value;
      && WellFormed(r) && r.pagesize == sp.pagesize && SameBytes(sp.sources, r.sources)
      && key in r.backing && r.backing == sp.backing[key := r.backing[key]]
      && (key in sp.backing ==> r == sp)
  {
    if key !in sp.backing {
      var i := BestPersistent(sp.sources).value;
      NewTarget(sp, key, i);
      var r := TakePage(sp.sources, i).value;
      assert AllocateBacking(sp, key).value
        == Space(sp.pagesize, r.0, sp.backing[key := NewStored(r.1, sp.sources[i].byteAddressable)]);
    }
  }

  /**
   A key without a backing gets one exactly if the first persistent source has a free page: its lowest one,
   tagged by how that source is addressed.
   */
  lemma BackingServes(sp: Space, key: nat)
    requires WellFormed(sp)
    ensures AllocateBacking(sp, key).Ok? <==> key in sp.backing || HasStorage(sp.sources)
    ensures AllocateBacking(sp, key).Err? ==> AllocateBacking(sp, key).error == NoAvailableMemory
    ensures key in sp.backing ==> AllocateBacking(sp, key) == Ok(sp)
    ensures key !in sp.backing && AllocateBacking(sp, key).Ok? ==>
      forall i: nat {:trigger FirstPersistent(sp.sources, i)} :: FirstPersistent(sp.sources, i) ==>
        BackedFrom(sp, AllocateBacking(sp, key).value, key, i)
  {
    var ss, p := sp.sources, sp.pagesize;
    forall i: nat | FirstPersistent(ss, i) ensures BestPersistent(ss) == Some(i) {
    }
    if key !in sp.backing && BestPersistent(ss).Some? {
      var i := BestPersistent(ss).value;
      assert FirstPersistent(ss, i);
      TakeGivesLowest(ss, i, p);
    }
  }

  /** The key is backed by the lowest free page of source i. */
  ghost predicate BackedFrom(sp: Space, sq: Space, key: nat, i: nat) {
    && i < |sp.sources| == |sq.sources| && key in sq.backing
    && var t := sq.backing[key];
      && LowestFree(sp.sources[i], t.slice.offset) && t.slice.len == sp.pagesize
      && (t.ByteSlice? <==> sp.sources[i].byteAddressable)
      && forall j :: 0 <= j < |sp.sources| && j != i ==> sq.sources[j] == sp.sources[j]
  }

  /** A backing page is a usable slice. */
  lemma TargetUsable(sp: Space, key: nat)
    requires WellFormed(sp) && key in sp.backing
    ensures Usable(sp, sp.backing[key].slice) && Resolves(sp, sp.backing[key].slice)
    ensures PageOf(sp.backing[key].slice.offset, sp.pagesize) == sp.backing[key].slice.offset
  {
    var t := sp.backing[key].slice;
    assert TargetOk(sp.sources, sp.backing[key], sp.pagesize);
    assert SourceOk(SourceOf(sp, t), sp.pagesize);
  }

  /** Finding a backing page first does not change what a flush does. */
  lemma FlushAfterBacking(sp: Space, s: Slice)
    requires WellFormed(sp) && Accepted(sp, s) && Resolves(sp, s) && !SourceOf(sp, s).persistent
    requires AllocateBacking(sp, PageOf(s.offset, sp.pagesize)).Ok?
    ensures var b := AllocateBacking(sp, PageOf(s.offset, sp.pagesize)).value;
      && WellFormed(b) && Accepted(b, s) && Resolves(b, s)
      && SourceOf(b, s).byteAddressable == SourceOf(sp, s).byteAddressable
      && Flush(b, s) == Flush(sp, s)
  {
    var key := PageOf(s.offset, sp.pagesize);
    BackingKeeps(sp, key);
    var b := AllocateBacking(sp, key).value;
    LocateSame(sp.sources, b.sources, s.offset);
    assert AllocateBacking(b, key) == Ok(b);
  }

  lemma FlushKeeps(sp: Space, s: Slice)
    requires WellFormed(sp) && Accepted(sp, s) && Flush(sp, s).Ok?
    ensures WellFormed(Flush(sp, s).value.0)
  {
    PageInSource(sp, s);
    var key := PageOf(s.offset, sp.pagesize);
    if !SourceOf(sp, s).persistent {
      BackingKeeps(sp, key);
      var b := AllocateBacking(sp, key).value;
      InSourceSame(sp.sources, b.sources, key, sp.pagesize);
      StoreKeeps(b, WriteBack(b, key).sources);
    }
  }

  lemma FetchKeeps(sp: Space, s: Slice)
    requires WellFormed(sp) && Accepted(sp, s) && Fetch(sp, s).Ok?
    ensures WellFormed(Fetch(sp, s).value.0)
  {
    PageInSource(sp, s);
    AllocIsTaken(sp.sources, sp.pagesize);
    var r := AllocPage(sp.sources).value;
    TakeKeeps(sp, r.0, r.1);
    StoreKeeps(sp.(sources := r.0), Fetch(sp, s).value.0.sources);
  }

  // ---------------------------------------------------------------- when flush and fetch succeed

  /**
   A flush succeeds exactly if its address resolves and its page lies on a persistent source, has a backing
   page, or can get one. On a persistent source it changes nothing and returns the slice itself.
   */
  lemma FlushSucceedsIff(sp: Space, s: Slice)
    requires WellFormed(sp) && Accepted(sp, s)
    ensures Flush(sp, s).Ok? <==>
      && Resolves(sp, s)
      && (SourceOf(sp, s).persistent || PageOf(s.offset, sp.pagesize) in sp.backing || HasStorage(sp.sources))
    ensures Flush(sp, s).Err? ==>
      Flush(sp, s).error == if Resolves(sp, s) then NoAvailableMemory else InvalidLogicalAddress
    ensures Flush(sp, s).Ok? && SourceOf(sp, s).persistent ==> Flush(sp, s).value == (sp, ByteSlice(s))
    ensures Flush(sp, s).Ok? && !SourceOf(sp, s).persistent ==>
      FlushedTo(sp, s, Flush(sp, s).value.0, Flush(sp, s).value.1.slice)
  {
    BackingServes(sp, PageOf(s.offset, sp.pagesize));
    if Flush(sp, s).Ok? && !SourceOf(sp, s).persistent {
      var b, key := FlushIsWriteBack(sp, s);
    }
  }

  /**
   The slice is the same part of the backing page as s is of its own; the backing page is the old one if there
   was one, and else the lowest free page of the first persistent source.
   */
  ghost predicate FlushedTo(sp: Space, s: Slice, sq: Space, t: Slice) {
    var key := PageOf(s.offset, sp.pagesize);
    && key in sq.backing && t == Slice(sq.backing[key].slice.offset + (s.offset - key), s.len)
    && if key in sp.backing then sq.backing == sp.backing
       else forall i: nat {:trigger FirstPersistent(sp.sources, i)} :: FirstPersistent(sp.sources, i) ==>
         LowestFree(sp.sources[i], sq.backing[key].slice.offset)
  }

  /** A fetch succeeds exactly if its address resolves and there is memory for a copy of its page. */
  lemma FetchSucceedsIff(sp: Space, s: Slice)
    requires WellFormed(sp) && Accepted(sp, s)
    ensures Fetch(sp, s).Ok? <==> Resolves(sp, s) && HasMemory(sp.sources)
    ensures Fetch(sp, s).Err? ==>
      Fetch(sp, s).error == if Resolves(sp, s) then NoAvailableMemory else InvalidLogicalAddress
    ensures Fetch(sp, s).Ok? ==>
      forall i: nat {:trigger FirstByteAddressable(sp.sources, i)} :: FirstByteAddressable(sp.sources, i) ==>
        LowestFree(sp.sources[i], PageOf(Fetch(sp, s).value.1.offset, sp.pagesize))
  {
    AllocServes(sp.sources, sp.pagesize);
    if Fetch(sp, s).Ok? {
      AllocIsTaken(sp.sources, sp.pagesize);
      PageOfPage(AllocPage(sp.sources).value.1.offset, sp.pagesize, s.offset - PageOf(s.offset, sp.pagesize));
    }
  }

  // ---------------------------------------------------------------- round trip

  lemma PartOfPage(sp: Space, s: Slice)
    requires WellFormed(sp) && Usable(sp, s) && Resolves(sp, s)
    ensures var p := sp.pagesize; var key := PageOf(s.offset, p);
      && InSource(sp.sources, key, p) && InSource(sp.sources, s.offset, s.len)
      && Load(sp.sources, s.offset, s.len) == Load(sp.sources, key, p)[s.offset - key..s.offset - key + s.len]
  {
    PageInSource(sp, s);
    LoadPart(sp.sources, PageOf(s.offset, sp.pagesize), sp.pagesize, Rem(s.offset, sp.pagesize), s.len);
  }

  /** A slice at the same place of another whole page. */
  lemma PartOfOtherPage(ss: seq<Source>, p: nat, a: nat, o: nat, len: nat)
    requires p > 0 && Placed(ss, p) && Aligned(a, p) && InSource(ss, a, p) && len > 0 && o + len <= p
    ensures OnePage(Slice(a + o, len), p) && a + o < WORD && PageOf(a + o, p) == a
    ensures Locate(ss, a + o) == Locate(ss, a) && InSource(ss, a + o, len) && InSource(ss, a + o, 1)
    ensures Load(ss, a + o, len) == Load(ss, a, p)[o..o + len]
  {
    PageOfPage(a, p, o);
    LoadPart(ss, a, p, o, len);
    var i := Locate(ss, a).value;
    assert SourceOk(ss[i], p);
    AddressFindsItsSource(ss, i, a + o);
  }

  /** The slice is usable and holds these bytes. */
  ghost predicate Holding(sp: Space, s: Slice, data: seq<byte>) {
    && Usable(sp, s) && Resolves(sp, s) && InSource(sp.sources, s.offset, s.len)
    && Load(sp.sources, s.offset, s.len) == data
  }

  lemma PartIsHeld(sp: Space, a: nat, o: nat, len: nat)
    requires Placed(sp.sources, sp.pagesize) && Aligned(a, sp.pagesize) && InSource(sp.sources, a, sp.pagesize)
    requires len > 0 && o + len <= sp.pagesize
    ensures Holding(sp, Slice(a + o, len), Load(sp.sources, a, sp.pagesize)[o..o + len])
    ensures Locate(sp.sources, a + o) == Locate(sp.sources, a)
  {
    PartOfOtherPage(sp.sources, sp.pagesize, a, o, len);
  }

  lemma WriteBackStores(b: Space, key: nat)
    requires WellFormed(b) && key in b.backing && InSource(b.sources, key, b.pagesize)
    ensures var r := WriteBack(b, key); var a := b.backing[key].slice.offset;
      && Placed(r.sources, b.pagesize) && Aligned(a, b.pagesize) && InSource(r.sources, a, b.pagesize)
      && r.sources[Locate(r.sources, a).value].persistent
      && (b.backing[key].ByteSlice? <==> r.sources[Locate(r.sources, a).value].byteAddressable)
      && Load(r.sources, a, b.pagesize) == Load(b.sources, key, b.pagesize)
  {
    var p, a := b.pagesize, b.backing[key].slice.offset;
    var tt := WriteBack(b, key).sources;
    assert TargetOk(b.sources, b.backing[key], p);
    FreeSameShape(b.sources, tt, p);
    LocateSame(b.sources, tt, a);
    LoadStored(b.sources, a, Load(b.sources, key, p));
  }

  /** A slice's place in a copy of its page holds the slice's bytes. */
  lemma CopyHoldsSlice(sp: Space, s: Slice, r: Space, a: nat)
    requires WellFormed(sp) && Usable(sp, s) && Resolves(sp, s)
    requires r.pagesize == sp.pagesize && Placed(r.sources, r.pagesize)
    requires Aligned(a, r.pagesize) && InSource(r.sources, a, r.pagesize)
    requires InSource(sp.sources, PageOf(s.offset, sp.pagesize), sp.pagesize)
    requires Load(r.sources, a, r.pagesize) == Load(sp.sources, PageOf(s.offset, sp.pagesize), sp.pagesize)
    ensures InSource(sp.sources, s.offset, s.len)
    ensures var o := s.offset - PageOf(s.offset, sp.pagesize);
      && Holding(r, Slice(a + o, s.len), Load(sp.sources, s.offset, s.len))
      && Locate(r.sources, a + o) == Locate(r.sources, a)
  {
    PartOfPage(sp, s);
    PartIsHeld(r, a, s.offset - PageOf(s.offset, sp.pagesize), s.len);
  }

  lemma WriteBackHolds(sp: Space, s: Slice, b: Space, key: nat)
    requires WellFormed(sp) && Usable(sp, s) && Resolves(sp, s) && key == PageOf(s.offset, sp.pagesize)
    requires WellFormed(b) && b.pagesize == sp.pagesize && key in b.backing
    requires InSource(b.sources, key, b.pagesize) && InSource(sp.sources, key, b.pagesize)
    requires Load(b.sources, key, b.pagesize) == Load(sp.sources, key, b.pagesize)
    ensures InSource(sp.sources, s.offset, s.len)
    ensures var r := WriteBack(b, key); var t := Moved(b.backing[key], s.offset - key, s.len).slice;
      && Holding(r, t, Load(sp.sources, s.offset, s.len)) && SourceOf(r, t).persistent
      && (b.backing[key].ByteSlice? <==> SourceOf(r, t).byteAddressable)
  {
    WriteBackStores(b, key);
    CopyHoldsSlice(sp, s, WriteBack(b, key), b.backing[key].slice.offset);
  }

  /** The parts of a flush to a volatile page. */
  lemma FlushIsWriteBack(sp: Space, s: Slice) returns (b: Space, key: nat)
    requires WellFormed(sp) && Accepted(sp, s) && Flush(sp, s).Ok? && !SourceOf(sp, s).persistent
    ensures key == PageOf(s.offset, sp.pagesize) && AllocateBacking(sp, key) == Ok(b)
    ensures WellFormed(b) && b.pagesize == sp.pagesize && key in b.backing
    ensures InSource(sp.sources, key, sp.pagesize) && InSource(b.sources, key, sp.pagesize)
    ensures SameBytes(sp.sources, b.sources) && b.backing == sp.backing[key := b.backing[key]]
    ensures Load(b.sources, key, sp.pagesize) == Load(sp.sources, key, sp.pagesize)
    ensures Flush(sp, s).value == (WriteBack(b, key), Moved(b.backing[key], s.offset - key, s.len))
  {
    PageInSource(sp, s);
    key := PageOf(s.offset, sp.pagesize);
    BackingKeeps(sp, key);
    b := AllocateBacking(sp, key).value;
    LoadSameBytes(sp.sources, b.sources, key, sp.pagesize);
  }

  lemma VolatileFlushWrites(sp: Space, s: Slice)
    requires WellFormed(sp) && Usable(sp, s) && Flush(sp, s).Ok? && !SourceOf(sp, s).persistent
    ensures InSource(sp.sources, s.offset, s.len)
    ensures var r := Flush(sp, s).value;
      && Holding(r.0, r.1.slice, Load(sp.sources, s.offset, s.len)) && SourceOf(r.0, r.1.slice).persistent
      && (r.1.ByteSlice? <==> SourceOf(r.0, r.1.slice).byteAddressable)
  {
    var b, key := FlushIsWriteBack(sp, s);
    WriteBackHolds(sp, s, b, key);
  }

  /** A flush leaves the bytes of the slice in storage. */
  lemma FlushWrites(sp: Space, s: Slice)
    requires WellFormed(sp) && Usable(sp, s) && Flush(sp, s).Ok?
    ensures InSource(sp.sources, s.offset, s.len) && Flush(sp, s).value.1.slice.len == s.len
    ensures var r := Flush(sp, s).value;
      && Holding(r.0, r.1.slice, Load(sp.sources, s.offset, s.len)) && SourceOf(r.0, r.1.slice).persistent
      && (!SourceOf(sp, s).persistent ==> (r.1.ByteSlice? <==> SourceOf(r.0, r.1.slice).byteAddressable))
  {
    if !SourceOf(sp, s).persistent {
      VolatileFlushWrites(sp, s);
    } else {
      PageInSource(sp, s);
    }
  }

  /** After a flush the slice has a backing, and it is what the flush returned. */
  lemma FlushGivesBacking(sp: Space, s: Slice)
    requires WellFormed(sp) && Accepted(sp, s) && Flush(sp, s).Ok?
    ensures var r := Flush(sp, s).value; Accepted(r.0, s) && GetBacking(r.0, s) == Ok(Some(r.1))
  {
    if !SourceOf(sp, s).persistent {
      var b, key := FlushIsWriteBack(sp, s);
      SameSource(sp, b, s);
      SameSource(b, WriteBack(b, key), s);
    }
  }

  /** The slice that a flush returns stays inside one backing page exactly if the argument did in its own. */
  lemma FlushedPartFitsIff(sp: Space, s: Slice)
    requires WellFormed(sp) && Accepted(sp, s) && Flush(sp, s).Ok? && !SourceOf(sp, s).persistent
    ensures var r := Flush(sp, s).value; var key := PageOf(s.offset, sp.pagesize);
      && key in r.0.backing
      && var t, page := r.1.slice, r.0.backing[key].slice;
        && page.offset <= t.offset < page.offset + page.len
        && (t.offset + t.len <= page.offset + page.len <==> OnePage(s, sp.pagesize))
  {
    var b, key := FlushIsWriteBack(sp, s);
    assert TargetOk(b.sources, b.backing[key], b.pagesize);
  }

  /** The slice that a fetch returns starts in the fetched page, and fits exactly if the argument did. */
  lemma FetchedPartFitsIff(sp: Space, s: Slice)
    requires WellFormed(sp) && Accepted(sp, s) && Fetch(sp, s).Ok?
    ensures var r := Fetch(sp, s).value; Accepted(r.0, r.1) && (Usable(r.0, r.1) <==> OnePage(s, sp.pagesize))
  {
    var r, page := FetchIsCopy(sp, s);
    var p, o := sp.pagesize, s.offset - PageOf(s.offset, sp.pagesize);
    PartIsHeld(r, page.offset, o, 1);
    PageOfPage(page.offset, p, o);
  }

  lemma SameSource(sp: Space, sq: Space, s: Slice)
    requires sp.pagesize == sq.pagesize && (SameShape(sp.sources, sq.sources) || SameBytes(sp.sources, sq.sources))
    ensures Accepted(sp, s) <==> Accepted(sq, s)
    ensures Resolves(sp, s) <==> Resolves(sq, s)
    ensures Resolves(sp, s) ==> SourceOf(sp, s).persistent == SourceOf(sq, s).persistent
  {
    LocateSame(sp.sources, sq.sources, s.offset);
  }

  /** Reading what was fetched gives the bytes that were in storage. */
  lemma FetchReads(sp: Space, s: Slice)
    requires WellFormed(sp) && Usable(sp, s) && Fetch(sp, s).Ok?
    ensures Resolves(sp, s) && InSource(sp.sources, s.offset, s.len)
    ensures var r := Fetch(sp, s).value;
      && Holding(r.0, r.1, Load(sp.sources, s.offset, s.len)) && SourceOf(r.0, r.1).byteAddressable
      && r.1.len == s.len
  {
    var r, page := FetchIsCopy(sp, s);
    CopyHoldsSlice(sp, s, r, page.offset);
  }

  /** The parts of a fetch. */
  lemma FetchIsCopy(sp: Space, s: Slice) returns (r: Space, page: Slice)
    requires WellFormed(sp) && Accepted(sp, s) && Fetch(sp, s).Ok?
    ensures Resolves(sp, s) && InSource(sp.sources, PageOf(s.offset, sp.pagesize), sp.pagesize)
    ensures Fetch(sp, s).value == (r, Slice(page.offset + (s.offset - PageOf(s.offset, sp.pagesize)), s.len))
    ensures r.pagesize == sp.pagesize && r.backing == sp.backing && Placed(r.sources, sp.pagesize)
    ensures Aligned(page.offset, sp.pagesize) && InSource(r.sources, page.offset, sp.pagesize)
    ensures r.sources[Locate(r.sources, page.offset).value].byteAddressable
    ensures Locate(r.sources, page.offset) == BestByteAddressable(sp.sources)
    ensures Load(r.sources, page.offset, sp.pagesize) == Load(sp.sources, PageOf(s.offset, sp.pagesize), sp.pagesize)
  {
    PageInSource(sp, s);
    var p := sp.pagesize;
    var data := Load(sp.sources, PageOf(s.offset, p), p);
    AllocIsTaken(sp.sources, p);
    var a := AllocPage(sp.sources).value;
    page := a.1;
    CopyIntoPage(sp.sources, a.0, page, p, data);
    r := sp.(sources := Store(a.0, page.offset, data));
  }

  lemma FetchTakesPage(sp: Space, s: Slice) returns (tt: seq<Source>, page: Slice)
    requires WellFormed(sp) && Accepted(sp, s) && Fetch(sp, s).Ok?
    ensures Taken(sp.sources, tt, page, sp.pagesize) && PageOf(Fetch(sp, s).value.1.offset, sp.pagesize) == page.offset
    ensures InSource(sp.sources, PageOf(s.offset, sp.pagesize), sp.pagesize)
    ensures Fetch(sp, s).value.0
         == sp.(sources := Store(tt, page.offset, Load(sp.sources, PageOf(s.offset, sp.pagesize), sp.pagesize)))
  {
    PageInSource(sp, s);
    AllocIsTaken(sp.sources, sp.pagesize);
    tt, page := AllocPage(sp.sources).value.0, AllocPage(sp.sources).value.1;
    PageOfPage(page.offset, sp.pagesize, s.offset - PageOf(s.offset, sp.pagesize));
  }

  /** A fetch takes a page that was free. */
  lemma FetchFrees(sp: Space, s: Slice)
    requires WellFormed(sp) && Accepted(sp, s) && Fetch(sp, s).Ok?
    ensures var r := Fetch(sp, s).value; var page := PageOf(r.1.offset, sp.pagesize);
      FreeAt(sp.sources, page) && !FreeAt(r.0.sources, page)
  {
    var tt, page := FetchTakesPage(sp, s);
    FreeSameShape(tt, Fetch(sp, s).value.0.sources, sp.pagesize);
  }

  lemma CopyIntoPage(ss: seq<Source>, tt: seq<Source>, page: Slice, p: nat, data: seq<byte>)
    requires p > 0 && Taken(ss, tt, page, p) && |data| == p
    ensures var r := Store(tt, page.offset, data);
      && Placed(r, p) && InSource(r, page.offset, p) && Load(r, page.offset, p) == data
      && Locate(r, page.offset) == Locate(ss, page.offset)
      && r[Locate(r, page.offset).value].byteAddressable == ss[Locate(r, page.offset).value].byteAddressable
  {
    var r := Store(tt, page.offset, data);
    FreeSameShape(tt, r, p);
    LocateSame(ss, tt, page.offset);
    LocateSame(tt, r, page.offset);
    LoadStored(tt, page.offset, data);
  }

  /** Fetching the slice, if there is memory for it, and reading the result gives these bytes. */
  ghost predicate FetchesAs(sp: Space, s: Slice, data: seq<byte>) {
    && WellFormed(sp) && Usable(sp, s)
    && (Fetch(sp, s).Ok? ==>
          Holding(Fetch(sp, s).value.0, Fetch(sp, s).value.1, data) && Fetch(sp, s).value.1.len == s.len)
  }

  lemma HeldIsFetched(sp: Space, s: Slice, data: seq<byte>)
    requires WellFormed(sp) && Holding(sp, s, data)
    ensures FetchesAs(sp, s, data)
  {
    if Fetch(sp, s).Ok? {
      FetchReads(sp, s);
    }
  }

  /** Flush, then fetch what it returned, then read: the bytes present at the flush. */
  lemma FlushFetchRoundTrip(sp: Space, s: Slice)
    requires WellFormed(sp) && Usable(sp, s) && Flush(sp, s).Ok?
    ensures InSource(sp.sources, s.offset, s.len) && Flush(sp, s).value.1.slice.len == s.len
    ensures FetchesAs(Flush(sp, s).value.0, Flush(sp, s).value.1.slice, Load(sp.sources, s.offset, s.len))
  {
    FlushWrites(sp, s);
    FlushKeeps(sp, s);
    HeldIsFetched(Flush(sp, s).value.0, Flush(sp, s).value.1.slice, Load(sp.sources, s.offset, s.len));
  }
}
