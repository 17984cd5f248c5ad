/** Where `LogicalAddressSpace::new` finds the root, when it creates it and when it opens it again. */
module Roots {
  import opened Basics
  import opened Bits
  import opened Rounding
  import opened Pages
  import opened Spaces
  import opened Backing

  /** The meta page of a source: `get_meta`. */
  function MetaPage(sp: Space, i: nat): Slice
    requires i < |sp.sources|
  {
    Slice(sp.sources[i].base + sp.pagesize, sp.pagesize)
  }

  /** The page before it, which starts with the header of the source. */
  function HeaderPage(sp: Space, i: nat): Slice
    requires i < |sp.sources|
  {
    Slice(sp.sources[i].base, sp.pagesize)
  }

  /** An address in one of the two pages that a source reserves. */
  predicate InReserved(sp: Space, i: nat, addr: nat) {
    i < |sp.sources| && sp.sources[i].base <= addr < sp.sources[i].base + 2 * sp.pagesize
  }

  /** Where in its page an address lies. */
  function InPage(sp: Space, addr: nat): nat {
    addr - PageOf(addr, sp.pagesize)
  }

  /** The page of an address. */
  function PageSlice(sp: Space, addr: nat): Slice {
    Slice(PageOf(addr, sp.pagesize), sp.pagesize)
  }

  lemma ReservedIsUsable(sp: Space, i: nat, addr: nat)
    requires WellFormed(sp) && InReserved(sp, i, addr)
    ensures var a := PageOf(addr, sp.pagesize);
      && Usable(sp, PageSlice(sp, addr)) && Locate(sp.sources, a) == Some(i) && PageOf(a, sp.pagesize) == a
      && Aligned(a, sp.pagesize) && InSource(sp.sources, a, sp.pagesize) && a <= sp.sources[i].base + sp.pagesize
  {
    var s, p := sp.sources[i], sp.pagesize;
    var a := PageOf(addr, p);
    assert SourceOk(s, p);
    PageAboveBase(addr, p, s.base);
    PageOfIsAligned(addr, p);
    RemAbove(s.base, p, p);
    PageInReserved(s.base, addr, p);
    AddressFindsItsSource(sp.sources, i, a);
    PageOfPage(a, p, 0);
  }

  lemma PageInReserved(base: nat, addr: nat, p: nat)
    requires p > 0 && Aligned(base, p) && addr < base + 2 * p
    ensures PageOf(addr, p) <= base + p
  {
    RemAbove(base, p, p);
    PageOfIsAligned(addr, p);
    if base + p < PageOf(addr, p) {
      AlignedStep(base + p, PageOf(addr, p), p);
    }
  }

  /** No free list ever holds a reserved page. */
  lemma ReservedIsNotFree(sp: Space, i: nat, addr: nat)
    requires WellFormed(sp) && InReserved(sp, i, addr)
    ensures !FreeAt(sp.sources, PageOf(addr, sp.pagesize))
  {
    var a := PageOf(addr, sp.pagesize);
    ReservedIsUsable(sp, i, addr);
    forall j | 0 <= j < |sp.sources| ensures !IsFree(sp.sources[j], a) {
      if IsFree(sp.sources[j], a) {
        var k :| 0 <= k < |sp.sources[j].free| && a == sp.sources[j].base + sp.sources[j].free[k].offset;
        FreePageIsMapped(sp.sources, sp.pagesize, j, k);
      }
    }
  }

  // ---------------------------------------------------------------- mapping a root

  /**
   The end of `new`, for a root at this address in source i: it is used in place on a byte-addressable
   source. On a block source the page around it is fetched, and backs the copy. `field` is where the root
   lies in the meta data.
   */
  function MapRoot(sp: Space, i: nat, addr: nat, field: nat, size: nat): Answer<(Space, Slice)>
    requires WellFormed(sp) && InReserved(sp, i, addr)
  {
    if sp.sources[i].byteAddressable then Ok((sp, Slice(addr, size)))
    else
      ReservedIsUsable(sp, i, addr);
      var page := PageSlice(sp, addr);
      var f := Fetch(sp, page);
      if f.Err? then Err(f.error)
      else
        var at := f.value.1.offset;
        Ok((f.value.0.(backing := f.value.0.backing[at := BlockSlice(page)]), Slice(at + field, size)))
  }

  /** The page joins the backing map, and the map stays one to one. */
  lemma MapKeeps(sp: Space, i: nat, addr: nat, field: nat, size: nat)
    requires WellFormed(sp) && sp.backing == map[] && InReserved(sp, i, addr)
    requires MapRoot(sp, i, addr, field, size).Ok? && (sp.sources[i].byteAddressable || sp.sources[i].persistent)
    ensures WellFormed(MapRoot(sp, i, addr, field, size).value.0)
  {
    if !sp.sources[i].byteAddressable {
      ReservedIsUsable(sp, i, addr);
      var page := PageSlice(sp, addr);
      FetchKeeps(sp, page);
      var f := Fetch(sp, page).value.0;
      FetchShape(sp, page);
      LocateSame(sp.sources, f.sources, page.offset);
      ReservedIsNotFree(f, i, addr);
      AddTarget(f, Fetch(sp, page).value.1.offset, BlockSlice(page));
    }
  }

  /** A fetch moves no source. */
  lemma FetchShape(sp: Space, s: Slice)
    requires WellFormed(sp) && Accepted(sp, s) && Fetch(sp, s).Ok?
    ensures var tt := Fetch(sp, s).value.0.sources;
      && |tt| == |sp.sources|
      && (forall j :: 0 <= j < |tt| ==> tt[j] == sp.sources[j].(bytes := tt[j].bytes, free := tt[j].free)
                                        && |tt[j].bytes| == |sp.sources[j].bytes|)
  {
    AllocIsTaken(sp.sources, sp.pagesize);
  }

  /** The bytes that lie at some place of the page around an address. */
  function FieldAt(sp: Space, i: nat, addr: nat, field: nat, size: nat): seq<byte>
    requires WellFormed(sp) && InReserved(sp, i, addr) && field + size <= sp.pagesize
  {
    ReservedIsUsable(sp, i, addr);
    Load(sp.sources, PageOf(addr, sp.pagesize), sp.pagesize)[field..field + size]
  }

  /** A reserved page is fetched whole. */
  lemma FetchedPageHolds(sp: Space, i: nat, addr: nat, field: nat, size: nat)
    requires WellFormed(sp) && InReserved(sp, i, addr) && size > 0 && field + size <= sp.pagesize
    requires Usable(sp, PageSlice(sp, addr)) && Fetch(sp, PageSlice(sp, addr)).Ok?
    ensures var f := Fetch(sp, PageSlice(sp, addr)).value; var t := Slice(f.1.offset + field, size);
      Holding(f.0, t, FieldAt(sp, i, addr, field, size)) && SourceOf(f.0, t).byteAddressable
  {
    ReservedIsUsable(sp, i, addr);
    var r, page := FetchIsCopy(sp, PageSlice(sp, addr));
    PartIsHeld(r, page.offset, field, size);
  }

  /** A mapped root reads as the bytes at its address. */
  lemma MappedRootReads(sp: Space, i: nat, addr: nat, field: nat, size: nat)
    requires WellFormed(sp) && InReserved(sp, i, addr) && size > 0 && field + size <= sp.pagesize
    requires addr == PageOf(addr, sp.pagesize) + field && MapRoot(sp, i, addr, field, size).Ok?
    ensures var r := MapRoot(sp, i, addr, field, size).value;
      Holding(r.0, r.1, FieldAt(sp, i, addr, field, size)) && SourceOf(r.0, r.1).byteAddressable
  {
    ReservedIsUsable(sp, i, addr);
    if sp.sources[i].byteAddressable {
      PartIsHeld(sp, PageOf(addr, sp.pagesize), field, size);
    } else {
      FetchedPageHolds(sp, i, addr, field, size);
      var f := Fetch(sp, PageSlice(sp, addr)).value;
      SameSourcesHold(f.0, MapRoot(sp, i, addr, field, size).value.0, Slice(f.1.offset + field, size));
    }
  }

  lemma SameSourcesHold(sp: Space, sq: Space, s: Slice)
    requires sp.pagesize == sq.pagesize && sp.sources == sq.sources
    ensures forall d :: Holding(sp, s, d) <==> Holding(sq, s, d)
    ensures Resolves(sp, s) ==> Resolves(sq, s) && SourceOf(sp, s) == SourceOf(sq, s)
  {
  }

  // ---------------------------------------------------------------- the two addresses

  /** The address of a root that is created: the meta page and the field in it. */
  function CreatedAddress(sp: Space, i: nat, field: nat): nat
    requires i < |sp.sources|
  {
    MetaPage(sp, i).offset + field
  }

  /** The address of a root found in the meta data of a source: the base that the meta data gives, and field. */
  function FoundAddress(sp: Space, i: nat, field: nat): nat
    requires i < |sp.sources|
  {
    sp.sources[i].base + field
  }

  /** The one lies in the meta page, the other one page below in the header page; both at the same place. */
  lemma RootAddresses(sp: Space, i: nat, field: nat)
    requires WellFormed(sp) && i < |sp.sources| && field < sp.pagesize
    ensures CreatedAddress(sp, i, field) == FoundAddress(sp, i, field) + sp.pagesize
    ensures InReserved(sp, i, CreatedAddress(sp, i, field)) && InReserved(sp, i, FoundAddress(sp, i, field))
    ensures PageSlice(sp, CreatedAddress(sp, i, field)) == MetaPage(sp, i)
    ensures PageSlice(sp, FoundAddress(sp, i, field)) == HeaderPage(sp, i)
    ensures InPage(sp, CreatedAddress(sp, i, field)) == InPage(sp, FoundAddress(sp, i, field)) == field
  {
    var s, p := sp.sources[i], sp.pagesize;
    assert SourceOk(s, p);
    RemAbove(s.base, p, p);
    PageOfPage(s.base, p, field);
    PageOfPage(s.base + p, p, field);
  }

  // ---------------------------------------------------------------- a created root

  /** Where the root lives when it is created: the first persistent source, or else the first in memory. */
  function RootSource(ss: seq<Source>): Option<nat> {
    var i := BestPersistent(ss);
    if i.Some? then i else BestByteAddressable(ss)
  }

  function CreateRoot(sp: Space, field: nat, size: nat): Answer<(Space, Slice)>
    requires WellFormed(sp) && field < sp.pagesize
  {
    var i := RootSource(sp.sources);
    if i.None? then Err(NoAvailableMemory)
    else
      RootAddresses(sp, i.value, field);
      MapRoot(sp, i.value, CreatedAddress(sp, i.value, field), field, size)
  }

  /** Creating the root keeps the space well formed. */
  lemma CreateKeeps(sp: Space, field: nat, size: nat)
    requires WellFormed(sp) && field < sp.pagesize && sp.backing == map[] && CreateRoot(sp, field, size).Ok?
    ensures WellFormed(CreateRoot(sp, field, size).value.0)
  {
    var i := RootSource(sp.sources).value;
    RootAddresses(sp, i, field);
    MapKeeps(sp, i, CreatedAddress(sp, i, field), field, size);
  }

  /** The bytes of the root field in the meta page of a source. */
  function RootField(sp: Space, i: nat, field: nat, size: nat): seq<byte>
    requires WellFormed(sp) && i < |sp.sources| && size > 0 && field + size <= sp.pagesize
  {
    RootAddresses(sp, i, 0);
    FieldAt(sp, i, MetaPage(sp, i).offset, field, size)
  }

  /** What the header page holds at the same place. */
  function HeaderField(sp: Space, i: nat, field: nat, size: nat): seq<byte>
    requires WellFormed(sp) && i < |sp.sources| && size > 0 && field + size <= sp.pagesize
  {
    RootAddresses(sp, i, 0);
    FieldAt(sp, i, HeaderPage(sp, i).offset, field, size)
  }

  /** A created root reads as the root field of the meta page. */
  lemma CreatedRootReadsMeta(sp: Space, field: nat, size: nat)
    requires WellFormed(sp) && size > 0 && field + size <= sp.pagesize && CreateRoot(sp, field, size).Ok?
    ensures var i := RootSource(sp.sources).value; var r := CreateRoot(sp, field, size).value;
      Holding(r.0, r.1, RootField(sp, i, field, size)) && SourceOf(r.0, r.1).byteAddressable
  {
    var i := RootSource(sp.sources).value;
    RootAddresses(sp, i, 0);
    RootAddresses(sp, i, field);
    MappedRootReads(sp, i, CreatedAddress(sp, i, field), field, size);
  }

  /** The first persistent source, or the first in memory if nothing persists. */
  ghost predicate IsHome(ss: seq<Source>, i: nat) {
    FirstPersistent(ss, i) || (FirstByteAddressable(ss, i) && forall j :: 0 <= j < |ss| ==> !ss[j].persistent)
  }

  lemma HomeIsUnique(ss: seq<Source>, i: nat)
    requires IsHome(ss, i)
    ensures RootSource(ss) == Some(i)
  {
    assert BestPersistent(ss) == if FirstPersistent(ss, i) then Some(i) else None;
    assert FirstPersistent(ss, i) || BestByteAddressable(ss) == Some(i);
  }

  /** The root lies on this source in place, or in a fetched copy of the meta page that this page backs. */
  ghost predicate LiesAt(sp: Space, i: nat, field: nat, size: nat, sq: Space, root: Slice)
    requires i < |sp.sources|
  {
    if sp.sources[i].byteAddressable then
      sq == sp && root == Slice(MetaPage(sp, i).offset + field, size) && Locate(sq.sources, root.offset) == Some(i)
    else
      var page := PageOf(root.offset, sp.pagesize);
      && sq.backing == sp.backing[page := BlockSlice(MetaPage(sp, i))] && root == Slice(page + field, size)
      && FreeAt(sp.sources, page) && !FreeAt(sq.sources, page)
      && forall j: nat {:trigger FirstByteAddressable(sp.sources, j)} ::
           FirstByteAddressable(sp.sources, j) ==> Locate(sq.sources, root.offset) == Some(j)
  }

  /**
   Where a created root lives, from the flags alone: on the first persistent source, or in memory if there
   is none. It reads as the root field of that source's meta page. It fails exactly if there is no
   source for it, or no memory for a copy of a block source's meta page.
   */
  lemma CreatedRootIsHome(sp: Space, i: nat, field: nat, size: nat)
    requires WellFormed(sp) && size > 0 && field + size <= sp.pagesize && IsHome(sp.sources, i)
    ensures CreateRoot(sp, field, size).Ok? <==> sp.sources[i].byteAddressable || HasMemory(sp.sources)
    ensures CreateRoot(sp, field, size).Ok? ==>
      var r := CreateRoot(sp, field, size).value;
      && LiesAt(sp, i, field, size, r.0, r.1) && Holding(r.0, r.1, RootField(sp, i, field, size))
      && SourceOf(r.0, r.1).byteAddressable
    ensures CreateRoot(sp, field, size).Err? ==> CreateRoot(sp, field, size).error == NoAvailableMemory
  {
    HomeIsUnique(sp.sources, i);
    RootAddresses(sp, i, field);
    var addr := CreatedAddress(sp, i, field);
    ReservedIsUsable(sp, i, addr);
    if sp.sources[i].byteAddressable {
      PartIsHeld(sp, MetaPage(sp, i).offset, field, size);
    } else {
      FetchSucceedsIff(sp, MetaPage(sp, i));
      if CreateRoot(sp, field, size).Ok? {
        CopyIsFresh(sp, i, addr, field, size);
      }
    }
    if CreateRoot(sp, field, size).Ok? {
      CreatedRootReadsMeta(sp, field, size);
    }
  }

  /** On a block source the root lies in a page that was free. */
  lemma CopyIsFresh(sp: Space, i: nat, addr: nat, field: nat, size: nat)
    requires WellFormed(sp) && InReserved(sp, i, addr) && !sp.sources[i].byteAddressable && field < sp.pagesize
    requires MapRoot(sp, i, addr, field, size).Ok?
    ensures var r := MapRoot(sp, i, addr, field, size).value; var page := PageOf(r.1.offset, sp.pagesize);
      && r.0.backing == sp.backing[page := BlockSlice(PageSlice(sp, addr))] && r.1 == Slice(page + field, size)
      && FreeAt(sp.sources, page) && !FreeAt(r.0.sources, page)
      && forall j: nat {:trigger FirstByteAddressable(sp.sources, j)} ::
           FirstByteAddressable(sp.sources, j) ==> Locate(r.0.sources, r.1.offset) == Some(j)
  {
    ReservedIsUsable(sp, i, addr);
    PageCopy(sp, PageSlice(sp, addr), field);
  }

  /** A whole page that is fetched goes to a page that was free, of the first byte-addressable source. */
  lemma PageCopy(sp: Space, s: Slice, field: nat)
    requires WellFormed(sp) && Usable(sp, s) && Fetch(sp, s).Ok? && field < sp.pagesize
    requires PageOf(s.offset, sp.pagesize) == s.offset
    ensures var r := Fetch(sp, s).value; var page := r.1.offset;
      && PageOf(page + field, sp.pagesize) == page && r.0.backing == sp.backing
      && FreeAt(sp.sources, page) && !FreeAt(r.0.sources, page)
      && forall j: nat {:trigger FirstByteAddressable(sp.sources, j)} ::
           FirstByteAddressable(sp.sources, j) ==> Locate(r.0.sources, page + field) == Some(j)
  {
    var r, page := FetchIsCopy(sp, s);
    FetchFrees(sp, s);
    PageOfPage(page.offset, sp.pagesize, 0);
    PageOfPage(page.offset, sp.pagesize, field);
    PartIsHeld(r, page.offset, field, 1);
    forall j: nat | FirstByteAddressable(sp.sources, j) ensures BestByteAddressable(sp.sources) == Some(j) {
    }
  }

  /** Without a persistent and without a byte-addressable source there is no root. */
  lemma NoHomeNoRoot(sp: Space, field: nat, size: nat)
    requires WellFormed(sp) && field < sp.pagesize
    requires forall j :: 0 <= j < |sp.sources| ==> !sp.sources[j].persistent && !sp.sources[j].byteAddressable
    ensures CreateRoot(sp, field, size) == Err(NoAvailableMemory)
  {
  }

  /** A copy of the meta page, if the home needs one, is made on a volatile source, so that flushing it writes. */
  ghost predicate ReachesHome(ss: seq<Source>, i: nat)
    requires i < |ss|
  {
    ss[i].byteAddressable || forall j: nat :: FirstByteAddressable(ss, j) ==> !ss[j].persistent
  }

  /**
   Flushing a created root, after any bytes were stored over it and elsewhere in memory, stores it in the
   root field of the meta page of its persistent home, if and only if the home is byte addressable or the first
   byte-addressable source is volatile. Otherwise the flush writes nothing, and the root stays in the copy.
   */
  lemma FlushedRootIsHomeIff(sp: Space, i: nat, field: nat, size: nat, sq: Space, root: seq<byte>)
    requires WellFormed(sp) && sp.backing == map[] && FirstPersistent(sp.sources, i)
    requires size > 0 && field + size <= sp.pagesize && CreateRoot(sp, field, size).Ok?
    requires var r := CreateRoot(sp, field, size).value;
      sq == r.0.(sources := sq.sources) && SameShape(r.0.sources, sq.sources) && Holding(sq, r.1, root)
    ensures var r := CreateRoot(sp, field, size).value;
      && WellFormed(sq) && Flush(sq, r.1).Ok?
      && Holding(Flush(sq, r.1).value.0, Flush(sq, r.1).value.1.slice, root)
      && (Flush(sq, r.1).value.1.slice == Slice(MetaPage(sp, i).offset + field, size) <==> ReachesHome(sp.sources, i))
      && (!ReachesHome(sp.sources, i) ==> Flush(sq, r.1).value == (sq, ByteSlice(r.1)))
  {
    CreatedRootIsHome(sp, i, field, size);
    CreateKeeps(sp, field, size);
    var r := CreateRoot(sp, field, size).value;
    StoreKeeps(r.0, sq.sources);
    RootIsBacked(sp, i, field, size, sq, r.1);
    FlushGoesTo(sq, r.1, Slice(MetaPage(sp, i).offset + field, size), root);
  }

  /** A flush writes to the backing page, if the slice is not on a persistent source itself. */
  lemma FlushGoesTo(sq: Space, s: Slice, home: Slice, data: seq<byte>)
    requires WellFormed(sq) && Holding(sq, s, data)
    requires var key := PageOf(s.offset, sq.pagesize);
      || SourceOf(sq, s).persistent
      || (key in sq.backing && Slice(sq.backing[key].slice.offset + (s.offset - key), s.len) == home)
    ensures Flush(sq, s).Ok? && Holding(Flush(sq, s).value.0, Flush(sq, s).value.1.slice, data)
    ensures if SourceOf(sq, s).persistent then Flush(sq, s).value == (sq, ByteSlice(s))
            else Flush(sq, s).value.1.slice == home
  {
    FlushSucceedsIff(sq, s);
    FlushWrites(sq, s);
  }

  /** What a flush of the root finds. */
  lemma RootIsBacked(sp: Space, i: nat, field: nat, size: nat, sq: Space, root: Slice)
    requires WellFormed(sp) && sp.backing == map[] && FirstPersistent(sp.sources, i)
    requires size > 0 && field + size <= sp.pagesize && CreateRoot(sp, field, size).Ok?
    requires var r := CreateRoot(sp, field, size).value;
      && LiesAt(sp, i, field, size, r.0, r.1) && root == r.1 && sq == r.0.(sources := sq.sources)
      && SameShape(r.0.sources, sq.sources) && Resolves(sq, root)
    requires !sp.sources[i].byteAddressable ==> HasMemory(sp.sources)
    ensures var home := Slice(MetaPage(sp, i).offset + field, size); var key := PageOf(root.offset, sp.pagesize);
      if SourceOf(sq, root).persistent then root == home <==> ReachesHome(sp.sources, i)
      else
        && ReachesHome(sp.sources, i) && key in sq.backing
        && Slice(sq.backing[key].slice.offset + (root.offset - key), root.len) == home
  {
    var r := CreateRoot(sp, field, size).value;
    LocateSame(r.0.sources, sq.sources, root.offset);
    CreateShape(sp, i, field, size);
    if !sp.sources[i].byteAddressable {
      CopyIsNotHome(sp, i, field, size, r.0, root);
    }
  }

  /** Creating a root moves no source. */
  lemma CreateShape(sp: Space, i: nat, field: nat, size: nat)
    requires WellFormed(sp) && field < sp.pagesize && IsHome(sp.sources, i) && CreateRoot(sp, field, size).Ok?
    ensures var tt := CreateRoot(sp, field, size).value.0.sources;
      |tt| == |sp.sources| && forall j :: 0 <= j < |tt| ==> tt[j].persistent == sp.sources[j].persistent
  {
    HomeIsUnique(sp.sources, i);
    RootAddresses(sp, i, field);
    if !sp.sources[i].byteAddressable {
      ReservedIsUsable(sp, i, CreatedAddress(sp, i, field));
      FetchShape(sp, PageSlice(sp, CreatedAddress(sp, i, field)));
    }
  }

  /** The copy is on the first byte-addressable source, away from the home's meta page. */
  lemma CopyIsNotHome(sp: Space, i: nat, field: nat, size: nat, sq: Space, root: Slice)
    requires WellFormed(sp) && i < |sp.sources| && !sp.sources[i].byteAddressable && field < sp.pagesize
    requires LiesAt(sp, i, field, size, sq, root) && |sq.sources| == |sp.sources|
    requires forall j :: 0 <= j < |sp.sources| ==> sq.sources[j].persistent == sp.sources[j].persistent
    requires HasMemory(sp.sources) && Locate(sq.sources, root.offset).Some?
    ensures root.offset != MetaPage(sp, i).offset + field
    ensures sq.sources[Locate(sq.sources, root.offset).value].persistent <==> !ReachesHome(sp.sources, i)
  {
    RootAddresses(sp, i, field);
    ReservedIsNotFree(sp, i, MetaPage(sp, i).offset + field);
    var j: nat, a: nat :| FirstByteAddressable(sp.sources, j) && IsFree(sp.sources[j], a);
    assert Locate(sq.sources, root.offset) == Some(j);
    forall k: nat | FirstByteAddressable(sp.sources, k) ensures k == j {
    }
  }

  // ---------------------------------------------------------------- a reopened root

  function ReopenRoot(sp: Space, i: nat, field: nat, size: nat): Answer<(Space, Slice)>
    requires WellFormed(sp) && i < |sp.sources| && field < sp.pagesize
  {
    RootAddresses(sp, i, field);
    MapRoot(sp, i, FoundAddress(sp, i, field), field, size)
  }

  /** A reopened root reads what the header page holds at the place of the root field. */
  lemma ReopenedRootReadsHeader(sp: Space, i: nat, field: nat, size: nat)
    requires WellFormed(sp) && i < |sp.sources| && size > 0 && field + size <= sp.pagesize
    requires ReopenRoot(sp, i, field, size).Ok?
    ensures var r := ReopenRoot(sp, i, field, size).value; Holding(r.0, r.1, HeaderField(sp, i, field, size))
  {
    RootAddresses(sp, i, 0);
    RootAddresses(sp, i, field);
    MappedRootReads(sp, i, FoundAddress(sp, i, field), field, size);
  }

  /** So it reads the root field exactly if the header page happens to hold the same bytes there. */
  lemma ReopenedRootReadsFieldIff(sp: Space, i: nat, field: nat, size: nat)
    requires WellFormed(sp) && i < |sp.sources| && size > 0 && field + size <= sp.pagesize
    requires ReopenRoot(sp, i, field, size).Ok?
    ensures var r := ReopenRoot(sp, i, field, size).value;
      Holding(r.0, r.1, RootField(sp, i, field, size))
      <==> HeaderField(sp, i, field, size) == RootField(sp, i, field, size)
  {
    ReopenedRootReadsHeader(sp, i, field, size);
  }

  // ---------------------------------------------------------------- a formatted file that loses its root

  function Zeros(n: nat): seq<byte> {
    seq(n, _ => 0)
  }

  /** A file with this header and this meta page and nothing else, and memory with one free page. */
  function Formatted(p: Size, header: seq<byte>, meta: seq<byte>): Space
    requires |header| == SOURCE_HEADER_SIZE <= p && |meta| == p
  {
    Space(p, [Source(0, header + Zeros(p - |header|) + meta, false, true, []),
              Source(2 * p, Zeros(3 * p), true, false, [Page(2 * p, p)])], map[])
  }

  lemma FormattedIsWellFormed(p: Size, header: seq<byte>, meta: seq<byte>)
    requires |header| == SOURCE_HEADER_SIZE <= p && |meta| == p && 6 * p <= WORD
    ensures WellFormed(Formatted(p, header, meta))
  {
    var sp := Formatted(p, header, meta);
    RemAbove(p, p, p);
    RemAbove(2 * p, p, p);
    assert GoodPage(sp.sources[1].free[0], p, 3 * p);
    assert SourceOk(sp.sources[0], p) && SourceOk(sp.sources[1], p);
    assert Precedes(sp.sources[0], sp.sources[1]);
  }

  /** What lies at the place of the root field in the two reserved pages. */
  lemma FormattedFields(p: Size, header: seq<byte>, meta: seq<byte>, field: nat, size: nat)
    requires |header| == SOURCE_HEADER_SIZE <= p && |meta| == p && 6 * p <= WORD && size > 0 && field + size <= p
    ensures WellFormed(Formatted(p, header, meta))
    ensures RootField(Formatted(p, header, meta), 0, field, size) == meta[field..field + size]
    ensures HeaderField(Formatted(p, header, meta), 0, field, size)
         == (header + Zeros(p - |header|))[field..field + size]
  {
    FormattedIsWellFormed(p, header, meta);
    var sp := Formatted(p, header, meta);
    var bytes := sp.sources[0].bytes;
    RootAddresses(sp, 0, 0);
    ReservedIsUsable(sp, 0, 0);
    ReservedIsUsable(sp, 0, p);
    CutIsSlice(bytes, 0, p);
    CutIsSlice(bytes, p, p);
    assert bytes[..p] == header + Zeros(p - |header|);
    assert bytes[p..p + p] == meta;
  }

  lemma FormattedCanFetch(p: Size, header: seq<byte>, meta: seq<byte>, field: nat, size: nat)
    requires |header| == SOURCE_HEADER_SIZE <= p && |meta| == p && 6 * p <= WORD && field < p
    ensures WellFormed(Formatted(p, header, meta)) && ReopenRoot(Formatted(p, header, meta), 0, field, size).Ok?
  {
    FormattedIsWellFormed(p, header, meta);
    var sp := Formatted(p, header, meta);
    RootAddresses(sp, 0, field);
    ReservedIsUsable(sp, 0, FoundAddress(sp, 0, field));
    assert First(sp.sources[1..], (s: Source) => s.byteAddressable) == Some(0);
    assert BestByteAddressable(sp.sources) == Some(1);
  }

  /**
   Whatever the header and the meta page of the file are, reopening it finds its root exactly if the root
   field holds what follows the header at that place: zeros, unless the field overlaps the header.
   */
  lemma ReopenedFileKeepsRootIff(p: Size, header: seq<byte>, meta: seq<byte>, field: nat, size: nat)
    requires |header| == SOURCE_HEADER_SIZE <= p && |meta| == p && 6 * p <= WORD && size > 0 && field + size <= p
    ensures var sp := Formatted(p, header, meta);
      && WellFormed(sp) && ReopenRoot(sp, 0, field, size).Ok?
      && var r := ReopenRoot(sp, 0, field, size).value;
        Holding(r.0, r.1, meta[field..field + size])
        <==> (header + Zeros(p - |header|))[field..field + size] == meta[field..field + size]
  {
    FormattedCanFetch(p, header, meta, field, size);
    FormattedFields(p, header, meta, field, size);
    ReopenedRootReadsFieldIff(Formatted(p, header, meta), 0, field, size);
  }

  /** A meta page with another root; the checksum covers neither the old nor the new one. */
  function WithRoot(meta: seq<byte>, field: nat, root: seq<byte>): (r: seq<byte>)
    requires field + |root| <= |meta|
    ensures |r| == |meta| && r[field..field + |root|] == root
  {
    meta[..field] + root + meta[field + |root|..]
  }

  /** So every file can be given a root, not all zero, that is lost when the file is reopened. */
  lemma ReopenedRootIsLost(p: Size, header: seq<byte>, meta: seq<byte>, field: nat, size: nat) returns (root: seq<byte>)
    requires |header| == SOURCE_HEADER_SIZE <= p && |meta| == p && 6 * p <= WORD && size > 0 && field + size <= p
    ensures |root| == size && root[0] != 0
    ensures var sp := Formatted(p, header, WithRoot(meta, field, root));
      && WellFormed(sp) && ReopenRoot(sp, 0, field, size).Ok?
      && var r := ReopenRoot(sp, 0, field, size).value; !Holding(r.0, r.1, root)
  {
    var first := (header + Zeros(p - |header|))[field];
    root := [if first == 1 then 2 else 1] + Zeros(size - 1);
    ReopenedFileKeepsRootIff(p, header, WithRoot(meta, field, root), field, size);
    assert (header + Zeros(p - |header|))[field..field + size][0] == first;
  }
}
