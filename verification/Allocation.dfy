/** The bump allocators for objects and log words, which cut slices off pages. */
module Allocation {
  import opened Basics
  import opened Pages
  import opened Spaces
  import opened Backing
  import opened AddressSpaces

  /** `try_consume_bytes`: at most `size` and at least `min` bytes off the front, and what is left. */
  function Consume(s: Slice, size: nat, min: nat): (r: Option<(Slice, Slice)>)
    ensures r.Some? <==> min <= s.len && min <= size
    ensures r.Some? ==>
      && min <= r.value.0.len <= size && (r.value.0.len < size ==> r.value.1.len == 0)
      && r.value.0.offset == s.offset && r.value.1.offset == s.offset + r.value.0.len
      && r.value.0.len + r.value.1.len == s.len
  {
    var len := if s.len < size then s.len else size;
    if len < min then None
    else Some((Slice(s.offset, len), Slice(s.offset + len, s.len - len)))
  }

  /** What a request leaves: the active page, the sources, the page that was taken, if any, and the answer. */
  datatype Bumped = Bumped(active: Option<Slice>, sources: seq<Source>, page: Option<Slice>, result: Answer<Slice>)

  /** A request, in one go: from the active page if it has room, or else from a fresh page. */
  function Bump(active: Option<Slice>, ss: seq<Source>, size: nat): Bumped {
    if active.Some? && size <= active.value.len then Serve(active.value, ss, None, size)
    else
      match AllocPage(ss)
      case Err(e) => Bumped(None, ss, None, Err(e))
      case Ok(v) => Serve(v.1, v.0, Some(v.1), size)
  }

  /** A request served from one page, which becomes the active one. */
  function Serve(s: Slice, ss: seq<Source>, page: Option<Slice>, size: nat): Bumped {
    match Consume(s, size, size)
    case None => Bumped(Some(s), ss, page, Err(AllocationTooLarge))
    case Some(v) => Bumped(Some(v.1), ss, page, Ok(v.0))
  }

  /** A request is refused as too large exactly when it exceeds a fresh page and there is one to try. */
  lemma TooLargeIffBeyondPage(active: Option<Slice>, ss: seq<Source>, size: nat, p: nat)
    requires p > 0 && Placed(ss, p) && (active.Some? ==> active.value.len <= p)
    ensures Bump(active, ss, size).result == Err(AllocationTooLarge) <==> size > p && AllocPage(ss).Ok?
    ensures Bump(active, ss, size).result == Err(NoAvailableMemory) <==>
      (active.None? || size > active.value.len) && AllocPage(ss).Err?
    ensures Bump(active, ss, size).result.Ok? ==>
      var b := Bump(active, ss, size);
      var page := if b.page.Some? then b.page.value else active.value;
      && b.result.value == Slice(page.offset, size) && size <= page.len
      && b.active == Some(Slice(page.offset + size, page.len - size))
  {
    if AllocPage(ss).Ok? {
      AllocIsTaken(ss, p);
    }
  }

  /** How a request of this size is served from the front of a page. */
  ghost predicate ServedFrom(page: Slice, size: nat, r: Answer<Slice>, rest: Option<Slice>) {
    if size <= page.len then
      r == Ok(Slice(page.offset, size)) && rest == Some(Slice(page.offset + size, page.len - size))
    else
      r == Err(AllocationTooLarge) && rest == Some(page)
  }

  /** What a request leaves when the active page has no room: nothing active, or a fresh page that serves it. */
  ghost predicate ServedFresh(ss: seq<Source>, tt: seq<Source>, p: nat, page: Option<Slice>, size: nat,
                              r: Answer<Slice>, rest: Option<Slice>)
    requires p > 0
  {
    match page
    case None => !HasMemory(ss) && tt == ss && r == Err(NoAvailableMemory) && rest == None
    case Some(q) => HasMemory(ss) && Taken(ss, tt, q, p) && ServedFrom(q, size, r, rest)
  }

  /**
   No page is taken while the active one has room. Otherwise the rest of the active page is dropped and a
   fresh page serves the request, or stays active if it is too small; without memory none is active.
   */
  lemma FreshPageOnlyWhenFull(active: Option<Slice>, ss: seq<Source>, size: nat, p: nat)
    requires p > 0 && Placed(ss, p)
    ensures var b := Bump(active, ss, size);
      if active.Some? && size <= active.value.len then
        b.page == None && b.sources == ss && ServedFrom(active.value, size, b.result, b.active)
      else
        ServedFresh(ss, b.sources, p, b.page, size, b.result, b.active)
  {
    AllocServes(ss, p);
    if AllocPage(ss).Ok? {
      AllocIsTaken(ss, p);
    }
  }

  class GenericAllocator {
    const las: LogicalAddressSpace
    var active: Option<Slice>

    constructor (las: LogicalAddressSpace)
      ensures this.las == las && active == None
    {
      this.las, this.active := las, None;
    }

    /** `alloc`, with the number of passes its loop makes and the page it takes, if any. */
    method Alloc(size: nat) returns (r: Answer<Slice>, ghost passes: nat, ghost page: Option<Slice>)
      requires las.Valid()
      modifies this`active, las`sources
      ensures las.Valid() && passes <= 2
      ensures Bumped(active, las.sources, page, r) == Bump(old(active), old(las.sources), size)
      ensures old(active).Some? && size <= old(active).value.len ==>
        && las.sources == old(las.sources) && r == Ok(Slice(old(active).value.offset, size))
        && active == Some(Slice(old(active).value.offset + size, old(active).value.len - size))
      ensures old(active).None? || size > old(active).value.len ==>
        ServedFresh(old(las.sources), las.sources, las.pagesize, page, size, r, active)
    {
      FreshPageOnlyWhenFull(active, las.sources, size, las.pagesize);
      passes, page := 0, None;
      var pageFull := false;
      while true
        invariant las.Valid() && las.sources == old(las.sources) && !pageFull && passes <= 1 && page == None
        invariant passes == 0 ==> active == old(active)
        invariant passes == 1 ==> active == None && (old(active).Some? && size > old(active).value.len)
        decreases 2 - passes
      {
        passes := passes + 1;
        if active.None? {
          var got := las.Alloc();
          if got.Err? {
            return Err(got.error), passes, None;
          }
          active, page := Some(got.value), Some(got.value);
          pageFull := true;
        }
        var taken := Consume(active.value, size, size);
        if taken.Some? {
          active := Some(taken.value.1);
          return Ok(taken.value.0), passes, page;
        }
        if pageFull {
          return Err(AllocationTooLarge), passes, page;
        }
        active := None;
      }
    }
  }
}
