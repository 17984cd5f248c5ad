/** The page free list of a source. */
module Pages {
  import opened Basics
  import opened Bits
  import opened Rounding

  /** The errors of the storage layer that the model distinguishes. */
  datatype Error = NoAvailableMemory | AllocationTooLarge | InvalidLogicalAddress | InvalidMemory | PartialIO

  type Answer<+T> = Result<T, Error>

  datatype Page = Page(offset: nat, len: nat)

  /** `Page::split`: the front part and what stays behind. */
  function Split(page: Page, len: nat): (r: Option<(Page, Page)>)
    ensures r.Some? <==> len <= page.len
    ensures r.Some? ==>
      && r.value.0.offset == page.offset && r.value.0.len == len
      && r.value.1.offset == page.offset + len && r.value.0.len + r.value.1.len == page.len
  {
    if page.len < len then None
    else Some((Page(page.offset, len), Page(page.offset + len, page.len - len)))
  }

  /** The size of the header that starts every source. */
  const SOURCE_HEADER_SIZE: nat := 24

  /** A page that may be handed out: whole, aligned, behind the header and the meta page. */
  predicate GoodPage(page: Page, pagesize: nat, length: nat)
    requires pagesize > 0
  {
    && page.len == pagesize && Aligned(page.offset, pagesize)
    && SOURCE_HEADER_SIZE <= page.offset && 2 * pagesize <= page.offset
    && page.offset + pagesize <= length
  }

  predicate Before(a: Page, b: Page) {
    a.offset + a.len <= b.offset
  }

  /** Pages that may be handed out, in order. */
  ghost predicate GoodPages(pages: seq<Page>, pagesize: nat, length: nat)
    requires pagesize > 0
  {
    && (forall i {:trigger GoodPage(pages[i], pagesize, length)} ::
          0 <= i < |pages| ==> GoodPage(pages[i], pagesize, length))
    && (forall i, j {:trigger Before(pages[i], pages[j])} :: 0 <= i < j < |pages| ==> Before(pages[i], pages[j]))
  }

  class SourceAllocator {
    const bits: nat
    const pagesize: nat
    const length: nat
    var freelist: seq<Page>
    /** History: the free list as initialized, and the pages handed out since. */
    ghost const initial: seq<Page>
    ghost var taken: seq<Page>

    ghost predicate Valid()
      reads this
    {
      && bits <= 62 && pagesize == Pow2(bits) && length < WORD && Aligned(length, pagesize)
      && GoodPages(initial, pagesize, length)
      && initial == taken + freelist
    }

    /** `SourceAllocator::new`. The header and the meta page must fit into the whole pages of the source. */
    constructor (bits: nat, sourceLength: nat, valid: nat -> bool)
      requires bits <= 62 && FirstPage(bits) <= sourceLength < WORD
      ensures Valid() && this.bits == bits && taken == []
      ensures length <= sourceLength < length + pagesize
      ensures IsFreeList(freelist, bits, length, valid)
    {
      WholeLengthFits(bits, sourceLength);
      LongEnoughIff(bits, sourceLength);
      var len := WholeLength(bits, sourceLength);
      var free := Initialize(bits, len, valid);
      this.bits, this.pagesize, this.length := bits, Pow2(bits), len;
      this.freelist, this.initial, this.taken := free, free, [];
    }

    /** `get_meta`. */
    function GetMeta(): Page {
      Page(pagesize, pagesize)
    }

    /**
     `allocate_page`, for a free list of any pages: the first one gives up its front. A page that is
     too short is dropped. Whole pages are handed out one by one, in order, and none is lost.
     */
    method AllocatePage() returns (r: Answer<Page>)
      modifies this`freelist, this`taken
      ensures r.Ok? <==> |old(freelist)| > 0 && pagesize <= old(freelist)[0].len
      ensures r.Ok? ==> r.value == Page(old(freelist)[0].offset, pagesize) && taken == old(taken) + [r.value]
      ensures r.Err? ==> r.error == NoAvailableMemory && taken == old(taken)
      ensures |old(freelist)| == 0 ==> freelist == []
      ensures |old(freelist)| > 0 ==>
        var first := old(freelist)[0];
        freelist == (if pagesize < first.len
          then [Page(first.offset + pagesize, first.len - pagesize)] else []) + old(freelist)[1..]
      ensures old(Valid()) ==>
        && Valid() && (r.Ok? <==> |old(freelist)| > 0)
        && (r.Ok? ==> r.value == old(freelist)[0] && freelist == old(freelist)[1..])
        && (r.Err? ==> freelist == old(freelist))
    {
      if |freelist| == 0 {
        return Err(NoAvailableMemory);
      }
      var page := freelist[0];
      ghost var all := taken + freelist;
      assert all[|taken|] == page;
      assert Valid() ==> GoodPage(initial[|taken|], pagesize, length);
      freelist := freelist[1..];
      var parts := Split(page, pagesize);
      if parts.None? {
        return Err(NoAvailableMemory);
      }
      if parts.value.1.len != 0 {
        freelist := [parts.value.1] + freelist;
      }
      taken := taken + [parts.value.0];
      return Ok(parts.value.0);
    }
  }

  /** All whole pages between two offsets that hold no valid data, in order, and no others. */
  ghost predicate Lists(free: seq<Page>, p: nat, from: nat, to: nat, len: nat, valid: nat -> bool)
    requires p > 0
  {
    && GoodPages(free, p, len)
    && (forall i :: 0 <= i < |free| ==> !valid(free[i].offset) && free[i].offset + p <= to)
    && (forall o: nat :: from <= o < to && Aligned(o, p) && !valid(o) ==> Page(o, p) in free)
  }

  /** The pages a source starts with. */
  ghost predicate IsFreeList(free: seq<Page>, bits: nat, len: nat, valid: nat -> bool)
    requires bits <= 62
  {
    Lists(free, Pow2(bits), FirstPage(bits), len, len, valid)
  }

  /** Where the n-th page from an offset on starts. */
  function PageStart(base: nat, n: nat, p: nat): nat {
    if n == 0 then base else PageStart(base, n - 1, p) + p
  }

  /** The free pages among the first n pages from an offset on. */
  function FreeFrom(base: nat, n: nat, p: nat, valid: nat -> bool): seq<Page> {
    if n == 0 then []
    else
      var offset := PageStart(base, n - 1, p);
      FreeFrom(base, n - 1, p, valid) + if valid(offset) then [] else [Page(offset, p)]
  }

  lemma ListsNothing(base: nat, p: nat, len: nat, valid: nat -> bool)
    requires p > 0
    ensures Lists([], p, base, base, len, valid)
  {
  }

  lemma ListNextPage(free: seq<Page>, p: nat, from: nat, to: nat, len: nat, valid: nat -> bool)
    requires p > 0 && Lists(free, p, from, to, len, valid)
    requires Aligned(to, p) && SOURCE_HEADER_SIZE <= to && 2 * p <= to && to + p <= len
    ensures Lists(free + if valid(to) then [] else [Page(to, p)], p, from, to + p, len, valid)
  {
    OnlyMultiple(to, p);
    var longer := free + if valid(to) then [] else [Page(to, p)];
    forall i | 0 <= i < |longer| ensures GoodPage(longer[i], p, len) {
      assert i < |free| ==> GoodPage(free[i], p, len);
    }
    forall i, j | 0 <= i < j < |longer| ensures Before(longer[i], longer[j]) {
      assert j < |free| ==> Before(free[i], free[j]);
      assert GoodPage(free[i], p, len);
    }
    forall o: nat | from <= o < to + p && Aligned(o, p) && !valid(o) ensures Page(o, p) in longer {
      assert o < to || o == to;
    }
  }

  lemma {:induction false} FreeFromLists(base: nat, n: nat, npages: nat, p: nat, len: nat, valid: nat -> bool)
    requires p > 0 && Aligned(base, p) && SOURCE_HEADER_SIZE <= base && 2 * p <= base
    requires n <= npages && PageStart(base, npages, p) == len
    ensures Lists(FreeFrom(base, n, p, valid), p, base, PageStart(base, n, p), len, valid)
  {
    if n == 0 {
      ListsNothing(base, p, len, valid);
    } else {
      FreeFromLists(base, n - 1, npages, p, len, valid);
      PageStartIsPage(base, n - 1, p);
      PageStartMonotone(base, n, npages, p);
      ListNextPage(FreeFrom(base, n - 1, p, valid), p, base, PageStart(base, n - 1, p), len, valid);
    }
  }

  /** `initialize`: every page behind the meta page that holds no valid data is free. */
  method Initialize(bits: nat, len: nat, valid: nat -> bool) returns (free: seq<Page>)
    requires bits <= 62 && FirstPage(bits) <= len && Aligned(len, Pow2(bits))
    ensures IsFreeList(free, bits, len, valid)
  {
    FirstPageIsGood(bits);
    free := FreeAll(FirstPage(bits), Pow2(bits), len, valid);
  }

  /** Its loop. */
  method FreeAll(base: nat, p: nat, len: nat, valid: nat -> bool) returns (free: seq<Page>)
    requires p > 0 && Aligned(base, p) && Aligned(len, p) && SOURCE_HEADER_SIZE <= base && 2 * p <= base <= len
    ensures Lists(free, p, base, len, len, valid)
  {
    var npages := (len - base) / p;
    free := [];
    for n := 0 to npages
      invariant free == FreeFrom(base, n, p, valid)
    {
      var offset := base + n * p;
      PageStartIs(base, n, p);
      if !valid(offset) {
        free := free + [Page(offset, p)];
      }
    }
    PagesFill(base, len, p);
    PageStartIs(base, npages, p);
    FreeFromLists(base, npages, npages, p, len, valid);
  }

  // ---------------------------------------------------------------- the arithmetic of page placement

  /** The first page behind the header and the meta page. */
  function FirstPage(bits: nat): nat
    requires bits <= 62
  {
    FirstPageFits(bits);
    AlignUp(SOURCE_HEADER_SIZE, Pow2(bits)) + Pow2(bits)
  }

  lemma FirstPageFits(bits: nat)
    requires bits <= 62
    ensures SOURCE_HEADER_SIZE + Pow2(bits) <= WORD && Pow2(bits) <= WORD
  {
    Pow2Of64();
    Pow2Monotone(bits, 62);
    assert Pow2(64) == 4 * Pow2(62);
  }

  lemma FirstPageIsGood(bits: nat)
    requires bits <= 62
    ensures Aligned(FirstPage(bits), Pow2(bits))
    ensures SOURCE_HEADER_SIZE <= FirstPage(bits) && 2 * Pow2(bits) <= FirstPage(bits)
    ensures FirstPage(bits) < SOURCE_HEADER_SIZE + 2 * Pow2(bits)
  {
    FirstPageFits(bits);
    PageBehind(SOURCE_HEADER_SIZE, bits);
  }

  /** The page after the one behind a header. */
  lemma PageBehind(header: nat, bits: nat)
    requires bits <= 62 && 0 < header && header + Pow2(bits) <= WORD
    ensures Pow2(bits) <= WORD
    ensures var p := Pow2(bits); var first := AlignUp(header, p) + p;
      Aligned(first, p) && header <= first && 2 * p <= first < header + 2 * p
  {
    var p := Pow2(bits);
    MaskReaches(header, bits);
    var up := AlignUp(header, p);
    AlignedStep(0, up, p);
    RemAbove(up, p, p);
  }

  /** `length`: the source cut down to whole pages. */
  function WholeLength(bits: nat, sourceLength: nat): nat
    requires bits <= 62
  {
    FirstPageFits(bits);
    AlignDown(sourceLength, Pow2(bits))
  }

  lemma WholeLengthFits(bits: nat, sourceLength: nat)
    requires bits <= 62 && sourceLength < WORD
    ensures var len := WholeLength(bits, sourceLength);
      Aligned(len, Pow2(bits)) && len <= sourceLength < len + Pow2(bits)
  {
    MaskCuts(sourceLength, bits);
    CutHolds(sourceLength, Pow2(bits), 0);
  }

  /** A source is long enough exactly if it holds its header pages and its meta page in whole pages. */
  lemma LongEnoughIff(bits: nat, sourceLength: nat)
    requires bits <= 62 && sourceLength < WORD
    ensures FirstPage(bits) <= WholeLength(bits, sourceLength) <==> FirstPage(bits) <= sourceLength
  {
    FirstPageIsGood(bits);
    WholeLengthFits(bits, sourceLength);
    var len := WholeLength(bits, sourceLength);
    if len < FirstPage(bits) {
      AlignedStep(len, FirstPage(bits), Pow2(bits));
    }
  }

  lemma CutHolds(v: nat, p: nat, m: nat)
    requires p > 0 && Aligned(m, p) && m <= v
    ensures Aligned(v - Rem(v, p), p) && m <= v - Rem(v, p)
  {
    CutIsAligned(v, p);
    if v - Rem(v, p) < m {
      AlignedStep(v - Rem(v, p), m, p);
    }
  }

  lemma PagesFill(base: nat, len: nat, p: nat)
    requires p > 0 && base <= len && Aligned(base, p) && Aligned(len, p)
    ensures base + ((len - base) / p) * p == len
  {
    RemAbove(base, len - base, p);
    RemIsMod(len - base, p);
  }

  lemma {:induction false} PageStartIs(base: nat, n: nat, p: nat)
    ensures PageStart(base, n, p) == base + n * p
  {
    if n > 0 {
      PageStartIs(base, n - 1, p);
      assert n * p == (n - 1) * p + p;
    }
  }

  lemma {:induction false} PageStartIsPage(base: nat, n: nat, p: nat)
    requires p > 0 && Aligned(base, p)
    ensures Aligned(PageStart(base, n, p), p) && base <= PageStart(base, n, p)
  {
    if n > 0 {
      PageStartIsPage(base, n - 1, p);
      RemAbove(PageStart(base, n - 1, p), p, p);
    }
  }

  lemma {:induction false} PageStartMonotone(base: nat, n: nat, m: nat, p: nat)
    requires n <= m
    ensures PageStart(base, n, p) <= PageStart(base, m, p)
  {
    if n < m {
      PageStartMonotone(base, n, m - 1, p);
    }
  }

  /** Between one multiple and the next there is no other. */
  lemma OnlyMultiple(offset: nat, p: nat)
    requires p > 0 && Aligned(offset, p)
    ensures forall o: nat :: offset <= o < offset + p && Aligned(o, p) ==> o == offset
  {
    forall o: nat | offset <= o < offset + p && Aligned(o, p) ensures o == offset {
      if o > offset {
        AlignedStep(offset, o, p);
      }
    }
  }

  /**
   The meta page is the second page, below the first one that can be free. It is clear of the source header exactly
   for pages of at least 32 bytes.
   */
  lemma MetaIsBehindHeaderIff(a: SourceAllocator)
    requires a.Valid()
    ensures a.GetMeta().offset == a.pagesize == a.GetMeta().len && 2 * a.pagesize <= FirstPage(a.bits)
    ensures SOURCE_HEADER_SIZE <= a.GetMeta().offset <==> 5 <= a.bits
  {
    FirstPageIsGood(a.bits);
    assert Pow2(4) == 16 && Pow2(5) == 32;
    if a.bits <= 4 {
      Pow2Monotone(a.bits, 4);
    } else {
      Pow2Monotone(5, a.bits);
    }
  }

  // ---------------------------------------------------------------- conservation

  /**
   However many pages were allocated: the pages handed out are the first ones of the initial free
   list, the rest is still free, and no two of them overlap each other, the header or the meta page.
   */
  lemma PagesAreConserved(a: SourceAllocator, i: nat, j: nat)
    requires a.Valid() && i < j < |a.taken| + |a.freelist|
    ensures a.taken + a.freelist == a.initial
    ensures var all := a.taken + a.freelist;
      && all[i].offset + all[i].len <= all[j].offset
      && a.GetMeta().offset + a.GetMeta().len <= all[i].offset && SOURCE_HEADER_SIZE <= all[i].offset
      && all[j].offset + all[j].len <= a.length
  {
    assert GoodPage(a.initial[i], a.pagesize, a.length) && GoodPage(a.initial[j], a.pagesize, a.length);
    assert Before(a.initial[i], a.initial[j]);
  }
}
