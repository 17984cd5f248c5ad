/** Sources mapped into one logical address space, and what a logical address means. */
module Spaces {
  import opened Basics
  import opened Bits
  import opened Rounding
  import opened Pages

  /** `LogicalSlice`. */
  datatype Slice = Slice(offset: nat, len: nat)

  /** `StoredLogicalSlice`. */
  datatype Stored = BlockSlice(slice: Slice) | ByteSlice(slice: Slice)

  /** `StoredLogicalSlice::new`. */
  function NewStored(slice: Slice, byteAddressable: bool): Stored {
    if byteAddressable then ByteSlice(slice) else BlockSlice(slice)
  }

  /** A source with the logical address it is mapped at; `bytes` is its page-aligned length. */
  datatype Source = Source(base: nat, bytes: seq<byte>, byteAddressable: bool, persistent: bool, free: seq<Page>)

  predicate Holds(s: Source, addr: nat) {
    s.base <= addr < s.base + |s.bytes|
  }

  predicate StartsAbove(s: Source, addr: nat) {
    addr < s.base
  }

  /** The range lookup of `with_source`: the last source that starts at or below the address. */
  function Locate(ss: seq<Source>, addr: nat): (r: Option<nat>)
    ensures r.Some? ==> r.value < |ss| && ss[r.value].base <= addr
    ensures forall j {:trigger StartsAbove(ss[j], addr)} ::
      0 <= j < |ss| && (r.Some? ==> r.value < j) ==> StartsAbove(ss[j], addr)
  {
    LocateIn(ss, |ss|, addr)
  }

  /** The same among the first n sources. */
  function LocateIn(ss: seq<Source>, n: nat, addr: nat): (r: Option<nat>)
    requires n <= |ss|
    ensures r.Some? ==> r.value < n && ss[r.value].base <= addr
    ensures forall j {:trigger StartsAbove(ss[j], addr)} ::
      0 <= j < n && (r.Some? ==> r.value < j) ==> StartsAbove(ss[j], addr)
  {
    if n == 0 then None
    else if ss[n - 1].base <= addr then Some(n - 1)
    else LocateIn(ss, n - 1, addr)
  }

  /** The sources stand in the order of their bases and do not overlap. */
  ghost predicate Sorted(ss: seq<Source>) {
    forall i, j {:trigger Precedes(ss[i], ss[j])} :: 0 <= i < j < |ss| ==> Precedes(ss[i], ss[j])
  }

  predicate Precedes(s: Source, t: Source) {
    s.base + |s.bytes| <= t.base
  }

  /** A range of addresses that lies in one source. */
  predicate InSource(ss: seq<Source>, addr: nat, n: nat) {
    var i := Locate(ss, addr);
    i.Some? && Holds(ss[i.value], addr) && addr + n <= ss[i.value].base + |ss[i.value].bytes|
  }

  /** Each address in a source's range resolves to that source, at its own offset. */
  lemma AddressFindsItsSource(ss: seq<Source>, i: nat, addr: nat)
    requires Sorted(ss) && i < |ss|
    ensures Holds(ss[i], addr) ==> Locate(ss, addr) == Some(i)
    ensures Locate(ss, addr) == Some(i) ==> Holds(ss[i], addr) || forall j :: 0 <= j < |ss| ==> !Holds(ss[j], addr)
  {
    var r := Locate(ss, addr);
    forall j | 0 <= j < |ss| && r != Some(j) ensures !Holds(ss[j], addr) {
      if r.Some? && j < r.value {
        assert Precedes(ss[j], ss[r.value]);
      } else {
        assert StartsAbove(ss[j], addr);
      }
    }
  }

  /** The place in its source that an address stands for. */
  function Translate(ss: seq<Source>, addr: nat): (nat, nat)
    requires InSource(ss, addr, 1)
  {
    var i := Locate(ss, addr).value;
    (i, addr - ss[i].base)
  }

  /** Translation is one to one and reaches every byte of every source. */
  lemma TranslationDoesNotAlias(ss: seq<Source>, i: nat, o: nat, a: nat)
    requires Sorted(ss) && i < |ss| && o < |ss[i].bytes|
    ensures InSource(ss, a, 1) && Translate(ss, a) == (i, o) <==> a == ss[i].base + o
  {
    AddressFindsItsSource(ss, i, ss[i].base + o);
  }

  // ---------------------------------------------------------------- bytes behind a range

  /** The n bytes from an address on. */
  function Load(ss: seq<Source>, addr: nat, n: nat): (d: seq<byte>)
    requires InSource(ss, addr, n)
    ensures |d| == n
  {
    var s := ss[Locate(ss, addr).value];
    Cut(s.bytes, addr - s.base, n)
  }

  function Cut(bytes: seq<byte>, o: nat, n: nat): (d: seq<byte>)
    requires o + n <= |bytes|
    ensures |d| == n
  {
    if n == 0 then [] else Cut(bytes, o, n - 1) + [bytes[o + n - 1]]
  }

  lemma {:induction false} CutIsSlice(bytes: seq<byte>, o: nat, n: nat)
    requires o + n <= |bytes|
    ensures Cut(bytes, o, n) == bytes[o..o + n]
  {
    if n > 0 {
      CutIsSlice(bytes, o, n - 1);
    }
  }

  function Store(ss: seq<Source>, addr: nat, data: seq<byte>): (r: seq<Source>)
    requires InSource(ss, addr, |data|)
    ensures SameShape(ss, r)
  {
    var i := Locate(ss, addr).value;
    var o := addr - ss[i].base;
    ss[i := ss[i].(bytes := Overwrite(ss[i].bytes, o, data))]
  }

  function Overwrite(bytes: seq<byte>, o: nat, data: seq<byte>): (r: seq<byte>)
    requires o + |data| <= |bytes|
    ensures |r| == |bytes|
  {
    if |data| == 0 then bytes
    else Overwrite(bytes, o, data[..|data| - 1])[o + |data| - 1 := data[|data| - 1]]
  }

  lemma {:induction false} OverwriteIs(bytes: seq<byte>, o: nat, data: seq<byte>)
    requires o + |data| <= |bytes|
    ensures Overwrite(bytes, o, data) == bytes[..o] + data + bytes[o + |data|..]
  {
    if |data| > 0 {
      OverwriteIs(bytes, o, data[..|data| - 1]);
    } else {
      assert data == [];
    }
  }

  /** The same sources at the same places with the same free pages; only bytes may differ. */
  ghost predicate SameShape(ss: seq<Source>, tt: seq<Source>) {
    && |ss| == |tt|
    && forall i :: 0 <= i < |ss| ==> tt[i] == ss[i].(bytes := tt[i].bytes) && |ss[i].bytes| == |tt[i].bytes|
  }

  /** The same sources at the same places with the same bytes; only free pages may differ. */
  ghost predicate SameBytes(ss: seq<Source>, tt: seq<Source>) {
    && |ss| == |tt|
    && forall i :: 0 <= i < |ss| ==> tt[i] == ss[i].(free := tt[i].free)
  }

  lemma LocateSame(ss: seq<Source>, tt: seq<Source>, addr: nat)
    requires |ss| == |tt| && forall i :: 0 <= i < |ss| ==> ss[i].base == tt[i].base
    ensures Locate(ss, addr) == Locate(tt, addr)
  {
    var l, k := Locate(ss, addr), Locate(tt, addr);
    if l.Some? {
      assert !StartsAbove(tt[l.value], addr);
    }
    if k.Some? {
      assert !StartsAbove(ss[k.value], addr);
    }
  }

  lemma InSourceSame(ss: seq<Source>, tt: seq<Source>, addr: nat, n: nat)
    requires SameShape(ss, tt) || SameBytes(ss, tt)
    ensures InSource(ss, addr, n) <==> InSource(tt, addr, n)
  {
    LocateSame(ss, tt, addr);
  }

  lemma LoadSameBytes(ss: seq<Source>, tt: seq<Source>, addr: nat, n: nat)
    requires SameBytes(ss, tt) && InSource(ss, addr, n)
    ensures InSource(tt, addr, n) && Load(tt, addr, n) == Load(ss, addr, n)
  {
    LocateSame(ss, tt, addr);
  }

  lemma CutPart(bytes: seq<byte>, o: nat, n: nat, k: nat, m: nat)
    requires o + n <= |bytes| && k + m <= n
    ensures Cut(bytes, o + k, m) == Cut(bytes, o, n)[k..k + m]
  {
    CutIsSlice(bytes, o, n);
    CutIsSlice(bytes, o + k, m);
    SliceOfSlice(bytes, o, n, k, m);
  }

  lemma SliceOfSlice(bytes: seq<byte>, o: nat, n: nat, k: nat, m: nat)
    requires o + n <= |bytes| && k + m <= n
    ensures bytes[o..o + n][k..k + m] == bytes[o + k..o + k + m]
  {
    var d, left, right := bytes[o..o + n], bytes[o..o + n][k..k + m], bytes[o + k..o + k + m];
    forall i | 0 <= i < m ensures left[i] == right[i] {
      assert left[i] == d[k + i] == bytes[o + (k + i)];
    }
  }

  /** Part of a range holds part of its bytes. */
  lemma LoadPart(ss: seq<Source>, addr: nat, n: nat, k: nat, m: nat)
    requires Sorted(ss) && InSource(ss, addr, n) && k + m <= n && k < n
    ensures InSource(ss, addr + k, m) && Load(ss, addr + k, m) == Load(ss, addr, n)[k..k + m]
    ensures Locate(ss, addr + k) == Locate(ss, addr)
  {
    var i := Locate(ss, addr).value;
    AddressFindsItsSource(ss, i, addr + k);
    CutPart(ss[i].bytes, addr - ss[i].base, n, k, m);
  }

  lemma CutOverwritten(bytes: seq<byte>, o: nat, data: seq<byte>)
    requires o + |data| <= |bytes|
    ensures Cut(Overwrite(bytes, o, data), o, |data|) == data
  {
    OverwriteIs(bytes, o, data);
    CutIsSlice(Overwrite(bytes, o, data), o, |data|);
  }

  lemma CutElsewhere(bytes: seq<byte>, o: nat, data: seq<byte>, k: nat, n: nat)
    requires o + |data| <= |bytes| && k + n <= |bytes| && (k + n <= o || o + |data| <= k)
    ensures Cut(Overwrite(bytes, o, data), k, n) == Cut(bytes, k, n)
  {
    OverwriteIs(bytes, o, data);
    CutIsSlice(Overwrite(bytes, o, data), k, n);
    CutIsSlice(bytes, k, n);
  }

  /** Stored bytes can be loaded back. */
  lemma LoadStored(ss: seq<Source>, addr: nat, data: seq<byte>)
    requires InSource(ss, addr, |data|)
    ensures InSource(Store(ss, addr, data), addr, |data|) && Load(Store(ss, addr, data), addr, |data|) == data
  {
    LocateSame(ss, Store(ss, addr, data), addr);
    var s := ss[Locate(ss, addr).value];
    CutOverwritten(s.bytes, addr - s.base, data);
  }

  /** Storing into one range of addresses leaves every disjoint range alone. */
  lemma LoadElsewhere(ss: seq<Source>, addr: nat, data: seq<byte>, b: nat, n: nat)
    requires InSource(ss, addr, |data|) && InSource(ss, b, n) && (addr + |data| <= b || b + n <= addr)
    ensures InSource(Store(ss, addr, data), b, n) && Load(Store(ss, addr, data), b, n) == Load(ss, b, n)
  {
    LocateSame(ss, Store(ss, addr, data), b);
    var i, j := Locate(ss, addr).value, Locate(ss, b).value;
    if i == j {
      CutElsewhere(ss[i].bytes, addr - ss[i].base, data, b - ss[i].base, n);
    }
  }

  // ---------------------------------------------------------------- pages of slices

  /** The page an address lies in. */
  function PageOf(addr: nat, p: nat): (a: nat)
    requires p > 0
    ensures a <= addr < a + p
  {
    addr - Rem(addr, p)
  }

  /** A slice that is not empty and lies inside one page, so that its buffer can be cut out of the page. */
  predicate OnePage(s: Slice, p: nat)
    requires p > 0
  {
    s.len > 0 && Rem(s.offset, p) + s.len <= p
  }

  /** `LogicalSlice::to_page`, before its assertion on the length. */
  function ToPage(s: Slice, pagesize: nat, base: nat): Page
    requires base <= s.offset && 1 <= pagesize && s.len + pagesize <= WORD
  {
    Page(AlignDown(s.offset - base, pagesize), AlignUp(s.len, pagesize))
  }

  /** `LogicalSlice::page_offset`. */
  function PageOffset(s: Slice, page: Page, base: nat): int {
    s.offset - base - page.offset
  }

  /** `LogicalSlice::page_aligned`. */
  function PageAligned(s: Slice, pagesize: nat): Slice
    requires 1 <= pagesize && s.len + pagesize <= WORD
  {
    Slice(AlignDown(s.offset, pagesize), AlignUp(s.len, pagesize))
  }

  /** `LogicalSlice::from_page`; the page header is empty. */
  function FromPage(page: Page, base: nat): Slice {
    Slice(page.offset + base, page.len)
  }

  /** Whether the offsets in a page fit a machine word, with room to round up. */
  ghost predicate PageFits(bits: nat, p: nat) {
    bits <= 62 && p == Pow2(bits) && 2 * p <= WORD
  }

  lemma PageSizeFits(bits: nat)
    requires bits <= 62
    ensures PageFits(bits, Pow2(bits))
  {
    FirstPageFits(bits);
    Pow2Of64();
    Pow2Monotone(bits, 62);
  }

  lemma LengthRoundsToPage(len: nat, bits: nat, p: nat)
    requires PageFits(bits, p) && 0 < len <= p
    ensures len + p <= WORD && AlignUp(len, p) == p
  {
    MaskReaches(len, bits);
    AlignedStep(0, AlignUp(len, p), p);
    if p < AlignUp(len, p) {
      AlignedStep(p, AlignUp(len, p), p);
    }
  }

  lemma PageAboveBase(addr: nat, p: nat, base: nat)
    requires p > 0 && base <= addr && Aligned(base, p)
    ensures base <= PageOf(addr, p) && PageOf(addr, p) == base + PageOf(addr - base, p)
    ensures Rem(addr, p) == Rem(addr - base, p)
  {
    RemAbove(base, addr - base, p);
  }

  /** What the mask arithmetic computes: the page a slice starts in, and the offset that leads back to it. */
  lemma PageArithmetic(s: Slice, bits: nat, p: nat, base: nat)
    requires PageFits(bits, p) && 0 < s.len <= p && base <= s.offset < WORD && Aligned(base, p)
    ensures s.len + p <= WORD && base <= PageOf(s.offset, p)
    ensures ToPage(s, p, base).len == p && base + ToPage(s, p, base).offset == PageOf(s.offset, p)
    ensures PageOffset(s, ToPage(s, p, base), base) == Rem(s.offset, p)
  {
    ToPageIs(s, bits, p, base);
    PageAboveBase(s.offset, p, base);
  }

  lemma ToPageIs(s: Slice, bits: nat, p: nat, base: nat)
    requires PageFits(bits, p) && 0 < s.len <= p && base <= s.offset < WORD
    ensures s.len + p <= WORD && ToPage(s, p, base) == Page(PageOf(s.offset - base, p), p)
  {
    LengthRoundsToPage(s.len, bits, p);
    MaskFindsPage(s.offset - base, bits, p);
  }

  /** And the slice of that page. */
  lemma AlignedArithmetic(s: Slice, bits: nat, p: nat)
    requires PageFits(bits, p) && 0 < s.len <= p && s.offset < WORD
    ensures s.len + p <= WORD && PageAligned(s, p) == Slice(PageOf(s.offset, p), p)
  {
    LengthRoundsToPage(s.len, bits, p);
    MaskFindsPage(s.offset, bits, p);
  }

  lemma MaskFindsPage(addr: nat, bits: nat, p: nat)
    requires PageFits(bits, p) && addr < WORD
    ensures AlignDown(addr, p) == PageOf(addr, p)
  {
    MaskCuts(addr, bits);
  }

  lemma PageOfPage(a: nat, p: nat, o: nat)
    requires p > 0 && Aligned(a, p) && o < p
    ensures PageOf(a + o, p) == a && PageOf(a, p) == a
  {
    RemAbove(a, o, p);
  }

  lemma PageOfIsAligned(a: nat, p: nat)
    requires p > 0
    ensures Aligned(PageOf(a, p), p)
  {
    CutIsAligned(a, p);
  }

  /** Different pages do not overlap. */
  lemma PagesApart(a: nat, b: nat, p: nat)
    requires p > 0 && Aligned(a, p) && Aligned(b, p) && a != b
    ensures a + p <= b || b + p <= a
  {
    if a < b {
      AlignedStep(a, b, p);
    } else {
      AlignedStep(b, a, p);
    }
  }

  // ---------------------------------------------------------------- placing sources

  /** A source that fits: page aligned, below the end of the word, with its free pages behind its meta page. */
  ghost predicate SourceOk(s: Source, p: nat)
    requires p > 0
  {
    && Aligned(s.base, p) && Aligned(|s.bytes|, p) && 2 * p <= |s.bytes|
    && s.base + |s.bytes| + p <= WORD
    && GoodPages(s.free, p, |s.bytes|)
  }

  ghost predicate Placed(ss: seq<Source>, p: nat)
    requires p > 0
  {
    && Sorted(ss)
    && forall i {:trigger SourceOk(ss[i], p)} :: 0 <= i < |ss| ==> SourceOk(ss[i], p)
  }

  /** Where the mapped sources end. */
  function End(ss: seq<Source>): nat {
    if |ss| == 0 then 0 else ss[|ss| - 1].base + |ss[|ss| - 1].bytes|
  }

  function TotalLength(ss: seq<Source>): nat {
    if |ss| == 0 then 0 else TotalLength(ss[..|ss| - 1]) + |ss[|ss| - 1].bytes|
  }

  /** The sources after adding some: each starts where those before it end. */
  function Laid(existing: seq<Source>, added: seq<Source>): (ss: seq<Source>)
    ensures |ss| == |existing| + |added| && ss[..|existing|] == existing
  {
    if |added| == 0 then existing
    else
      var init := Laid(existing, added[..|added| - 1]);
      init + [added[|added| - 1].(base := End(init))]
  }

  lemma EndIsLast(ss: seq<Source>, p: nat)
    requires p > 0 && Placed(ss, p)
    ensures Aligned(End(ss), p) && forall i :: 0 <= i < |ss| ==> ss[i].base + |ss[i].bytes| <= End(ss)
  {
    if |ss| > 0 {
      var last := ss[|ss| - 1];
      assert SourceOk(last, p);
      forall i | 0 <= i < |ss| - 1 ensures Precedes(ss[i], last) {
      }
      RemAbove(last.base, |last.bytes|, p);
    } else {
      assert Aligned(0, p);
    }
  }

  /** One more source behind the others keeps everything apart. */
  lemma PlaceOne(ss: seq<Source>, s: Source, p: nat)
    requires p > 0 && Placed(ss, p) && SourceOk(s.(base := 0), p) && End(ss) + |s.bytes| + p <= WORD
    ensures Placed(ss + [s.(base := End(ss))], p) && End(ss + [s.(base := End(ss))]) == End(ss) + |s.bytes|
  {
    EndIsLast(ss, p);
    var tt := ss + [s.(base := End(ss))];
    assert SourceOk(s.(base := 0), p);
    forall i | 0 <= i < |tt| ensures SourceOk(tt[i], p) {
      assert i < |ss| ==> tt[i] == ss[i] && SourceOk(ss[i], p);
    }
    forall i, j | 0 <= i < j < |tt| ensures Precedes(tt[i], tt[j]) {
      assert j < |ss| ==> Precedes(ss[i], ss[j]);
    }
  }

  lemma {:induction false} TotalIsMonotone(ss: seq<Source>, n: nat)
    requires n <= |ss|
    ensures TotalLength(ss[..n]) <= TotalLength(ss)
  {
    if n < |ss| {
      assert ss[..|ss| - 1][..n] == ss[..n];
      TotalIsMonotone(ss[..|ss| - 1], n);
    } else {
      assert ss[..n] == ss;
    }
  }

  /** The k-th source is s, with all it holds, mapped where those before it end. */
  predicate FollowsOn(ss: seq<Source>, k: nat, s: Source) {
    k < |ss| && ss[k] == s.(base := End(ss[..k]))
  }

  lemma FollowersStay(ss: seq<Source>, existing: seq<Source>, added: seq<Source>, n: nat, offset: nat)
    requires n < |added| && |ss| == |existing| + n && ss[..|existing|] == existing && offset == End(ss)
    requires forall k :: 0 <= k < n ==> FollowsOn(ss, |existing| + k, added[k])
    ensures var tt := ss + [added[n].(base := offset)];
      tt[..|existing|] == existing && forall k :: 0 <= k <= n ==> FollowsOn(tt, |existing| + k, added[k])
  {
    var tt := ss + [added[n].(base := offset)];
    forall k | 0 <= k <= n ensures FollowsOn(tt, |existing| + k, added[k]) {
      assert tt[..|existing| + k] == ss[..|existing| + k];
      assert k < n ==> FollowsOn(ss, |existing| + k, added[k]);
      assert ss[..|ss|] == ss;
    }
    assert tt[..|existing|] == ss[..|existing|];
  }

  /**
   The loop of `LogicalAddressSpace::new` that maps unformatted sources behind the existing ones. What
   was mapped stays where it was, nothing overlaps, and the fresh sources follow without a gap.
   */
  method PlaceFresh(existing: seq<Source>, added: seq<Source>, p: nat) returns (ss: seq<Source>)
    requires p > 0 && Placed(existing, p)
    requires forall k :: 0 <= k < |added| ==> SourceOk(added[k].(base := 0), p)
    requires End(existing) + TotalLength(added) + p <= WORD
    ensures ss == Laid(existing, added) && Placed(ss, p) && End(ss) == End(existing) + TotalLength(added)
    ensures |ss| == |existing| + |added| && ss[..|existing|] == existing
    ensures forall k :: 0 <= k < |added| ==> FollowsOn(ss, |existing| + k, added[k])
  {
    ss := existing;
    for n := 0 to |added|
      invariant ss == Laid(existing, added[..n]) && Placed(ss, p)
      invariant |ss| == |existing| + n && ss[..|existing|] == existing
      invariant End(ss) == End(existing) + TotalLength(added[..n])
      invariant forall k :: 0 <= k < n ==> FollowsOn(ss, |existing| + k, added[k])
    {
      var offset := if |ss| == 0 then 0 else ss[|ss| - 1].base + |ss[|ss| - 1].bytes|;
      assert added[..n + 1][..n] == added[..n];
      TotalIsMonotone(added, n + 1);
      PlaceOne(ss, added[n], p);
      FollowersStay(ss, existing, added, n, offset);
      ss := ss + [added[n].(base := offset)];
    }
    assert added[..|added|] == added;
  }
}
