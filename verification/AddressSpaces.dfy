/** The logical address space as an object whose methods read, write, allocate, flush and fetch. */
module AddressSpaces {
  import opened Basics
  import opened Bits
  import opened Rounding
  import opened Pages
  import opened Spaces
  import opened Backing

  /** The bytes of a whole page, as `get_bytes` gives them, are the bytes behind its addresses. */
  lemma PageIsLoaded(ss: seq<Source>, key: nat, p: nat, page: Page)
    requires InSource(ss, key, p) && page.len == p && ss[Locate(ss, key).value].base + page.offset == key
    ensures var src := ss[Locate(ss, key).value];
      page.offset + p <= |src.bytes| && src.bytes[page.offset..page.offset + page.len] == Load(ss, key, p)
  {
    CutIsSlice(ss[Locate(ss, key).value].bytes, page.offset, p);
  }

  /** The end of a fetch, once a page was found for it. */
  lemma FetchIntoPage(sp: Space, s: Slice, tt: seq<Source>, page: Slice)
    requires WellFormed(sp) && Accepted(sp, s) && Resolves(sp, s) && AllocPage(sp.sources) == Ok((tt, page))
    ensures Taken(sp.sources, tt, page, sp.pagesize) && InSource(sp.sources, PageOf(s.offset, sp.pagesize), sp.pagesize)
    ensures var key := PageOf(s.offset, sp.pagesize);
      Fetch(sp, s) == Ok((sp.(sources := Store(tt, page.offset, Load(sp.sources, key, sp.pagesize))),
                          Slice(page.offset + (s.offset - key), s.len)))
  {
    AllocIsTaken(sp.sources, sp.pagesize);
    PageInSource(sp, s);
  }

  class LogicalAddressSpace {
    const bits: nat
    const pagesize: Size
    var sources: seq<Source>
    var backing: map<nat, Stored>

    function Value(): Space
      reads this
    {
      Space(pagesize, sources, backing)
    }

    ghost predicate Valid()
      reads this
    {
      PageFits(bits, pagesize) && WellFormed(Value())
    }

    constructor (bits: nat, sources: seq<Source>)
      requires bits <= 62 && Placed(sources, Pow2(bits))
      ensures Valid() && this.bits == bits && Value() == Space(Pow2(bits), sources, map[])
    {
      PageSizeFits(bits);
      this.bits, this.pagesize := bits, Pow2(bits);
      this.sources, this.backing := sources, map[];
    }

    /** What the mask arithmetic finds for a slice. */
    lemma SlicePage(s: Slice)
      requires Valid() && Sized(Value(), s)
      ensures s.len + pagesize <= WORD
      ensures PageAligned(s, pagesize) == Slice(PageOf(s.offset, pagesize), pagesize)
      ensures Locate(sources, PageOf(s.offset, pagesize)) == Locate(sources, s.offset)
      ensures Resolves(Value(), s) ==>
        var src := SourceOf(Value(), s); var page := ToPage(s, pagesize, src.base);
        && page.len == pagesize && src.base + page.offset == PageOf(s.offset, pagesize)
        && PageOffset(s, page, src.base) == Rem(s.offset, pagesize)
        && (page.offset + pagesize <= |src.bytes| <==> Accepted(Value(), s))
    {
      PageResolves(Value(), s);
      AlignedArithmetic(s, bits, pagesize);
      if Resolves(Value(), s) {
        PageArithmetic(s, bits, pagesize, SourceOf(Value(), s).base);
        PageStartsInside(Value(), s);
      }
    }

    lemma AlignedPage(s: Slice)
      requires Valid() && Sized(Value(), s)
      ensures s.len + pagesize <= WORD && PageAligned(s, pagesize) == Slice(PageOf(s.offset, pagesize), pagesize)
      ensures 2 * pagesize <= WORD && Locate(sources, PageOf(s.offset, pagesize)) == Locate(sources, s.offset)
      ensures Resolves(Value(), s) ==>
        var base := SourceOf(Value(), s).base; var key := PageOf(s.offset, pagesize);
        base <= key && PageOffset(s, ToPage(Slice(key, pagesize), pagesize, base), base) == s.offset - key
    {
      SlicePage(s);
      PageOfIsAligned(s.offset, pagesize);
      SlicePage(Slice(PageOf(s.offset, pagesize), pagesize));
    }

    /** Where the page around a slice starts. */
    method PageKey(s: Slice) returns (key: nat)
      requires Valid() && Sized(Value(), s)
      ensures key == PageOf(s.offset, pagesize) && Locate(sources, key) == Locate(sources, s.offset)
    {
      SlicePage(s);
      key := PageAligned(s, pagesize).offset;
    }

    /** The bytes of the page around a slice, and where in it the slice starts. */
    method PageBytes(s: Slice) returns (r: Answer<seq<byte>>, offset: nat)
      requires Valid() && Sized(Value(), s) && Resolves(Value(), s)
      ensures r.Ok? <==> Accepted(Value(), s)
      ensures r.Err? ==> r.error == Overrun(SourceOf(Value(), s))
      ensures r.Ok? ==> InSource(sources, PageOf(s.offset, pagesize), pagesize)
      ensures r.Ok? ==> r.value == Load(sources, PageOf(s.offset, pagesize), pagesize)
      ensures offset == s.offset - PageOf(s.offset, pagesize)
    {
      SlicePage(s);
      var src := sources[Locate(sources, s.offset).value];
      var page := ToPage(s, pagesize, src.base);
      offset := PageOffset(s, page, src.base);
      if page.offset + page.len > |src.bytes| {
        return Err(Overrun(src)), offset;
      }
      PageLoad(s);
      r := Ok(src.bytes[page.offset..page.offset + page.len]);
    }

    lemma PageLoad(s: Slice)
      requires Valid() && Accepted(Value(), s) && Resolves(Value(), s)
      ensures s.len + pagesize <= WORD && InSource(sources, PageOf(s.offset, pagesize), pagesize)
      ensures var src := SourceOf(Value(), s); var page := ToPage(s, pagesize, src.base);
        && page.offset + page.len <= |src.bytes|
        && src.bytes[page.offset..page.offset + page.len] == Load(sources, PageOf(s.offset, pagesize), pagesize)
    {
      SlicePage(s);
      PageInSource(Value(), s);
      var page := ToPage(s, pagesize, SourceOf(Value(), s).base);
      PageIsLoaded(sources, PageOf(s.offset, pagesize), pagesize, page);
    }

    /** Arguments for which `read` and `write` meet their assertions. */
    predicate InMemory(s: Slice)
      reads this
    {
      && Sized(Value(), s) && (Resolves(Value(), s) ==> SourceOf(Value(), s).byteAddressable)
      && (Accepted(Value(), s) ==> OnePage(s, pagesize))
    }

    /** `read`. */
    method Read(s: Slice) returns (r: Answer<seq<byte>>)
      requires Valid() && InMemory(s)
      ensures !Resolves(Value(), s) ==> r == Err(InvalidLogicalAddress)
      ensures Resolves(Value(), s) && !Accepted(Value(), s) ==> r == Err(InvalidMemory)
      ensures Resolves(Value(), s) && Accepted(Value(), s) ==>
        InSource(sources, s.offset, s.len) && r == Ok(Load(sources, s.offset, s.len))
    {
      var i := Locate(sources, s.offset);
      if i.None? {
        return Err(InvalidLogicalAddress);
      }
      var data, start := PageBytes(s);
      if data.Err? {
        return Err(data.error);
      }
      PartOfPage(Value(), s);
      return Ok(data.value[start..start + s.len]);
    }

    /** `write`, followed by filling the buffer it returns. */
    method Write(s: Slice, data: seq<byte>) returns (r: Answer<()>)
      requires Valid() && InMemory(s) && |data| == s.len
      modifies this`sources
      ensures Valid()
      ensures !Resolves(old(Value()), s) ==> r == Err(InvalidLogicalAddress)
      ensures Resolves(old(Value()), s) && !Accepted(old(Value()), s) ==> r == Err(InvalidMemory)
      ensures Resolves(old(Value()), s) && Accepted(old(Value()), s) ==> r == Ok(())
      ensures r.Err? ==> sources == old(sources)
      ensures r.Ok? ==> InSource(old(sources), s.offset, s.len) && sources == Store(old(sources), s.offset, data)
    {
      var i := Locate(sources, s.offset);
      if i.None? {
        return Err(InvalidLogicalAddress);
      }
      var src := sources[i.value];
      SlicePage(s);
      var page := ToPage(s, pagesize, src.base);
      if page.offset + page.len > |src.bytes| {
        return Err(InvalidMemory);
      }
      PageInSource(Value(), s);
      var start := page.offset + PageOffset(s, page, src.base);
      PutBytes(i.value, start, data, s.offset);
      return Ok(());
    }

    /** Bytes of one source change in place. */
    method PutBytes(i: nat, start: nat, data: seq<byte>, ghost addr: nat)
      requires Valid() && InSource(sources, addr, |data|) && Locate(sources, addr) == Some(i)
      requires sources[i].base + start == addr
      modifies this`sources
      ensures Valid() && sources == Store(old(sources), addr, data)
    {
      var src := sources[i];
      OverwriteIs(src.bytes, start, data);
      StoreKeeps(Value(), Store(sources, addr, data));
      sources := sources[i := src.(bytes := src.bytes[..start] + data + src.bytes[start + |data|..])];
    }

    /** `alloc`. */
    method Alloc() returns (r: Answer<Slice>)
      requires Valid()
      modifies this`sources
      ensures Valid()
      ensures r == (match AllocPage(old(sources)) case Ok(v) => Ok(v.1) case Err(e) => Err(e))
      ensures sources == (match AllocPage(old(sources)) case Ok(v) => v.0 case Err(_) => old(sources))
    {
      var i := BestByteAddressable(sources);
      if i.None? {
        return Err(NoAvailableMemory);
      }
      var t := TakePage(sources, i.value);
      if t.Err? {
        return Err(t.error);
      }
      TakeIsTaken(sources, i.value, pagesize);
      TakeKeeps(Value(), t.value.0, t.value.1);
      sources := t.value.0;
      return Ok(t.value.1);
    }

    /** `get_backing`. */
    method GetBackingOf(s: Slice) returns (r: Answer<Option<Stored>>)
      requires Valid() && Sized(Value(), s)
      ensures r == GetBacking(Value(), s)
    {
      AlignedPage(s);
      var aligned := PageAligned(s, pagesize);
      var i := Locate(sources, aligned.offset);
      if i.None? {
        return Err(InvalidLogicalAddress);
      }
      var src := sources[i.value];
      var page := ToPage(aligned, pagesize, src.base);
      var offset := PageOffset(s, page, src.base);
      if src.persistent {
        return Ok(Some(ByteSlice(s)));
      }
      if aligned.offset !in backing {
        return Ok(None);
      }
      return Ok(Some(Moved(backing[aligned.offset], offset, s.len)));
    }

    /** `allocate_backing`. */
    method GiveBacking(key: nat) returns (r: Answer<()>)
      requires Valid()
      modifies this
      ensures Valid() && r.Ok? == AllocateBacking(old(Value()), key).Ok?
      ensures r.Ok? ==> Value() == AllocateBacking(old(Value()), key).value
      ensures r.Err? ==> r.error == NoAvailableMemory && Value() == old(Value())
    {
      if key in backing {
        return Ok(());
      }
      var i := BestPersistent(sources);
      if i.None? {
        return Err(NoAvailableMemory);
      }
      var t := TakePage(sources, i.value);
      if t.Err? {
        return Err(t.error);
      }
      BackingKeeps(Value(), key);
      backing := backing[key := NewStored(t.value.1, sources[i.value].byteAddressable)];
      sources := t.value.0;
      return Ok(());
    }

    /** `flush`, which calls itself once when it first has to find a backing page. */
    method FlushSlice(s: Slice) returns (r: Answer<Stored>)
      requires Valid() && Sized(Value(), s) && (Resolves(Value(), s) ==> SourceOf(Value(), s).byteAddressable)
      modifies this
      ensures Valid() && (r.Err? ==> Value() == old(Value()))
      ensures !Accepted(old(Value()), s) ==> r == Err(InvalidMemory)
      ensures Accepted(old(Value()), s) ==> r.Ok? == Flush(old(Value()), s).Ok?
      ensures Accepted(old(Value()), s) && r.Ok? ==> (Value(), r.value) == Flush(old(Value()), s).value
      ensures Accepted(old(Value()), s) && r.Err? ==> r.error == Flush(old(Value()), s).error
      decreases if PageOf(s.offset, pagesize) in backing then 0 else 1
    {
      var key := PageKey(s);
      var i := Locate(sources, key);
      if i.None? {
        return Err(InvalidLogicalAddress);
      }
      var data, offset := PageBytes(s);
      if data.Err? {
        return Err(data.error);
      }
      if sources[i.value].persistent {
        return Ok(ByteSlice(s));
      }
      if key in backing {
        CopyOut(backing[key].slice, key, data.value);
        return Ok(Moved(backing[key], offset, s.len));
      }
      if AllocateBacking(Value(), key).Ok? {
        FlushAfterBacking(Value(), s);
      }
      var b := GiveBacking(key);
      if b.Err? {
        return Err(b.error);
      }
      r := FlushSlice(s);
    }

    lemma TargetPage(key: nat)
      requires Valid() && key in backing
      ensures var t := backing[key].slice;
        && Resolves(Value(), t) && t.len + pagesize <= WORD && InSource(sources, t.offset, pagesize)
        && SourceOf(Value(), t).base + ToPage(t, pagesize, SourceOf(Value(), t).base).offset == t.offset
    {
      TargetUsable(Value(), key);
      SlicePage(backing[key].slice);
    }

    /** The write of a page into its backing page. */
    method CopyOut(target: Slice, key: nat, data: seq<byte>)
      requires Valid() && key in backing && backing[key].slice == target
      requires InSource(sources, key, pagesize) && data == Load(sources, key, pagesize)
      modifies this`sources
      ensures Valid() && Value() == WriteBack(old(Value()), key)
    {
      TargetPage(key);
      var i := Locate(sources, target.offset).value;
      var page := ToPage(target, pagesize, sources[i].base);
      PutBytes(i, page.offset, data, target.offset);
    }

    /** `fetch`. */
    method FetchSlice(s: Slice) returns (r: Answer<Slice>)
      requires Valid() && Sized(Value(), s)
      modifies this`sources
      ensures Valid() && (r.Err? ==> Value() == old(Value()))
      ensures !Accepted(old(Value()), s) ==> Resolves(old(Value()), s) && r == Err(Overrun(SourceOf(old(Value()), s)))
      ensures Accepted(old(Value()), s) ==> r.Ok? == Fetch(old(Value()), s).Ok?
      ensures Accepted(old(Value()), s) && r.Ok? ==> (Value(), r.value) == Fetch(old(Value()), s).value
      ensures Accepted(old(Value()), s) && r.Err? ==> r.error == Fetch(old(Value()), s).error
    {
      var i := Locate(sources, s.offset);
      if i.None? {
        return Err(InvalidLogicalAddress);
      }
      var data, offset := PageBytes(s);
      if data.Err? {
        return Err(data.error);
      }
      r := FetchInto(s, data.value, offset);
    }

    /** The rest of it: a fresh page takes the bytes of the page around the slice. */
    method FetchInto(s: Slice, data: seq<byte>, offset: nat) returns (r: Answer<Slice>)
      requires Valid() && Accepted(Value(), s) && Resolves(Value(), s)
      requires InSource(sources, PageOf(s.offset, pagesize), pagesize)
      requires data == Load(sources, PageOf(s.offset, pagesize), pagesize)
      requires offset == s.offset - PageOf(s.offset, pagesize)
      modifies this`sources
      ensures Valid() && r.Ok? == Fetch(old(Value()), s).Ok?
      ensures r.Ok? ==> (Value(), r.value) == Fetch(old(Value()), s).value
      ensures r.Err? ==> r.error == Fetch(old(Value()), s).error && Value() == old(Value())
    {
      var a := Alloc();
      if a.Err? {
        return Err(a.error);
      }
      FetchIntoPage(old(Value()), s, sources, a.value);
      FillPage(old(sources), a.value, data);
      return Ok(Slice(a.value.offset + offset, s.len));
    }

    /** `copy_from_slice` into a page that was just allocated. */
    method FillPage(ghost before: seq<Source>, page: Slice, data: seq<byte>)
      requires Valid() && Taken(before, sources, page, pagesize) && |data| == pagesize
      modifies this`sources
      ensures Valid() && sources == Store(old(sources), page.offset, data)
    {
      var i := Locate(sources, page.offset).value;
      PutBytes(i, page.offset - sources[i].base, data, page.offset);
    }
  }
}
