/** How pointers and versions are packed into one machine word, and that packing loses nothing. */
module Words {
  import opened Basics
  import opened Bits
  import P = Protocol

  // ---------------------------------------------------------------- pointers

  const POINTER_TYPE_MASK: nat := 0x00C0_0000_0000_0000
  const POINTER_REFCOUNT_MASK: nat := 0xFF00_0000_0000_0000
  const POINTER_BYTE_ADDRESSABLE: nat := 0
  const POINTER_BLOCK: nat := 0x0040_0000_0000_0000
  const POINTER_LOG: nat := 0x0080_0000_0000_0000

  const POINTER_ADDRESS_MASK: nat := 0x003F_FFFF_FFFF_FFFF

  datatype Kind = Byte | Block | Log

  function Tag(kind: Kind): nat {
    match kind
    case Byte => POINTER_BYTE_ADDRESSABLE
    case Block => POINTER_BLOCK
    case Log => POINTER_LOG
  }

  /** `new_byte`, `new_block` and `new_log`. */
  function NewPointer(address: nat, kind: Kind): nat {
    Or(address, Tag(kind))
  }

  function Address(p: nat): nat {
    And(p, POINTER_ADDRESS_MASK)
  }

  function TypeBits(p: nat): nat {
    And(p, POINTER_TYPE_MASK)
  }

  predicate IsByteAddressable(p: nat) {
    TypeBits(p) == POINTER_BYTE_ADDRESSABLE
  }

  lemma Pow2Of54()
    ensures Pow2(54) == POINTER_BLOCK
  {
    assert Pow2(8) == 256 && Pow2(6) == 64;
    Pow2Adds(8, 8);
    Pow2Adds(16, 16);
    Pow2Adds(32, 16);
    Pow2Adds(48, 6);
  }

  /** The address mask is what the other two masks leave, a run of 54 ones. */
  lemma AddressMaskIsOnes()
    ensures Or(POINTER_TYPE_MASK, POINTER_REFCOUNT_MASK) < WORD
    ensures POINTER_ADDRESS_MASK == Not(Or(POINTER_TYPE_MASK, POINTER_REFCOUNT_MASK)) == Pow2(54) - 1
  {
    Pow2Of54();
    assert POINTER_TYPE_MASK == Join(3, 0, 54) && POINTER_REFCOUNT_MASK == Join(1020, 0, 54);
    OrOfJoin(3, 0, 1020, 0, 54);
    assert Or(3, 1020) == 1023;
  }

  function TagNumber(kind: Kind): nat {
    match kind
    case Byte => 0
    case Block => 1
    case Log => 2
  }

  /** A pointer is its tag above its 54-bit address. */
  lemma PointerIsJoin(address: nat, kind: Kind)
    requires address < Pow2(54)
    ensures NewPointer(address, kind) == Join(TagNumber(kind), address, 54)
  {
    Pow2Of54();
    OrOfJoin(0, address, TagNumber(kind), 0, 54);
    assert Join(0, address, 54) == address && Join(TagNumber(kind), 0, 54) == Tag(kind);
  }

  lemma AddressOfPointer(address: nat, kind: Kind)
    requires address < Pow2(54)
    ensures Address(NewPointer(address, kind)) == address
  {
    PointerIsJoin(address, kind);
    AddressMaskIsOnes();
    LowPart(TagNumber(kind), address, 54);
  }

  lemma TagsSurviveMask(kind: Kind)
    ensures And(TagNumber(kind), 3) == TagNumber(kind)
  {
    assert And(0, 3) == 0 && And(1, 3) == 1 && And(2, 3) == 2;
  }

  lemma KindOfPointer(address: nat, kind: Kind)
    requires address < Pow2(54)
    ensures TypeBits(NewPointer(address, kind)) == Tag(kind)
  {
    Pow2Of54();
    PointerIsJoin(address, kind);
    AndOfJoin(TagNumber(kind), address, 3, 0, 54);
    TagsSurviveMask(kind);
    AndIsZero(address);
  }

  /** Packing a pointer and taking it apart gives back its address and its kind. */
  lemma PointerRoundTrip(address: nat, kind: Kind)
    requires address < Pow2(54)
    ensures Address(NewPointer(address, kind)) == address
    ensures TypeBits(NewPointer(address, kind)) == Tag(kind)
    ensures IsByteAddressable(NewPointer(address, kind)) <==> kind == Byte
  {
    AddressOfPointer(address, kind);
    KindOfPointer(address, kind);
  }

  /** So different addresses or kinds make different words. */
  lemma PointersAreInjective(a: nat, k: Kind, b: nat, l: Kind)
    requires a < Pow2(54) && b < Pow2(54) && NewPointer(a, k) == NewPointer(b, l)
    ensures a == b && k == l
  {
    PointerRoundTrip(a, k);
    PointerRoundTrip(b, l);
    Pow2Of54();
  }

  // ---------------------------------------------------------------- versions

  const VERSION_TYPE_MASK: nat := 0x8000_0000_0000_0000
  const VERSION_TYPE_INDIRECT: nat := 0x8000_0000_0000_0000
  const VERSION_DATA_MASK: nat := 0x7FFF_FFFF_FFFF_FFFF

  /** `Version::new_indirect`, whose assertion is the precondition. */
  function NewIndirect(p: nat): nat
    requires And(p, VERSION_TYPE_MASK) == 0
  {
    Or(p, VERSION_TYPE_INDIRECT)
  }

  predicate IsDirect(w: nat) {
    And(w, VERSION_TYPE_MASK) == 0
  }

  function DataBits(w: nat): nat {
    And(w, VERSION_DATA_MASK)
  }

  lemma Pow2Of63()
    ensures Pow2(63) == VERSION_TYPE_MASK && VERSION_DATA_MASK == Pow2(63) - 1
  {
    Pow2Of64();
  }

  /** A number below 2^63 is a direct version with that number as its data. */
  lemma DirectRoundTrip(n: nat)
    requires n < Pow2(63)
    ensures IsDirect(n) && DataBits(n) == n
  {
    Pow2Of63();
    assert n == Join(0, n, 63) && VERSION_TYPE_MASK == Join(1, 0, 63) && VERSION_DATA_MASK == Join(0, Pow2(63) - 1, 63);
    AndOfJoin(0, n, 1, 0, 63);
    AndIsZero(n);
    AndOfJoin(0, n, 0, Pow2(63) - 1, 63);
    AndOnes(n, 63);
  }

  /** An indirect version keeps the pointer word it was made from. */
  lemma IndirectRoundTrip(p: nat)
    requires p < Pow2(63)
    ensures And(p, VERSION_TYPE_MASK) == 0
    ensures !IsDirect(NewIndirect(p)) && DataBits(NewIndirect(p)) == p
  {
    DirectRoundTrip(p);
    Pow2Of63();
    assert p == Join(0, p, 63) && VERSION_TYPE_INDIRECT == Join(1, 0, 63)
      && VERSION_DATA_MASK == Join(0, Pow2(63) - 1, 63);
    OrOfJoin(0, p, 1, 0, 63);
    assert NewIndirect(p) == Join(1, p, 63);
    AndOfJoin(1, p, 1, 0, 63);
    AndIsZero(p);
    assert And(1, 1) == 1;
    AndOfJoin(1, p, 0, Pow2(63) - 1, 63);
    AndIsZero(1);
    AndOnes(p, 63);
  }

  /** `Version::read` on words in memory, following at most `hops` indirections. */
  function Resolve(mem: map<nat, nat>, w: nat, hops: nat): Option<nat>
    decreases hops
  {
    if IsDirect(w) then Some(DataBits(w))
    else if hops == 0 || !IsByteAddressable(DataBits(w)) || Address(DataBits(w)) !in mem then None
    else Resolve(mem, mem[Address(DataBits(w))], hops - 1)
  }

  /** `Version::commit`: the word at the end of the indirections takes the new number. */
  function Publish(mem: map<nat, nat>, w: nat, number: nat, hops: nat): Option<(map<nat, nat>, nat)>
    decreases hops
  {
    if IsDirect(w) then Some((mem, number))
    else if hops == 0 || !IsByteAddressable(DataBits(w)) || Address(DataBits(w)) !in mem then None
    else
      var a := Address(DataBits(w));
      var r := Publish(mem, mem[a], number, hops - 1);
      if r.None? then None else Some((r.value.0[a := r.value.1], w))
  }

  // ---------------------------------------------------------------- the words behind the protocol

  /** The word that stands for a version of the protocol. */
  function Encode(v: P.VersionWord): nat {
    match v
    case Direct(n) => n
    case Indirect(l) => Or(NewPointer(l, Byte), VERSION_TYPE_INDIRECT)
  }

  /** Addresses fit in 54 bits and version numbers in 63. */
  ghost predicate Fits(logs: map<P.Addr, P.Log>, v: P.VersionWord) {
    && (forall l :: l in logs ==> logs[l].word < Pow2(63))
    && (v.Direct? ==> v.number < Pow2(63))
    && (v.Indirect? ==> v.log in logs && v.log < Pow2(54))
  }

  function Memory(logs: map<P.Addr, P.Log>): map<nat, nat> {
    map l | l in logs :: logs[l].word
  }

  /** An indirect version leads to exactly its log word. */
  lemma EncodedLog(l: nat)
    requires l < Pow2(54)
    ensures !IsDirect(Encode(P.Indirect(l))) && IsByteAddressable(DataBits(Encode(P.Indirect(l))))
    ensures Address(DataBits(Encode(P.Indirect(l)))) == l
  {
    PointerRoundTrip(l, Byte);
    PointerIsJoin(l, Byte);
    Pow2Monotone(54, 63);
    IndirectRoundTrip(NewPointer(l, Byte));
  }

  /** Reading a packed version takes at most one indirection and gives the protocol's number. */
  lemma ResolveIsNumber(logs: map<P.Addr, P.Log>, v: P.VersionWord, hops: nat)
    requires Fits(logs, v) && hops >= 1
    ensures Resolve(Memory(logs), Encode(v), hops) == Some(P.Number(logs, v))
  {
    match v
    case Direct(n) => DirectRoundTrip(n);
    case Indirect(l) =>
      EncodedLog(l);
      DirectRoundTrip(logs[l].word);
  }

  lemma PublishOnce(mem: map<nat, nat>, w: nat, l: nat, number: nat)
    requires !IsDirect(w) && IsByteAddressable(DataBits(w)) && Address(DataBits(w)) == l
    requires l in mem && IsDirect(mem[l])
    ensures Publish(mem, w, number, 1) == Some((mem[l := number], w))
  {
    assert Publish(mem, mem[l], number, 0) == Some((mem, number));
  }

  lemma PublishStores(logs: map<P.Addr, P.Log>, l: nat, number: nat, w: nat)
    requires Fits(logs, P.Indirect(l)) && w == Encode(P.Indirect(l))
    ensures Publish(Memory(logs), w, number, 1) == Some((Memory(logs[l := logs[l].(word := number)]), w))
  {
    EncodedLog(l);
    DirectRoundTrip(logs[l].word);
    PublishOnce(Memory(logs), w, l, number);
    MemoryChanges(logs, l, number);
  }

  lemma MemoryChanges(logs: map<P.Addr, P.Log>, l: nat, number: nat)
    requires l in logs
    ensures Memory(logs[l := logs[l].(word := number)]) == Memory(logs)[l := number]
  {
  }

  /** Committing through one packed version changes the number behind that log word and no other. */
  lemma PublishThenResolve(logs: map<P.Addr, P.Log>, l: nat, number: nat, v: P.VersionWord)
    requires Fits(logs, P.Indirect(l)) && Fits(logs, v) && number < Pow2(63)
    ensures Publish(Memory(logs), Encode(P.Indirect(l)), number, 1).Some?
    ensures Resolve(Publish(Memory(logs), Encode(P.Indirect(l)), number, 1).value.0, Encode(v), 1)
            == Some(if v == P.Indirect(l) then number else P.Number(logs, v))
  {
    PublishStores(logs, l, number, Encode(P.Indirect(l)));
    StillFits(logs, l, number, v);
    ResolveIsNumber(logs[l := logs[l].(word := number)], v, 1);
  }

  lemma StillFits(logs: map<P.Addr, P.Log>, l: nat, number: nat, v: P.VersionWord)
    requires l in logs && Fits(logs, v) && number < Pow2(63)
    ensures Fits(logs[l := logs[l].(word := number)], v)
    ensures P.Number(logs[l := logs[l].(word := number)], v) == if v == P.Indirect(l) then number else P.Number(logs, v)
  {
  }
}
