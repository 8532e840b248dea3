/** The 64-bit word behind a page table entry, and why an address with a set of flags models it. */
module PageEntryBits {
  import opened PageWalk

  const ADDRESS_MASK: bv64 := 0x0FFF_FFFF_FFFF_F000
  const FLAGS_MASK: bv64 := 0x8000_0000_0000_01FF

  function Bit(f: Flag): bv64 {
    match f
    case Present => 0x1
    case Writable => 0x2
    case UserAccessible => 0x4
    case WriteThrough => 0x8
    case NoCache => 0x10
    case Accessed => 0x20
    case Dirty => 0x40
    case HugePage => 0x80
    case Global => 0x100
    case NoExecute => 0x8000_0000_0000_0000
  }

  function AddressBits(e: bv64): bv64 {
    e & ADDRESS_MASK
  }

  function FlagBits(e: bv64): bv64 {
    e & FLAGS_MASK
  }

  /** What the program demands of an address before it stores it. */
  predicate Storable(a: bv64) {
    a & 0xFFF == 0 && a < 0x10_0000_0000_0000
  }

  function SetAddress(e: bv64, a: bv64): bv64 {
    a | FlagBits(e)
  }

  function SetFlags(e: bv64, flags: bv64): bv64 {
    AddressBits(e) | flags
  }

  ghost function FlagsOf(e: bv64): set<Flag> {
    set f: Flag | e & Bit(f) != 0
  }

  ghost function Decode(e: bv64): Entry {
    Entry(AddressBits(e) as nat, FlagsOf(e))
  }

  /** The flags in the order of their bits: the low nine, and the highest. */
  lemma {:induction false} FlagPlaces(e: bv64, f: Flag, i: nat)
    requires i < 10
    requires f == [Present, Writable, UserAccessible, WriteThrough, NoCache, Accessed, Dirty, HugePage, Global,
                   NoExecute][i]
    ensures Bit(f) == if i < 9 then 1 << i else 1 << 63
    ensures f in FlagsOf(e) <==> e & Bit(f) != 0
  {
  }

  lemma {:induction false} BitInMask(f: Flag)
    ensures Bit(f) & FLAGS_MASK == Bit(f)
  {
  }

  lemma {:induction false} SetAddressBit(e: bv64, a: bv64, b: bv64)
    requires Storable(a) && b & FLAGS_MASK == b
    ensures SetAddress(e, a) & b == e & b
  {
  }

  lemma {:induction false} SetFlagsBit(e: bv64, flags: bv64, b: bv64)
    requires b & FLAGS_MASK == b
    ensures SetFlags(e, flags) & b == flags & b
  {
  }

  lemma {:induction false} SetAddressBits(e: bv64, a: bv64)
    requires Storable(a)
    ensures AddressBits(SetAddress(e, a)) == a
  {
  }

  lemma {:induction false} SetFlagsBits(e: bv64, flags: bv64)
    requires flags & FLAGS_MASK == flags
    ensures AddressBits(SetFlags(e, flags)) == AddressBits(e)
  {
  }

  lemma {:induction false} SameFlags(x: bv64, y: bv64)
    requires forall f: Flag :: x & Bit(f) == y & Bit(f)
    ensures FlagsOf(x) == FlagsOf(y)
  {
  }

  lemma {:induction false} SetAddressFlags(e: bv64, a: bv64, r: bv64)
    requires Storable(a) && r == SetAddress(e, a)
    ensures FlagsOf(r) == FlagsOf(e)
  {
    forall f: Flag ensures r & Bit(f) == e & Bit(f) {
      BitInMask(f);
      SetAddressBit(e, a, Bit(f));
    }
    SameFlags(r, e);
  }

  lemma {:induction false} SetFlagsFlags(e: bv64, flags: bv64, r: bv64)
    requires r == SetFlags(e, flags)
    ensures FlagsOf(r) == FlagsOf(flags)
  {
    forall f: Flag ensures r & Bit(f) == flags & Bit(f) {
      BitInMask(f);
      SetFlagsBit(e, flags, Bit(f));
    }
    SameFlags(r, flags);
  }

  /** Storing an address changes the address and keeps the flags. */
  lemma {:induction false} AddressStored(e: bv64, a: bv64)
    requires Storable(a)
    ensures Decode(SetAddress(e, a)) == Entry(a as nat, Decode(e).flags)
  {
    SetAddressBits(e, a);
    SetAddressFlags(e, a, SetAddress(e, a));
  }

  /** Storing flags changes the flags and keeps the address. */
  lemma {:induction false} FlagsStored(e: bv64, flags: bv64)
    requires flags & FLAGS_MASK == flags
    ensures Decode(SetFlags(e, flags)) == Entry(Decode(e).address, FlagsOf(flags))
  {
    SetFlagsBits(e, flags);
    SetFlagsFlags(e, flags, SetFlags(e, flags));
  }
}
