/** A page table entry as the 64-bit word it is stored in: the address of a frame with the flags in the
    bits around it. The tables of `Paging` hold what such words stand for. */
module EntryBits {
  import opened Paging

  const ADDRESS: bv64 := 0x000F_FFFF_FFFF_F000
  const FLAGS: bv64 := 0x8000_0000_0000_01FF

  function Pack(flags: bv64, addr: bv64): bv64 { addr | flags }

  function Address(entry: bv64): bv64 { entry & ADDRESS }

  function Flags(entry: bv64): bv64 { entry & FLAGS }

  lemma PackUnpacks(flags: bv64, addr: bv64)
    requires Flags(flags) == flags && Address(addr) == addr
    ensures Flags(Pack(flags, addr)) == flags && Address(Pack(flags, addr)) == addr
  {}

  lemma AddressTwice(entry: bv64)
    ensures Address(Address(entry)) == Address(entry)
  {}

  /** An entry gives back its flags and its address exactly when the address is that of a frame below
      2^52. */
  lemma PackExactIff(flags: bv64, addr: bv64)
    requires Flags(flags) == flags
    ensures Flags(Pack(flags, addr)) == flags && Address(Pack(flags, addr)) == addr <==> Address(addr) == addr
  {
    hide Address, Flags, Pack;
    if Address(addr) == addr {
      PackUnpacks(flags, addr);
    } else {
      AddressTwice(Pack(flags, addr));
    }
  }

  // ----- entries and words -----

  function Bit(f: Flag): bv64 {
    match f
    case Present => 1
    case Writable => 2
    case UserAccessible => 4
    case WriteThrough => 8
    case NoCache => 16
    case Accessed => 32
    case Dirty => 64
    case HugePage => 128
    case Global => 256
    case NoExecute => 0x8000_0000_0000_0000
  }

  function BitIf(f: Flag, flags: set<Flag>): bv64 { if f in flags then Bit(f) else 0 }

  function Bits(flags: set<Flag>): bv64 { Join(LowHalf(flags), HighHalf(flags)) }

  function Join(l: bv64, u: bv64): bv64 { l | u }

  function LowHalf(flags: set<Flag>): bv64 {
    Or(BitIf(Present, flags), BitIf(Writable, flags), BitIf(UserAccessible, flags), BitIf(WriteThrough, flags),
       BitIf(NoCache, flags))
  }

  function HighHalf(flags: set<Flag>): bv64 {
    Or(BitIf(Accessed, flags), BitIf(Dirty, flags), BitIf(HugePage, flags), BitIf(Global, flags),
       BitIf(NoExecute, flags))
  }

  function Or(a: bv64, b: bv64, c: bv64, d: bv64, e: bv64): bv64 { a | b | c | d | e }

  predicate Meets(word: bv64, bits: bv64) { word & bits != 0 }

  predicate Has(word: bv64, f: Flag) { Meets(word, Bit(f)) }

  function FlagsIn(word: bv64): set<Flag> { set f: Flag | Has(word, f) }

  function FrameAddress(frame: bv40): bv64 { frame as bv64 << 12 }

  function FrameAt(addr: bv64): bv40 { ((addr & ADDRESS) >> 12) as bv40 }

  /** The entry that a word stands for. */
  function Decode(word: bv64): Entry { Entry(FlagsIn(word), FrameAt(Address(word)) as nat) }

  /** `Entry::new`. */
  function Encode(flags: set<Flag>, frame: bv40): bv64 { Pack(Bits(flags), FrameAddress(frame)) }

  lemma LowBits(a: bv64, b: bv64, c: bv64, d: bv64, e: bv64)
    requires (a == 0 || a == 1) && (b == 0 || b == 2) && (c == 0 || c == 4) && (d == 0 || d == 8) && (e == 0 || e == 16)
    ensures var w := Or(a, b, c, d, e);
      w & 1 == a && w & 2 == b && w & 4 == c && w & 8 == d && w & 16 == e && w & 0x1F == w
  {}

  lemma HighBits(a: bv64, b: bv64, c: bv64, d: bv64, e: bv64)
    requires (a == 0 || a == 32) && (b == 0 || b == 64) && (c == 0 || c == 128) && (d == 0 || d == 256)
    requires e == 0 || e == 0x8000_0000_0000_0000
    ensures var w := Or(a, b, c, d, e);
      w & 32 == a && w & 64 == b && w & 128 == c && w & 256 == d && w & 0x8000_0000_0000_0000 == e &&
      w & 0x8000_0000_0000_01E0 == w
  {}

  predicate InLow(bits: bv64) { bits & 0x1F == bits }

  predicate InHigh(bits: bv64) { bits & 0x8000_0000_0000_01E0 == bits }

  lemma LowHalfBits(flags: set<Flag>, f: Flag)
    ensures InLow(LowHalf(flags)) && (InLow(Bit(f)) ==> (Has(LowHalf(flags), f) <==> f in flags))
  {
    LowBits(BitIf(Present, flags), BitIf(Writable, flags), BitIf(UserAccessible, flags), BitIf(WriteThrough, flags),
            BitIf(NoCache, flags));
    hide Or;
  }

  lemma HighHalfBits(flags: set<Flag>, f: Flag)
    ensures InHigh(HighHalf(flags)) && (InHigh(Bit(f)) ==> (Has(HighHalf(flags), f) <==> f in flags))
  {
    HighBits(BitIf(Accessed, flags), BitIf(Dirty, flags), BitIf(HugePage, flags), BitIf(Global, flags),
             BitIf(NoExecute, flags));
    hide Or;
  }

  lemma JoinHalves(l: bv64, u: bv64, bit: bv64)
    requires InLow(l) && InHigh(u)
    ensures Flags(Join(l, u)) == Join(l, u)
    ensures InLow(bit) ==> (Meets(Join(l, u), bit) <==> Meets(l, bit))
    ensures InHigh(bit) ==> (Meets(Join(l, u), bit) <==> Meets(u, bit))
  {}

  lemma OneHalf(f: Flag)
    ensures (InLow(Bit(f)) || InHigh(Bit(f))) && Flags(Bit(f)) == Bit(f)
  {}

  lemma BitsFlags(flags: set<Flag>, f: Flag)
    ensures Flags(Bits(flags)) == Bits(flags) && (Has(Bits(flags), f) <==> f in flags)
  {
    hide LowHalf, HighHalf, BitIf, Bit, InLow, InHigh, Flags, Join, Meets;
    LowHalfBits(flags, f);
    HighHalfBits(flags, f);
    OneHalf(f);
    JoinHalves(LowHalf(flags), HighHalf(flags), Bit(f));
  }

  lemma FrameBits(x: bv40)
    ensures Address(FrameAddress(x)) == FrameAddress(x) && FrameAt(FrameAddress(x)) == x
  {}

  lemma AndWithin(a: bv64, b: bv64, c: bv64)
    requires c & b == c
    ensures (a & b) & c == a & c
  {}

  lemma MeetsFlags(word: bv64, bits: bv64)
    requires Flags(bits) == bits
    ensures Meets(Flags(word), bits) <==> Meets(word, bits)
  {
    AndWithin(word, FLAGS, bits);
    assert Flags(word) & bits == word & bits;
  }

  lemma FlagsRoundTrip(flags: set<Flag>, addr: bv64)
    requires Address(addr) == addr
    ensures FlagsIn(Pack(Bits(flags), addr)) == flags && Address(Pack(Bits(flags), addr)) == addr
  {
    hide Bits, Bit, Flags, Address, Pack, Meets, InLow, InHigh;
    var word := Pack(Bits(flags), addr);
    BitsFlags(flags, Present);
    PackUnpacks(Bits(flags), addr);
    forall f: Flag ensures f in FlagsIn(word) <==> f in flags {
      BitsFlags(flags, f);
      OneHalf(f);
      MeetsFlags(word, Bit(f));
    }
  }

  /** A word made from flags and a frame stands for the entry of both. */
  lemma EntryRoundTrip(flags: set<Flag>, frame: bv40)
    ensures Decode(Encode(flags, frame)) == Entry(flags, frame as nat)
  {
    hide Bits, Address, Pack, FrameAddress, FrameAt, FlagsIn;
    FrameBits(frame);
    FlagsRoundTrip(flags, FrameAddress(frame));
  }

  /** A word is made again from what it stands for exactly when none of its other bits is set. */
  lemma WordRoundTripIff(word: bv64)
    ensures Encode(FlagsIn(word), FrameAt(Address(word))) == word <==> word & (ADDRESS | FLAGS) == word
  {
    FlagsAgain(word);
    AddressAgain(word);
    hide Bits, FlagsIn, FrameAt, FrameAddress;
    Parts(word);
  }

  lemma Parts(word: bv64)
    ensures Pack(Flags(word), Address(word)) == word <==> word & (ADDRESS | FLAGS) == word
  {
    assert (word & ADDRESS) | (word & FLAGS) == word & (ADDRESS | FLAGS);
  }

  lemma AddressAgain(word: bv64)
    ensures FrameAddress(FrameAt(Address(word))) == Address(word)
  {}

  predicate Single(bit: bv64) {
    bit == 1 || bit == 2 || bit == 4 || bit == 8 || bit == 16 || bit == 32 || bit == 64 || bit == 128 || bit == 256 ||
    bit == 0x8000_0000_0000_0000
  }

  /** What is left of a word at one bit is that bit or nothing. */
  lemma OneBit(word: bv64, bit: bv64)
    requires Single(bit)
    ensures word & bit == if Meets(word, bit) then bit else 0
  {}

  lemma BitIsSingle(f: Flag)
    ensures Single(Bit(f))
  {}

  lemma BitAgain(word: bv64, f: Flag)
    ensures BitIf(f, FlagsIn(word)) == word & Bit(f)
  {
    hide Bit, Meets, Single;
    BitIsSingle(f);
    OneBit(word, Bit(f));
  }

  lemma LowAgain(word: bv64)
    ensures LowHalf(FlagsIn(word)) == Or(word & 1, word & 2, word & 4, word & 8, word & 16)
  {
    hide BitIf, FlagsIn, Or;
    BitAgain(word, Present);
    BitAgain(word, Writable);
    BitAgain(word, UserAccessible);
    BitAgain(word, WriteThrough);
    BitAgain(word, NoCache);
  }

  lemma HighAgain(word: bv64)
    ensures HighHalf(FlagsIn(word)) == Or(word & 32, word & 64, word & 128, word & 256, word & 0x8000_0000_0000_0000)
  {
    hide BitIf, FlagsIn, Or;
    BitAgain(word, Accessed);
    BitAgain(word, Dirty);
    BitAgain(word, HugePage);
    BitAgain(word, Global);
    BitAgain(word, NoExecute);
  }

  lemma LowUnion(word: bv64)
    ensures Or(word & 1, word & 2, word & 4, word & 8, word & 16) == word & 0x1F
  {}

  lemma HighUnion(word: bv64)
    ensures Or(word & 32, word & 64, word & 128, word & 256, word & 0x8000_0000_0000_0000)
         == word & 0x8000_0000_0000_01E0
  {}

  lemma BothHalves(word: bv64)
    ensures Join(word & 0x1F, word & 0x8000_0000_0000_01E0) == Flags(word)
  {}

  lemma FlagsAgain(word: bv64)
    ensures Bits(FlagsIn(word)) == Flags(word)
  {
    hide LowHalf, HighHalf, FlagsIn, Or, Join, Flags;
    LowAgain(word);
    HighAgain(word);
    LowUnion(word);
    HighUnion(word);
    BothHalves(word);
  }

  // ----- the zero word -----

  lemma ZeroEntry(flags: bv64, addr: bv64)
    ensures Pack(flags, addr) == 0 <==> flags == 0 && addr == 0
  {}

  lemma ZeroParts(f: Flag)
    ensures !Has(0, f) && FrameAddress(0) == 0 && FrameAt(0) == 0 && Address(0) == 0 && (0 as bv40) as nat == 0
  {}

  /** Clearing a word makes it the entry without flags for frame 0, and no other entry is stored as the
      zero word. */
  lemma ZeroWordIff(flags: set<Flag>, frame: bv40)
    ensures Decode(0) == ZERO && (Encode(flags, frame) == 0 <==> flags == {} && frame == 0)
  {
    hide Bits, Address, Pack, FrameAddress, FrameAt, Has;
    ZeroParts(Present);
    forall f: Flag ensures f !in FlagsIn(0) { ZeroParts(f); }
    ZeroEntry(Bits(flags), FrameAddress(frame));
    FrameBits(frame);
    if Bits(flags) == 0 {
      forall f: Flag ensures f !in flags {
        ZeroParts(f);
        BitsFlags(flags, f);
      }
      assert flags == {};
    } else {
      assert flags != {} by { NoBits(); }
    }
  }

  lemma NoBits()
    ensures Bits({}) == 0
  {}
}
