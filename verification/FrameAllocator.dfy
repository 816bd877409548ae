/** The physical frame allocator: one bit per 4096-byte frame, kept in a byte array
    that every operation changes in place.

    The specification is the sequence of bits, `Used`: frame `k` is in use exactly when
    `Used[k]`. Releasing a frame toggles its bit, so a frame that is released twice
    becomes used again; every client has to release each frame exactly once.
 */
module FrameAllocator {
  import opened Wrappers

  /** A frame is named by its number; its address is `number * PAGE_SIZE`. */
  datatype Frame = Frame(number: nat) {
    function StartAddress(): nat { number * PAGE_SIZE }
  }

  function AlignDown(x: nat, alignment: nat): nat
    requires alignment > 0
  {
    x / alignment * alignment
  }

  // ----- one byte of the bitmap -----

  predicate Bit(b: bv8, col: nat)
    requires col < 8
  {
    (b >> col) & 1 == 1
  }

  function WithBit(b: bv8, col: nat): bv8
    requires col < 8
  {
    b | (1 << col)
  }

  function Flipped(b: bv8, col: nat): bv8
    requires col < 8
  {
    b ^ (1 << col)
  }

  /** The byte in which only one bit is set. */
  function Mask(col: nat): bv8
    requires col < 8
  {
    if col == 0 then 1 else if col == 1 then 2 else if col == 2 then 4 else if col == 3 then 8
    else if col == 4 then 16 else if col == 5 then 32 else if col == 6 then 64 else 128
  }

  predicate Single(m: bv8) { m == 1 || m == 2 || m == 4 || m == 8 || m == 16 || m == 32 || m == 64 || m == 128 }

  lemma BitIsMask(b: bv8, col: nat)
    requires col < 8
    ensures Bit(b, col) == (b & Mask(col) != 0) && (1 as bv8) << col == Mask(col) && Single(Mask(col))
  {
    Cases(col);
  }

  lemma MasksDiffer(col: nat, other: nat)
    requires col < 8 && other < 8
    ensures Mask(col) == Mask(other) <==> col == other
  {}

  lemma MaskSet(b: bv8, m: bv8, k: bv8)
    requires Single(m) && Single(k)
    ensures (b | m) & k != 0 <==> m == k || b & k != 0
  {}

  lemma MaskFlipped(b: bv8, m: bv8, k: bv8)
    requires Single(m) && Single(k)
    ensures (b ^ m) & k != 0 <==> if m == k then b & k == 0 else b & k != 0
  {}

  /** `b |= 1 << col` sets one bit and keeps the other seven. */
  lemma SetBit(b: bv8, col: nat, other: nat)
    requires col < 8 && other < 8
    ensures Bit(WithBit(b, col), other) == (other == col || Bit(b, other))
  {
    hide Bit, Mask, Single;
    BitIsMask(b, col);
    BitIsMask(b, other);
    BitIsMask(WithBit(b, col), other);
    MasksDiffer(col, other);
    MaskSet(b, Mask(col), Mask(other));
  }

  /** `b ^= 1 << col` flips one bit and keeps the other seven. */
  lemma ToggleBit(b: bv8, col: nat, other: nat)
    requires col < 8 && other < 8
    ensures Bit(Flipped(b, col), other) == if other == col then !Bit(b, other) else Bit(b, other)
  {
    hide Bit, Mask, Single;
    BitIsMask(b, col);
    BitIsMask(b, other);
    BitIsMask(Flipped(b, col), other);
    MasksDiffer(col, other);
    MaskFlipped(b, Mask(col), Mask(other));
  }

  lemma Cases(col: nat)
    requires col < 8
    ensures col == 0 || col == 1 || col == 2 || col == 3 || col == 4 || col == 5 || col == 6 || col == 7
  {}

  // ----- the whole bitmap as a sequence of bits -----

  function Bits(bytes: seq<bv8>): (used: seq<bool>)
    ensures |used| == 8 * |bytes|
    ensures forall k :: 0 <= k < |used| ==> used[k] == Bit(bytes[k / 8], k % 8)
  {
    seq(8 * |bytes|, k requires 0 <= k < 8 * |bytes| => Bit(bytes[k / 8], k % 8))
  }

  lemma BitsAfterSet(bytes: seq<bv8>, row: nat, col: nat)
    requires row < |bytes| && col < 8
    ensures Bits(bytes[row := WithBit(bytes[row], col)]) == Bits(bytes)[8 * row + col := true]
  {
    hide Bit, WithBit, Flipped;
    forall k | 0 <= k < 8 * |bytes| && k / 8 == row {
      SetBit(bytes[row], col, k % 8);
    }
  }

  lemma BitsAfterToggle(bytes: seq<bv8>, row: nat, col: nat)
    requires row < |bytes| && col < 8
    ensures Bits(bytes[row := Flipped(bytes[row], col)])
         == Bits(bytes)[8 * row + col := !Bits(bytes)[8 * row + col]]
  {
    hide Bit, WithBit, Flipped;
    forall k | 0 <= k < 8 * |bytes| && k / 8 == row {
      ToggleBit(bytes[row], col, k % 8);
    }
  }

  /** `r` is what an allocation from `used` hands out: the least free frame, or nothing when
      every frame is in use. */
  ghost predicate IsLeastFree(used: seq<bool>, r: Option<Frame>) {
    match r
    case Some(f) => f.number < |used| && !used[f.number] && forall j :: 0 <= j < f.number ==> used[j]
    case None => forall j :: 0 <= j < |used| ==> used[j]
  }

  function CountUsed(used: seq<bool>): nat {
    if used == [] then 0 else CountUsed(used[..|used| - 1]) + if used[|used| - 1] then 1 else 0
  }

  function CountOnes(b: bv8, col: nat): (n: nat)
    requires col <= 8
  {
    if col == 0 then 0 else CountOnes(b, col - 1) + if Bit(b, col - 1) then 1 else 0
  }

  /** The frames are used up exactly when the count is their number. */
  lemma {:induction false} CountFull(used: seq<bool>)
    ensures CountUsed(used) <= |used|
    ensures CountUsed(used) == |used| <==> forall j :: 0 <= j < |used| ==> used[j]
  {
    if used != [] {
      var n := |used| - 1;
      CountFull(used[..n]);
      assert used == used[..n] + [used[n]];
    }
  }

  lemma CountStep(used: seq<bool>, n: nat)
    requires 0 < n <= |used|
    ensures CountUsed(used[..n]) == CountUsed(used[..n - 1]) + if used[n - 1] then 1 else 0
  {
    assert used[..n][..n - 1] == used[..n - 1];
  }

  /** Counting byte by byte agrees with counting bit by bit. */
  lemma {:induction false} CountByte(bytes: seq<bv8>, col: nat)
    requires bytes != [] && col <= 8
    ensures CountUsed(Bits(bytes)[..8 * (|bytes| - 1) + col])
         == CountUsed(Bits(bytes[..|bytes| - 1])) + CountOnes(bytes[|bytes| - 1], col)
  {
    hide Bit, WithBit, Flipped, CountUsed;
    var n := 8 * (|bytes| - 1) + col;
    var all := Bits(bytes);
    if col == 0 {
      assert all[..n] == Bits(bytes[..|bytes| - 1]);
    } else {
      CountByte(bytes, col - 1);
      CountStep(all, n);
      assert (n - 1) / 8 == |bytes| - 1 && (n - 1) % 8 == col - 1;
    }
  }

  lemma CountMore(bytes: seq<bv8>, i: nat)
    requires i < |bytes|
    ensures CountUsed(Bits(bytes[..i + 1])) == CountUsed(Bits(bytes[..i])) + CountOnes(bytes[i], 8)
  {
    hide Bit, CountUsed, CountOnes;
    CountByte(bytes[..i + 1], 8);
    assert bytes[..i + 1][..i] == bytes[..i];
    assert Bits(bytes[..i + 1])[..8 * i + 8] == Bits(bytes[..i + 1]);
  }

  /** Taking a free frame adds one to the count. */
  lemma {:induction false} CountAfterTake(used: seq<bool>, k: nat)
    requires k < |used| && !used[k]
    ensures CountUsed(used[k := true]) == CountUsed(used) + 1
  {
    var n := |used| - 1;
    if k < n {
      CountAfterTake(used[..n], k);
      assert used[k := true][..n] == used[..n][k := true];
    } else {
      assert used[k := true][..n] == used[..n];
    }
  }

  class RegionAllocator {
    var bitmap: array<bv8>
    const unusableFrames: nat

    constructor (bytes: array<bv8>, unusable: nat)
      ensures bitmap == bytes && unusableFrames == unusable
    {
      bitmap := bytes;
      unusableFrames := unusable;
    }

    function Used(): (used: seq<bool>)
      reads this, bitmap
      ensures |used| == 8 * bitmap.Length
    {
      Bits(bitmap[..])
    }

    /** Hands out the least free frame and marks it used; changes nothing when there is none. */
    method AllocateFrame() returns (r: Option<Frame>)
      modifies bitmap
      ensures IsLeastFree(old(Used()), r)
      ensures Used() == match r case Some(f) => old(Used())[f.number := true] case None => old(Used())
    {
      hide Bit, WithBit, Flipped, Bits;
      for row := 0 to bitmap.Length
        invariant bitmap[..] == old(bitmap[..])
        invariant forall j :: 0 <= j < 8 * row ==> Used()[j]
      {
        for col := 0 to 8
          invariant bitmap[..] == old(bitmap[..])
          invariant forall j :: 0 <= j < 8 * row + col ==> Used()[j]
        {
          if !Bit(bitmap[row], col) {
            assert !Used()[8 * row + col];
            BitsAfterSet(bitmap[..], row, col);
            ghost var before := bitmap[..];
            bitmap[row] := WithBit(bitmap[row], col);
            assert bitmap[..] == before[row := WithBit(before[row], col)];
            return Some(Frame(row * 8 + col));
          }
        }
      }
      return None;
    }

    /** Toggles the bit of the frame that holds `addr`. */
    method SetUnused(addr: nat)
      requires addr / PAGE_SIZE < 8 * bitmap.Length
      modifies bitmap
      ensures var k := addr / PAGE_SIZE; Used() == old(Used())[k := !old(Used())[k]]
    {
      hide Bit, WithBit, Flipped;
      var index := AlignDown(addr, PAGE_SIZE) / PAGE_SIZE;
      var row, col := index / 8, index % 8;
      BitsAfterToggle(bitmap[..], row, col);
      ghost var before := bitmap[..];
      bitmap[row] := Flipped(bitmap[row], col);
      assert bitmap[..] == before[row := Flipped(before[row], col)];
    }

    method SetUsed(addr: nat)
      requires addr / PAGE_SIZE < 8 * bitmap.Length
      modifies bitmap
      ensures Used() == old(Used())[addr / PAGE_SIZE := true]
    {
      hide Bit, WithBit, Flipped;
      var index := AlignDown(addr, PAGE_SIZE) / PAGE_SIZE;
      var row, col := index / 8, index % 8;
      BitsAfterSet(bitmap[..], row, col);
      ghost var before := bitmap[..];
      bitmap[row] := WithBit(bitmap[row], col);
      assert bitmap[..] == before[row := WithBit(before[row], col)];
    }

    /** Marks as used as many frames as `size` bytes need, from `from`'s frame on. That is every frame
        that `from .. from + size` touches when `from` is aligned. */
    method SetUsedFrom(from: nat, size: nat)
      requires (from + size + PAGE_SIZE - 1) / PAGE_SIZE <= 8 * bitmap.Length
      modifies bitmap
      ensures var k := from / PAGE_SIZE; var n := (size + PAGE_SIZE - 1) / PAGE_SIZE;
        |Used()| == |old(Used())| &&
        forall j :: 0 <= j < |Used()| ==> Used()[j] == ((k <= j < k + n) || old(Used())[j])
    {
      var framesNeeded := AlignUp(size, PAGE_SIZE) / PAGE_SIZE;
      for i := 0 to framesNeeded
        invariant var k := from / PAGE_SIZE;
          |Used()| == |old(Used())| &&
          forall j :: 0 <= j < |Used()| ==> Used()[j] == ((k <= j < k + i) || old(Used())[j])
      {
        SetUsed(from + i * PAGE_SIZE);
      }
    }

    /** Toggles the whole frames of `from .. from + size`. */
    method SetUnusedFrom(from: nat, size: nat)
      requires (from + size) / PAGE_SIZE <= 8 * bitmap.Length
      modifies bitmap
      ensures var k := from / PAGE_SIZE; var n := size / PAGE_SIZE;
        |Used()| == |old(Used())| &&
        forall j :: 0 <= j < |Used()| ==> Used()[j] == ((k <= j < k + n) != old(Used())[j])
    {
      var framesNeeded := AlignDown(size, PAGE_SIZE) / PAGE_SIZE;
      for i := 0 to framesNeeded
        invariant var k := from / PAGE_SIZE;
          |Used()| == |old(Used())| &&
          forall j :: 0 <= j < |Used()| ==> Used()[j] == ((k <= j < k + i) != old(Used())[j])
      {
        SetUnused(from + i * PAGE_SIZE);
      }
    }

    method DeallocateFrame(frame: Frame)
      requires frame.number < 8 * bitmap.Length
      modifies bitmap
      ensures Used() == old(Used())[frame.number := !old(Used())[frame.number]]
    {
      SetUnused(frame.StartAddress());
    }

    /** The number of used frames less the frames that were never usable; an underflow of that
        subtraction is the caller's to exclude. */
    method MappedFrames() returns (n: nat)
      requires CountUsed(Used()) >= unusableFrames
      ensures n == CountUsed(Used()) - unusableFrames
    {
      hide Bit, WithBit, Flipped, Bits, CountOnes;
      ghost var bytes := bitmap[..];
      var acc := 0;
      assert CountUsed(Bits(bytes[..0])) == 0;
      hide CountUsed;
      for i := 0 to bitmap.Length
        invariant acc == CountUsed(Bits(bytes[..i]))
      {
        CountMore(bytes, i);
        acc := acc + CountOnes(bitmap[i], 8);
      }
      assert bytes[..bitmap.Length] == bytes;
      n := acc - unusableFrames;
    }
  }
}
