/** The kernel heap: blocks whose sizes are powers of two, split by halving, chosen best-fit and
    coalesced until no two free neighbours have the same size.

    The size in a header is the whole span of the block.
 */
module Buddy {
  import opened Wrappers
  import opened Chain

  // ----- powers of two -----

  predicate Pow2(n: nat) { n == 1 || (n > 0 && n % 2 == 0 && Pow2(n / 2)) }

  lemma {:induction false} Pow2Gap(a: nat, b: nat)
    requires Pow2(a) && Pow2(b) && a > b
    ensures a >= 2 * b
  {
    if b > 1 { Pow2Gap(a / 2, b / 2); }
  }

  /** Twice and half a power of two are powers of two. */
  lemma {:induction false} Pow2Steps(n: nat)
    requires Pow2(n)
    ensures Pow2(2 * n) && (n > 1 ==> n % 2 == 0 && Pow2(n / 2))
  {
    assert (2 * n) % 2 == 0 && 2 * n / 2 == n;
  }

  lemma Pow2Of4()
    ensures Pow2(16)
  {
    assert Pow2(4) by { assert Pow2(2); }
    assert Pow2(8);
  }

  /** A power of two that is not below 16 is a multiple of 16. */
  lemma {:induction false} Pow2Aligned(n: nat)
    requires Pow2(n) && n >= 16
    ensures n % 16 == 0
  {
    hide Pow2;
    Pow2Of4();
    if n > 16 {
      Pow2Gap(n, 16);
      Pow2Steps(n);
      Pow2Aligned(n / 2);
    }
  }

  function RoundUp(size: nat, from: nat): (r: nat)
    requires Pow2(from)
    ensures Pow2(r) && r >= size && r >= from
    decreases if size > from then size - from else 0
  {
    if size > from then RoundUp(size, 2 * from) else from
  }

  /** The least power of two that is not below `size`. */
  method AlignToPowerOf2(size: nat) returns (results: nat)
    ensures Pow2(results) && results >= size && forall p: nat :: Pow2(p) && p >= size ==> p >= results
    ensures results == RoundUp(size, 1)
  {
    results := 1;
    while size > results
      invariant Pow2(results) && RoundUp(size, results) == RoundUp(size, 1)
      invariant forall p: nat :: Pow2(p) && p >= size ==> p >= results
      decreases size - results
    {
      forall p: nat | Pow2(p) && p >= size ensures p >= 2 * results { Pow2Gap(p, results); }
      results := 2 * results;
    }
  }

  /** The block a payload of `size` bytes needs. */
  function ActualSize(size: nat): (r: nat)
    ensures Pow2(r) && r >= size + HEADER
  {
    RoundUp(size + HEADER, 1)
  }

  lemma {:induction false} RoundUpTight(size: nat, from: nat)
    requires Pow2(from) && (from == 1 || from < 2 * size) && size >= 1
    ensures RoundUp(size, from) < 2 * size
    decreases if size > from then size - from else 0
  {
    if size > from { RoundUpTight(size, 2 * from); }
  }

  lemma ActualSizeTight(size: nat)
    ensures ActualSize(size) < 2 * (size + HEADER)
    ensures size > 0 ==> ActualSize(size) >= 2 * HEADER
  {
    RoundUpTight(size + HEADER, 1);
    assert Pow2(16);
    if size > 0 { Pow2Gap(ActualSize(size), 16); }
  }

  // ----- the heap -----

  datatype State = State(head: nat, tail: nat, heapEnd: nat, mem: map<nat, Granule>, chain: seq<Block>)

  predicate Sized(c: seq<Block>) {
    forall k :: 0 <= k < |c| ==> Pow2(c[k].span) && c[k].span >= 2 * HEADER
  }

  /** The blocks tile the heap and their sizes are powers of two above the header size. */
  ghost predicate Inv(s: State) {
    s.head % 16 == 0 && s.chain != [] && Tiles(s.chain, s.head, s.heapEnd) && Headed(s.mem, s.chain, 0) &&
        Sized(s.chain)
  }

  // ----- splitting -----

  predicate Splits(b: Block, size: nat) { b.span / 2 >= size && b.span / 2 > HEADER }

  /** `Block::spilt_to_fit` on block `k`: the block keeps its place and is halved as long as the half
      is large enough; the right halves follow it. */
  function SplitTo(c: seq<Block>, k: nat, size: nat): seq<Block>
    requires k < |c|
    decreases c[k].span
  {
    if Splits(c[k], size) then SplitTo(Split(c, k, c[k].span / 2), k, size) else c
  }

  lemma SplitSized(c: seq<Block>, k: nat, size: nat)
    requires Sized(c) && k < |c| && Splits(c[k], size)
    ensures Sized(Split(c, k, c[k].span / 2))
  {
    Pow2Steps(c[k].span);
    Pow2Gap(c[k].span / 2, HEADER) by { assert Pow2(16); }
    var r := [Block(c[k].at, c[k].span / 2, true), Block(c[k].at + c[k].span / 2, c[k].span - c[k].span / 2, true)];
    assert Sized(r);
  }

  lemma {:induction false} SplitToKeeps(c: seq<Block>, lo: nat, hi: nat, k: nat, size: nat)
    requires Tiles(c, lo, hi) && Sized(c) && k < |c|
    ensures Tiles(SplitTo(c, k, size), lo, hi) && Sized(SplitTo(c, k, size)) && |SplitTo(c, k, size)| >= |c|
    ensures SplitTo(c, k, size)[k].at == c[k].at
    ensures SplitTo(c, k, size) == c <==> !Splits(c[k], size)
    ensures Splits(c[k], size) ==> |SplitTo(c, k, size)| > |c|
    decreases c[k].span
  {
    if Splits(c[k], size) {
      var c1 := Split(c, k, c[k].span / 2);
      SplitTiles(c, lo, hi, k, c[k].span / 2);
      SplitSized(c, k, size);
      SplitToKeeps(c1, lo, hi, k, size);
    }
  }

  /** A block that is large enough ends up exactly the size asked for. */
  lemma {:induction false} SplitToExact(c: seq<Block>, k: nat, size: nat)
    requires Sized(c) && k < |c| && Pow2(size) && size >= 2 * HEADER && c[k].span >= size
    ensures k < |SplitTo(c, k, size)| && SplitTo(c, k, size)[k].span == size
    ensures c[k].free ==> SplitTo(c, k, size)[k].free
    decreases c[k].span
  {
    Pow2Steps(c[k].span);
    if Splits(c[k], size) {
      SplitSized(c, k, size);
      SplitToExact(Split(c, k, c[k].span / 2), k, size);
    } else if c[k].span > size {
      Pow2Gap(c[k].span, size);
    }
  }

  lemma {:induction false} SplitToChunks(c: seq<Block>, k: nat, size: nat)
    requires k < |c| && c[k].free
    ensures SameChunks(c, SplitTo(c, k, size)) && FreeBytes(SplitTo(c, k, size)) == FreeBytes(c)
    decreases c[k].span
  {
    if Splits(c[k], size) {
      SplitChunks(c, k, c[k].span / 2);
      SplitFreeBytes(c, k, c[k].span / 2);
      SplitToChunks(Split(c, k, c[k].span / 2), k, size);
    }
  }

  lemma SplitChunks(c: seq<Block>, k: nat, n: nat)
    requires k < |c| && c[k].free && n <= c[k].span
    ensures SameChunks(c, Split(c, k, n))
  {
    var r := [Block(c[k].at, n, true), Block(c[k].at + n, c[k].span - n, true)];
    assert c == c[..k] + [c[k]] + c[k + 1..];
    assert Split(c, k, n) == c[..k] + r + c[k + 1..];
  }

  lemma {:induction false} SplitFreeBytes(c: seq<Block>, k: nat, n: nat)
    requires k < |c| && c[k].free && n <= c[k].span
    ensures FreeBytes(Split(c, k, n)) == FreeBytes(c)
  {
    var c' := Split(c, k, n);
    if k == 0 {
      assert c'[1..][1..] == c[1..];
    } else {
      SplitFreeBytes(c[1..], k - 1, n);
      assert c'[1..] == Split(c[1..], k - 1, n);
    }
  }

  // ----- searching -----

  predicate Fits(b: Block, size: nat) { b.free && b.span >= size }

  /** The search over the first `n` blocks: a later block that is not larger replaces the best. */
  function BestFit(c: seq<Block>, size: nat, n: nat): (r: Option<nat>)
    requires n <= |c|
    ensures r.Some? ==> r.value < n && Fits(c[r.value], size) &&
                        forall j :: 0 <= j < n && Fits(c[j], size) ==> c[r.value].span <= c[j].span
    ensures r.Some? ==> forall j :: r.value < j < n && Fits(c[j], size) ==> c[r.value].span < c[j].span
    ensures r.None? ==> forall j :: 0 <= j < n ==> !Fits(c[j], size)
  {
    if n == 0 then None
    else
      var best := BestFit(c, size, n - 1);
      if Fits(c[n - 1], size) && (best.None? || c[best.value].span >= c[n - 1].span) then Some(n - 1) else best
  }

  /** What a search hands out: block `index` of the chain that it leaves behind. */
  datatype Found = Found(chain: seq<Block>, tail: nat, index: nat)

  /** The `tail` field after splitting block `k`: it moves when the split block was the tail. */
  function TailAfter(c: seq<Block>, c': seq<Block>, k: nat, tail: nat): nat
    requires k < |c|
  {
    if k + 1 < |c'| && c' != c && c[k].at == tail then c'[k + 1].at else tail
  }

  /** `find_free_block`. A heap of one block is handed out without a look at that block. */
  function FindFree(c: seq<Block>, tail: nat, size: nat): (r: Option<Found>)
    requires c != []
  {
    if |c| == 1 then
      var c' := SplitTo(c, 0, size);
      Some(Found(c', TailAfter(c, c', 0, tail), if Splits(c[0], size) then 1 else 0))
    else
      match BestFit(c, size, |c|)
      case None => None
      case Some(k) =>
        var c' := SplitTo(c, k, size);
        Some(Found(c', TailAfter(c, c', k, tail), k))
  }

  // ----- coalescing -----

  predicate Buddies(a: Block, b: Block) { a.free && b.free && a.span == b.span }

  /** One pass: a block absorbs the next one as long as both are free and of the same size. */
  function Pass(c: seq<Block>): (r: seq<Block>)
    ensures |r| <= |c| && (c != [] ==> r != [])
    decreases |c|
  {
    if |c| < 2 then c
    else if Buddies(c[0], c[1]) then Pass([Block(c[0].at, 2 * c[0].span, true)] + c[2..])
    else [c[0]] + Pass(c[1..])
  }

  predicate Settled(c: seq<Block>) { forall k :: 0 <= k < |c| - 1 ==> !Buddies(c[k], c[k + 1]) }

  /** A pass that merges nothing found nothing to merge. */
  lemma {:induction false} PassSettles(c: seq<Block>)
    ensures |Pass(c)| == |c| ==> Pass(c) == c && Settled(c)
    decreases |c|
  {
    if |c| >= 2 && !Buddies(c[0], c[1]) {
      PassSettles(c[1..]);
      if |Pass(c)| == |c| {
        forall k | 0 <= k < |c| - 1 ensures !Buddies(c[k], c[k + 1]) {
          if k > 0 { assert !Buddies(c[1..][k - 1], c[1..][k]); }
        }
      }
    }
  }

  /** `coalescence_buddies_full`: passes until one merges nothing. */
  function Full(c: seq<Block>): (r: seq<Block>)
    ensures c != [] ==> r != []
    decreases |c|
  {
    if |Pass(c)| < |c| then Full(Pass(c)) else c
  }

  lemma {:induction false} FullSettles(c: seq<Block>)
    ensures Settled(Full(c))
    decreases |c|
  {
    if |Pass(c)| < |c| { FullSettles(Pass(c)); } else { PassSettles(c); }
  }

  lemma {:induction false} PassTiles(c: seq<Block>, lo: nat, hi: nat)
    requires Tiles(c, lo, hi)
    ensures Tiles(Pass(c), lo, hi)
    decreases |c|
  {
    if |c| >= 2 {
      if Buddies(c[0], c[1]) {
        var c1 := [Block(c[0].at, 2 * c[0].span, true)] + c[2..];
        assert c[1..][1..] == c[2..] && c1[1..] == c[2..];
        PassTiles(c1, lo, hi);
      } else {
        PassTiles(c[1..], lo + c[0].span, hi);
        assert Pass(c)[1..] == Pass(c[1..]);
      }
    }
  }

  lemma {:induction false} PassSized(c: seq<Block>)
    requires Sized(c)
    ensures Sized(Pass(c))
    decreases |c|
  {
    if |c| >= 2 {
      if Buddies(c[0], c[1]) {
        Pow2Steps(c[0].span);
        PassSized([Block(c[0].at, 2 * c[0].span, true)] + c[2..]);
      } else {
        PassSized(c[1..]);
      }
    }
  }

  /** Coalescing moves no block in use and loses no free byte. */
  lemma {:induction false} PassConserves(c: seq<Block>)
    ensures SameChunks(c, Pass(c)) && FreeBytes(Pass(c)) == FreeBytes(c)
    decreases |c|
  {
    if |c| >= 2 {
      if Buddies(c[0], c[1]) {
        var m := Block(c[0].at, 2 * c[0].span, true);
        PassConserves([m] + c[2..]);
        assert c == [c[0], c[1]] + c[2..];
        assert c[1..][1..] == c[2..] && ([m] + c[2..])[1..] == c[2..];
      } else {
        PassConserves(c[1..]);
        assert c == [c[0]] + c[1..];
        assert Pass(c)[1..] == Pass(c[1..]);
      }
    }
  }

  lemma {:induction false} FullKeeps(c: seq<Block>, lo: nat, hi: nat)
    requires Tiles(c, lo, hi) && Sized(c)
    ensures Tiles(Full(c), lo, hi) && Sized(Full(c)) && SameChunks(c, Full(c)) && FreeBytes(Full(c)) == FreeBytes(c)
    decreases |c|
  {
    if |Pass(c)| < |c| {
      PassTiles(c, lo, hi);
      PassSized(c);
      PassConserves(c);
      FullKeeps(Pass(c), lo, hi);
    }
  }

  // ----- allocation -----

  /** `allocmut` up to marking the block: search, coalesce and search again, grow the heap. `grow`
      says whether memory for a larger heap can be mapped. */
  function Choose(c: seq<Block>, tail: nat, heapEnd: nat, size: nat, grow: bool): (Option<Found>, nat)
    requires c != []
  {
    var first := FindFree(c, tail, size);
    if first.Some? then (first, heapEnd)
    else
      var second := FindFree(Full(c), tail, size);
      if second.Some? then (second, heapEnd)
      else if grow then (Some(Found(Full(c) + [Block(heapEnd, size, true)], heapEnd, |Full(c)|)), heapEnd + size)
      else (None, heapEnd)
  }

  /** The one block of a heap of one block is free and large enough. */
  predicate Guarded(c: seq<Block>, size: nat) { |c| == 1 ==> Fits(c[0], size) }

  /** What a caller has to know for a block to be sound: neither search meets a heap of one block
      that is in use or too small. */
  predicate SafeToAlloc(c: seq<Block>, size: nat) {
    Guarded(c, size) && (BestFit(c, size, |c|).None? ==> Guarded(Full(c), size))
  }

  /** The block handed out is large enough and none of its payload was in use. */
  ghost predicate Sound(c: seq<Block>, f: Found, size: nat) {
    f.index < |f.chain| && f.chain[f.index].span >= size &&
    forall a: nat :: f.chain[f.index].Holds(a) ==> !InUse(c, a)
  }

  lemma {:induction false} FindKeeps(c: seq<Block>, lo: nat, hi: nat, tail: nat, size: nat)
    requires Tiles(c, lo, hi) && Sized(c) && c != [] && FindFree(c, tail, size).Some?
    ensures var f := FindFree(c, tail, size).value;
      f.index < |f.chain| && Tiles(f.chain, lo, hi) && Sized(f.chain)
  {
    if |c| == 1 {
      SplitToKeeps(c, lo, hi, 0, size);
    } else {
      SplitToKeeps(c, lo, hi, BestFit(c, size, |c|).value, size);
    }
  }

  /** A guarded search hands out a free block of exactly the size asked for and leaves the blocks in
      use alone. */
  lemma {:induction false} FindDelivers(c: seq<Block>, lo: nat, hi: nat, tail: nat, size: nat)
    requires Tiles(c, lo, hi) && Sized(c) && c != [] && FindFree(c, tail, size).Some?
    requires Pow2(size) && size >= 2 * HEADER && Guarded(c, size)
    ensures var f := FindFree(c, tail, size).value;
      f.index < |f.chain| && f.chain[f.index].free && f.chain[f.index].span == size &&
      SameChunks(c, f.chain) && FreeBytes(f.chain) == FreeBytes(c)
  {
    var k := if |c| == 1 then 0 else BestFit(c, size, |c|).value;
    SplitToKeeps(c, lo, hi, k, size);
    SplitToExact(c, k, size);
    SplitToChunks(c, k, size);
    if |c| == 1 && Splits(c[0], size) { RightHalf(c, size); }
  }

  /** After splitting, the block behind the fitted one has the same size and is free. */
  lemma {:induction false} RightHalf(c: seq<Block>, size: nat)
    requires Sized(c) && c != [] && Splits(c[0], size)
    ensures var c' := SplitTo(c, 0, size);
      |c'| > 1 && c'[1].free && c'[1].span == c'[0].span && c'[1].at == c'[0].End() && c'[0].at == c[0].at
    decreases c[0].span
  {
    var c1 := Split(c, 0, c[0].span / 2);
    Pow2Steps(c[0].span);
    SplitSized(c, 0, size);
    if Splits(c1[0], size) { RightHalf(c1, size); }
  }

  /** Of a heap of one block that can be split, the right half of the last split is handed out, and of one
      that cannot the block itself, free or not. */
  lemma {:induction false} LoneBlock(b: Block, tail: nat, size: nat)
    requires Sized([b])
    ensures FindFree([b], tail, size).Some?
    ensures var f := FindFree([b], tail, size).value;
      f.index < |f.chain| && f.chain[0].at == b.at &&
      f.chain[f.index].at == (if Splits(b, size) then b.at + f.chain[0].span else b.at) &&
      (!Splits(b, size) ==> f.chain == [b])
  {
    if Splits(b, size) { RightHalf([b], size); }
  }

  /** A search that finds a block finds a sound one exactly when it is guarded. */
  lemma {:induction false} FindSoundIff(c: seq<Block>, lo: nat, hi: nat, tail: nat, size: nat)
    requires Tiles(c, lo, hi) && Sized(c) && c != [] && FindFree(c, tail, size).Some?
    requires Pow2(size) && size >= 2 * HEADER
    ensures Sound(c, FindFree(c, tail, size).value, size) <==> Guarded(c, size)
  {
    var f := FindFree(c, tail, size).value;
    FindKeeps(c, lo, hi, tail, size);
    TilesAt(f.chain, lo, hi, f.index);
    if Guarded(c, size) {
      FindDelivers(c, lo, hi, tail, size);
      SameChunksSameUse(c, f.chain);
      forall a: nat | f.chain[f.index].Holds(a) ensures !InUse(c, a) { ApartAll(f.chain, lo, hi, f.index, a); }
    } else {
      TilesAt(c, lo, hi, 0);
      if c[0].free {
        assert !Splits(c[0], size);
        assert SplitTo(c, 0, size) == c;
      } else {
        var a := f.chain[f.index].at + HEADER;
        assert c[0].Holds(a) by { if Splits(c[0], size) { RightHalf(c, size); } }
        assert InUse(c, a);
        assert f.chain[f.index].Holds(a);
      }
    }
  }

  lemma GrownKeeps(c: seq<Block>, lo: nat, hi: nat, size: nat)
    requires Tiles(c, lo, hi) && Sized(c) && Pow2(size) && size >= 2 * HEADER
    ensures var c' := c + [Block(hi, size, true)];
      Tiles(c', lo, hi + size) && Sized(c') && SameChunks(c, c')
  {
    var b := [Block(hi, size, true)];
    assert Tiles(b, hi, hi + size) by { assert b[1..] == []; }
    assert Sized(b);
    hide Tiles;
    TilesConcat(c, b, lo, hi, hi + size);
  }

  /** `allocmut` hands out a sound block exactly when it is safe to call. */
  lemma {:induction false} AllocSoundIff(c: seq<Block>, lo: nat, hi: nat, tail: nat, size: nat, grow: bool)
    requires Tiles(c, lo, hi) && Sized(c) && c != [] && Pow2(size) && size >= 2 * HEADER
    requires Choose(c, tail, hi, size, grow).0.Some?
    ensures Sound(c, Choose(c, tail, hi, size, grow).0.value, size) <==> SafeToAlloc(c, size)
  {
    var f := Choose(c, tail, hi, size, grow).0.value;
    FullKeeps(c, lo, hi);
    SameChunksSameUse(c, Full(c));
    if FindFree(c, tail, size).Some? {
      FindSoundIff(c, lo, hi, tail, size);
    } else if FindFree(Full(c), tail, size).Some? {
      FindSoundIff(Full(c), lo, hi, tail, size);
    } else {
      forall a: nat | f.chain[f.index].Holds(a) ensures !InUse(c, a) {
        forall k | 0 <= k < |c| ensures !c[k].Holds(a) { TilesAt(c, lo, hi, k); }
      }
    }
  }

  /** Two requests for more than half of a fresh heap get the same block. */
  lemma SameBlockTwice(head: nat)
    requires head % 16 == 0
    ensures var c := [Block(head, 0x100_0000, true)];
      var first := Choose(c, head, head + 0x100_0000, ActualSize(10_000_000), true).0;
      first.Some? && first.value.chain[first.value.index] == c[0] &&
      var c1 := Mark(first.value.chain, first.value.index, false);
      var second := Choose(c1, head, head + 0x100_0000, ActualSize(10_000_000), true).0;
      second.Some? && second.value.chain[second.value.index].at == head
  {
    var c := [Block(head, 0x100_0000, true)];
    BigRequest();
    assert !Splits(c[0], 0x100_0000);
    assert SplitTo(c, 0, 0x100_0000) == c;
    var c1 := Mark(c, 0, false);
    assert SplitTo(c1, 0, 0x100_0000) == c1;
  }

  lemma BigRequest()
    ensures ActualSize(10_000_000) == 0x100_0000
  {
    ActualSizeTight(10_000_000);
    var r := ActualSize(10_000_000);
    assert Pow2(0x100_0000) by { Pow2Of24(); }
    if r > 0x100_0000 { Pow2Gap(r, 0x100_0000); }
    if r < 0x100_0000 { Pow2Gap(0x100_0000, r); }
  }

  lemma {:induction false} Pow2Times(a: nat, b: nat)
    requires Pow2(a) && Pow2(b)
    ensures Pow2(a * b)
    decreases a
  {
    if a > 1 {
      Pow2Times(a / 2, b);
      Pow2Steps(a / 2 * b);
      assert 2 * (a / 2 * b) == a * b;
    }
  }

  lemma Pow2Of24()
    ensures Pow2(0x100_0000)
  {
    assert Pow2(16);
    Pow2Times(16, 16);
    Pow2Times(256, 256);
    Pow2Times(256, 0x1_0000);
  }

  // ----- the operations as steps -----

  datatype Op =
    | OpAlloc(size: nat, grow: bool)
    | OpDealloc(ptr: nat)
    | OpWrite(ptr: nat, index: nat, word: nat)

  /** Requests are not empty, as the allocator interface of the language demands, and safe; pointers
      passed back are live. */
  ghost predicate Legal(s: State, op: Op) {
    match op
    case OpAlloc(size, _) => size > 0 && SafeToAlloc(s.chain, ActualSize(size))
    case OpDealloc(ptr) => Live(s.chain, ptr)
    case OpWrite(ptr, index, _) => exists b :: Owns(s.chain, b, ptr) && b.Holds(Word(ptr, index))
  }

  /** What `allocmut` does to the blocks, safe or not. */
  ghost predicate AllocShape(s: State, size: nat, grow: bool, s': State, ptr: nat)
    requires s.chain != []
  {
    s'.head == s.head && Headed(s'.mem, s'.chain, 0) &&
    match Choose(s.chain, s.tail, s.heapEnd, ActualSize(size), grow)
    case (None, e) => s'.chain == Full(s.chain) && s'.tail == s.tail && s'.heapEnd == e && ptr == 0
    case (Some(f), e) =>
      f.index < |f.chain| && s'.chain == Mark(f.chain, f.index, false) && s'.tail == f.tail && s'.heapEnd == e &&
      ptr == f.chain[f.index].at + HEADER
  }

  ghost predicate AllocStep(s: State, size: nat, grow: bool, s': State, ptr: nat)
    requires s.chain != []
  {
    AllocShape(s, size, grow, s', ptr) && Kept(s.mem, s'.mem, s.chain)
  }

  ghost predicate DeallocStep(s: State, ptr: nat, s': State)
    requires Live(s.chain, ptr)
  {
    FoundLive(s.chain, ptr);
    s'.head == s.head && s'.tail == s.tail && s'.heapEnd == s.heapEnd && Headed(s'.mem, s'.chain, 0) &&
    s'.chain == Full(Mark(s.chain, IndexAt(s.chain, ptr - HEADER), true)) && Kept(s.mem, s'.mem, s'.chain)
  }

  /** `ptr` is the pointer handed out; 0 when there is none. */
  ghost predicate Step(s: State, op: Op, s': State, ptr: nat)
    requires Legal(s, op) && s.chain != []
  {
    match op
    case OpAlloc(size, grow) => AllocStep(s, size, grow, s', ptr)
    case OpDealloc(p) => DeallocStep(s, p, s') && ptr == 0
    case OpWrite(p, index, word) => s' == s.(mem := s.mem[Word(p, index) := Data(word)]) && ptr == 0
  }

  lemma MarkSized(c: seq<Block>, k: nat, free: bool)
    requires Sized(c) && k < |c|
    ensures Sized(Mark(c, k, free))
  {}

  /** The block handed out is free and of exactly the size, in a tiling with the same blocks in use. */
  ghost predicate Handed(c: seq<Block>, lo: nat, hi: nat, f: Found, size: nat) {
    f.index < |f.chain| && Tiles(f.chain, lo, hi) && Sized(f.chain) && SameChunks(c, f.chain) &&
    f.chain[f.index].free && f.chain[f.index].span == size
  }

  lemma {:induction false} FoundHanded(c: seq<Block>, lo: nat, hi: nat, tail: nat, size: nat)
    requires Tiles(c, lo, hi) && Sized(c) && c != [] && Pow2(size) && size >= 2 * HEADER
    requires Guarded(c, size) && FindFree(c, tail, size).Some?
    ensures Handed(c, lo, hi, FindFree(c, tail, size).value, size)
  {
    FindKeeps(c, lo, hi, tail, size);
    FindDelivers(c, lo, hi, tail, size);
    hide Tiles, Sized, SameChunks, FindFree, Guarded, FreeBytes, Pow2;
  }

  lemma {:induction false} GrownHanded(c: seq<Block>, lo: nat, hi: nat, size: nat)
    requires Tiles(c, lo, hi) && Sized(c) && Pow2(size) && size >= 2 * HEADER
    ensures Handed(c, lo, hi + size, Found(c + [Block(hi, size, true)], hi, |c|), size)
  {
    GrownKeeps(c, lo, hi, size);
    hide Tiles, Sized, SameChunks, Pow2;
  }

  lemma HandedThrough(c: seq<Block>, c1: seq<Block>, lo: nat, hi: nat, f: Found, size: nat)
    requires SameChunks(c, c1) && Handed(c1, lo, hi, f, size)
    ensures Handed(c, lo, hi, f, size)
  {
    SameChunksTrans(c, c1, f.chain);
  }

  lemma {:induction false} ChosenKeeps(c: seq<Block>, lo: nat, hi: nat, tail: nat, size: nat, grow: bool)
    requires Tiles(c, lo, hi) && Sized(c) && c != [] && Pow2(size) && size >= 2 * HEADER
    requires SafeToAlloc(c, size) && Choose(c, tail, hi, size, grow).0.Some?
    ensures var (r, e) := Choose(c, tail, hi, size, grow); Handed(c, lo, e, r.value, size)
  {
    hide Tiles, Sized, SameChunks, FindFree, Full, SafeToAlloc, Guarded, Handed, Pow2, FreeBytes;
    FullKeeps(c, lo, hi);
    GuardedAgain(c, tail, size);
    if FindFree(c, tail, size).Some? {
      FoundHanded(c, lo, hi, tail, size);
    } else if FindFree(Full(c), tail, size).Some? {
      FoundHanded(Full(c), lo, hi, tail, size);
      HandedThrough(c, Full(c), lo, hi, FindFree(Full(c), tail, size).value, size);
    } else {
      GrownHanded(Full(c), lo, hi, size);
      HandedThrough(c, Full(c), lo, hi + size, Found(Full(c) + [Block(hi, size, true)], hi, |Full(c)|), size);
    }
  }

  lemma {:induction false} GuardedAgain(c: seq<Block>, tail: nat, size: nat)
    requires c != [] && SafeToAlloc(c, size)
    ensures Guarded(c, size)
    ensures FindFree(c, tail, size).None? ==> Guarded(Full(c), size)
  {}

  lemma SameChunksTrans(a: seq<Block>, b: seq<Block>, c: seq<Block>)
    requires SameChunks(a, b) && SameChunks(b, c)
    ensures SameChunks(a, c)
  {}

  /** Every legal step leaves a heap whose blocks tile it, with powers of two as sizes. */
  lemma StepInv(s: State, op: Op, s': State, ptr: nat)
    requires Inv(s) && Legal(s, op) && Step(s, op, s', ptr)
    ensures Inv(s')
  {
    match op
    case OpAlloc(size, grow) => AllocInv(s, size, grow, s', ptr);
    case OpDealloc(p) => DeallocInv(s, p, s');
    case OpWrite(p, index, word) => WriteInv(s, p, index, word);
  }

  lemma AllocInv(s: State, size: nat, grow: bool, s': State, ptr: nat)
    requires Inv(s) && Legal(s, OpAlloc(size, grow)) && AllocStep(s, size, grow, s', ptr)
    ensures Inv(s')
  {
    hide Tiles, Sized, Choose, Full, Kept;
    ActualSizeTight(size);
    FullKeeps(s.chain, s.head, s.heapEnd);
    var (r, e) := Choose(s.chain, s.tail, s.heapEnd, ActualSize(size), grow);
    if r.Some? {
      ChosenKeeps(s.chain, s.head, s.heapEnd, s.tail, ActualSize(size), grow);
      MarkTiles(r.value.chain, s.head, e, r.value.index, false);
      MarkSized(r.value.chain, r.value.index, false);
    } else {
      ChooseNone(s.chain, s.tail, s.heapEnd, ActualSize(size), grow);
    }
  }

  lemma DeallocInv(s: State, p: nat, s': State)
    requires Inv(s) && Live(s.chain, p) && DeallocStep(s, p, s')
    ensures Inv(s')
  {
    hide Tiles, Sized, Full, Kept;
    FoundLive(s.chain, p);
    var k := IndexAt(s.chain, p - HEADER);
    MarkTiles(s.chain, s.head, s.heapEnd, k, true);
    MarkSized(s.chain, k, true);
    FullKeeps(Mark(s.chain, k, true), s.head, s.heapEnd);
  }

  lemma WriteInv(s: State, p: nat, index: nat, word: nat)
    requires Inv(s) && Legal(s, OpWrite(p, index, word))
    ensures Inv(s.(mem := s.mem[Word(p, index) := Data(word)]))
  {
    var b :| Owns(s.chain, b, p) && b.Holds(Word(p, index));
    var k :| 0 <= k < |s.chain| && s.chain[k] == b;
    ApartAll(s.chain, s.head, s.heapEnd, k, Word(p, index));
  }

  lemma {:induction false} ChooseNone(c: seq<Block>, tail: nat, heapEnd: nat, size: nat, grow: bool)
    requires c != [] && Choose(c, tail, heapEnd, size, grow).0.None?
    ensures Choose(c, tail, heapEnd, size, grow).1 == heapEnd && !grow
    ensures forall k :: 0 <= k < |c| ==> !Fits(c[k], size)
    ensures forall k :: 0 <= k < |Full(c)| ==> !Fits(Full(c)[k], size)
  {}

  predicate Targets(op: Op, b: Block) {
    match op
    case OpAlloc(_, _) => false
    case OpDealloc(ptr) => ptr == b.at + HEADER
    case OpWrite(ptr, _, _) => ptr == b.at + HEADER
  }

  /** A step leaves every block it is not asked to change where it is, with what it holds. */
  lemma StepKeeps(s: State, op: Op, s': State, ptr: nat, b: Block)
    requires Inv(s) && Legal(s, op) && Step(s, op, s', ptr)
    requires b in s.chain && !b.free && !Targets(op, b)
    ensures Untouched(s.chain, s.mem, s'.chain, s'.mem, b)
  {
    match op
    case OpAlloc(size, grow) => AllocKeeps(s, size, grow, s', ptr, b);
    case OpDealloc(p) => DeallocKeeps(s, p, s', b);
    case OpWrite(p, index, word) =>
      var t :| Owns(s.chain, t, p) && t.Holds(Word(p, index));
      var i :| 0 <= i < |s.chain| && s.chain[i] == b;
      var j :| 0 <= j < |s.chain| && s.chain[j] == t;
      Disjoint(s.chain, s.head, s.heapEnd, i, j);
  }

  lemma AllocKeeps(s: State, size: nat, grow: bool, s': State, ptr: nat, b: Block)
    requires Inv(s) && Legal(s, OpAlloc(size, grow)) && AllocStep(s, size, grow, s', ptr) && b in s.chain && !b.free
    ensures Untouched(s.chain, s.mem, s'.chain, s'.mem, b)
  {
    hide Tiles, Sized, Choose, Full, Headed;
    OwnerInUse(s.chain, b);
    ActualSizeTight(size);
    FullKeeps(s.chain, s.head, s.heapEnd);
    var (r, e) := Choose(s.chain, s.tail, s.heapEnd, ActualSize(size), grow);
    if r.Some? {
      ChosenKeeps(s.chain, s.head, s.heapEnd, s.tail, ActualSize(size), grow);
      MarkKeeps(r.value.chain, r.value.index, b);
    }
  }

  lemma DeallocKeeps(s: State, p: nat, s': State, b: Block)
    requires Inv(s) && Live(s.chain, p) && DeallocStep(s, p, s') && b in s.chain && !b.free && b.at + HEADER != p
    ensures Untouched(s.chain, s.mem, s'.chain, s'.mem, b)
  {
    hide Tiles, Sized, Full, Headed;
    FoundLive(s.chain, p);
    var k := IndexAt(s.chain, p - HEADER);
    MarkChunks(s.chain, s.head, s.heapEnd, k);
    MarkTiles(s.chain, s.head, s.heapEnd, k, true);
    MarkSized(s.chain, k, true);
    FullKeeps(Mark(s.chain, k, true), s.head, s.heapEnd);
    OwnerInUse(s'.chain, b);
  }

  lemma MarkKeeps(c: seq<Block>, k: nat, b: Block)
    requires k < |c| && c[k].free && b in c && !b.free
    ensures b in Mark(c, k, false)
  {
    var j :| 0 <= j < |c| && c[j] == b;
    assert Mark(c, k, false)[j] == b;
  }

  lemma {:induction false} AlignedAt(c: seq<Block>, lo: nat, hi: nat, k: nat)
    requires Tiles(c, lo, hi) && Sized(c) && lo % 16 == 0 && k < |c|
    ensures c[k].at % 16 == 0
  {
    if k > 0 {
      Pow2Aligned(c[0].span);
      AlignedAt(c[1..], lo + c[0].span, hi, k - 1);
    }
  }

  /** A pointer handed out is a multiple of 16, was not live before and names a block that can hold
      the payload and is smaller than twice payload and header together. */
  lemma AllocDelivers(s: State, size: nat, grow: bool, s': State, ptr: nat)
    requires Inv(s) && Legal(s, OpAlloc(size, grow)) && AllocStep(s, size, grow, s', ptr) && ptr != 0
    ensures ptr % 16 == 0 && !Live(s.chain, ptr)
    ensures exists b :: Owns(s'.chain, b, ptr) && size + HEADER <= b.span < 2 * (size + HEADER)
  {
    hide Tiles, Sized, Choose, Full, Headed, Kept;
    ActualSizeTight(size);
    var (r, e) := Choose(s.chain, s.tail, s.heapEnd, ActualSize(size), grow);
    var f := r.value;
    ChosenKeeps(s.chain, s.head, s.heapEnd, s.tail, ActualSize(size), grow);
    AlignedAt(f.chain, s.head, e, f.index);
    assert Owns(s'.chain, s'.chain[f.index], ptr);
    if Live(s.chain, ptr) {
      StaysLive(s.chain, f.chain, ptr);
      FreeIsNotLive(f.chain, s.head, e, f.index, ptr);
    }
  }

  // ----- whole runs -----

  /** Payloads of different blocks share no byte, lie inside the heap and start at multiples of 16. */
  lemma PayloadsApart(s: State, b: Block, t: Block)
    requires Inv(s) && b in s.chain && t in s.chain && b != t
    ensures b.End() <= t.at || t.End() <= b.at
    ensures (b.at + HEADER) % 16 == 0 && s.head <= b.at && b.End() <= s.heapEnd
  {
    hide Tiles, Sized, Headed;
    var i :| 0 <= i < |s.chain| && s.chain[i] == b;
    var j :| 0 <= j < |s.chain| && s.chain[j] == t;
    Disjoint(s.chain, s.head, s.heapEnd, i, j);
    TilesAt(s.chain, s.head, s.heapEnd, i);
    AlignedAt(s.chain, s.head, s.heapEnd, i);
  }

  ghost predicate Run(states: seq<State>, ops: seq<Op>, ptrs: seq<nat>) {
    |states| == |ops| + 1 && |ptrs| == |ops| && Inv(states[0]) &&
    forall i :: 0 <= i < |ops| ==>
      states[i].chain != [] && Legal(states[i], ops[i]) && Step(states[i], ops[i], states[i + 1], ptrs[i])
  }

  lemma {:induction false} RunTiles(states: seq<State>, ops: seq<Op>, ptrs: seq<nat>, n: nat)
    requires Run(states, ops, ptrs) && n <= |ops|
    ensures Inv(states[n])
  {
    hide Inv, Step, Legal;
    if n > 0 {
      RunTiles(states, ops, ptrs, n - 1);
      StepInv(states[n - 1], ops[n - 1], states[n], ptrs[n - 1]);
    }
  }

  /** A block that is neither given back nor written keeps its place, size and contents. */
  lemma {:induction false} RunKeeps(states: seq<State>, ops: seq<Op>, ptrs: seq<nat>, i: nat, j: nat, b: Block)
    requires Run(states, ops, ptrs) && i <= j <= |ops|
    requires b in states[i].chain && !b.free
    requires forall k :: i <= k < j ==> !Targets(ops[k], b)
    ensures Untouched(states[i].chain, states[i].mem, states[j].chain, states[j].mem, b)
    decreases j
  {
    hide Inv, Step, Legal;
    if i < j {
      RunKeeps(states, ops, ptrs, i, j - 1, b);
      RunTiles(states, ops, ptrs, j - 1);
      StepKeeps(states[j - 1], ops[j - 1], states[j], ptrs[j - 1], b);
    }
  }

  // ----- giving back -----

  /** A block given back is free, no two equal free neighbours are left, every other block in use is
      where it was, and the free bytes grow by exactly its span. */
  lemma {:induction false} DeallocFrees(s: State, p: nat, s': State, b: Block)
    requires Inv(s) && Owns(s.chain, b, p) && Live(s.chain, p) && DeallocStep(s, p, s')
    ensures !Live(s'.chain, p) && Settled(s'.chain) && FreeBytes(s'.chain) == FreeBytes(s.chain) + b.span
    ensures forall t: Block :: !t.free ==> (t in s'.chain <==> t in s.chain && t != b)
  {
    hide Tiles, Sized, Full, Kept, Headed, FreeBytes, IndexAt;
    FoundLive(s.chain, p);
    UniqueAt(s.chain, s.head, s.heapEnd, b);
    var k := IndexAt(s.chain, p - HEADER);
    MarkTiles(s.chain, s.head, s.heapEnd, k, true);
    MarkSized(s.chain, k, true);
    MarkChunks(s.chain, s.head, s.heapEnd, k);
    MarkFreeBytes(s.chain, k, true);
    FullKeeps(Mark(s.chain, k, true), s.head, s.heapEnd);
    FullSettles(Mark(s.chain, k, true));
    forall t: Block | t in s.chain && t != b ensures t.at != b.at {
      UniqueAt(s.chain, s.head, s.heapEnd, t);
    }
  }

  /** The same block can be had again: after it was given back a request for its size needs no growth. */
  lemma {:induction false} GivenBackFits(s: State, p: nat, s': State, b: Block)
    requires Inv(s) && Owns(s.chain, b, p) && Live(s.chain, p) && DeallocStep(s, p, s')
    ensures exists k :: 0 <= k < |s'.chain| && Fits(s'.chain[k], b.span)
  {
    hide Tiles, Sized, Full, Kept, Headed, IndexAt;
    FoundLive(s.chain, p);
    UniqueAt(s.chain, s.head, s.heapEnd, b);
    var k := IndexAt(s.chain, p - HEADER);
    assert Fits(Mark(s.chain, k, true)[k], b.span);
    FullFits(Mark(s.chain, k, true), b.span);
  }

  ghost predicate SomeFits(c: seq<Block>, size: nat) { exists k :: 0 <= k < |c| && Fits(c[k], size) }

  /** Coalescing makes no request fail that would have been met. */
  lemma {:induction false} PassFits(c: seq<Block>, size: nat)
    requires SomeFits(c, size)
    ensures SomeFits(Pass(c), size)
    decreases |c|
  {
    var k :| 0 <= k < |c| && Fits(c[k], size);
    if |c| >= 2 {
      if Buddies(c[0], c[1]) {
        var c1 := [Block(c[0].at, 2 * c[0].span, true)] + c[2..];
        assert Fits(c1[if k < 2 then 0 else k - 1], size);
        PassFits(c1, size);
      } else if k == 0 {
        assert Fits(Pass(c)[0], size);
      } else {
        assert Fits(c[1..][k - 1], size);
        PassFits(c[1..], size);
        var j :| 0 <= j < |Pass(c[1..])| && Fits(Pass(c[1..])[j], size);
        assert Pass(c)[j + 1] == Pass(c[1..])[j];
      }
    }
  }

  lemma {:induction false} FullFits(c: seq<Block>, size: nat)
    requires SomeFits(c, size)
    ensures SomeFits(Full(c), size)
    decreases |c|
  {
    if |Pass(c)| < |c| {
      PassFits(c, size);
      FullFits(Pass(c), size);
    }
  }

  // ----- what an allocation takes -----

  /** A safe allocation fails exactly when no block fits, also after coalescing, and the heap cannot grow;
      it grows the heap exactly when none fits and it can. */
  lemma {:induction false} AllocGrowsIff(s: State, size: nat, grow: bool, s': State, ptr: nat)
    requires Inv(s) && Legal(s, OpAlloc(size, grow)) && AllocStep(s, size, grow, s', ptr)
    ensures ptr == 0 <==> !SomeFits(Full(s.chain), ActualSize(size)) && !grow
    ensures s'.heapEnd != s.heapEnd <==> !SomeFits(Full(s.chain), ActualSize(size)) && grow
    ensures s'.heapEnd != s.heapEnd ==> s'.heapEnd == s.heapEnd + ActualSize(size)
  {
    hide Tiles, Sized, Full, Kept, Headed;
    var n := ActualSize(size);
    var first := FindFree(s.chain, s.tail, n);
    FindsIff(s.chain, s.tail, n);
    if first.Some? {
      FullFits(s.chain, n);
    } else {
      FindsIff(Full(s.chain), s.tail, n);
    }
  }

  lemma FindsIff(c: seq<Block>, tail: nat, size: nat)
    requires c != [] && Guarded(c, size)
    ensures FindFree(c, tail, size).Some? <==> SomeFits(c, size)
  {
    hide SplitTo;
    if |c| == 1 { assert Fits(c[0], size); }
  }

  /** The free bytes fall by exactly the block handed out, or the heap grows by it. */
  lemma {:induction false} AllocBytes(s: State, size: nat, grow: bool, s': State, ptr: nat)
    requires Inv(s) && Legal(s, OpAlloc(size, grow)) && AllocStep(s, size, grow, s', ptr)
    ensures FreeBytes(s'.chain) ==
      FreeBytes(s.chain) - if ptr != 0 && s'.heapEnd == s.heapEnd then ActualSize(size) else 0
  {
    hide Tiles, Sized, Full, Kept, Headed, FreeBytes, FindFree, Guarded, SafeToAlloc;
    var n := ActualSize(size);
    ActualSizeTight(size);
    FullKeeps(s.chain, s.head, s.heapEnd);
    GuardedAgain(s.chain, s.tail, n);
    var (r, e) := Choose(s.chain, s.tail, s.heapEnd, n, grow);
    if r.Some? {
      ChosenKeeps(s.chain, s.head, s.heapEnd, s.tail, n, grow);
      ChosenBytes(s.chain, s.head, s.heapEnd, s.tail, n, grow);
      MarkFreeBytes(r.value.chain, r.value.index, false);
    }
  }

  lemma {:induction false} ChosenBytes(c: seq<Block>, lo: nat, hi: nat, tail: nat, size: nat, grow: bool)
    requires Tiles(c, lo, hi) && Sized(c) && c != [] && Pow2(size) && size >= 2 * HEADER && SafeToAlloc(c, size)
    requires Choose(c, tail, hi, size, grow).0.Some?
    ensures var (r, e) := Choose(c, tail, hi, size, grow);
      FreeBytes(r.value.chain) == FreeBytes(c) + (e - hi) && (e == hi || e == hi + size)
  {
    hide Tiles, Sized, Full, FreeBytes, FindFree, Guarded, Pow2, SafeToAlloc;
    FullKeeps(c, lo, hi);
    GuardedAgain(c, tail, size);
    if FindFree(c, tail, size).Some? {
      FindDelivers(c, lo, hi, tail, size);
    } else if FindFree(Full(c), tail, size).Some? {
      FindDelivers(Full(c), lo, hi, tail, size);
    } else {
      FreeBytesConcat(Full(c), [Block(hi, size, true)]);
      FreeBytesOne(Block(hi, size, true));
    }
  }

  /** A request that some block meets as it is leaves every other block as it is: only a smallest one that
      is large enough is divided, nothing is coalesced. */
  lemma {:induction false} AllocLeavesOthers(s: State, size: nat, grow: bool, s': State, ptr: nat)
      returns (best: nat)
    requires Inv(s) && Legal(s, OpAlloc(size, grow)) && AllocStep(s, size, grow, s', ptr)
    requires SomeFits(s.chain, ActualSize(size))
    ensures best < |s.chain| && Fits(s.chain[best], ActualSize(size))
    ensures forall j :: 0 <= j < |s.chain| && Fits(s.chain[j], ActualSize(size)) ==>
      s.chain[best].span <= s.chain[j].span
    ensures forall j :: 0 <= j < |s.chain| && j != best ==> s.chain[j] in s'.chain
    ensures s.chain[best].at <= ptr - HEADER < s.chain[best].End()
  {
    hide Tiles, Sized, Kept, Headed, SplitTo;
    var n := ActualSize(size);
    ActualSizeTight(size);
    var f := FindFree(s.chain, s.tail, n).value;
    best := if |s.chain| == 1 then 0 else BestFit(s.chain, n, |s.chain|).value;
    SplitToKeeps(s.chain, s.head, s.heapEnd, best, n);
    SplitToInside(s.chain, best, n);
    SplitToExact(s.chain, best, n);
    if |s.chain| == 1 && Splits(s.chain[0], n) { RightHalf(s.chain, n); }
    forall j | 0 <= j < |s.chain| && j != best ensures s.chain[j] in s'.chain {
      var i := if j < best then j else j + (|f.chain| - |s.chain|);
      assert f.chain[i] == s.chain[j] && s'.chain[i] == f.chain[i];
    }
  }

  /** Splitting changes nothing before and behind the block; its parts lie inside it. */
  lemma {:induction false} SplitToInside(c: seq<Block>, k: nat, size: nat)
    requires k < |c|
    ensures var c' := SplitTo(c, k, size);
      |c'| >= |c| && c'[..k] == c[..k] && c'[k + 1 + (|c'| - |c|)..] == c[k + 1..] &&
      c'[k].at == c[k].at && c'[k].span <= c[k].span
    decreases c[k].span
  {
    if Splits(c[k], size) {
      var c1 := Split(c, k, c[k].span / 2);
      SplitToInside(c1, k, size);
      assert c1[..k] == c[..k] && c1[k + 2..] == c[k + 1..];
      var c' := SplitTo(c, k, size);
      var d := |c'| - |c|;
      assert c'[k + 1 + d..] == c'[k + 1 + (|c'| - |c1|)..][1..];
      assert c1[k + 1..][1..] == c1[k + 2..];
    }
  }

  // ----- the tail -----

  /** `tail` is the last block. */
  predicate TailIsLast(c: seq<Block>, tail: nat) { c != [] && c[|c| - 1].at == tail }

  /** Splitting keeps `tail` the last block exactly when the last block was not split more than once: it
      moves to the right half of the last division, behind which the other right halves lie. */
  lemma {:induction false} TailAfterSplit(c: seq<Block>, lo: nat, hi: nat, k: nat, tail: nat, size: nat)
    requires Tiles(c, lo, hi) && Sized(c) && k < |c| && TailIsLast(c, tail)
    ensures var c' := SplitTo(c, k, size);
      TailIsLast(c', TailAfter(c, c', k, tail)) <==> k + 1 < |c| || |c'| <= |c| + 1
  {
    hide Tiles, Sized, SplitTo;
    var c' := SplitTo(c, k, size);
    SplitToKeeps(c, lo, hi, k, size);
    SplitToInside(c, k, size);
    var last := |c| - 1;
    if k < last {
      Disjoint(c, lo, hi, k, last);
      TilesAt(c, lo, hi, k);
      TilesAt(c, lo, hi, last);
      assert c'[k + 1 + (|c'| - |c|)..][last - k - 1] == c[k + 1..][last - k - 1];
    } else if |c'| > |c| + 1 {
      Disjoint(c', lo, hi, k + 1, |c'| - 1);
      TilesAt(c', lo, hi, k + 1);
      TilesAt(c', lo, hi, |c'| - 1);
    }
  }

  // ----- what makes allocations safe -----

  /** A block in use that is not the whole heap keeps it from being a heap of one block. */
  lemma {:induction false} SmallBlockGuards(s: State, b: Block, size: nat)
    requires Inv(s) && Holds(s, b)
    ensures SafeToAlloc(s.chain, size)
  {
    FullKeeps(s.chain, s.head, s.heapEnd);
    OwnerInUse(s.chain, b);
    hide Full, Pass;
    if |s.chain| == 1 { OneBlockFills(s.chain, s.head, s.heapEnd); }
    if |Full(s.chain)| == 1 { OneBlockFills(Full(s.chain), s.head, s.heapEnd); }
  }

  predicate Holds(s: State, b: Block) { b in s.chain && !b.free && b.span < s.heapEnd - s.head }

  lemma {:induction false} OneBlockFills(c: seq<Block>, lo: nat, hi: nat)
    requires Tiles(c, lo, hi) && |c| == 1
    ensures c[0].span == hi - lo
  {
    assert c[1..] == [];
  }

  /** Requests are not empty and pointers passed back are live; nothing is assumed of the heap. */
  ghost predicate Polite(s: State, op: Op) {
    if op.OpAlloc? then op.size > 0 else Legal(s, op)
  }

  /** A run whose first state holds such a block, which nobody gives back; each legal operation has its
      effect. */
  ghost predicate PoliteRun(states: seq<State>, ops: seq<Op>, ptrs: seq<nat>, b: Block) {
    |states| == |ops| + 1 && |ptrs| == |ops| && Inv(states[0]) && Holds(states[0], b) &&
    forall i :: 0 <= i < |ops| ==>
      Polite(states[i], ops[i]) && ops[i] != OpDealloc(b.at + HEADER) && states[i].chain != [] &&
      (Legal(states[i], ops[i]) ==> Step(states[i], ops[i], states[i + 1], ptrs[i]))
  }

  lemma PoliteIsLegal(s: State, op: Op, b: Block)
    requires Inv(s) && Holds(s, b) && Polite(s, op)
    ensures Legal(s, op)
  {
    hide Inv, SafeToAlloc;
    if op.OpAlloc? { SmallBlockGuards(s, b, ActualSize(op.size)); }
  }

  /** The heap never shrinks, and a write moves no block. */
  lemma StepHolds(s: State, op: Op, s': State, ptr: nat, b: Block)
    requires Inv(s) && Legal(s, op) && Step(s, op, s', ptr) && Holds(s, b) && op != OpDealloc(b.at + HEADER)
    ensures Holds(s', b)
  {
    match op
    case OpAlloc(size, grow) => AllocKeeps(s, size, grow, s', ptr, b);
    case OpDealloc(p) => DeallocKeeps(s, p, s', b);
    case OpWrite(p, index, word) =>
  }

  /** Such a run is legal throughout: as long as one small block is held, every allocation is safe. */
  lemma {:induction false} PoliteRunIsRun(states: seq<State>, ops: seq<Op>, ptrs: seq<nat>, b: Block, n: nat)
    requires PoliteRun(states, ops, ptrs, b) && n <= |ops|
    ensures Inv(states[n]) && Holds(states[n], b) && Run(states[..n + 1], ops[..n], ptrs[..n])
  {
    hide Inv, Step, Legal, Holds, Polite;
    if n > 0 {
      PoliteRunIsRun(states, ops, ptrs, b, n - 1);
      PoliteIsLegal(states[n - 1], ops[n - 1], b);
      StepInv(states[n - 1], ops[n - 1], states[n], ptrs[n - 1]);
      StepHolds(states[n - 1], ops[n - 1], states[n], ptrs[n - 1], b);
    }
    var before, ops', ptrs' := states[..n + 1], ops[..n], ptrs[..n];
    forall i | 0 <= i < n
      ensures before[i].chain != [] && Legal(before[i], ops'[i]) && Step(before[i], ops'[i], before[i + 1], ptrs'[i])
    {
      if i < n - 1 {
        var earlier, done := states[..n], ops[..n - 1];
        assert earlier[i] == states[i] && done[i] == ops[i] && ptrs[..n - 1][i] == ptrs[i];
        assert earlier[i + 1] == states[i + 1];
      }
    }
  }
}
