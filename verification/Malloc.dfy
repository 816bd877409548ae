/** The heap of the C library: a chunk chain over `sbrk`, first-fit allocation, and a merge pass
    that walks on through headers it has just absorbed.

    A chunk of `size` bytes is a block of span `size + 16`; the stored size leaves out the header.
 */
module Malloc {
  import opened Wrappers
  import opened Chain

  const INIT_SIZE: nat := 4096
  const MALLOC_SIZE_ALIGN: nat := 16

  function ChunkSize(n: nat): (size: nat)
    ensures n <= size && 16 <= size < n + 17 && size % 16 == 0
  {
    if n != 0 then AlignUp(n, MALLOC_SIZE_ALIGN) else MALLOC_SIZE_ALIGN
  }

  datatype State = State(base: nat, head: Option<nat>, brk: nat, mem: map<nat, Granule>, chain: seq<Block>)

  /** The chunks tile the heap exactly from its base up to the break, in multiples of 16 bytes, and
      the headers describe them. */
  ghost predicate Inv(s: State) {
    s.base % 16 == 0 && Tiles(s.chain, s.base, s.brk) && Headed(s.mem, s.chain, HEADER) &&
    Grained(s.chain) &&
    (s.head.Some? ==> s.head.value == s.base && s.chain != []) &&
    (forall a :: s.base <= a < s.brk && a % 16 == 0 ==> a in s.mem)
  }

  predicate Grained(c: seq<Block>) {
    forall k :: 0 <= k < |c| ==> c[k].span % 16 == 0 && c[k].span >= 2 * HEADER
  }

  // ----- allocation on the chain -----

  predicate Fits(b: Block, size: nat) { b.free && b.span >= size + HEADER }

  function FirstFit(c: seq<Block>, size: nat, k: nat): (r: Option<nat>)
    requires k <= |c|
    ensures r.Some? ==> k <= r.value < |c| && Fits(c[r.value], size) && forall j :: k <= j < r.value ==>
        !Fits(c[j], size)
    ensures r.None? ==> forall j :: k <= j < |c| ==> !Fits(c[j], size)
    decreases |c| - k
  {
    if k == |c| then None
    else if Fits(c[k], size) then Some(k)
    else FirstFit(c, size, k + 1)
  }

  /** Takes `size` bytes from free block `k`, leaving the rest as a chunk when it can hold one. */
  function Carve(c: seq<Block>, k: nat, size: nat): seq<Block>
    requires k < |c| && c[k].span >= size + HEADER
  {
    if c[k].span - HEADER - size >= HEADER + MALLOC_SIZE_ALIGN
    then Mark(Split(c, k, size + HEADER), k, false)
    else Mark(c, k, false)
  }

  /** Where `malloc` takes the chunk from: the chain, grown by a chunk when none fits and the break
      can move. */
  function Source(s: State, size: nat, grow: bool): (r: Option<(seq<Block>, nat, nat)>)
    ensures r.Some? ==>
      var (c, brk, k) := r.value;
      k < |c| && c[k].free && c[k].span >= size + HEADER && s.chain <= c && s.brk <= brk
  {
    var k := if s.head.Some? then FirstFit(s.chain, size, 0) else None;
    if k.Some? then Some((s.chain, s.brk, k.value))
    else if grow then Some((s.chain + [Block(s.brk, size + HEADER, true)], s.brk + size + HEADER, |s.chain|))
    else None
  }

  // ----- the merge pass on the chain -----

  /** The pass as seen from a live header: two free neighbours become one, the pass goes on from the
      absorbed header, and it stops before the first chunk in use that is not where it stands. */
  function MergePass(c: seq<Block>): seq<Block>
    decreases |c|, 0
  {
    if |c| <= 1 then c
    else if c[0].free && c[1].free then
      [Block(c[0].at, c[0].span + c[1].span, true)] + AfterAbsorbing(c[2..])
    else if !c[1].free then c
    else [c[0]] + MergePass(c[1..])
  }

  /** The pass as seen from a header that was just absorbed. */
  function AfterAbsorbing(c: seq<Block>): seq<Block>
    decreases |c|, 1
  {
    if c != [] && c[0].free then MergePass(c) else c
  }

  function Merged(s: State): seq<Block> {
    if s.head.Some? then MergePass(s.chain) else s.chain
  }

  lemma {:induction false} MergePassTiles(c: seq<Block>, lo: nat, hi: nat)
    requires Tiles(c, lo, hi) && Grained(c)
    ensures Tiles(MergePass(c), lo, hi) && Grained(MergePass(c)) && (c != [] ==> MergePass(c) != [])
    decreases |c|
  {
    if |c| > 1 && c[1].free {
      assert c[1..][1..] == c[2..];
      if c[0].free {
        if |c| > 2 && c[2].free { MergePassTiles(c[2..], lo + c[0].span + c[1].span, hi); }
        assert MergePass(c)[1..] == AfterAbsorbing(c[2..]);
      } else {
        MergePassTiles(c[1..], lo + c[0].span, hi);
        assert MergePass(c)[1..] == MergePass(c[1..]);
      }
    }
  }

  /** The pass moves no chunk in use and loses no free byte. */
  lemma {:induction false} MergePassConserves(c: seq<Block>)
    ensures SameChunks(c, MergePass(c)) && FreeBytes(MergePass(c)) == FreeBytes(c)
    decreases |c|
  {
    if |c| > 1 && c[1].free {
      assert c[1..][1..] == c[2..];
      if c[0].free {
        var m, rest := Block(c[0].at, c[0].span + c[1].span, true), c[2..];
        if rest != [] && rest[0].free { MergePassConserves(rest); }
        assert c == [c[0], c[1]] + rest;
        assert MergePass(c) == [m] + AfterAbsorbing(rest);
        assert MergePass(c)[1..] == AfterAbsorbing(rest);
      } else {
        MergePassConserves(c[1..]);
        assert c == [c[0]] + c[1..];
        assert MergePass(c)[1..] == MergePass(c[1..]);
      }
    }
  }

  // ----- the operations as steps -----

  /** Marks the chunk of `ptr` free and runs the merge pass. */
  function Freed(c: seq<Block>, linked: bool, ptr: nat): seq<Block>
    requires ptr >= HEADER && IndexAt(c, ptr - HEADER) < |c|
  {
    var c1 := Mark(c, IndexAt(c, ptr - HEADER), true);
    if linked then MergePass(c1) else c1
  }

  datatype Op =
    | OpMalloc(size: nat, grow: bool)
    | OpFree(ptr: nat)
    | OpRealloc(ptr: nat, size: nat, grow: bool)
    | OpWrite(ptr: nat, index: nat, word: nat)

  /** The null pointer is 0. `NullCopy` is a `realloc` that copies to the null pointer that `malloc`
      returned. */
  datatype Outcome = Pointer(ptr: nat) | Done | NullCopy

  /** What the C library asks of its callers: pointers passed back are live. `free(NULL)` does
      nothing. */
  ghost predicate Legal(s: State, op: Op) {
    match op
    case OpMalloc(_, _) => true
    case OpFree(ptr) => ptr == 0 || Live(s.chain, ptr)
    case OpRealloc(ptr, _, _) => Live(s.chain, ptr)
    case OpWrite(ptr, index, _) =>
      exists b :: Owns(s.chain, b, ptr) && b.Holds(Word(ptr, index))
  }

  /** The new headers describe the new chain, and memory is there up to the break. */
  ghost predicate Described(s: State, s': State) {
    s'.base == s.base && s'.head == s.head && Headed(s'.mem, s'.chain, HEADER) &&
    (forall a :: s'.base <= a < s'.brk && a % 16 == 0 ==> a in s'.mem)
  }

  ghost predicate MallocStep(s: State, size: nat, grow: bool, s': State, out: Outcome) {
    match Source(s, ChunkSize(size), grow)
    case None => s' == s && out == Pointer(0)
    case Some((c, brk, k)) =>
      Described(s, s') && s'.chain == Carve(c, k, ChunkSize(size)) && s'.brk == brk &&
      out == Pointer(c[k].at + HEADER) && Kept(s.mem, s'.mem, s.chain)
  }

  ghost predicate FreeStep(s: State, ptr: nat, s': State)
    requires Live(s.chain, ptr)
  {
    FoundLive(s.chain, ptr);
    Described(s, s') && s'.brk == s.brk && s'.chain == Freed(s.chain, s.head.Some?, ptr) &&
    Kept(s.mem, s'.mem, s'.chain)
  }

  /** All of the payload of `b` is found again from `to` on. */
  ghost predicate Copied(mem: map<nat, Granule>, mem': map<nat, Granule>, b: Block, to: nat) {
    forall i: nat :: b.Holds(Word(b.at + HEADER, i)) ==>
      Word(b.at + HEADER, i) in mem && Word(to, i) in mem' && mem'[Word(to, i)] == mem[Word(b.at + HEADER, i)]
  }

  ghost predicate ReallocStep(s: State, ptr: nat, size: nat, grow: bool, s': State, out: Outcome)
    requires Live(s.chain, ptr)
  {
    FoundLive(s.chain, ptr);
    var b := s.chain[IndexAt(s.chain, ptr - HEADER)];
    if size == 0 then FreeStep(s, ptr, s') && out == Pointer(0)
    else if b.span - HEADER >= size then s' == s && out == Pointer(ptr)
    else
      var s1 := s.(chain := Merged(s));
      match Source(s1, ChunkSize(size), grow)
      case None => Described(s, s') && s'.chain == s1.chain && s'.brk == s.brk && out == NullCopy &&
          Kept(s.mem, s'.mem, s.chain)
      case Some((c, brk, k)) =>
        s'.brk == brk && out == Pointer(c[k].at + HEADER) &&
        MovedStep(s, ptr, b, Carve(c, k, ChunkSize(size)), c[k].at + HEADER, s')
  }

  /** Chunk `b` of `ptr` was copied to `to` and freed in the chain `c`; nothing else changed hands. */
  ghost predicate MovedStep(s: State, ptr: nat, b: Block, c: seq<Block>, to: nat, s': State) {
    Described(s, s') && ptr >= HEADER && IndexAt(c, ptr - HEADER) < |c| && s'.chain == Freed(c, s.head.Some?, ptr) &&
    Copied(s.mem, s'.mem, b, to) &&
    (forall a :: a in s.mem && InUse(s.chain, a) && !b.Holds(a) ==> a in s'.mem && s'.mem[a] == s.mem[a])
  }

  ghost predicate Step(s: State, op: Op, s': State, out: Outcome)
    requires Legal(s, op)
  {
    match op
    case OpMalloc(size, grow) => MallocStep(s, size, grow, s', out)
    case OpFree(ptr) => (if ptr == 0 then s' == s else FreeStep(s, ptr, s')) && out == Done
    case OpRealloc(ptr, size, grow) => ReallocStep(s, ptr, size, grow, s', out)
    case OpWrite(ptr, index, word) => s' == s.(mem := s.mem[Word(ptr, index) := Data(word)]) && out == Done
  }

  // ----- what every step keeps -----

  /** The chunk that `Carve` hands out. */
  function Taken(c: seq<Block>, k: nat, size: nat): Block
    requires k < |c| && c[k].span >= size + HEADER
  {
    Carve(c, k, size)[k]
  }

  lemma {:induction false} CarveKeeps(c: seq<Block>, lo: nat, hi: nat, k: nat, size: nat)
    requires Tiles(c, lo, hi) && Grained(c) && k < |c| && c[k].free && c[k].span >= size + HEADER
    requires size % 16 == 0 && size >= 16
    ensures Tiles(Carve(c, k, size), lo, hi) && Grained(Carve(c, k, size))
    ensures var t := Taken(c, k, size); !t.free && t.at == c[k].at && size + HEADER <= t.span < size + 3 * HEADER
    ensures FreeBytes(Carve(c, k, size)) == FreeBytes(c) - Taken(c, k, size).span
  {
    hide Grained, Tiles;
    CarveBytes(c, k, size);
    if c[k].span - HEADER - size >= HEADER + MALLOC_SIZE_ALIGN {
      SplitTiles(c, lo, hi, k, size + HEADER);
      MarkTiles(Split(c, k, size + HEADER), lo, hi, k, false);
    } else {
      MarkTiles(c, lo, hi, k, false);
    }
    CarveGrained(c, k, size);
  }

  /** The free bytes fall by exactly the chunk handed out. */
  lemma {:induction false} CarveBytes(c: seq<Block>, k: nat, size: nat)
    requires k < |c| && c[k].free && c[k].span >= size + HEADER
    ensures FreeBytes(Carve(c, k, size)) == FreeBytes(c) - Taken(c, k, size).span
  {
    hide FreeBytes;
    var t := Taken(c, k, size);
    FreeBytesOne(t);
    FreeBytesOne(c[k]);
    if c[k].span - HEADER - size >= HEADER + MALLOC_SIZE_ALIGN {
      var rest := Block(c[k].at + size + HEADER, c[k].span - size - HEADER, true);
      assert Carve(c, k, size) == c[..k] + [t, rest] + c[k + 1..];
      FreeBytesReplaced(c, k, [t, rest]);
      FreeBytesConcat([t], [rest]);
      FreeBytesOne(rest);
      assert [t] + [rest] == [t, rest];
    } else {
      assert Carve(c, k, size) == c[..k] + [t] + c[k + 1..];
      FreeBytesReplaced(c, k, [t]);
    }
  }

  lemma CarveGrained(c: seq<Block>, k: nat, size: nat)
    requires Grained(c) && k < |c| && c[k].span >= size + HEADER
    requires size % 16 == 0 && size >= 16
    ensures Grained(Carve(c, k, size))
  {
    if c[k].span - HEADER - size >= HEADER + MALLOC_SIZE_ALIGN {
      var a, b := Block(c[k].at, size + HEADER, false), Block(c[k].at + size + HEADER, c[k].span - size - HEADER, true);
      assert Carve(c, k, size) == c[..k] + [a, b] + c[k + 1..];
      assert b.span % 16 == 0 && a.span % 16 == 0;
    }
  }

  /** Besides the chunk handed out, the chunks in use are the same. */
  lemma CarveChunks(c: seq<Block>, k: nat, size: nat)
    requires k < |c| && c[k].free && c[k].span >= size + HEADER
    ensures forall b: Block :: !b.free ==> (b in Carve(c, k, size) <==> b in c || b == Taken(c, k, size))
  {
    var c' := Carve(c, k, size);
    if c[k].span - HEADER - size >= HEADER + MALLOC_SIZE_ALIGN {
      var r := [Taken(c, k, size), Block(c[k].at + size + HEADER, c[k].span - size - HEADER, true)];
      assert c' == c[..k] + r + c[k + 1..];
      assert c == c[..k] + [c[k]] + c[k + 1..];
    } else {
      assert c' == c[..k] + [Taken(c, k, size)] + c[k + 1..];
      assert c == c[..k] + [c[k]] + c[k + 1..];
    }
  }

  lemma SourceKeeps(s: State, size: nat, grow: bool)
    requires s.base % 16 == 0 && Tiles(s.chain, s.base, s.brk) && Grained(s.chain)
    requires size % 16 == 0 && size >= 16 && Source(s, size, grow).Some?
    ensures var (c, brk, k) := Source(s, size, grow).value;
      Tiles(c, s.base, brk) && Grained(c) && forall b: Block :: !b.free ==> (b in c <==> b in s.chain)
  {
    var (c, brk, k) := Source(s, size, grow).value;
    if c != s.chain {
      AddedKeeps(s.chain, s.base, s.brk, size);
    }
  }

  lemma AddedKeeps(c: seq<Block>, lo: nat, hi: nat, size: nat)
    requires Tiles(c, lo, hi) && Grained(c) && size % 16 == 0 && size >= 16
    ensures var c' := c + [Block(hi, size + HEADER, true)];
      Tiles(c', lo, hi + size + HEADER) && Grained(c') && SameChunks(c, c')
  {
    var b := [Block(hi, size + HEADER, true)];
    assert Tiles(b, hi, hi + size + HEADER) by { assert b[1..] == []; }
    assert Grained(b);
    hide Tiles;
    TilesConcat(c, b, lo, hi, hi + size + HEADER);
  }

  lemma {:induction false} FreedKeeps(c: seq<Block>, lo: nat, hi: nat, linked: bool, ptr: nat)
    requires Tiles(c, lo, hi) && Grained(c) && c != [] && Live(c, ptr)
    ensures ptr >= HEADER && IndexAt(c, ptr - HEADER) < |c|
    ensures Tiles(Freed(c, linked, ptr), lo, hi) && Grained(Freed(c, linked, ptr)) && Freed(c, linked, ptr) != []
  {
    FoundLive(c, ptr);
    var k := IndexAt(c, ptr - HEADER);
    MarkTiles(c, lo, hi, k, true);
    MergePassTiles(Mark(c, k, true), lo, hi);
  }

  /** Besides the chunk given back, the chunks in use are the same. */
  lemma {:induction false} FreedChunks(c: seq<Block>, lo: nat, hi: nat, linked: bool, ptr: nat)
    requires Tiles(c, lo, hi) && Live(c, ptr)
    ensures ptr >= HEADER && IndexAt(c, ptr - HEADER) < |c|
    ensures forall b: Block :: !b.free ==> (b in Freed(c, linked, ptr) <==> b in c && b.at + HEADER != ptr)
  {
    hide Tiles, MergePass;
    FoundLive(c, ptr);
    var k := IndexAt(c, ptr - HEADER);
    MarkChunks(c, lo, hi, k);
    MergePassConserves(Mark(c, k, true));
  }

  /** Every legal step leaves a heap whose chunks tile it. */
  lemma StepInv(s: State, op: Op, s': State, out: Outcome)
    requires Inv(s) && Legal(s, op) && Step(s, op, s', out)
    ensures Inv(s')
  {
    match op
    case OpMalloc(size, grow) => MallocInv(s, size, grow, s', out);
    case OpFree(ptr) => if ptr != 0 { FreeInv(s, ptr, s'); }
    case OpRealloc(ptr, size, grow) => ReallocInv(s, ptr, size, grow, s', out);
    case OpWrite(ptr, index, word) => WriteInv(s, ptr, index, word);
  }

  lemma MallocInv(s: State, size: nat, grow: bool, s': State, out: Outcome)
    requires Inv(s) && MallocStep(s, size, grow, s', out)
    ensures Inv(s')
  {
    if Source(s, ChunkSize(size), grow).Some? {
      SourceKeeps(s, ChunkSize(size), grow);
      var (c, brk, k) := Source(s, ChunkSize(size), grow).value;
      CarveKeeps(c, s.base, brk, k, ChunkSize(size));
    }
  }

  lemma FreeInv(s: State, ptr: nat, s': State)
    requires Inv(s) && Live(s.chain, ptr) && FreeStep(s, ptr, s')
    ensures Inv(s')
  {
    FreedKeeps(s.chain, s.base, s.brk, s.head.Some?, ptr);
  }

  lemma ReallocInv(s: State, ptr: nat, size: nat, grow: bool, s': State, out: Outcome)
    requires Inv(s) && Live(s.chain, ptr) && ReallocStep(s, ptr, size, grow, s', out)
    ensures Inv(s')
  {
    FoundLive(s.chain, ptr);
    if size == 0 {
      FreeInv(s, ptr, s');
    } else if s' != s {
      MergedKeeps(s);
      var s1 := s.(chain := Merged(s));
      if Source(s1, ChunkSize(size), grow).Some? {
        SourceKeeps(s1, ChunkSize(size), grow);
        var (c, brk, k) := Source(s1, ChunkSize(size), grow).value;
        CarveKeeps(c, s.base, brk, k, ChunkSize(size));
        CarveChunks(c, k, ChunkSize(size));
        StaysLive(s.chain, Carve(c, k, ChunkSize(size)), ptr);
        FreedKeeps(Carve(c, k, ChunkSize(size)), s.base, brk, s.head.Some?, ptr);
      }
    }
  }

  lemma MergedKeeps(s: State)
    requires Inv(s)
    ensures Tiles(Merged(s), s.base, s.brk) && Grained(Merged(s)) && SameChunks(s.chain, Merged(s))
    ensures s.chain != [] ==> Merged(s) != []
  {
    MergePassTiles(s.chain, s.base, s.brk);
    MergePassConserves(s.chain);
  }

  lemma WriteInv(s: State, ptr: nat, index: nat, word: nat)
    requires Inv(s) && Legal(s, OpWrite(ptr, index, word))
    ensures Inv(s.(mem := s.mem[Word(ptr, index) := Data(word)]))
  {
    var b :| Owns(s.chain, b, ptr) && b.Holds(Word(ptr, index));
    var k :| 0 <= k < |s.chain| && s.chain[k] == b;
    ApartAll(s.chain, s.base, s.brk, k, Word(ptr, index));
  }

  predicate Targets(op: Op, b: Block) {
    match op
    case OpMalloc(_, _) => false
    case OpFree(ptr) => ptr == b.at + HEADER
    case OpRealloc(ptr, _, _) => ptr == b.at + HEADER
    case OpWrite(ptr, _, _) => ptr == b.at + HEADER
  }

  /** A step leaves every chunk it is not asked to change where it is, with what it holds. */
  lemma StepKeeps(s: State, op: Op, s': State, out: Outcome, b: Block)
    requires Inv(s) && Legal(s, op) && Step(s, op, s', out)
    requires b in s.chain && !b.free && !Targets(op, b)
    ensures Untouched(s.chain, s.mem, s'.chain, s'.mem, b)
  {
    OwnerInUse(s.chain, b);
    match op
    case OpMalloc(size, grow) =>
      if Source(s, ChunkSize(size), grow).Some? {
        SourceKeeps(s, ChunkSize(size), grow);
        var (c, brk, k) := Source(s, ChunkSize(size), grow).value;
        CarveChunks(c, k, ChunkSize(size));
      }
    case OpFree(ptr) => if ptr != 0 { FreeKeeps(s, ptr, s', b); }
    case OpRealloc(ptr, size, grow) => ReallocKeeps(s, ptr, size, grow, s', out, b);
    case OpWrite(ptr, index, word) => WriteKeeps(s, ptr, index, word, b);
  }

  lemma FreeKeeps(s: State, ptr: nat, s': State, b: Block)
    requires Inv(s) && Live(s.chain, ptr) && FreeStep(s, ptr, s')
    requires b in s.chain && !b.free && b.at + HEADER != ptr
    ensures Untouched(s.chain, s.mem, s'.chain, s'.mem, b)
  {
    FreedChunks(s.chain, s.base, s.brk, s.head.Some?, ptr);
    OwnerInUse(s'.chain, b);
  }

  lemma WriteKeeps(s: State, ptr: nat, index: nat, word: nat, b: Block)
    requires Inv(s) && Legal(s, OpWrite(ptr, index, word))
    requires b in s.chain && !b.free && b.at + HEADER != ptr
    ensures Untouched(s.chain, s.mem, s.chain, s.mem[Word(ptr, index) := Data(word)], b)
  {
    var t :| Owns(s.chain, t, ptr) && t.Holds(Word(ptr, index));
    BlocksApart(s, b, t);
  }

  lemma BlocksApart(s: State, b: Block, t: Block)
    requires Inv(s) && b in s.chain && t in s.chain && b != t
    ensures b.End() <= t.at || t.End() <= b.at
  {
    var i :| 0 <= i < |s.chain| && s.chain[i] == b;
    var j :| 0 <= j < |s.chain| && s.chain[j] == t;
    Disjoint(s.chain, s.base, s.brk, i, j);
  }

  lemma ReallocKeeps(s: State, ptr: nat, size: nat, grow: bool, s': State, out: Outcome, b: Block)
    requires Inv(s) && Live(s.chain, ptr) && ReallocStep(s, ptr, size, grow, s', out)
    requires b in s.chain && !b.free && b.at + HEADER != ptr
    ensures Untouched(s.chain, s.mem, s'.chain, s'.mem, b)
  {
    OwnerInUse(s.chain, b);
    FoundLive(s.chain, ptr);
    if size == 0 {
      FreeKeeps(s, ptr, s', b);
    } else if s' != s {
      MergedKeeps(s);
      var s1 := s.(chain := Merged(s));
      if Source(s1, ChunkSize(size), grow).Some? {
        MovedChunks(s, ptr, size, grow);
        assert b in s'.chain;
        BlocksApart(s, b, s.chain[IndexAt(s.chain, ptr - HEADER)]);
      } else {
        assert b in s'.chain;
      }
    }
  }

  /** The chunks in use after a moving `realloc`: the new one replaces the old one. */
  lemma {:induction false} MovedChunks(s: State, ptr: nat, size: nat, grow: bool)
    requires Inv(s) && Live(s.chain, ptr) && Source(s.(chain := Merged(s)), ChunkSize(size), grow).Some?
    ensures var (c, brk, k) := Source(s.(chain := Merged(s)), ChunkSize(size), grow).value;
      var c2, t := Carve(c, k, ChunkSize(size)), Taken(c, k, ChunkSize(size));
      ptr >= HEADER && IndexAt(c2, ptr - HEADER) < |c2| &&
      (forall b: Block :: !b.free ==>
         (b in Freed(c2, s.head.Some?, ptr) <==> (b in s.chain || b == t) && b.at + HEADER != ptr)) &&
      !t.free && Tight(t, size) && t.at == c[k].at && t.at + HEADER != ptr
  {
    hide Tiles, MergePass, Carve, Source;
    var s1 := s.(chain := Merged(s));
    MergedKeeps(s);
    SourceKeeps(s1, ChunkSize(size), grow);
    var (c, brk, k) := Source(s1, ChunkSize(size), grow).value;
    var c2, t := Carve(c, k, ChunkSize(size)), Taken(c, k, ChunkSize(size));
    CarveKeeps(c, s.base, brk, k, ChunkSize(size));
    CarveChunks(c, k, ChunkSize(size));
    StaysLive(s.chain, c2, ptr);
    FreedChunks(c2, s.base, brk, s.head.Some?, ptr);
    FreeIsNotLive(c, s.base, brk, k, ptr) by { StaysLive(s.chain, c, ptr); }
  }

  lemma {:induction false} AlignedAt(c: seq<Block>, lo: nat, hi: nat, k: nat)
    requires Tiles(c, lo, hi) && Grained(c) && lo % 16 == 0 && k < |c|
    ensures c[k].at % 16 == 0
  {
    if k > 0 { AlignedAt(c[1..], lo + c[0].span, hi, k - 1); }
  }

  lemma {:induction false} TakenDelivers(c: seq<Block>, lo: nat, hi: nat, k: nat, size: nat)
    requires Tiles(c, lo, hi) && Grained(c) && lo % 16 == 0
    requires k < |c| && c[k].free && size % 16 == 0 && size >= 16 && c[k].span >= size + HEADER
    ensures var t := Taken(c, k, size);
      !t.free && size + HEADER <= t.span < size + 3 * HEADER && t.at == c[k].at && t in Carve(c, k, size) &&
      t.at % 16 == 0
    ensures !Live(c, c[k].at + HEADER)
  {
    hide Tiles, Grained, Carve;
    CarveKeeps(c, lo, hi, k, size);
    CarveChunks(c, k, size);
    AlignedAt(c, lo, hi, k);
    if Live(c, c[k].at + HEADER) { FreeIsNotLive(c, lo, hi, k, c[k].at + HEADER); }
  }

  lemma MallocDelivers(s: State, size: nat, grow: bool, s': State, out: Outcome)
    requires Inv(s) && MallocStep(s, size, grow, s', out) && out.ptr != 0
    ensures exists b :: Owns(s'.chain, b, out.ptr) && Tight(b, size)
    ensures out.ptr % 16 == 0 && !Live(s.chain, out.ptr)
  {
    hide Tiles, Carve, ChunkSize, Headed, Kept, Grained;
    SourceKeeps(s, ChunkSize(size), grow);
    var (c, brk, k) := Source(s, ChunkSize(size), grow).value;
    TakenDelivers(c, s.base, brk, k, ChunkSize(size));
    assert Owns(s'.chain, Taken(c, k, ChunkSize(size)), out.ptr) && Tight(Taken(c, k, ChunkSize(size)), size);
    if Live(s.chain, out.ptr) { StaysLive(s.chain, c, out.ptr); }
  }

  /** The payload of the chunk holds the rounded size and less than 32 bytes more. */
  predicate Tight(b: Block, size: nat) { ChunkSize(size) <= b.span - HEADER < ChunkSize(size) + 2 * HEADER }

  /** `realloc` of a chunk that is large enough. */
  lemma SameDelivers(s: State, b: Block)
    requires Inv(s) && b in s.chain && !b.free
    ensures (b.at + HEADER) % 16 == 0 && Copied(s.mem, s.mem, b, b.at + HEADER)
  {
    hide Tiles;
    var k :| 0 <= k < |s.chain| && s.chain[k] == b;
    AlignedAt(s.chain, s.base, s.brk, k);
    TilesAt(s.chain, s.base, s.brk, k);
    var ptr := b.at + HEADER;
    forall i: nat | b.Holds(Word(ptr, i)) ensures Word(ptr, i) in s.mem {
      assert Word(ptr, i) % 16 == 0;
    }
  }

  lemma {:induction false} MovedDelivers(s: State, ptr: nat, size: nat, grow: bool, s': State, out: Outcome)
    requires Inv(s) && Live(s.chain, ptr) && ReallocStep(s, ptr, size, grow, s', out)
    requires out.Pointer? && size != 0 && ptr >= HEADER && IndexAt(s.chain, ptr - HEADER) < |s.chain|
    requires s.chain[IndexAt(s.chain, ptr - HEADER)].span - HEADER < size
    ensures exists b :: Owns(s'.chain, b, out.ptr) && Tight(b, size)
    ensures out.ptr % 16 == 0 && !Live(s.chain, out.ptr)
  {
    hide Tiles, Carve, MergePass, IndexAt, Source, ChunkSize, Headed, Copied, Grained, Freed;
    var s1 := s.(chain := Merged(s));
    MergedKeeps(s);
    SourceKeeps(s1, ChunkSize(size), grow);
    var (c, brk, k) := Source(s1, ChunkSize(size), grow).value;
    TakenDelivers(c, s.base, brk, k, ChunkSize(size));
    MovedChunks(s, ptr, size, grow);
    assert Owns(s'.chain, Taken(c, k, ChunkSize(size)), out.ptr) && Tight(Taken(c, k, ChunkSize(size)), size);
    if Live(s.chain, out.ptr) { StaysLive(s.chain, c, out.ptr); }
  }

  lemma ReallocDelivers(s: State, ptr: nat, size: nat, grow: bool, s': State, out: Outcome)
    requires Inv(s) && Live(s.chain, ptr) && ReallocStep(s, ptr, size, grow, s', out)
    requires out.Pointer? && out.ptr != 0
    ensures exists b :: Owns(s'.chain, b, out.ptr) && b.span - HEADER >= size && (out.ptr == ptr || Tight(b, size))
    ensures out.ptr % 16 == 0 && (out.ptr == ptr || !Live(s.chain, out.ptr))
    ensures forall b :: Owns(s.chain, b, ptr) ==> Copied(s.mem, s'.mem, b, out.ptr)
  {
    hide Tiles, Carve, MergePass, IndexAt, Source, Copied, Inv;
    FoundLive(s.chain, ptr);
    var b0 := s.chain[IndexAt(s.chain, ptr - HEADER)];
    forall b | Owns(s.chain, b, ptr) ensures b == b0 { OwnerIsUnique(s, b, ptr); }
    if b0.span - HEADER >= size {
      SameDelivers(s, b0);
      assert Owns(s'.chain, b0, out.ptr);
    } else {
      MovedDelivers(s, ptr, size, grow, s', out);
      var t :| Owns(s'.chain, t, out.ptr) && Tight(t, size);
      assert t.span - HEADER >= size;
    }
  }

  lemma {:induction false} OwnerIsUnique(s: State, b: Block, ptr: nat)
    requires Inv(s) && Owns(s.chain, b, ptr)
    ensures ptr >= HEADER && IndexAt(s.chain, ptr - HEADER) < |s.chain|
    ensures s.chain[IndexAt(s.chain, ptr - HEADER)] == b
  {
    UniqueAt(s.chain, s.base, s.brk, b);
  }

  /** A pointer handed out names a chunk in use of at least the size asked for; it was not live
      before, or it is the pointer that was passed in. After `realloc` the chunk begins with all the
      bytes of the old one. */
  lemma StepDelivers(s: State, op: Op, s': State, out: Outcome)
    requires Inv(s) && Legal(s, op) && Step(s, op, s', out)
    requires out.Pointer? && out.ptr != 0
    ensures op.OpMalloc? || op.OpRealloc?
    ensures out.ptr % 16 == 0
    ensures exists b :: Owns(s'.chain, b, out.ptr) && Enough(b, op, out.ptr)
    ensures op.OpMalloc? ==> !Live(s.chain, out.ptr)
    ensures op.OpRealloc? ==> out.ptr == op.ptr || !Live(s.chain, out.ptr)
    ensures op.OpRealloc? ==> forall b :: Owns(s.chain, b, op.ptr) ==> Copied(s.mem, s'.mem, b, out.ptr)
  {
    hide Inv, MallocStep, ReallocStep, FreeStep, Copied, Live;
    match op
    case OpMalloc(size, grow) =>
      MallocDelivers(s, size, grow, s', out);
      var t :| Owns(s'.chain, t, out.ptr) && Tight(t, size);
      assert Enough(t, op, out.ptr);
    case OpRealloc(ptr, size, grow) =>
      ReallocDelivers(s, ptr, size, grow, s', out);
      var t :| Owns(s'.chain, t, out.ptr) && t.span - HEADER >= size && (out.ptr == ptr || Tight(t, size));
      assert Enough(t, op, out.ptr);
  }

  /** The chunk holds what was asked for, and is tight unless it is the one passed in. */
  predicate Enough(b: Block, op: Op, ptr: nat)
    requires op.OpMalloc? || op.OpRealloc?
  {
    b.span - HEADER >= op.size && (op.OpMalloc? || ptr != op.ptr ==> Tight(b, op.size))
  }

  // ----- what each call decides -----

  ghost predicate SomeFits(s: State, size: nat) {
    s.head.Some? && exists k :: 0 <= k < |s.chain| && Fits(s.chain[k], ChunkSize(size))
  }

  /** `malloc` fails exactly when no chunk fits and the break cannot move, and moves the break exactly when
      none fits and it can, by the chunk and its header. */
  lemma MallocGrowsIff(s: State, size: nat, grow: bool, s': State, out: Outcome)
    requires Inv(s) && MallocStep(s, size, grow, s', out)
    ensures out == Pointer(0) <==> !SomeFits(s, size) && !grow
    ensures s'.brk != s.brk <==> !SomeFits(s, size) && grow
    ensures s'.brk != s.brk ==> s'.brk == s.brk + ChunkSize(size) + HEADER && out == Pointer(s.brk + HEADER)
  {
    hide Tiles, ChunkSize, Headed, Kept, Grained, Carve;
  }

  /** It takes the first chunk that fits and leaves every other chunk as it is. */
  lemma {:induction false} MallocTakesFirst(s: State, size: nat, grow: bool, s': State, out: Outcome)
      returns (k: nat)
    requires Inv(s) && MallocStep(s, size, grow, s', out) && SomeFits(s, size)
    ensures k < |s.chain| && Fits(s.chain[k], ChunkSize(size)) && out == Pointer(s.chain[k].at + HEADER)
    ensures forall j :: 0 <= j < k ==> !Fits(s.chain[j], ChunkSize(size))
    ensures forall j :: 0 <= j < |s.chain| && j != k ==> s.chain[j] in s'.chain
  {
    hide Tiles, ChunkSize, Headed, Kept, Grained;
    var n := ChunkSize(size);
    k := FirstFit(s.chain, n, 0).value;
    var d := |s'.chain| - |s.chain|;
    forall j | 0 <= j < |s.chain| && j != k ensures s.chain[j] in s'.chain {
      assert s'.chain[if j < k then j else j + d] == s.chain[j];
    }
  }

  /** The free bytes fall by exactly the chunk handed out, unless the break moved by it. */
  lemma {:induction false} MallocBytes(s: State, size: nat, grow: bool, s': State, out: Outcome) returns (b: Block)
    requires Inv(s) && MallocStep(s, size, grow, s', out) && out.ptr != 0
    ensures Owns(s'.chain, b, out.ptr) && FreeBytes(s'.chain) + b.span == FreeBytes(s.chain) + (s'.brk - s.brk)
  {
    hide Tiles, ChunkSize, Headed, Kept, Grained, Carve, FreeBytes;
    var n := ChunkSize(size);
    SourceKeeps(s, n, grow);
    var (c, brk, k) := Source(s, n, grow).value;
    CarveKeeps(c, s.base, brk, k, n);
    CarveChunks(c, k, n);
    if c != s.chain {
      FreeBytesConcat(s.chain, [Block(s.brk, n + HEADER, true)]);
      FreeBytesOne(Block(s.brk, n + HEADER, true));
    }
    b := Taken(c, k, n);
  }

  /** A pointer that was freed is not live any more, every other chunk in use is where it was, and the free
      bytes grow by exactly its chunk. */
  lemma {:induction false} FreeFrees(s: State, ptr: nat, s': State, b: Block)
    requires Inv(s) && Live(s.chain, ptr) && FreeStep(s, ptr, s') && Owns(s.chain, b, ptr)
    ensures !Live(s'.chain, ptr) && s'.brk == s.brk && FreeBytes(s'.chain) == FreeBytes(s.chain) + b.span
    ensures forall t: Block :: !t.free ==> (t in s'.chain <==> t in s.chain && t != b)
  {
    hide Tiles, MergePass, FreeBytes, Headed, Kept, Grained, IndexAt;
    FreedChunks(s.chain, s.base, s.brk, s.head.Some?, ptr);
    OwnerIsUnique(s, b, ptr);
    var k := IndexAt(s.chain, ptr - HEADER);
    MarkFreeBytes(s.chain, k, true);
    MergePassConserves(Mark(s.chain, k, true));
    forall t: Block | t in s.chain && !t.free && t.at + HEADER == ptr ensures t == b {
      assert Owns(s.chain, t, ptr);
      OwnerIsUnique(s, t, ptr);
    }
  }

  /** `realloc` gives a pointer back exactly when it is the one passed in and its chunk is large enough, and
      then nothing changes; size 0 frees; a move frees the old pointer. */
  lemma {:induction false} ReallocDecides(s: State, ptr: nat, size: nat, grow: bool, s': State, out: Outcome,
      b: Block)
    requires Inv(s) && Owns(s.chain, b, ptr) && Live(s.chain, ptr) && ReallocStep(s, ptr, size, grow, s', out)
    ensures size == 0 ==> FreeStep(s, ptr, s') && out == Pointer(0)
    ensures out == Pointer(ptr) <==> 0 < size <= b.span - HEADER
    ensures out == Pointer(ptr) ==> s' == s
    ensures Live(s'.chain, ptr) <==> out == Pointer(ptr) || out == NullCopy
  {
    hide Tiles, MergePass, FreeBytes, Headed, Kept, Grained, IndexAt, Carve, Source, Copied, Freed, ChunkSize;
    OwnerIsUnique(s, b, ptr);
    if size == 0 {
      FreeFrees(s, ptr, s', b);
    } else if b.span - HEADER < size {
      MergedKeeps(s);
      if Source(s.(chain := Merged(s)), ChunkSize(size), grow).Some? {
        MovedChunks(s, ptr, size, grow);
      } else {
        assert Owns(s'.chain, b, ptr);
      }
    }
  }

  // ----- what the merge pass merges -----

  /** How many chunks in a row are free from the front. */
  function FrontRun(c: seq<Block>): (n: nat)
    ensures n <= |c| && (forall i :: 0 <= i < n ==> c[i].free) && (n < |c| ==> !c[n].free)
  {
    if c != [] && c[0].free then 1 + FrontRun(c[1..]) else 0
  }

  /** Chunks joined two by two; a last one without a partner stays. */
  function Paired(c: seq<Block>): seq<Block> {
    if |c| < 2 then c else [Block(c[0].at, c[0].span + c[1].span, true)] + Paired(c[2..])
  }

  lemma {:induction false} PairedSize(c: seq<Block>)
    ensures |Paired(c)| == |c| - |c| / 2
    decreases |c|
  {
    if |c| >= 2 { PairedSize(c[2..]); }
  }

  /** The same from a free chunk on. */
  lemma {:induction false} FreePairs(c: seq<Block>)
    requires c != [] && c[0].free
    ensures var n := FrontRun(c); MergePass(c) == Paired(c[..n]) + c[n..]
    decreases |c|
  {
    hide MergePass, Paired, FrontRun;
    if |c| > 1 && c[1].free {
      var rest, r := c[2..], FrontRun(c[2..]);
      TwoFree(c);
      if rest != [] && rest[0].free {
        FreePairs(rest);
      } else {
        assert rest[..0] == [] && rest[0..] == rest;
        NothingPaired();
      }
    } else {
      OneFree(c);
    }
  }

  lemma NothingPaired()
    ensures Paired([]) == []
  {}

  lemma {:induction false} OneFree(c: seq<Block>)
    requires c != [] && c[0].free && (|c| > 1 ==> !c[1].free)
    ensures FrontRun(c) == 1 && MergePass(c) == Paired(c[..1]) + c[1..]
  {
    if |c| > 1 { assert !c[1..][0].free; }
    assert c[..1] + c[1..] == c;
  }

  /** Two free chunks in front become the first pair. */
  lemma {:induction false} TwoFree(c: seq<Block>)
    requires |c| > 1 && c[0].free && c[1].free
    ensures var rest, r := c[2..], FrontRun(c[2..]);
      FrontRun(c) == 2 + r && c[2 + r..] == rest[r..] &&
      MergePass(c) == [Block(c[0].at, c[0].span + c[1].span, true)] + AfterAbsorbing(rest) &&
      Paired(c[..2 + r]) == [Block(c[0].at, c[0].span + c[1].span, true)] + Paired(rest[..r])
  {
    hide AfterAbsorbing;
    var r := FrontRun(c[2..]);
    assert c[1..][1..] == c[2..];
    assert c[..2 + r][2..] == c[2..][..r];
  }

  /** Where the chunks that the pass joins begin, and where they end. */
  function PairsFrom(c: seq<Block>): nat { if c != [] && !c[0].free then 1 else 0 }

  function PairsTo(c: seq<Block>): (n: nat)
    ensures PairsFrom(c) <= n <= |c|
  {
    PairsFrom(c) + FrontRun(c[PairsFrom(c)..])
  }

  /** The pass joins the free chunks at the front two by two, up to the first chunk in use that is not the
      first of all, and leaves everything behind it as it is. */
  lemma {:induction false} MergePassPairs(c: seq<Block>)
    ensures var at, n := PairsFrom(c), PairsTo(c);
      MergePass(c) == c[..at] + Paired(c[at..n]) + c[n..] && |MergePass(c)| == |c| - (n - at) / 2
  {
    hide MergePass, Paired, FrontRun;
    var at, n := PairsFrom(c), PairsTo(c);
    PairedSize(c[at..n]);
    if c != [] && c[0].free {
      assert c[0..] == c && c[0..n] == c[..n] && c[..0] == [];
      FreePairs(c);
    } else if |c| > 1 && c[1].free {
      FreePairs(c[1..]);
      SkipsFirst(c);
      assert c[1..][..n - 1] == c[1..n] && c[1..][n - 1..] == c[n..];
    } else {
      NoPairs(c);
      assert c[..at] + [] + c[at..] == c;
    }
  }

  lemma {:induction false} SkipsFirst(c: seq<Block>)
    requires |c| > 1 && !c[0].free && c[1].free
    ensures MergePass(c) == c[..1] + MergePass(c[1..])
  {
    assert c[..1] == [c[0]];
  }

  lemma {:induction false} NoPairs(c: seq<Block>)
    requires c == [] || !c[0].free
    requires |c| > 1 ==> !c[1].free
    ensures MergePass(c) == c && PairsTo(c) == PairsFrom(c) && Paired(c[PairsFrom(c)..PairsFrom(c)]) == []
  {
    if |c| > 1 { assert !c[1..][0].free; }
  }

  /** `free` makes the chunk free and then joins the free chunks at the front two by two, once the heap has
      its first chunk. */
  lemma {:induction false} FreeJoins(s: State, ptr: nat, s': State, b: Block)
    requires Inv(s) && Live(s.chain, ptr) && FreeStep(s, ptr, s') && Owns(s.chain, b, ptr)
    ensures exists k :: 0 <= k < |s.chain| && s.chain[k] == b && JoinedAt(s, k, s')
  {
    hide Tiles, MergePass, FreeBytes, Headed, Kept, Grained, IndexAt, Paired, FrontRun, PairsTo;
    OwnerIsUnique(s, b, ptr);
    var k := IndexAt(s.chain, ptr - HEADER);
    FoundLive(s.chain, ptr);
    MergePassPairs(Mark(s.chain, k, true));
    assert JoinedAt(s, k, s');
  }

  ghost predicate JoinedAt(s: State, k: nat, s': State)
    requires k < |s.chain|
  {
    var c := s.chain[k := s.chain[k].(free := true)];
    s'.chain == if s.head.Some? then c[..PairsFrom(c)] + Paired(c[PairsFrom(c)..PairsTo(c)]) + c[PairsTo(c)..] else c
  }

  // ----- the null pointer as a target -----

  /** A `realloc` copies to the null pointer exactly when the chunk is too small, no free chunk is large
      enough after merging, and the break cannot move. */
  lemma {:induction false} NullCopyIff(s: State, ptr: nat, size: nat, grow: bool, s': State, out: Outcome)
    requires Inv(s) && Live(s.chain, ptr) && ReallocStep(s, ptr, size, grow, s', out)
    ensures ptr >= HEADER && IndexAt(s.chain, ptr - HEADER) < |s.chain|
    ensures out == NullCopy <==>
      size != 0 && s.chain[IndexAt(s.chain, ptr - HEADER)].span - HEADER < size && !grow &&
      (s.head.Some? ==> forall k :: 0 <= k < |Merged(s)| ==> !Fits(Merged(s)[k], ChunkSize(size)))
  {
    hide Merged, ChunkSize, MovedStep, FreeStep;
    FoundLive(s.chain, ptr);
  }

  /** This happens to the first program that takes the whole initial heap and then wants more than the
      system has. */
  lemma NullCopyReached(s: State, s1: State, out: Outcome)
    requires Inv(s) && s.head == Some(s.base) && s.chain == [Block(s.base, INIT_SIZE + HEADER, true)]
    requires MallocStep(s, INIT_SIZE, false, s1, out)
    ensures Inv(s1) && out == Pointer(s.base + HEADER) && Live(s1.chain, s.base + HEADER)
    ensures ReallocStep(s1, s.base + HEADER, INIT_SIZE + 1, false, s1, NullCopy)
  {
    MallocInv(s, INIT_SIZE, false, s1, out);
    assert Fits(s.chain[0], INIT_SIZE);
    assert FirstFit(s.chain, INIT_SIZE, 0) == Some(0);
    var b := Block(s.base, INIT_SIZE + HEADER, false);
    assert s1.chain == [b];
    assert Owns(s1.chain, b, s.base + HEADER);
    assert IndexAt(s1.chain, s.base) == 0;
  }

  // ----- whole runs -----

  /** `states[i + 1]` is reached from `states[i]` by the legal operation `ops[i]`. A `realloc` that
      copies to the null pointer ends the program. */
  ghost predicate Run(states: seq<State>, ops: seq<Op>, outs: seq<Outcome>) {
    |states| == |ops| + 1 && |outs| == |ops| &&
    forall i :: 0 <= i < |ops| ==>
      Legal(states[i], ops[i]) && Step(states[i], ops[i], states[i + 1], outs[i]) && outs[i] != NullCopy
  }

  /** Over any run of `malloc`, `free`, `realloc` and writes by the program, the chunks tile the heap
      up to the break. */
  lemma {:induction false} RunTiles(states: seq<State>, ops: seq<Op>, outs: seq<Outcome>, n: nat)
    requires Run(states, ops, outs) && Inv(states[0]) && n <= |ops|
    ensures Inv(states[n])
  {
    if n > 0 {
      RunTiles(states, ops, outs, n - 1);
      StepInv(states[n - 1], ops[n - 1], states[n], outs[n - 1]);
    }
  }

  /** A chunk that is neither freed nor reallocated nor written keeps its place, size and contents,
      whatever is done to the rest of the heap. */
  lemma {:induction false} RunKeeps(states: seq<State>, ops: seq<Op>, outs: seq<Outcome>, i: nat, j: nat, b: Block)
    requires Run(states, ops, outs) && Inv(states[0]) && i <= j <= |ops|
    requires b in states[i].chain && !b.free
    requires forall k :: i <= k < j ==> !Targets(ops[k], b)
    ensures Untouched(states[i].chain, states[i].mem, states[j].chain, states[j].mem, b)
    decreases j
  {
    hide Inv, Step, Legal;
    if i < j {
      RunKeeps(states, ops, outs, i, j - 1, b);
      RunTiles(states, ops, outs, j - 1);
      StepKeeps(states[j - 1], ops[j - 1], states[j], outs[j - 1], b);
    }
  }

  /** Payloads of different chunks share no byte, lie between base and break and start at
      multiples of 16. */
  lemma PayloadsApart(s: State, b: Block, t: Block)
    requires Inv(s) && b in s.chain && t in s.chain && b != t
    ensures b.End() <= t.at || t.End() <= b.at
    ensures (b.at + HEADER) % 16 == 0 && s.base <= b.at && b.End() <= s.brk
  {
    BlocksApart(s, b, t);
    var i :| 0 <= i < |s.chain| && s.chain[i] == b;
    TilesAt(s.chain, s.base, s.brk, i);
    AlignedAt(s.chain, s.base, s.brk, i);
  }

  /** The branch of `free` that gives the last chunk back to the system compares the break with the
      end of the chunk less the header, so it is never taken. */
  lemma NeverGivenBack(s: State, b: Block)
    requires Inv(s) && b in s.chain
    ensures b.at + (b.span - HEADER) < s.brk
  {
    var i :| 0 <= i < |s.chain| && s.chain[i] == b;
    TilesAt(s.chain, s.base, s.brk, i);
  }
}
