/** The allocator of the C library as it runs: a global list head, headers overwritten in place
    and loops that walk through memory by address. */
module Stdlib {
  import opened Wrappers
  import opened Chain
  import opened Malloc

  class Heap {
    /** Where the break was when the program started. */
    const base: nat
    var head: Option<nat>
    var brk: nat
    var mem: map<nat, Granule>
    /** The chunks, as the live headers describe them. */
    ghost var chain: seq<Block>

    ghost function View(): State
      reads this
    {
      State(base, head, brk, mem, chain)
    }

    /** The kernel places the break at a page boundary before the program starts. */
    constructor (base: nat)
      requires base % 4096 == 0
      ensures Inv(View()) && chain == [] && head == None && brk == base == this.base
    {
      this.base := base;
      head := None;
      brk := base;
      mem := map[];
      chain := [];
    }

    /** `sbrk` with a positive amount: new memory is zero. `grow` says whether the kernel has it. */
    method Sbrk(amount: nat, grow: bool) returns (ok: bool)
      modifies this`brk, this`mem
      ensures ok == grow && brk == old(brk) + (if grow then amount else 0)
      ensures forall a :: a in old(mem) && a < old(brk) ==> a in mem && mem[a] == old(mem)[a]
      ensures forall a :: old(brk) <= a < brk && a % 16 == 0 ==> a in mem
      ensures !grow ==> mem == old(mem)
    {
      if grow {
        mem := mem + map a | brk <= a < brk + amount && a % 16 == 0 :: Data(0);
        brk := brk + amount;
      }
      return grow;
    }

    /** Adds a free chunk of `size` bytes at the break. */
    method AddFree(size: nat, grow: bool) returns (r: Option<nat>)
      requires Inv(View()) && size % 16 == 0 && size >= 16
      modifies this`brk, this`mem, this`chain
      ensures Inv(View())
      ensures !grow ==> r == None && View() == old(View())
      ensures grow ==> r == Some(old(brk)) && brk == old(brk) + size + HEADER
      ensures grow ==> chain == old(chain) + [Block(old(brk), size + HEADER, true)]
      ensures Kept(old(mem), mem, old(chain))
    {
      hide Tiles, Grained;
      var ptr := brk;
      ghost var s := View();
      BelowBreak(s.chain, base, s.brk);
      AddedKeeps(s.chain, base, s.brk, size);
      var ok := Sbrk(size + HEADER, grow);
      if !ok { return None; }
      mem := mem[ptr := Header(size, true)];
      chain := chain + [Block(ptr, size + HEADER, true)];
      return Some(ptr);
    }

    method Init(grow: bool)
      requires Inv(View()) && chain == [] && head == None
      modifies this
      ensures Inv(View())
      ensures grow ==> head == Some(base) && chain == [Block(base, INIT_SIZE + HEADER, true)]
      ensures !grow ==> View() == old(View())
    {
      head := AddFree(INIT_SIZE, grow);
    }

    /** The first free chunk, from the head on, that is large enough. */
    method FindFree(size: nat) returns (r: Option<nat>)
      requires Inv(View())
      ensures var k := if head.Some? then FirstFit(chain, size, 0) else None;
        r == if k.Some? then Some(chain[k.value].at) else None
    {
      if head.None? { return None; }
      var current := head.value;
      ghost var k := 0;
      while current < brk
        invariant k <= |chain| && current == StartOf(chain, k, brk)
        invariant FirstFit(chain, size, k) == FirstFit(chain, size, 0)
        decreases |chain| - k
      {
        assert k < |chain|;
        TilesAt(chain, base, brk, k);
        if mem[current].size >= size && mem[current].free { return Some(current); }
        current := current + HEADER + mem[current].size;
        k := k + 1;
      }
      assert k == |chain| by { if k < |chain| { TilesAt(chain, base, brk, k); } }
      return None;
    }

    method MallocChunk(size: nat, grow: bool) returns (ptr: nat)
      requires Inv(View())
      modifies this
      ensures Inv(View()) && MallocStep(old(View()), size, grow, View(), Pointer(ptr))
    {
      hide Tiles, Grained, Headed, Kept, Carve, FirstFit, ChunkSize;
      ghost var s := View();
      var asize := ChunkSize(size);
      var block := FindFree(asize);
      ghost var k := if head.Some? then FirstFit(chain, asize, 0) else None;
      if block.None? {
        block := AddFree(asize, grow);
        if block.None? { return 0; }
        k := Some(|s.chain|);
      } else {
        NothingChanged(mem, chain);
      }
      var b := block.value;
      ghost var c, m := chain, mem;
      assert Source(s, asize, grow) == Some((c, brk, k.value)) && c[k.value].at == b;
      CarveHeaders(m, c, base, brk, k.value, asize);
      HeaderAt(m, c, k.value, HEADER);
      if mem[b].size > asize {
        var diff := mem[b].size - asize;
        if diff >= HEADER + MALLOC_SIZE_ALIGN {
          mem := mem[b + HEADER + asize := Header(diff - HEADER, true)];
          mem := mem[b := Header(asize, mem[b].free)];
        }
      }
      mem := mem[b := Header(mem[b].size, false)];
      chain := Carve(c, k.value, asize);
      assert mem == CarveMem(m, c, k.value, asize);
      KeptGrown(s.mem, m, mem, s.chain, c);
      MallocInv(s, size, grow, View(), Pointer(b + HEADER));
      return b + HEADER;
    }

    /** The merge pass. It stands on the chunks of the old chain one after the other, also on those
        it has absorbed: a write through such a stale header stays inside a free chunk. `visited` are
        the addresses it stood on. */
    method AntiFragmentation() returns (ghost visited: seq<nat>)
      requires Inv(View())
      modifies this`mem, this`chain
      ensures Inv(View()) && chain == Merged(old(View())) && Kept(old(mem), mem, old(chain))
      ensures Trail(visited, old(chain))
    {
      hide Walking, Inv, Kept, MergePass, Trail;
      visited := [];
      TrailStarts(chain);
      if head.None? {
        NothingChanged(mem, chain);
        return;
      }
      ghost var s := View();
      var current := head.value;
      ghost var w := Walk([], 0, false);
      StartWalk(s);
      var go := true;
      while go
        invariant w.j < |s.chain| && Walking(s, View(), w) && current == s.chain[w.j].at
        invariant !go ==> Halts(s.chain, w)
        invariant Trail(visited, s.chain) && |visited| == if go then w.j else w.j + 1
        decreases |s.chain| - w.j, go
      {
        TrailGrows(visited, s.chain, current);
        visited := visited + [current];
        go, current, w := MergeAt(current, s, w);
      }
      WalkDone(s, View(), w);
    }

    /** One turn of the loop, from one chunk of the old chain to the next; `go` is false where the
        loop breaks. */
    method MergeAt(current: nat, ghost s: State, ghost w: Walk) returns (go: bool, next: nat, ghost w': Walk)
      requires w.j < |s.chain| && Walking(s, View(), w) && current == s.chain[w.j].at
      modifies this`mem, this`chain
      ensures go ==> w'.j == w.j + 1 < |s.chain| && next == s.chain[w'.j].at
      ensures !go ==> w' == w && Halts(s.chain, w) && next == current
      ensures Walking(s, View(), w')
    {
      hide Inv, OnChain, InMemory, Chain.Merge;
      StandingOn(s, View(), w);
      ghost var before, b := View(), s.chain[w.j];
      next := current + mem[current].size + HEADER;
      if next == brk { return false, current, w; }
      ghost var n := s.chain[w.j + 1];
      if mem[next].free && mem[current].free {
        mem := mem[current := Header(mem[current].size + mem[next].size + HEADER, mem[current].free)];
        assert mem == before.mem[b.at := Header(b.span + n.span - HEADER, true)];
        if w.stale {
          StaleStep(s, before, w);
          w' := Walk(w.done, w.j + 1, false);
        } else {
          AbsorbStep(s, before, w);
          chain := Chain.Merge(chain, |w.done|);
          w' := Walk(w.done + [Block(b.at, b.span + n.span, true)], w.j + 1, true);
        }
        return true, next, w';
      } else if !mem[next].free {
        return false, current, w;
      }
      SkipStep(s, before, w);
      return true, next, Walk(w.done + [b], w.j + 1, false);
    }

    method FreeChunk(ptr: nat)
      requires Inv(View()) && (ptr == 0 || Live(chain, ptr))
      modifies this`mem, this`chain
      ensures Inv(View())
      ensures if ptr == 0 then View() == old(View()) else FreeStep(old(View()), ptr, View())
    {
      hide Inv, Kept, Merged, IndexAt, MergePass, FreeStep, Live, Mark, Trail;
      if ptr == 0 { return; }
      ghost var s := View();
      FoundLive(chain, ptr);
      var chunk := ptr - HEADER;
      ghost var k := IndexAt(chain, chunk);
      MarkFree(s, k);
      mem := mem[chunk := Header(mem[chunk].size, true)];
      chain := Mark(chain, k, true);
      ghost var s1 := View();
      MarkedAt(s.chain, k);
      NeverGivenBack(s1, chain[k]);
      // the branch that returns memory is dead, as its test leaves out the header
      if chunk + mem[chunk].size == brk && head != Some(chunk) {
        assert false;
      }
      ghost var visited := AntiFragmentation();
      FreeDone(s, ptr, s1, View());
    }

    /** Null results are 0. When `malloc` fails, the copy goes to the null pointer. */
    method ReallocChunk(ptr: nat, size: nat, grow: bool) returns (out: Outcome)
      requires Inv(View()) && Live(chain, ptr)
      modifies this
      ensures Inv(View()) && ReallocStep(old(View()), ptr, size, grow, View(), out)
    {
      ghost var s := View();
      FoundLive(chain, ptr);
      if size == 0 {
        FreeChunk(ptr);
        return Pointer(0);
      }
      var chunk := ptr - HEADER;
      HeaderAt(mem, chain, IndexAt(chain, chunk), HEADER);
      if mem[chunk].size >= size { return Pointer(ptr); }
      out := Move(ptr, size, grow);
    }

    /** The part of `realloc` that needs a larger chunk. */
    method Move(ptr: nat, size: nat, grow: bool) returns (out: Outcome)
      requires Inv(View()) && Live(chain, ptr) && ptr >= HEADER && IndexAt(chain, ptr - HEADER) < |chain|
      requires chain[IndexAt(chain, ptr - HEADER)].span - HEADER < size && size != 0
      modifies this
      ensures Inv(View()) && ReallocStep(old(View()), ptr, size, grow, View(), out)
    {
      hide Inv, Kept, IndexAt, Merged, Source, Carve, MallocStep, FreeStep, ReallocStep, Live, CopyOf, SameOutside;
      hide Midway, Trail;
      ghost var s := View();
      ghost var visited := AntiFragmentation();
      ghost var s1 := View();
      var new_ := MallocChunk(size, grow);
      ghost var s2 := View();
      if new_ == 0 {
        ReallocFails(s, ptr, size, grow, s1, s2);
        return NullCopy;
      }
      ghost var b, t := BeforeCopy(s, ptr, size, grow, s1, s2, new_);
      CopyReady(s, ptr, size, grow, s1, s2, b, t);
      Copy(new_, ptr, mem[ptr - HEADER].size);
      ghost var s3 := View();
      CopyInv(s2, s3, t, b.span - HEADER);
      FreeChunk(ptr);
      ReallocDone(s, ptr, size, grow, s1, s2, s3, View(), b, t);
      return Pointer(new_);
    }

    /** `memcpy`, a granule at a time. */
    method Copy(dest: nat, src: nat, n: nat)
      requires n % 16 == 0
      requires forall i: nat :: i < n / 16 ==> Word(src, i) in mem
      requires dest + n <= src || src + n <= dest
      modifies this`mem
      ensures CopyOf(old(mem), mem, src, dest, n / 16) && SameOutside(old(mem), mem, dest, n)
    {
      for i := 0 to n / 16
        invariant CopyOf(old(mem), mem, src, dest, i) && SameOutside(old(mem), mem, dest, 16 * i)
      {
        assert !(dest <= Word(src, i) < dest + 16 * i);
        mem := mem[Word(dest, i) := mem[Word(src, i)]];
      }
    }
  }

  /** `n` granules from `src` on are found again from `dest` on. */
  ghost predicate CopyOf(m: map<nat, Granule>, m': map<nat, Granule>, src: nat, dest: nat, n: nat) {
    forall i: nat :: i < n ==> Word(src, i) in m && Word(dest, i) in m' && m'[Word(dest, i)] == m[Word(src, i)]
  }

  /** Outside `dest .. dest + n` nothing differs. */
  ghost predicate SameOutside(m: map<nat, Granule>, m': map<nat, Granule>, dest: nat, n: nat) {
    m.Keys <= m'.Keys && forall a: nat :: a in m && !(dest <= a < dest + n) ==> m'[a] == m[a]
  }

  /** `realloc` after its call of `malloc`: chunk `b` is to be copied into the new chunk `t`. */
  ghost predicate Midway(s: State, ptr: nat, size: nat, grow: bool, s1: State, s2: State, b: Block, t: Block) {
    Inv(s) && Owns(s.chain, b, ptr) && IndexAt(s.chain, b.at) < |s.chain| && b == s.chain[IndexAt(s.chain, b.at)] &&
    b.span >= HEADER && b.span % 16 == 0 && b.span - HEADER < size && size != 0 &&
    s1 == State(s.base, s.head, s.brk, s1.mem, Merged(s)) && Inv(s1) && Kept(s.mem, s1.mem, s.chain) &&
    MallocStep(s1, size, grow, s2, Pointer(t.at + HEADER)) && Inv(s2) &&
    Owns(s2.chain, b, ptr) && Owns(s2.chain, t, t.at + HEADER) && b != t && b.span < t.span &&
    Source(s1, ChunkSize(size), grow).Some? &&
    var (c, brk, k) := Source(s1, ChunkSize(size), grow).value; t == Taken(c, k, ChunkSize(size))
  }

  lemma SameSource(s: State, s1: State, size: nat, grow: bool)
    requires s1 == State(s.base, s.head, s.brk, s1.mem, Merged(s))
    ensures Source(s1, size, grow) == Source(s.(chain := Merged(s)), size, grow)
  {}

  lemma {:induction false} ReallocFails(s: State, ptr: nat, size: nat, grow: bool, s1: State, s2: State)
    requires Inv(s) && Live(s.chain, ptr) && ptr >= HEADER && IndexAt(s.chain, ptr - HEADER) < |s.chain|
    requires s.chain[IndexAt(s.chain, ptr - HEADER)].span - HEADER < size && size != 0
    requires s1 == State(s.base, s.head, s.brk, s1.mem, Merged(s)) && Inv(s1) && Kept(s.mem, s1.mem, s.chain)
    requires MallocStep(s1, size, grow, s2, Pointer(0))
    ensures ReallocStep(s, ptr, size, grow, s2, NullCopy)
  {
    hide Tiles, Grained, IndexAt, Carve, Merged, Kept;
    SameSource(s, s1, ChunkSize(size), grow);
  }

  /** The old chunk `b` and the new chunk `t` between which `realloc` copies. */
  lemma BeforeCopy(s: State, ptr: nat, size: nat, grow: bool, s1: State, s2: State, new_: nat) returns (b: Block,
      t: Block)
    requires Inv(s) && Live(s.chain, ptr) && ptr >= HEADER && IndexAt(s.chain, ptr - HEADER) < |s.chain|
    requires s1 == State(s.base, s.head, s.brk, s1.mem, Merged(s)) && Inv(s1) && Kept(s.mem, s1.mem, s.chain)
    requires MallocStep(s1, size, grow, s2, Pointer(new_)) && new_ != 0 && Inv(s2)
    requires s.chain[IndexAt(s.chain, ptr - HEADER)].span - HEADER < size && size != 0
    ensures Midway(s, ptr, size, grow, s1, s2, b, t) && new_ == t.at + HEADER
  {
    hide Tiles, Carve, MergePass, IndexAt, Headed, Kept;
    var b1 :| Owns(s.chain, b1, ptr);
    OwnerIsUnique(s, b1, ptr);
    b := b1;
    MergedKeeps(s);
    SourceKeeps(s1, ChunkSize(size), grow);
    var (c, brk, k) := Source(s1, ChunkSize(size), grow).value;
    CarveChunks(c, k, ChunkSize(size));
    TakenDelivers(c, s.base, brk, k, ChunkSize(size));
    t := Taken(c, k, ChunkSize(size));
    GrainedBlock(s.chain, b);
  }

  lemma GrainedBlock(c: seq<Block>, b: Block)
    requires Grained(c) && b in c
    ensures b.span % 16 == 0 && b.span >= 2 * HEADER
  {}

  lemma CopyReady(s: State, ptr: nat, size: nat, grow: bool, s1: State, s2: State, b: Block, t: Block)
    requires Midway(s, ptr, size, grow, s1, s2, b, t)
    ensures ptr == b.at + HEADER && Live(s2.chain, ptr) && t in s2.chain
    ensures b.at in s2.mem && b.span >= HEADER && b.span % 16 == 0 && s2.mem[b.at] == Header(b.span - HEADER, false)
    ensures forall i: nat :: i < (b.span - HEADER) / 16 ==> Word(ptr, i) in s2.mem
    ensures t.End() <= b.at || b.End() <= t.at
    ensures b.span < t.span
  {
    hide MallocStep, Kept, Merged, IndexAt, Tiles;
    var kb :| 0 <= kb < |s2.chain| && s2.chain[kb] == b;
    HeaderAt(s2.mem, s2.chain, kb, HEADER);
    BlocksApart(s2, b, t);
    SameDelivers(s2, b);
    forall i: nat | i < (b.span - HEADER) / 16 ensures Word(ptr, i) in s2.mem {
      assert b.Holds(Word(b.at + HEADER, i));
    }
  }

  /** Writing into a chunk in use leaves the headers alone. */
  lemma CopyInv(s: State, s': State, t: Block, n: nat)
    requires Inv(s) && t in s.chain && s' == s.(mem := s'.mem) && n + HEADER <= t.span
    requires SameOutside(s.mem, s'.mem, t.at + HEADER, n)
    ensures Inv(s')
  {
    hide Tiles;
    var k :| 0 <= k < |s.chain| && s.chain[k] == t;
    forall j | 0 <= j < |s.chain| ensures !t.Holds(s.chain[j].at) {
      TilesAt(s.chain, s.base, s.brk, j);
      if j != k { Apart(s.chain, s.base, s.brk, j, k, s.chain[j].at); }
    }
  }

  lemma ReallocDone(s: State, ptr: nat, size: nat, grow: bool, s1: State, s2: State, s3: State, s4: State, b: Block,
      t: Block)
    requires Midway(s, ptr, size, grow, s1, s2, b, t)
    requires s3 == s2.(mem := s3.mem) && Inv(s3)
    requires CopyOf(s2.mem, s3.mem, ptr, t.at + HEADER, (b.span - HEADER) / 16)
    requires SameOutside(s2.mem, s3.mem, t.at + HEADER, b.span - HEADER)
    requires Live(s3.chain, ptr) && FreeStep(s3, ptr, s4) && Inv(s4)
    ensures Live(s.chain, ptr) && ReallocStep(s, ptr, size, grow, s4, Pointer(t.at + HEADER))
  {
    hide Tiles, Carve, MergePass, IndexAt, Inv, Kept, Source, Merged, CopyOf, SameOutside, Headed, FreeStep,
        MallocStep, ReallocStep, Live;
    ChunksAfter(s, ptr, size, grow, s1, s2, s3, s4, b, t);
    ReallocContents(s, s1, s2, s3, s4, b, t);
    OthersKept(s, s1, s2, s3, s4, b, t);
    Assemble(s, ptr, size, grow, s1, s2, s3, s4, b, t);
  }

  lemma Assemble(s: State, ptr: nat, size: nat, grow: bool, s1: State, s2: State, s3: State, s4: State, b: Block,
      t: Block)
    requires Midway(s, ptr, size, grow, s1, s2, b, t)
    requires s3 == s2.(mem := s3.mem) && Live(s3.chain, ptr) && FreeStep(s3, ptr, s4)
    requires Copied(s.mem, s4.mem, b, t.at + HEADER)
    requires forall a :: a in s.mem && InUse(s.chain, a) && !b.Holds(a) ==> a in s4.mem && s4.mem[a] == s.mem[a]
    ensures Live(s.chain, ptr) && ReallocStep(s, ptr, size, grow, s4, Pointer(t.at + HEADER))
  {
    hide Tiles, Carve, MergePass, IndexAt, Inv, Kept, Source, Merged, Headed, Copied, InUse;
    SameSource(s, s1, ChunkSize(size), grow);
    assert Live(s.chain, ptr);
    FoundLive(s3.chain, ptr);
    assert MovedStep(s, ptr, b, s2.chain, t.at + HEADER, s4);
  }

  /** The chunks in use at the end: the others, and the new one. */
  lemma ChunksAfter(s: State, ptr: nat, size: nat, grow: bool, s1: State, s2: State, s3: State, s4: State, b: Block,
      t: Block)
    requires Midway(s, ptr, size, grow, s1, s2, b, t)
    requires s3 == s2.(mem := s3.mem) && Inv(s3) && Live(s3.chain, ptr) && FreeStep(s3, ptr, s4)
    ensures SameChunks(s.chain, s1.chain) && t in s4.chain && Copied(s.mem, s.mem, b, b.at + HEADER)
    ensures Kept(s1.mem, s2.mem, s1.chain) && Kept(s3.mem, s4.mem, s4.chain)
    ensures forall b' :: b' in s.chain && !b'.free && b' != b ==> b' in s4.chain && b' in s2.chain && b' != t
  {
    hide Tiles, Carve, MergePass, IndexAt, Kept, Source, Headed, Copied;
    MergedKeeps(s);
    SameDelivers(s, b);
    MallocDelivers(s1, size, grow, s2, Pointer(t.at + HEADER));
    FreedChunks(s3.chain, s3.base, s3.brk, s3.head.Some?, ptr);
    if t.at + HEADER == ptr { OwnerIsUnique(s2, b, ptr); OwnerIsUnique(s2, t, ptr); }
    forall b' | b' in s.chain && !b'.free && b' != b
      ensures b' in s4.chain && b' in s2.chain && b' != t
    {
      if b'.at + HEADER == ptr { OwnerIsUnique(s, b', ptr); OwnerIsUnique(s, b, ptr); }
      StepKeeps(s1, OpMalloc(size, grow), s2, Pointer(t.at + HEADER), b');
      assert Owns(s1.chain, b', b'.at + HEADER);
    }
  }

  lemma ReallocContents(s: State, s1: State, s2: State, s3: State, s4: State, b: Block, t: Block)
    requires b in s.chain && !b.free && b.span >= HEADER && b.span % 16 == 0 && b.span < t.span && t in s4.chain &&
        !t.free
    requires Kept(s.mem, s1.mem, s.chain) && Kept(s1.mem, s2.mem, s1.chain) && Kept(s3.mem, s4.mem, s4.chain)
    requires SameChunks(s.chain, s1.chain)
    requires Copied(s.mem, s.mem, b, b.at + HEADER)
    requires CopyOf(s2.mem, s3.mem, b.at + HEADER, t.at + HEADER, (b.span - HEADER) / 16)
    ensures Copied(s.mem, s4.mem, b, t.at + HEADER)
  {
    OwnerInUse(s.chain, b);
    OwnerInUse(s1.chain, b);
    OwnerInUse(s4.chain, t);
    var from, to := b.at + HEADER, t.at + HEADER;
    forall i: nat | b.Holds(Word(from, i))
      ensures Word(from, i) in s.mem && Word(to, i) in s4.mem && s4.mem[Word(to, i)] == s.mem[Word(from, i)]
    {
      assert i < (b.span - HEADER) / 16;
      assert t.Holds(Word(to, i));
    }
  }

  lemma OthersKept(s: State, s1: State, s2: State, s3: State, s4: State, b: Block, t: Block)
    requires Inv(s2) && t in s2.chain && HEADER <= b.span < t.span
    requires SameOutside(s2.mem, s3.mem, t.at + HEADER, b.span - HEADER)
    requires Kept(s.mem, s1.mem, s.chain) && Kept(s1.mem, s2.mem, s1.chain) && Kept(s3.mem, s4.mem, s4.chain)
    requires SameChunks(s.chain, s1.chain)
    requires forall b' :: b' in s.chain && !b'.free && b' != b ==> b' in s4.chain && b' in s2.chain && b' != t
    ensures forall a :: a in s.mem && InUse(s.chain, a) && !b.Holds(a) ==> a in s4.mem && s4.mem[a] == s.mem[a]
  {
    forall a | a in s.mem && InUse(s.chain, a) && !b.Holds(a) ensures a in s4.mem && s4.mem[a] == s.mem[a] {
      var j :| 0 <= j < |s.chain| && !s.chain[j].free && s.chain[j].Holds(a);
      var b' := s.chain[j];
      OwnerInUse(s1.chain, b');
      OwnerInUse(s4.chain, b');
      BlocksApart(s2, b', t);
    }
  }

  lemma MarkFree(s: State, k: nat)
    requires Inv(s) && k < |s.chain|
    ensures s.chain[k].at in s.mem && s.chain[k].span >= HEADER
    ensures s.mem[s.chain[k].at] == Header(s.chain[k].span - HEADER, s.chain[k].free)
    ensures var mem := s.mem[s.chain[k].at := Header(s.chain[k].span - HEADER, true)];
      Inv(s.(mem := mem, chain := Mark(s.chain, k, true))) && Kept(s.mem, mem, s.chain)
  {
    hide Tiles, Headed, Kept;
    HeaderAt(s.mem, s.chain, k, HEADER);
    MarkTiles(s.chain, s.base, s.brk, k, true);
    MarkHeaders(s.mem, s.chain, s.base, s.brk, k, true, HEADER);
    MarkGrained(s.chain, k);
  }

  lemma MarkGrained(c: seq<Block>, k: nat)
    requires Grained(c) && k < |c|
    ensures Grained(Mark(c, k, true))
  {}

  lemma {:induction false} FreeDone(s: State, ptr: nat, s1: State, s': State)
    requires Inv(s) && Live(s.chain, ptr) && ptr >= HEADER && IndexAt(s.chain, ptr - HEADER) < |s.chain|
    requires s1 == State(s.base, s.head, s.brk, s1.mem, Mark(s.chain, IndexAt(s.chain, ptr - HEADER), true))
    requires Inv(s1) && Kept(s.mem, s1.mem, s.chain)
    requires s' == State(s.base, s.head, s.brk, s'.mem, Merged(s1)) && Inv(s') && Kept(s1.mem, s'.mem, s1.chain)
    ensures FreeStep(s, ptr, s')
  {
    hide Tiles, Grained, MergePass, IndexAt;
    MergedKeeps(s1);
    SameChunksSameUse(s1.chain, s'.chain);
    MarkUse(s.chain, IndexAt(s.chain, ptr - HEADER));
  }

  // ----- the walk of the merge pass -----

  /** The walk stands on chunk `j` of the old chain; `done` is the new chain before it. If `stale`,
      chunk `j` has been absorbed by the last block of `done`. */
  datatype Walk = Walk(done: seq<Block>, j: nat, stale: bool)

  ghost predicate Walking(s: State, s': State, w: Walk) {
    Inv(s) && s.head.Some? && s' == State(s.base, s.head, s.brk, s'.mem, s'.chain) &&
    OnChain(s.chain, s'.chain, w) && InMemory(s, s', w)
  }

  /** How far the chain has become what the pass makes of it. */
  ghost predicate OnChain(c0: seq<Block>, c: seq<Block>, w: Walk) {
    w.j < |c0| &&
    if w.stale then
      c == w.done + c0[w.j + 1..] && MergePass(c0) == w.done + AfterAbsorbing(c0[w.j + 1..])
    else
      c == w.done + c0[w.j..] && MergePass(c0) == w.done + MergePass(c0[w.j..])
  }

  ghost predicate InMemory(s: State, s': State, w: Walk) {
    Tiles(s'.chain, s.base, s.brk) && Headed(s'.mem, s'.chain, HEADER) &&
    s.mem.Keys <= s'.mem.Keys && Kept(s.mem, s'.mem, s.chain) && SameUse(s.chain, s'.chain) &&
    (w.stale ==> w.j < |s.chain| && w.done != [] && Absorbed(w.done[|w.done| - 1], s.chain[w.j], s'.mem))
  }

  /** `b` ends the free block `into`, and its old header is still there. */
  ghost predicate Absorbed(into: Block, b: Block, mem: map<nat, Granule>) {
    into.free && into.Holds(b.at) && b.End() == into.End() && b.free && b.span >= HEADER &&
    b.at in mem && mem[b.at] == Header(b.span - HEADER, true)
  }

  predicate Halts(c: seq<Block>, w: Walk) {
    w.j < |c| && (w.j + 1 == |c| || !c[w.j + 1].free)
  }

  /** The walk stood on the first chunks of `c`, one after the other. */
  ghost predicate Trail(visited: seq<nat>, c: seq<Block>) {
    |visited| <= |c| && forall i :: 0 <= i < |visited| ==> visited[i] == c[i].at
  }

  lemma TrailStarts(c: seq<Block>)
    ensures Trail([], c)
  {}

  lemma TrailGrows(visited: seq<nat>, c: seq<Block>, at: nat)
    requires Trail(visited, c) && |visited| < |c| && at == c[|visited|].at
    ensures Trail(visited + [at], c)
  {}

  lemma StartWalk(s: State)
    requires Inv(s) && s.head.Some?
    ensures s.chain != [] && Walking(s, s, Walk([], 0, false)) && s.head.value == s.chain[0].at
  {
    assert [] + s.chain[0..] == s.chain;
  }

  /** The granule the walk stands on is the header of chunk `j`, live or stale; behind that chunk
      comes the header of chunk `j + 1`, or the break. */
  lemma StandingOn(s: State, s': State, w: Walk)
    requires Walking(s, s', w)
    ensures var b := s.chain[w.j];
      b.at in s'.mem && b.span >= HEADER && s'.mem[b.at] == Header(b.span - HEADER, b.free) &&
      b.End() == StartOf(s.chain, w.j + 1, s.brk) && (b.End() == s.brk <==> w.j + 1 == |s.chain|) &&
      (w.j + 1 < |s.chain| ==>
         var n := s.chain[w.j + 1];
         n.at in s'.mem && n.span >= HEADER && s'.mem[n.at] == Header(n.span - HEADER, n.free))
  {
    TilesAt(s.chain, s.base, s.brk, w.j);
    if !w.stale { assert s'.chain[|w.done|] == s.chain[w.j]; }
    if w.j + 1 < |s.chain| {
      TilesAt(s.chain, s.base, s.brk, w.j + 1);
      assert s'.chain[|w.done| + (if w.stale then 0 else 1)] == s.chain[w.j + 1];
    }
  }

  lemma StaleStep(s: State, s': State, w: Walk)
    requires Walking(s, s', w) && w.stale && w.j + 1 < |s.chain| && s.chain[w.j + 1].free
    ensures var b, n := s.chain[w.j], s.chain[w.j + 1];
      b.span >= HEADER && n.span >= HEADER &&
      Walking(s, s'.(mem := s'.mem[b.at := Header(b.span + n.span - HEADER, true)]), Walk(w.done, w.j + 1, false))
  {
    StandingOn(s, s', w);
    var b, n := s.chain[w.j], s.chain[w.j + 1];
    var g := Header(b.span + n.span - HEADER, true);
    StaleOnChain(s.chain, s'.chain, w);
    StaleInMemory(s, s', w, g);
    hide OnChain, InMemory, Inv;
  }

  lemma StaleOnChain(c0: seq<Block>, c: seq<Block>, w: Walk)
    requires OnChain(c0, c, w) && w.stale && w.j + 1 < |c0| && c0[w.j + 1].free
    ensures OnChain(c0, c, Walk(w.done, w.j + 1, false))
  {}

  /** A write through the stale header stays inside the block that absorbed it. */
  lemma StaleInMemory(s: State, s': State, w: Walk, g: Granule)
    requires Walking(s, s', w) && w.stale && w.j + 1 < |s.chain|
    ensures InMemory(s, s'.(mem := s'.mem[s.chain[w.j].at := g]), Walk(w.done, w.j + 1, false))
  {
    var b, k := s.chain[w.j], |w.done| - 1;
    assert s'.chain[k] == w.done[k];
    hide MergePass, AfterAbsorbing, Headed, Kept, Tiles, InUse;
    FreeWrite(s'.mem, s'.chain, s.base, s.brk, k, b.at, g, HEADER);
    KeptThrough(s.mem, s'.mem, s'.mem[b.at := g], s.chain, s'.chain);
  }

  lemma AbsorbStep(s: State, s': State, w: Walk)
    requires Walking(s, s', w) && !w.stale && w.j + 1 < |s.chain| && s.chain[w.j].free && s.chain[w.j + 1].free
    ensures var b, n, k := s.chain[w.j], s.chain[w.j + 1], |w.done|;
      b.span >= HEADER && n.span >= HEADER && k + 1 < |s'.chain| &&
      var mem, c := s'.mem[b.at := Header(b.span + n.span - HEADER, true)], Chain.Merge(s'.chain, k);
      Walking(s, s'.(mem := mem, chain := c), Walk(w.done + [Block(b.at, b.span + n.span, true)], w.j + 1, true))
  {
    hide OnChain, InMemory, Inv, Chain.Merge;
    AbsorbOnChain(s.chain, s'.chain, w);
    AbsorbInMemory(s, s', w);
  }

  lemma AbsorbInMemory(s: State, s': State, w: Walk)
    requires Walking(s, s', w) && !w.stale && w.j + 1 < |s.chain| && s.chain[w.j].free && s.chain[w.j + 1].free
    ensures var b, n, k := s.chain[w.j], s.chain[w.j + 1], |w.done|;
      b.span >= HEADER && n.span >= HEADER && k + 1 < |s'.chain| &&
      var mem, c := s'.mem[b.at := Header(b.span + n.span - HEADER, true)], Chain.Merge(s'.chain, k);
      InMemory(s, s'.(mem := mem, chain := c), Walk(w.done + [Block(b.at, b.span + n.span, true)], w.j + 1, true))
  {
    hide Inv, Tiles, Headed, Kept, MergePass, InUse, AfterAbsorbing;
    StandingOn(s, s', w);
    var b, n, k := s.chain[w.j], s.chain[w.j + 1], |w.done|;
    assert s'.chain[k] == b && s'.chain[k + 1] == n;
    var m := s'.mem[b.at := Header(b.span + n.span - HEADER, true)];
    MergeTiles(s'.chain, s.base, s.brk, k);
    MergeHeaders(s'.mem, s'.chain, s.base, s.brk, k, HEADER);
    MergeUse(s'.chain, k);
    KeptThrough(s.mem, s'.mem, m, s.chain, s'.chain);
    assert Absorbed(Block(b.at, b.span + n.span, true), n, m);
  }

  lemma {:induction false} PassAbsorbs(t: seq<Block>)
    requires |t| >= 2 && t[0].free && t[1].free
    ensures MergePass(t) == [Block(t[0].at, t[0].span + t[1].span, true)] + AfterAbsorbing(t[2..])
  {}

  lemma MergeInside(done: seq<Block>, t: seq<Block>)
    requires |t| >= 2
    ensures Chain.Merge(done + t, |done|) == (done + [Block(t[0].at, t[0].span + t[1].span, true)]) + t[2..]
  {
    var c := done + t;
    assert c[..|done|] == done && c[|done| + 2..] == t[2..];
  }

  lemma AbsorbOnChain(c0: seq<Block>, c: seq<Block>, w: Walk)
    requires OnChain(c0, c, w) && !w.stale && w.j + 1 < |c0| && c0[w.j].free && c0[w.j + 1].free
    ensures |w.done| + 1 < |c|
    ensures var m := Block(c0[w.j].at, c0[w.j].span + c0[w.j + 1].span, true);
      OnChain(c0, Chain.Merge(c, |w.done|), Walk(w.done + [m], w.j + 1, true))
  {
    hide MergePass, AfterAbsorbing, Chain.Merge;
    var t := c0[w.j..];
    assert t[0] == c0[w.j] && t[1] == c0[w.j + 1];
    var m := Block(t[0].at, t[0].span + t[1].span, true);
    assert t[2..] == c0[w.j + 2..];
    PassAbsorbs(t);
    MergeInside(w.done, t);
    Regroup(w.done, [m], AfterAbsorbing(t[2..]));
    assert MergePass(t) == [m] + AfterAbsorbing(t[2..]);
    assert MergePass(c0) == w.done + ([m] + AfterAbsorbing(t[2..]));
    assert MergePass(c0) == (w.done + [m]) + AfterAbsorbing(t[2..]);
    assert Chain.Merge(w.done + t, |w.done|) == (w.done + [m]) + t[2..];
    assert m == Block(c0[w.j].at, c0[w.j].span + c0[w.j + 1].span, true);
  }

  lemma SkipStep(s: State, s': State, w: Walk)
    requires Walking(s, s', w) && w.j + 1 < |s.chain| && s.chain[w.j + 1].free && !s.chain[w.j].free
    ensures Walking(s, s', Walk(w.done + [s.chain[w.j]], w.j + 1, false))
  {
    hide Inv, Tiles, Headed, Kept, SameUse, MergePass;
    var b, t := s.chain[w.j], s.chain[w.j..];
    assert t == [b] + s.chain[w.j + 1..] && t[1..] == s.chain[w.j + 1..];
    PassSkips(t);
    Regroup(w.done, [b], s.chain[w.j + 1..]);
    Regroup(w.done, [b], MergePass(s.chain[w.j + 1..]));
    assert MergePass(s.chain) == w.done + ([b] + MergePass(s.chain[w.j + 1..]));
  }

  lemma {:induction false} PassSkips(t: seq<Block>)
    requires |t| >= 2 && !t[0].free && t[1].free
    ensures MergePass(t) == [t[0]] + MergePass(t[1..])
  {}

  /** Where the walk stops, the pass on the chain stops too. */
  lemma WalkDone(s: State, s': State, w: Walk)
    requires Walking(s, s', w) && Halts(s.chain, w)
    ensures s'.chain == Merged(s) && Inv(s') && Kept(s.mem, s'.mem, s.chain)
  {
    MergedKeeps(s);
  }

  ghost function CarveMem(mem: map<nat, Granule>, c: seq<Block>, k: nat, size: nat): map<nat, Granule>
    requires k < |c| && c[k].span >= size + HEADER
  {
    var rest := c[k].span - HEADER - size;
    if rest >= HEADER + MALLOC_SIZE_ALIGN then
      mem[c[k].at + HEADER + size := Header(rest - HEADER, true)][c[k].at := Header(size, false)]
    else mem[c[k].at := Header(c[k].span - HEADER, false)]
  }

  lemma {:induction false} CarveHeaders(mem: map<nat, Granule>, c: seq<Block>, lo: nat, hi: nat, k: nat, size: nat)
    requires Tiles(c, lo, hi) && Headed(mem, c, HEADER)
    requires k < |c| && c[k].free && c[k].span >= size + HEADER
    ensures Headed(CarveMem(mem, c, k, size), Carve(c, k, size), HEADER) && Kept(mem, CarveMem(mem, c, k, size), c)
  {
    hide Tiles, Headed, Kept, InUse;
    var n := size + HEADER;
    if c[k].span - n >= HEADER + MALLOC_SIZE_ALIGN {
      var c1 := Split(c, k, n);
      var m1 := mem[c[k].at + n := Header(c[k].span - n - HEADER, true)][c[k].at := Header(n - HEADER, true)];
      SplitTiles(c, lo, hi, k, n);
      SplitHeaders(mem, c, lo, hi, k, n, HEADER);
      SplitUse(c, k, n);
      MarkHeaders(m1, c1, lo, hi, k, false, HEADER);
      assert CarveMem(mem, c, k, size) == m1[c1[k].at := Header(c1[k].span - HEADER, false)];
      KeptThrough(mem, m1, CarveMem(mem, c, k, size), c, c1);
    } else {
      MarkHeaders(mem, c, lo, hi, k, false, HEADER);
    }
  }

  lemma KeptGrown(m1: map<nat, Granule>, m2: map<nat, Granule>, m3: map<nat, Granule>, c1: seq<Block>, c2: seq<Block>)
    requires Kept(m1, m2, c1) && Kept(m2, m3, c2) && c1 <= c2
    ensures Kept(m1, m3, c1)
  {
    forall a: nat | InUse(c1, a) ensures InUse(c2, a) {
      var k :| 0 <= k < |c1| && !c1[k].free && c1[k].Holds(a);
      assert c2[k] == c1[k];
    }
    KeptThrough(m1, m2, m3, c1, c2);
  }

  lemma {:induction false} BelowBreak(c: seq<Block>, lo: nat, hi: nat)
    requires Tiles(c, lo, hi)
    ensures forall k :: 0 <= k < |c| ==> c[k].at < hi
    ensures forall a: nat :: InUse(c, a) ==> a < hi
  {
    forall k | 0 <= k < |c| ensures c[k].at < c[k].End() <= hi { TilesAt(c, lo, hi, k); }
  }
}
