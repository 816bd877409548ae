/** The kernel heap as it runs: block headers written in place, and loops that go from block to
    block by address. */
module BuddyAllocator {
  import opened Wrappers
  import opened Chain
  import opened Buddy
  import opened HeapGrowth

  /** The largest power of two that is not above `size`. */
  method AlignDownToPowerOf2(size: nat) returns (results: nat)
    requires size > 0
    ensures Pow2(results) && results <= size < 2 * results
  {
    results := 1;
    while size > results
      invariant Pow2(results) && (results == 1 || results < 2 * size)
      decreases size - results
    {
      Pow2Steps(results);
      results := 2 * results;
    }
    if results != size {
      Pow2Steps(results);
      results := results / 2;
    }
  }

  class Allocator {
    var head: nat
    var tail: nat
    var heapEnd: nat
    var mem: map<nat, Granule>
    /** The blocks, as the live headers describe them. */
    ghost var chain: seq<Block>

    ghost function View(): State
      reads this
    {
      State(head, tail, heapEnd, mem, chain)
    }

    /** Takes over the memory from `start` on; it must hold at least one block. */
    constructor Init(start: nat, size: nat, memory: map<nat, Granule>)
      requires (start + 15) / 16 * 16 - start + 2 * HEADER <= size
      ensures Inv(View()) && head == tail == (start + 15) / 16 * 16 && head <= heapEnd <= start + size
      ensures chain == [Block(head, heapEnd - head, true)] && size - (head - start) < 2 * (heapEnd - head)
    {
      var at := (start + 15) / 16 * 16;
      var s := AlignDownToPowerOf2(size - (at - start));
      assert s >= 32 by { assert Pow2(32); if s < 32 { Pow2Gap(32, s); } }
      head, tail, heapEnd := at, at, at + s;
      mem := memory[at := Header(s, true)];
      chain := [Block(at, s, true)];
      new;
      assert chain[1..] == [];
    }

    /** Adds a free block at the end of the heap. */
    method AddFree(size: nat) returns (block: nat)
      requires Inv(View()) && Pow2(size) && size >= 2 * HEADER
      modifies this`tail, this`heapEnd, this`mem, this`chain
      ensures Inv(View()) && block == tail == old(heapEnd) && heapEnd == old(heapEnd) + size
      ensures chain == old(chain) + [Block(old(heapEnd), size, true)] && Kept(old(mem), mem, old(chain))
    {
      GrownKeeps(chain, head, heapEnd, size);
      GrownHeaders(mem, chain, head, heapEnd, size);
      block := heapEnd;
      mem := mem[block := Header(size, true)];
      chain := chain + [Block(heapEnd, size, true)];
      tail := block;
      heapEnd := heapEnd + size;
    }

    /** Maps the visited pages and adds a block behind the heap; `frames` is how many pages can be mapped,
        and `mapped'` holds the pages mapped afterwards, also when they are too few. */
    method ExpandHeapBy(size: nat, mapped: set<nat>, frames: nat) returns (block: Option<nat>, mapped': set<nat>)
      requires Inv(View()) && Pow2(size) && size >= 2 * HEADER
      modifies this`tail, this`heapEnd, this`mem, this`chain
      ensures Inv(View()) && Kept(old(mem), mem, old(chain)) && mapped <= mapped'
      ensures block.Some? <==> CanGrow(old(heapEnd), size, mapped, frames)
      ensures match block
        case None => View() == old(View())
        case Some(b) =>
          mapped' == mapped + Visited(old(heapEnd), size) && b == tail == old(heapEnd) && head == old(head) &&
          heapEnd == old(heapEnd) + size && chain == old(chain) + [Block(old(heapEnd), size, true)]
    {
      hide Inv, Kept, Pow2, CanGrow, Visited;
      NothingChanged(mem, chain);
      var ok;
      ok, mapped' := MapVisited(heapEnd, size, mapped, frames);
      if !ok { return None, mapped'; }
      var b := AddFree(size);
      block := Some(b);
    }

    /** The block behind `block`, if it is not the last one. */
    method Next(block: nat) returns (r: Option<nat>)
      requires block in mem && mem[block].Header?
      ensures r == if block + mem[block].size >= heapEnd then None else Some(block + mem[block].size)
    {
      if block + mem[block].size >= heapEnd { return None; }
      return Some(block + mem[block].size);
    }

    /** Halves `block`; both halves are free and the right one is returned. */
    method Divide(block: nat, ghost k: nat) returns (buddy: nat)
      requires Inv(View()) && k < |chain| && block == chain[k].at && chain[k].span / 2 > HEADER
      modifies this`mem, this`chain
      ensures Inv(View()) && chain == Split(old(chain), k, old(chain)[k].span / 2)
      ensures buddy == block + old(chain)[k].span / 2
      ensures old(chain)[k].free ==> Kept(old(mem), mem, old(chain))
    {
      hide Tiles, Kept;
      ghost var m, c := mem, chain;
      ghost var n: nat := c[k].span / 2;
      HeaderAt(m, c, k, 0);
      Pow2Steps(c[k].span);
      SplitTiles(c, head, heapEnd, k, n);
      SplitSized(c, k, 1);
      SplitHeaders(m, c, head, heapEnd, k, n, 0);
      mem := mem[block := Header(mem[block].size / 2, true)];
      buddy := block + mem[block].size;
      mem := mem[buddy := Header(mem[block].size, true)];
      chain := Split(chain, k, n);
      ghost var right: nat := c[k].at + n;
      ghost var m1: map<nat, Granule> := m[right := Header(c[k].span - n, true)];
      assert mem == m1[block := Header(n, true)];
    }

    /** Halves `block` until it fits; the right half of the last division, if there was one. */
    method SplitBlockToFit(block: nat, size: nat, ghost k: nat) returns (buddy: Option<nat>)
      requires Inv(View()) && k < |chain| && block == chain[k].at
      modifies this`mem, this`chain
      ensures Inv(View()) && chain == SplitTo(old(chain), k, size)
      ensures k < |chain| && chain[k].at == block
      ensures buddy == if Splits(old(chain)[k], size) && k + 1 < |chain| then Some(chain[k + 1].at) else None
      ensures Splits(old(chain)[k], size) ==> |chain| > |old(chain)|
      ensures old(chain)[k].free ==> Kept(old(mem), mem, old(chain))
    {
      hide Inv, Kept;
      buddy := None;
      ghost var c, m := chain, mem;
      NothingChanged(m, c);
      BlockHeader(View(), k);
      while mem[block].size / 2 >= size && mem[block].size / 2 > HEADER
        invariant Inv(View()) && k < |chain| && block == chain[k].at && |chain| >= |c|
        invariant block in mem && mem[block] == Header(chain[k].span, chain[k].free)
        invariant SplitTo(chain, k, size) == SplitTo(c, k, size)
        invariant buddy == None ==> chain == c && mem == m
        invariant buddy != None ==>
          |chain| > |c| && k + 1 < |chain| && buddy == Some(chain[k + 1].at) &&
          Splits(c[k], size)
        invariant c[k].free ==> chain[k].free && Kept(m, mem, c) && SameUse(c, chain)
        decreases chain[k].span
      {
        ghost var c1, m1 := chain, mem;
        var b := Divide(block, k);
        buddy := Some(b);
        if c[k].free {
          SplitUse(c1, k, c1[k].span / 2);
          KeptThrough(m, m1, mem, c, c1);
        }
        BlockHeader(View(), k);
      }
    }

    /** The same, keeping `tail` up to date; returns the block to use. */
    method SplitToFit(block: nat, size: nat, ghost k: nat) returns (used: nat)
      requires Inv(View()) && k < |chain| && block == chain[k].at
      modifies this`tail, this`mem, this`chain
      ensures Inv(View()) && chain == SplitTo(old(chain), k, size) && tail == TailAfter(old(chain), chain, k, old(tail))
      ensures k < |chain| && chain[k].at == block
      ensures if Splits(old(chain)[k], size) then k + 1 < |chain| && used == chain[k + 1].at else used == block
      ensures old(chain)[k].free ==> Kept(old(mem), mem, old(chain))
    {
      hide Inv, Kept, SplitTo;
      ghost var c := chain;
      SplitAdds(View(), k, size);
      var buddy := SplitBlockToFit(block, size, k);
      if buddy.Some? {
        TailIsFree(View(), buddy.value);
        if block == tail { tail := buddy.value; }
        return buddy.value;
      }
      return block;
    }

    /** The block behind `block` and its header. */
    method NextBlock(block: nat, ghost k: nat) returns (r: Option<nat>)
      requires Inv(View()) && k < |chain| && block == chain[k].at
      ensures r == if k + 1 < |chain| then Some(chain[k + 1].at) else None
    {
      BlockHeader(View(), k);
      TilesAt(chain, head, heapEnd, k);
      if k + 1 < |chain| { TilesAt(chain, head, heapEnd, k + 1); }
      r := Next(block);
    }

    /** The loop of the search, over each pair of neighbours. */
    method SearchBest(size: nat) returns (best: Option<nat>)
      requires Inv(View()) && |chain| >= 2
      ensures var k := BestFit(chain, size, |chain|);
        best == if k.Some? then Some(chain[k.value].at) else None
    {
      hide Inv, BestFit, IsBest;
      var block := head;
      best := None;
      ghost var k := 0;
      HeadBlock(View());
      var next := NextBlock(block, 0);
      var buddy := next.value;
      BestOfNone(chain, size);
      while true
        invariant k + 1 < |chain| && block == chain[k].at && buddy == chain[k + 1].at
        invariant IsBest(chain, size, if k == 0 then 0 else k + 1, best)
        decreases |chain| - k
      {
        BlockHeader(View(), k);
        BlockHeader(View(), k + 1);
        BestHeader(View(), size, if k == 0 then 0 else k + 1, best);
        BestStep(chain, size, k, best);
        if mem[block].free && mem[block].size >= size && (best.None? || mem[best.value].size >= mem[block].size) {
          best := Some(block);
        }
        BestHeader(View(), size, k + 1, best);
        BestMore(chain, size, k + 1, best);
        if mem[buddy].free && mem[buddy].size >= size && (best.None? || mem[best.value].size >= mem[buddy].size) {
          best := Some(buddy);
        }
        block := buddy;
        k := k + 1;
        next := NextBlock(block, k);
        if next.None? { break; }
        buddy := next.value;
      }
      BestDone(chain, size, best);
    }

    /** A best fit, split to size; a heap of one block is not looked at. */
    method FindFreeBlock(size: nat) returns (r: Option<nat>)
      requires Inv(View())
      modifies this`tail, this`mem, this`chain
      ensures Inv(View()) && old(chain) != []
      ensures match FindFree(old(chain), old(tail), size)
        case None => r == None && View() == old(View())
        case Some(f) => f.index < |f.chain| && chain == f.chain && tail == f.tail && r == Some(chain[f.index].at)
      ensures Guarded(old(chain), size) ==> Kept(old(mem), mem, old(chain))
    {
      hide Inv, Kept, SplitTo, BestFit, Splits;
      HeadBlock(View());
      ghost var c := chain;
      NothingChanged(mem, chain);
      var next := NextBlock(head, 0);
      if next.None? {
        var used := SplitToFit(head, size, 0);
        return Some(used);
      }
      var best := SearchBest(size);
      if best.None? { return None; }
      ghost var k := BestFit(c, size, |c|).value;
      var _ := SplitToFit(best.value, size, k);
      return best;
    }

    /** One pass over the heap; whether it merged anything. */
    method CoalesceBuddies() returns (results: bool)
      requires Inv(View())
      modifies this`mem, this`chain
      ensures Inv(View()) && chain == Pass(old(chain)) && results == (|chain| < |old(chain)|)
      ensures Kept(old(mem), mem, old(chain))
    {
      hide Inv, Kept, Pass, Passing;
      ghost var s := View();
      HeadBlock(s);
      StartPass(s);
      results := false;
      var block := head;
      ghost var k := 0;
      var next := NextBlock(block, 0);
      if next.None? {
        PassDone(s, s, 0);
        return false;
      }
      var buddy := next.value;
      while true
        invariant Inv(View()) && Passing(s, View(), k)
        invariant k + 1 < |chain| && block == chain[k].at && buddy == chain[k + 1].at
        invariant results == (|chain| < |s.chain|) && |chain| <= |s.chain|
        decreases |chain| - k
      {
        BlockHeader(View(), k);
        BlockHeader(View(), k + 1);
        if mem[block].free && mem[buddy].free && mem[block].size == mem[buddy].size {
          AbsorbBuddy(s, View(), k);
          mem := mem[block := Header(2 * mem[block].size, mem[block].free)];
          chain := Merge(chain, k);
          results := true;
        } else {
          LeaveBuddy(s, View(), k);
          block := buddy;
          k := k + 1;
        }
        next := NextBlock(block, k);
        if next.None? { break; }
        buddy := next.value;
      }
      PassDone(s, View(), k);
    }

    method CoalesceFull()
      requires Inv(View())
      modifies this`mem, this`chain
      ensures Inv(View()) && chain == Full(old(chain)) && Kept(old(mem), mem, old(chain))
    {
      hide Inv, Kept, Pass;
      ghost var c, m := chain, mem;
      NothingChanged(mem, chain);
      var more := true;
      while more
        invariant Inv(View()) && Full(chain) == Full(c) && Kept(m, mem, c) && SameUse(c, chain)
        invariant !more ==> |Pass(chain)| == |chain|
        decreases |chain|, more
      {
        ghost var c1, m1 := chain, mem;
        PassUse(View());
        more := CoalesceBuddies();
        KeptThrough(m, m1, mem, c, c1);
        if !more { PassSettles(c1); }
      }
    }

    /** Searches, coalesces and searches again. */
    method FindOrCoalesce(size: nat) returns (r: Option<nat>)
      requires Inv(View())
      modifies this`tail, this`mem, this`chain
      ensures old(chain) != [] && Inv(View())
      ensures match Choose(old(chain), old(tail), heapEnd, size, false).0
        case None => r == None && chain == Full(old(chain)) && tail == old(tail)
        case Some(f) => f.index < |f.chain| && chain == f.chain && tail == f.tail && r == Some(chain[f.index].at)
      ensures SafeToAlloc(old(chain), size) ==> Kept(old(mem), mem, old(chain))
    {
      hide Inv, Kept, Full, FindFree, Guarded, SafeToAlloc;
      ghost var s := View();
      HeadBlock(s);
      if SafeToAlloc(s.chain, size) { SafeSearches(s, size); }
      r := FindFreeBlock(size);
      if r.None? {
        CoalesceFull();
        ghost var m, c := mem, chain;
        FullUse(s);
        r := FindFreeBlock(size);
        if SafeToAlloc(s.chain, size) { KeptThrough(s.mem, m, mem, s.chain, c); }
      }
    }

    /** Returns 0 for a null pointer. Blocks in use keep what they hold when the call is safe. */
    method AllocMut(size: nat, mapped: set<nat>, frames: nat) returns (ptr: nat, mapped': set<nat>)
      requires Inv(View()) && size > 0
      modifies this`tail, this`heapEnd, this`mem, this`chain
      ensures old(chain) != [] && Inv(View()) && PagesAfter(old(View()), View(), mapped, mapped')
      ensures var grow := CanGrow(old(heapEnd), ActualSize(size), mapped, frames);
        AllocShape(old(View()), size, grow, View(), ptr) &&
        (SafeToAlloc(old(chain), ActualSize(size)) ==> AllocStep(old(View()), size, grow, View(), ptr))
    {
      hide Inv, Kept, Full, Choose, SafeToAlloc, CanGrow, Visited, SameUse, Headed;
      ghost var s := View();
      HeadBlock(s);
      mapped' := mapped;
      var req := AlignToPowerOf2(size + HEADER);
      ActualSizeTight(size);
      ghost var grow := CanGrow(heapEnd, req, mapped, frames);
      ChooseGrows(s, req, grow);
      if SafeToAlloc(chain, req) { ChosenSameUse(s, size, grow); }
      var block := FindOrCoalesce(req);
      if block.None? {
        ghost var m, c := mem, chain;
        FullUse(s);
        block, mapped' := ExpandHeapBy(req, mapped, frames);
        if SafeToAlloc(s.chain, req) { KeptThrough(s.mem, m, mem, s.chain, c); }
        if block.None? {
          LiveHeaders(View());
          return 0, mapped';
        }
      }
      ghost var f := Choose(s.chain, s.tail, s.heapEnd, req, grow).0.value;
      ptr := TakeBlock(block.value, f.index, s);
      LiveHeaders(View());
    }

    /** Marks the block that was found and hands out its payload. */
    method TakeBlock(block: nat, ghost k: nat, ghost s: State) returns (ptr: nat)
      requires Inv(View()) && k < |chain| && block == chain[k].at
      modifies this`mem, this`chain
      ensures Inv(View()) && chain == Mark(old(chain), k, false) && ptr == block + HEADER
      ensures Kept(s.mem, old(mem), s.chain) && SameUse(s.chain, old(chain)) ==> Kept(s.mem, mem, s.chain)
    {
      ghost var c, m := chain, mem;
      MarkBlock(View(), k, false);
      hide Inv, Kept;
      mem := mem[block := Header(mem[block].size, false)];
      chain := Mark(chain, k, false);
      if Kept(s.mem, m, s.chain) && SameUse(s.chain, c) { KeptThrough(s.mem, m, mem, s.chain, c); }
      return block + HEADER;
    }

    method DeallocMut(ptr: nat)
      requires Inv(View()) && Live(chain, ptr)
      modifies this`mem, this`chain
      ensures Inv(View()) && DeallocStep(old(View()), ptr, View())
    {
      ghost var s := View();
      FoundLive(chain, ptr);
      var block := ptr - HEADER;
      ghost var k := IndexAt(chain, block);
      MarkBlock(s, k, true);
      hide Inv, Kept, Full, IndexAt;
      mem := mem[block := Header(mem[block].size, true)];
      chain := Mark(chain, k, true);
      ghost var s1 := View();
      CoalesceFull();
      LiveHeaders(View());
      DeallocDone(s, k, s1, View());
    }
  }

  // ----- the coalescing pass -----

  /** The pass stands on block `k` of the chain it has made so far. */
  ghost predicate Passing(s: State, s': State, k: nat) {
    k < |s'.chain| && Pass(s.chain) == s'.chain[..k] + Pass(s'.chain[k..]) &&
    Kept(s.mem, s'.mem, s.chain) && SameUse(s.chain, s'.chain) && |s'.chain| <= |s.chain|
  }

  lemma StartPass(s: State)
    requires s.chain != []
    ensures Passing(s, s, 0)
  {
    assert s.chain[..0] == [] && s.chain[0..] == s.chain;
  }

  lemma {:induction false} PassAbsorbs(t: seq<Block>)
    requires |t| >= 2 && Buddies(t[0], t[1])
    ensures Pass(t) == Pass([Block(t[0].at, 2 * t[0].span, true)] + t[2..])
  {}

  lemma {:induction false} PassLeaves(t: seq<Block>)
    requires |t| >= 2 && !Buddies(t[0], t[1])
    ensures Pass(t) == [t[0]] + Pass(t[1..])
  {}

  lemma AbsorbBuddy(s: State, s': State, k: nat)
    requires Inv(s') && Passing(s, s', k) && k + 1 < |s'.chain| && Buddies(s'.chain[k], s'.chain[k + 1])
    ensures var b := s'.chain[k];
      var s2 := s'.(mem := s'.mem[b.at := Header(2 * b.span, true)], chain := Merge(s'.chain, k));
      |s2.chain| == |s'.chain| - 1 && k < |s2.chain| && s2.chain[k].at == b.at && Inv(s2) && Passing(s, s2, k)
  {
    hide Tiles, Headed, Kept, InUse, Pass;
    var c, b := s'.chain, s'.chain[k];
    var c2 := Merge(c, k);
    MergeTiles(c, s'.head, s'.heapEnd, k);
    MergeHeaders(s'.mem, c, s'.head, s'.heapEnd, k, 0);
    MergeUse(c, k);
    MergeSized(c, k);
    KeptThrough(s.mem, s'.mem, s'.mem[b.at := Header(2 * b.span, true)], s.chain, c);
    assert c2[..k] == c[..k];
    assert c2[k..] == [Block(c[k..][0].at, 2 * c[k..][0].span, true)] + c[k..][2..];
    PassAbsorbs(c[k..]);
  }

  lemma MergeSized(c: seq<Block>, k: nat)
    requires Sized(c) && k + 1 < |c| && c[k].span == c[k + 1].span
    ensures Sized(Merge(c, k))
  {
    Pow2Steps(c[k].span);
  }

  lemma LeaveBuddy(s: State, s': State, k: nat)
    requires Passing(s, s', k) && k + 1 < |s'.chain| && !Buddies(s'.chain[k], s'.chain[k + 1])
    ensures Passing(s, s', k + 1)
  {
    hide Kept, SameUse, Pass;
    var c := s'.chain;
    PassLeaves(c[k..]);
    assert c[k..][1..] == c[k + 1..] && c[k..][0] == c[k];
    Regroup(c[..k], [c[k]], Pass(c[k + 1..]));
    assert c[..k + 1] == c[..k] + [c[k]];
    assert Pass(s.chain) == c[..k] + ([c[k]] + Pass(c[k + 1..]));
  }

  lemma PassDone(s: State, s': State, k: nat)
    requires Passing(s, s', k) && k + 1 == |s'.chain|
    ensures s'.chain == Pass(s.chain) && Kept(s.mem, s'.mem, s.chain)
  {
    assert Pass(s'.chain[k..]) == s'.chain[k..];
    assert s'.chain == s'.chain[..k] + s'.chain[k..];
  }

  lemma PassUse(s: State)
    requires Inv(s)
    ensures SameUse(s.chain, Pass(s.chain))
  {
    PassConserves(s.chain);
    SameChunksSameUse(s.chain, Pass(s.chain));
  }

  // ----- allocation and release -----

  lemma FullUse(s: State)
    requires Inv(s)
    ensures SameUse(s.chain, Full(s.chain))
  {
    FullKeeps(s.chain, s.head, s.heapEnd);
    SameChunksSameUse(s.chain, Full(s.chain));
  }

  lemma SafeSearches(s: State, size: nat)
    requires s.chain != [] && SafeToAlloc(s.chain, size)
    ensures Guarded(s.chain, size)
    ensures FindFree(s.chain, s.tail, size).None? ==> Guarded(Full(s.chain), size)
  {}

  /** Growing matters only when neither search finds a block. */
  lemma ChooseGrows(s: State, size: nat, grow: bool)
    requires s.chain != []
    ensures var (r, e) := Choose(s.chain, s.tail, s.heapEnd, size, false);
      Choose(s.chain, s.tail, s.heapEnd, size, grow) ==
      if r.Some? || !grow then (r, s.heapEnd)
      else (Some(Found(Full(s.chain) + [Block(s.heapEnd, size, true)], s.heapEnd, |Full(s.chain)|)), s.heapEnd + size)
  {}

  lemma ChosenSameUse(s: State, size: nat, grow: bool)
    requires Inv(s) && Legal(s, OpAlloc(size, grow))
    ensures var r := Choose(s.chain, s.tail, s.heapEnd, ActualSize(size), grow).0;
      r.Some? ==> SameUse(s.chain, r.value.chain)
  {
    ActualSizeTight(size);
    var r := Choose(s.chain, s.tail, s.heapEnd, ActualSize(size), grow).0;
    if r.Some? {
      hide Choose;
      ChosenKeeps(s.chain, s.head, s.heapEnd, s.tail, ActualSize(size), grow);
      SameChunksSameUse(s.chain, r.value.chain);
    }
  }

  lemma MarkBlock(s: State, k: nat, free: bool)
    requires Inv(s) && k < |s.chain|
    ensures s.chain[k].at in s.mem && s.mem[s.chain[k].at] == Header(s.chain[k].span, s.chain[k].free)
    ensures var mem := s.mem[s.chain[k].at := Header(s.chain[k].span, free)];
      Inv(s.(mem := mem, chain := Mark(s.chain, k, free))) && Kept(s.mem, mem, s.chain)
  {
    hide Tiles, Sized, Kept, Headed;
    HeaderAt(s.mem, s.chain, k, 0);
    MarkTiles(s.chain, s.head, s.heapEnd, k, free);
    MarkHeaders(s.mem, s.chain, s.head, s.heapEnd, k, free, 0);
    MarkSized(s.chain, k, free);
  }

  lemma DeallocDone(s: State, k: nat, s1: State, s': State)
    requires k < |s.chain| && Kept(s.mem, s1.mem, s.chain) && s1.chain == Mark(s.chain, k, true) && Inv(s1)
    requires s'.chain == Full(s1.chain) && Kept(s1.mem, s'.mem, s1.chain)
    ensures Kept(s.mem, s'.mem, s'.chain)
  {
    FullUse(s1);
    MarkUse(s.chain, k);
  }

  lemma LiveHeaders(s: State)
    requires Inv(s)
    ensures Headed(s.mem, s.chain, 0)
  {}

  lemma HeadBlock(s: State)
    requires Inv(s)
    ensures s.chain != [] && s.chain[0].at == s.head
  {}

  /** No invariant speaks of `tail`. */
  lemma TailIsFree(s: State, tail: nat)
    requires Inv(s)
    ensures Inv(s.(tail := tail))
  {}

  lemma {:induction false} SplitAdds(s: State, k: nat, size: nat)
    requires Inv(s) && k < |s.chain|
    ensures |SplitTo(s.chain, k, size)| >= |s.chain|
    ensures SplitTo(s.chain, k, size) == s.chain <==> !Splits(s.chain[k], size)
    ensures Splits(s.chain[k], size) ==> |SplitTo(s.chain, k, size)| > |s.chain|
  {
    SplitToKeeps(s.chain, s.head, s.heapEnd, k, size);
  }

  // ----- the search -----

  /** `best` is the block that the search prefers among the first `n`. */
  ghost predicate IsBest(c: seq<Block>, size: nat, n: nat, best: Option<nat>) {
    n <= |c| && best == match BestFit(c, size, n) case Some(k) => Some(c[k].at) case None => None
  }

  lemma BestOfNone(c: seq<Block>, size: nat)
    ensures IsBest(c, size, 0, None)
  {}

  lemma {:induction false} BestHeader(s: State, size: nat, n: nat, best: Option<nat>)
    requires Inv(s) && IsBest(s.chain, size, n, best)
    ensures n <= |s.chain| && (best.None? <==> BestFit(s.chain, size, n).None?)
    ensures best.Some? ==>
      var b := s.chain[BestFit(s.chain, size, n).value];
      best.value == b.at && b.at in s.mem && s.mem[b.at] == Header(b.span, b.free)
  {
    if best.Some? { BlockHeader(s, BestFit(s.chain, size, n).value); }
  }

  lemma {:induction false} BestDone(c: seq<Block>, size: nat, best: Option<nat>)
    requires IsBest(c, size, |c|, best)
    ensures best == match BestFit(c, size, |c|) case Some(k) => Some(c[k].at) case None => None
  {}

  /** Looking at the next block. */
  lemma {:induction false} BestMore(c: seq<Block>, size: nat, n: nat, best: Option<nat>)
    requires n < |c| && IsBest(c, size, n, best)
    ensures var p := BestFit(c, size, n);
      IsBest(c, size, n + 1,
             if Fits(c[n], size) && (p.None? || c[p.value].span >= c[n].span) then Some(c[n].at) else best)
  {}

  /** Looking at block `k` again changes nothing; the first block is looked at for the first time. */
  lemma {:induction false} BestStep(c: seq<Block>, size: nat, k: nat, best: Option<nat>)
    requires k < |c| && IsBest(c, size, if k == 0 then 0 else k + 1, best)
    ensures var p := BestFit(c, size, if k == 0 then 0 else k + 1);
      IsBest(c, size, k + 1,
             if Fits(c[k], size) && (p.None? || c[p.value].span >= c[k].span) then Some(c[k].at) else best)
  {}

  lemma BlockHeader(s: State, k: nat)
    requires Inv(s) && k < |s.chain|
    ensures s.chain[k].at in s.mem && s.mem[s.chain[k].at] == Header(s.chain[k].span, s.chain[k].free)
    ensures s.chain[k].span >= 2 * HEADER
  {}

  lemma {:induction false} GrownHeaders(mem: map<nat, Granule>, c: seq<Block>, lo: nat, hi: nat, size: nat)
    requires Tiles(c, lo, hi) && Headed(mem, c, 0) && size >= HEADER
    ensures Headed(mem[hi := Header(size, true)], c + [Block(hi, size, true)], 0)
    ensures Kept(mem, mem[hi := Header(size, true)], c)
  {
    forall k | 0 <= k < |c| ensures c[k].at != hi && !c[k].Holds(hi) { TilesAt(c, lo, hi, k); }
  }
}
