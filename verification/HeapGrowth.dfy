/** The pages behind the kernel heap: which of them `expand_heap_by` visits, and whether every block lies
    on a mapped page. */
module HeapGrowth {
  import opened Wrappers
  import opened Chain
  import opened Buddy

  /** Where the page of an address starts. */
  function PageOf(a: nat): nat { a / PAGE_SIZE * PAGE_SIZE }

  /** The pages from one at `start` up to, but without, the one at `end`. */
  function Pages(start: nat, end: nat): set<nat>
    requires start % PAGE_SIZE == 0 && end % PAGE_SIZE == 0
    decreases end - start
  {
    if start < end then {start} + Pages(start + PAGE_SIZE, end) else {}
  }

  lemma {:induction false} PageIn(start: nat, end: nat, p: nat)
    requires start % PAGE_SIZE == 0 && end % PAGE_SIZE == 0
    ensures p in Pages(start, end) <==> start <= p < end && p % PAGE_SIZE == 0
    decreases end - start
  {
    if start < end { PageIn(start + PAGE_SIZE, end, p); }
  }

  class IterPage {
    var start: nat
    const end: nat

    constructor (start: nat, end: nat)
      requires start % PAGE_SIZE == 0 && end % PAGE_SIZE == 0
      ensures this.start == start && this.end == end
    {
      this.start, this.end := start, end;
    }

    /** Yields the first of the pages ahead and leaves the others. */
    method Next() returns (r: Option<nat>)
      requires start % PAGE_SIZE == 0 && end % PAGE_SIZE == 0
      modifies this
      ensures start % PAGE_SIZE == 0
      ensures match r
        case None => Pages(old(start), end) == {} && start == old(start)
        case Some(page) =>
          page in Pages(old(start), end) && Pages(start, end) == Pages(old(start), end) - {page} && old(start) < start
    {
      if start < end {
        var page := start;
        PageIn(start + PAGE_SIZE, end, page);
        start := start + PAGE_SIZE;
        return Some(page);
      }
      return None;
    }
  }

  /** The pages that are visited when the heap grows by `size`. */
  function Visited(heapEnd: nat, size: nat): set<nat> { Pages(PageOf(heapEnd), PageOf(heapEnd + size)) }

  /** Whether all pages that are visited and not mapped can be given a frame. */
  predicate CanGrow(heapEnd: nat, size: nat, mapped: set<nat>, frames: nat) {
    |Visited(heapEnd, size) - mapped| <= frames
  }

  /** The loop of `expand_heap_by` over the visited pages; pages that are mapped already cost nothing. */
  method MapVisited(heapEnd: nat, size: nat, mapped: set<nat>, frames: nat) returns (ok: bool, mapped': set<nat>)
    ensures ok <==> CanGrow(heapEnd, size, mapped, frames)
    ensures mapped <= mapped' && (ok ==> mapped' == mapped + Visited(heapEnd, size))
  {
    var iter := new IterPage(PageOf(heapEnd), PageOf(heapEnd + size));
    ghost var all := Visited(heapEnd, size);
    hide Visited, Pages, PageOf, Visiting;
    var left := frames;
    mapped' := mapped;
    VisitNone(all, mapped, frames);
    while true
      invariant iter.start % PAGE_SIZE == 0 && iter.end % PAGE_SIZE == 0
      invariant Visiting(all, Pages(iter.start, iter.end), mapped, mapped', left, frames)
      decreases |Pages(iter.start, iter.end)|
    {
      ghost var ahead := Pages(iter.start, iter.end);
      var page := iter.Next();
      if page.None? { break; }
      VisitOne(all, ahead, mapped, mapped', left, frames, page.value);
      if page.value !in mapped' {
        if left == 0 { return false, mapped'; }
        left := left - 1;
        mapped' := mapped' + {page.value};
      }
    }
    VisitAll(all, mapped, mapped', left, frames);
    ok := true;
  }

  /** All pages but those ahead are mapped, and each that was not has cost a frame. */
  ghost predicate Visiting(all: set<nat>, ahead: set<nat>, mapped: set<nat>, mapped': set<nat>, left: nat, frames: nat)
  {
    ahead <= all && mapped' == mapped + (all - ahead) && |(all - ahead) - mapped| + left == frames
  }

  lemma VisitNone(all: set<nat>, mapped: set<nat>, frames: nat)
    ensures Visiting(all, all, mapped, mapped, frames, frames)
  {
    assert (all - all) - mapped == {};
  }

  lemma VisitOne(all: set<nat>, ahead: set<nat>, mapped: set<nat>, mapped': set<nat>, left: nat, frames: nat, page: nat)
    requires Visiting(all, ahead, mapped, mapped', left, frames) && page in ahead
    ensures mapped <= mapped' && |ahead - {page}| < |ahead|
    ensures page in mapped' ==> Visiting(all, ahead - {page}, mapped, mapped', left, frames)
    ensures page !in mapped' && left > 0 ==>
      Visiting(all, ahead - {page}, mapped, mapped' + {page}, left - 1, frames)
    ensures page !in mapped' && left == 0 ==> |all - mapped| > frames
  {
    var seen := all - ahead;
    assert all - (ahead - {page}) == seen + {page};
    if page in mapped' {
      assert (seen + {page}) - mapped == seen - mapped;
    } else {
      assert (seen + {page}) - mapped == (seen - mapped) + {page};
      TooFew(all - mapped, seen - mapped, page);
    }
  }

  lemma VisitAll(all: set<nat>, mapped: set<nat>, mapped': set<nat>, left: nat, frames: nat)
    requires Visiting(all, {}, mapped, mapped', left, frames)
    ensures mapped' == mapped + all && |all - mapped| <= frames
  {
    assert all - {} == all;
  }

  lemma TooFew(all: set<nat>, some: set<nat>, x: nat)
    requires some + {x} <= all && x !in some
    ensures |some| < |all|
  {
    Smaller(some + {x}, all);
  }

  lemma {:induction false} Smaller(a: set<nat>, b: set<nat>)
    requires a <= b
    ensures |a| <= |b|
  {
    if a != {} {
      var x :| x in a;
      Smaller(a - {x}, b - {x});
    }
  }

  /** Every byte of the range is on a mapped page. */
  ghost predicate OnPages(mapped: set<nat>, lo: nat, hi: nat) { forall a :: lo <= a < hi ==> PageOf(a) in mapped }

  ghost predicate HeapMapped(s: State, mapped: set<nat>) { OnPages(mapped, s.head, s.heapEnd) }

  /** What the heap may be grown by: the new end is a page boundary, or its page is mapped already. */
  predicate SafeGrowth(heapEnd: nat, size: nat, mapped: set<nat>) {
    (heapEnd + size) % PAGE_SIZE == 0 || PageOf(heapEnd + size) in mapped
  }

  /** The new block is on mapped pages exactly when the growth is safe. */
  lemma GrowthMappedIff(heapEnd: nat, size: nat, mapped: set<nat>)
    requires size > 0
    ensures OnPages(mapped + Visited(heapEnd, size), heapEnd, heapEnd + size) <==> SafeGrowth(heapEnd, size, mapped)
  {
    var end, all := heapEnd + size, mapped + Visited(heapEnd, size);
    if SafeGrowth(heapEnd, size, mapped) {
      forall a | heapEnd <= a < end ensures PageOf(a) in all {
        PagesOrdered(heapEnd, a, end);
        PageIn(PageOf(heapEnd), PageOf(end), PageOf(a));
      }
    } else {
      PagesOrdered(heapEnd, end - 1, end);
      PageIn(PageOf(heapEnd), PageOf(end), PageOf(end - 1));
      assert PageOf(end - 1) !in all;
    }
  }

  lemma PagesOrdered(lo: nat, a: nat, hi: nat)
    requires lo <= a < hi
    ensures PageOf(lo) <= PageOf(a) <= PageOf(hi) && PageOf(a) % PAGE_SIZE == 0
    ensures hi % PAGE_SIZE == 0 ==> PageOf(a) < PageOf(hi)
    ensures a == hi - 1 && hi % PAGE_SIZE != 0 ==> PageOf(a) == PageOf(hi)
  {}

  // ----- allocations -----

  ghost predicate Grew(s: State, s': State) { s'.heapEnd != s.heapEnd }

  /** The pages mapped after a step: at least those from before and, when the heap grew, those visited. */
  ghost predicate PagesAfter(s: State, s': State, mapped: set<nat>, mapped': set<nat>) {
    mapped <= mapped' && (s'.heapEnd > s.heapEnd ==> Visited(s.heapEnd, s'.heapEnd - s.heapEnd) <= mapped')
  }

  /** An allocation that grows the heap appends one block at its end and hands it out. */
  lemma GrowthAppends(s: State, size: nat, grow: bool, s': State, ptr: nat)
    requires s.chain != [] && AllocShape(s, size, grow, s', ptr) && Grew(s, s')
    ensures grow && s'.heapEnd == s.heapEnd + ActualSize(size) && ptr == s.heapEnd + HEADER
    ensures s'.chain == Full(s.chain) + [Block(s.heapEnd, ActualSize(size), false)]
  {
    var f := Choose(s.chain, s.tail, s.heapEnd, ActualSize(size), grow).0.value;
    assert Mark(f.chain, f.index, false) == Full(s.chain) + [Block(s.heapEnd, ActualSize(size), false)];
  }

  /** An allocation that maps the visited pages alone leaves the heap on mapped pages exactly when it
      does not grow it or the growth is safe. */
  lemma AllocMappedIff(s: State, size: nat, grow: bool, s': State, ptr: nat, mapped: set<nat>)
    requires s.chain != [] && AllocShape(s, size, grow, s', ptr) && s.head <= s.heapEnd && HeapMapped(s, mapped)
    ensures var mapped' := if Grew(s, s') then mapped + Visited(s.heapEnd, ActualSize(size)) else mapped;
      HeapMapped(s', mapped') <==> !Grew(s, s') || SafeGrowth(s.heapEnd, ActualSize(size), mapped)
  {
    if Grew(s, s') {
      GrowthAppends(s, size, grow, s', ptr);
      GrowthMappedIff(s.heapEnd, ActualSize(size), mapped);
      assert s'.head == s.head;
      hide AllocShape;
      var mapped' := mapped + Visited(s.heapEnd, ActualSize(size));
      if OnPages(mapped', s.heapEnd, s'.heapEnd) {
        forall a | s.head <= a < s'.heapEnd ensures PageOf(a) in mapped' {
          if a < s.heapEnd { assert PageOf(a) in mapped; }
        }
      }
    }
  }

  /** A small block behind a heap that ends at a page boundary: no page is visited, and the header is
      written to a page that is not mapped. */
  lemma SmallGrowthFaults(s: State, size: nat, s': State, ptr: nat, mapped: set<nat>)
    requires s.chain != [] && AllocShape(s, size, true, s', ptr) && Grew(s, s')
    requires s.heapEnd % PAGE_SIZE == 0 && s.heapEnd !in mapped && ActualSize(size) < PAGE_SIZE
    ensures Visited(s.heapEnd, ActualSize(size)) == {}
    ensures PageOf(ptr - HEADER) !in mapped + Visited(s.heapEnd, ActualSize(size))
  {
    GrowthAppends(s, size, true, s', ptr);
    assert PageOf(s.heapEnd) == s.heapEnd == PageOf(s.heapEnd + ActualSize(size));
  }

  /** Such a heap is met: two requests for 8000000 bytes use up the first 16 MiB, and a third for 16
      bytes grows the heap by 32. */
  lemma SmallGrowthReached(head: nat)
    requires head % PAGE_SIZE == 0
    ensures var end := head + 0x100_0000;
      var first := Choose([Block(head, 0x100_0000, true)], head, end, ActualSize(8_000_000), true).0;
      first.Some? && first.value.index < |first.value.chain| &&
      var c1 := Mark(first.value.chain, first.value.index, false);
      c1 == Halves(head, true, false) &&
      var second := Choose(c1, first.value.tail, end, ActualSize(8_000_000), true).0;
      second.Some? && second.value.index < |second.value.chain| &&
      var c2 := Mark(second.value.chain, second.value.index, false);
      c2 == Halves(head, false, false) &&
      Choose(c2, second.value.tail, end, ActualSize(16), true).1 == end + 32 && Visited(end, 32) == {}
  {
    hide Choose, Visited;
    var end, size := head + 0x100_0000, 0x80_0000;
    HalfRequests();
    FirstHalf(head);
    var first := Choose([Block(head, 0x100_0000, true)], head, end, size, true).0;
    SecondHalf(head, first.value.tail);
    var second := Choose(Halves(head, true, false), first.value.tail, end, size, true).0;
    ThirdGrows(head, second.value.tail);
  }

  /** The two halves of the first 16 MiB. */
  function Halves(head: nat, left: bool, right: bool): seq<Block> {
    [Block(head, 0x80_0000, left), Block(head + 0x80_0000, 0x80_0000, right)]
  }

  lemma FirstHalf(head: nat)
    ensures var first := Choose([Block(head, 0x100_0000, true)], head, head + 0x100_0000, 0x80_0000, true).0;
      first.Some? && first.value.index < |first.value.chain| &&
      Mark(first.value.chain, first.value.index, false) == Halves(head, true, false)
  {
    var c := [Block(head, 0x100_0000, true)];
    assert Split(c, 0, 0x80_0000) == Halves(head, true, true);
    assert SplitTo(Halves(head, true, true), 0, 0x80_0000) == Halves(head, true, true);
    assert Mark(Halves(head, true, true), 1, false) == Halves(head, true, false);
  }

  lemma SecondHalf(head: nat, tail: nat)
    ensures var second := Choose(Halves(head, true, false), tail, head + 0x100_0000, 0x80_0000, true).0;
      second.Some? && second.value.index < |second.value.chain| &&
      Mark(second.value.chain, second.value.index, false) == Halves(head, false, false)
  {
    var c := Halves(head, true, false);
    assert BestFit(c, 0x80_0000, 1) == Some(0) && SplitTo(c, 0, 0x80_0000) == c;
    assert Mark(c, 0, false) == Halves(head, false, false);
  }

  lemma ThirdGrows(head: nat, tail: nat)
    requires head % PAGE_SIZE == 0
    ensures var end := head + 0x100_0000;
      Choose(Halves(head, false, false), tail, end, 32, true).1 == end + 32 && Visited(end, 32) == {}
  {
    var c, end := Halves(head, false, false), head + 0x100_0000;
    assert Pass(c) == c;
    assert PageOf(end) == end == PageOf(end + 32);
  }

  lemma HalfRequests()
    ensures ActualSize(8_000_000) == 0x80_0000 && ActualSize(16) == 32
  {
    Pow2Of24();
    Pow2Steps(0x100_0000);
    assert Pow2(32);
    ExactSize(8_000_000, 0x80_0000);
    ExactSize(16, 32);
  }

  lemma {:induction false} ExactSize(size: nat, r: nat)
    requires size > 0 && Pow2(r) && size + HEADER <= r < 2 * (size + HEADER)
    ensures ActualSize(size) == r
  {
    ActualSizeTight(size);
    var x := ActualSize(size);
    if x > r { Pow2Gap(x, r); }
    if x < r { Pow2Gap(r, x); }
  }

  // ----- whole runs -----

  /** A run of the heap together with the pages that are mapped. */
  ghost predicate MappedRun(states: seq<State>, ops: seq<Op>, ptrs: seq<nat>, mapped: seq<set<nat>>) {
    Run(states, ops, ptrs) && |mapped| == |states| == |ops| + 1 && |ptrs| == |ops| &&
    forall i :: 0 <= i < |ops| ==> PagesAfter(states[i], states[i + 1], mapped[i], mapped[i + 1])
  }

  /** Requests that grow the heap need a block of at least a page. */
  ghost predicate LargeGrowth(states: seq<State>, ops: seq<Op>, n: nat)
    requires n <= |ops| < |states|
  {
    forall i :: 0 <= i < n && ops[i].OpAlloc? && Grew(states[i], states[i + 1]) ==> ActualSize(ops[i].size) >= PAGE_SIZE
  }

  /** From a heap that ends at a page boundary, every block of every state is on mapped pages as long as
      no growth is smaller than a page. */
  lemma {:induction false} RunMapped(states: seq<State>, ops: seq<Op>, ptrs: seq<nat>, mapped: seq<set<nat>>, n: nat)
    requires MappedRun(states, ops, ptrs, mapped) && n <= |ops| && LargeGrowth(states, ops, n)
    requires HeapMapped(states[0], mapped[0]) && states[0].heapEnd % PAGE_SIZE == 0
    ensures HeapMapped(states[n], mapped[n]) && states[n].heapEnd % PAGE_SIZE == 0
  {
    hide HeapMapped, Run, PagesAfter;
    if n > 0 {
      RunMapped(states, ops, ptrs, mapped, n - 1);
      assert PagesAfter(states[n - 1], states[n], mapped[n - 1], mapped[n]);
      RunAt(states, ops, ptrs, n - 1);
      StepMapped(states[n - 1], ops[n - 1], states[n], ptrs[n - 1], mapped[n - 1], mapped[n]);
    }
  }

  lemma RunAt(states: seq<State>, ops: seq<Op>, ptrs: seq<nat>, i: nat)
    requires Run(states, ops, ptrs) && i < |ops|
    ensures Inv(states[i]) && Legal(states[i], ops[i]) && states[i].chain != [] &&
        Step(states[i], ops[i], states[i + 1], ptrs[i])
  {
    RunTiles(states, ops, ptrs, i);
    hide Inv, Legal, Step;
  }

  lemma StepMapped(s: State, op: Op, s': State, ptr: nat, mapped: set<nat>, mapped': set<nat>)
    requires Inv(s) && Legal(s, op) && Step(s, op, s', ptr) && PagesAfter(s, s', mapped, mapped')
    requires HeapMapped(s, mapped) && s.heapEnd % PAGE_SIZE == 0
    requires op.OpAlloc? && Grew(s, s') ==> ActualSize(op.size) >= PAGE_SIZE
    ensures HeapMapped(s', mapped') && s'.heapEnd % PAGE_SIZE == 0
  {
    hide HeapMapped, PagesAfter, AllocShape, Inv, Legal, Kept;
    if op.OpAlloc? {
      AllocMapped(s, op.size, op.grow, s', ptr, mapped, mapped');
    } else {
      assert mapped <= mapped' by { MoreMapped(s, s', mapped, mapped'); }
      SameHeap(s, s', mapped, mapped');
    }
  }

  lemma MoreMapped(s: State, s': State, mapped: set<nat>, mapped': set<nat>)
    requires PagesAfter(s, s', mapped, mapped')
    ensures mapped <= mapped'
  {}

  lemma HeadStays(s: State, size: nat, grow: bool, s': State, ptr: nat)
    requires s.chain != [] && AllocShape(s, size, grow, s', ptr)
    ensures s'.head == s.head
  {}

  lemma WholePages(heapEnd: nat, size: nat, mapped: set<nat>)
    requires heapEnd % PAGE_SIZE == 0 && size % PAGE_SIZE == 0
    ensures (heapEnd + size) % PAGE_SIZE == 0 && SafeGrowth(heapEnd, size, mapped)
  {}

  lemma AllocMapped(s: State, size: nat, grow: bool, s': State, ptr: nat, mapped: set<nat>, mapped': set<nat>)
    requires Inv(s) && AllocShape(s, size, grow, s', ptr) && PagesAfter(s, s', mapped, mapped')
    requires HeapMapped(s, mapped) && s.heapEnd % PAGE_SIZE == 0
    requires Grew(s, s') ==> ActualSize(size) >= PAGE_SIZE
    ensures HeapMapped(s', mapped') && s'.heapEnd % PAGE_SIZE == 0
  {
    hide Inv, AllocShape, Choose, Visited, HeapMapped, SafeGrowth, Pow2, ActualSize;
    HeapOrdered(s);
    HeadStays(s, size, grow, s', ptr);
    AllocMappedIff(s, size, grow, s', ptr, mapped);
    if Grew(s, s') {
      GrowthAppends(s, size, grow, s', ptr);
      ActualSizeTight(size);
      Pow2Divides(ActualSize(size));
      WholePages(s.heapEnd, ActualSize(size), mapped);
      SameHeap(s', s', mapped + Visited(s.heapEnd, ActualSize(size)), mapped');
    } else {
      SameHeap(s, s', mapped, mapped');
    }
  }

  lemma SameHeap(s: State, s': State, mapped: set<nat>, mapped': set<nat>)
    requires HeapMapped(s, mapped) && mapped <= mapped' && s'.head == s.head && s'.heapEnd == s.heapEnd
    ensures HeapMapped(s', mapped')
  {
    forall a | s.head <= a < s.heapEnd ensures PageOf(a) in mapped' { assert PageOf(a) in mapped; }
  }

  lemma HeapOrdered(s: State)
    requires Inv(s)
    ensures s.head <= s.heapEnd && s.chain != []
  {
    TilesAt(s.chain, s.head, s.heapEnd, 0);
  }

  lemma {:induction false} Pow2Divides(n: nat)
    requires Pow2(n) && n >= PAGE_SIZE
    ensures n % PAGE_SIZE == 0
  {
    if n > PAGE_SIZE {
      assert Pow2(PAGE_SIZE) by { Pow2Times(16, 256); Pow2Times(16, 16); }
      Pow2Gap(n, PAGE_SIZE);
      Pow2Divides(n / 2);
    }
  }
}
