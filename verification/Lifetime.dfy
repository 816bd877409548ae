/** The whole life of an address space: its root is allocated, frames are taken from the allocator and
    mapped in any order, and at the end everything is released. */
module Lifetime {
  import opened Wrappers
  import opened FrameAllocator
  import opened Paging
  import opened AddressSpace

  /** `allocate_pml4`: a root whose lower half is empty and whose higher half is that of `current`. */
  function AllocateRoot(m: Memory, current: nat): (r: (Memory, Option<nat>))
    requires m.Valid() && current < |m.tables|
    ensures r.0.Valid() && |r.0.tables| == |m.tables|
    ensures r.1.Some? ==> r.1.value < |m.tables|
  {
    match LeastFree(m.used)
    case None => (m, None)
    case Some(k) =>
      (Memory(m.used[k.number := true],
              m.tables[k.number := EmptyTable()[..HIGHER_HALF_ENTRY] + m.tables[current][HIGHER_HALF_ENTRY..]]),
       Some(k.number))
  }

  // ----- runs -----

  /** A frame is taken from the allocator, `map_to` is called with one that was taken, or one that was
      taken or mapped gets other contents, by the kernel or by the process. */
  datatype Op = Take | Map(page: nat, frame: nat, flags: set<Flag>) | Store(frame: nat, contents: Table)

  /** The memory, the frames taken and not mapped, or not any more, and the pages mapped. */
  datatype Life = Life(m: Memory, pending: set<nat>, pages: set<nat>)

  ghost predicate Step(root: nat, s: Life, op: Op, s': Life) {
    s.m.Valid() &&
    match op
    case Take =>
      LeastFree(s.m.used).Some? &&
      var k := LeastFree(s.m.used).value.number;
      s' == Life(Memory(s.m.used[k := true], s.m.tables), s.pending + {k}, s.pages)
    case Map(page, frame, flags) =>
      frame in s.pending && page < LOWER_PAGES && Present in flags &&
      (Mapped(root, s, op, s') || Remapped(root, s, op, s') || Failed(root, s, op, s'))
    case Store(frame, contents) =>
      frame < |s.m.tables| && HoldsData(s, root, frame) &&
      s' == s.(m := Memory(s.m.used, s.m.tables[frame := contents]))
  }

  /** A new page gets the frame. */
  ghost predicate Mapped(root: nat, s: Life, op: Op, s': Life)
    requires s.m.Valid() && op.Map?
  {
    op.page !in s.pages && MapTo(s.m, root, op.page, op.frame, op.flags) == (s'.m, true) &&
    s'.pending == s.pending - {op.frame} && s'.pages == s.pages + {op.page}
  }

  /** A page that was mapped gets the frame; nobody knows the frame it had any more. */
  ghost predicate Remapped(root: nat, s: Life, op: Op, s': Life)
    requires s.m.Valid() && op.Map?
  {
    op.page in s.pages && MapTo(s.m, root, op.page, op.frame, op.flags) == (s'.m, true) &&
    Walk(s.m.tables, 4, root, Translate(op.page * PAGE_SIZE)).Some? &&
    s'.pending == s.pending - {op.frame} + {Walk(s.m.tables, 4, root, Translate(op.page * PAGE_SIZE)).value} &&
    s'.pages == s.pages
  }

  /** There are too few frames for the tables that the path lacks; those made so far stay. */
  ghost predicate Failed(root: nat, s: Life, op: Op, s': Life)
    requires s.m.Valid() && op.Map?
  {
    op.page !in s.pages && MapTo(s.m, root, op.page, op.frame, op.flags) == (s'.m, false) &&
    s'.pending == s.pending && s'.pages == s.pages
  }

  /** The frame was taken, and it may be mapped by now. */
  ghost predicate HoldsData(s: Life, root: nat, frame: nat) {
    frame in s.pending ||
    exists p :: p in s.pages && Walk(s.m.tables, 4, root, Translate(p * PAGE_SIZE)) == Some(frame)
  }

  /** Creating an address space from `m0` while `current` is the active root, and any operations after
      that. */
  ghost predicate Run(m0: Memory, current: nat, root: nat, states: seq<Life>, ops: seq<Op>) {
    m0.Valid() && current < |m0.tables| && m0.used[current] && |states| == |ops| + 1 &&
    AllocateRoot(m0, current) == (states[0].m, Some(root)) && states[0].pending == {} && states[0].pages == {} &&
    forall i :: 0 <= i < |ops| ==> Step(root, states[i], ops[i], states[i + 1])
  }

  predicate AllLow(pages: set<nat>) { forall p :: p in pages ==> LowPath(Translate(p * PAGE_SIZE)) }

  /** If a mapping failed, the indices of the entries it left are below 256. */
  ghost predicate StubLow(root: nat, s: Life, op: Op, s': Life) {
    s.m.Valid() && op.Map? && Failed(root, s, op, s') ==>
      LowPath(Made(s'.m.tables, 4, root, Translate(op.page * PAGE_SIZE)))
  }

  ghost predicate StubsLow(root: nat, states: seq<Life>, ops: seq<Op>, n: nat)
    requires n <= |ops| < |states|
  {
    forall i :: 0 <= i < n ==> StubLow(root, states[i], ops[i], states[i + 1])
  }

  // ----- the books -----

  /** The frames in use are those in use at the start and, separately, those of the address space and
      those taken and not yet mapped; the tables in use at the start are untouched and the higher half
      is shared. */
  ghost predicate Accounted(m0: Memory, s: Life, root: nat, current: nat) {
    m0.Valid() && Good(s.m, 4, root, LOWER) && |s.m.tables| == |m0.tables| &&
    current < |m0.tables| && root < |s.m.tables| &&
    Balanced(m0.used, s.m.used, Foot(s.m.tables, 4, root, LOWER), s.pending) &&
    (forall x :: 0 <= x < |m0.used| && m0.used[x] ==> s.m.tables[x] == m0.tables[x]) &&
    (forall i :: 256 <= i < 512 ==> s.m.tables[root][i] == m0.tables[current][i])
  }

  ghost predicate Balanced(before: seq<bool>, used: seq<bool>, foot: set<nat>, pending: set<nat>) {
    |used| == |before| && foot !! pending &&
    (forall x :: x in foot || x in pending ==> x < |before| && !before[x]) &&
    (forall x :: 0 <= x < |before| ==> used[x] == (before[x] || x in foot || x in pending))
  }

  /** The pages of the lower half that translate are those mapped. */
  ghost predicate Serves(s: Life, root: nat) {
    forall p :: 0 <= p < LOWER_PAGES ==>
      (Walk(s.m.tables, 4, root, Translate(p * PAGE_SIZE)).Some? <==> p in s.pages)
  }

  /** What every run keeps. */
  ghost predicate Kept(m0: Memory, s: Life, root: nat, current: nat) {
    Accounted(m0, s, root, current) && Serves(s, root) &&
    forall p :: p in s.pages ==> p < LOWER_PAGES
  }

  lemma RootKept(m0: Memory, current: nat, s: Life, root: nat)
    requires m0.Valid() && current < |m0.tables| && m0.used[current]
    requires AllocateRoot(m0, current) == (s.m, Some(root)) && s.pending == {} && s.pages == {}
    ensures Kept(m0, s, root, current)
  {
    var m := s.m;
    assert forall i :: 0 <= i < 256 ==> m.tables[root][i] == ZERO;
    assert forall i :: 0 <= i < 256 ==> KidFoot(m.tables, 4, root, i, LOWER) == {};
    assert Foot(m.tables, 4, root, LOWER) == {root};
    forall p | 0 <= p < LOWER_PAGES ensures Walk(m.tables, 4, root, Translate(p * PAGE_SIZE)) == None {
      PagePaths(p, p);
    }
  }

  lemma TakeKept(m0: Memory, s: Life, root: nat, current: nat, s': Life)
    requires Kept(m0, s, root, current) && Step(root, s, Take, s')
    ensures Kept(m0, s', root, current)
  {
    hide Translate, Tree, Foot, Walk, LowOnly;
  }

  lemma LowerPath(p: nat)
    requires p < LOWER_PAGES
    ensures Path(Translate(p * PAGE_SIZE), 4, LOWER.top, LOWER.below)
  {
    PagePaths(p, p);
    TopIndex(p * PAGE_SIZE);
  }

  /** A frame that is pending may be mapped at a page that is not. */
  lemma PendingMayMap(m0: Memory, s: Life, root: nat, current: nat, page: nat, frame: nat, flags: set<Flag>)
    requires Kept(m0, s, root, current) && frame in s.pending
    requires page < LOWER_PAGES && page !in s.pages && Present in flags
    ensures MayMap(s.m, 4, root, LOWER, Translate(page * PAGE_SIZE), frame, flags)
  {
    hide Translate, Tree, Foot, LowOnly;
    LowerPath(page);
  }

  lemma MapBalances(before: seq<bool>, used: seq<bool>, foot: set<nat>, pending: set<nat>, frame: nat,
      used': seq<bool>, foot': set<nat>)
    requires Balanced(before, used, foot, pending) && frame in pending && |used'| == |used|
    requires foot <= foot' && frame in foot'
    requires forall x :: x in foot' && x !in foot ==> x == frame || (x < |used| && !used[x])
    requires forall x :: 0 <= x < |used| ==> used'[x] == (used[x] || x in foot')
    ensures Balanced(before, used', foot', pending - {frame})
  {}

  lemma MapAccounted(m0: Memory, s: Life, root: nat, current: nat, op: Op, s': Life)
    requires Kept(m0, s, root, current) && op.Map? && Step(root, s, op, s') && Mapped(root, s, op, s')
    ensures Accounted(m0, s', root, current)
  {
    hide Translate, Tree, Foot, Walk, MapPath, MapEntry, LowKid, LowOnly, Balanced, Serves;
    var path := Translate(op.page * PAGE_SIZE);
    PendingMayMap(m0, s, root, current, op.page, op.frame, op.flags);
    MapPathGrows(s.m, 4, root, LOWER, path, op.frame, op.flags);
    RootEntry(s.m, root, path, op.frame, op.flags);
    LowerPath(op.page);
    MapBalances(m0.used, s.m.used, Foot(s.m.tables, 4, root, LOWER), s.pending, op.frame,
                s'.m.used, Foot(s'.m.tables, 4, root, LOWER));
    TablesKept(m0, s, root, Some(op.frame), s');
  }

  /** Whatever becomes of a mapping, of the root at most one entry of the lower half changes. */
  lemma {:induction false} RootEntry(m: Memory, root: nat, path: seq<nat>, frame: nat, flags: set<Flag>)
    requires MayMap(m, 4, root, LOWER, path, frame, flags)
    ensures var m' := MapPath(m, 4, root, path, frame, flags).0;
      root < |m.tables| == |m'.tables| && path[0] < 256 &&
      forall i :: 0 <= i < ENTRY_COUNT && i != path[0] ==> m'.tables[root][i] == m.tables[root][i]
  {
    hide MapPath, MapEntry, Tree, Foot, Walk, LowKid;
    RootIn(m, 4, root, LOWER);
    MapPathUnfolds(m, 4, root, path, frame, flags);
    if MapEntry(m, root, path[0], flags).1.Some? {
      LowOnlySiblings(m, 4, root, 256, path, frame, flags);
    } else {
      NoEntryWhenFull(m, root, path[0], flags);
    }
  }

  /** A failed mapping takes frames for tables alone. */
  lemma FailBalances(before: seq<bool>, used: seq<bool>, foot: set<nat>, pending: set<nat>, used': seq<bool>,
      foot': set<nat>)
    requires Balanced(before, used, foot, pending) && |used'| == |used| && foot <= foot'
    requires forall x :: x in foot' && x !in foot ==> x < |used| && !used[x]
    requires forall x :: 0 <= x < |used| ==> used'[x] == (used[x] || x in foot')
    ensures Balanced(before, used', foot', pending)
  {}

  lemma {:induction false} FailKept(m0: Memory, s: Life, root: nat, current: nat, op: Op, s': Life)
    requires Kept(m0, s, root, current) && op.Map? && Step(root, s, op, s') && Failed(root, s, op, s')
    ensures Kept(m0, s', root, current)
  {
    hide Translate, Tree, Foot, Walk, MapPath, Balanced;
    var path := Translate(op.page * PAGE_SIZE);
    PendingMayMap(m0, s, root, current, op.page, op.frame, op.flags);
    MapPathGrows(s.m, 4, root, LOWER, path, op.frame, op.flags);
    RootEntry(s.m, root, path, op.frame, op.flags);
    FailBalances(m0.used, s.m.used, Foot(s.m.tables, 4, root, LOWER), s.pending,
                 s'.m.used, Foot(s'.m.tables, 4, root, LOWER));
    TablesKept(m0, s, root, None, s');
    forall p | 0 <= p < LOWER_PAGES
      ensures Walk(s'.m.tables, 4, root, Translate(p * PAGE_SIZE)).Some? <==> p in s'.pages
    {
      LowerPath(p);
      MapPathTranslates(s.m, 4, root, LOWER, path, op.frame, op.flags, Translate(p * PAGE_SIZE));
    }
  }

  lemma {:induction false} PendingMayRemap(m0: Memory, s: Life, root: nat, current: nat, page: nat, frame: nat,
      flags: set<Flag>)
    requires Kept(m0, s, root, current) && frame in s.pending && page in s.pages && Present in flags
    ensures MayRemap(s.m, 4, root, LOWER, Translate(page * PAGE_SIZE), frame, flags)
  {
    hide Translate, Tree, Foot;
    LowerPath(page);
  }

  lemma RemapBalances(before: seq<bool>, used: seq<bool>, foot: set<nat>, pending: set<nat>, frame: nat, was: nat)
    requires Balanced(before, used, foot, pending) && frame in pending && was in foot
    ensures Balanced(before, used, foot - {was} + {frame}, pending - {frame} + {was})
  {}

  /** A page that is mapped again keeps the books, with its old frame among the frames that are not mapped. */
  lemma {:induction false} RemapKept(m0: Memory, s: Life, root: nat, current: nat, op: Op, s': Life)
    requires Kept(m0, s, root, current) && op.Map? && Step(root, s, op, s') && Remapped(root, s, op, s')
    ensures Kept(m0, s', root, current)
  {
    hide Translate, Tree, Foot, Walk, MapPath, MapEntry, Balanced, KidChanged;
    var path := Translate(op.page * PAGE_SIZE);
    LowerPath(op.page);
    PendingMayRemap(m0, s, root, current, op.page, op.frame, op.flags);
    var was := Walk(s.m.tables, 4, root, path).value;
    RemapSwaps(s.m, 4, root, LOWER, path, op.frame, op.flags);
    WalkInFoot(s.m.tables, 4, root, LOWER, path);
    RemapBalances(m0.used, s.m.used, Foot(s.m.tables, 4, root, LOWER), s.pending, op.frame, was);
    SwapKept(m0, s, root, op.frame, was, s');
    RemapIsolated(s.m, 4, root, LOWER, path, op.frame, op.flags);
    ChangedEntry(s.m.tables, s'.m.tables, 4, root, path[0],
                 Entry(op.flags, MapEntry(s.m, root, path[0], op.flags).1.value),
                 KidFoot(s.m.tables, 4, root, path[0], LOWER), LOWER);
    forall p | 0 <= p < LOWER_PAGES
      ensures Walk(s'.m.tables, 4, root, Translate(p * PAGE_SIZE)).Some? <==> p in s'.pages
    {
      LowerPath(p);
      PagePaths(p, op.page);
      RemapTranslates(s.m, 4, root, LOWER, path, op.frame, op.flags, Translate(p * PAGE_SIZE));
    }
  }

  lemma {:induction false} SwapKept(m0: Memory, s: Life, root: nat, frame: nat, was: nat, s': Life)
    requires s.m.Valid() && |s.m.tables| == |m0.tables| && m0.Valid()
    requires Balanced(m0.used, s.m.used, Foot(s.m.tables, 4, root, LOWER), s.pending)
    requires Swapped(s.m, s'.m, 4, root, LOWER, was, frame)
    requires forall x :: 0 <= x < |m0.used| && m0.used[x] ==> s.m.tables[x] == m0.tables[x]
    ensures forall x :: 0 <= x < |m0.used| && m0.used[x] ==> s'.m.tables[x] == m0.tables[x]
  {
    hide Foot;
  }

  /** A table in use from the start is outside the address space, so it is not written. */
  lemma {:induction false} TablesKept(m0: Memory, s: Life, root: nat, leaf: Option<nat>, s': Life)
    requires s.m.Valid() && s'.m.Valid() && |s.m.tables| == |s'.m.tables| == |m0.tables| && m0.Valid()
    requires Balanced(m0.used, s.m.used, Foot(s.m.tables, 4, root, LOWER), s.pending)
    requires leaf.Some? ==> leaf.value in s.pending
    requires Grown(s.m, s'.m, 4, root, LOWER, leaf)
    requires forall x :: 0 <= x < |m0.used| && m0.used[x] ==> s.m.tables[x] == m0.tables[x]
    ensures forall x :: 0 <= x < |m0.used| && m0.used[x] ==> s'.m.tables[x] == m0.tables[x]
  {
    hide Foot;
  }

  lemma MapServes(m0: Memory, s: Life, root: nat, current: nat, op: Op, s': Life)
    requires Kept(m0, s, root, current) && op.Map? && Step(root, s, op, s') && Mapped(root, s, op, s')
    ensures Serves(s', root)
  {
    hide Translate, Tree, Foot, Walk, MapPath, LowOnly, Accounted;
    var path := Translate(op.page * PAGE_SIZE);
    PendingMayMap(m0, s, root, current, op.page, op.frame, op.flags);
    forall p | 0 <= p < LOWER_PAGES
      ensures Walk(s'.m.tables, 4, root, Translate(p * PAGE_SIZE)).Some? <==> p in s'.pages
    {
      PagePaths(p, op.page);
      LowerPath(p);
      MapPathTranslates(s.m, 4, root, LOWER, path, op.frame, op.flags, Translate(p * PAGE_SIZE));
    }
  }

  /** If a page is new, its indices are below 256. */
  ghost predicate NewLow(s: Life, op: Op, s': Life) {
    op.Map? && op.page !in s.pages && op.page in s'.pages ==> LowPath(Translate(op.page * PAGE_SIZE))
  }

  /** What a step does to the shape of the tree. */
  lemma {:induction false} StepLow(m0: Memory, s: Life, root: nat, current: nat, op: Op, s': Life)
    requires Kept(m0, s, root, current) && Step(root, s, op, s')
    ensures LowOnly(s'.m.tables, 4, root, 256) <==>
      LowOnly(s.m.tables, 4, root, 256) && NewLow(s, op, s') && StubLow(root, s, op, s')
    ensures AllLow(s'.pages) <==> AllLow(s.pages) && NewLow(s, op, s')
  {
    hide Translate, Tree, Foot, Walk, MapPath, LowOnly, Accounted, Serves, LowPath, HoldsData, Made;
    match op
    case Take =>
    case Store(_, _) => StoreLow(m0, s, root, current, op, s');
    case Map(page, frame, flags) => MapLow(m0, s, root, current, op, s');
  }

  lemma {:induction false} MapLow(m0: Memory, s: Life, root: nat, current: nat, op: Op, s': Life)
    requires Kept(m0, s, root, current) && op.Map? && Step(root, s, op, s')
    ensures LowOnly(s'.m.tables, 4, root, 256) <==>
      LowOnly(s.m.tables, 4, root, 256) && NewLow(s, op, s') && StubLow(root, s, op, s')
    ensures AllLow(s'.pages) <==> AllLow(s.pages) && NewLow(s, op, s')
  {
    hide Translate, Tree, Foot, Walk, MapPath, LowOnly, Accounted, Serves, LowPath, HoldsData, Made;
    var path := Translate(op.page * PAGE_SIZE);
    if Remapped(root, s, op, s') {
      PendingMayRemap(m0, s, root, current, op.page, op.frame, op.flags);
      RemapLow(s.m, 4, root, 256, path, op.frame, op.flags);
    } else {
      PendingMayMap(m0, s, root, current, op.page, op.frame, op.flags);
      LowOnlyAfterMap(s.m, 4, root, 256, path, op.frame, op.flags);
      if Mapped(root, s, op, s') {
        MappedPath(m0, s, root, current, op, s');
        assert AllLow(s'.pages) <==> AllLow(s.pages) && LowPath(path);
      }
    }
  }

  lemma {:induction false} MappedPath(m0: Memory, s: Life, root: nat, current: nat, op: Op, s': Life)
    requires Kept(m0, s, root, current) && op.Map? && Step(root, s, op, s') && Mapped(root, s, op, s')
    ensures Made(s'.m.tables, 4, root, Translate(op.page * PAGE_SIZE)) == Translate(op.page * PAGE_SIZE)
  {
    hide Tree, Foot, MapPath, Accounted;
    LowerPath(op.page);
    MapServes(m0, s, root, current, op, s');
    MadeWhole(s'.m.tables, 4, root, Translate(op.page * PAGE_SIZE));
  }

  lemma {:induction false} DataIsNoTable(m0: Memory, s: Life, root: nat, current: nat, frame: nat)
    requires Kept(m0, s, root, current) && HoldsData(s, root, frame)
    ensures frame !in Foot(s.m.tables, 4, root, TablesOf(LOWER)) && frame < |m0.used| && !m0.used[frame]
    ensures root in Foot(s.m.tables, 4, root, TablesOf(LOWER))
  {
    hide Translate, Tree, Foot, Walk, LowOnly;
    TablesInFoot(s.m.tables, 4, root, LOWER);
    InFoot0(s.m.tables, 4, root, TablesOf(LOWER));
    if frame !in s.pending {
      var p :| p in s.pages && Walk(s.m.tables, 4, root, Translate(p * PAGE_SIZE)) == Some(frame);
      LowerPath(p);
      WalkInFoot(s.m.tables, 4, root, LOWER, Translate(p * PAGE_SIZE));
      LeafIsNoTable(s.m.tables, 4, root, LOWER, Translate(p * PAGE_SIZE));
    }
  }

  /** What is stored in frames of the address space has no effect on its books or its pages. */
  lemma StoreKept(m0: Memory, s: Life, root: nat, current: nat, op: Op, s': Life)
    requires Kept(m0, s, root, current) && op.Store? && Step(root, s, op, s')
    ensures Kept(m0, s', root, current)
  {
    hide Translate, Tree, Foot, LowOnly, AllLow, Balanced;
    var t, t' := s.m.tables, s'.m.tables;
    DataIsNoTable(m0, s, root, current, op.frame);
    DataFramed(t, t', 4, root, LOWER);
    hide Walk;
    forall p | 0 <= p < LOWER_PAGES
      ensures Walk(t', 4, root, Translate(p * PAGE_SIZE)) == Walk(t, 4, root, Translate(p * PAGE_SIZE))
    {
      LowerPath(p);
      WalkFramed(t, t', 4, root, TablesOf(LOWER), Translate(p * PAGE_SIZE));
    }
  }

  lemma {:induction false} StoreLow(m0: Memory, s: Life, root: nat, current: nat, op: Op, s': Life)
    requires Kept(m0, s, root, current) && op.Store? && Step(root, s, op, s')
    ensures LowOnly(s'.m.tables, 4, root, 256) == LowOnly(s.m.tables, 4, root, 256)
  {
    hide Translate, Tree, Foot, LowOnly, Walk, Accounted, Serves;
    DataIsNoTable(m0, s, root, current, op.frame);
    LowOnlyData(s.m.tables, s'.m.tables, 4, root, 256);
  }

  lemma StepKept(m0: Memory, s: Life, root: nat, current: nat, op: Op, s': Life)
    requires Kept(m0, s, root, current) && Step(root, s, op, s')
    ensures Kept(m0, s', root, current)
  {
    hide Accounted, Serves, MapTo, HoldsData, Walk, Translate;
    match op
    case Take => TakeKept(m0, s, root, current, s');
    case Map(_, _, _) =>
      if Mapped(root, s, op, s') {
        MapAccounted(m0, s, root, current, op, s');
        MapServes(m0, s, root, current, op, s');
      } else if Remapped(root, s, op, s') {
        RemapKept(m0, s, root, current, op, s');
      } else {
        FailKept(m0, s, root, current, op, s');
      }
    case Store(_, _) => StoreKept(m0, s, root, current, op, s');
  }

  /** Whatever is taken and mapped in whatever order, the books hold. */
  lemma {:induction false} RunKept(m0: Memory, current: nat, root: nat, states: seq<Life>, ops: seq<Op>, n: nat)
    requires Run(m0, current, root, states, ops) && n <= |ops|
    ensures Kept(m0, states[n], root, current)
    decreases n
  {
    hide Kept, Step, AllocateRoot;
    if n == 0 {
      RootKept(m0, current, states[0], root);
    } else {
      RunKept(m0, current, root, states, ops, n - 1);
      StepKept(m0, states[n - 1], root, current, ops[n - 1], states[n]);
    }
  }

  /** The tree is below index 256 exactly when all pages are, and what failed mappings left. */
  lemma {:induction false} RunLow(m0: Memory, current: nat, root: nat, states: seq<Life>, ops: seq<Op>, n: nat)
    requires Run(m0, current, root, states, ops) && n <= |ops|
    ensures LowOnly(states[n].m.tables, 4, root, 256) <==>
      AllLow(states[n].pages) && StubsLow(root, states, ops, n)
    decreases n
  {
    hide Kept, Step, AllocateRoot, LowOnly, AllLow, NewLow, StubLow, StubsLow;
    if n == 0 {
      RootLow(m0, current, states, ops, root);
    } else {
      RunLow(m0, current, root, states, ops, n - 1);
      RunKept(m0, current, root, states, ops, n - 1);
      StepLow(m0, states[n - 1], root, current, ops[n - 1], states[n]);
      StubsGrow(root, states, ops, n - 1);
    }
  }

  lemma StubsGrow(root: nat, states: seq<Life>, ops: seq<Op>, n: nat)
    requires n < |ops| < |states|
    ensures StubsLow(root, states, ops, n + 1) <==>
      StubsLow(root, states, ops, n) && StubLow(root, states[n], ops[n], states[n + 1])
  {
    hide StubLow;
    if StubsLow(root, states, ops, n) && StubLow(root, states[n], ops[n], states[n + 1]) {
      forall i | 0 <= i < n + 1 ensures StubLow(root, states[i], ops[i], states[i + 1]) {}
    }
  }

  lemma {:induction false} RootLow(m0: Memory, current: nat, states: seq<Life>, ops: seq<Op>, root: nat)
    requires Run(m0, current, root, states, ops)
    ensures LowOnly(states[0].m.tables, 4, root, 256) && AllLow(states[0].pages) && StubsLow(root, states, ops, 0)
  {
    hide Step;
    assert forall i :: 0 <= i < 256 ==> states[0].m.tables[root][i] == ZERO;
  }

  // ----- runs that go on -----

  /** A run, to be continued. */
  datatype Trace = Trace(m0: Memory, current: nat, root: nat, states: seq<Life>, ops: seq<Op>) {
    ghost predicate Valid() { Run(m0, current, root, states, ops) }

    ghost function Last(): Life
      requires Valid()
    {
      states[|ops|]
    }

    function Then(op: Op, s: Life): Trace { Trace(m0, current, root, states + [s], ops + [op]) }
  }

  lemma TraceGrows(t: Trace, op: Op, s: Life)
    requires t.Valid() && Step(t.root, t.Last(), op, s)
    ensures t.Then(op, s).Valid() && t.Then(op, s).Last() == s
  {
    hide Step, AllocateRoot;
    var t' := t.Then(op, s);
    forall i | 0 <= i < |t'.ops| ensures Step(t'.root, t'.states[i], t'.ops[i], t'.states[i + 1]) {
      if i < |t.ops| { assert t'.ops[i] == t.ops[i] && t'.states[i + 1] == t.states[i + 1]; }
    }
  }

  lemma TraceKept(t: Trace)
    requires t.Valid()
    ensures Kept(t.m0, t.Last(), t.root, t.current) && t.Last().m.Valid() && Good(t.Last().m, 4, t.root, LOWER)
    ensures |t.Last().m.used| == |t.m0.used|
    ensures forall x :: x in t.Last().pending ==> x < |t.m0.used| && t.Last().m.used[x]
  {
    hide Step, AllocateRoot, Tree, Foot, Walk, LowOnly, Serves, AllLow;
    RunKept(t.m0, t.current, t.root, t.states, t.ops, |t.ops|);
  }

  // ----- the end -----

  /** Creating an address space, taking frames, calling `map_to` with them for any pages of the lower half
      in any order, and releasing it gives the bitmap back exactly when every frame taken is mapped at the
      end, every index of every page is below 256, and so is what failed mappings left: `free` skips the
      entries from 256 on at every level. Nothing that was in use at the start is released, and no table
      that was in use at the start, so in particular no table of the shared higher half, is written. */
  lemma {:induction false} LifeConserves(m0: Memory, current: nat, root: nat, states: seq<Life>, ops: seq<Op>)
    requires Run(m0, current, root, states, ops)
    ensures var s := states[|ops|];
      var after := Release(s.m.tables, s.m.used, 4, root);
      (after == m0.used <==> s.pending == {} && AllLow(s.pages) && StubsLow(root, states, ops, |ops|)) &&
      Spared(m0, s.m.tables, after)
  {
    hide Translate, Tree, Foot, Walk, MapPath, LowOnly, Release, AllocateRoot, Step, Serves, AllLow, StubsLow;
    var s := states[|ops|];
    RunKept(m0, current, root, states, ops, |ops|);
    RunLow(m0, current, root, states, ops, |ops|);
    Narrowed(s.m.tables, 4, root, 256);
    ReleaseExact(s.m.tables, s.m.used, 4, root);
    FreeReachesAll(s.m.tables, 4, root, 256);
    ReleasedIff(m0.used, s.m.used, Foot(s.m.tables, 4, root, LOWER), s.pending,
                Foot(s.m.tables, 4, root, FREED), Release(s.m.tables, s.m.used, 4, root));
  }

  /** After a page was mapped again, the frame it had before is not mapped, and releasing loses it. */
  lemma {:induction false} RemapLeaks(m0: Memory, current: nat, root: nat, states: seq<Life>, ops: seq<Op>)
    requires Run(m0, current, root, states, ops) && ops != []
    requires var n := |ops| - 1; ops[n].Map? && ops[n].page in states[n].pages
    ensures var s := states[|ops|];
      s.pending != {} && Release(s.m.tables, s.m.used, 4, root) != m0.used
  {
    hide Translate, Tree, Foot, Walk, MapPath, LowOnly, Release, AllocateRoot, Serves, AllLow, StubsLow;
    LifeConserves(m0, current, root, states, ops);
    var n := |ops| - 1;
    assert Step(root, states[n], ops[n], states[n + 1]);
  }

  /** What was in use is in use, and the tables in it are what they were. */
  predicate Spared(m0: Memory, tables: Tables, used: seq<bool>) {
    m0.Valid() && |tables| == |m0.tables| && |used| == |m0.used| &&
    forall x :: 0 <= x < |m0.used| && m0.used[x] ==> used[x] && tables[x] == m0.tables[x]
  }

  lemma ReleasedIff(before: seq<bool>, used: seq<bool>, foot: set<nat>, pending: set<nat>, freed: set<nat>,
      after: seq<bool>)
    requires Balanced(before, used, foot, pending) && freed <= foot && Cleared(used, after, freed)
    ensures after == before <==> pending == {} && freed == foot
    ensures forall x :: 0 <= x < |before| && before[x] ==> after[x]
  {
    if pending != {} {
      var x :| x in pending;
      assert after[x] && !before[x];
    }
    if freed != foot {
      var x :| x in foot && x !in freed;
      assert after[x] && !before[x];
    }
  }

  // ----- a leak -----

  function FreeFrames(used: seq<bool>): nat
  {
    CountFull(used);
    |used| - CountUsed(used)
  }

  lemma TakeOne(used: seq<bool>)
    requires FreeFrames(used) > 0
    ensures LeastFree(used).Some? && LeastFree(used).value.number < |used| && !used[LeastFree(used).value.number]
    ensures FreeFrames(used[LeastFree(used).value.number := true]) == FreeFrames(used) - 1
  {
    CountFull(used);
    CountAfterTake(used, LeastFree(used).value.number);
  }

  /** Five free frames are enough to create an address space and to map an ordinary page, that of
      address 0x100000, into it; releasing it then loses frames for good. */
  lemma OnePageLeaks(m0: Memory, current: nat) returns (root: nat, states: seq<Life>, ops: seq<Op>)
    requires m0.Valid() && current < |m0.tables| && m0.used[current] && FreeFrames(m0.used) >= 5
    ensures Run(m0, current, root, states, ops) && states[|ops|].pages == {0x100} && states[|ops|].pending == {}
    ensures Release(states[|ops|].m.tables, states[|ops|].m.used, 4, root) != m0.used
  {
    hide Translate, Tree, Foot, Walk, MapPath, Release, AllocateRoot, FreeFrames, Serves, Accounted, LowOnly;
    var flags := {Present, Writable, UserAccessible};
    var m1, r1 := FirstRoot(m0, current);
    root := r1;
    var s0 := Life(m1, {}, {});
    RootKept(m0, current, s0, root);
    AccountedParts(m0, s0, root, current);
    TakeOne(m1.used);
    var k := LeastFree(m1.used).value.number;
    var s1 := Life(Memory(m1.used[k := true], m1.tables), {k}, {});
    assert Step(root, s0, Take, s1);
    TakeKept(m0, s0, root, current, s1);
    AccountedParts(m0, s1, root, current);
    PendingMayMap(m0, s1, root, current, 0x100, k, flags);
    ThreeAreEnough(s1, root, 0x100, k, flags);
    var s2 := Life(MapTo(s1.m, root, 0x100, k, flags).0, {}, {0x100});
    assert {k} - {k} == {} && {} + {0x100} == {0x100};
    states, ops := [s0, s1, s2], [Take, Map(0x100, k, flags)];
    assert forall i :: 0 <= i < |ops| ==> Step(root, states[i], ops[i], states[i + 1]);
    LifeConserves(m0, current, root, states, ops);
    HighPage();
    assert 0x100 in s2.pages;
  }

  lemma HighPage()
    ensures !LowPath(Translate(0x100 * PAGE_SIZE))
  {
    assert Translate(0x100 * PAGE_SIZE)[3] == 256;
  }

  lemma FirstRoot(m0: Memory, current: nat) returns (m: Memory, root: nat)
    requires m0.Valid() && current < |m0.tables| && FreeFrames(m0.used) >= 5
    ensures AllocateRoot(m0, current) == (m, Some(root)) && FreeFrames(m.used) >= 4
  {
    TakeOne(m0.used);
    m, root := AllocateRoot(m0, current).0, AllocateRoot(m0, current).1.value;
  }

  lemma AccountedParts(m0: Memory, s: Life, root: nat, current: nat)
    requires Accounted(m0, s, root, current)
    ensures s.m.Valid() && Good(s.m, 4, root, LOWER) && |s.m.used| == |m0.used|
  {}

  /** At most three tables are missing. */
  lemma ThreeAreEnough(s: Life, root: nat, page: nat, frame: nat, flags: set<Flag>)
    requires FreeFrames(s.m.used) >= 3
    requires MayMap(s.m, 4, root, LOWER, Translate(page * PAGE_SIZE), frame, flags)
    ensures MapTo(s.m, root, page, frame, flags).1
  {
    hide Translate, MapPath, Foot, Tree, Walk;
    SucceedsIff(s.m, 4, root, LOWER, Translate(page * PAGE_SIZE), frame, flags);
    MissingBound(s.m.tables, 4, root, Translate(page * PAGE_SIZE));
  }

  lemma {:induction false} MissingBound(t: Tables, level: nat, f: nat, path: seq<nat>)
    requires level >= 1 && Path(path, level, ENTRY_COUNT, ENTRY_COUNT)
    ensures Missing(t, level, f, path) <= level - 1
    decreases level
  {
    if level > 1 && f < |t| && t[f][path[0]].IsMapped() { MissingBound(t, level - 1, t[f][path[0]].frame, path[1..]); }
  }
}
