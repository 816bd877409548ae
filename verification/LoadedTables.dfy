/** What the loader takes for granted, shown of the page tables: in an address space that was built by
    `map_to` with fresh frames no frame backs two pages, every new frame is unused, and mapping a page
    updates one place of the map from pages to frames. */
module LoadedTables {
  import opened Wrappers
  import opened FrameAllocator
  import opened Paging
  import opened AddressSpace
  import opened Lifetime
  import U = UserMemory
  import L = Loader
  import A = Argv

  /** The pages of the lower half and the frames behind them. */
  ghost function Mapping(t: Tables, root: nat): map<nat, nat> {
    map p | 0 <= p < LOWER_PAGES && Walk(t, 4, root, Translate(p * PAGE_SIZE)).Some?
      :: Walk(t, 4, root, Translate(p * PAGE_SIZE)).value
  }

  // ----- no frame twice -----

  /** In a tree two paths to the same frame are the same path. */
  lemma {:induction false} WalkInjective(t: Tables, level: nat, f: nat, s: Scope, p: seq<nat>, q: seq<nat>)
    requires s.owned && Tree(t, level, f, s) && Path(p, level, s.top, s.below) && Path(q, level, s.top, s.below)
    requires Walk(t, level, f, p).Some? && Walk(t, level, f, p) == Walk(t, level, f, q)
    ensures p == q
    decreases level
  {
    if level > 0 {
      var i, j := p[0], q[0];
      if i == j {
        assert KidTree(t, level, f, i, s);
        WalkInjective(t, level - 1, t[f][i].frame, s.Kid(), p[1..], q[1..]);
        assert p == [i] + p[1..] && q == [j] + q[1..];
      } else {
        assert KidFoot(t, level, f, i, s) !! KidFoot(t, level, f, j, s);
        WalkInFoot(t, level - 1, t[f][i].frame, s.Kid(), p[1..]);
        WalkInFoot(t, level - 1, t[f][j].frame, s.Kid(), q[1..]);
      }
    }
  }

  /** No frame backs two pages, and every frame that backs one is in use. */
  lemma MappingInjective(m: Memory, root: nat)
    requires Good(m, 4, root, LOWER)
    ensures U.Injective(Mapping(m.tables, root))
    ensures forall p :: p in Mapping(m.tables, root) ==>
      Mapping(m.tables, root)[p] < |m.used| && m.used[Mapping(m.tables, root)[p]]
  {
    hide Translate, Tree, Foot, Walk;
    var table := Mapping(m.tables, root);
    forall p | p in table ensures table[p] < |m.used| && m.used[table[p]] {
      LowerPath(p);
      WalkInFoot(m.tables, 4, root, LOWER, Translate(p * PAGE_SIZE));
    }
    forall p, q | p in table && q in table && table[p] == table[q] ensures p == q {
      LowerPath(p);
      LowerPath(q);
      WalkInjective(m.tables, 4, root, LOWER, Translate(p * PAGE_SIZE), Translate(q * PAGE_SIZE));
      PagePaths(p, q);
    }
  }

  // ----- one page of the loader -----

  datatype Request = Request(page: nat, flags: set<Flag>)

  /** Takes a frame from the allocator and maps it, as the loader does page by page. */
  function MapFresh(m: Memory, root: nat, r: Request): (res: (Memory, bool))
    requires m.Valid()
    ensures res.0.Valid() && |res.0.tables| == |m.tables|
  {
    match LeastFree(m.used)
    case None => (m, false)
    case Some(k) => MapTo(Memory(m.used[k.number := true], m.tables), root, r.page, k.number, r.flags)
  }

  lemma {:induction false} FreshIsMapPath(m: Memory, root: nat, r: Request)
    requires m.Valid() && MapFresh(m, root, r).1
    ensures LeastFree(m.used).Some? && LeastFree(m.used).value.number < |m.used|
    ensures var k := LeastFree(m.used).value.number;
      MapFresh(m, root, r) ==
      MapPath(Memory(m.used[k := true], m.tables), 4, root, Translate(r.page * PAGE_SIZE), k, r.flags)
  {
    hide MapPath, Translate;
  }

  /** The state between taking a frame and mapping it. */
  function Taken(s: Life): Life
    requires LeastFree(s.m.used).Some?
  {
    var k := LeastFree(s.m.used).value.number;
    Life(Memory(s.m.used[k := true], s.m.tables), s.pending + {k}, s.pages)
  }

  /** The frame behind a page, which a new mapping of the page replaces. */
  ghost function Replaced(t: Tables, root: nat, page: nat): set<nat> {
    match Walk(t, 4, root, Translate(page * PAGE_SIZE))
    case None => {}
    case Some(was) => {was}
  }

  /** The state after one more page. */
  ghost predicate OneMore(s: Life, root: nat, r: Request, s': Life) {
    s.m.Valid() && r.page < LOWER_PAGES && Present in r.flags && MapFresh(s.m, root, r) == (s'.m, true) &&
    s'.pending == s.pending + Replaced(s.m.tables, root, r.page) && s'.pages == s.pages + {r.page}
  }

  /** A page of the loader is a frame taken and then mapped. */
  lemma FreshIsTwoSteps(m0: Memory, s: Life, root: nat, current: nat, r: Request, s': Life)
    requires Kept(m0, s, root, current) && OneMore(s, root, r, s')
    ensures LeastFree(s.m.used).Some? && Step(root, s, Take, Taken(s))
    ensures var op := Map(r.page, LeastFree(s.m.used).value.number, r.flags);
      Step(root, Taken(s), op, s') && if r.page in s.pages then Remapped(root, Taken(s), op, s')
      else Mapped(root, Taken(s), op, s')
  {
    hide MapPath, Translate, Tree, Foot, Walk, Good;
    var k := LeastFree(s.m.used).value.number;
    FreshIsFree(s.m.used);
    assert k !in s.pending;
    assert Taken(s).pending - {k} == s.pending;
    assert Walk(s.m.tables, 4, root, Translate(r.page * PAGE_SIZE)).Some? <==> r.page in s.pages;
    if r.page in s.pages { assert s.pages + {r.page} == s.pages; }
  }

  lemma FreshIsFree(used: seq<bool>)
    requires LeastFree(used).Some?
    ensures LeastFree(used).value.number < |used| && !used[LeastFree(used).value.number]
  {}

  /** Mapping a fresh frame is an update of the map, at a new page or at one that was mapped. */
  lemma MapFreshUpdates(m0: Memory, s: Life, root: nat, current: nat, r: Request, s': Life)
    requires Kept(m0, s, root, current) && OneMore(s, root, r, s')
    ensures LeastFree(s.m.used).Some?
    ensures Mapping(s'.m.tables, root) == Mapping(s.m.tables, root)[r.page := LeastFree(s.m.used).value.number]
  {
    hide Translate, Tree, Foot, Walk, MapPath, Kept, MapFresh;
    FreshIsTwoSteps(m0, s, root, current, r, s');
    FreshIsMapPath(s.m, root, r);
    var k := LeastFree(s.m.used).value.number;
    var s1, path := Taken(s), Translate(r.page * PAGE_SIZE);
    TakeKept(m0, s, root, current, s1);
    forall p | 0 <= p < LOWER_PAGES
      ensures Walk(s'.m.tables, 4, root, Translate(p * PAGE_SIZE)) ==
              if p == r.page then Some(k) else Walk(s.m.tables, 4, root, Translate(p * PAGE_SIZE))
    {
      PagePaths(p, r.page);
      LowerPath(p);
      if r.page in s.pages {
        PendingMayRemap(m0, s1, root, current, r.page, k, r.flags);
        RemapTranslates(s1.m, 4, root, LOWER, path, k, r.flags, Translate(p * PAGE_SIZE));
      } else {
        PendingMayMap(m0, s1, root, current, r.page, k, r.flags);
        MapPathTranslates(s1.m, 4, root, LOWER, path, k, r.flags, Translate(p * PAGE_SIZE));
      }
    }
  }

  // ----- frames stay in use -----

  lemma {:induction false} MapPathUses(m: Memory, level: nat, f: nat, path: seq<nat>, frame: nat, flags: set<Flag>,
      x: nat)
    requires m.Valid() && level >= 1 && Path(path, level, ENTRY_COUNT, ENTRY_COUNT) && x < |m.used| && m.used[x]
    ensures x < |MapPath(m, level, f, path, frame, flags).0.used| && MapPath(m, level, f, path, frame, flags).0.used[x]
    decreases level
  {
    if level > 1 && f < |m.tables| {
      var (m1, k) := MapEntry(m, f, path[0], flags);
      if k.Some? { MapPathUses(m1, level - 1, k.value, path[1..], frame, flags, x); }
    }
  }

  /** The frame that a request takes is in use afterwards, and so is all that was. */
  lemma MapFreshUses(m: Memory, root: nat, r: Request, x: nat)
    requires m.Valid() && MapFresh(m, root, r).1 && x < |m.used|
    ensures LeastFree(m.used).Some? && LeastFree(m.used).value.number < |m.used|
    ensures m.used[x] || x == LeastFree(m.used).value.number ==>
      x < |MapFresh(m, root, r).0.used| && MapFresh(m, root, r).0.used[x]
  {
    hide Translate, MapPath, MapFresh;
    FreshIsMapPath(m, root, r);
    var k := LeastFree(m.used).value.number;
    if m.used[x] || x == k {
      MapPathUses(Memory(m.used[k := true], m.tables), 4, root, Translate(r.page * PAGE_SIZE), k, r.flags, x);
    }
  }

  // ----- runs -----

  /** Requests for pages of the lower half, with PRESENT. */
  predicate WellFormed(requests: seq<Request>) {
    forall i :: 0 <= i < |requests| ==> requests[i].page < LOWER_PAGES && Present in requests[i].flags
  }

  /** An address space that is created and then gets page after page. */
  ghost predicate MapRun(m0: Memory, current: nat, root: nat, states: seq<Memory>, requests: seq<Request>) {
    m0.Valid() && current < |m0.tables| && m0.used[current] && WellFormed(requests) &&
    |states| == |requests| + 1 && AllocateRoot(m0, current) == (states[0], Some(root)) &&
    forall i :: 0 <= i < |requests| ==>
      states[i].Valid() &&
      MapFresh(states[i], root, requests[i]) == (states[i + 1], true)
  }

  lemma RunStep(m0: Memory, current: nat, root: nat, states: seq<Memory>, requests: seq<Request>, i: nat)
    requires MapRun(m0, current, root, states, requests) && i < |requests|
    ensures OneMore(LifeAt(states, requests, root, i), root, requests[i], LifeAt(states, requests, root, i + 1))
    ensures states[i].Valid() && MapFresh(states[i], root, requests[i]) == (states[i + 1], true)
  {
    hide Walk, Translate, MapPath, MapFresh;
    assert PagesOf(requests, i + 1) == PagesOf(requests, i) + {requests[i].page};
  }

  /** The pages of the first `n` requests. */
  function PagesOf(requests: seq<Request>, n: nat): set<nat>
    requires n <= |requests|
  {
    set i | 0 <= i < n :: requests[i].page
  }

  /** The frames that the first `n` requests replaced. */
  ghost function Lost(states: seq<Memory>, requests: seq<Request>, root: nat, n: nat): set<nat>
    requires n < |states| && n <= |requests|
  {
    if n == 0 then {}
    else Lost(states, requests, root, n - 1) + Replaced(states[n - 1].tables, root, requests[n - 1].page)
  }

  ghost function LifeAt(states: seq<Memory>, requests: seq<Request>, root: nat, n: nat): Life
    requires n < |states| && n <= |requests|
  {
    Life(states[n], Lost(states, requests, root, n), PagesOf(requests, n))
  }

  /** The loader's run is one of the runs of an address space's life. */
  lemma {:induction false} MapRunIsRun(m0: Memory, current: nat, root: nat, states: seq<Memory>,
      requests: seq<Request>, n: nat) returns (lives: seq<Life>, ops: seq<Op>)
    requires MapRun(m0, current, root, states, requests) && n <= |requests|
    ensures Run(m0, current, root, lives, ops) && lives[|ops|] == LifeAt(states, requests, root, n)
    ensures StubsLow(root, lives, ops, |ops|)
    decreases n
  {
    hide MapRun, Run, Step, OneMore, Kept, LifeAt, StubLow, StubsLow, MapFresh, Mapped, Remapped, LeastFree, Lost;
    RunShape(m0, current, root, states, requests);
    if n == 0 {
      lives, ops := FirstLife(m0, current, root, states, requests);
    } else {
      var before, done := MapRunIsRun(m0, current, root, states, requests, n - 1);
      RunIs(m0, current, root, before, done);
      RunKept(m0, current, root, before, done, |done|);
      RunStep(m0, current, root, states, requests, n - 1);
      var s, s', r := LifeAt(states, requests, root, n - 1), LifeAt(states, requests, root, n), requests[n - 1];
      FreshIsTwoSteps(m0, s, root, current, r, s');
      var more := Map(r.page, LeastFree(s.m.used).value.number, r.flags);
      NoStub(root, s, Take, Taken(s));
      NoStub(root, Taken(s), more, s');
      RunThen(m0, current, root, before, done, Take, Taken(s));
      RunThen(m0, current, root, before + [Taken(s)], done + [Take], more, s');
      lives, ops := before + [Taken(s)] + [s'], done + [Take] + [more];
    }
  }

  lemma FirstLife(m0: Memory, current: nat, root: nat, states: seq<Memory>, requests: seq<Request>)
      returns (lives: seq<Life>, ops: seq<Op>)
    requires MapRun(m0, current, root, states, requests)
    ensures Run(m0, current, root, lives, ops) && lives[|ops|] == LifeAt(states, requests, root, 0)
    ensures StubsLow(root, lives, ops, |ops|)
  {
    lives, ops := [LifeAt(states, requests, root, 0)], [];
    assert PagesOf(requests, 0) == {};
  }

  lemma RunThen(m0: Memory, current: nat, root: nat, lives: seq<Life>, ops: seq<Op>, op: Op, s: Life)
    requires Run(m0, current, root, lives, ops) && StubsLow(root, lives, ops, |ops|)
    requires Step(root, lives[|ops|], op, s) && StubLow(root, lives[|ops|], op, s)
    ensures Run(m0, current, root, lives + [s], ops + [op]) && (lives + [s])[|ops| + 1] == s
    ensures StubsLow(root, lives + [s], ops + [op], |ops| + 1)
  {
    hide Step, AllocateRoot, StubLow;
    var lives', ops' := lives + [s], ops + [op];
    forall i | 0 <= i < |ops'|
      ensures Step(root, lives'[i], ops'[i], lives'[i + 1]) && StubLow(root, lives'[i], ops'[i], lives'[i + 1])
    {
      if i < |ops| { assert lives'[i] == lives[i] && ops'[i] == ops[i] && lives'[i + 1] == lives[i + 1]; }
    }
  }

  /** A step that does not fail leaves no stub. */
  lemma NoStub(root: nat, s: Life, op: Op, s': Life)
    requires Step(root, s, op, s') && (op.Map? ==> Mapped(root, s, op, s') || Remapped(root, s, op, s'))
    ensures StubLow(root, s, op, s')
  {
    hide MapPath, Translate, Walk, Made;
  }

  lemma MapRunKeeps(m0: Memory, current: nat, root: nat, states: seq<Memory>, requests: seq<Request>, n: nat)
    requires MapRun(m0, current, root, states, requests) && n <= |requests|
    ensures Kept(m0, LifeAt(states, requests, root, n), root, current)
    ensures Good(states[n], 4, root, LOWER) && |states[n].used| == |m0.used|
  {
    hide MapRun, Run, Accounted, Serves, LifeAt, Good;
    RunShape(m0, current, root, states, requests);
    var lives, ops := MapRunIsRun(m0, current, root, states, requests, n);
    RunKept(m0, current, root, lives, ops, |ops|);
    AccountedParts(m0, LifeAt(states, requests, root, n), root, current);
    LifeIs(states, requests, root, n);
  }

  lemma {:induction false} LifeIs(states: seq<Memory>, requests: seq<Request>, root: nat, n: nat)
    requires n < |states| && n <= |requests|
    ensures LifeAt(states, requests, root, n) ==
      Life(states[n], Lost(states, requests, root, n), PagesOf(requests, n))
  {}

  // ----- what loading costs -----

  predicate DistinctPages(requests: seq<Request>, n: nat)
    requires n <= |requests|
  {
    forall i, j :: 0 <= i < j < n ==> requests[i].page != requests[j].page
  }

  /** A request replaces a frame exactly when its page was asked for before. */
  lemma ReplacedIff(m0: Memory, s: Life, root: nat, current: nat, page: nat)
    requires Kept(m0, s, root, current) && page < LOWER_PAGES
    ensures Replaced(s.m.tables, root, page) == {} <==> page !in s.pages
  {
    hide Walk, Translate, Accounted;
  }

  lemma DistinctMore(requests: seq<Request>, n: nat)
    requires 0 < n <= |requests|
    ensures DistinctPages(requests, n) <==>
      DistinctPages(requests, n - 1) && requests[n - 1].page !in PagesOf(requests, n - 1)
  {
    var page := requests[n - 1].page;
    if page in PagesOf(requests, n - 1) {
      var i :| 0 <= i < n - 1 && requests[i].page == page;
      assert !DistinctPages(requests, n);
    } else if DistinctPages(requests, n - 1) {
      forall i, j | 0 <= i < j < n ensures requests[i].page != requests[j].page {
        if j == n - 1 { assert requests[i].page in PagesOf(requests, n - 1); }
      }
    }
  }

  /** Nothing is lost exactly when no page is asked for twice. */
  lemma {:induction false} LostIff(m0: Memory, current: nat, root: nat, states: seq<Memory>, requests: seq<Request>,
      n: nat)
    requires MapRun(m0, current, root, states, requests) && n <= |requests|
    ensures |states| == |requests| + 1 && (Lost(states, requests, root, n) == {} <==> DistinctPages(requests, n))
    decreases n
  {
    hide MapRun, Kept, Lost, DistinctPages, PagesOf, Replaced, Good, LifeAt;
    RunShape(m0, current, root, states, requests);
    if n == 0 {
      NothingLost(states, requests, root);
    } else {
      LostIff(m0, current, root, states, requests, n - 1);
      MapRunKeeps(m0, current, root, states, requests, n - 1);
      LifeIs(states, requests, root, n - 1);
      LostMore(states, requests, root, n);
      DistinctMore(requests, n);
      PageIsLow(m0, current, root, states, requests, n - 1);
      ReplacedIff(m0, LifeAt(states, requests, root, n - 1), root, current, requests[n - 1].page);
    }
  }

  lemma {:induction false} NothingLost(states: seq<Memory>, requests: seq<Request>, root: nat)
    requires states != []
    ensures Lost(states, requests, root, 0) == {} && DistinctPages(requests, 0)
  {}

  lemma PageIsLow(m0: Memory, current: nat, root: nat, states: seq<Memory>, requests: seq<Request>, i: nat)
    requires MapRun(m0, current, root, states, requests) && i < |requests|
    ensures requests[i].page < LOWER_PAGES
  {}

  lemma LostMore(states: seq<Memory>, requests: seq<Request>, root: nat, n: nat)
    requires 0 < n < |states| && n <= |requests|
    ensures Lost(states, requests, root, n) ==
      Lost(states, requests, root, n - 1) + Replaced(states[n - 1].tables, root, requests[n - 1].page)
  {}

  /** Loading pages and releasing the address space gives the bitmap back exactly when no page is asked for
      twice and every index of every page is below 256. */
  lemma {:induction false} LoadConserves(m0: Memory, current: nat, root: nat, states: seq<Memory>,
      requests: seq<Request>)
    requires MapRun(m0, current, root, states, requests)
    ensures var n := |requests|;
      Release(states[n].tables, states[n].used, 4, root) == m0.used <==>
      DistinctPages(requests, n) && AllLow(PagesOf(requests, n))
  {
    hide MapRun, Run, Release, AllLow, LifeAt, StubsLow, Lost, DistinctPages;
    var n := |requests|;
    RunShape(m0, current, root, states, requests);
    var lives, ops := MapRunIsRun(m0, current, root, states, requests, n);
    LifeIs(states, requests, root, n);
    LifeConserves(m0, current, root, lives, ops);
    LostIff(m0, current, root, states, requests, n);
  }

  /** The frame taken by request `i`. */
  function FrameAt(states: seq<Memory>, i: nat): nat
    requires i < |states|
  {
    match LeastFree(states[i].used) case Some(f) => f.number case None => 0
  }

  lemma {:induction false} StaysUsed(m0: Memory, current: nat, root: nat, states: seq<Memory>, requests: seq<Request>,
      i: nat, k: nat, x: nat)
    requires MapRun(m0, current, root, states, requests) && i <= k <= |requests| && x < |states[i].used| &&
        states[i].used[x]
    ensures x < |states[k].used| && states[k].used[x]
    decreases k
  {
    hide MapFresh, AllocateRoot;
    if i < k {
      StaysUsed(m0, current, root, states, requests, i, k - 1, x);
      RunStep(m0, current, root, states, requests, k - 1);
      MapFreshUses(states[k - 1], root, requests[k - 1], x);
    }
  }

  /** Request `i` takes a frame that was not in use and stays in use. */
  lemma FrameTaken(m0: Memory, current: nat, root: nat, states: seq<Memory>, requests: seq<Request>, i: nat, j: nat)
    requires MapRun(m0, current, root, states, requests) && i < j <= |requests|
    ensures |states[i].used| == |states[j].used| == |m0.used|
    ensures FrameAt(states, i) < |m0.used| && !states[i].used[FrameAt(states, i)] && states[j].used[FrameAt(states, i)]
  {
    hide WellFormed, AllocateRoot, MapFresh, Kept;
    MapRunKeeps(m0, current, root, states, requests, i);
    MapRunKeeps(m0, current, root, states, requests, j);
    RunStep(m0, current, root, states, requests, i);
    FreshIsMapPath(states[i], root, requests[i]);
    MapFreshUses(states[i], root, requests[i], FrameAt(states, i));
    StaysUsed(m0, current, root, states, requests, i + 1, j, FrameAt(states, i));
  }

  /** What the loader will be given by requests `i` up to `j`. */
  function Answers(states: seq<Memory>, i: nat, j: nat): seq<Option<nat>>
    requires i <= j < |states|
  {
    seq(j - i, k requires 0 <= k < j - i => Some(FrameAt(states, i + k)))
  }

  /** At every point of the run the loader's assumptions hold: the map is injective and backed, and the
      frames it will be given are unused and distinct. */
  lemma LoaderReady(m0: Memory, current: nat, root: nat, states: seq<Memory>, requests: seq<Request>, i: nat, j: nat,
      phys: seq<Byte>)
    requires MapRun(m0, current, root, states, requests) && i <= j <= |requests| && |phys| == |m0.used| * PAGE_SIZE
    ensures L.Valid(L.Space(phys, Mapping(states[i].tables, root), Answers(states, i, j)))
  {
    hide Kept, WellFormed, AllocateRoot, MapFresh, Mapping, Good;
    MapRunKeeps(m0, current, root, states, requests, i);
    MappingInjective(states[i], root);
    var s := L.Space(phys, Mapping(states[i].tables, root), Answers(states, i, j));
    forall k | 0 <= k < |s.answers| ensures L.Unused(s, s.answers[k].value) {
      FrameTaken(m0, current, root, states, requests, i + k, j);
      NotYetMapped(m0, current, root, states, requests, i, i + k);
    }
    forall a, b | 0 <= a < b < |s.answers| ensures s.answers[a] != s.answers[b] {
      FrameTaken(m0, current, root, states, requests, i + a, i + b);
      FrameTaken(m0, current, root, states, requests, i + b, j);
    }
  }

  /** The frame of a later request does not back any page yet. */
  lemma {:induction false} NotYetMapped(m0: Memory, current: nat, root: nat, states: seq<Memory>,
      requests: seq<Request>, i: nat, k: nat)
    requires MapRun(m0, current, root, states, requests) && i <= k < |requests|
    ensures FrameAt(states, k) !in Mapping(states[i].tables, root).Values
  {
    hide Kept, WellFormed, AllocateRoot, MapFresh, Mapping, Good;
    MapRunKeeps(m0, current, root, states, requests, i);
    MappingInjective(states[i], root);
    FrameTaken(m0, current, root, states, requests, k, k + 1);
    var table := Mapping(states[i].tables, root);
    forall p | p in table ensures table[p] != FrameAt(states, k) {
      StaysUsed(m0, current, root, states, requests, i, k, table[p]);
    }
  }

  lemma AnswersNext(states: seq<Memory>, i: nat, n: nat)
    requires i < n < |states|
    ensures var answers := Answers(states, i, n);
      answers != [] && answers[0] == Some(FrameAt(states, i)) && answers[1..] == Answers(states, i + 1, n)
  {
    hide FrameAt;
    var a, b := Answers(states, i, n)[1..], Answers(states, i + 1, n);
    forall k | 0 <= k < |a| ensures a[k] == b[k] {}
  }

  /** A request puts its frame behind its page. */
  lemma RequestUpdates(m0: Memory, current: nat, root: nat, states: seq<Memory>, requests: seq<Request>, i: nat)
    requires MapRun(m0, current, root, states, requests) && i < |requests|
    ensures FrameAt(states, i) < |m0.used|
    ensures Mapping(states[i + 1].tables, root) ==
      Mapping(states[i].tables, root)[requests[i].page := FrameAt(states, i)]
  {
    hide MapRun, Kept, Mapping, FrameAt, Good, LifeAt, OneMore, MapFresh, Lost, PagesOf, LeastFree;
    RunShape(m0, current, root, states, requests);
    MapRunKeeps(m0, current, root, states, requests, i);
    RunStep(m0, current, root, states, requests, i);
    FrameTaken(m0, current, root, states, requests, i, i + 1);
    MapFreshUpdates(m0, LifeAt(states, requests, root, i), root, current, requests[i],
                    LifeAt(states, requests, root, i + 1));
    LifeIs(states, requests, root, i);
    LifeIs(states, requests, root, i + 1);
    FrameIs(states, i);
  }

  /** One page on the tables is one page on the map. */
  lemma TablePage(m0: Memory, current: nat, root: nat, states: seq<Memory>, requests: seq<Request>, i: nat,
      phys: seq<Byte>) returns (phys': seq<Byte>)
    requires MapRun(m0, current, root, states, requests) && i < |requests| && |phys| == |m0.used| * PAGE_SIZE
    ensures |phys'| == |phys|
    ensures var n := |requests|;
      L.MapPage(L.Space(phys, Mapping(states[i].tables, root), Answers(states, i, n)), requests[i].page) ==
      Some(L.Space(phys', Mapping(states[i + 1].tables, root), Answers(states, i + 1, n)))
  {
    hide MapRun, Mapping, FrameAt, Answers, Fill;
    RunShape(m0, current, root, states, requests);
    RequestUpdates(m0, current, root, states, requests, i);
    AnswersNext(states, i, |requests|);
    var f := FrameAt(states, i);
    FitsIn(f, |m0.used|);
    phys' := U.Poke(phys, f * PAGE_SIZE, Fill(PAGE_SIZE, 0));
  }

  lemma FitsIn(f: nat, n: nat)
    requires f < n
    ensures (f + 1) * PAGE_SIZE <= n * PAGE_SIZE
  {}

  /** Mapping consecutive pages on the tables is what the loader does on the map. */
  lemma {:induction false} TablesLoad(m0: Memory, current: nat, root: nat, states: seq<Memory>, requests: seq<Request>,
                                      i: nat, j: nat, from: nat, phys: seq<Byte>)
    requires MapRun(m0, current, root, states, requests) && i <= j <= |requests| && |phys| == |m0.used| * PAGE_SIZE
    requires forall k :: i <= k < j ==> requests[k].page == from + (k - i)
    ensures var n := |requests|;
      var r := L.MapPages(L.Space(phys, Mapping(states[i].tables, root), Answers(states, i, n)), from, from + (j - i));
      r.Some? && r.value.table == Mapping(states[j].tables, root) && r.value.answers == Answers(states, j, n) &&
      |r.value.phys| == |phys|
    decreases j - i
  {
    hide MapRun, Mapping, Answers, L.MapPage;
    RunShape(m0, current, root, states, requests);
    if i < j {
      var phys' := TablePage(m0, current, root, states, requests, i, phys);
      TablesLoad(m0, current, root, states, requests, i + 1, j, from + 1, phys');
    }
  }

  lemma FrameIs(states: seq<Memory>, i: nat)
    requires i < |states| && LeastFree(states[i].used).Some?
    ensures FrameAt(states, i) == LeastFree(states[i].used).value.number
  {}

  // ----- whole files -----

  /** From request `i` on, the requests are the pages of the LOAD segments, in order. */
  predicate Requested(headers: seq<L.Segment>, requests: seq<Request>, i: nat)
    decreases |headers|
  {
    if headers == [] then i == |requests|
    else if !headers[0].load then Requested(headers[1..], requests, i)
    else
      var n := PageCount(headers[0]);
      i + n <= |requests| &&
      (forall k :: i <= k < i + n ==> requests[k].page == L.FirstPage(headers[0]) + (k - i)) &&
      Requested(headers[1..], requests, i + n)
  }

  function PageCount(h: L.Segment): nat { L.EndPage(h) - L.FirstPage(h) }

  /** A file that is loaded while the tables get the pages of its segments: the loader ends with the map
      that the tables stand for. */
  lemma {:induction false} TablesLoadAll(m0: Memory, current: nat, root: nat, states: seq<Memory>,
      requests: seq<Request>, i: nat, phys: seq<Byte>, file: seq<Byte>, headers: seq<L.Segment>, brk: nat)
    requires MapRun(m0, current, root, states, requests) && i <= |requests| && |phys| == |m0.used| * PAGE_SIZE
    requires Requested(headers, requests, i) && L.AllLoadable(file, headers)
    ensures var n := |requests|;
      var r := L.LoadAll(L.Space(phys, Mapping(states[i].tables, root), Answers(states, i, n)), file, headers, brk);
      r.Ok? && r.value.0.table == Mapping(states[n].tables, root)
    decreases |headers|
  {
    hide MapRun, Mapping, Answers, L.LoadSegment, L.Loadable, L.Spares, L.Valid;
    assert |states| == |requests| + 1 by { RunShape(m0, current, root, states, requests); }
    if headers != [] {
      var h := headers[0];
      if !h.load {
        TablesLoadAll(m0, current, root, states, requests, i, phys, file, headers[1..], brk);
      } else {
        assert L.Loadable(file, h);
        var phys' := SegmentOnTables(m0, current, root, states, requests, i, phys, file, h);
        var j, brk' := i + PageCount(h), h.vaddr + h.memz;
        TablesLoadAll(m0, current, root, states, requests, j, phys', file, headers[1..], brk');
      }
    }
  }

  lemma RunShape(m0: Memory, current: nat, root: nat, states: seq<Memory>, requests: seq<Request>)
    requires MapRun(m0, current, root, states, requests)
    ensures |states| == |requests| + 1
  {}

  lemma SegmentOnTables(m0: Memory, current: nat, root: nat, states: seq<Memory>, requests: seq<Request>, i: nat,
      phys: seq<Byte>, file: seq<Byte>, h: L.Segment) returns (phys': seq<Byte>)
    requires MapRun(m0, current, root, states, requests) && |phys| == |m0.used| * PAGE_SIZE && L.Loadable(file, h)
    requires i + PageCount(h) <= |requests|
    requires forall k :: i <= k < i + PageCount(h) ==> requests[k].page == L.FirstPage(h) + (k - i)
    ensures |phys'| == |phys|
    ensures var n, j := |requests|, i + PageCount(h);
      L.LoadSegment(L.Space(phys, Mapping(states[i].tables, root), Answers(states, i, n)), file, h) ==
      Ok(L.Space(phys', Mapping(states[j].tables, root), Answers(states, j, n)))
  {
    hide Mapping, Answers, L.LoadSegment, L.Valid, WellFormed, AllocateRoot, MapFresh, L.MapPages, U.Copies;
    var n, j := |requests|, i + PageCount(h);
    var s := L.Space(phys, Mapping(states[i].tables, root), Answers(states, i, n));
    LoaderReady(m0, current, root, states, requests, i, n, phys);
    TablesLoad(m0, current, root, states, requests, i, j, L.FirstPage(h), phys);
    L.SegmentCopied(s, file, h);
    var s1 := L.MapPages(s, L.FirstPage(h), L.EndPage(h)).value;
    phys' := L.LoadSegment(s, file, h).value.phys;
    U.CopiesSize(s1.phys, s1.table, h.vaddr, file[h.offset..h.offset + h.filez], phys');
  }

  /** The byte that the four-level tables lead to. */
  ghost predicate Behind(t: Tables, root: nat, phys: seq<Byte>, va: nat, b: Byte) {
    var w := Walk(t, 4, root, Translate(va / PAGE_SIZE * PAGE_SIZE));
    w.Some? && w.value * PAGE_SIZE + va % PAGE_SIZE < |phys| && phys[w.value * PAGE_SIZE + va % PAGE_SIZE] == b
  }

  /** Loading a whole file on the page tables: every address of every LOAD segment leads to the file's
      byte, or to zero behind the file's part. */
  lemma {:induction false} FileOnTables(m0: Memory, current: nat, root: nat, states: seq<Memory>,
      requests: seq<Request>,
      phys: seq<Byte>, file: seq<Byte>, headers: seq<L.Segment>, i: nat, va: nat)
    requires MapRun(m0, current, root, states, requests) && |phys| == |m0.used| * PAGE_SIZE
    requires Requested(headers, requests, 0) && L.AllLoadable(file, headers)
    requires i < |headers| && headers[i].load && headers[i].vaddr <= va < headers[i].vaddr + headers[i].memz
    ensures headers[i].offset + headers[i].filez <= |file|
    ensures var n := |requests|;
      var r := L.LoadAll(L.Space(phys, Mapping(states[0].tables, root), Answers(states, 0, n)), file, headers, 0);
      r.Ok? && Behind(states[n].tables, root, r.value.0.phys, va, L.Expected(file, headers[i], va))
  {
    hide WellFormed, AllocateRoot, MapFresh, Mapping, Answers, Requested;
    hide L.LoadAll, L.Valid, L.Expected, L.Loadable, L.Spares, L.Outside, L.InSegment;
    var n := |requests|;
    LoaderReady(m0, current, root, states, requests, 0, n, phys);
    TablesLoadAll(m0, current, root, states, requests, 0, phys, file, headers, 0);
    L.MemorySpared(file, headers, i, va);
    var s := L.Space(phys, Mapping(states[0].tables, root), Answers(states, 0, n));
    L.LoadAllDelivers(s, file, headers, 0, i, va);
    SeesIsBehind(states[n].tables, root, L.LoadAll(s, file, headers, 0).value.0, va, L.Expected(file, headers[i], va));
  }

  // ----- files whose segments share pages -----

  /** No page is mapped for two LOAD segments. */
  predicate RangesApart(headers: seq<L.Segment>) {
    forall i, j :: 0 <= i < j < |headers| && headers[i].load && headers[j].load ==>
      L.EndPage(headers[i]) <= L.FirstPage(headers[j]) || L.EndPage(headers[j]) <= L.FirstPage(headers[i])
  }

  predicate InRange(h: L.Segment, page: nat) { h.load && L.FirstPage(h) <= page < L.EndPage(h) }

  /** A request is for a page of some segment, and every page of every segment is asked for. */
  lemma {:induction false} RequestOf(headers: seq<L.Segment>, requests: seq<Request>, i: nat, k: nat) returns (j: nat)
    requires Requested(headers, requests, i) && i <= k < |requests|
    ensures j < |headers| && InRange(headers[j], requests[k].page)
    decreases |headers|
  {
    if !headers[0].load {
      j := RequestOf(headers[1..], requests, i, k);
      j := j + 1;
    } else if k < i + PageCount(headers[0]) {
      j := 0;
    } else {
      j := RequestOf(headers[1..], requests, i + PageCount(headers[0]), k);
      j := j + 1;
    }
  }

  lemma {:induction false} RequestFor(headers: seq<L.Segment>, requests: seq<Request>, i: nat, j: nat, page: nat)
      returns (k: nat)
    requires Requested(headers, requests, i) && j < |headers| && InRange(headers[j], page)
    ensures i <= k < |requests| && requests[k].page == page
    decreases |headers|
  {
    if j == 0 {
      k := i + (page - L.FirstPage(headers[0]));
    } else if !headers[0].load {
      k := RequestFor(headers[1..], requests, i, j - 1, page);
    } else {
      k := RequestFor(headers[1..], requests, i + PageCount(headers[0]), j - 1, page);
    }
  }

  predicate DistinctFrom(requests: seq<Request>, i: nat) {
    forall a, b :: i <= a < b < |requests| ==> requests[a].page != requests[b].page
  }

  predicate FirstApart(headers: seq<L.Segment>)
    requires headers != []
  {
    forall j :: 0 < j < |headers| && headers[0].load && headers[j].load ==>
      L.EndPage(headers[0]) <= L.FirstPage(headers[j]) || L.EndPage(headers[j]) <= L.FirstPage(headers[0])
  }

  lemma RangesSplit(headers: seq<L.Segment>)
    requires headers != []
    ensures RangesApart(headers) <==> FirstApart(headers) && RangesApart(headers[1..])
  {
    hide L.EndPage, L.FirstPage;
    var rest := headers[1..];
    if RangesApart(headers) {
      forall i, j | 0 <= i < j < |rest| && rest[i].load && rest[j].load
        ensures L.EndPage(rest[i]) <= L.FirstPage(rest[j]) || L.EndPage(rest[j]) <= L.FirstPage(rest[i])
      {
        assert rest[i] == headers[i + 1] && rest[j] == headers[j + 1];
      }
    }
    if FirstApart(headers) && RangesApart(rest) {
      forall i, j | 0 <= i < j < |headers| && headers[i].load && headers[j].load
        ensures L.EndPage(headers[i]) <= L.FirstPage(headers[j]) || L.EndPage(headers[j]) <= L.FirstPage(headers[i])
      {
        if i > 0 { assert rest[i - 1] == headers[i] && rest[j - 1] == headers[j]; }
      }
    }
  }

  /** No page is asked for twice exactly when the segments share none. */
  lemma {:induction false} DistinctIff(headers: seq<L.Segment>, requests: seq<Request>, i: nat)
    requires Requested(headers, requests, i)
    ensures DistinctFrom(requests, i) <==> RangesApart(headers)
    decreases |headers|
  {
    if headers != [] {
      RangesSplit(headers);
      var n := if headers[0].load then PageCount(headers[0]) else 0;
      DistinctIff(headers[1..], requests, i + n);
      if headers[0].load { FirstIff(headers, requests, i); }
    }
  }

  /** The requests of the first segment differ among themselves, and from the others exactly when their
      segments share no page with it. */
  lemma {:induction false} FirstIff(headers: seq<L.Segment>, requests: seq<Request>, i: nat)
    requires Requested(headers, requests, i) && headers != [] && headers[0].load
    ensures DistinctFrom(requests, i) <==> FirstApart(headers) && DistinctFrom(requests, i + PageCount(headers[0]))
  {
    var n, rest := PageCount(headers[0]), headers[1..];
    if FirstApart(headers) && DistinctFrom(requests, i + n) {
      forall a, b | i <= a < b < |requests| ensures requests[a].page != requests[b].page {
        if a < i + n <= b {
          var j := RequestOf(rest, requests, i + n, b);
          assert rest[j] == headers[j + 1];
        }
      }
    }
    if DistinctFrom(requests, i) {
      forall j | 0 < j < |headers| && headers[j].load
        ensures L.EndPage(headers[0]) <= L.FirstPage(headers[j]) || L.EndPage(headers[j]) <= L.FirstPage(headers[0])
      {
        if L.FirstPage(headers[j]) < L.EndPage(headers[0]) && L.FirstPage(headers[0]) < L.EndPage(headers[j]) {
          SharedPage(headers, requests, i, j);
        }
      }
    }
  }

  lemma {:induction false} SharedPage(headers: seq<L.Segment>, requests: seq<Request>, i: nat, j: nat)
    requires Requested(headers, requests, i) && 0 < j < |headers| && headers[0].load && headers[j].load
    requires L.FirstPage(headers[j]) < L.EndPage(headers[0]) && L.FirstPage(headers[0]) < L.EndPage(headers[j])
    ensures !DistinctFrom(requests, i)
  {
    var a, b := L.FirstPage(headers[0]), L.FirstPage(headers[j]);
    var page := if a < b then b else a;
    assert headers[1..][j - 1] == headers[j];
    var k := RequestFor(headers[1..], requests, i + PageCount(headers[0]), j - 1, page);
    assert requests[i + (page - a)].page == page;
  }

  /** Loading a file and releasing its address space gives the bitmap back exactly when no page is mapped
      for two segments, the page behind each counted, and every index of every page is below 256. */
  lemma {:induction false} FileConserves(m0: Memory, current: nat, root: nat, states: seq<Memory>,
      requests: seq<Request>,
      headers: seq<L.Segment>)
    requires MapRun(m0, current, root, states, requests) && Requested(headers, requests, 0)
    ensures var n := |requests|;
      Release(states[n].tables, states[n].used, 4, root) == m0.used <==>
      RangesApart(headers) && AllLow(PagesOf(requests, n))
  {
    hide MapRun, Release, AllLow, RangesApart, Requested, PagesOf;
    RunShape(m0, current, root, states, requests);
    LoadConserves(m0, current, root, states, requests);
    DistinctIff(headers, requests, 0);
  }

  /** A segment that ends at a page boundary right before the next one can be loaded with it, and shares a
      page with it. */
  lemma AdjacentSegments(file: seq<Byte>, a: L.Segment, b: L.Segment)
    requires a.load && b.load && L.Loadable(file, a) && L.Loadable(file, b)
    requires (a.vaddr + a.memz) % PAGE_SIZE == 0 && b.vaddr == a.vaddr + a.memz
    ensures L.AllLoadable(file, [a, b]) && !RangesApart([a, b])
  {
    var headers := [a, b];
    assert L.Spares(b, a);
    assert L.EndPage(a) == L.FirstPage(b) + 1 && L.FirstPage(a) <= L.FirstPage(b) < L.EndPage(b);
    assert !(L.EndPage(headers[0]) <= L.FirstPage(headers[1]) || L.EndPage(headers[1]) <= L.FirstPage(headers[0]));
  }

  // ----- enough frames -----

  /** A mapping takes no more frames than the path has tables below the root. */
  lemma {:induction false} MapPathCost(m: Memory, level: nat, f: nat, path: seq<nat>, frame: nat, flags: set<Flag>)
    requires m.Valid() && level >= 1 && Path(path, level, ENTRY_COUNT, ENTRY_COUNT)
    ensures var m' := MapPath(m, level, f, path, frame, flags).0;
      |m'.used| == |m.used| && CountUsed(m'.used) <= CountUsed(m.used) + level - 1
    decreases level
  {
    hide CountUsed;
    if level > 1 && f < |m.tables| {
      EntryCost(m, f, path[0], flags);
      var (m1, k) := MapEntry(m, f, path[0], flags);
      if k.Some? { MapPathCost(m1, level - 1, k.value, path[1..], frame, flags); }
    }
  }

  lemma EntryCost(m: Memory, f: nat, i: nat, flags: set<Flag>)
    requires m.Valid() && f < |m.tables| && i < ENTRY_COUNT
    ensures var m' := MapEntry(m, f, i, flags).0;
      |m'.used| == |m.used| && CountUsed(m'.used) <= CountUsed(m.used) + 1
  {
    if !m.tables[f][i].IsMapped() && LeastFree(m.used).Some? { CountAfterTake(m.used, LeastFree(m.used).value.number); }
  }

  /** Four free frames are enough for one more page. */
  lemma FreshSucceeds(m0: Memory, s: Life, root: nat, current: nat, r: Request)
    requires Kept(m0, s, root, current) && s.m.Valid() && FreeFrames(s.m.used) >= 4
    requires r.page < LOWER_PAGES && Present in r.flags
    ensures var (m', ok) := MapFresh(s.m, root, r);
      ok && |m'.used| == |s.m.used| && FreeFrames(m'.used) >= FreeFrames(s.m.used) - 4
  {
    hide Translate, Tree, Foot, Walk, MapPath, Kept, CountUsed;
    TakeOne(s.m.used);
    var k, s1 := LeastFree(s.m.used).value.number, Taken(s);
    assert Step(root, s, Take, s1);
    TakeKept(m0, s, root, current, s1);
    if r.page in s.pages {
      PendingMayRemap(m0, s1, root, current, r.page, k, r.flags);
      RemapSwaps(s1.m, 4, root, LOWER, Translate(r.page * PAGE_SIZE), k, r.flags);
    } else {
      PendingMayMap(m0, s1, root, current, r.page, k, r.flags);
      ThreeAreEnough(s1, root, r.page, k, r.flags);
    }
    MapPathCost(s1.m, 4, root, Translate(r.page * PAGE_SIZE), k, r.flags);
  }

  /** Well-formed requests are served whenever there is a free frame for the root and four for each of
      them. */
  lemma {:induction false} MapRunExists(m0: Memory, current: nat, requests: seq<Request>, n: nat)
      returns (root: nat, states: seq<Memory>)
    requires m0.Valid() && current < |m0.tables| && m0.used[current] && WellFormed(requests) && n <= |requests|
    requires FreeFrames(m0.used) >= 1 + 4 * |requests|
    ensures MapRun(m0, current, root, states, requests[..n])
    ensures FreeFrames(states[n].used) >= FreeFrames(m0.used) - 1 - 4 * n
    decreases n
  {
    hide MapFresh, FreeFrames, Kept, Good, LifeAt, Lost, PagesOf, AllocateRoot;
    if n == 0 {
      root, states := RootExists(m0, current);
    } else {
      var before;
      root, before := MapRunExists(m0, current, requests, n - 1);
      var done, r := requests[..n - 1], requests[n - 1];
      MapRunKeeps(m0, current, root, before, done, n - 1);
      LifeIs(before, done, root, n - 1);
      ValidPart(before[n - 1], root);
      FreshSucceeds(m0, LifeAt(before, done, root, n - 1), root, current, r);
      states := before + [MapFresh(before[n - 1], root, r).0];
      RunGoesOn(m0, current, root, before, done, r);
      assert requests[..n] == done + [r];
    }
  }

  lemma ValidPart(m: Memory, root: nat)
    requires Good(m, 4, root, LOWER)
    ensures m.Valid()
  {}

  lemma RootExists(m0: Memory, current: nat) returns (root: nat, states: seq<Memory>)
    requires m0.Valid() && current < |m0.tables| && m0.used[current] && FreeFrames(m0.used) >= 1
    ensures MapRun(m0, current, root, states, []) && FreeFrames(states[0].used) == FreeFrames(m0.used) - 1
  {
    TakeOne(m0.used);
    root, states := AllocateRoot(m0, current).1.value, [AllocateRoot(m0, current).0];
  }

  lemma RunGoesOn(m0: Memory, current: nat, root: nat, states: seq<Memory>, requests: seq<Request>, r: Request)
    requires MapRun(m0, current, root, states, requests) && WellFormed(requests + [r])
    requires states[|requests|].Valid() && MapFresh(states[|requests|], root, r).1
    ensures MapRun(m0, current, root, states + [MapFresh(states[|requests|], root, r).0], requests + [r])
  {
    hide MapFresh, AllocateRoot, WellFormed;
    var n := |requests|;
    var states', requests' := states + [MapFresh(states[n], root, r).0], requests + [r];
    forall i | 0 <= i < n + 1 ensures states'[i].Valid() &&
        MapFresh(states'[i], root, requests'[i]) == (states'[i + 1], true) {
      if i < n { assert states'[i] == states[i] && requests'[i] == requests[i] && states'[i + 1] == states[i + 1]; }
    }
  }

  /** Every address of a segment leads through the tables to its byte. */
  ghost predicate SegmentThere(t: Tables, root: nat, phys: seq<Byte>, file: seq<Byte>, h: L.Segment) {
    h.offset + h.filez <= |file| &&
    forall va: nat :: h.vaddr <= va < h.vaddr + h.memz ==> Behind(t, root, phys, va, L.Expected(file, h, va))
  }

  ghost predicate FileThere(t: Tables, root: nat, phys: seq<Byte>, file: seq<Byte>, headers: seq<L.Segment>) {
    forall i :: 0 <= i < |headers| && headers[i].load ==> SegmentThere(t, root, phys, file, headers[i])
  }

  /** A loadable file whose pages are asked for is loaded whenever there are enough free frames, and then
      every address of every LOAD segment leads to its byte. */
  lemma FileLoads(m0: Memory, current: nat, requests: seq<Request>, phys: seq<Byte>, file: seq<Byte>,
      headers: seq<L.Segment>) returns (root: nat, states: seq<Memory>)
    requires m0.Valid() && current < |m0.tables| && m0.used[current] && |phys| == |m0.used| * PAGE_SIZE
    requires WellFormed(requests) && Requested(headers, requests, 0) && L.AllLoadable(file, headers)
    requires FreeFrames(m0.used) >= 1 + 4 * |requests|
    ensures MapRun(m0, current, root, states, requests)
    ensures var n := |requests|;
      var r := L.LoadAll(L.Space(phys, Mapping(states[0].tables, root), Answers(states, 0, n)), file, headers, 0);
      r.Ok? && FileThere(states[n].tables, root, r.value.0.phys, file, headers)
  {
    hide WellFormed, AllocateRoot, MapFresh, Mapping, Answers, Requested, MapRun, FreeFrames;
    hide L.LoadAll, L.Expected, L.Spares, L.AllLoadable, SegmentThere;
    root, states := MapRunExists(m0, current, requests, |requests|);
    assert requests[..|requests|] == requests;
    RunShape(m0, current, root, states, requests);
    TablesLoadAll(m0, current, root, states, requests, 0, phys, file, headers, 0);
    var n := |requests|;
    var s := L.Space(phys, Mapping(states[0].tables, root), Answers(states, 0, n));
    var phys' := L.LoadAll(s, file, headers, 0).value.0.phys;
    forall i | 0 <= i < |headers| && headers[i].load
      ensures SegmentThere(states[n].tables, root, phys', file, headers[i])
    {
      AllThere(m0, current, root, states, requests, phys, file, headers, i);
    }
  }

  lemma {:induction false} AllThere(m0: Memory, current: nat, root: nat, states: seq<Memory>, requests: seq<Request>,
      phys: seq<Byte>, file: seq<Byte>, headers: seq<L.Segment>, i: nat)
    requires MapRun(m0, current, root, states, requests) && |phys| == |m0.used| * PAGE_SIZE
    requires Requested(headers, requests, 0) && L.AllLoadable(file, headers) && i < |headers| && headers[i].load
    ensures var n := |requests|;
      var r := L.LoadAll(L.Space(phys, Mapping(states[0].tables, root), Answers(states, 0, n)), file, headers, 0);
      r.Ok? && SegmentThere(states[n].tables, root, r.value.0.phys, file, headers[i])
  {
    hide AllocateRoot, MapFresh, WellFormed, Mapping, Answers, Requested, Behind, L.LoadAll, L.Expected, L.Spares;
    TablesLoadAll(m0, current, root, states, requests, 0, phys, file, headers, 0);
    var h, n := headers[i], |requests|;
    var s := L.Space(phys, Mapping(states[0].tables, root), Answers(states, 0, n));
    var phys' := L.LoadAll(s, file, headers, 0).value.0.phys;
    assert L.Loadable(file, h);
    forall va: nat | h.vaddr <= va < h.vaddr + h.memz
      ensures Behind(states[n].tables, root, phys', va, L.Expected(file, h, va))
    {
      FileOnTables(m0, current, root, states, requests, phys, file, headers, i, va);
    }
  }

  /** A program of two segments: text of 100 bytes at 0x400000, and 16 bytes of data with zeros up to 64
      at 0x402000. */
  function SmallProgram(): seq<L.Segment> {
    [L.Segment(true, 100, 0x40_0000, 100, 100), L.Segment(true, 200, 0x40_2000, 16, 64)]
  }

  function SmallRequests(): seq<Request> {
    [Request(0x400, {Present, UserAccessible}), Request(0x402, {Present, Writable, UserAccessible})]
  }

  lemma SmallRequested()
    ensures WellFormed(SmallRequests()) && Requested(SmallProgram(), SmallRequests(), 0)
  {
    var h := SmallProgram();
    assert PageCount(h[0]) == 1 && PageCount(h[1]) == 1;
    assert h[1..] == [h[1]] && [h[1]][1..] == [];
    assert Requested([], SmallRequests(), 2);
    assert Requested([h[1]], SmallRequests(), 1);
  }

  /** Nine free frames are enough to load it. */
  lemma SmallFileLoads(m0: Memory, current: nat, phys: seq<Byte>, file: seq<Byte>)
      returns (root: nat, tables: Tables, phys': seq<Byte>)
    requires m0.Valid() && current < |m0.tables| && m0.used[current] && |phys| == |m0.used| * PAGE_SIZE
    requires |file| >= 216 && FreeFrames(m0.used) >= 9
    ensures FileThere(tables, root, phys', file, SmallProgram())
  {
    SmallRequested();
    assert L.AllLoadable(file, SmallProgram());
    var n := |SmallRequests()|;
    hide FileThere, FreeFrames, WellFormed, Requested, MapRun, Mapping, Answers, L.AllLoadable, L.LoadAll;
    var states;
    root, states := FileLoads(m0, current, SmallRequests(), phys, file, SmallProgram());
    RunShape(m0, current, root, states, SmallRequests());
    tables := states[n].tables;
    var s := L.Space(phys, Mapping(states[0].tables, root), Answers(states, 0, n));
    phys' := L.LoadAll(s, file, SmallProgram(), 0).value.0.phys;
  }

  lemma SeesIsBehind(t: Tables, root: nat, s: L.Space, va: nat, b: Byte)
    requires s.table == Mapping(t, root) && L.Sees(s, va, b)
    ensures Behind(t, root, s.phys, va, b)
  {
    hide Walk, Translate;
  }

  // ----- the arguments -----

  /** What the copies of the argument block take for granted, of every address space that holds the area:
      its pages lead to distinct frames of the memory. */
  lemma TablesHoldArea(m0: Memory, current: nat, root: nat, states: seq<Life>, ops: seq<Op>, phys: seq<Byte>)
    requires Run(m0, current, root, states, ops) && |phys| == |m0.used| * PAGE_SIZE
    requires AreaIn(states[|ops|].pages)
    ensures var table := Mapping(states[|ops|].m.tables, root);
      U.Backed(phys, table) && U.Injective(table) && A.AreaMapped(table)
  {
    hide Run, Walk, Translate, Good, LowOnly, AllLow;
    RunIs(m0, current, root, states, ops);
    var s := states[|ops|];
    var table := Mapping(s.m.tables, root);
    RunKept(m0, current, root, states, ops, |ops|);
    AccountedParts(m0, s, root, current);
    MappingInjective(s.m, root);
    forall p | p in table ensures (table[p] + 1) * PAGE_SIZE <= |phys| { assert table[p] < |m0.used|; }
    forall p | A.ARGV_START / PAGE_SIZE <= p < (A.ARGV_START + A.ARGV_SIZE) / PAGE_SIZE ensures p in table {
      assert p in s.pages;
    }
  }

  lemma RunIs(m0: Memory, current: nat, root: nat, states: seq<Life>, ops: seq<Op>)
    requires Run(m0, current, root, states, ops)
    ensures |states| == |ops| + 1
  {}

  /** The pages of the argument area, which `alloc_map!` adds, are there. */
  ghost predicate AreaIn(pages: set<nat>) {
    forall p :: A.ARGV_START / PAGE_SIZE <= p < (A.ARGV_START + A.ARGV_SIZE) / PAGE_SIZE ==> p in pages
  }

  /** A block is written through the page tables of any address space that holds the area, and a program
      that takes its arguments through them gets all of them, in order. */
  lemma {:induction false} ArgvOnTables(m0: Memory, current: nat, root: nat, states: seq<Life>, ops: seq<Op>,
      phys: seq<Byte>,
      argv: seq<seq<Byte>>)
    requires Run(m0, current, root, states, ops) && |phys| == |m0.used| * PAGE_SIZE
    requires AreaIn(states[|ops|].pages) && |A.Concat(A.Pieces(argv))| < A.ARGV_SIZE
    requires |A.Concat(A.Pieces(argv))| < PAGE_SIZE ||
      A.AllSound(Mapping(states[|ops|].m.tables, root), A.ARGV_START, A.Pieces(argv))
    ensures var table := Mapping(states[|ops|].m.tables, root);
      var r := A.WriteAll(phys, table, A.ARGV_START, A.Pieces(argv));
      r.Some? && A.Following(r.value, table, |argv|, A.ARGV_START + 8 + |A.Concat(A.StringPieces(argv))|, 0) == Ok(argv)
  {
    hide Run, Mapping, A.Concat, A.Pieces, A.StringPieces, A.WriteAll, A.Following, A.AreaMapped, A.AllSound, AreaIn;
    RunIs(m0, current, root, states, ops);
    TablesHoldArea(m0, current, root, states, ops, phys);
    var table := Mapping(states[|ops|].m.tables, root);
    if |A.Concat(A.Pieces(argv))| < PAGE_SIZE { A.OnePageSound(table, A.ARGV_START, A.Pieces(argv)); }
    A.ArgvInOrder(phys, table, argv, 0);
    assert argv[0..] == argv;
  }
}
