/** Address spaces: what a root table translates, when mapping succeeds, and what releasing it reaches. */
module AddressSpace {
  import opened Wrappers
  import opened FrameAllocator
  import opened Paging

  const PAGES: nat := 0x10_0000_0000        // 4096-byte pages in 48 bits of address
  const LOWER_PAGES: nat := 0x8_0000_0000   // those of the lower half

  /** Everything a root translates. */
  const WHOLE: Scope := Scope(512, 512, false)
  /** What an address space owns: its lower half, with the mapped frames. */
  const LOWER: Scope := Scope(256, 512, true)
  /** What `PageTable::free` visits. */
  const FREED: Scope := Scope(256, 256, true)

  // ----- splitting an address -----

  function P4Index(addr: nat): nat { addr / 0x80_0000_0000 % 512 }
  function P3Index(addr: nat): nat { addr / 0x4000_0000 % 512 }
  function P2Index(addr: nat): nat { addr / 0x20_0000 % 512 }
  function P1Index(addr: nat): nat { addr / 0x1000 % 512 }

  /** The indices of `addr`, topmost table first. */
  function Translate(addr: nat): (path: seq<nat>)
    ensures Path(path, 4, 512, 512)
  {
    [P4Index(addr), P3Index(addr), P2Index(addr), P1Index(addr)]
  }

  /** The indices are the digits of the page number to the base 512, the highest first. */
  lemma SplitAt(addr: nat)
    ensures var path := Translate(addr);
      addr / 0x1000 % PAGES == path[0] * 0x800_0000 + path[1] * 0x4_0000 + path[2] * 512 + path[3]
  {
    var p := addr / 0x1000;
    assert addr / 0x20_0000 == p / 512;
    assert addr / 0x4000_0000 == p / 512 / 512;
    assert addr / 0x80_0000_0000 == p / 512 / 512 / 512;
    Base512(p);
  }

  lemma Base512(p: nat)
    ensures p % PAGES ==
      p / 512 / 512 / 512 % 512 * 0x800_0000 + p / 512 / 512 % 512 * 0x4_0000 + p / 512 % 512 * 512 + p % 512
  {
    var q := p / 512;
    var r := q / 512;
    var s := r / 512;
    var low := s % 512 * 0x800_0000 + r % 512 * 0x4_0000 + q % 512 * 512 + p % 512;
    assert p == s / 512 * PAGES + low;
    Remainder(p, s / 512, low);
  }

  lemma Remainder(p: nat, k: nat, low: nat)
    requires p == k * PAGES + low && low < PAGES
    ensures p % PAGES == low
  {}

  lemma Digits(a: seq<nat>, b: seq<nat>)
    requires Path(a, 4, 512, 512) && Path(b, 4, 512, 512)
    requires a[0] * 0x800_0000 + a[1] * 0x4_0000 + a[2] * 512 + a[3]
          == b[0] * 0x800_0000 + b[1] * 0x4_0000 + b[2] * 512 + b[3]
    ensures a == b
  {
    assert a[3] < 512 && b[3] < 512 && a[2] < 512 && b[2] < 512 && a[1] < 512 && b[1] < 512;
    assert a[0] == b[0];
    assert a[1] == b[1];
  }

  /** Two addresses take the same path exactly when they lie in the same page, up to the bits above 48. */
  lemma TranslateInjective(a: nat, b: nat)
    ensures Translate(a) == Translate(b) <==> a / 0x1000 % PAGES == b / 0x1000 % PAGES
  {
    hide P4Index, P3Index, P2Index, P1Index;
    SplitAt(a);
    SplitAt(b);
    if Translate(a) == Translate(b) {
      assert Translate(a)[0] == Translate(b)[0] && Translate(a)[1] == Translate(b)[1];
      assert Translate(a)[2] == Translate(b)[2] && Translate(a)[3] == Translate(b)[3];
    }
    if a / 0x1000 % PAGES == b / 0x1000 % PAGES {
      Digits(Translate(a), Translate(b));
    }
  }

  /** A page number below `PAGES` is recovered from its path; the lower half starts below index 256. */
  lemma PagePaths(p: nat, q: nat)
    requires p < PAGES && q < PAGES
    ensures Translate(p * PAGE_SIZE) == Translate(q * PAGE_SIZE) <==> p == q
    ensures p < LOWER_PAGES <==> P4Index(p * PAGE_SIZE) < 256
  {
    hide Translate;
    TranslateInjective(p * PAGE_SIZE, q * PAGE_SIZE);
    assert p * PAGE_SIZE / 0x1000 % PAGES == p && q * PAGE_SIZE / 0x1000 % PAGES == q;
    assert P4Index(p * PAGE_SIZE) == p / 0x800_0000;
  }

  // ----- refinement of a flat map -----

  /** The map from pages to frames that `root` stands for. */
  ghost function Flat(t: Tables, root: nat): map<nat, nat> {
    map p | 0 <= p < PAGES && Walk(t, 4, root, Translate(p * PAGE_SIZE)).Some?
      :: Walk(t, 4, root, Translate(p * PAGE_SIZE)).value
  }

  function MapTo(m: Memory, root: nat, page: nat, frame: nat, flags: set<Flag>): (Memory, bool)
    requires m.Valid()
  {
    MapPath(m, 4, root, Translate(page * PAGE_SIZE), frame, flags)
  }

  /** `map_to` with PRESENT set is an update of the flat map when it succeeds and changes no
      translation when it runs out of frames; the tables stay a tree of frames in use. */
  lemma MapToRefines(m: Memory, root: nat, page: nat, frame: nat, flags: set<Flag>)
    requires Good(m, 4, root, WHOLE) && page < PAGES && Present in flags
    ensures var (m', ok) := MapTo(m, root, page, frame, flags);
      Good(m', 4, root, WHOLE) &&
      Flat(m'.tables, root) == if ok then Flat(m.tables, root)[page := frame] else Flat(m.tables, root)
  {
    hide Translate, Walk, MapPath, Foot, Tree, P4Index;
    var path := Translate(page * PAGE_SIZE);
    var (m', ok) := MapTo(m, root, page, frame, flags);
    MapPathGrows(m, 4, root, WHOLE, path, frame, flags);
    forall p | 0 <= p < PAGES
      ensures Walk(m'.tables, 4, root, Translate(p * PAGE_SIZE)) ==
                if ok && p == page then Some(frame) else Walk(m.tables, 4, root, Translate(p * PAGE_SIZE))
    {
      MapPathTranslates(m, 4, root, WHOLE, path, frame, flags, Translate(p * PAGE_SIZE));
      PagePaths(p, page);
    }
  }

  /** `map_to` fails only when no frame is left. */
  lemma {:induction false} FailsOnlyWhenFull(m: Memory, level: nat, f: nat, s: Scope, path: seq<nat>, frame: nat,
      flags: set<Flag>)
    requires MayMap(m, level, f, s, path, frame, flags)
    ensures var (m', ok) := MapPath(m, level, f, path, frame, flags);
      !ok ==> forall x :: 0 <= x < |m'.used| ==> m'.used[x]
    decreases level
  {
    MapPathUnfolds(m, level, f, path, frame, flags);
    hide MapPath, MapEntry, Tree, Foot, Walk;
    if level > 1 {
      var (m1, k) := MapEntry(m, f, path[0], flags);
      if k.Some? {
        KidMayMap(m, level, f, s, path, frame, flags);
        FailsOnlyWhenFull(m1, level - 1, k.value, s.Kid(), path[1..], frame, flags);
      } else {
        NoEntryWhenFull(m, f, path[0], flags);
      }
    }
  }

  // ----- when mapping succeeds -----

  /** How many tables the path still lacks. */
  function Missing(t: Tables, level: nat, f: nat, path: seq<nat>): nat
    requires level >= 1 && Path(path, level, ENTRY_COUNT, ENTRY_COUNT)
    decreases level
  {
    if level == 1 || f >= |t| then 0
    else if t[f][path[0]].IsMapped() then Missing(t, level - 1, t[f][path[0]].frame, path[1..])
    else level - 1
  }

  lemma {:induction false} MissingFramed(t: Tables, t': Tables, level: nat, f: nat, s: Scope, path: seq<nat>)
    requires |t| == |t'| && level >= 1 && Path(path, level, s.top, s.below)
    requires forall x :: x in Foot(t, level, f, s) && x < |t| ==> t'[x] == t[x]
    ensures Missing(t', level, f, path) == Missing(t, level, f, path)
    decreases level
  {
    if level > 1 && f < |t| && t[f][path[0]].IsMapped() {
      InFoot(t, level, f, s, path[0]);
      MissingFramed(t, t', level - 1, t[f][path[0]].frame, s.Kid(), path[1..]);
    }
  }

  /** `map_to` succeeds exactly when there are as many free frames as the path lacks tables. */
  lemma {:induction false} SucceedsIff(m: Memory, level: nat, f: nat, s: Scope, path: seq<nat>, frame: nat,
      flags: set<Flag>)
    requires MayMap(m, level, f, s, path, frame, flags)
    ensures MapPath(m, level, f, path, frame, flags).1 <==>
            Missing(m.tables, level, f, path) + CountUsed(m.used) <= |m.used|
    decreases level
  {
    hide MapPath, MapEntry, Tree, Foot, Walk, CountUsed;
    TreeRoot(m.tables, level, f, s);
    MapPathUnfolds(m, level, f, path, frame, flags);
    CountFull(m.used);
    if level > 1 {
      var (m1, k) := MapEntry(m, f, path[0], flags);
      if k.Some? {
        KidMayMap(m, level, f, s, path, frame, flags);
        SucceedsIff(m1, level - 1, k.value, s.Kid(), path[1..], frame, flags);
        if m.tables[f][path[0]].IsMapped() {
          MissingKept(m, level, f, s, path, flags);
        } else {
          MissingNew(m, level, f, path, flags);
        }
      } else {
        NoEntryWhenFull(m, f, path[0], flags);
        MissingSome(m, level, f, path, flags);
      }
    }
  }

  lemma {:induction false} MissingKept(m: Memory, level: nat, f: nat, s: Scope, path: seq<nat>, flags: set<Flag>)
    requires Good(m, level, f, s) && level >= 2 && Path(path, level, s.top, s.below) && m.tables[f][path[0]].IsMapped()
    ensures var (m1, k) := MapEntry(m, f, path[0], flags);
      k.Some? && m1.used == m.used &&
      Missing(m1.tables, level - 1, k.value, path[1..]) == Missing(m.tables, level, f, path)
  {
    var (m1, k) := MapEntry(m, f, path[0], flags);
    assert KidTree(m.tables, level, f, path[0], s);
    MissingFramed(m.tables, m1.tables, level - 1, k.value, s.Kid(), path[1..]);
  }

  lemma {:induction false} MissingNew(m: Memory, level: nat, f: nat, path: seq<nat>, flags: set<Flag>)
    requires m.Valid() && f < |m.tables| && level >= 2 && Path(path, level, ENTRY_COUNT, ENTRY_COUNT)
    requires !m.tables[f][path[0]].IsMapped() && MapEntry(m, f, path[0], flags).1.Some?
    ensures var (m1, k) := MapEntry(m, f, path[0], flags);
      Missing(m1.tables, level - 1, k.value, path[1..]) == level - 2 &&
      Missing(m.tables, level, f, path) == level - 1 &&
      |m1.used| == |m.used| && CountUsed(m1.used) == CountUsed(m.used) + 1
  {
    CountAfterTake(m.used, LeastFree(m.used).value.number);
  }

  lemma {:induction false} MissingSome(m: Memory, level: nat, f: nat, path: seq<nat>, flags: set<Flag>)
    requires m.Valid() && f < |m.tables| && level >= 2 && Path(path, level, ENTRY_COUNT, ENTRY_COUNT)
    requires MapEntry(m, f, path[0], flags).1.None?
    ensures Missing(m.tables, level, f, path) >= 1
  {}

  // ----- mapping without PRESENT -----

  /** Whatever the flags, mapping writes no table in use outside the tree, and of the topmost table
      one entry. */
  lemma {:induction false} MapPathWrites(m: Memory, level: nat, f: nat, s: Scope, path: seq<nat>, frame: nat,
      flags: set<Flag>, x: nat)
    requires Good(m, level, f, s) && level >= 1 && Path(path, level, s.top, s.below)
    requires x < |m.tables| && m.used[x] && x !in Foot(m.tables, level, f, s)
    ensures MapPath(m, level, f, path, frame, flags).0.tables[x] == m.tables[x]
    decreases level
  {
    hide MapPath, Tree, Foot, Walk;
    TreeRoot(m.tables, level, f, s);
    InFoot(m.tables, level, f, s, path[0]);
    if level == 1 {
      LastEntryWritten(m, f, path, frame, flags);
    } else {
      MapPathUnfolds(m, level, f, path, frame, flags);
      var (m1, k) := MapEntry(m, f, path[0], flags);
      if k.Some? {
        EntryReady(m, level, f, s, path[0], flags);
        MapPathWrites(m1, level - 1, k.value, s.Kid(), path[1..], frame, flags, x);
      }
    }
  }

  lemma {:induction false} LastEntryWritten(m: Memory, f: nat, path: seq<nat>, frame: nat, flags: set<Flag>)
    requires m.Valid() && Path(path, 1, ENTRY_COUNT, ENTRY_COUNT) && f < |m.tables|
    ensures MapPath(m, 1, f, path, frame, flags).0.tables == SetEntry(m.tables, f, path[0], Entry(flags, frame))
  {}

  /** Only one entry of the topmost table changes, and nothing that the others reach. */
  lemma {:induction false} OneEntryWritten(m: Memory, root: nat, path: seq<nat>, frame: nat, flags: set<Flag>, j: nat)
    requires Good(m, 4, root, WHOLE) && Path(path, 4, 512, 512) && j < 512 && j != path[0]
    ensures var m' := MapPath(m, 4, root, path, frame, flags).0;
      m'.tables[root][j] == m.tables[root][j] &&
      forall x :: x in KidFoot(m.tables, 4, root, j, WHOLE) && x < |m.tables| ==> m'.tables[x] == m.tables[x]
  {
    hide MapPath, Tree, Walk;
    TreeRoot(m.tables, 4, root, WHOLE);
    InFoot(m.tables, 4, root, WHOLE, j);
    InFoot(m.tables, 4, root, WHOLE, path[0]);
    MapPathUnfolds(m, 4, root, path, frame, flags);
    TreeParts(m.tables, 4, root, WHOLE, path[0], j);
    var (m1, k) := MapEntry(m, root, path[0], flags);
    if k.Some? {
      EntryReady(m, 4, root, WHOLE, path[0], flags);
      MapPathWrites(m1, 3, k.value, WHOLE.Kid(), path[1..], frame, flags, root);
      forall x | x in KidFoot(m.tables, 4, root, j, WHOLE) && x < |m.tables|
        ensures MapPath(m1, 3, k.value, path[1..], frame, flags).0.tables[x] == m.tables[x]
      {
        MapPathWrites(m1, 3, k.value, WHOLE.Kid(), path[1..], frame, flags, x);
      }
    }
  }

  lemma {:induction false} TreeRoot(t: Tables, level: nat, f: nat, s: Scope)
    requires level >= 1 && Tree(t, level, f, s)
    ensures f < |t|
  {}

  lemma {:induction false} TreeParts(t: Tables, level: nat, f: nat, s: Scope, i: nat, j: nat)
    requires level >= 1 && Tree(t, level, f, s) && i < s.top && j < s.top && i != j
    ensures f < |t| && KidFoot(t, level, f, i, s) !! KidFoot(t, level, f, j, s)
    ensures f !in KidFoot(t, level, f, i, s) && f !in KidFoot(t, level, f, j, s)
  {
    assert KidTree(t, level, f, i, s) && KidTree(t, level, f, j, s);
  }

  lemma {:induction false} OthersTranslate(m: Memory, root: nat, path: seq<nat>, frame: nat, flags: set<Flag>,
      q: seq<nat>)
    requires Good(m, 4, root, WHOLE) && Path(path, 4, 512, 512) && Path(q, 4, 512, 512) && q[0] != path[0]
    ensures Walk(MapPath(m, 4, root, path, frame, flags).0.tables, 4, root, q) == Walk(m.tables, 4, root, q)
  {
    hide MapPath, Tree, Foot;
    TreeRoot(m.tables, 4, root, WHOLE);
    OneEntryWritten(m, root, path, frame, flags, q[0]);
    var t' := MapPath(m, 4, root, path, frame, flags).0.tables;
    if m.tables[root][q[0]].IsMapped() {
      WalkFramed(m.tables, t', 3, m.tables[root][q[0]].frame, WHOLE.Kid(), q[1..]);
    }
  }

  /** Without PRESENT no entry becomes mapped, and the entry of the topmost table is not mapped
      afterwards even if it was. */
  lemma {:induction false} StaysUnmapped(m: Memory, level: nat, f: nat, path: seq<nat>, frame: nat, flags: set<Flag>,
      x: nat, i: nat)
    requires m.Valid() && level >= 1 && Path(path, level, ENTRY_COUNT, ENTRY_COUNT) && Present !in flags
    requires x < |m.tables| && i < ENTRY_COUNT && !m.tables[x][i].IsMapped()
    ensures !MapPath(m, level, f, path, frame, flags).0.tables[x][i].IsMapped()
    decreases level
  {
    if f < |m.tables| && level > 1 {
      var (m1, k) := MapEntry(m, f, path[0], flags);
      if k.Some? {
        StaysUnmapped(m1, level - 1, k.value, path[1..], frame, flags, x, i);
      }
    }
  }

  lemma {:induction false} EntryLost(m: Memory, root: nat, path: seq<nat>, frame: nat, flags: set<Flag>)
    requires Good(m, 4, root, WHOLE) && Path(path, 4, 512, 512) && Present !in flags
    ensures root < |m.tables| && !MapPath(m, 4, root, path, frame, flags).0.tables[root][path[0]].IsMapped()
  {
    hide MapPath, Foot, KidTree, KidFoot;
    MapPathUnfolds(m, 4, root, path, frame, flags);
    var (m1, k) := MapEntry(m, root, path[0], flags);
    if k.Some? { StaysUnmapped(m1, 3, k.value, path[1..], frame, flags, root, path[0]); }
  }

  /** Without PRESENT, `map_to` maps nothing and takes away: it clears PRESENT on the entries along the
      path, so every page under the same entry of the topmost table is lost, and no other. */
  lemma LostWithoutPresent(m: Memory, root: nat, page: nat, frame: nat, flags: set<Flag>)
    requires Good(m, 4, root, WHOLE) && page < PAGES && Present !in flags
    ensures Flat(MapTo(m, root, page, frame, flags).0.tables, root) ==
            map p | p in Flat(m.tables, root) && P4Index(p * PAGE_SIZE) != P4Index(page * PAGE_SIZE)
              :: Flat(m.tables, root)[p]
  {
    hide Translate, MapPath, Foot, Tree, P4Index;
    var path := Translate(page * PAGE_SIZE);
    var t' := MapTo(m, root, page, frame, flags).0.tables;
    TopIndex(page * PAGE_SIZE);
    EntryLost(m, root, path, frame, flags);
    forall p | 0 <= p < PAGES
      ensures Walk(t', 4, root, Translate(p * PAGE_SIZE)) ==
        if P4Index(p * PAGE_SIZE) == P4Index(page * PAGE_SIZE) then None
        else Walk(m.tables, 4, root, Translate(p * PAGE_SIZE))
    {
      TopIndex(p * PAGE_SIZE);
      if P4Index(p * PAGE_SIZE) != P4Index(page * PAGE_SIZE) {
        OthersTranslate(m, root, path, frame, flags, Translate(p * PAGE_SIZE));
      }
    }
  }

  lemma TopIndex(addr: nat)
    ensures Translate(addr)[0] == P4Index(addr)
  {}

  /** PRESENT is exactly what makes a successful `map_to` an update of the flat map. */
  lemma MapToNeedsPresent(m: Memory, root: nat, page: nat, frame: nat, flags: set<Flag>)
    requires Good(m, 4, root, WHOLE) && page < PAGES && MapTo(m, root, page, frame, flags).1
    ensures Flat(MapTo(m, root, page, frame, flags).0.tables, root) == Flat(m.tables, root)[page := frame] <==>
            Present in flags
  {
    hide Flat, MapTo;
    if Present in flags {
      MapToRefines(m, root, page, frame, flags);
    } else {
      LostWithoutPresent(m, root, page, frame, flags);
      assert page !in Flat(MapTo(m, root, page, frame, flags).0.tables, root);
    }
  }

  // ----- releasing an address space -----

  function Toggle(used: seq<bool>, k: nat): (r: seq<bool>)
    ensures |r| == |used|
  {
    if k < |used| then used[k := !used[k]] else used
  }

  /** `Entry::free` and `PageTable::free`: the bits after releasing what is reached from `f`. */
  function Release(t: Tables, used: seq<bool>, level: nat, f: nat): (r: seq<bool>)
    ensures |r| == |used|
    decreases level, 1, 0
  {
    if level == 0 then Toggle(used, f) else Toggle(ReleaseFrom(t, used, level, f, 0), f)
  }

  function ReleaseFrom(t: Tables, used: seq<bool>, level: nat, f: nat, i: nat): (r: seq<bool>)
    requires level >= 1 && i <= HIGHER_HALF_ENTRY
    ensures |r| == |used|
    decreases level, 0, HIGHER_HALF_ENTRY - i
  {
    if f >= |t| || i == HIGHER_HALF_ENTRY then used
    else if t[f][i] == ZERO then ReleaseFrom(t, used, level, f, i + 1)
    else ReleaseFrom(t, Release(t, used, level - 1, t[f][i].frame), level, f, i + 1)
  }

  /** Whether releasing what is reached from `f` flips bit `x`. */
  ghost function Flips(t: Tables, level: nat, f: nat, x: nat): bool
    decreases level, 1, 0
  {
    (level > 0 && FlipsFrom(t, level, f, 0, x)) != (x == f)
  }

  ghost function FlipsFrom(t: Tables, level: nat, f: nat, i: nat, x: nat): bool
    requires level >= 1 && i <= HIGHER_HALF_ENTRY
    decreases level, 0, HIGHER_HALF_ENTRY - i
  {
    if f >= |t| || i == HIGHER_HALF_ENTRY then false
    else (t[f][i] != ZERO && Flips(t, level - 1, t[f][i].frame, x)) != FlipsFrom(t, level, f, i + 1, x)
  }

  /** Which bits are flipped does not depend on the bits. */
  lemma {:induction false} ReleaseFlips(t: Tables, used: seq<bool>, level: nat, f: nat, x: nat)
    requires x < |used|
    ensures Release(t, used, level, f)[x] == (used[x] != Flips(t, level, f, x))
    decreases level, 1, 0
  {
    if level > 0 { ReleaseFromFlips(t, used, level, f, 0, x); }
  }

  lemma {:induction false} ReleaseFromFlips(t: Tables, used: seq<bool>, level: nat, f: nat, i: nat, x: nat)
    requires x < |used| && level >= 1 && i <= HIGHER_HALF_ENTRY
    ensures ReleaseFrom(t, used, level, f, i)[x] == (used[x] != FlipsFrom(t, level, f, i, x))
    decreases level, 0, HIGHER_HALF_ENTRY - i
  {
    if f < |t| && i < HIGHER_HALF_ENTRY {
      if t[f][i] == ZERO {
        ReleaseFromFlips(t, used, level, f, i + 1, x);
      } else {
        ReleaseFlips(t, used, level - 1, t[f][i].frame, x);
        ReleaseFromFlips(t, Release(t, used, level - 1, t[f][i].frame), level, f, i + 1, x);
      }
    }
  }

  /** Releasing the same tables twice marks everything in use again. */
  lemma {:induction false} ReleaseTwice(t: Tables, used: seq<bool>, level: nat, f: nat)
    ensures Release(t, Release(t, used, level, f), level, f) == used
  {
    var once := Release(t, used, level, f);
    var twice := Release(t, once, level, f);
    forall x | 0 <= x < |used| ensures twice[x] == used[x] {
      ReleaseFlips(t, used, level, f, x);
      ReleaseFlips(t, once, level, f, x);
    }
  }

  ghost predicate Cleared(used: seq<bool>, after: seq<bool>, gone: set<nat>) {
    |after| == |used| && forall x :: 0 <= x < |used| ==> after[x] == (used[x] && x !in gone)
  }

  ghost function KidsFrom(t: Tables, level: nat, f: nat, i: nat): set<nat>
    requires level >= 1 && f < |t|
  {
    set j, x | i <= j < HIGHER_HALF_ENTRY && x in KidFoot(t, level, f, j, FREED) :: x
  }

  lemma KidsSplit(t: Tables, level: nat, f: nat, i: nat)
    requires level >= 1 && Tree(t, level, f, FREED) && i < HIGHER_HALF_ENTRY
    ensures KidsFrom(t, level, f, i) == KidFoot(t, level, f, i, FREED) + KidsFrom(t, level, f, i + 1)
    ensures KidFoot(t, level, f, i, FREED) !! KidsFrom(t, level, f, i + 1)
    ensures KidTree(t, level, f, i, FREED)
  {}

  lemma {:induction false} KidsOfTable(t: Tables, level: nat, f: nat)
    requires level >= 1 && Tree(t, level, f, FREED)
    ensures Foot(t, level, f, FREED) == {f} + KidsFrom(t, level, f, 0)
    ensures f !in KidsFrom(t, level, f, 0)
  {
    assert KidsFrom(t, level, f, 0) <= Foot(t, level, f, FREED);
    forall x | x in Foot(t, level, f, FREED) && x != f ensures x in KidsFrom(t, level, f, 0) {
      var j := ThroughEntry(t, level, f, FREED, x);
    }
    forall j | 0 <= j < 256 ensures f !in KidFoot(t, level, f, j, FREED) {
      assert KidTree(t, level, f, j, FREED);
    }
  }

  /** Releasing a tree clears the bit of each of its frames, once, and no other bit. */
  lemma {:induction false} ReleaseExact(t: Tables, used: seq<bool>, level: nat, f: nat)
    requires Good(Memory(used, t), level, f, FREED)
    ensures Cleared(used, Release(t, used, level, f), Foot(t, level, f, FREED))
    decreases level, 1, 0
  {
    if level > 0 {
      KidsOfTable(t, level, f);
      ReleaseFromExact(t, used, level, f, 0);
    }
  }

  lemma {:induction false} ReleaseFromExact(t: Tables, used: seq<bool>, level: nat, f: nat, i: nat)
    requires level >= 1 && |used| == |t| && Tree(t, level, f, FREED) && i <= HIGHER_HALF_ENTRY
    requires forall x :: x in KidsFrom(t, level, f, i) ==> x < |used| && used[x]
    ensures Cleared(used, ReleaseFrom(t, used, level, f, i), KidsFrom(t, level, f, i))
    decreases level, 0, HIGHER_HALF_ENTRY - i
  {
    if i < HIGHER_HALF_ENTRY {
      KidsSplit(t, level, f, i);
      if t[f][i] == ZERO {
        ReleaseFromExact(t, used, level, f, i + 1);
      } else {
        ReleaseExact(t, used, level - 1, t[f][i].frame);
        ReleaseFromExact(t, Release(t, used, level - 1, t[f][i].frame), level, f, i + 1);
      }
    }
  }

  // ----- what is left behind -----

  /** No entry at or above 256 is in use below the topmost table. */
  ghost predicate LowOnly(t: Tables, level: nat, f: nat, top: nat)
    requires top <= ENTRY_COUNT
    decreases level, 1
  {
    level == 0 || f >= |t| || forall i :: 0 <= i < top ==> LowKid(t, level, f, i)
  }

  ghost predicate LowKid(t: Tables, level: nat, f: nat, i: nat)
    requires level >= 1 && f < |t| && i < ENTRY_COUNT
    decreases level, 0
  {
    t[f][i].IsMapped() ==> i < 256 && LowOnly(t, level - 1, t[f][i].frame, 512)
  }

  function Wide(top: nat): Scope
    requires top <= ENTRY_COUNT
  {
    Scope(top, 512, true)
  }

  /** `free` sees a subtree of the whole tree. */
  lemma {:induction false} Narrowed(t: Tables, level: nat, f: nat, top: nat)
    requires 256 <= top <= ENTRY_COUNT && Tree(t, level, f, Wide(top))
    ensures Tree(t, level, f, FREED) && Foot(t, level, f, FREED) <= Foot(t, level, f, Wide(top))
    decreases level
  {
    if level > 0 {
      forall i | 0 <= i < 256
        ensures KidTree(t, level, f, i, FREED)
        ensures KidFoot(t, level, f, i, FREED) <= KidFoot(t, level, f, i, Wide(top))
      {
        NarrowedKid(t, level, f, top, i);
      }
      forall x | x in Foot(t, level, f, FREED) && x != f
        ensures x in Foot(t, level, f, Wide(top))
      {
        var j := ThroughEntry(t, level, f, FREED, x);
        InFoot(t, level, f, Wide(top), j);
      }
    }
  }

  lemma {:induction false} NarrowedKid(t: Tables, level: nat, f: nat, top: nat, i: nat)
    requires 256 <= top <= ENTRY_COUNT && level >= 1 && Tree(t, level, f, Wide(top)) && i < 256
    ensures KidTree(t, level, f, i, FREED)
    ensures KidFoot(t, level, f, i, FREED) <= KidFoot(t, level, f, i, Wide(top))
    decreases level, 0
  {
    assert KidTree(t, level, f, i, Wide(top));
    if t[f][i].IsMapped() { Narrowed(t, level - 1, t[f][i].frame, 512); }
  }

  /** `free` reaches the whole tree exactly when no entry at or above 256 is in use. */
  lemma {:induction false} FreeReachesAll(t: Tables, level: nat, f: nat, top: nat)
    requires 256 <= top <= ENTRY_COUNT && Tree(t, level, f, Wide(top))
    ensures Foot(t, level, f, FREED) == Foot(t, level, f, Wide(top)) <==> LowOnly(t, level, f, top)
    decreases level
  {
    if level > 0 {
      Narrowed(t, level, f, top);
      if i: nat :| i < top && !LowKid(t, level, f, i) {
        assert KidTree(t, level, f, i, Wide(top));
        var x: nat;
        if i < 256 {
          FreeReachesAll(t, level - 1, t[f][i].frame, 512);
          Narrowed(t, level - 1, t[f][i].frame, 512);
          x :| x in KidFoot(t, level, f, i, Wide(top)) && x !in KidFoot(t, level, f, i, FREED);
        } else {
          x := t[f][i].frame;
        }
        InFoot(t, level, f, Wide(top), i);
        NotFreed(t, level, f, top, i, x);
      } else {
        assert LowOnly(t, level, f, top);
        forall x | x in Foot(t, level, f, Wide(top)) && x != f
          ensures x in Foot(t, level, f, FREED)
        {
          var i := ThroughEntry(t, level, f, Wide(top), x);
          assert KidTree(t, level, f, i, Wide(top)) && LowKid(t, level, f, i);
          FreeReachesAll(t, level - 1, t[f][i].frame, 512);
          InFoot(t, level, f, FREED, i);
        }
      }
    }
  }

  lemma {:induction false} NotFreed(t: Tables, level: nat, f: nat, top: nat, i: nat, x: nat)
    requires 256 <= top <= ENTRY_COUNT && level >= 1 && Tree(t, level, f, Wide(top)) && i < top
    requires x in KidFoot(t, level, f, i, Wide(top))
    requires i < 256 ==> x !in KidFoot(t, level, f, i, FREED)
    ensures x !in Foot(t, level, f, FREED)
  {
    assert KidTree(t, level, f, i, Wide(top));
    if x in Foot(t, level, f, FREED) {
      var j := ThroughEntry(t, level, f, FREED, x);
      NarrowedKid(t, level, f, top, j);
    }
  }

  lemma {:induction false} LowOnlyFramed(t: Tables, t': Tables, level: nat, f: nat, top: nat)
    requires 256 <= top <= ENTRY_COUNT && |t| == |t'|
    requires forall x :: x in Foot(t, level, f, Wide(top)) && x < |t| ==> t'[x] == t[x]
    ensures LowOnly(t', level, f, top) == LowOnly(t, level, f, top)
    decreases level
  {
    if level > 0 && f < |t| {
      forall i | 0 <= i < top
        ensures LowKid(t', level, f, i) == LowKid(t, level, f, i)
      {
        if t[f][i].IsMapped() {
          InFoot(t, level, f, Wide(top), i);
          LowOnlyFramed(t, t', level - 1, t[f][i].frame, 512);
        }
      }
    }
  }

  predicate LowPath(path: seq<nat>) { forall d :: 0 <= d < |path| ==> path[d] < 256 }

  /** The indices at the front of the path that have entries. */
  function Made(t: Tables, level: nat, f: nat, path: seq<nat>): seq<nat>
    requires Path(path, level, ENTRY_COUNT, ENTRY_COUNT)
    decreases level
  {
    if level == 0 || f >= |t| || !t[f][path[0]].IsMapped() then []
    else [path[0]] + Made(t, level - 1, t[f][path[0]].frame, path[1..])
  }

  lemma {:induction false} MadeWhole(t: Tables, level: nat, f: nat, path: seq<nat>)
    requires Path(path, level, ENTRY_COUNT, ENTRY_COUNT) && Walk(t, level, f, path).Some?
    ensures Made(t, level, f, path) == path
    decreases level
  {
    if level > 0 {
      MadeWhole(t, level - 1, t[f][path[0]].frame, path[1..]);
      assert path == [path[0]] + path[1..];
    }
  }

  /** A mapping keeps the tree below index 256 exactly when the part of its path that has entries
      afterwards is; that is the whole path when it succeeds. */
  lemma {:induction false} LowOnlyAfterMap(m: Memory, level: nat, f: nat, top: nat, path: seq<nat>, frame: nat,
      flags: set<Flag>)
    requires 256 <= top <= ENTRY_COUNT && MayMap(m, level, f, Wide(top), path, frame, flags)
    ensures var m' := MapPath(m, level, f, path, frame, flags).0;
      LowOnly(m'.tables, level, f, top) <==>
      LowOnly(m.tables, level, f, top) && LowPath(Made(m'.tables, level, f, path))
    decreases level
  {
    var (m', ok) := MapPath(m, level, f, path, frame, flags);
    var i := path[0];
    assert KidTree(m.tables, level, f, i, Wide(top));
    if level == 1 {
      LowLeaf(m, f, top, path, frame, flags);
    } else {
      var (m1, k) := MapEntry(m, f, i, flags);
      if k.None? {
        NoEntryWhenFull(m, f, i, flags);
        assert !m.tables[f][i].IsMapped();
      } else {
        KidMayMap(m, level, f, Wide(top), path, frame, flags);
        LowOnlyAfterMap(m1, level - 1, k.value, 512, path[1..], frame, flags);
        LowOnlyEntry(m, level, f, top, i, flags);
        LowOnlySiblings(m, level, f, top, path, frame, flags);
        var made := Made(m'.tables, level - 1, k.value, path[1..]);
        assert Made(m'.tables, level, f, path) == [i] + made;
        LowPathCons(i, made);
        LowAssembled(m.tables, m'.tables, level, f, top, i);
      }
    }
  }

  lemma {:induction false} LowLeaf(m: Memory, f: nat, top: nat, path: seq<nat>, frame: nat, flags: set<Flag>)
    requires 256 <= top <= ENTRY_COUNT && MayMap(m, 1, f, Wide(top), path, frame, flags)
    ensures var m' := MapPath(m, 1, f, path, frame, flags).0;
      LowOnly(m'.tables, 1, f, top) <==> LowOnly(m.tables, 1, f, top) && LowPath(Made(m'.tables, 1, f, path))
  {
    var m', i := MapPath(m, 1, f, path, frame, flags).0, path[0];
    RootIn(m, 1, f, Wide(top));
    assert !m.tables[f][i].IsMapped() by { assert Walk(m.tables, 1, f, path) == None; }
    assert m'.tables[f] == m.tables[f][i := Entry(flags, frame)];
    assert forall j :: 0 <= j < top && j != i ==> LowKid(m'.tables, 1, f, j) == LowKid(m.tables, 1, f, j);
    assert Made(m'.tables, 1, f, path) == [i] + [];
    assert LowKid(m.tables, 1, f, i) && (LowKid(m'.tables, 1, f, i) <==> i < 256);
    hide LowOnly, LowKid, OthersLow, LowPath, Tree, Foot, MapPath;
    LowPathCons(i, []);
    assert LowPath([]) by { NoIndices(); }
    LowAssembled(m.tables, m'.tables, 1, f, top, i);
  }

  lemma NoIndices()
    ensures LowPath([])
  {}

  lemma LowPathCons(i: nat, path: seq<nat>)
    ensures LowPath([i] + path) <==> i < 256 && LowPath(path)
  {
    if LowPath([i] + path) {
      forall d | 0 <= d < |path| ensures path[d] < 256 { assert ([i] + path)[d + 1] < 256; }
      assert ([i] + path)[0] == i;
    }
  }

  ghost predicate OthersLow(t: Tables, level: nat, f: nat, top: nat, i: nat)
    requires level >= 1 && f < |t| && top <= ENTRY_COUNT
  {
    forall j :: 0 <= j < top && j != i ==> LowKid(t, level, f, j)
  }

  lemma {:induction false} LowSplit(t: Tables, level: nat, f: nat, top: nat, i: nat)
    requires level >= 1 && top <= ENTRY_COUNT && i < top && f < |t|
    ensures LowOnly(t, level, f, top) <==> LowKid(t, level, f, i) && OthersLow(t, level, f, top, i)
  {
    hide LowKid;
    if LowKid(t, level, f, i) && OthersLow(t, level, f, top, i) {
      forall j | 0 <= j < top ensures LowKid(t, level, f, j) {}
    }
  }

  lemma {:induction false} LowAssembled(t: Tables, t': Tables, level: nat, f: nat, top: nat, i: nat)
    requires level >= 1 && top <= ENTRY_COUNT && i < top && f < |t| && |t'| == |t|
    requires forall j :: 0 <= j < top && j != i ==> LowKid(t', level, f, j) == LowKid(t, level, f, j)
    ensures LowOnly(t', level, f, top) <==> LowKid(t', level, f, i) && OthersLow(t, level, f, top, i)
    ensures LowOnly(t, level, f, top) <==> LowKid(t, level, f, i) && OthersLow(t, level, f, top, i)
  {
    hide LowKid, LowOnly;
    LowSplit(t, level, f, top, i);
    LowSplit(t', level, f, top, i);
  }

  lemma {:induction false} LowOnlyEntry(m: Memory, level: nat, f: nat, top: nat, i: nat, flags: set<Flag>)
    requires 256 <= top <= ENTRY_COUNT && Good(m, level, f, Wide(top)) && level >= 2 && i < top && Present in flags
    ensures var (m1, k) := MapEntry(m, f, i, flags);
      k.Some? ==> LowOnly(m1.tables, level - 1, k.value, 512) ==
                    (m.tables[f][i].IsMapped() ==> LowOnly(m.tables, level - 1, m.tables[f][i].frame, 512))
  {
    var (m1, k) := MapEntry(m, f, i, flags);
    assert KidTree(m.tables, level, f, i, Wide(top));
    if m.tables[f][i].IsMapped() {
      LowOnlyFramed(m.tables, m1.tables, level - 1, k.value, 512);
    }
  }

  /** The table itself changes in one entry and what the other entries reach is not changed. */
  lemma {:induction false} LowOnlySiblings(m: Memory, level: nat, f: nat, top: nat, path: seq<nat>, frame: nat,
      flags: set<Flag>)
    requires 256 <= top <= ENTRY_COUNT && MayMap(m, level, f, Wide(top), path, frame, flags) && level >= 2
    requires MapEntry(m, f, path[0], flags).1.Some?
    ensures var m' := MapPath(m, level, f, path, frame, flags).0; var (m1, k) := MapEntry(m, f, path[0], flags);
      m'.tables[f] == m.tables[f][path[0] := Entry(flags, k.value)] &&
      forall j :: 0 <= j < top && j != path[0] ==> LowKid(m'.tables, level, f, j) == LowKid(m.tables, level, f, j)
  {
    hide LeastFree, Walk;
    var (m', ok) := MapPath(m, level, f, path, frame, flags);
    var (m1, k) := MapEntry(m, f, path[0], flags);
    KidMayMap(m, level, f, Wide(top), path, frame, flags);
    MapPathGrows(m1, level - 1, k.value, Wide(top).Kid(), path[1..], frame, flags);
    KidIsolated(m, level, f, Wide(top), path, frame, flags, m1, k.value, m', if ok then Some(frame) else None);
    LowOthers(m.tables, m'.tables, level, f, top, path[0], Entry(flags, k.value),
              Foot(m'.tables, level - 1, k.value, Wide(top).Kid()));
  }

  lemma {:induction false} LowOthers(t: Tables, t': Tables, level: nat, f: nat, top: nat, i: nat, e: Entry,
      changed: set<nat>)
    requires 256 <= top <= ENTRY_COUNT && level >= 1 && i < top && Tree(t, level, f, Wide(top))
    requires KidChanged(t, t', level, f, i, e, changed, Wide(top))
    ensures forall j :: 0 <= j < top && j != i ==> LowKid(t', level, f, j) == LowKid(t, level, f, j)
  {
    forall j | 0 <= j < top && j != i ensures LowKid(t', level, f, j) == LowKid(t, level, f, j) {
      assert KidTree(t, level, f, j, Wide(top));
      if t[f][j].IsMapped() {
        assert KidFoot(t, level, f, j, Wide(top)) == Foot(t, level - 1, t[f][j].frame, Wide(512));
        LowOnlyFramed(t, t', level - 1, t[f][j].frame, 512);
      }
    }
  }

  // ----- mapping a page again -----

  /** The path leads to a frame already. */
  ghost predicate MayRemap(m: Memory, level: nat, f: nat, s: Scope, path: seq<nat>, frame: nat, flags: set<Flag>) {
    s.owned && Good(m, level, f, s) && level >= 1 && Path(path, level, s.top, s.below) && Present in flags &&
    frame < |m.used| && m.used[frame] && frame !in Foot(m.tables, level, f, s) &&
    Walk(m.tables, level, f, path).Some?
  }

  /** The old frame leaves the tree and the new one takes its place; no frame is taken, and nothing outside
      the tree is written. */
  ghost predicate Swapped(m: Memory, m': Memory, level: nat, f: nat, s: Scope, was: nat, frame: nat) {
    m'.used == m.used && |m'.tables| == |m.tables| &&
    Foot(m'.tables, level, f, s) == Foot(m.tables, level, f, s) - {was} + {frame} &&
    forall x :: 0 <= x < |m.tables| && x !in Foot(m.tables, level, f, s) ==> m'.tables[x] == m.tables[x]
  }

  lemma {:induction false} KidMayRemap(m: Memory, level: nat, f: nat, s: Scope, path: seq<nat>, frame: nat,
      flags: set<Flag>)
    requires MayRemap(m, level, f, s, path, frame, flags) && level >= 2
    ensures f < |m.tables| && m.tables[f][path[0]].IsMapped()
    ensures var (m1, k) := MapEntry(m, f, path[0], flags);
      k == Some(m.tables[f][path[0]].frame) && m1.used == m.used && |m1.tables| == |m.tables| &&
      m1.tables == SetEntry(m.tables, f, path[0], Entry(flags, k.value)) &&
      MayRemap(m1, level - 1, k.value, s.Kid(), path[1..], frame, flags) &&
      Walk(m1.tables, level - 1, k.value, path[1..]) == Walk(m.tables, level, f, path) &&
      f !in Foot(m1.tables, level - 1, k.value, s.Kid()) &&
      Foot(m1.tables, level - 1, k.value, s.Kid()) == KidFoot(m.tables, level, f, path[0], s)
  {
    var i := path[0];
    var (m1, k) := MapEntry(m, f, i, flags);
    EntryReady(m, level, f, s, i, flags);
    assert KidTree(m.tables, level, f, i, s);
    InFoot(m.tables, level, f, s, i);
    WalkFramed(m.tables, m1.tables, level - 1, k.value, s.Kid(), path[1..]);
  }

  /** One level of a re-mapping, seen from above. */
  lemma {:induction false} KidRemapped(m: Memory, level: nat, f: nat, s: Scope, path: seq<nat>, frame: nat,
      flags: set<Flag>, m1: Memory, k: nat, m': Memory, was: nat)
    requires MayRemap(m, level, f, s, path, frame, flags) && level >= 2
    requires was in KidFoot(m.tables, level, f, path[0], s)
    requires MapEntry(m, f, path[0], flags) == (m1, Some(k)) && m'.Valid()
    requires Swapped(m1, m', level - 1, k, s.Kid(), was, frame) && Tree(m'.tables, level - 1, k, s.Kid())
    ensures KidChanged(m.tables, m'.tables, level, f, path[0], Entry(flags, k),
                       KidFoot(m.tables, level, f, path[0], s), s)
    ensures Tree(m'.tables, level, f, s) && Swapped(m, m', level, f, s, was, frame)
  {
    hide MapEntry, Walk, Tree, Foot, KidFoot, KidTree;
    var i := path[0];
    RootIn(m, level, f, s);
    KidMayRemap(m, level, f, s, path, frame, flags);
    InFoot(m.tables, level, f, s, i);
    KidIs(m.tables, level, f, s, i);
    forall j | 0 <= j < s.top && j != i
      ensures KidFoot(m.tables, level, f, i, s) !! KidFoot(m.tables, level, f, j, s)
      ensures Foot(m'.tables, level - 1, k, s.Kid()) !! KidFoot(m.tables, level, f, j, s)
    {
      KidsApart(m.tables, level, f, s, i, j);
      InFoot(m.tables, level, f, s, j);
    }
    KidChange(m.tables, m'.tables, level, f, i, Entry(flags, k), KidFoot(m.tables, level, f, i, s), s);
  }

  lemma {:induction false} KidIs(t: Tables, level: nat, f: nat, s: Scope, i: nat)
    requires level >= 1 && Tree(t, level, f, s) && i < s.top
    ensures f < |t| && KidTree(t, level, f, i, s) && f !in KidFoot(t, level, f, i, s)
  {
    assert KidTree(t, level, f, i, s);
  }

  lemma {:induction false} KidsApart(t: Tables, level: nat, f: nat, s: Scope, i: nat, j: nat)
    requires level >= 1 && Tree(t, level, f, s) && i < s.top && j < s.top && i != j
    ensures KidFoot(t, level, f, i, s) !! KidFoot(t, level, f, j, s)
  {
    if i < j {
      assert KidFoot(t, level, f, i, s) !! KidFoot(t, level, f, j, s);
    } else {
      assert KidFoot(t, level, f, j, s) !! KidFoot(t, level, f, i, s);
    }
  }

  lemma {:induction false} LeafSwaps(m: Memory, f: nat, s: Scope, path: seq<nat>, frame: nat, flags: set<Flag>)
    requires MayRemap(m, 1, f, s, path, frame, flags)
    ensures var (m', ok) := MapPath(m, 1, f, path, frame, flags);
      ok && Good(m', 1, f, s) && Swapped(m, m', 1, f, s, Walk(m.tables, 1, f, path).value, frame)
  {
    var i := path[0];
    var m' := MapPath(m, 1, f, path, frame, flags).0;
    assert KidTree(m.tables, 1, f, i, s);
    assert Walk(m.tables, 1, f, path) == Some(m.tables[f][i].frame);
    assert KidFoot(m.tables, 1, f, i, s) == {m.tables[f][i].frame};
    InFoot(m.tables, 1, f, s, i);
    forall j | 0 <= j < s.top && j != i ensures {frame} !! KidFoot(m.tables, 1, f, j, s) {
      InFoot(m.tables, 1, f, s, j);
    }
    KidChange(m.tables, m'.tables, 1, f, i, Entry(flags, frame), {}, s);
  }

  /** Mapping a page that is mapped always succeeds. The tree loses the old frame, which stays in use, and
      gets the new one. */
  lemma {:induction false} RemapSwaps(m: Memory, level: nat, f: nat, s: Scope, path: seq<nat>, frame: nat,
      flags: set<Flag>)
    requires MayRemap(m, level, f, s, path, frame, flags)
    ensures var (m', ok) := MapPath(m, level, f, path, frame, flags);
      ok && Good(m', level, f, s) && Swapped(m, m', level, f, s, Walk(m.tables, level, f, path).value, frame)
    decreases level
  {
    assert level >= 1;
    hide MapEntry, MapPath, Walk, Tree, Foot, MayRemap, Swapped;
    if level == 1 {
      LeafSwaps(m, f, s, path, frame, flags);
    } else {
      RemapStep(m, level, f, s, path, frame, flags);
      var (m1, k) := MapEntry(m, f, path[0], flags);
      RemapSwaps(m1, level - 1, k.value, s.Kid(), path[1..], frame, flags);
      var m' := MapPath(m, level, f, path, frame, flags).0;
      var was := Walk(m.tables, level, f, path).value;
      RemappedParts(m1, level, k.value, s, m', was, frame);
      KidRemapped(m, level, f, s, path, frame, flags, m1, k.value, m', was);
      SwappedGood(m, m', level, f, s, path, was, frame, flags);
    }
  }

  lemma RemappedParts(m1: Memory, level: nat, k: nat, s: Scope, m': Memory, was: nat, frame: nat)
    requires level >= 2 && Good(m', level - 1, k, s.Kid()) && Swapped(m1, m', level - 1, k, s.Kid(), was, frame)
    ensures m'.Valid() && Tree(m'.tables, level - 1, k, s.Kid())
  {}

  lemma {:induction false} SwappedGood(m: Memory, m': Memory, level: nat, f: nat, s: Scope, path: seq<nat>, was: nat,
      frame: nat,
      flags: set<Flag>)
    requires MayRemap(m, level, f, s, path, frame, flags) && m'.Valid() && Tree(m'.tables, level, f, s)
    requires Swapped(m, m', level, f, s, was, frame)
    ensures Good(m', level, f, s)
  {
    hide Tree, Foot, Walk;
  }

  /** A level of a re-mapping, with what is below it done: the entry found leads on, and only what it
      reaches is changed. */
  lemma {:induction false} RemapStep(m: Memory, level: nat, f: nat, s: Scope, path: seq<nat>, frame: nat,
      flags: set<Flag>)
    requires MayRemap(m, level, f, s, path, frame, flags) && level >= 2
    ensures m.Valid() && f < |m.tables| && Tree(m.tables, level, f, s)
    ensures Path(path, level, s.top, s.below) && Present in flags
    ensures var (m1, k) := MapEntry(m, f, path[0], flags);
      k.Some? && m1.Valid() && MayRemap(m1, level - 1, k.value, s.Kid(), path[1..], frame, flags) &&
      MapPath(m, level, f, path, frame, flags) == MapPath(m1, level - 1, k.value, path[1..], frame, flags) &&
      Walk(m.tables, level, f, path).Some? &&
      Walk(m1.tables, level - 1, k.value, path[1..]) == Walk(m.tables, level, f, path) &&
      Walk(m.tables, level, f, path).value in KidFoot(m.tables, level, f, path[0], s) &&
      m.tables[f][path[0]].IsMapped() && m.tables[f][path[0]].frame == k.value &&
      forall x :: x in Foot(m.tables, level - 1, k.value, s.Kid()) && x < |m.tables| ==> m1.tables[x] == m.tables[x]
  {
    hide MapEntry, MapPath, Walk, Foot, Tree;
    RootIn(m, level, f, s);
    KidMayRemap(m, level, f, s, path, frame, flags);
    MapPathUnfolds(m, level, f, path, frame, flags);
    var (m1, k) := MapEntry(m, f, path[0], flags);
    WalkInFoot(m1.tables, level - 1, k.value, s.Kid(), path[1..]);
  }

  /** So only one entry and what it reaches differ. */
  lemma {:induction false} RemapIsolated(m: Memory, level: nat, f: nat, s: Scope, path: seq<nat>, frame: nat,
      flags: set<Flag>)
    requires MayRemap(m, level, f, s, path, frame, flags) && level >= 2
    ensures m.Valid() && f < |m.tables| && Path(path, level, s.top, s.below)
    ensures MapEntry(m, f, path[0], flags).1.Some?
    ensures var m' := MapPath(m, level, f, path, frame, flags).0;
      KidChanged(m.tables, m'.tables, level, f, path[0], Entry(flags, MapEntry(m, f, path[0], flags).1.value),
                 KidFoot(m.tables, level, f, path[0], s), s)
  {
    hide MapEntry, MapPath, Walk, Tree, Foot, MayRemap, Swapped, KidChanged;
    RemapStep(m, level, f, s, path, frame, flags);
    var (m1, k) := MapEntry(m, f, path[0], flags);
    RemapSwaps(m1, level - 1, k.value, s.Kid(), path[1..], frame, flags);
    var m' := MapPath(m, level, f, path, frame, flags).0;
    var was := Walk(m.tables, level, f, path).value;
    RemappedParts(m1, level, k.value, s, m', was, frame);
    KidRemapped(m, level, f, s, path, frame, flags, m1, k.value, m', was);
  }

  /** The entry that leads on, before and after. */
  lemma ChangedEntry(t: Tables, t': Tables, level: nat, f: nat, i: nat, e: Entry, changed: set<nat>, s: Scope)
    requires level >= 1 && i < s.top && KidChanged(t, t', level, f, i, e, changed, s)
    ensures |t'| == |t| && f < |t| && e.IsMapped() && t'[f] == t[f][i := e]
  {}

  lemma {:induction false} LeafTranslates(m: Memory, f: nat, s: Scope, path: seq<nat>, frame: nat, flags: set<Flag>,
      q: seq<nat>)
    requires MayRemap(m, 1, f, s, path, frame, flags) && Path(q, 1, s.top, s.below)
    ensures Walk(MapPath(m, 1, f, path, frame, flags).0.tables, 1, f, q) ==
      if q == path then Some(frame) else Walk(m.tables, 1, f, q)
  {
    RootIn(m, 1, f, s);
    assert MapPath(m, 1, f, path, frame, flags).0.tables[f] == m.tables[f][path[0] := Entry(flags, frame)];
  }

  /** Every other page translates as before. */
  lemma {:induction false} RemapTranslates(m: Memory, level: nat, f: nat, s: Scope, path: seq<nat>, frame: nat,
      flags: set<Flag>, q: seq<nat>)
    requires MayRemap(m, level, f, s, path, frame, flags) && Path(q, level, s.top, s.below)
    ensures Walk(MapPath(m, level, f, path, frame, flags).0.tables, level, f, q) ==
      if q == path then Some(frame) else Walk(m.tables, level, f, q)
    decreases level
  {
    var i := path[0];
    assert q == [q[0]] + q[1..] && path == [i] + path[1..];
    if level == 1 {
      LeafTranslates(m, f, s, path, frame, flags, q);
    } else {
      hide MapEntry, MapPath, Tree, Foot, MayRemap, KidChanged, Swapped;
      RemapStep(m, level, f, s, path, frame, flags);
      RemapIsolated(m, level, f, s, path, frame, flags);
      var m' := MapPath(m, level, f, path, frame, flags).0;
      var (m1, k) := MapEntry(m, f, i, flags);
      var e, changed := Entry(flags, k.value), KidFoot(m.tables, level, f, i, s);
      ChangedEntry(m.tables, m'.tables, level, f, i, e, changed, s);
      if q[0] == i {
        RemapTranslates(m1, level - 1, k.value, s.Kid(), path[1..], frame, flags, q[1..]);
        WalkFramed(m.tables, m1.tables, level - 1, k.value, s.Kid(), q[1..]);
      } else {
        OtherKidWalks(m.tables, m'.tables, level, f, s, i, e, changed, q);
      }
    }
  }

  /** The shape of the tree is as before. */
  lemma {:induction false} RemapLow(m: Memory, level: nat, f: nat, top: nat, path: seq<nat>, frame: nat,
      flags: set<Flag>)
    requires 256 <= top <= ENTRY_COUNT && MayRemap(m, level, f, Wide(top), path, frame, flags)
    ensures var m' := MapPath(m, level, f, path, frame, flags).0;
      LowOnly(m'.tables, level, f, top) == LowOnly(m.tables, level, f, top)
    decreases level
  {
    var i, s := path[0], Wide(top);
    RootIn(m, level, f, s);
    if level == 1 {
      var m' := MapPath(m, level, f, path, frame, flags).0;
      assert m'.tables[f] == m.tables[f][i := Entry(flags, frame)];
      assert forall j :: 0 <= j < top ==> LowKid(m'.tables, 1, f, j) == LowKid(m.tables, 1, f, j);
    } else {
      hide MapEntry, MapPath, Tree, Foot, Walk, MayRemap, KidChanged, Swapped;
      RemapStep(m, level, f, s, path, frame, flags);
      RemapIsolated(m, level, f, s, path, frame, flags);
      var m' := MapPath(m, level, f, path, frame, flags).0;
      var (m1, k) := MapEntry(m, f, i, flags);
      var e, changed := Entry(flags, k.value), KidFoot(m.tables, level, f, i, s);
      ChangedEntry(m.tables, m'.tables, level, f, i, e, changed, s);
      RemapLow(m1, level - 1, k.value, 512, path[1..], frame, flags);
      LowOnlyFramed(m.tables, m1.tables, level - 1, k.value, 512);
      LowOthers(m.tables, m'.tables, level, f, top, i, e, changed);
      LowAssembled(m.tables, m'.tables, level, f, top, i);
    }
  }

  // ----- frames that hold data -----

  /** The same scope without the mapped frames: the tables alone. */
  function TablesOf(s: Scope): Scope { Scope(s.top, s.below, false) }

  lemma {:induction false} TablesInFoot(t: Tables, level: nat, f: nat, s: Scope)
    ensures Foot(t, level, f, TablesOf(s)) <= Foot(t, level, f, s)
    decreases level
  {
    if level > 0 && f < |t| {
      forall x | x in Foot(t, level, f, TablesOf(s)) ensures x in Foot(t, level, f, s) {
        if x != f {
          var i := ThroughEntry(t, level, f, TablesOf(s), x);
          TablesInFoot(t, level - 1, t[f][i].frame, s.Kid());
          InFoot(t, level, f, s, i);
        }
      }
    }
  }

  /** What is written into a frame that is no table changes neither the tree nor what it translates. */
  lemma {:induction false} DataFramed(t: Tables, t': Tables, level: nat, f: nat, s: Scope)
    requires |t| == |t'|
    requires forall x :: x in Foot(t, level, f, TablesOf(s)) && x < |t| ==> t'[x] == t[x]
    ensures Foot(t', level, f, s) == Foot(t, level, f, s)
    ensures Tree(t, level, f, s) ==> Tree(t', level, f, s)
    decreases level
  {
    if level > 0 && f < |t| {
      InFoot0(t, level, f, TablesOf(s));
      forall i | 0 <= i < s.top
        ensures KidFoot(t', level, f, i, s) == KidFoot(t, level, f, i, s)
        ensures KidTree(t, level, f, i, s) ==> KidTree(t', level, f, i, s)
      {
        if t[f][i].IsMapped() {
          InFoot(t, level, f, TablesOf(s), i);
          DataFramed(t, t', level - 1, t[f][i].frame, s.Kid());
        }
      }
    }
  }

  lemma {:induction false} InFoot0(t: Tables, level: nat, f: nat, s: Scope)
    requires level >= 1 && f < |t|
    ensures f in Foot(t, level, f, s)
  {}

  lemma {:induction false} LowOnlyData(t: Tables, t': Tables, level: nat, f: nat, top: nat)
    requires 256 <= top <= ENTRY_COUNT && |t| == |t'|
    requires forall x :: x in Foot(t, level, f, TablesOf(Wide(top))) && x < |t| ==> t'[x] == t[x]
    ensures LowOnly(t', level, f, top) == LowOnly(t, level, f, top)
    decreases level
  {
    if level > 0 && f < |t| {
      InFoot0(t, level, f, TablesOf(Wide(top)));
      forall i | 0 <= i < top ensures LowKid(t', level, f, i) == LowKid(t, level, f, i) {
        if t[f][i].IsMapped() {
          InFoot(t, level, f, TablesOf(Wide(top)), i);
          LowOnlyData(t, t', level - 1, t[f][i].frame, 512);
        }
      }
    }
  }

  /** In an owned scope a translation ends inside the footprint. */
  lemma {:induction false} WalkInFoot(t: Tables, level: nat, f: nat, s: Scope, path: seq<nat>)
    requires s.owned && Path(path, level, s.top, s.below) && Walk(t, level, f, path).Some?
    ensures Walk(t, level, f, path).value in Foot(t, level, f, s)
    decreases level
  {
    if level > 0 {
      WalkInFoot(t, level - 1, t[f][path[0]].frame, s.Kid(), path[1..]);
      InFoot(t, level, f, s, path[0]);
    }
  }

  /** A mapped frame is not one of the tables. */
  lemma {:induction false} LeafIsNoTable(t: Tables, level: nat, f: nat, s: Scope, path: seq<nat>)
    requires s.owned && level >= 1 && Tree(t, level, f, s) && Path(path, level, s.top, s.below)
    requires Walk(t, level, f, path).Some?
    ensures Walk(t, level, f, path).value !in Foot(t, level, f, TablesOf(s))
    decreases level
  {
    var i, x := path[0], Walk(t, level, f, path).value;
    var k := t[f][i].frame;
    assert KidTree(t, level, f, i, s);
    WalkInFoot(t, level - 1, k, s.Kid(), path[1..]);
    if level > 1 { LeafIsNoTable(t, level - 1, k, s.Kid(), path[1..]); }
    if x in Foot(t, level, f, TablesOf(s)) {
      var j := ThroughEntry(t, level, f, TablesOf(s), x);
      TablesInFoot(t, level - 1, t[f][j].frame, s.Kid());
      assert x in KidFoot(t, level, f, j, s);
    }
  }
}
