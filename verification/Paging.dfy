/** The four-level page tables of x86_64 (section 4.5 of the Intel SDM, volume 3A) over the
    bitmap frame allocator.

    Memory is a pair: which frames are in use, and what every frame holds when it is read as
    a page table. A page table is reached from a root frame through present entries. `Foot`
    collects the frames a (sub)tree reaches and `Tree` says that it really is a tree: no frame
    is reached twice.

    A tree is looked at through a scope. `top` bounds the entries followed in the topmost
    table and `below` those of the tables under it: (512, 512) is everything an address space
    translates, (256, 512) its lower half, and (256, 256) the part that `PageTable::free`
    visits. `owned` adds the mapped frames themselves to the footprint.
 */
module Paging {
  import opened Wrappers
  import opened FrameAllocator

  const ENTRY_COUNT: nat := 512
  const HIGHER_HALF_ENTRY: nat := 256

  datatype Flag =
    | Present | Writable | UserAccessible | WriteThrough | NoCache
    | Accessed | Dirty | HugePage | Global | NoExecute

  datatype Entry = Entry(flags: set<Flag>, frame: nat) {
    predicate IsMapped() { Present in flags }
  }

  const ZERO: Entry := Entry({}, 0)

  type Table = t: seq<Entry> | |t| == ENTRY_COUNT witness seq(ENTRY_COUNT, _ => ZERO)
  type Tables = seq<Table>

  function EmptyTable(): (t: Table)
    ensures forall i :: 0 <= i < ENTRY_COUNT ==> t[i] == ZERO
  {
    seq(ENTRY_COUNT, _ => ZERO)
  }

  datatype Memory = Memory(used: seq<bool>, tables: Tables) {
    predicate Valid() { |used| == |tables| }
  }

  predicate Path(path: seq<nat>, level: nat, top: nat, below: nat) {
    |path| == level &&
    forall d :: 0 <= d < level ==> path[d] < if d == 0 then top else below
  }

  // ----- walking and changing the tables -----

  /** Follows `path` from the table in frame `f`; `level` tables remain to be crossed. */
  function Walk(t: Tables, level: nat, f: nat, path: seq<nat>): Option<nat>
    requires Path(path, level, ENTRY_COUNT, ENTRY_COUNT)
    decreases level
  {
    if level == 0 then Some(f)
    else if f >= |t| || !t[f][path[0]].IsMapped() then None
    else Walk(t, level - 1, t[f][path[0]].frame, path[1..])
  }

  function LeastFreeFrom(used: seq<bool>, k: nat): (r: Option<Frame>)
    requires k <= |used|
    requires forall j :: 0 <= j < k ==> used[j]
    ensures IsLeastFree(used, r)
    decreases |used| - k
  {
    if k == |used| then None
    else if !used[k] then Some(Frame(k))
    else LeastFreeFrom(used, k + 1)
  }

  function LeastFree(used: seq<bool>): (r: Option<Frame>)
    ensures IsLeastFree(used, r)
  {
    LeastFreeFrom(used, 0)
  }

  function SetEntry(t: Tables, f: nat, i: nat, e: Entry): (t': Tables)
    requires f < |t| && i < ENTRY_COUNT
    ensures |t'| == |t| && t'[f] == t[f][i := e]
    ensures forall x :: 0 <= x < |t| && x != f ==> t'[x] == t[x]
  {
    t[f := t[f][i := e]]
  }

  /** `Entry::map`: the table below entry `i`, made and cleared first when there is none. */
  function MapEntry(m: Memory, f: nat, i: nat, flags: set<Flag>): (r: (Memory, Option<nat>))
    requires m.Valid() && f < |m.tables| && i < ENTRY_COUNT
    ensures r.0.Valid() && |r.0.tables| == |m.tables|
    ensures r.1.Some? && !m.tables[f][i].IsMapped() ==> r.1.value < |m.tables|
  {
    if m.tables[f][i].IsMapped() then
      (Memory(m.used, SetEntry(m.tables, f, i, Entry(flags, m.tables[f][i].frame))),
       Some(m.tables[f][i].frame))
    else
      match LeastFree(m.used)
      case None => (m, None)
      case Some(k) =>
        (Memory(m.used[k.number := true],
                SetEntry(m.tables, f, i, Entry(flags, k.number))[k.number := EmptyTable()]),
         Some(k.number))
  }

  /** `PageTable::map_to` below the table in frame `f`. Tables always lie in memory; the test
      for it only makes the function total. */
  function MapPath(m: Memory, level: nat, f: nat, path: seq<nat>, frame: nat, flags: set<Flag>): (r: (Memory, bool))
    requires m.Valid() && level >= 1 && Path(path, level, ENTRY_COUNT, ENTRY_COUNT)
    ensures r.0.Valid() && |r.0.tables| == |m.tables|
    decreases level
  {
    if f >= |m.tables| then (m, false)
    else if level == 1 then
      (Memory(m.used, SetEntry(m.tables, f, path[0], Entry(flags, frame))), true)
    else
      match MapEntry(m, f, path[0], flags)
      case (m1, None) => (m1, false)
      case (m1, Some(k)) => MapPath(m1, level - 1, k, path[1..], frame, flags)
  }

  lemma MapPathUnfolds(m: Memory, level: nat, f: nat, path: seq<nat>, frame: nat, flags: set<Flag>)
    requires m.Valid() && level >= 1 && Path(path, level, ENTRY_COUNT, ENTRY_COUNT) && f < |m.tables|
    ensures level == 1 ==> MapPath(m, level, f, path, frame, flags).1
    ensures level > 1 ==>
      var (m1, k) := MapEntry(m, f, path[0], flags);
      MapPath(m, level, f, path, frame, flags) ==
      if k.None? then (m1, false) else MapPath(m1, level - 1, k.value, path[1..], frame, flags)
  {}

  lemma NoEntryWhenFull(m: Memory, f: nat, i: nat, flags: set<Flag>)
    requires m.Valid() && f < |m.tables| && i < ENTRY_COUNT && MapEntry(m, f, i, flags).1.None?
    ensures forall x :: 0 <= x < |m.used| ==> m.used[x]
    ensures MapEntry(m, f, i, flags).0 == m
  {
    assert IsLeastFree(m.used, None);
  }

  // ----- footprints and trees -----

  datatype RawScope = Scope(top: nat, below: nat, owned: bool) {
    predicate Valid() { top <= ENTRY_COUNT && below <= ENTRY_COUNT }

    /** The scope of the tables one level down. */
    function Kid(): RawScope { Scope(below, below, owned) }
  }

  type Scope = s: RawScope | s.Valid() witness Scope(0, 0, false)

  ghost function Foot(t: Tables, level: nat, f: nat, s: Scope): set<nat>
    decreases level, 1
  {
    if level == 0 then (if s.owned then {f} else {})
    else if f >= |t| then {f}
    else {f} + set i, x | 0 <= i < s.top && x in KidFoot(t, level, f, i, s) :: x
  }

  /** What entry `i` of the table in frame `f` reaches. */
  ghost function KidFoot(t: Tables, level: nat, f: nat, i: nat, s: Scope): set<nat>
    requires level >= 1 && f < |t| && i < ENTRY_COUNT
    decreases level, 0
  {
    if t[f][i].IsMapped() then Foot(t, level - 1, t[f][i].frame, s.Kid()) else {}
  }

  ghost predicate Tree(t: Tables, level: nat, f: nat, s: Scope)
    decreases level, 1
  {
    level == 0 ||
    (f < |t| &&
     (forall i :: 0 <= i < s.top ==> KidTree(t, level, f, i, s)) &&
     (forall i, j :: 0 <= i < j < s.top ==>
        KidFoot(t, level, f, i, s) !! KidFoot(t, level, f, j, s)))
  }

  ghost predicate KidTree(t: Tables, level: nat, f: nat, i: nat, s: Scope)
    requires level >= 1 && f < |t| && i < ENTRY_COUNT
    decreases level, 0
  {
    (s.owned ==> t[f][i] == ZERO || t[f][i].IsMapped()) &&
    f !in KidFoot(t, level, f, i, s) &&
    (t[f][i].IsMapped() ==> Tree(t, level - 1, t[f][i].frame, s.Kid()))
  }

  /** A tree all of whose frames are in use. */
  ghost predicate Good(m: Memory, level: nat, f: nat, s: Scope)
  {
    m.Valid() &&
    Tree(m.tables, level, f, s) &&
    forall x :: x in Foot(m.tables, level, f, s) ==> x < |m.used| && m.used[x]
  }

  /** Every frame but the topmost is reached through some entry. */
  lemma ThroughEntry(t: Tables, level: nat, f: nat, s: Scope, x: nat) returns (j: nat)
    requires level >= 1 && f < |t| && x in Foot(t, level, f, s) && x != f
    ensures j < s.top && x in KidFoot(t, level, f, j, s)
  {
    var kids := set i, y | 0 <= i < s.top && y in KidFoot(t, level, f, i, s) :: y;
    assert Foot(t, level, f, s) == {f} + kids;
    assert x in kids;
    j :| 0 <= j < s.top && x in KidFoot(t, level, f, j, s);
  }

  /** A tree depends on the tables in its footprint only. */
  lemma {:induction false} Framed(t: Tables, t': Tables, level: nat, f: nat, s: Scope)
    requires |t| == |t'|
    requires forall x :: x in Foot(t, level, f, s) && x < |t| ==> t'[x] == t[x]
    ensures Foot(t', level, f, s) == Foot(t, level, f, s)
    ensures Tree(t, level, f, s) ==> Tree(t', level, f, s)
    decreases level
  {
    if level > 0 && f < |t| {
      forall i | 0 <= i < s.top
        ensures KidFoot(t', level, f, i, s) == KidFoot(t, level, f, i, s)
        ensures KidTree(t, level, f, i, s) ==> KidTree(t', level, f, i, s)
      {
        if t[f][i].IsMapped() {
          assert forall x :: x in KidFoot(t, level, f, i, s) ==> x in Foot(t, level, f, s);
          Framed(t, t', level - 1, t[f][i].frame, s.Kid());
        }
      }
    }
  }

  lemma {:induction false} WalkFramed(t: Tables, t': Tables, level: nat, f: nat, s: Scope, path: seq<nat>)
    requires |t| == |t'|
    requires forall x :: x in Foot(t, level, f, s) && x < |t| ==> t'[x] == t[x]
    requires Path(path, level, s.top, s.below)
    ensures Walk(t', level, f, path) == Walk(t, level, f, path)
    decreases level
  {
    if level > 0 && f < |t| && t[f][path[0]].IsMapped() {
      assert forall x :: x in KidFoot(t, level, f, path[0], s) ==> x in Foot(t, level, f, s);
      WalkFramed(t, t', level - 1, t[f][path[0]].frame, s.Kid(), path[1..]);
    }
  }

  /** Changing what one entry reaches: tables in `changed` and the entry itself may differ, and
      nothing the other entries reach is in `changed`. */
  ghost predicate KidChanged(t: Tables, t': Tables, level: nat, f: nat, i: nat, e: Entry, changed: set<nat>,
                             s: Scope)
    requires level >= 1 && i < s.top
  {
    |t| == |t'| && f < |t| &&
    f !in changed && e.IsMapped() && t'[f] == t[f][i := e] &&
    (forall x :: 0 <= x < |t| && x != f && x !in changed ==> t'[x] == t[x]) &&
    (forall j :: 0 <= j < s.top && j != i ==> changed !! KidFoot(t, level, f, j, s))
  }

  lemma {:induction false} SiblingsKept(t: Tables, t': Tables, level: nat, f: nat, i: nat, e: Entry, changed: set<nat>,
                     s: Scope, j: nat)
    requires level >= 1 && i < s.top
    requires Tree(t, level, f, s)
    requires KidChanged(t, t', level, f, i, e, changed, s)
    requires j < s.top && j != i
    ensures KidFoot(t', level, f, j, s) == KidFoot(t, level, f, j, s)
    ensures KidTree(t', level, f, j, s)
  {
    assert KidTree(t, level, f, j, s);
    if t[f][j].IsMapped() {
      Framed(t, t', level - 1, t[f][j].frame, s.Kid());
    }
  }

  lemma KidChange(t: Tables, t': Tables, level: nat, f: nat, i: nat, e: Entry, changed: set<nat>,
                  s: Scope)
    requires level >= 1 && i < s.top
    requires Tree(t, level, f, s)
    requires KidChanged(t, t', level, f, i, e, changed, s)
    requires Tree(t', level - 1, e.frame, s.Kid())
    requires f !in Foot(t', level - 1, e.frame, s.Kid())
    requires forall j :: 0 <= j < s.top && j != i ==>
               Foot(t', level - 1, e.frame, s.Kid()) !! KidFoot(t, level, f, j, s)
    ensures Tree(t', level, f, s)
    ensures forall x :: x in Foot(t', level, f, s) <==>
              x in Foot(t', level - 1, e.frame, s.Kid()) ||
              (x in Foot(t, level, f, s) && x !in KidFoot(t, level, f, i, s))
  {
    forall j | 0 <= j < s.top
      ensures KidTree(t', level, f, j, s)
      ensures j != i ==> KidFoot(t', level, f, j, s) == KidFoot(t, level, f, j, s)
    {
      if j != i { SiblingsKept(t, t', level, f, i, e, changed, s, j); }
    }
    assert KidFoot(t', level, f, i, s) == Foot(t', level - 1, e.frame, s.Kid());
    forall x | x in Foot(t, level, f, s) && x !in KidFoot(t, level, f, i, s)
      ensures x in Foot(t', level, f, s)
    {
      if x != f {
        var j := ThroughEntry(t, level, f, s, x);
        assert x in KidFoot(t', level, f, j, s);
      }
    }
    forall x | x in Foot(t', level, f, s) && x !in KidFoot(t', level, f, i, s)
      ensures x in Foot(t, level, f, s) && x !in KidFoot(t, level, f, i, s)
    {
      if x == f {
        assert KidTree(t, level, f, i, s);
      } else {
        var j := ThroughEntry(t', level, f, s, x);
        assert x in KidFoot(t, level, f, j, s);
      }
    }
  }

  // ----- what mapping one page does -----

  /** What `MapPath` may be asked: in an owned scope the frame is in use, is not yet part of the
      tree and the page is not mapped. */
  ghost predicate MayMap(m: Memory, level: nat, f: nat, s: Scope, path: seq<nat>, frame: nat, flags: set<Flag>) {
    Good(m, level, f, s) && level >= 1 && Path(path, level, s.top, s.below) && Present in flags &&
    (s.owned ==>
       frame < |m.used| && m.used[frame] && frame !in Foot(m.tables, level, f, s) &&
       Walk(m.tables, level, f, path) == None)
  }

  /** The footprint grows by frames that were free (the new tables) and, in an owned scope, by the
      mapped frame; exactly the new tables are taken from the allocator and no table outside the
      footprint is written. */
  ghost predicate Grown(m: Memory, m': Memory, level: nat, f: nat, s: Scope, leaf: Option<nat>)
    requires m.Valid() && m'.Valid() && |m.tables| == |m'.tables|
  {
    var before, after := Foot(m.tables, level, f, s), Foot(m'.tables, level, f, s);
    before <= after &&
    (forall x :: x in after && x !in before ==>
       leaf == Some(x) || (x < |m.used| && !m.used[x])) &&
    (leaf.Some? ==> leaf.value in after) &&
    (forall x :: 0 <= x < |m.used| ==> m'.used[x] == (m.used[x] || x in after)) &&
    (forall x :: 0 <= x < |m.used| && x !in after ==> m'.tables[x] == m.tables[x])
  }

  /** The state in which the table below entry `i` is worked on. */
  lemma {:induction false} EntryReady(m: Memory, level: nat, f: nat, s: Scope, i: nat, flags: set<Flag>)
    requires Good(m, level, f, s) && level >= 2 && i < s.top
    ensures var (m1, k) := MapEntry(m, f, i, flags);
      k.Some? ==>
        Good(m1, level - 1, k.value, s.Kid()) &&
        f !in Foot(m1.tables, level - 1, k.value, s.Kid()) &&
        (m.tables[f][i].IsMapped() ==>
           Foot(m1.tables, level - 1, k.value, s.Kid()) == KidFoot(m.tables, level, f, i, s)) &&
        (!m.tables[f][i].IsMapped() ==>
           Foot(m1.tables, level - 1, k.value, s.Kid()) == {k.value})
  {
    assert KidTree(m.tables, level, f, i, s);
    var (m1, k) := MapEntry(m, f, i, flags);
    if m.tables[f][i].IsMapped() {
      assert forall x :: x in KidFoot(m.tables, level, f, i, s) ==> x in Foot(m.tables, level, f, s);
      Framed(m.tables, m1.tables, level - 1, k.value, s.Kid());
    } else if k.Some? {
      EmptyTableIsGood(m1, level - 1, k.value, s.Kid());
    }
  }

  lemma {:induction false} EmptyTableIsGood(m: Memory, level: nat, k: nat, s: Scope)
    requires m.Valid() && level >= 1 && k < |m.tables| && m.tables[k] == EmptyTable() && m.used[k]
    ensures Foot(m.tables, level, k, s) == {k}
    ensures Good(m, level, k, s)
  {
    assert forall i :: 0 <= i < s.top ==> KidFoot(m.tables, level, k, i, s) == {};
  }

  lemma {:induction false} LastLevelGrows(m: Memory, f: nat, s: Scope, path: seq<nat>, frame: nat, flags: set<Flag>)
    requires MayMap(m, 1, f, s, path, frame, flags)
    ensures var (m', ok) := MapPath(m, 1, f, path, frame, flags);
      Good(m', 1, f, s) && Grown(m, m', 1, f, s, if s.owned && ok then Some(frame) else None)
  {
    var i := path[0];
    var (m', ok) := MapPath(m, 1, f, path, frame, flags);
    assert KidTree(m.tables, 1, f, i, s);
    assert forall j, x :: 0 <= j < s.top && x in KidFoot(m.tables, 1, f, j, s) ==> x in Foot(m.tables, 1, f, s);
    assert Walk(m.tables, 1, f, path) == if m.tables[f][i].IsMapped() then Some(m.tables[f][i].frame) else None;
    KidChange(m.tables, m'.tables, 1, f, i, Entry(flags, frame), {}, s);
  }

  lemma KidMayMap(m: Memory, level: nat, f: nat, s: Scope, path: seq<nat>, frame: nat, flags: set<Flag>)
    requires MayMap(m, level, f, s, path, frame, flags) && level >= 2
    ensures var (m1, k) := MapEntry(m, f, path[0], flags);
      k.Some? ==> MayMap(m1, level - 1, k.value, s.Kid(), path[1..], frame, flags)
  {
    var i := path[0];
    var (m1, k) := MapEntry(m, f, i, flags);
    EntryReady(m, level, f, s, i, flags);
    if k.Some? && s.owned && m.tables[f][i].IsMapped() {
      assert forall x :: x in KidFoot(m.tables, level, f, i, s) ==> x in Foot(m.tables, level, f, s);
      WalkFramed(m.tables, m1.tables, level - 1, k.value, s.Kid(), path[1..]);
    }
  }

  /** Work below one entry stays clear of the table itself and of what the other entries reach. */
  lemma {:induction false} KidIsolated(m: Memory, level: nat, f: nat, s: Scope, path: seq<nat>, frame: nat,
      flags: set<Flag>, m1: Memory, k: nat, m': Memory, leaf: Option<nat>)
    requires MayMap(m, level, f, s, path, frame, flags) && level >= 2
    requires MapEntry(m, f, path[0], flags) == (m1, Some(k))
    requires m'.Valid() && |m'.tables| == |m.tables|
    requires Grown(m1, m', level - 1, k, s.Kid(), leaf)
    requires leaf == None || (s.owned && leaf == Some(frame))
    ensures KidChanged(m.tables, m'.tables, level, f, path[0], Entry(flags, k),
                       Foot(m'.tables, level - 1, k, s.Kid()), s)
  {
    var i := path[0];
    EntryReady(m, level, f, s, i, flags);
    assert KidTree(m.tables, level, f, i, s);
    assert forall j, x :: 0 <= j < s.top && x in KidFoot(m.tables, level, f, j, s) ==> x in Foot(m.tables, level, f, s);
    var changed := Foot(m'.tables, level - 1, k, s.Kid());
    forall x | x in changed
      ensures x in KidFoot(m.tables, level, f, i, s) || x !in Foot(m.tables, level, f, s)
    {}
    assert f in Foot(m.tables, level, f, s);
  }

  lemma KidReplaced(m: Memory, level: nat, f: nat, s: Scope, path: seq<nat>, frame: nat, flags: set<Flag>,
                    m1: Memory, k: nat, m': Memory, leaf: Option<nat>)
    requires MayMap(m, level, f, s, path, frame, flags) && level >= 2
    requires MapEntry(m, f, path[0], flags) == (m1, Some(k))
    requires m'.Valid() && |m'.tables| == |m.tables|
    requires Good(m', level - 1, k, s.Kid()) && Grown(m1, m', level - 1, k, s.Kid(), leaf)
    requires leaf == None || (s.owned && leaf == Some(frame))
    ensures Tree(m'.tables, level, f, s)
    ensures Foot(m'.tables, level, f, s) == Foot(m.tables, level, f, s) + Foot(m'.tables, level - 1, k, s.Kid())
  {
    hide Tree, KidTree, Walk;
    var i := path[0];
    KidIsolated(m, level, f, s, path, frame, flags, m1, k, m', leaf);
    EntryReady(m, level, f, s, i, flags);
    KidChange(m.tables, m'.tables, level, f, i, Entry(flags, k), Foot(m'.tables, level - 1, k, s.Kid()), s);
  }

  lemma KidGrows(m: Memory, level: nat, f: nat, s: Scope, path: seq<nat>, frame: nat, flags: set<Flag>,
                 m1: Memory, k: nat, m': Memory, leaf: Option<nat>)
    requires MayMap(m, level, f, s, path, frame, flags) && level >= 2
    requires MapEntry(m, f, path[0], flags) == (m1, Some(k))
    requires m'.Valid() && |m'.tables| == |m.tables|
    requires Good(m', level - 1, k, s.Kid()) && Grown(m1, m', level - 1, k, s.Kid(), leaf)
    requires leaf == None || (s.owned && leaf == Some(frame))
    ensures Good(m', level, f, s) && Grown(m, m', level, f, s, leaf)
  {
    hide KidTree, Walk, Foot;
    KidReplaced(m, level, f, s, path, frame, flags, m1, k, m', leaf);
    EntryReady(m, level, f, s, path[0], flags);
    InFoot(m.tables, level, f, s, path[0]);
  }

  lemma {:induction false} InFoot(t: Tables, level: nat, f: nat, s: Scope, i: nat)
    requires level >= 1 && f < |t| && i < s.top
    ensures f in Foot(t, level, f, s)
    ensures KidFoot(t, level, f, i, s) <= Foot(t, level, f, s)
  {}

  lemma {:induction false} MapPathGrows(m: Memory, level: nat, f: nat, s: Scope, path: seq<nat>, frame: nat,
      flags: set<Flag>)
    requires MayMap(m, level, f, s, path, frame, flags)
    ensures var (m', ok) := MapPath(m, level, f, path, frame, flags);
      Good(m', level, f, s) &&
      Grown(m, m', level, f, s, if s.owned && ok then Some(frame) else None)
    decreases level
  {
    var i := path[0];
    var (m', ok) := MapPath(m, level, f, path, frame, flags);
    assert KidTree(m.tables, level, f, i, s);
    if level == 1 {
      LastLevelGrows(m, f, s, path, frame, flags);
    } else {
      var (m1, k) := MapEntry(m, f, i, flags);
      if k.Some? {
        EntryReady(m, level, f, s, i, flags);
        KidMayMap(m, level, f, s, path, frame, flags);
        MapPathGrows(m1, level - 1, k.value, s.Kid(), path[1..], frame, flags);
        KidGrows(m, level, f, s, path, frame, flags, m1, k.value, m',
                 if s.owned && ok then Some(frame) else None);
      }
    }
  }

  lemma {:induction false} RootIn(m: Memory, level: nat, f: nat, s: Scope)
    requires Good(m, level, f, s) && level >= 1
    ensures m.Valid() && f < |m.tables| && Tree(m.tables, level, f, s)
  {}

  /** What lies behind the other entries is walked as before. */
  lemma {:induction false} OtherKidWalks(t: Tables, t': Tables, level: nat, f: nat, s: Scope, i: nat, e: Entry,
      changed: set<nat>,
      q: seq<nat>)
    requires level >= 1 && i < s.top && Tree(t, level, f, s) && KidChanged(t, t', level, f, i, e, changed, s)
    requires Path(q, level, s.top, s.below) && q[0] != i
    ensures Walk(t', level, f, q) == Walk(t, level, f, q)
  {
    assert KidTree(t, level, f, q[0], s);
    assert changed !! KidFoot(t, level, f, q[0], s);
    if t[f][q[0]].IsMapped() { WalkFramed(t, t', level - 1, t[f][q[0]].frame, s.Kid(), q[1..]); }
  }

  lemma {:induction false} SiblingTranslates(m: Memory, level: nat, f: nat, s: Scope, path: seq<nat>, frame: nat,
      flags: set<Flag>, q: seq<nat>)
    requires MayMap(m, level, f, s, path, frame, flags) && level >= 2
    requires Path(q, level, s.top, s.below) && q[0] != path[0]
    ensures Walk(MapPath(m, level, f, path, frame, flags).0.tables, level, f, q) == Walk(m.tables, level, f, q)
  {
    hide MapEntry, MapPath, Walk, Tree, Foot, Grown, KidChanged;
    RootIn(m, level, f, s);
    MapPathUnfolds(m, level, f, path, frame, flags);
    var (m', ok) := MapPath(m, level, f, path, frame, flags);
    var (m1, k) := MapEntry(m, f, path[0], flags);
    if k.Some? {
      KidMayMap(m, level, f, s, path, frame, flags);
      MapPathGrows(m1, level - 1, k.value, s.Kid(), path[1..], frame, flags);
      KidIsolated(m, level, f, s, path, frame, flags, m1, k.value, m', if s.owned && ok then Some(frame) else None);
      OtherKidWalks(m.tables, m'.tables, level, f, s, path[0], Entry(flags, k.value),
                    Foot(m'.tables, level - 1, k.value, s.Kid()), q);
    } else {
      NoEntryWhenFull(m, f, path[0], flags);
    }
  }

  /** Mapping one path gives that path its frame and leaves every other translation as it was;
      a failed mapping leaves all of them. */
  lemma {:induction false} MapPathTranslates(m: Memory, level: nat, f: nat, s: Scope, path: seq<nat>, frame: nat,
      flags: set<Flag>, q: seq<nat>)
    requires MayMap(m, level, f, s, path, frame, flags)
    requires Path(q, level, s.top, s.below)
    ensures var (m', ok) := MapPath(m, level, f, path, frame, flags);
      Walk(m'.tables, level, f, q) == if ok && q == path then Some(frame) else Walk(m.tables, level, f, q)
    decreases level
  {
    var (m', ok) := MapPath(m, level, f, path, frame, flags);
    var i, j := path[0], q[0];
    assert KidTree(m.tables, level, f, i, s) && KidTree(m.tables, level, f, j, s);
    if level == 1 {
      assert i == j ==> q == path;
    } else {
      var (m1, k) := MapEntry(m, f, i, flags);
      if k.Some? {
        KidMayMap(m, level, f, s, path, frame, flags);
        if i == j {
          assert q == path <==> q[1..] == path[1..] by { assert q == [i] + q[1..] && path == [i] + path[1..]; }
          assert m'.tables[f][i] == Entry(flags, k.value) by {
            MapPathGrows(m1, level - 1, k.value, s.Kid(), path[1..], frame, flags);
            KidIsolated(m, level, f, s, path, frame, flags, m1, k.value, m', if s.owned &&
                ok then Some(frame) else None);
          }
          MapPathTranslates(m1, level - 1, k.value, s.Kid(), path[1..], frame, flags, q[1..]);
          EntryTranslates(m, level, f, s, flags, q);
        } else {
          SiblingTranslates(m, level, f, s, path, frame, flags, q);
        }
      }
    }
  }

  /** A table put in place translates nothing yet; one that was there translates as before. */
  lemma {:induction false} EntryTranslates(m: Memory, level: nat, f: nat, s: Scope, flags: set<Flag>, q: seq<nat>)
    requires Good(m, level, f, s) && level >= 2 && Present in flags && Path(q, level, s.top, s.below)
    ensures var (m1, k) := MapEntry(m, f, q[0], flags);
      k.Some? ==> Walk(m1.tables, level - 1, k.value, q[1..]) == Walk(m.tables, level, f, q)
  {
    var (m1, k) := MapEntry(m, f, q[0], flags);
    assert KidTree(m.tables, level, f, q[0], s);
    if m.tables[f][q[0]].IsMapped() {
      WalkFramed(m.tables, m1.tables, level - 1, k.value, s.Kid(), q[1..]);
    }
  }
}
