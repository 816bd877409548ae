/** What a process may do with a page. The processor grants a right, to write for WRITABLE and to access at
    all for USER_ACCESSIBLE, only if every entry on the way to the page grants it (section 4.6 of the Intel
    SDM, volume 3A), and `map_to` writes the flags of the page into all of them. */
module Rights {
  import opened Wrappers
  import opened FrameAllocator
  import opened Paging
  import opened AddressSpace
  import Lifetime

  /** The flags of the entries along a path, as far as they are mapped. */
  function FlagsAlong(t: Tables, level: nat, f: nat, path: seq<nat>): (r: seq<set<Flag>>)
    requires Path(path, level, ENTRY_COUNT, ENTRY_COUNT)
    ensures |r| <= level
    decreases level
  {
    if level == 0 || f >= |t| || !t[f][path[0]].IsMapped() then []
    else [t[f][path[0]].flags] + FlagsAlong(t, level - 1, t[f][path[0]].frame, path[1..])
  }

  function Copies(flags: set<Flag>, n: nat): (r: seq<set<Flag>>)
    ensures |r| == n && forall i :: 0 <= i < n ==> r[i] == flags
  {
    if n == 0 then [] else [flags] + Copies(flags, n - 1)
  }

  lemma {:induction false} FlagsWhole(t: Tables, level: nat, f: nat, path: seq<nat>)
    requires Path(path, level, ENTRY_COUNT, ENTRY_COUNT)
    ensures Walk(t, level, f, path).Some? <==> |FlagsAlong(t, level, f, path)| == level && (level == 0 || f < |t|)
    decreases level
  {
    if level > 0 && f < |t| && t[f][path[0]].IsMapped() {
      FlagsWhole(t, level - 1, t[f][path[0]].frame, path[1..]);
      var k := t[f][path[0]].frame;
      if level > 1 && k >= |t| { assert FlagsAlong(t, level - 1, k, path[1..]) == []; }
    }
  }

  /** How far two paths go together. */
  function Common(p: seq<nat>, q: seq<nat>): (n: nat)
    ensures n <= |p| && n <= |q| && p[..n] == q[..n]
    ensures n < |p| && n < |q| ==> p[n] != q[n]
  {
    if p == [] || q == [] || p[0] != q[0] then 0
    else
      var n := Common(p[1..], q[1..]);
      assert p[..n + 1] == [p[0]] + p[1..][..n] && q[..n + 1] == [q[0]] + q[1..][..n];
      n + 1
  }

  lemma {:induction false} FlagsFramed(t: Tables, t': Tables, level: nat, f: nat, s: Scope, path: seq<nat>)
    requires |t| == |t'| && Path(path, level, s.top, s.below)
    requires forall x :: x in Foot(t, level, f, s) && x < |t| ==> t'[x] == t[x]
    ensures FlagsAlong(t', level, f, path) == FlagsAlong(t, level, f, path)
    decreases level
  {
    if level > 0 && f < |t| && t[f][path[0]].IsMapped() {
      InFoot(t, level, f, s, path[0]);
      FlagsFramed(t, t', level - 1, t[f][path[0]].frame, s.Kid(), path[1..]);
    }
  }

  lemma {:induction false} OtherKidFlags(t: Tables, t': Tables, level: nat, f: nat, s: Scope, i: nat, e: Entry,
      changed: set<nat>, q: seq<nat>)
    requires level >= 1 && i < s.top && Tree(t, level, f, s) && KidChanged(t, t', level, f, i, e, changed, s)
    requires Path(q, level, s.top, s.below) && q[0] != i
    ensures FlagsAlong(t', level, f, q) == FlagsAlong(t, level, f, q)
  {
    assert KidTree(t, level, f, q[0], s);
    assert changed !! KidFoot(t, level, f, q[0], s);
    if t[f][q[0]].IsMapped() { FlagsFramed(t, t', level - 1, t[f][q[0]].frame, s.Kid(), q[1..]); }
  }

  /** The path that is mapped, or one that was. */
  ghost predicate Traced(t: Tables, level: nat, f: nat, path: seq<nat>, q: seq<nat>)
    requires Path(q, level, ENTRY_COUNT, ENTRY_COUNT)
  {
    q == path || Walk(t, level, f, q).Some?
  }

  /** After a successful mapping every entry that a path shares with the one mapped has its flags; the
      others have those they had. */
  lemma {:induction false} MapPathFlags(m: Memory, level: nat, f: nat, s: Scope, path: seq<nat>, frame: nat,
      flags: set<Flag>, q: seq<nat>)
    requires MayMap(m, level, f, s, path, frame, flags) && MapPath(m, level, f, path, frame, flags).1
    requires Path(q, level, s.top, s.below) && Traced(m.tables, level, f, path, q)
    ensures var m', d := MapPath(m, level, f, path, frame, flags).0, Common(path, q);
      var before := FlagsAlong(m.tables, level, f, q);
      if q == path then FlagsAlong(m'.tables, level, f, q) == Copies(flags, level)
      else d < level == |before| && FlagsAlong(m'.tables, level, f, q) == Copies(flags, d) + before[d..]
    decreases level
  {
    hide MapEntry, MapPath, Tree, Foot, Walk, MayMap, KidChanged, FlagsAlong, Common;
    PathShape(m, level, f, s, path, frame, flags);
    if level == 1 {
      LeafFlags(m, f, s, path, frame, flags, q);
    } else {
      var m1, k := LevelDone(m, level, f, s, path, frame, flags);
      var m' := MapPath(m, level, f, path, frame, flags).0;
      SplitFirst(path, q);
      if q[0] == path[0] {
        KidTraced(m, level, f, s, path, frame, flags, q, m1, k);
        MapPathFlags(m1, level - 1, k, s.Kid(), path[1..], frame, flags, q[1..]);
        Assemble(m, level, f, path, flags, q, m1, k, m');
      } else {
        var changed := Foot(m'.tables, level - 1, k, s.Kid());
        OtherKidFlags(m.tables, m'.tables, level, f, s, path[0], Entry(flags, k), changed, q);
        FlagsWhole(m.tables, level, f, q);
        var before := FlagsAlong(m.tables, level, f, q);
        assert Copies(flags, 0) + before[0..] == before;
      }
    }
  }

  lemma PathShape(m: Memory, level: nat, f: nat, s: Scope, path: seq<nat>, frame: nat, flags: set<Flag>)
    requires MayMap(m, level, f, s, path, frame, flags)
    ensures level >= 1 && |path| == level
  {}

  lemma {:induction false} SplitFirst(p: seq<nat>, q: seq<nat>)
    requires |p| == |q| >= 1
    ensures q == p <==> q[0] == p[0] && q[1..] == p[1..]
    ensures Common(p, q) == if p[0] == q[0] then 1 + Common(p[1..], q[1..]) else 0
  {
    assert p == [p[0]] + p[1..] && q == [q[0]] + q[1..];
  }

  lemma FlagsFirst(t: Tables, level: nat, f: nat, q: seq<nat>)
    requires level >= 1 && Path(q, level, ENTRY_COUNT, ENTRY_COUNT) && f < |t|
    ensures FlagsAlong(t, level, f, q) ==
      if t[f][q[0]].IsMapped() then [t[f][q[0]].flags] + FlagsAlong(t, level - 1, t[f][q[0]].frame, q[1..]) else []
  {}

  lemma {:induction false} LeafFlags(m: Memory, f: nat, s: Scope, path: seq<nat>, frame: nat, flags: set<Flag>,
      q: seq<nat>)
    requires MayMap(m, 1, f, s, path, frame, flags) && Path(q, 1, s.top, s.below) && Traced(m.tables, 1, f, path, q)
    ensures var m', d := MapPath(m, 1, f, path, frame, flags).0, Common(path, q);
      var before := FlagsAlong(m.tables, 1, f, q);
      if q == path then FlagsAlong(m'.tables, 1, f, q) == Copies(flags, 1)
      else d < 1 == |before| && FlagsAlong(m'.tables, 1, f, q) == Copies(flags, d) + before[d..]
  {
    RootIn(m, 1, f, s);
    SplitFirst(path, q);
    assert q[1..] == path[1..] == [];
    var m' := MapPath(m, 1, f, path, frame, flags).0;
    assert m'.tables[f] == m.tables[f][path[0] := Entry(flags, frame)];
    FlagsWhole(m.tables, 1, f, q);
  }

  /** One level of a mapping: the entry leads to the table below, and what the others reach is unchanged. */
  lemma {:induction false} LevelDone(m: Memory, level: nat, f: nat, s: Scope, path: seq<nat>, frame: nat,
      flags: set<Flag>) returns (m1: Memory, k: nat)
    requires MayMap(m, level, f, s, path, frame, flags) && level >= 2 && MapPath(m, level, f, path, frame, flags).1
    ensures m.Valid() && f < |m.tables| && Tree(m.tables, level, f, s) && Path(path, level, s.top, s.below)
    ensures m1.Valid() && MapEntry(m, f, path[0], flags) == (m1, Some(k)) && Present in flags
    ensures MapPath(m, level, f, path, frame, flags) == MapPath(m1, level - 1, k, path[1..], frame, flags)
    ensures MayMap(m1, level - 1, k, s.Kid(), path[1..], frame, flags)
    ensures var m' := MapPath(m, level, f, path, frame, flags).0;
      |m'.tables| == |m.tables| && m'.tables[f][path[0]] == Entry(flags, k) &&
      KidChanged(m.tables, m'.tables, level, f, path[0], Entry(flags, k), Foot(m'.tables, level - 1, k, s.Kid()), s)
  {
    hide MapEntry, MapPath, Tree, Foot, Walk;
    RootIn(m, level, f, s);
    MapPathUnfolds(m, level, f, path, frame, flags);
    m1, k := MapEntry(m, f, path[0], flags).0, MapEntry(m, f, path[0], flags).1.value;
    KidMayMap(m, level, f, s, path, frame, flags);
    MapPathGrows(m1, level - 1, k, s.Kid(), path[1..], frame, flags);
    var m' := MapPath(m, level, f, path, frame, flags).0;
    KidIsolated(m, level, f, s, path, frame, flags, m1, k, m', if s.owned then Some(frame) else None);
  }

  /** The rest of a traced path is traced below the entry, and its flags there are those it had. */
  lemma {:induction false} KidTraced(m: Memory, level: nat, f: nat, s: Scope, path: seq<nat>, frame: nat,
      flags: set<Flag>, q: seq<nat>, m1: Memory, k: nat)
    requires MayMap(m, level, f, s, path, frame, flags) && level >= 2 && MapEntry(m, f, path[0], flags) == (m1, Some(k))
    requires Path(q, level, s.top, s.below) && q[0] == path[0] && Traced(m.tables, level, f, path, q)
    ensures Path(q[1..], level - 1, s.Kid().top, s.Kid().below) && Traced(m1.tables, level - 1, k, path[1..], q[1..])
    ensures q != path ==>
      f < |m.tables| && m.tables[f][q[0]].IsMapped() && m.tables[f][q[0]].frame == k &&
      FlagsAlong(m1.tables, level - 1, k, q[1..]) == FlagsAlong(m.tables, level - 1, k, q[1..])
  {
    if q != path {
      assert KidTree(m.tables, level, f, q[0], s);
      assert m.tables[f][q[0]].IsMapped();
      EntryTranslates(m, level, f, s, flags, q);
      EntryReady(m, level, f, s, q[0], flags);
      InFoot(m.tables, level, f, s, q[0]);
      FlagsFramed(m.tables, m1.tables, level - 1, k, s.Kid(), q[1..]);
    }
  }

  lemma Assemble(m: Memory, level: nat, f: nat, path: seq<nat>, flags: set<Flag>, q: seq<nat>, m1: Memory, k: nat,
      m': Memory)
    requires level >= 2 && |path| == |q| == level && q[0] == path[0] && f < |m.tables| == |m'.tables|
    requires Path(q, level, ENTRY_COUNT, ENTRY_COUNT) && Path(q[1..], level - 1, ENTRY_COUNT, ENTRY_COUNT)
    requires m'.tables[f][q[0]] == Entry(flags, k) && Present in flags
    requires q != path ==>
      m.tables[f][q[0]].IsMapped() && m.tables[f][q[0]].frame == k &&
      FlagsAlong(m1.tables, level - 1, k, q[1..]) == FlagsAlong(m.tables, level - 1, k, q[1..])
    requires var d, before := Common(path[1..], q[1..]), FlagsAlong(m1.tables, level - 1, k, q[1..]);
      if q[1..] == path[1..] then FlagsAlong(m'.tables, level - 1, k, q[1..]) == Copies(flags, level - 1)
      else d < level - 1 == |before| && FlagsAlong(m'.tables, level - 1, k, q[1..]) == Copies(flags, d) + before[d..]
    ensures var d, before := Common(path, q), FlagsAlong(m.tables, level, f, q);
      if q == path then FlagsAlong(m'.tables, level, f, q) == Copies(flags, level)
      else d < level == |before| && FlagsAlong(m'.tables, level, f, q) == Copies(flags, d) + before[d..]
  {
    hide FlagsAlong, Common;
    SplitFirst(path, q);
    FlagsFirst(m'.tables, level, f, q);
    FlagsFirst(m.tables, level, f, q);
    if q != path {
      var d := Common(path[1..], q[1..]);
      var rest := FlagsAlong(m.tables, level - 1, k, q[1..]);
      assert ([m.tables[f][q[0]].flags] + rest)[d + 1..] == rest[d..];
      assert [flags] + (Copies(flags, d) + rest[d..]) == Copies(flags, d + 1) + rest[d..];
    }
  }

  // ----- rights of pages -----

  /** What all of these grant. */
  function Meet(flags: seq<set<Flag>>): set<Flag>
    requires flags != []
  {
    if |flags| == 1 then flags[0] else flags[0] * Meet(flags[1..])
  }

  lemma {:induction false} MeetIn(flags: seq<set<Flag>>, x: Flag)
    requires flags != []
    ensures x in Meet(flags) <==> forall i :: 0 <= i < |flags| ==> x in flags[i]
    decreases |flags|
  {
    if |flags| > 1 {
      MeetIn(flags[1..], x);
      if x in flags[0] && x in Meet(flags[1..]) {
        forall i | 0 <= i < |flags| ensures x in flags[i] { if i > 0 { assert flags[1..][i - 1] == flags[i]; } }
      }
      if forall i :: 0 <= i < |flags| ==> x in flags[i] {
        forall i | 0 <= i < |flags| - 1 ensures x in flags[1..][i] { assert flags[1..][i] == flags[i + 1]; }
      }
    }
  }

  ghost function PageFlags(t: Tables, root: nat, page: nat): seq<set<Flag>> {
    FlagsAlong(t, 4, root, Translate(page * PAGE_SIZE))
  }

  /** The process may use the page in this way. */
  ghost predicate Grants(t: Tables, root: nat, page: nat, x: Flag) {
    var flags := PageFlags(t, root, page);
    |flags| == 4 && x in Meet(flags)
  }

  /** Mapping a page grants exactly its flags there. For every other page that was mapped it decides: what
      the entries shared with the new page granted is forgotten, and its flags count instead. */
  lemma {:induction false} MapToGrants(m: Memory, root: nat, s: Scope, page: nat, frame: nat, flags: set<Flag>,
      p: nat, x: Flag)
    requires MayMap(m, 4, root, s, Translate(page * PAGE_SIZE), frame, flags) && page < PAGES && p < PAGES
    requires MapTo(m, root, page, frame, flags).1 && Path(Translate(p * PAGE_SIZE), 4, s.top, s.below)
    requires p == page || Walk(m.tables, 4, root, Translate(p * PAGE_SIZE)).Some?
    ensures var t := MapTo(m, root, page, frame, flags).0.tables;
      var d := Common(Translate(page * PAGE_SIZE), Translate(p * PAGE_SIZE));
      if p == page then Grants(t, root, p, x) <==> x in flags
      else
        d < 4 == |PageFlags(m.tables, root, p)| &&
        (Grants(t, root, p, x) <==> (d > 0 ==> x in flags) && x in Meet(PageFlags(m.tables, root, p)[d..]))
  {
    hide Translate, MapPath, Tree, Foot, Walk, Common, FlagsAlong;
    var path, q := Translate(page * PAGE_SIZE), Translate(p * PAGE_SIZE);
    PagePaths(p, page);
    MapPathFlags(m, 4, root, s, path, frame, flags, q);
    var d, before := Common(path, q), PageFlags(m.tables, root, p);
    var after := PageFlags(MapTo(m, root, page, frame, flags).0.tables, root, p);
    MeetIn(after, x);
    if p == page {
      assert after[0] == flags;
    } else {
      MeetIn(before[d..], x);
      MeetSplit(flags, d, before[d..], x);
    }
  }

  lemma {:induction false} MeetSplit(flags: set<Flag>, d: nat, rest: seq<set<Flag>>, x: Flag)
    requires rest != []
    ensures x in Meet(Copies(flags, d) + rest) <==> (d > 0 ==> x in flags) && x in Meet(rest)
  {
    var all := Copies(flags, d) + rest;
    MeetIn(all, x);
    MeetIn(rest, x);
    if x in Meet(all) {
      forall i | 0 <= i < |rest| ensures x in rest[i] { assert all[d + i] == rest[i]; }
      if d > 0 { assert all[0] == flags; }
    }
  }

  /** So mapping a page without WRITABLE takes the right to write from every page that shares an entry with
      it, however that page was mapped. */
  lemma {:induction false} RightsLost(m: Memory, root: nat, s: Scope, page: nat, frame: nat, flags: set<Flag>, p: nat)
    requires MayMap(m, 4, root, s, Translate(page * PAGE_SIZE), frame, flags) && page < PAGES && p < PAGES
    requires MapTo(m, root, page, frame, flags).1 && Path(Translate(p * PAGE_SIZE), 4, s.top, s.below)
    requires p != page && Walk(m.tables, 4, root, Translate(p * PAGE_SIZE)).Some?
    requires P4Index(p * PAGE_SIZE) == P4Index(page * PAGE_SIZE) && Writable !in flags
    ensures !Grants(MapTo(m, root, page, frame, flags).0.tables, root, p, Writable)
  {
    hide MapPath, Tree, Foot, Walk, FlagsAlong, P4Index;
    MapToGrants(m, root, s, page, frame, flags, p, Writable);
  }

  // ----- the pages of an area -----

  /** The page leads to this frame, and every entry on the way has these flags. */
  ghost predicate Served(t: Tables, root: nat, page: nat, frame: nat, flags: set<Flag>) {
    Walk(t, 4, root, Translate(page * PAGE_SIZE)) == Some(frame) && PageFlags(t, root, page) == Copies(flags, 4)
  }

  /** Mapping serves its page, and serves on those that have the same flags. */
  lemma MapToServes(m: Memory, root: nat, page: nat, frame: nat, flags: set<Flag>, p: nat, f: nat)
    requires MayMap(m, 4, root, LOWER, Translate(page * PAGE_SIZE), frame, flags)
    requires page < LOWER_PAGES && p < LOWER_PAGES && MapTo(m, root, page, frame, flags).1
    requires if p == page then f == frame else Served(m.tables, root, p, f, flags)
    ensures Served(MapTo(m, root, page, frame, flags).0.tables, root, p, f, flags)
  {
    hide Translate, MapPath, Tree, Foot, Walk, Common, FlagsAlong;
    Lifetime.LowerPath(p);
    PagePaths(p, page);
    var path, q := Translate(page * PAGE_SIZE), Translate(p * PAGE_SIZE);
    MapPathTranslates(m, 4, root, LOWER, path, frame, flags, q);
    MapPathFlags(m, 4, root, LOWER, path, frame, flags, q);
    if p != page { CopiesSplit(flags, Common(path, q), 4); }
  }

  lemma {:induction false} CopiesSplit(flags: set<Flag>, d: nat, n: nat)
    requires d <= n
    ensures Copies(flags, d) + Copies(flags, n)[d..] == Copies(flags, n)
  {}
}
