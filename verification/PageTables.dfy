/** The page-table code as it runs: tables are written in place and frames come from the bitmap. */
module PageTables {
  import opened Wrappers
  import opened FrameAllocator
  import opened Paging
  import opened AddressSpace
  import opened Lifetime
  import opened Contents
  import opened Rights

  /** The flags of the pages that a process gets from the kernel. */
  const USER_FLAGS: set<Flag> := {Writable, UserAccessible, Present}

  class PhysicalMemory {
    const allocator: RegionAllocator
    /** What every frame holds when read as a page table. */
    var tables: Tables

    constructor (allocator: RegionAllocator, tables: Tables)
      ensures this.allocator == allocator && this.tables == tables
    {
      this.allocator := allocator;
      this.tables := tables;
    }

    ghost function View(): Memory
      reads this, allocator, allocator.bitmap
    {
      Memory(allocator.Used(), tables)
    }

    method Zeroize(f: nat)
      requires f < |tables|
      modifies this
      ensures tables == old(tables)[f := EmptyTable()]
    {
      for i := 0 to ENTRY_COUNT
        invariant |tables| == |old(tables)|
        invariant forall x :: 0 <= x < |tables| && x != f ==> tables[x] == old(tables)[x]
        invariant forall j :: 0 <= j < i ==> tables[f][j] == ZERO
      {
        tables := SetEntry(tables, f, i, ZERO);
      }
      assert tables[f] == EmptyTable();
    }

    method AllocateFrame() returns (r: Option<Frame>)
      modifies allocator.bitmap
      ensures r == LeastFree(old(allocator.Used()))
      ensures allocator.Used() ==
        match r case Some(f) => old(allocator.Used())[f.number := true] case None => old(allocator.Used())
    {
      r := allocator.AllocateFrame();
    }

    /** `Entry::map` on entry `i` of the table in frame `f`. */
    method MapEntryAt(f: nat, i: nat, flags: set<Flag>) returns (r: Option<nat>)
      requires View().Valid() && f < |tables| && i < ENTRY_COUNT
      modifies this, allocator.bitmap
      ensures View().Valid() && (View(), r) == MapEntry(old(View()), f, i, flags)
    {
      if tables[f][i].IsMapped() {
        var frame := tables[f][i].frame;
        tables := SetEntry(tables, f, i, Entry(flags, frame));
        return Some(frame);
      }
      var frame := AllocateFrame();
      if frame.None? { return None; }
      tables := SetEntry(tables, f, i, Entry(flags, frame.value.number));
      Zeroize(frame.value.number);
      return Some(frame.value.number);
    }

    /** `PageTable::map_to`. */
    method MapPage(root: nat, page: nat, frame: nat, flags: set<Flag>, ghost s: Scope) returns (ok: bool)
      requires Good(View(), 4, root, s) && Path(Translate(page * PAGE_SIZE), 4, s.top, s.below)
      modifies this, allocator.bitmap
      ensures old(View()).Valid() && (View(), ok) == MapTo(old(View()), root, page, frame, flags)
    {
      hide Foot, KidTree, MapEntry, Translate;
      var path := Translate(page * PAGE_SIZE);
      ghost var m0 := View();
      EntryReady(m0, 4, root, s, path[0], flags);
      var level3 := MapEntryAt(root, path[0], flags);
      if level3.None? { return false; }
      ghost var m1 := View();
      EntryReady(m1, 3, level3.value, s.Kid(), path[1], flags);
      var level2 := MapEntryAt(level3.value, path[1], flags);
      if level2.None? { return false; }
      ghost var m2 := View();
      EntryReady(m2, 2, level2.value, s.Kid(), path[2], flags);
      var level1 := MapEntryAt(level2.value, path[2], flags);
      if level1.None? { return false; }
      tables := SetEntry(tables, level1.value, path[3], Entry(flags, frame));
      assert MapPath(m2, 2, level2.value, path[1..][1..], frame, flags) == (View(), true);
      return true;
    }

    /** `PageTable::get_frame`. */
    method GetFrame(root: nat, page: nat, ghost s: Scope) returns (r: Option<nat>)
      requires Good(View(), 4, root, s) && Path(Translate(page * PAGE_SIZE), 4, s.top, s.below)
      ensures r == Walk(tables, 4, root, Translate(page * PAGE_SIZE))
    {
      var path := Translate(page * PAGE_SIZE);
      assert KidTree(tables, 4, root, path[0], s);
      if !tables[root][path[0]].IsMapped() { return None; }
      var level3 := tables[root][path[0]].frame;
      assert KidTree(tables, 3, level3, path[1], s.Kid());
      if !tables[level3][path[1]].IsMapped() { return None; }
      var level2 := tables[level3][path[1]].frame;
      assert KidTree(tables, 2, level2, path[2], s.Kid());
      if !tables[level2][path[2]].IsMapped() { return None; }
      var level1 := tables[level2][path[2]].frame;
      if !tables[level1][path[3]].IsMapped() { return None; }
      return Some(tables[level1][path[3]].frame);
    }

    /** `PageTable::free`, with `Entry::free` for what its entries hold. */
    method Free(level: nat, f: nat)
      requires level >= 1 && Good(View(), level, f, FREED)
      modifies allocator.bitmap
      ensures allocator.Used() == Release(tables, old(allocator.Used()), level, f)
      decreases level, 0
    {
      hide Bits, LeastFree;
      ghost var used0 := allocator.Used();
      KidsOfTable(tables, level, f);
      for i := 0 to HIGHER_HALF_ENTRY
        invariant |allocator.Used()| == |used0|
        invariant ReleaseFrom(tables, allocator.Used(), level, f, i) == ReleaseFrom(tables, used0, level, f, 0)
        invariant forall x :: x in KidsFrom(tables, level, f, i) ==> x < |used0| && allocator.Used()[x]
      {
        KidsSplit(tables, level, f, i);
        if tables[f][i] != ZERO {
          ReleaseExact(tables, allocator.Used(), level - 1, tables[f][i].frame);
          FreeEntry(level - 1, tables[f][i].frame);
        }
      }
      allocator.DeallocateFrame(Frame(f));
    }

    method FreeEntry(level: nat, f: nat)
      requires Good(View(), level, f, FREED)
      modifies allocator.bitmap
      ensures allocator.Used() == Release(tables, old(allocator.Used()), level, f)
      decreases level, 1
    {
      if level == 0 {
        assert f in Foot(tables, 0, f, FREED);
        allocator.DeallocateFrame(Frame(f));
        return;
      }
      Free(level, f);
    }

    /** `copy_higher_half`: the upper entries become those of table `current`, one after the other; the
        lower entries and all other tables stay. */
    method CopyHigherHalf(root: nat, current: nat)
      requires root < |tables| && current < |tables|
      modifies this
      ensures |tables| == |old(tables)|
      ensures forall x :: 0 <= x < |tables| && x != root ==> tables[x] == old(tables)[x]
      ensures forall i :: 0 <= i < ENTRY_COUNT ==>
        tables[root][i] == old(tables)[if i < HIGHER_HALF_ENTRY then root else current][i]
    {
      for i := HIGHER_HALF_ENTRY to ENTRY_COUNT
        invariant |tables| == |old(tables)|
        invariant forall x :: 0 <= x < |tables| && x != root ==> tables[x] == old(tables)[x]
        invariant forall j :: 0 <= j < ENTRY_COUNT ==>
          tables[root][j] == old(tables)[if HIGHER_HALF_ENTRY <= j < i then current else root][j]
      {
        tables := SetEntry(tables, root, i, tables[current][i]);
      }
    }

    /** `allocate_pml4`, called while `current` is the active root. */
    method AllocatePml4(current: nat) returns (r: Option<nat>)
      requires View().Valid() && current < |tables| && allocator.Used()[current]
      modifies this, allocator.bitmap
      ensures (View(), r) == AllocateRoot(old(View()), current)
    {
      hide EmptyTable, Bits;
      var frame := AllocateFrame();
      if frame.None? { return None; }
      var root := frame.value.number;
      assert root != current;
      Zeroize(root);
      CopyHigherHalf(root, current);
      SharesHalf(old(tables), tables, root, current);
      return Some(root);
    }

    /** The first loop of `alloc_map!` takes all the frames of an area from the allocator. */
    method TakeFrames(count: nat, ghost t: Trace) returns (r: Option<seq<nat>>, ghost t': Trace)
      requires t.Valid() && View() == t.Last().m
      modifies allocator.bitmap
      ensures t'.Valid() && t'.m0 == t.m0 && t'.current == t.current && t'.root == t.root && View() == t'.Last().m
      ensures match r
        case None => forall x :: 0 <= x < |allocator.Used()| ==> allocator.Used()[x]
        case Some(frames) =>
          |frames| == count && Fresh(frames, t.Last().pending) && NotHeld(t.root, t.Last(), Rest(frames, 0)) &&
          t'.Last() == Life(View(), t.Last().pending + Rest(frames, 0), t.Last().pages)
      ensures Undisturbed(t.root, t.Last(), t'.Last(), {})
    {
      hide Trace.Valid, LeastFree, Bits, Kept, Good, Tree, Foot, Walk, MapTo, HoldsData, Rest, Fresh, Undisturbed;
      var frames: seq<nat> := [];
      t' := t;
      NoneTaken(t.Last().pending);
      TraceKept(t);
      UndisturbedSelf(t.m0, t.Last(), t.root, t.current);
      assert Rest(frames, 0) == {};
      for i := 0 to count
        invariant t'.Valid() && t'.m0 == t.m0 && t'.current == t.current && t'.root == t.root && |frames| == i
        invariant Fresh(frames, t.Last().pending)
        invariant t'.Last() == Life(View(), t.Last().pending + Rest(frames, 0), t.Last().pages)
        invariant Undisturbed(t.root, t.Last(), t'.Last(), {}) && NotHeld(t.root, t.Last(), Rest(frames, 0))
      {
        TraceKept(t');
        ghost var s := t'.Last();
        var frame := AllocateFrame();
        if frame.None? { return None, t'; }
        ghost var k := frame.value.number;
        ghost var s' := Life(View(), s.pending + {k}, s.pages);
        TraceGrows(t', Take, s');
        UndisturbedStep(t.m0, t.Last(), s, t.root, t.current, Take, s', {});
        FreeNotHeld(t.m0, t.Last(), s, t.root, t.current, k);
        FreshGrows(frames, t.Last().pending, k);
        assert t.Last().pending + Rest(frames, 0) + {k} == t.Last().pending + (Rest(frames, 0) + {k});
        frames := frames + [frame.value.number];
        t' := t'.Then(Take, s');
      }
      r := Some(frames);
    }

    /** The second loop clears them. */
    method ClearFrames(frames: seq<nat>, ghost t: Trace) returns (ghost t': Trace)
      requires t.Valid() && View() == t.Last().m && forall k :: 0 <= k < |frames| ==> frames[k] in t.Last().pending
      modifies this
      ensures t'.Valid() && t'.m0 == t.m0 && t'.current == t.current && t'.root == t.root
      ensures t'.Last() == Life(View(), t.Last().pending, t.Last().pages)
      ensures |tables| == |old(tables)|
      ensures forall k :: 0 <= k < |frames| ==> frames[k] < |tables| && tables[frames[k]] == EmptyTable()
      ensures forall x :: 0 <= x < |tables| && x !in frames ==> tables[x] == old(tables)[x]
      ensures Undisturbed(t.root, t.Last(), t'.Last(), Rest(frames, 0))
    {
      hide Trace.Valid, EmptyTable, Bits, Kept, Undisturbed;
      t' := t;
      TraceKept(t);
      UndisturbedSelf(t.m0, t.Last(), t.root, t.current);
      UndisturbedMore(t.root, t.Last(), t.Last(), Rest(frames, 0));
      for i := 0 to |frames|
        invariant t'.Valid() && t'.m0 == t.m0 && t'.current == t.current && t'.root == t.root
        invariant t'.Last() == Life(View(), t.Last().pending, t.Last().pages) && |tables| == |old(tables)|
        invariant forall k :: 0 <= k < i ==> frames[k] < |tables| && tables[frames[k]] == EmptyTable()
        invariant forall x :: 0 <= x < |tables| && x !in frames ==> tables[x] == old(tables)[x]
        invariant Undisturbed(t.root, t.Last(), t'.Last(), Rest(frames, 0))
      {
        TraceKept(t');
        Zeroize(frames[i]);
        ghost var op, s' := Store(frames[i], EmptyTable()), Life(View(), t.Last().pending, t.Last().pages);
        TraceGrows(t', op, s');
        UndisturbedStep(t.m0, t.Last(), t'.Last(), t.root, t.current, op, s', Rest(frames, 0));
        t' := t'.Then(op, s');
      }
    }

    /** The last loop maps them at the pages of the area, each page to its frame, and every entry on the
        way gets the flags of the area. Nothing is written into the frames. */
    method MapFrames(root: nat, from: nat, frames: seq<nat>, ghost pending: set<nat>, ghost t: Trace)
        returns (ok: bool, ghost t': Trace)
      requires t.Valid() && root == t.root && from + |frames| <= LOWER_PAGES && Fresh(frames, pending)
      requires t.Last() == Life(View(), pending + Rest(frames, 0), t.Last().pages)
      requires forall p :: from <= p < from + |frames| ==> p !in t.Last().pages
      modifies this, allocator.bitmap
      ensures t'.m0 == t.m0 && t'.current == t.current && t'.root == t.root
      ensures t'.Valid() && t'.Last().m == View()
      ensures !ok ==>
        t'.Last().pending != {} && forall x :: 0 <= x < |allocator.Used()| ==> allocator.Used()[x]
      ensures ok ==> t'.Last() == Life(View(), pending, t.Last().pages + Area(from, |frames|))
      ensures ok ==> forall k :: 0 <= k < |frames| ==> Served(tables, root, from + k, frames[k], USER_FLAGS)
      ensures Undisturbed(root, t.Last(), t'.Last(), {})
    {
      hide Trace.Valid, Bits, Good, Translate, MapPath, MayMap, Kept, LeastFree, Undisturbed, Served;
      var flags := USER_FLAGS;
      t' := t;
      TraceKept(t);
      UndisturbedSelf(t.m0, t.Last(), root, t.current);
      assert Area(from, 0) == {};
      for i := 0 to |frames|
        invariant t'.Valid() && t'.m0 == t.m0 && t'.current == t.current && t'.root == t.root
        invariant t'.Last() == Life(View(), pending + Rest(frames, i), t.Last().pages + Area(from, i))
        invariant forall k :: 0 <= k < i ==> Served(tables, root, from + k, frames[k], USER_FLAGS)
        invariant Undisturbed(root, t.Last(), t'.Last(), {})
      {
        ghost var s := t'.Last();
        TraceKept(t');
        LowerPath(from + i);
        RestStep(frames, pending, i);
        PendingMayMap(t.m0, s, root, t.current, from + i, frames[i], flags);
        ok := MapPage(root, from + i, frames[i], flags, LOWER);
        if !ok {
          MapToFails(s.m, root, LOWER, from + i, frames[i], flags, View());
          assert View().used == allocator.Used();
          ghost var op, s' := Map(from + i, frames[i], flags), Life(View(), s.pending, s.pages);
          assert Failed(root, s, op, s');
          TraceGrows(t', op, s');
          UndisturbedStep(t.m0, t.Last(), s, root, t.current, op, s', {});
          t' := t'.Then(op, s');
          return;
        }
        assert Area(from, i + 1) == Area(from, i) + {from + i};
        ghost var op := Map(from + i, frames[i], flags);
        ghost var s' := Life(View(), pending + Rest(frames, i + 1), t.Last().pages + Area(from, i + 1));
        assert s'.pages == s.pages + {from + i};
        TraceGrows(t', op, s');
        UndisturbedStep(t.m0, t.Last(), s, root, t.current, op, s', {});
        forall k | 0 <= k < i + 1 ensures Served(tables, root, from + k, frames[k], USER_FLAGS) {
          MapToServes(s.m, root, from + i, frames[i], flags, from + k, frames[k]);
        }
        t' := t'.Then(op, s');
      }
      assert pending + Rest(frames, |frames|) == pending;
      ok := true;
    }

    /** `alloc_map!`: all frames of an area are taken first and mapped afterwards. The area becomes part of
        the life of the address space, and nothing stays pending; it fails only when every frame is in
        use, and then the frames it took and did not map stay pending. Every page of the area leads to a
        cleared frame that the process may read and write, and what it had before is undisturbed. */
    method AllocArea(root: nat, from: nat, count: nat, ghost t: Trace) returns (ok: bool, ghost t': Trace)
      requires t.Valid() && root == t.root && View() == t.Last().m && from + count <= LOWER_PAGES
      requires forall p :: from <= p < from + count ==> p !in t.Last().pages
      modifies this, allocator.bitmap
      ensures t'.m0 == t.m0 && t'.current == t.current && t'.root == t.root
      ensures t'.Valid() && t'.Last().m == View()
      ensures !ok ==> forall x :: 0 <= x < |allocator.Used()| ==> allocator.Used()[x]
      ensures ok ==> t'.Last() == Life(View(), t.Last().pending, t.Last().pages + Area(from, count))
      ensures ok ==> forall p :: from <= p < from + count ==> ServedCleared(tables, root, p)
      ensures Undisturbed(root, t.Last(), t'.Last(), {})
    {
      hide Trace.Valid, Bits, Undisturbed, NotHeld, Served, ServedCleared, EmptyTable;
      var frames;
      frames, t' := TakeFrames(count, t);
      if frames.None? { return false, t'; }
      ghost var taken := t'.Last();
      t' := ClearFrames(frames.value, t');
      ghost var cleared := t'.Last();
      UndisturbedTrans(root, t.Last(), taken, cleared, Rest(frames.value, 0));
      ok, t' := MapFrames(root, from, frames.value, t.Last().pending, t');
      NoneHeld(root, t.Last());
      UndisturbedTrans(root, t.Last(), cleared, t'.Last(), {});
      if ok {
        forall p | from <= p < from + count ensures ServedCleared(tables, root, p) {
          AreaCleared(root, cleared, t'.Last(), p, frames.value[p - from]);
        }
      }
    }
  }

  /** The page leads to a cleared frame, and every entry on the way has the flags of the area. */
  ghost predicate ServedCleared(t: Tables, root: nat, page: nat) {
    exists f: nat :: Served(t, root, page, f, USER_FLAGS) && f < |t| && t[f] == EmptyTable()
  }

  lemma AreaCleared(root: nat, s: Life, s': Life, page: nat, frame: nat)
    requires Undisturbed(root, s, s', {}) && frame in s.pending && frame < |s.m.tables|
    requires s.m.tables[frame] == EmptyTable() && Served(s'.m.tables, root, page, frame, USER_FLAGS)
    ensures ServedCleared(s'.m.tables, root, page)
  {
    hide EmptyTable, Served;
    assert HoldsData(s, root, frame);
    assert SameContents(root, s, s', frame);
  }

  lemma UndisturbedMore(root: nat, s: Life, s': Life, except: set<nat>)
    requires Undisturbed(root, s, s', {})
    ensures Undisturbed(root, s, s', except)
  {
    hide HoldsData, SameContents, SamePage;
  }

  lemma NoneHeld(root: nat, s: Life)
    ensures NotHeld(root, s, {})
  {}

  /** A cleared table that shares the higher half, in one expression. */
  lemma SharesHalf(t: Tables, t': Tables, root: nat, current: nat)
    requires |t'| == |t| && root < |t| && current < |t|
    requires forall x :: 0 <= x < |t| && x != root ==> t'[x] == t[x]
    requires forall i :: 0 <= i < ENTRY_COUNT ==>
      t'[root][i] == if i < HIGHER_HALF_ENTRY then EmptyTable()[i] else t[current][i]
    ensures t' == t[root := EmptyTable()[..HIGHER_HALF_ENTRY] + t[current][HIGHER_HALF_ENTRY..]]
  {
    hide EmptyTable;
    var half: Table := EmptyTable()[..HIGHER_HALF_ENTRY] + t[current][HIGHER_HALF_ENTRY..];
    assert t'[root] == half;
  }

  lemma MapToFails(m: Memory, root: nat, s: Scope, page: nat, frame: nat, flags: set<Flag>, m': Memory)
    requires MayMap(m, 4, root, s, Translate(page * PAGE_SIZE), frame, flags)
    requires MapTo(m, root, page, frame, flags) == (m', false)
    ensures forall x :: 0 <= x < |m'.used| ==> m'.used[x]
  {
    hide MapPath, MayMap, Translate;
    FailsOnlyWhenFull(m, 4, root, s, Translate(page * PAGE_SIZE), frame, flags);
  }

  // ----- the frames of an area -----

  /** Frames `i` and following. */
  function Rest(frames: seq<nat>, i: nat): set<nat> { set k | i <= k < |frames| :: frames[k] }

  function Area(from: nat, count: nat): (r: set<nat>)
    ensures forall p :: p in r <==> from <= p < from + count
  {
    if count == 0 then {} else Area(from, count - 1) + {from + count - 1}
  }

  /** Distinct frames, none of them pending. */
  predicate Fresh(frames: seq<nat>, pending: set<nat>) {
    (forall a, b :: 0 <= a < b < |frames| ==> frames[a] != frames[b]) && Rest(frames, 0) !! pending
  }

  lemma NoneTaken(pending: set<nat>)
    ensures Fresh([], pending) && pending + Rest([], 0) == pending
  {}

  lemma FreshGrows(frames: seq<nat>, pending: set<nat>, k: nat)
    requires Fresh(frames, pending) && k !in pending + Rest(frames, 0)
    ensures Fresh(frames + [k], pending) && Rest(frames + [k], 0) == Rest(frames, 0) + {k}
  {
    assert forall a :: 0 <= a < |frames| ==> frames[a] in Rest(frames, 0);
    forall x | x in Rest(frames, 0) + {k} ensures x in Rest(frames + [k], 0) {
      if x == k {
        assert (frames + [k])[|frames|] == k;
      } else {
        var a :| 0 <= a < |frames| && frames[a] == x;
        assert (frames + [k])[a] == x;
      }
    }
  }

  lemma RestStep(frames: seq<nat>, pending: set<nat>, i: nat)
    requires Fresh(frames, pending) && i < |frames|
    ensures frames[i] in Rest(frames, i) && (pending + Rest(frames, i)) - {frames[i]} == pending + Rest(frames, i + 1)
  {
    assert frames[i] in Rest(frames, 0);
  }
}
