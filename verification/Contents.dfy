/** What frames hold while an address space is built around them: page tables grow and change, and the
    contents of the frames taken for the process do not. */
module Contents {
  import opened Wrappers
  import opened FrameAllocator
  import opened Paging
  import opened AddressSpace
  import opened Lifetime

  lemma {:induction false} TablesTree(t: Tables, level: nat, f: nat, s: Scope)
    requires Tree(t, level, f, s)
    ensures Tree(t, level, f, TablesOf(s))
    decreases level
  {
    if level > 0 {
      forall i | 0 <= i < s.top
        ensures KidFoot(t, level, f, i, TablesOf(s)) <= KidFoot(t, level, f, i, s)
        ensures KidTree(t, level, f, i, TablesOf(s))
      {
        assert KidTree(t, level, f, i, s);
        if t[f][i].IsMapped() {
          TablesInFoot(t, level - 1, t[f][i].frame, s.Kid());
          TablesTree(t, level - 1, t[f][i].frame, s.Kid());
        }
      }
    }
  }

  /** Whatever becomes of a mapping, a frame in use that is no table is not written. */
  lemma {:induction false} MapSpares(m: Memory, root: nat, page: nat, frame: nat, flags: set<Flag>, x: nat)
    requires Good(m, 4, root, LOWER) && page < LOWER_PAGES && Present in flags
    requires x < |m.used| && m.used[x] && x !in Foot(m.tables, 4, root, TablesOf(LOWER))
    ensures MapTo(m, root, page, frame, flags).0.tables[x] == m.tables[x]
  {
    hide Translate, Tree, Foot, Walk, MapPath;
    LowerPath(page);
    TablesTree(m.tables, 4, root, LOWER);
    TablesInFoot(m.tables, 4, root, LOWER);
    var path := Translate(page * PAGE_SIZE);
    assert MayMap(m, 4, root, TablesOf(LOWER), path, frame, flags);
    MapPathGrows(m, 4, root, TablesOf(LOWER), path, frame, flags);
  }

  /** What a page leads to after a step. */
  ghost function WalkAfter(root: nat, s: Life, op: Op, s': Life, p: nat): Option<nat>
    requires s.m.Valid()
  {
    if op.Map? && op.page == p && !Failed(root, s, op, s') then Some(op.frame)
    else Walk(s.m.tables, 4, root, Translate(p * PAGE_SIZE))
  }

  lemma {:induction false} StepWalks(m0: Memory, s: Life, root: nat, current: nat, op: Op, s': Life, p: nat)
    requires Kept(m0, s, root, current) && Step(root, s, op, s') && p < LOWER_PAGES
    ensures Walk(s'.m.tables, 4, root, Translate(p * PAGE_SIZE)) == WalkAfter(root, s, op, s', p)
  {
    hide Translate, Tree, Foot, Walk, MapPath, Balanced, Serves;
    LowerPath(p);
    match op
    case Take =>
    case Store(frame, contents) =>
      DataIsNoTable(m0, s, root, current, frame);
      WalkFramed(s.m.tables, s'.m.tables, 4, root, TablesOf(LOWER), Translate(p * PAGE_SIZE));
    case Map(page, frame, flags) =>
      PagePaths(p, page);
      if Remapped(root, s, op, s') {
        PendingMayRemap(m0, s, root, current, page, frame, flags);
        RemapTranslates(s.m, 4, root, LOWER, Translate(page * PAGE_SIZE), frame, flags, Translate(p * PAGE_SIZE));
      } else {
        PendingMayMap(m0, s, root, current, page, frame, flags);
        MapPathTranslates(s.m, 4, root, LOWER, Translate(page * PAGE_SIZE), frame, flags, Translate(p * PAGE_SIZE));
      }
  }

  /** A frame that was taken stays with the address space. */
  lemma {:induction false} StepHolds(m0: Memory, s: Life, root: nat, current: nat, op: Op, s': Life, x: nat)
    requires Kept(m0, s, root, current) && Step(root, s, op, s') && HoldsData(s, root, x)
    ensures HoldsData(s', root, x)
  {
    hide Translate, Tree, Foot, Walk, MapTo, Accounted, Serves;
    if x in s.pending {
      if x !in s'.pending {
        StepWalks(m0, s, root, current, op, s', op.page);
        assert op.page in s'.pages;
      }
    } else {
      var p :| p in s.pages && Walk(s.m.tables, 4, root, Translate(p * PAGE_SIZE)) == Some(x);
      StepWalks(m0, s, root, current, op, s', p);
      if x !in s'.pending { assert p in s'.pages; }
    }
  }

  /** Only storing into it changes what a frame holds. */
  lemma {:induction false} StepSpares(m0: Memory, s: Life, root: nat, current: nat, op: Op, s': Life, x: nat)
    requires Kept(m0, s, root, current) && Step(root, s, op, s') && HoldsData(s, root, x)
    requires !(op.Store? && op.frame == x)
    ensures x < |s.m.tables| == |s'.m.tables| && s'.m.tables[x] == s.m.tables[x]
  {
    hide Translate, Tree, Foot, Walk, MapPath, Serves;
    DataIsNoTable(m0, s, root, current, x);
    if op.Map? {
      assert s.m.used[x] by { DataInUse(m0, s, root, current, x); }
      MapSpares(s.m, root, op.page, op.frame, op.flags, x);
    }
  }

  lemma {:induction false} DataInUse(m0: Memory, s: Life, root: nat, current: nat, x: nat)
    requires Kept(m0, s, root, current) && HoldsData(s, root, x)
    ensures x < |s.m.used| && s.m.used[x]
  {
    hide Translate, Tree, Foot, Walk, Serves;
    if x !in s.pending {
      var p :| p in s.pages && Walk(s.m.tables, 4, root, Translate(p * PAGE_SIZE)) == Some(x);
      LowerPath(p);
      WalkInFoot(s.m.tables, 4, root, LOWER, Translate(p * PAGE_SIZE));
    }
  }

  predicate NotStored(ops: seq<Op>, i: nat, j: nat, x: nat)
    requires i <= j <= |ops|
  {
    forall k :: i <= k < j ==> !(ops[k].Store? && ops[k].frame == x)
  }

  /** From the time a frame was taken, whatever is taken, mapped, mapped again or fails to be mapped, the
      frame holds what was stored there last. */
  lemma {:induction false} ContentsKept(m0: Memory, current: nat, root: nat, states: seq<Life>, ops: seq<Op>, i: nat,
      j: nat, x: nat)
    requires Run(m0, current, root, states, ops) && i <= j <= |ops|
    requires HoldsData(states[i], root, x) && NotStored(ops, i, j, x)
    ensures HoldsData(states[j], root, x)
    ensures x < |states[i].m.tables| == |states[j].m.tables| && states[j].m.tables[x] == states[i].m.tables[x]
    decreases j - i
  {
    hide Kept, Step, AllocateRoot, HoldsData;
    if i == j {
      RunKept(m0, current, root, states, ops, i);
      InMemory(m0, states[i], root, current, x);
    } else {
      ContentsKept(m0, current, root, states, ops, i, j - 1, x);
      RunKept(m0, current, root, states, ops, j - 1);
      StepHolds(m0, states[j - 1], root, current, ops[j - 1], states[j], x);
      StepSpares(m0, states[j - 1], root, current, ops[j - 1], states[j], x);
    }
  }

  lemma InMemory(m0: Memory, s: Life, root: nat, current: nat, x: nat)
    requires Kept(m0, s, root, current) && HoldsData(s, root, x)
    ensures x < |s.m.tables|
  {
    hide HoldsData, Tree, Foot, Walk, Serves;
    DataInUse(m0, s, root, current, x);
  }

  // ----- what the process had before -----

  ghost predicate SameContents(root: nat, s: Life, s': Life, x: nat) {
    HoldsData(s', root, x) && x < |s.m.tables| && x < |s'.m.tables| && s'.m.tables[x] == s.m.tables[x]
  }

  ghost predicate SamePage(root: nat, s: Life, s': Life, p: nat) {
    p in s'.pages &&
    Walk(s'.m.tables, 4, root, Translate(p * PAGE_SIZE)) == Walk(s.m.tables, 4, root, Translate(p * PAGE_SIZE))
  }

  /** Every page leads where it led, and every frame but these holds what it held. */
  ghost predicate Undisturbed(root: nat, s: Life, s': Life, except: set<nat>) {
    (forall x :: HoldsData(s, root, x) && x !in except ==> SameContents(root, s, s', x)) &&
    (forall p :: p in s.pages ==> SamePage(root, s, s', p))
  }

  ghost predicate NotHeld(root: nat, s: Life, frames: set<nat>) {
    forall x :: x in frames ==> !HoldsData(s, root, x)
  }

  lemma {:induction false} UndisturbedSelf(m0: Memory, s: Life, root: nat, current: nat)
    requires Kept(m0, s, root, current)
    ensures Undisturbed(root, s, s, {})
  {
    hide Kept, HoldsData, Walk, Translate;
    forall x | HoldsData(s, root, x) ensures SameContents(root, s, s, x) { InMemory(m0, s, root, current, x); }
  }

  lemma {:induction false} UndisturbedStep(m0: Memory, s0: Life, s: Life, root: nat, current: nat, op: Op, s': Life,
      except: set<nat>)
    requires Kept(m0, s, root, current) && Step(root, s, op, s') && Undisturbed(root, s0, s, except)
    requires op.Store? ==> op.frame in except
    requires op.Map? ==> op.page !in s0.pages
    ensures Undisturbed(root, s0, s', except)
  {
    hide HoldsData, Walk, Translate, MapTo, Accounted, Serves;
    forall x | HoldsData(s0, root, x) && x !in except ensures SameContents(root, s0, s', x) {
      assert SameContents(root, s0, s, x);
      StepHolds(m0, s, root, current, op, s', x);
      StepSpares(m0, s, root, current, op, s', x);
    }
    forall p | p in s0.pages ensures SamePage(root, s0, s', p) {
      assert SamePage(root, s0, s, p);
      StepWalks(m0, s, root, current, op, s', p);
    }
  }

  lemma UndisturbedTrans(root: nat, s0: Life, s1: Life, s2: Life, except: set<nat>)
    requires Undisturbed(root, s0, s1, {}) && Undisturbed(root, s1, s2, except) && NotHeld(root, s0, except)
    ensures Undisturbed(root, s0, s2, {})
  {
    hide HoldsData, Walk, Translate;
    forall x | HoldsData(s0, root, x) ensures SameContents(root, s0, s2, x) {
      assert SameContents(root, s0, s1, x) && SameContents(root, s1, s2, x);
    }
    forall p | p in s0.pages ensures SamePage(root, s0, s2, p) {
      assert SamePage(root, s0, s1, p) && SamePage(root, s1, s2, p);
    }
  }

  /** A frame that is free now held nothing of the process before. */
  lemma FreeNotHeld(m0: Memory, s0: Life, s: Life, root: nat, current: nat, x: nat)
    requires Kept(m0, s, root, current) && Undisturbed(root, s0, s, {})
    requires x < |s.m.used| && !s.m.used[x]
    ensures !HoldsData(s0, root, x)
  {
    hide Kept, HoldsData, Walk, Translate;
    if HoldsData(s0, root, x) {
      assert SameContents(root, s0, s, x);
      DataInUse(m0, s, root, current, x);
    }
  }
}
