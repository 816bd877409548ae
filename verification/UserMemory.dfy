/** Copying into another address space page by page, through the physical memory.

    The page tables appear as the flat map from pages to frames that they refine; a missing page or a
    write behind the end of the physical memory stops the kernel.
 */
module UserMemory {
  import opened Wrappers

  type Frames = map<nat, nat>

  /** Every mapped frame lies in the physical memory. */
  predicate Backed(phys: seq<Byte>, table: Frames) { forall p :: p in table ==> (table[p] + 1) * PAGE_SIZE <= |phys| }

  /** No frame is mapped twice. */
  predicate Injective(table: Frames) { forall p, q :: p in table && q in table && table[p] == table[q] ==> p == q }

  predicate Mapped(table: Frames, va: nat) { va / PAGE_SIZE in table }

  function PhysAddr(table: Frames, va: nat): nat
    requires Mapped(table, va)
  {
    table[va / PAGE_SIZE] * PAGE_SIZE + va % PAGE_SIZE
  }

  /** The byte that the process sees at a virtual address. */
  function Load(phys: seq<Byte>, table: Frames, va: nat): Byte
    requires Backed(phys, table) && Mapped(table, va)
  {
    phys[PhysAddr(table, va)]
  }

  function Poke(phys: seq<Byte>, at: nat, bytes: seq<Byte>): (r: seq<Byte>)
    requires at + |bytes| <= |phys|
    ensures |r| == |phys|
    ensures forall k :: 0 <= k < |r| ==> r[k] == if at <= k < at + |bytes| then bytes[k - at] else phys[k]
  {
    phys[..at] + bytes + phys[at + |bytes|..]
  }

  // ----- the loop -----

  /** The rounds of `copy_to_userspace` from round `i` of `n` on. */
  function CopyPages(phys: seq<Byte>, table: Frames, addr: nat, obj: seq<Byte>, copied: nat, i: nat,
      n: nat): Option<seq<Byte>>
    requires copied <= |obj| && i <= n
    decreases n - i
  {
    if i == n then Some(phys)
    else
      var diff := if i == 0 then addr % PAGE_SIZE else 0;
      var left := |obj| - copied;
      var count := if left > PAGE_SIZE then PAGE_SIZE - diff else left;
      var page := (addr + copied) / PAGE_SIZE;
      if page !in table || table[page] * PAGE_SIZE + diff + count > |phys| then None
      else CopyPages(Poke(phys, table[page] * PAGE_SIZE + diff, obj[copied..copied + count]), table, addr, obj,
          copied + count, i + 1, n)
  }

  function Rounds(len: nat): nat { (len + PAGE_SIZE - 1) / PAGE_SIZE + 1 }

  /** The physical memory after copying `obj` to `addr`, or nothing when the kernel stops. */
  function Copied(phys: seq<Byte>, table: Frames, addr: nat, obj: seq<Byte>): Option<seq<Byte>> {
    CopyPages(phys, table, addr, obj, 0, 0, Rounds(|obj|))
  }

  // ----- what copying should do -----

  /** The process sees `obj` at `addr` and otherwise what it saw before; frames that are not its own are
      as they were. */
  ghost predicate Copies(phys: seq<Byte>, table: Frames, addr: nat, obj: seq<Byte>, phys': seq<Byte>) {
    |phys'| == |phys| && Backed(phys, table) &&
    (forall va: nat :: Mapped(table, va) ==>
      Load(phys', table, va) == if addr <= va < addr + |obj| then obj[va - addr] else Load(phys, table, va)) &&
    (forall k :: 0 <= k < |phys| && k / PAGE_SIZE !in table.Values ==> phys'[k] == phys[k])
  }

  /** A poke inside one page. */
  lemma PokeCopies(phys: seq<Byte>, table: Frames, va: nat, bytes: seq<Byte>)
    requires Backed(phys, table) && Injective(table) && Mapped(table, va) && va % PAGE_SIZE + |bytes| <= PAGE_SIZE
    ensures Copies(phys, table, va, bytes, Poke(phys, PhysAddr(table, va), bytes))
  {
    var at := PhysAddr(table, va);
    var phys' := Poke(phys, at, bytes);
    forall w: nat | Mapped(table, w)
      ensures Load(phys', table, w) == if va <= w < va + |bytes| then bytes[w - va] else Load(phys, table, w)
    {
      if w / PAGE_SIZE != va / PAGE_SIZE { assert table[w / PAGE_SIZE] != table[va / PAGE_SIZE]; }
    }
    forall k | 0 <= k < |phys| && k / PAGE_SIZE !in table.Values ensures phys'[k] == phys[k] {
      assert table[va / PAGE_SIZE] in table.Values;
    }
  }

  lemma CopiesTrans(a: seq<Byte>, b: seq<Byte>, c: seq<Byte>, table: Frames, addr: nat, x: seq<Byte>, y: seq<Byte>)
    requires Copies(a, table, addr, x, b) && Copies(b, table, addr + |x|, y, c)
    ensures Copies(a, table, addr, x + y, c)
  {
    forall va: nat | Mapped(table, va)
      ensures Load(c, table, va) == if addr <= va < addr + |x + y| then (x + y)[va - addr] else Load(a, table, va)
    {
      assert Load(b, table, va) == if addr <= va < addr + |x| then x[va - addr] else Load(a, table, va);
    }
  }

  lemma CopiesSize(phys: seq<Byte>, table: Frames, addr: nat, obj: seq<Byte>, phys': seq<Byte>)
    requires Copies(phys, table, addr, obj, phys')
    ensures |phys'| == |phys|
  {}

  lemma CopiesNothing(phys: seq<Byte>, table: Frames, addr: nat)
    requires Backed(phys, table)
    ensures Copies(phys, table, addr, [], phys)
  {}

  // ----- when it does -----

  /** Every page from that of the first byte to that of the byte behind the last is mapped. */
  predicate PagesMapped(table: Frames, addr: nat, len: nat) {
    forall p :: addr / PAGE_SIZE <= p <= (addr + len) / PAGE_SIZE ==> p in table
  }

  predicate FitsFirstPage(addr: nat, len: nat) { addr % PAGE_SIZE + len <= PAGE_SIZE }

  /** The frame behind that of the first page is the one of the second page. */
  predicate Consecutive(table: Frames, addr: nat) {
    var page := addr / PAGE_SIZE;
    page in table && page + 1 in table && table[page + 1] == table[page] + 1
  }

  predicate Sound(table: Frames, addr: nat, len: nat) {
    FitsFirstPage(addr, len) || len > PAGE_SIZE || Consecutive(table, addr)
  }

  lemma NextRound(phys: seq<Byte>, table: Frames, addr: nat, obj: seq<Byte>, copied: nat, i: nat, n: nat, page: nat,
      diff: nat, count: nat)
    requires i < n && copied + count <= |obj| && page == (addr + copied) / PAGE_SIZE &&
        diff == if i == 0 then addr % PAGE_SIZE else 0
    requires count == if |obj| - copied > PAGE_SIZE then PAGE_SIZE - diff else |obj| - copied
    ensures CopyPages(phys, table, addr, obj, copied, i, n) ==
      if page !in table || table[page] * PAGE_SIZE + diff + count > |phys| then None
      else CopyPages(Poke(phys, table[page] * PAGE_SIZE + diff, obj[copied..copied + count]), table, addr, obj,
          copied + count, i + 1, n)
  {}

  /** One round, as far as it stays inside its page. */
  lemma Round(phys: seq<Byte>, table: Frames, addr: nat, obj: seq<Byte>, copied: nat, i: nat, n: nat, count: nat)
    requires Backed(phys, table) && Injective(table) && i < n && copied + count <= |obj|
    requires Mapped(table, addr + copied)
    requires (if i == 0 then addr % PAGE_SIZE else 0) == (addr + copied) % PAGE_SIZE
    requires count == if |obj| - copied > PAGE_SIZE then PAGE_SIZE - (addr + copied) % PAGE_SIZE else |obj| - copied
    requires (addr + copied) % PAGE_SIZE + count <= PAGE_SIZE
    ensures PhysAddr(table, addr + copied) + count <= |phys|
    ensures var phys' := Poke(phys, PhysAddr(table, addr + copied), obj[copied..copied + count]);
      CopyPages(phys, table, addr, obj, copied, i, n) == CopyPages(phys', table, addr, obj, copied + count, i + 1, n) &&
      Backed(phys', table) && Copies(phys, table, addr + copied, obj[copied..copied + count], phys')
  {
    hide CopyPages, Copies, Poke, Injective;
    var page, diff := (addr + copied) / PAGE_SIZE, (addr + copied) % PAGE_SIZE;
    NextRound(phys, table, addr, obj, copied, i, n, page, diff, count);
    PokeCopies(phys, table, addr + copied, obj[copied..copied + count]);
  }

  /** When everything is copied the remaining rounds only look their page up. */
  lemma {:induction false} IdleRounds(phys: seq<Byte>, table: Frames, addr: nat, obj: seq<Byte>, i: nat, n: nat)
    requires Backed(phys, table) && i <= n && Mapped(table, addr + |obj|) && i > 0
    ensures CopyPages(phys, table, addr, obj, |obj|, i, n) == Some(phys)
    decreases n - i
  {
    if i < n {
      assert Poke(phys, table[(addr + |obj|) / PAGE_SIZE] * PAGE_SIZE, obj[|obj|..|obj|]) == phys;
      IdleRounds(phys, table, addr, obj, i + 1, n);
    }
  }

  /** The rounds after the first, each of which starts on a page boundary. */
  lemma {:induction false} LaterRounds(phys: seq<Byte>, table: Frames, addr: nat, obj: seq<Byte>, copied: nat, i: nat,
      n: nat)
    requires Backed(phys, table) && Injective(table) && 0 < i <= n && copied <= |obj|
    requires (addr + copied) % PAGE_SIZE == 0 && |obj| - copied <= (n - i) * PAGE_SIZE
    requires PagesMapped(table, addr, |obj|)
    ensures var r := CopyPages(phys, table, addr, obj, copied, i, n);
      r.Some? && Copies(phys, table, addr + copied, obj[copied..], r.value)
    decreases n - i
  {
    hide CopyPages, Copies, Backed, Injective, Mapped, PagesMapped, Poke;
    PageIn(table, addr, |obj|, |obj|);
    if copied == |obj| {
      assert obj[copied..] == [];
      IdleRounds(phys, table, addr, obj, i, n);
      CopiesNothing(phys, table, addr + copied);
    } else {
      var left := |obj| - copied;
      var count := if left > PAGE_SIZE then PAGE_SIZE else left;
      PageIn(table, addr, |obj|, copied);
      Round(phys, table, addr, obj, copied, i, n, count);
      var phys' := Poke(phys, PhysAddr(table, addr + copied), obj[copied..copied + count]);
      var r := CopyPages(phys', table, addr, obj, copied + count, i + 1, n);
      if left > PAGE_SIZE {
        LaterRounds(phys', table, addr, obj, copied + count, i + 1, n);
      } else {
        assert obj[copied + count..] == [];
        IdleRounds(phys', table, addr, obj, i + 1, n);
        CopiesNothing(phys', table, addr + |obj|);
      }
      CopiesTrans(phys, phys', r.value, table, addr + copied, obj[copied..copied + count], obj[copied + count..]);
      assert obj[copied..copied + count] + obj[copied + count..] == obj[copied..];
    }
  }

  lemma PageIn(table: Frames, addr: nat, len: nat, k: nat)
    requires PagesMapped(table, addr, len) && k <= len
    ensures Mapped(table, addr + k)
  {
    assert addr / PAGE_SIZE <= (addr + k) / PAGE_SIZE <= (addr + len) / PAGE_SIZE;
  }

  /** A copy that fits its first page. */
  lemma ShortCopy(phys: seq<Byte>, table: Frames, addr: nat, obj: seq<Byte>)
    requires Backed(phys, table) && Injective(table) && PagesMapped(table, addr, |obj|) && FitsFirstPage(addr, |obj|)
    ensures var r := Copied(phys, table, addr, obj); r.Some? && Copies(phys, table, addr, obj, r.value)
  {
    hide CopyPages, Copies, Poke, Injective, PagesMapped;
    var n := Rounds(|obj|);
    PageIn(table, addr, |obj|, 0);
    PageIn(table, addr, |obj|, |obj|);
    assert obj[0..|obj|] == obj;
    Round(phys, table, addr, obj, 0, 0, n, |obj|);
    IdleRounds(Poke(phys, PhysAddr(table, addr), obj), table, addr, obj, 1, n);
  }

  /** A copy longer than a page. */
  lemma LongCopy(phys: seq<Byte>, table: Frames, addr: nat, obj: seq<Byte>)
    requires Backed(phys, table) && Injective(table) && PagesMapped(table, addr, |obj|) && |obj| > PAGE_SIZE
    ensures var r := Copied(phys, table, addr, obj); r.Some? && Copies(phys, table, addr, obj, r.value)
  {
    hide CopyPages, Copies, Backed, Injective, Mapped, PagesMapped, Poke;
    var n, count := Rounds(|obj|), PAGE_SIZE - addr % PAGE_SIZE;
    PageIn(table, addr, |obj|, 0);
    Round(phys, table, addr, obj, 0, 0, n, count);
    var phys' := Poke(phys, PhysAddr(table, addr), obj[0..count]);
    assert (addr + count) % PAGE_SIZE == 0;
    LaterRounds(phys', table, addr, obj, count, 1, n);
    CopiesTrans(phys, phys', Copied(phys, table, addr, obj).value, table, addr, obj[0..count], obj[count..]);
    assert obj[0..count] + obj[count..] == obj;
  }

  /** A copy of at most a page is one poke, whether or not it stays in its page. */
  lemma OnePoke(phys: seq<Byte>, table: Frames, addr: nat, obj: seq<Byte>)
    requires Backed(phys, table) && PagesMapped(table, addr, |obj|) && |obj| <= PAGE_SIZE
    ensures Copied(phys, table, addr, obj) ==
            if PhysAddr(table, addr) + |obj| > |phys| then None else Some(Poke(phys, PhysAddr(table, addr), obj))
  {
    assert obj[0..|obj|] == obj;
    if PhysAddr(table, addr) + |obj| <= |phys| {
      IdleRounds(Poke(phys, PhysAddr(table, addr), obj), table, addr, obj, 1, Rounds(|obj|));
    }
  }

  lemma PokeTwice(phys: seq<Byte>, at: nat, x: seq<Byte>, y: seq<Byte>)
    requires at + |x| + |y| <= |phys|
    ensures Poke(Poke(phys, at, x), at + |x|, y) == Poke(phys, at, x + y)
  {}

  /** A short copy over a page boundary, when the two frames happen to lie side by side. */
  lemma CrossingCopy(phys: seq<Byte>, table: Frames, addr: nat, obj: seq<Byte>)
    requires Backed(phys, table) && Injective(table) && PagesMapped(table, addr, |obj|)
    requires |obj| <= PAGE_SIZE && !FitsFirstPage(addr, |obj|) && Consecutive(table, addr)
    ensures var r := Copied(phys, table, addr, obj); r.Some? && Copies(phys, table, addr, obj, r.value)
  {
    OnePoke(phys, table, addr, obj);
    var count := PAGE_SIZE - addr % PAGE_SIZE;
    assert obj[..count] + obj[count..] == obj;
    PokeCrossing(phys, table, addr, obj[..count], obj[count..]);
  }

  lemma PokeCrossing(phys: seq<Byte>, table: Frames, addr: nat, x: seq<Byte>, y: seq<Byte>)
    requires Backed(phys, table) && Injective(table) && Consecutive(table, addr)
    requires |x| == PAGE_SIZE - addr % PAGE_SIZE && |y| <= PAGE_SIZE
    ensures Mapped(table, addr) && PhysAddr(table, addr) + |x + y| <= |phys|
    ensures Copies(phys, table, addr, x + y, Poke(phys, PhysAddr(table, addr), x + y))
  {
    hide Copies;
    var at := PhysAddr(table, addr);
    assert Mapped(table, addr + |x|) && PhysAddr(table, addr + |x|) == at + |x|;
    PokeCopies(phys, table, addr, x);
    PokeCopies(Poke(phys, at, x), table, addr + |x|, y);
    PokeTwice(phys, at, x, y);
    CopiesTrans(phys, Poke(phys, at, x), Poke(phys, at, x + y), table, addr, x, y);
  }

  /** The copy does what it should under these conditions, whatever is copied. */
  lemma CopySound(phys: seq<Byte>, table: Frames, addr: nat, obj: seq<Byte>)
    requires Backed(phys, table) && Injective(table) && PagesMapped(table, addr, |obj|) && Sound(table, addr, |obj|)
    ensures var r := Copied(phys, table, addr, obj); r.Some? && Copies(phys, table, addr, obj, r.value)
  {
    if FitsFirstPage(addr, |obj|) {
      ShortCopy(phys, table, addr, obj);
    } else if |obj| > PAGE_SIZE {
      LongCopy(phys, table, addr, obj);
    } else {
      CrossingCopy(phys, table, addr, obj);
    }
  }

  // ----- and when it does not -----

  /** A copy that does not stop the kernel has looked every page up. */
  lemma {:induction false} LookedUp(phys: seq<Byte>, table: Frames, addr: nat, obj: seq<Byte>, copied: nat, i: nat,
      n: nat)
    requires 0 < i < n && copied <= |obj| && (addr + copied) % PAGE_SIZE == 0 && |obj| - copied < (n - i) * PAGE_SIZE
    requires CopyPages(phys, table, addr, obj, copied, i, n).Some?
    ensures forall p :: (addr + copied) / PAGE_SIZE <= p <= (addr + |obj|) / PAGE_SIZE ==> p in table
    decreases n - i
  {
    var left := |obj| - copied;
    var count := if left > PAGE_SIZE then PAGE_SIZE else left;
    assert (addr + copied) / PAGE_SIZE in table;
    if left >= PAGE_SIZE {
      var at := table[(addr + copied) / PAGE_SIZE] * PAGE_SIZE;
      LookedUp(Poke(phys, at, obj[copied..copied + count]), table, addr, obj, copied + PAGE_SIZE, i + 1, n);
    }
  }

  lemma AllLookedUp(phys: seq<Byte>, table: Frames, addr: nat, obj: seq<Byte>)
    requires Copied(phys, table, addr, obj).Some?
    ensures PagesMapped(table, addr, |obj|)
  {
    var n := Rounds(|obj|);
    assert addr / PAGE_SIZE in table;
    var at := PhysAddr(table, addr);
    if |obj| > PAGE_SIZE {
      var count := PAGE_SIZE - addr % PAGE_SIZE;
      assert (addr + count) % PAGE_SIZE == 0;
      LookedUp(Poke(phys, at, obj[0..count]), table, addr, obj, count, 1, n);
    } else if obj != [] {
      assert n == 2;
      SecondLookup(Poke(phys, at, obj[0..|obj|]), table, addr, obj);
    }
  }

  lemma {:induction false} SecondLookup(phys: seq<Byte>, table: Frames, addr: nat, obj: seq<Byte>)
    requires CopyPages(phys, table, addr, obj, |obj|, 1, 2).Some?
    ensures (addr + |obj|) / PAGE_SIZE in table
  {}

  /** A short copy over a page boundary misses the second page unless its frame comes next. */
  lemma CrossingFails(size: nat, table: Frames, addr: nat, len: nat)
    requires Backed(Fill(size, 0), table) && Injective(table) && PagesMapped(table, addr, len)
    requires len <= PAGE_SIZE && !FitsFirstPage(addr, len) && !Consecutive(table, addr)
    ensures var r := Copied(Fill(size, 0), table, addr, Fill(len, 1));
      r.None? || !Copies(Fill(size, 0), table, addr, Fill(len, 1), r.value)
  {
    var phys, obj := Fill(size, 0), Fill(len, 1);
    OnePoke(phys, table, addr, obj);
    var second := addr + (PAGE_SIZE - addr % PAGE_SIZE);
    var p := addr / PAGE_SIZE;
    assert second / PAGE_SIZE == p + 1 && second % PAGE_SIZE == 0;
    assert p + 1 in table && table[p + 1] != table[p] && table[p + 1] != table[p] + 1;
    if Copied(phys, table, addr, obj).Some? {
      var r := Copied(phys, table, addr, obj).value;
      assert Mapped(table, second) && Load(r, table, second) == 0;
    }
  }

  /** Copying `len` bytes to `addr` does what it should for all contents. */
  ghost predicate Works(size: nat, table: Frames, addr: nat, len: nat) {
    forall phys: seq<Byte>, obj: seq<Byte> :: |phys| == size && |obj| == len ==> Worked(phys, table, addr, obj)
  }

  ghost predicate Worked(phys: seq<Byte>, table: Frames, addr: nat, obj: seq<Byte>) {
    var r := Copied(phys, table, addr, obj);
    r.Some? && Copies(phys, table, addr, obj, r.value)
  }

  /** Exactly when copying works: all pages up to that of the byte behind the last are mapped, and the
      copy stays in its first page, is longer than a page, or meets consecutive frames. */
  lemma CopyWorksIff(size: nat, table: Frames, addr: nat, len: nat)
    requires Backed(Fill(size, 0), table) && Injective(table)
    ensures Works(size, table, addr, len) <==> PagesMapped(table, addr, len) && Sound(table, addr, len)
  {
    hide Copied, Copies;
    if PagesMapped(table, addr, len) && Sound(table, addr, len) {
      forall phys: seq<Byte>, obj: seq<Byte> | |phys| == size && |obj| == len ensures Worked(phys, table, addr, obj) {
        CopySound(phys, table, addr, obj);
      }
    }
    if Works(size, table, addr, len) {
      assert Worked(Fill(size, 0), table, addr, Fill(len, 1));
      AllLookedUp(Fill(size, 0), table, addr, Fill(len, 1));
      if !Sound(table, addr, len) { CrossingFails(size, table, addr, len); }
    }
  }

  /** Ten bytes over a page boundary, with the second page's frame before the first's. */
  lemma CrossingExample()
    ensures var table: Frames := map[0 := 1, 1 := 0];
      Injective(table) && PagesMapped(table, 4090, 10) && !Works(2 * PAGE_SIZE, table, 4090, 10)
  {
    CopyWorksIff(2 * PAGE_SIZE, map[0 := 1, 1 := 0], 4090, 10);
  }
}
