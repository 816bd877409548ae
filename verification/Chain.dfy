/** Chains of blocks that tile an address range, as both heap allocators keep them: each block
    starts with a 16-byte header and the next block starts where it ends.

    Memory is looked at in 16-byte granules. A granule holds either a header or a word of
    client data; a header that was absorbed into a larger free block stays behind as a stale
    `Header` granule in that block's payload.
 */
module Chain {

  const HEADER: nat := 16

  /** A block of `span` bytes, its header included. */
  datatype Block = Block(at: nat, span: nat, free: bool) {
    function End(): nat { at + span }

    /** `a` lies in what the block's owner may use. */
    predicate Holds(a: nat) { at + HEADER <= a < at + span }
  }

  datatype Granule = Header(size: nat, free: bool) | Data(word: nat)

  predicate Tiles(c: seq<Block>, lo: nat, hi: nat) {
    if c == [] then lo == hi
    else c[0].at == lo && c[0].span >= HEADER && Tiles(c[1..], lo + c[0].span, hi)
  }

  /** Where block `k` starts; the end of the range for `k == |c|`. */
  function StartOf(c: seq<Block>, k: nat, hi: nat): nat
    requires k <= |c|
  {
    if k < |c| then c[k].at else hi
  }

  lemma {:induction false} TilesSplit(c: seq<Block>, lo: nat, hi: nat, k: nat)
    requires Tiles(c, lo, hi) && k <= |c|
    ensures lo <= StartOf(c, k, hi) <= hi
    ensures Tiles(c[..k], lo, StartOf(c, k, hi)) && Tiles(c[k..], StartOf(c, k, hi), hi)
  {
    if k == 0 {
      assert c[0..] == c;
      if c != [] { TilesSplit(c[1..], lo + c[0].span, hi, 0); }
    } else {
      TilesSplit(c[1..], lo + c[0].span, hi, k - 1);
      assert c[1..][..k - 1] == c[..k][1..];
      assert c[1..][k - 1..] == c[k..];
    }
  }

  lemma {:induction false} TilesConcat(a: seq<Block>, b: seq<Block>, lo: nat, mid: nat, hi: nat)
    requires Tiles(a, lo, mid) && Tiles(b, mid, hi)
    ensures Tiles(a + b, lo, hi)
  {
    if a == [] {
      assert a + b == b;
    } else {
      TilesConcat(a[1..], b, lo + a[0].span, mid, hi);
      assert (a + b)[1..] == a[1..] + b;
    }
  }

  /** Block `k` lies in the range and right before block `k + 1`. */
  lemma {:induction false} TilesAt(c: seq<Block>, lo: nat, hi: nat, k: nat)
    requires Tiles(c, lo, hi) && k < |c|
    ensures lo <= c[k].at && c[k].End() <= hi && c[k].span >= HEADER
    ensures c[k].End() == StartOf(c, k + 1, hi)
  {
    TilesSplit(c, lo, hi, k);
    TilesSplit(c[k..], c[k].at, hi, 1);
    assert c[k..][0] == c[k];
    assert c[k..][1..] == c[k + 1..];
    TilesSplit(c, lo, hi, k + 1);
  }

  lemma {:induction false} Ordered(c: seq<Block>, lo: nat, hi: nat, i: nat, j: nat)
    requires Tiles(c, lo, hi) && i < j < |c|
    ensures c[i].End() <= c[j].at
    decreases j
  {
    TilesAt(c, lo, hi, i);
    if i + 1 < j {
      Ordered(c, lo, hi, i, j - 1);
      TilesAt(c, lo, hi, j - 1);
    }
  }

  /** Two blocks of a chain share no byte. */
  lemma {:induction false} Disjoint(c: seq<Block>, lo: nat, hi: nat, i: nat, j: nat)
    requires Tiles(c, lo, hi) && i < |c| && j < |c| && i != j
    ensures c[i].End() <= c[j].at || c[j].End() <= c[i].at
  {
    if i < j { Ordered(c, lo, hi, i, j); } else { Ordered(c, lo, hi, j, i); }
  }

  /** A part of a chain may be replaced by anything that tiles the same range. */
  lemma {:induction false} Replace(c: seq<Block>, lo: nat, hi: nat, i: nat, j: nat, r: seq<Block>)
    requires Tiles(c, lo, hi) && i <= j <= |c|
    requires Tiles(r, StartOf(c, i, hi), StartOf(c, j, hi))
    ensures Tiles(c[..i] + r + c[j..], lo, hi)
  {
    TilesSplit(c, lo, hi, i);
    TilesSplit(c, lo, hi, j);
    TilesConcat(c[..i], r, lo, StartOf(c, i, hi), StartOf(c, j, hi));
    TilesConcat(c[..i] + r, c[j..], lo, StartOf(c, j, hi), hi);
  }

  // ----- the chain in memory -----

  /** The header that describes `b`; the stored size leaves out `off` bytes of the span. */
  function HeaderOf(b: Block, off: nat): Granule
    requires off <= b.span
  {
    Header(b.span - off, b.free)
  }

  /** The live headers: the granule at the start of each block describes it. */
  ghost predicate Headed(mem: map<nat, Granule>, c: seq<Block>, off: nat)
    requires off <= HEADER
  {
    forall k :: 0 <= k < |c| ==> c[k].span >= HEADER && c[k].at in mem && mem[c[k].at] == HeaderOf(c[k], off)
  }

  /** `a` belongs to a block in use. */
  ghost predicate InUse(c: seq<Block>, a: nat) {
    exists k :: 0 <= k < |c| && !c[k].free && c[k].Holds(a)
  }

  /** No granule of a block in use differs. */
  ghost predicate Kept(mem: map<nat, Granule>, mem': map<nat, Granule>, c: seq<Block>) {
    forall a :: a in mem && InUse(c, a) ==> a in mem' && mem'[a] == mem[a]
  }

  /** No address lies in two blocks, and no header lies in a payload. */
  lemma {:induction false} Apart(c: seq<Block>, lo: nat, hi: nat, i: nat, j: nat, a: nat)
    requires Tiles(c, lo, hi) && i < |c| && j < |c| && i != j
    requires c[i].at <= a < c[i].End()
    ensures a != c[j].at && !c[j].Holds(a)
  {
    Disjoint(c, lo, hi, i, j);
    TilesAt(c, lo, hi, j);
  }

  lemma {:induction false} ApartAll(c: seq<Block>, lo: nat, hi: nat, k: nat, a: nat)
    requires Tiles(c, lo, hi) && k < |c| && c[k].at <= a < c[k].End()
    ensures forall j :: 0 <= j < |c| && j != k ==> a != c[j].at && !c[j].Holds(a)
    ensures InUse(c, a) <==> !c[k].free && c[k].Holds(a)
  {
    forall j | 0 <= j < |c| && j != k ensures a != c[j].at && !c[j].Holds(a) {
      Apart(c, lo, hi, k, j, a);
    }
  }

  /** Writing inside the payload of a free block disturbs neither the headers nor a block in use. */
  lemma {:induction false} FreeWrite(mem: map<nat, Granule>, c: seq<Block>, lo: nat, hi: nat, k: nat, a: nat,
      g: Granule, off: nat)
    requires off <= HEADER && Tiles(c, lo, hi) && Headed(mem, c, off)
    requires k < |c| && c[k].free && c[k].Holds(a)
    ensures Headed(mem[a := g], c, off) && Kept(mem, mem[a := g], c)
  {
    ApartAll(c, lo, hi, k, a);
  }

  // ----- the three ways a chain changes -----

  function Split(c: seq<Block>, k: nat, n: nat): seq<Block>
    requires k < |c| && n <= c[k].span
  {
    c[..k] + [Block(c[k].at, n, true), Block(c[k].at + n, c[k].span - n, true)] + c[k + 1..]
  }

  function Merge(c: seq<Block>, k: nat): seq<Block>
    requires k + 1 < |c|
  {
    c[..k] + [Block(c[k].at, c[k].span + c[k + 1].span, true)] + c[k + 2..]
  }

  function Mark(c: seq<Block>, k: nat, free: bool): seq<Block>
    requires k < |c|
  {
    c[k := Block(c[k].at, c[k].span, free)]
  }

  /** The same addresses are in use, whatever happened to the free blocks. */
  ghost predicate SameUse(c: seq<Block>, c': seq<Block>) {
    forall a :: InUse(c, a) <==> InUse(c', a)
  }

  lemma SplitUse(c: seq<Block>, k: nat, n: nat)
    requires k < |c| && n <= c[k].span && c[k].free
    ensures SameUse(c, Split(c, k, n))
  {
    var c' := Split(c, k, n);
    forall a ensures InUse(c, a) <==> InUse(c', a) {
      if j :| 0 <= j < |c| && !c[j].free && c[j].Holds(a) {
        assert c'[if j < k then j else j + 1] == c[j];
      }
      if j :| 0 <= j < |c'| && !c'[j].free && c'[j].Holds(a) {
        assert c'[j] == c[if j < k then j else j - 1];
      }
    }
  }

  lemma MergeUse(c: seq<Block>, k: nat)
    requires k + 1 < |c| && c[k].free && c[k + 1].free
    ensures SameUse(c, Merge(c, k))
  {
    var c' := Merge(c, k);
    forall a ensures InUse(c, a) <==> InUse(c', a) {
      if j :| 0 <= j < |c| && !c[j].free && c[j].Holds(a) {
        assert c'[if j < k then j else j - 1] == c[j];
      }
      if j :| 0 <= j < |c'| && !c'[j].free && c'[j].Holds(a) {
        assert c'[j] == c[if j < k then j else j + 1];
      }
    }
  }

  lemma {:induction false} SplitTiles(c: seq<Block>, lo: nat, hi: nat, k: nat, n: nat)
    requires Tiles(c, lo, hi) && k < |c| && HEADER <= n && n + HEADER <= c[k].span
    ensures Tiles(Split(c, k, n), lo, hi)
  {
    TilesAt(c, lo, hi, k);
    var r := [Block(c[k].at, n, true), Block(c[k].at + n, c[k].span - n, true)];
    assert r[1..][1..] == [];
    Replace(c, lo, hi, k, k + 1, r);
  }

  lemma {:induction false} MergeTiles(c: seq<Block>, lo: nat, hi: nat, k: nat)
    requires Tiles(c, lo, hi) && k + 1 < |c|
    ensures Tiles(Merge(c, k), lo, hi)
  {
    TilesAt(c, lo, hi, k);
    TilesAt(c, lo, hi, k + 1);
    var r := [Block(c[k].at, c[k].span + c[k + 1].span, true)];
    assert r[1..] == [];
    Replace(c, lo, hi, k, k + 2, r);
  }

  lemma {:induction false} MarkTiles(c: seq<Block>, lo: nat, hi: nat, k: nat, free: bool)
    requires Tiles(c, lo, hi) && k < |c|
    ensures Tiles(Mark(c, k, free), lo, hi)
  {
    TilesAt(c, lo, hi, k);
    var r := [Block(c[k].at, c[k].span, free)];
    assert r[1..] == [];
    Replace(c, lo, hi, k, k + 1, r);
    assert Mark(c, k, free) == c[..k] + r + c[k + 1..];
  }

  /** Splitting a block by writing the two headers; a block in use loses a granule by it. */
  lemma {:induction false} SplitHeaders(mem: map<nat, Granule>, c: seq<Block>, lo: nat, hi: nat, k: nat, n: nat,
      off: nat)
    requires off <= HEADER && Tiles(c, lo, hi) && Headed(mem, c, off)
    requires k < |c| && HEADER <= n && n + HEADER <= c[k].span
    ensures var mem' := mem[c[k].at + n := Header(c[k].span - n - off, true)][c[k].at := Header(n - off, true)];
      Headed(mem', Split(c, k, n), off) && (c[k].free ==> Kept(mem, mem', c))
  {
    ApartAll(c, lo, hi, k, c[k].at);
    ApartAll(c, lo, hi, k, c[k].at + n);
    var c' := Split(c, k, n);
    forall j | 0 <= j < |c'| && j != k && j != k + 1
      ensures c'[j] == c[if j < k then j else j - 1]
    {}
  }

  /** Absorbing a free block into the free block before it by rewriting one header. */
  lemma {:induction false} MergeHeaders(mem: map<nat, Granule>, c: seq<Block>, lo: nat, hi: nat, k: nat, off: nat)
    requires off <= HEADER && Tiles(c, lo, hi) && Headed(mem, c, off)
    requires k + 1 < |c| && c[k].free && c[k + 1].free
    ensures var mem' := mem[c[k].at := Header(c[k].span + c[k + 1].span - off, true)];
      Headed(mem', Merge(c, k), off) && Kept(mem, mem', c)
  {
    TilesAt(c, lo, hi, k);
    ApartAll(c, lo, hi, k, c[k].at);
    var c' := Merge(c, k);
    forall j | 0 <= j < |c'| && j != k ensures c'[j] == c[if j < k then j else j + 1] {}
  }

  lemma {:induction false} MarkHeaders(mem: map<nat, Granule>, c: seq<Block>, lo: nat, hi: nat, k: nat, free: bool,
      off: nat)
    requires off <= HEADER && Tiles(c, lo, hi) && Headed(mem, c, off) && k < |c|
    ensures var mem' := mem[c[k].at := Header(c[k].span - off, free)];
      Headed(mem', Mark(c, k, free), off) && Kept(mem, mem', c)
  {
    TilesAt(c, lo, hi, k);
    ApartAll(c, lo, hi, k, c[k].at);
  }

  // ----- blocks in use and their owners -----

  /** Chunks in use are exactly the same chunks. */
  ghost predicate SameChunks(c: seq<Block>, c': seq<Block>) {
    forall b: Block :: !b.free ==> (b in c <==> b in c')
  }

  function FreeBytes(c: seq<Block>): nat {
    if c == [] then 0 else (if c[0].free then c[0].span else 0) + FreeBytes(c[1..])
  }

  lemma {:induction false} FreeBytesConcat(a: seq<Block>, b: seq<Block>)
    ensures FreeBytes(a + b) == FreeBytes(a) + FreeBytes(b)
  {
    if a == [] {
      assert a + b == b;
    } else {
      FreeBytesConcat(a[1..], b);
      assert (a + b)[1..] == a[1..] + b;
    }
  }

  /** Replacing blocks changes the free bytes by those of the blocks. */
  lemma {:induction false} FreeBytesReplaced(c: seq<Block>, k: nat, r: seq<Block>)
    requires k < |c|
    ensures FreeBytes(c[..k] + r + c[k + 1..]) + FreeBytes([c[k]]) == FreeBytes(c) + FreeBytes(r)
  {
    var left, right := c[..k], c[k + 1..];
    assert c == left + [c[k]] + right;
    FreeBytesConcat(left + [c[k]], right);
    FreeBytesConcat(left, [c[k]]);
    FreeBytesConcat(left + r, right);
    FreeBytesConcat(left, r);
  }

  lemma FreeBytesOne(b: Block)
    ensures FreeBytes([b]) == if b.free then b.span else 0
  {
    assert [b][1..] == [];
  }

  /** Marking a block as free or taken changes the free bytes by its span. */
  lemma {:induction false} MarkFreeBytes(c: seq<Block>, k: nat, free: bool)
    requires k < |c|
    ensures FreeBytes(Mark(c, k, free)) + (if c[k].free then c[k].span else 0) ==
      FreeBytes(c) + (if free then c[k].span else 0)
  {
    var b := Block(c[k].at, c[k].span, free);
    assert Mark(c, k, free) == c[..k] + [b] + c[k + 1..];
    FreeBytesReplaced(c, k, [b]);
    FreeBytesOne(c[k]);
    FreeBytesOne(b);
  }

  /** The addresses in use are those of the chunks in use. */
  lemma SameChunksSameUse(c: seq<Block>, c': seq<Block>)
    requires SameChunks(c, c')
    ensures SameUse(c, c')
  {
    forall a ensures InUse(c, a) <==> InUse(c', a) {
      if k :| 0 <= k < |c| && !c[k].free && c[k].Holds(a) {
        assert c[k] in c';
        var j :| 0 <= j < |c'| && c'[j] == c[k];
      }
      if k :| 0 <= k < |c'| && !c'[k].free && c'[k].Holds(a) {
        assert c'[k] in c;
        var j :| 0 <= j < |c| && c[j] == c'[k];
      }
    }
  }

  /** `b` is a chunk in use in `c` whose payload starts at `ptr`. */
  predicate Owns(c: seq<Block>, b: Block, ptr: nat) { b in c && !b.free && b.at + HEADER == ptr }

  ghost predicate Live(c: seq<Block>, ptr: nat) { exists b :: Owns(c, b, ptr) }

  function IndexAt(c: seq<Block>, at: nat): (k: nat)
    ensures k <= |c| && (k < |c| ==> c[k].at == at)
    ensures k == |c| ==> forall j :: 0 <= j < |c| ==> c[j].at != at
  {
    if c == [] || c[0].at == at then 0 else 1 + IndexAt(c[1..], at)
  }

  lemma {:induction false} FoundLive(c: seq<Block>, ptr: nat)
    requires Live(c, ptr)
    ensures ptr >= HEADER && IndexAt(c, ptr - HEADER) < |c|
  {
    var b :| Owns(c, b, ptr);
    var k :| 0 <= k < |c| && c[k] == b;
  }

  /** In a chain there is one block per address. */
  lemma {:induction false} UniqueAt(c: seq<Block>, lo: nat, hi: nat, b: Block)
    requires Tiles(c, lo, hi) && b in c
    ensures IndexAt(c, b.at) < |c| && c[IndexAt(c, b.at)] == b
  {
    var k :| 0 <= k < |c| && c[k] == b;
    var j := IndexAt(c, b.at);
    if j != k { Apart(c, lo, hi, k, j, b.at) by { TilesAt(c, lo, hi, k); } }
  }

  lemma StaysLive(c: seq<Block>, c': seq<Block>, ptr: nat)
    requires Live(c, ptr) && forall b: Block :: !b.free && b in c ==> b in c'
    ensures Live(c', ptr) && c' != []
  {
    var b :| Owns(c, b, ptr);
    assert Owns(c', b, ptr);
  }

  lemma {:induction false} FreeIsNotLive(c: seq<Block>, lo: nat, hi: nat, k: nat, ptr: nat)
    requires Tiles(c, lo, hi) && Live(c, ptr) && k < |c| && c[k].free
    ensures c[k].at + HEADER != ptr
  {
    var b :| Owns(c, b, ptr);
    if b.at == c[k].at { UniqueAt(c, lo, hi, b); UniqueAt(c, lo, hi, c[k]); }
  }

  lemma OwnerInUse(c: seq<Block>, b: Block)
    requires b in c && !b.free
    ensures forall a :: b.Holds(a) ==> InUse(c, a)
  {
    var k :| 0 <= k < |c| && c[k] == b;
  }

  lemma {:induction false} MarkChunks(c: seq<Block>, lo: nat, hi: nat, k: nat)
    requires Tiles(c, lo, hi) && k < |c|
    ensures forall b: Block :: !b.free ==> (b in Mark(c, k, true) <==> b in c && b.at != c[k].at)
  {
    hide Tiles;
    var c1 := Mark(c, k, true);
    forall j | 0 <= j < |c| && j != k ensures c[j].at != c[k].at && c1[j] == c[j] {
      TilesAt(c, lo, hi, k);
      Apart(c, lo, hi, k, j, c[k].at);
    }
  }

  lemma MarkUse(c: seq<Block>, k: nat)
    requires k < |c|
    ensures forall a: nat :: InUse(Mark(c, k, true), a) ==> InUse(c, a)
  {
    var c' := Mark(c, k, true);
    forall a: nat | InUse(c', a) ensures InUse(c, a) {
      var j :| 0 <= j < |c'| && !c'[j].free && c'[j].Holds(a);
      assert c[j] == c'[j];
    }
  }

  lemma KeptThrough(m1: map<nat, Granule>, m2: map<nat, Granule>, m3: map<nat, Granule>, c1: seq<Block>, c2: seq<Block>)
    requires Kept(m1, m2, c1) && Kept(m2, m3, c2) && forall a: nat :: InUse(c1, a) ==> InUse(c2, a)
    ensures Kept(m1, m3, c1)
  {}

  lemma NothingChanged(mem: map<nat, Granule>, c: seq<Block>)
    ensures Kept(mem, mem, c)
  {}

  lemma HeaderAt(mem: map<nat, Granule>, c: seq<Block>, k: nat, off: nat)
    requires off <= HEADER && Headed(mem, c, off) && k < |c|
    ensures c[k].at in mem && c[k].span >= HEADER && mem[c[k].at] == Header(c[k].span - off, c[k].free)
  {}

  lemma MarkedAt(c: seq<Block>, k: nat)
    requires k < |c|
    ensures |Mark(c, k, true)| == |c| && Mark(c, k, true)[k] == Block(c[k].at, c[k].span, true)
  {}

  lemma Regroup(a: seq<Block>, b: seq<Block>, c: seq<Block>)
    ensures a + (b + c) == (a + b) + c
  {}

  /** The `i`-th granule of the payload at `ptr`. */
  function Word(ptr: nat, i: nat): nat { ptr + 16 * i }

  /** `b` is a block in use before and after, with the same contents. */
  ghost predicate Untouched(c: seq<Block>, mem: map<nat, Granule>, c': seq<Block>, mem': map<nat, Granule>, b: Block) {
    b in c && b in c' && !b.free &&
    forall a :: a in mem && b.Holds(a) ==> a in mem' && mem'[a] == mem[a]
  }
}
