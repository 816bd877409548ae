/** The argument block that the kernel writes for a new process and libc reads back. */
module Argv {
  import opened Wrappers
  import opened UserMemory

  const ENVIRONMENT_START := 0x00007E0000000000
  const ARGV_START := ENVIRONMENT_START + 0xA000000000
  const ARGV_SIZE := 4 * PAGE_SIZE
  const WORD_LIMIT := 0x1_0000_0000_0000_0000

  // ----- words -----

  function LittleEndian(n: nat, count: nat): (r: seq<Byte>)
    ensures |r| == count
  {
    if count == 0 then [] else [n % 256] + LittleEndian(n / 256, count - 1)
  }

  function Word(bytes: seq<Byte>): nat {
    if bytes == [] then 0 else bytes[0] + 256 * Word(bytes[1..])
  }

  function Power256(n: nat): (r: nat)
    ensures r > 0
  {
    if n == 0 then 1 else 256 * Power256(n - 1)
  }

  lemma {:induction false} WordOfLittleEndian(n: nat, count: nat)
    requires n < Power256(count)
    ensures Word(LittleEndian(n, count)) == n
    decreases count
  {
    if count > 0 {
      WordOfLittleEndian(n / 256, count - 1);
      assert LittleEndian(n, count)[1..] == LittleEndian(n / 256, count - 1);
    }
  }

  lemma EightBytes()
    ensures Power256(8) == WORD_LIMIT
  {
    assert Power256(4) == 0x1_0000_0000;
    assert Power256(6) == 0x1_0000_0000_0000;
  }

  function Bytes8(n: nat): (r: seq<Byte>)
    ensures |r| == 8
  {
    LittleEndian(n, 8)
  }

  lemma Word8(n: nat)
    requires n < WORD_LIMIT
    ensures Word(Bytes8(n)) == n
  {
    EightBytes();
    WordOfLittleEndian(n, 8);
  }

  // ----- the block -----

  /** The pieces the kernel writes one after the other: the count, then for every argument its length,
      its bytes and a NUL, then the address of every argument's length. */
  function StringPieces(argv: seq<seq<Byte>>): seq<seq<Byte>> {
    if argv == [] then [] else [Bytes8(|argv[0]|)] + ([argv[0]] + ([[0]] + StringPieces(argv[1..])))
  }

  function PointerPieces(argv: seq<seq<Byte>>, ptr: nat): seq<seq<Byte>> {
    if argv == [] then [] else [Bytes8(ptr)] + PointerPieces(argv[1..], ptr + 8 + |argv[0]| + 1)
  }

  function Pieces(argv: seq<seq<Byte>>): seq<seq<Byte>> {
    [Bytes8(|argv|)] + StringPieces(argv) + PointerPieces(argv, ARGV_START + 8)
  }

  function Concat(pieces: seq<seq<Byte>>): seq<Byte> {
    if pieces == [] then [] else pieces[0] + Concat(pieces[1..])
  }

  /** Writing pieces side by side. */
  function WriteAll(phys: seq<Byte>, table: Frames, at: nat, pieces: seq<seq<Byte>>): Option<seq<Byte>>
    decreases |pieces|
  {
    if pieces == [] then Some(phys)
    else
      match Copied(phys, table, at, pieces[0])
      case None => None
      case Some(phys1) => WriteAll(phys1, table, at + |pieces[0]|, pieces[1..])
  }

  /** Every single copy is sound and finds its pages. */
  predicate AllSound(table: Frames, at: nat, pieces: seq<seq<Byte>>)
    decreases |pieces|
  {
    pieces == [] ||
    (PagesMapped(table, at, |pieces[0]|) && Sound(table, at, |pieces[0]|) &&
        AllSound(table, at + |pieces[0]|, pieces[1..]))
  }

  lemma {:induction false} WriteAllCopies(phys: seq<Byte>, table: Frames, at: nat, pieces: seq<seq<Byte>>)
    requires Backed(phys, table) && Injective(table) && AllSound(table, at, pieces)
    ensures var r := WriteAll(phys, table, at, pieces); r.Some? && Copies(phys, table, at, Concat(pieces), r.value)
    decreases |pieces|
  {
    hide Copied, Copies, Injective;
    if pieces == [] {
      CopiesNothing(phys, table, at);
    } else {
      CopySound(phys, table, at, pieces[0]);
      var phys1 := Copied(phys, table, at, pieces[0]).value;
      assert |phys1| == |phys| by { CopiesSize(phys, table, at, pieces[0], phys1); }
      WriteAllCopies(phys1, table, at + |pieces[0]|, pieces[1..]);
      CopiesTrans(phys, phys1, WriteAll(phys, table, at, pieces).value, table, at, pieces[0], Concat(pieces[1..]));
    }
  }

  // ----- reading it back -----

  /** The bytes a process reads, or nothing on a page fault. */
  function ReadBytes(phys: seq<Byte>, table: Frames, va: nat, n: nat): (r: Option<seq<Byte>>)
    ensures r.Some? ==> |r.value| == n
    decreases n
  {
    if n == 0 then Some([])
    else if !Mapped(table, va) || PhysAddr(table, va) >= |phys| then None
    else
      match ReadBytes(phys, table, va + 1, n - 1)
      case None => None
      case Some(rest) => Some([phys[PhysAddr(table, va)]] + rest)
  }

  function ReadWord(phys: seq<Byte>, table: Frames, va: nat): Option<nat> {
    match ReadBytes(phys, table, va, 8)
    case None => None
    case Some(bytes) => Some(Word(bytes))
  }

  /** Argument `n`: no argument from `argc` on, an error on a page fault. */
  function Nth(phys: seq<Byte>, table: Frames, argc: nat, argv: nat, n: nat): Result<Option<seq<Byte>>, ()> {
    if n >= argc then Ok(None)
    else
      match ReadWord(phys, table, argv + 8 * n)
      case None => Err(())
      case Some(arg) =>
        match ReadWord(phys, table, arg)
        case None => Err(())
        case Some(len) =>
          match ReadBytes(phys, table, arg + 8, len)
          case None => Err(())
          case Some(bytes) => Ok(Some(bytes))
  }

  class ArgsIterator {
    var at: nat
    const argc: nat
    const argv: nat

    constructor (argc: nat, argv: nat)
      ensures at == 0 && this.argc == argc && this.argv == argv
    {
      at := 0;
      this.argc, this.argv := argc, argv;
    }

    method Next(phys: seq<Byte>, table: Frames) returns (r: Result<Option<seq<Byte>>, ()>)
      modifies this
      ensures r == Nth(phys, table, argc, argv, old(at)) && at == old(at) + 1
    {
      r := Nth(phys, table, argc, argv, at);
      at := at + 1;
    }
  }

  /** What was taken already comes first. */
  function Behind(taken: seq<seq<Byte>>, r: Result<seq<seq<Byte>>, ()>): Result<seq<seq<Byte>>, ()> {
    match r
    case Err(e) => Err(e)
    case Ok(rest) => Ok(taken + rest)
  }

  /** The arguments from `at` on, up to the first that is none. */
  function Following(phys: seq<Byte>, table: Frames, argc: nat, argv: nat, at: nat): Result<seq<seq<Byte>>, ()>
    decreases argc - at
  {
    match Nth(phys, table, argc, argv, at)
    case Err(e) => Err(e)
    case Ok(None) => Ok([])
    case Ok(Some(arg)) => Behind([arg], Following(phys, table, argc, argv, at + 1))
  }

  lemma BehindTwice(a: seq<seq<Byte>>, b: seq<seq<Byte>>, r: Result<seq<seq<Byte>>, ()>)
    ensures Behind([], r) == r && Behind(a, Behind(b, r)) == Behind(a + b, r)
  {
    if r.Ok? { assert [] + r.value == r.value && a + (b + r.value) == (a + b) + r.value; }
  }

  /** The loop in which programs take their arguments: `next` until it yields none. */
  method TakeArgs(args: ArgsIterator, phys: seq<Byte>, table: Frames) returns (r: Result<seq<seq<Byte>>, ()>)
    modifies args
    ensures r == Following(phys, table, args.argc, args.argv, old(args.at))
  {
    hide Nth;
    var taken: seq<seq<Byte>> := [];
    BehindTwice(taken, [], Following(phys, table, args.argc, args.argv, args.at));
    var arg := args.Next(phys, table);
    while arg.Ok? && arg.value.Some?
      invariant args.at > 0 && arg == Nth(phys, table, args.argc, args.argv, args.at - 1)
      invariant Following(phys, table, args.argc, args.argv, old(args.at)) ==
                Behind(taken, Following(phys, table, args.argc, args.argv, args.at - 1))
      decreases args.argc - args.at + if arg == Ok(None) then 0 else 1
    {
      NthBelow(phys, table, args.argc, args.argv, args.at - 1);
      BehindTwice(taken, [arg.value.value], Following(phys, table, args.argc, args.argv, args.at));
      taken := taken + [arg.value.value];
      arg := args.Next(phys, table);
    }
    assert taken + [] == taken;
    return if arg.Ok? then Ok(taken) else Err(arg.error);
  }

  lemma NthBelow(phys: seq<Byte>, table: Frames, argc: nat, argv: nat, n: nat)
    requires Nth(phys, table, argc, argv, n).Ok? && Nth(phys, table, argc, argv, n).value.Some?
    ensures n < argc
  {}

  /** `block` is what the process sees at `at`. */
  ghost predicate Holds(phys: seq<Byte>, table: Frames, at: nat, block: seq<Byte>) {
    Backed(phys, table) &&
    forall va: nat :: at <= va < at + |block| ==> Mapped(table, va) && Load(phys, table, va) == block[va - at]
  }

  lemma {:induction false} ReadHeld(phys: seq<Byte>, table: Frames, at: nat, block: seq<Byte>)
    requires Holds(phys, table, at, block)
    ensures ReadBytes(phys, table, at, |block|) == Some(block)
    decreases |block|
  {
    if block != [] {
      assert Mapped(table, at) && Load(phys, table, at) == block[0];
      ReadHeld(phys, table, at + 1, block[1..]);
      assert [block[0]] + block[1..] == block;
    }
  }

  lemma HeldParts(phys: seq<Byte>, table: Frames, at: nat, a: seq<Byte>, b: seq<Byte>)
    requires Holds(phys, table, at, a + b)
    ensures Holds(phys, table, at, a) && Holds(phys, table, at + |a|, b)
  {
    forall va: nat | at <= va < at + |a| ensures Mapped(table, va) && Load(phys, table, va) == a[va - at] {
      assert (a + b)[va - at] == a[va - at];
    }
    forall va: nat | at + |a| <= va < at + |a| + |b| ensures Mapped(table, va) &&
        Load(phys, table, va) == b[va - at - |a|] {
      assert (a + b)[va - at] == b[va - at - |a|];
    }
  }

  lemma CopiedHolds(phys: seq<Byte>, table: Frames, at: nat, block: seq<Byte>, phys': seq<Byte>)
    requires Copies(phys, table, at, block, phys')
    requires forall va: nat :: at <= va < at + |block| ==> Mapped(table, va)
    ensures Holds(phys', table, at, block)
  {}

  // ----- the round trip -----

  /** Where the length of argument `k` is, the strings starting at `ptr`. */
  function StringAddr(argv: seq<seq<Byte>>, ptr: nat, k: nat): nat
    requires k < |argv|
    decreases k
  {
    if k == 0 then ptr else StringAddr(argv[1..], ptr + 8 + |argv[0]| + 1, k - 1)
  }

  lemma {:induction false} ConcatSplit(a: seq<seq<Byte>>, b: seq<seq<Byte>>)
    ensures Concat(a + b) == Concat(a) + Concat(b)
    decreases |a|
  {
    if a == [] {
      assert a + b == b;
    } else {
      assert (a + b)[1..] == a[1..] + b;
      ConcatSplit(a[1..], b);
    }
  }

  lemma {:induction false} StringsCons(argv: seq<seq<Byte>>)
    requires argv != []
    ensures Concat(StringPieces(argv)) == Bytes8(|argv[0]|) + (argv[0] + ([0] + Concat(StringPieces(argv[1..]))))
  {
    var rest := StringPieces(argv[1..]);
    hide Concat, Bytes8;
    ConcatCons([0], rest);
    ConcatCons(argv[0], [[0]] + rest);
    ConcatCons(Bytes8(|argv[0]|), [argv[0]] + ([[0]] + rest));
  }

  lemma {:induction false} ConcatCons(x: seq<Byte>, rest: seq<seq<Byte>>)
    ensures Concat([x] + rest) == x + Concat(rest)
  {
    assert ([x] + rest)[1..] == rest;
  }

  lemma {:induction false} BlockParts(argv: seq<seq<Byte>>)
    ensures Concat(Pieces(argv)) ==
            (Bytes8(|argv|) + Concat(StringPieces(argv))) + Concat(PointerPieces(argv, ARGV_START + 8))
  {
    hide StringPieces, PointerPieces, Concat, Bytes8;
    ConcatSplit([Bytes8(|argv|)] + StringPieces(argv), PointerPieces(argv, ARGV_START + 8));
    ConcatCons(Bytes8(|argv|), StringPieces(argv));
  }

  /** The strings of the block can be read at their addresses. */
  lemma {:induction false} StringHeld(phys: seq<Byte>, table: Frames, ptr: nat, argv: seq<seq<Byte>>, k: nat)
    requires Holds(phys, table, ptr, Concat(StringPieces(argv))) && k < |argv|
    ensures var p := StringAddr(argv, ptr, k);
      Holds(phys, table, p, Bytes8(|argv[k]|)) && Holds(phys, table, p + 8, argv[k]) &&
      Holds(phys, table, p + 8 + |argv[k]|, [0])
    decreases k
  {
    hide Holds, StringPieces, Concat, Bytes8;
    StringsCons(argv);
    var rest := Concat(StringPieces(argv[1..]));
    HeldParts(phys, table, ptr, Bytes8(|argv[0]|), argv[0] + ([0] + rest));
    HeldParts(phys, table, ptr + 8, argv[0], [0] + rest);
    HeldParts(phys, table, ptr + 8 + |argv[0]|, [0], rest);
    if k > 0 { StringHeld(phys, table, ptr + 8 + |argv[0]| + 1, argv[1..], k - 1); }
  }

  lemma PointersCons(argv: seq<seq<Byte>>, ptr: nat)
    requires argv != []
    ensures Concat(PointerPieces(argv, ptr)) == Bytes8(ptr) + Concat(PointerPieces(argv[1..], ptr + 8 + |argv[0]| + 1))
  {
    hide Concat, Bytes8;
    ConcatCons(Bytes8(ptr), PointerPieces(argv[1..], ptr + 8 + |argv[0]| + 1));
  }

  /** The k-th pointer is the address of argument k's length. */
  lemma {:induction false} PointerHeld(phys: seq<Byte>, table: Frames, at: nat, argv: seq<seq<Byte>>, ptr: nat, k: nat)
    requires Holds(phys, table, at, Concat(PointerPieces(argv, ptr))) && k < |argv|
    ensures Holds(phys, table, at + 8 * k, Bytes8(StringAddr(argv, ptr, k)))
    decreases k
  {
    hide Holds, Concat, Bytes8, PointerPieces;
    PointersCons(argv, ptr);
    HeldParts(phys, table, at, Bytes8(ptr), Concat(PointerPieces(argv[1..], ptr + 8 + |argv[0]| + 1)));
    if k > 0 { PointerHeld(phys, table, at + 8, argv[1..], ptr + 8 + |argv[0]| + 1, k - 1); }
  }

  /** A block that is held and lies below the limit of a word is read back argument by argument. */
  lemma {:induction false} NthReads(phys: seq<Byte>, table: Frames, argv: seq<seq<Byte>>, k: nat)
    requires Holds(phys, table, ARGV_START, Concat(Pieces(argv))) && |Concat(Pieces(argv))| < ARGV_SIZE && k < |argv|
    ensures Nth(phys, table, |argv|, ARGV_START + 8 + |Concat(StringPieces(argv))|, k) == Ok(Some(argv[k]))
  {
    hide Holds, StringPieces, PointerPieces, Pieces, Nth, Concat, Bytes8, StringAddr;
    BlockHeld(phys, table, argv);
    var pointersAt := ARGV_START + 8 + |Concat(StringPieces(argv))|;
    StringHeld(phys, table, ARGV_START + 8, argv, k);
    PointerHeld(phys, table, pointersAt, argv, ARGV_START + 8, k);
    StringFits(argv, ARGV_START + 8, k);
    NthFollows(phys, table, |argv|, pointersAt, k, StringAddr(argv, ARGV_START + 8, k), argv[k]);
  }

  lemma {:induction false} BlockHeld(phys: seq<Byte>, table: Frames, argv: seq<seq<Byte>>)
    requires Holds(phys, table, ARGV_START, Concat(Pieces(argv)))
    ensures var strings := Concat(StringPieces(argv));
      |strings| + 8 <= |Concat(Pieces(argv))| && Holds(phys, table, ARGV_START, Bytes8(|argv|)) &&
      Holds(phys, table, ARGV_START + 8, strings) &&
      Holds(phys, table, ARGV_START + 8 + |strings|, Concat(PointerPieces(argv, ARGV_START + 8)))
  {
    hide Holds, StringPieces, PointerPieces, Pieces, Concat, Bytes8;
    BlockParts(argv);
    var count, strings, pointers := Bytes8(|argv|), Concat(StringPieces(argv)),
        Concat(PointerPieces(argv, ARGV_START + 8));
    HeldParts(phys, table, ARGV_START, count + strings, pointers);
    HeldParts(phys, table, ARGV_START, count, strings);
  }

  /** An argument and its address are inside the strings. */
  lemma {:induction false} StringFits(argv: seq<seq<Byte>>, ptr: nat, k: nat)
    requires k < |argv|
    ensures StringAddr(argv, ptr, k) + 8 + |argv[k]| <= ptr + |Concat(StringPieces(argv))|
    decreases k
  {
    StringsCons(argv);
    if k > 0 { StringFits(argv[1..], ptr + 8 + |argv[0]| + 1, k - 1); }
  }

  lemma NthFollows(phys: seq<Byte>, table: Frames, argc: nat, argv: nat, k: nat, p: nat, arg: seq<Byte>)
    requires k < argc && p < WORD_LIMIT && |arg| < WORD_LIMIT
    requires Holds(phys, table, argv + 8 * k, Bytes8(p)) && Holds(phys, table, p, Bytes8(|arg|)) &&
        Holds(phys, table, p + 8, arg)
    ensures Nth(phys, table, argc, argv, k) == Ok(Some(arg))
  {
    hide Bytes8, Holds, ReadBytes, Word;
    ReadHeld(phys, table, argv + 8 * k, Bytes8(p));
    ReadHeld(phys, table, p, Bytes8(|arg|));
    ReadHeld(phys, table, p + 8, arg);
    Word8(p);
    Word8(|arg|);
  }

  /** The area of the arguments is mapped. */
  predicate AreaMapped(table: Frames) {
    forall p :: ARGV_START / PAGE_SIZE <= p < (ARGV_START + ARGV_SIZE) / PAGE_SIZE ==> p in table
  }

  /** Every argument that the kernel writes is the one that libc reads, when the block ends inside the
      area and every single copy is sound. */
  lemma {:induction false} ArgvRoundTrip(phys: seq<Byte>, table: Frames, argv: seq<seq<Byte>>, k: nat)
    requires Backed(phys, table) && Injective(table) && AreaMapped(table)
    requires |Concat(Pieces(argv))| < ARGV_SIZE && AllSound(table, ARGV_START, Pieces(argv))
    ensures var r := WriteAll(phys, table, ARGV_START, Pieces(argv));
      r.Some? && Nth(r.value, table, |argv|, ARGV_START + 8 + |Concat(StringPieces(argv))|, k) ==
      if k < |argv| then Ok(Some(argv[k])) else Ok(None)
  {
    hide Pieces, StringPieces, Concat, WriteAll, Holds, AllSound, AreaMapped;
    BlockWritten(phys, table, argv);
    if k < |argv| { NthReads(WriteAll(phys, table, ARGV_START, Pieces(argv)).value, table, argv, k); }
  }

  lemma {:induction false} BlockWritten(phys: seq<Byte>, table: Frames, argv: seq<seq<Byte>>)
    requires Backed(phys, table) && Injective(table) && AreaMapped(table)
    requires |Concat(Pieces(argv))| < ARGV_SIZE && AllSound(table, ARGV_START, Pieces(argv))
    ensures var r := WriteAll(phys, table, ARGV_START, Pieces(argv));
      r.Some? && Holds(r.value, table, ARGV_START, Concat(Pieces(argv)))
  {
    hide Pieces, StringPieces, Concat, WriteAll, Copies, Injective;
    WriteAllCopies(phys, table, ARGV_START, Pieces(argv));
    var block := Concat(Pieces(argv));
    forall va: nat | ARGV_START <= va < ARGV_START + |block| ensures Mapped(table, va) {
      assert ARGV_START / PAGE_SIZE <= va / PAGE_SIZE < (ARGV_START + ARGV_SIZE) / PAGE_SIZE;
    }
    CopiedHolds(phys, table, ARGV_START, block, WriteAll(phys, table, ARGV_START, Pieces(argv)).value);
  }

  /** What a program finds that reads the block by itself: the count in front, and behind every argument a
      NUL, as C strings end. */
  lemma {:induction false} ArgvTerminated(phys: seq<Byte>, table: Frames, argv: seq<seq<Byte>>, k: nat)
    requires Backed(phys, table) && Injective(table) && AreaMapped(table) && k < |argv|
    requires |Concat(Pieces(argv))| < ARGV_SIZE && AllSound(table, ARGV_START, Pieces(argv))
    ensures var r := WriteAll(phys, table, ARGV_START, Pieces(argv));
      r.Some? && ReadWord(r.value, table, ARGV_START) == Some(|argv|) &&
      var at := ReadWord(r.value, table, ARGV_START + 8 + |Concat(StringPieces(argv))| + 8 * k);
      at.Some? && ReadBytes(r.value, table, at.value + 8, |argv[k]| + 1) == Some(argv[k] + [0])
  {
    hide Pieces, StringPieces, Concat, WriteAll, Holds, AllSound, AreaMapped, ReadWord, ReadBytes;
    BlockWritten(phys, table, argv);
    HeldTerminated(WriteAll(phys, table, ARGV_START, Pieces(argv)).value, table, argv, k);
  }

  lemma {:induction false} HeldTerminated(phys: seq<Byte>, table: Frames, argv: seq<seq<Byte>>, k: nat)
    requires Holds(phys, table, ARGV_START, Concat(Pieces(argv))) && |Concat(Pieces(argv))| < ARGV_SIZE && k < |argv|
    ensures ReadWord(phys, table, ARGV_START) == Some(|argv|)
    ensures var at := ReadWord(phys, table, ARGV_START + 8 + |Concat(StringPieces(argv))| + 8 * k);
      at.Some? && ReadBytes(phys, table, at.value + 8, |argv[k]| + 1) == Some(argv[k] + [0])
  {
    hide Holds, StringPieces, PointerPieces, Pieces, Concat, Bytes8, StringAddr, Word, ReadBytes;
    BlockHeld(phys, table, argv);
    CountFits(argv);
    Word8(|argv|);
    ReadHeld(phys, table, ARGV_START, Bytes8(|argv|));
    var p := StringAddr(argv, ARGV_START + 8, k);
    StringHeld(phys, table, ARGV_START + 8, argv, k);
    var pointersAt := ARGV_START + 8 + |Concat(StringPieces(argv))|;
    PointerHeld(phys, table, pointersAt, argv, ARGV_START + 8, k);
    StringFits(argv, ARGV_START + 8, k);
    Word8(p);
    ReadHeld(phys, table, pointersAt + 8 * k, Bytes8(p));
    HeldTogether(phys, table, p + 8, argv[k], [0]);
    ReadHeld(phys, table, p + 8, argv[k] + [0]);
  }

  lemma HeldTogether(phys: seq<Byte>, table: Frames, at: nat, a: seq<Byte>, b: seq<Byte>)
    requires Holds(phys, table, at, a) && Holds(phys, table, at + |a|, b)
    ensures Holds(phys, table, at, a + b)
  {}

  /** Every argument takes room, so the count fits a word. */
  lemma {:induction false} CountFits(argv: seq<seq<Byte>>)
    requires |Concat(Pieces(argv))| < ARGV_SIZE
    ensures |argv| < WORD_LIMIT
  {
    hide StringPieces, PointerPieces, Pieces, Concat, Bytes8;
    BlockParts(argv);
    StringsLong(argv);
  }

  lemma {:induction false} StringsLong(argv: seq<seq<Byte>>)
    ensures |argv| <= |Concat(StringPieces(argv))|
  {
    if argv != [] {
      StringsCons(argv);
      StringsLong(argv[1..]);
    }
  }

  /** The loop of a program takes the arguments the kernel wrote, all of them and in order. */
  lemma {:induction false} ArgvInOrder(phys: seq<Byte>, table: Frames, argv: seq<seq<Byte>>, k: nat)
    requires Backed(phys, table) && Injective(table) && AreaMapped(table) && k <= |argv|
    requires |Concat(Pieces(argv))| < ARGV_SIZE && AllSound(table, ARGV_START, Pieces(argv))
    ensures var r := WriteAll(phys, table, ARGV_START, Pieces(argv));
      r.Some? &&
      Following(r.value, table, |argv|, ARGV_START + 8 + |Concat(StringPieces(argv))|, k) == Ok(argv[k..])
    decreases |argv| - k
  {
    hide Pieces, StringPieces, Concat, WriteAll, Injective, Nth, AllSound, AreaMapped;
    ArgvRoundTrip(phys, table, argv, k);
    if k < |argv| {
      ArgvInOrder(phys, table, argv, k + 1);
      assert argv[k..] == [argv[k]] + argv[k + 1..];
    } else {
      assert argv[k..] == [];
    }
  }

  lemma OnePieceSound(table: Frames, at: nat, len: nat)
    requires AreaMapped(table) && ARGV_START <= at && at + len < ARGV_START + PAGE_SIZE
    ensures PagesMapped(table, at, len) && Sound(table, at, len)
  {
    assert at / PAGE_SIZE == ARGV_START / PAGE_SIZE == (at + len) / PAGE_SIZE;
  }

  /** Such a copy meets its conditions whenever the whole block fits one page. */
  lemma {:induction false} OnePageSound(table: Frames, at: nat, pieces: seq<seq<Byte>>)
    requires AreaMapped(table) && ARGV_START <= at && at + |Concat(pieces)| < ARGV_START + PAGE_SIZE
    ensures AllSound(table, at, pieces)
    decreases |pieces|
  {
    if pieces != [] {
      assert |Concat(pieces)| == |pieces[0]| + |Concat(pieces[1..])|;
      OnePieceSound(table, at, |pieces[0]|);
      hide AreaMapped, PagesMapped, Sound;
      OnePageSound(table, at + |pieces[0]|, pieces[1..]);
    }
  }

  /** The last copy also looks up the page of the byte behind it, so a block that ends at an unmapped
      page stops the kernel. */
  lemma {:induction false} BlockEndLookedUp(phys: seq<Byte>, table: Frames, at: nat, pieces: seq<seq<Byte>>)
    requires pieces != [] && WriteAll(phys, table, at, pieces).Some?
    ensures Mapped(table, at + |Concat(pieces)|)
    decreases |pieces|
  {
    hide Copied;
    AllLookedUp(phys, table, at, pieces[0]);
    PageIn(table, at, |pieces[0]|, |pieces[0]|);
    if |pieces| == 1 {
      assert pieces[1..] == [];
      assert Concat(pieces) == pieces[0];
    } else {
      BlockEndLookedUp(Copied(phys, table, at, pieces[0]).value, table, at + |pieces[0]|, pieces[1..]);
    }
  }
}
