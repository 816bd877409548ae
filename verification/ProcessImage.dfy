/** Building the image of a process in place: the page-wise copy, the ELF loader and the writer of the
    argument block as methods that change the memory. */
module ProcessImage {
  import opened Wrappers
  import opened UserMemory
  import opened Loader
  import opened Argv

  class Image {
    var phys: seq<Byte>
    var table: Frames
    var answers: seq<Option<nat>>

    function Value(): Space
      reads this
    {
      Space(phys, table, answers)
    }

    /** Copies `obj` to `addr`; false when the kernel stops. */
    method CopyToUserspace(addr: nat, obj: seq<Byte>) returns (ok: bool)
      modifies this`phys
      ensures match Copied(old(phys), table, addr, obj)
        case Some(p) => ok && phys == p
        case None => !ok
    {
      hide CopyPages, Poke;
      ghost var start := phys;
      var rounds: nat := (|obj| + PAGE_SIZE - 1) / PAGE_SIZE + 1;
      var copied: nat, left: nat, i: nat := 0, |obj|, 0;
      while i < rounds
        invariant i <= rounds && copied + left == |obj| && rounds == Rounds(|obj|) && (i == 0 ==> copied == 0)
        invariant CopyPages(phys, table, addr, obj, copied, i, rounds) == Copied(start, table, addr, obj)
      {
        var page := (addr + copied) / PAGE_SIZE;
        assert i == 0 ==> addr - page * PAGE_SIZE == addr % PAGE_SIZE;
        var diff := if i == 0 then addr - page * PAGE_SIZE else 0;
        var count := if left > PAGE_SIZE then PAGE_SIZE - diff else left;
        NextRound(phys, table, addr, obj, copied, i, rounds, page, diff, count);
        if page !in table || table[page] * PAGE_SIZE + diff + count > |phys| { return false; }
        phys := Poke(phys, table[page] * PAGE_SIZE + diff, obj[copied..copied + count]);
        copied, left, i := copied + count, left - count, i + 1;
      }
      NoMoreRounds(phys, table, addr, obj, copied, rounds);
      return true;
    }

    /** Maps a fresh zeroed frame at every page of a range. */
    method MapRange(from: nat, to: nat) returns (ok: bool)
      modifies this
      ensures match MapPages(old(Value()), from, to)
        case Some(s) => ok && Value() == s
        case None => !ok
    {
      ghost var start := Value();
      var page := from;
      while page < to
        invariant MapPages(Value(), page, to) == MapPages(start, from, to)
      {
        if answers == [] || answers[0].None? || (answers[0].value + 1) * PAGE_SIZE > |phys| { return false; }
        var frame := answers[0].value;
        answers := answers[1..];
        table := table[page := frame];
        phys := Poke(phys, frame * PAGE_SIZE, Fill(PAGE_SIZE, 0));
        page := page + 1;
      }
      return true;
    }

    /** Loads every LOAD segment and returns the program break. */
    method LoadExec(executable: bool, file: seq<Byte>, headers: seq<Segment>) returns (r: Result<nat, LoadError>)
      modifies this
      ensures !executable ==> r == Err(NotAnExecutable) && Value() == old(Value())
      ensures executable ==> match LoadAll(old(Value()), file, headers, 0)
        case Ok((s, brk)) => r == Ok(brk) && Value() == s
        case Err(e) => r == Err(e)
      ensures executable && Valid(old(Value())) && AllLoadable(file, headers) ==>
        r != Err(Panicked) &&
        (r.Ok? ==> forall i :: 0 <= i < |headers| && headers[i].load ==> SegmentImage(Value(), file, headers[i]))
    {
      hide Valid, AllLoadable, SegmentImage, MapPages, Copied;
      if !executable { return Err(NotAnExecutable); }
      ghost var start := Value();
      AllImages(start, file, headers);
      var programBreak: nat, i: nat := 0, 0;
      assert headers[0..] == headers;
      while i < |headers|
        invariant i <= |headers|
        invariant LoadAll(Value(), file, headers[i..], programBreak) == LoadAll(start, file, headers, 0)
      {
        var header := headers[i];
        assert headers[i..][0] == header && headers[i..][1..] == headers[i + 1..];
        i := i + 1;
        if !header.load { continue; }
        var mapped := MapRange(header.vaddr / PAGE_SIZE, (header.vaddr + header.memz + PAGE_SIZE) / PAGE_SIZE);
        if !mapped { return Err(MapToError); }
        if header.offset + header.filez > |file| { return Err(Panicked); }
        var copied := CopyToUserspace(header.vaddr, file[header.offset..header.offset + header.filez]);
        if !copied { return Err(Panicked); }
        programBreak := header.vaddr + header.memz;
      }
      return Ok(programBreak);
    }

    /** Writes the argument block; returns the count and the address of the pointers, which become the
        new process's first two registers, or nothing when the kernel stops. */
    method WriteArgv(argv: seq<seq<Byte>>) returns (r: Option<(nat, nat)>)
      modifies this`phys
      ensures argv == [] ==> r == Some((0, 0)) && phys == old(phys)
      ensures argv != [] ==> match WriteAll(old(phys), table, ARGV_START, Pieces(argv))
        case Some(p) => r == Some((|argv|, ARGV_START + 8 + |Concat(StringPieces(argv))|)) && phys == p
        case None => r == None
    {
      if argv == [] { return Some((0, 0)); }
      hide Copied, StringPieces, PointerPieces, WriteAll, Bytes8, Concat;
      ghost var pointers := PointerPieces(argv, ARGV_START + 8);
      WriteCons(phys, table, ARGV_START, Bytes8(|argv|), StringPieces(argv) + pointers);
      assert Pieces(argv) == [Bytes8(|argv|)] + (StringPieces(argv) + pointers);
      var ok := CopyToUserspace(ARGV_START, Bytes8(|argv|));
      if !ok { return None; }
      WriteSplit(phys, table, ARGV_START + 8, StringPieces(argv), pointers);
      var argvAddr: nat;
      ok, argvAddr := WriteStrings(argv, ARGV_START + 8);
      if !ok { return None; }
      ok := WritePointers(argv, argvAddr);
      if !ok { return None; }
      return Some((|argv|, argvAddr));
    }

    /** Writes the length, the bytes and a NUL of every argument and returns the address behind. */
    method WriteStrings(argv: seq<seq<Byte>>, at: nat) returns (ok: bool, end: nat)
      modifies this`phys
      ensures match WriteAll(old(phys), table, at, StringPieces(argv))
        case Some(p) => ok && phys == p && end == at + |Concat(StringPieces(argv))|
        case None => !ok
    {
      hide Copied, StringPieces, WriteAll, Bytes8, Concat;
      ghost var start := phys;
      end := at;
      assert argv[0..] == argv;
      for i := 0 to |argv|
        invariant WriteAll(phys, table, end, StringPieces(argv[i..])) == WriteAll(start, table, at, StringPieces(argv))
        invariant end + |Concat(StringPieces(argv[i..]))| == at + |Concat(StringPieces(argv))|
      {
        ghost var rest := StringPieces(argv[i + 1..]);
        NextString(argv, i);
        WriteCons(phys, table, end, Bytes8(|argv[i]|), [argv[i]] + ([[0]] + rest));
        ok := CopyToUserspace(end, Bytes8(|argv[i]|));
        if !ok { return; }
        end := end + 8;
        WriteCons(phys, table, end, argv[i], [[0]] + rest);
        ok := CopyToUserspace(end, argv[i]);
        if !ok { return; }
        WriteCons(phys, table, end + |argv[i]|, [0], rest);
        ok := CopyToUserspace(end + |argv[i]|, [0]);
        if !ok { return; }
        end := end + |argv[i]| + 1;
      }
      NoStrings(argv);
      WriteNothing(phys, table, end, StringPieces(argv[|argv|..]));
      ok := true;
    }

    /** Writes where the strings are. */
    method WritePointers(argv: seq<seq<Byte>>, at: nat) returns (ok: bool)
      modifies this`phys
      ensures match WriteAll(old(phys), table, at, PointerPieces(argv, ARGV_START + 8))
        case Some(p) => ok && phys == p
        case None => !ok
    {
      hide Copied, WriteAll, Bytes8;
      ghost var start := phys;
      var startAddr: nat, ptr: nat := at, ARGV_START + 8;
      assert argv[0..] == argv;
      for i := 0 to |argv|
        invariant WriteAll(phys, table, startAddr, PointerPieces(argv[i..], ptr)) ==
            WriteAll(start, table, at, PointerPieces(argv, ARGV_START + 8))
      {
        assert argv[i..][0] == argv[i] && argv[i..][1..] == argv[i + 1..];
        WriteCons(phys, table, startAddr, Bytes8(ptr), PointerPieces(argv[i + 1..], ptr + 8 + |argv[i]| + 1));
        ok := CopyToUserspace(startAddr, Bytes8(ptr));
        if !ok { return false; }
        startAddr := startAddr + 8;
        ptr := ptr + 8;
        ptr := ptr + |argv[i]| + 1;
      }
      WriteNothing(phys, table, startAddr, PointerPieces(argv[|argv|..], ptr));
      return true;
    }
  }

  lemma {:induction false} NoMoreRounds(phys: seq<Byte>, table: Frames, addr: nat, obj: seq<Byte>, copied: nat, n: nat)
    requires copied <= |obj|
    ensures CopyPages(phys, table, addr, obj, copied, n, n) == Some(phys)
  {}

  lemma {:induction false} AllImages(s: Space, file: seq<Byte>, headers: seq<Segment>)
    ensures Valid(s) && AllLoadable(file, headers) ==>
      LoadAll(s, file, headers, 0) != Err(Panicked) &&
      (LoadAll(s, file, headers, 0).Ok? ==>
        forall i :: 0 <= i < |headers| && headers[i].load ==>
            SegmentImage(LoadAll(s, file, headers, 0).value.0, file, headers[i]))
  {
    hide LoadAll, SegmentImage;
    if Valid(s) && AllLoadable(file, headers) {
      LoadAllKeeps(s, file, headers, 0, 0, 0);
      forall i | 0 <= i < |headers| && headers[i].load
        ensures LoadAll(s, file, headers, 0).Ok? ==> SegmentImage(LoadAll(s, file, headers, 0).value.0, file,
            headers[i])
      {
        LoadExecImage(s, file, headers, i);
      }
    }
  }

  lemma {:induction false} WriteCons(phys: seq<Byte>, table: Frames, at: nat, x: seq<Byte>, rest: seq<seq<Byte>>)
    ensures WriteAll(phys, table, at, [x] + rest) ==
      match Copied(phys, table, at, x)
      case None => None
      case Some(phys1) => WriteAll(phys1, table, at + |x|, rest)
  {
    hide Copied;
    assert ([x] + rest)[1..] == rest;
  }

  lemma {:induction false} WriteNothing(phys: seq<Byte>, table: Frames, at: nat, pieces: seq<seq<Byte>>)
    requires pieces == []
    ensures WriteAll(phys, table, at, pieces) == Some(phys)
  {}

  lemma {:induction false} WriteSplit(phys: seq<Byte>, table: Frames, at: nat, a: seq<seq<Byte>>, b: seq<seq<Byte>>)
    ensures WriteAll(phys, table, at, a + b) ==
      match WriteAll(phys, table, at, a)
      case None => None
      case Some(phys1) => WriteAll(phys1, table, at + |Concat(a)|, b)
    decreases |a|
  {
    hide Copied;
    if a == [] {
      assert a + b == b;
    } else {
      assert (a + b)[1..] == a[1..] + b;
      var r := Copied(phys, table, at, a[0]);
      if r.Some? { WriteSplit(r.value, table, at + |a[0]|, a[1..], b); }
    }
  }

  /** The pieces of the next argument. */
  lemma NextString(argv: seq<seq<Byte>>, i: nat)
    requires i < |argv|
    ensures StringPieces(argv[i..]) == [Bytes8(|argv[i]|)] + ([argv[i]] + ([[0]] + StringPieces(argv[i + 1..])))
    ensures |Concat(StringPieces(argv[i..]))| == 8 + |argv[i]| + 1 + |Concat(StringPieces(argv[i + 1..]))|
  {
    assert argv[i..][0] == argv[i] && argv[i..][1..] == argv[i + 1..];
    StringsCons(argv[i..]);
  }

  lemma NoStrings(argv: seq<seq<Byte>>)
    ensures StringPieces(argv[|argv|..]) == [] && Concat(StringPieces(argv[|argv|..])) == []
  {}
}
