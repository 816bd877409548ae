/** The file system as an object: its methods change the vector of inodes in place and are proved
    against the functions of RamFs. */
module FileSystem {
  import opened Wrappers
  import opened RamFs
  import opened Ustar
  import opened Unpack

  class Descriptor {
    const node: nat
    var readPos: nat
    var writePos: nat

    constructor (node: nat)
      ensures this.node == node && readPos == 0 && writePos == 0
    {
      this.node := node;
      readPos, writePos := 0, 0;
    }

    function Value(): FileDescriptor
      reads this
    {
      FileDescriptor(node, readPos, writePos)
    }
  }

  class RamFS {
    var inodes: Inodes

    constructor ()
      ensures inodes == New() && Inv(inodes)
    {
      inodes := [RamInode("/", Children(map[]), 0)];
    }

    /** Goes along the path from the root. */
    method ResolvePath(path: string) returns (r: FsResult<nat>)
      requires Inv(inodes)
      ensures r == Resolve(inodes, path)
    {
      hide IsDir;
      var parts := SplitPath(path);
      var at := 0;
      var current: nat := 0;
      if parts[0] == "" { at := 1; }
      if at < |parts| && ':' in parts[at] { at := at + 1; }
      ghost var components := Components(path);
      assert parts[at..] == components;
      while at < |parts|
        invariant at <= |parts| && current < |inodes|
        invariant Walk(inodes, current, parts[at..]) == Walk(inodes, 0, components)
      {
        var depth := parts[at];
        assert parts[at..][0] == depth && parts[at..][1..] == parts[at + 1..];
        at := at + 1;
        if depth == "" {
          if at == |parts| { return Ok(current); } else { return Err(InvalidPath); }
        }
        if depth == "." { continue; }
        if !IsDir(inodes, current) { return Err(NoSuchAFileOrDirectory); }
        if !Contains(inodes, current, depth) { return Err(NoSuchAFileOrDirectory); }
        var next := Get(inodes, current, depth);
        Forwards(inodes, current, depth);
        if next.Err? { return Err(next.error); }
        if next.value >= |inodes| { return Err(Panicked); }
        current := next.value;
      }
      return Ok(current);
    }

    method ResolvePathUncreated(path: string) returns (r: FsResult<(nat, string)>)
      requires Inv(inodes)
      ensures r == ResolveUncreated(inodes, path)
    {
      var trimmed := TrimEnd(path, '/');
      var name, parent := trimmed, "/";
      var beginning := LastSlash(trimmed);
      if beginning.Some? { name, parent := trimmed[beginning.value + 1..], trimmed[..beginning.value]; }
      var resolved := ResolvePath(parent);
      if resolved.Err? { return Err(resolved.error); }
      WalkSafe(inodes, 0, Components(parent));
      if !IsDir(inodes, resolved.value) { return Err(NotADirectory); }
      return Ok((resolved.value, name));
    }

    /** Inserts into the directory at the end of the chain of links. */
    method InsertInto(i: nat, name: string, node: nat) returns (r: FsResult<()>)
      requires LinksBack(inodes) && i < |inodes|
      modifies this
      ensures match Insert(old(inodes), i, name, node)
        case Ok(fs) => r == Ok(()) && inodes == fs
        case Err(e) => r == Err(e) && inodes == old(inodes)
      decreases i
    {
      match inodes[i].data
      case Children(entries) =>
        if name in entries { return Err(AlreadyExists); }
        inodes := inodes[i := inodes[i].(data := Children(entries[name := node]))];
        return Ok(());
      case HardLink(t) => r := InsertInto(t, name, node);
      case File(_) => return Err(NotADirectory);
    }

    method CreateFile(path: string) returns (r: FsResult<()>)
      requires Inv(inodes)
      modifies this
      ensures match Create(old(inodes), path)
        case Ok(fs) => r == Ok(()) && inodes == fs
        case Err(e) => r == Err(e) && inodes == old(inodes)
      ensures Inv(inodes) && Extends(old(inodes), inodes)
    {
      hide Inv, ResolveUncreated, Insert, Extends;
      var inodeid := |inodes|;
      ghost var before := inodes;
      var resolved := ResolvePathUncreated(path);
      CreateSafe(before, path);
      if resolved.Err? { return Err(resolved.error); }
      var (dir, name) := resolved.value;
      var inserted := InsertInto(dir, name, inodeid);
      if inserted.Err? { return inserted; }
      inodes := inodes + [RamInode(name, File([]), inodeid)];
      return Ok(());
    }

    /** A link to inode `i` as a new inode. */
    method MakeHardLink(i: nat, name: string) returns (inodeid: nat)
      requires i < |inodes|
      modifies this
      ensures inodeid == |old(inodes)| && inodes == old(inodes) + [RamInode(name, HardLink(i), inodeid)]
    {
      inodeid := |inodes|;
      inodes := inodes + [RamInode(name, HardLink(i), inodeid)];
    }

    method CreateDirectory(path: string) returns (r: FsResult<()>)
      requires Inv(inodes)
      modifies this
      ensures match CreateDir(old(inodes), path)
        case Ok(fs) => r == Ok(()) && inodes == fs
        case Err(e) => r == Err(e) && inodes == old(inodes)
      ensures Inv(inodes) && Extends(old(inodes), inodes)
    {
      hide Inv, ResolveUncreated, Insert, Extends;
      var inodeid := |inodes|;
      ghost var before := inodes;
      var resolved := ResolvePathUncreated(path);
      CreateDirSafe(before, path);
      if resolved.Err? { return Err(resolved.error); }
      var (dir, name) := resolved.value;
      var inserted := InsertInto(dir, name, inodeid);
      if inserted.Err? { return inserted; }
      ghost var fs1 := inodes;
      AfterInsert(before, path);
      inodes := inodes + [RamInode(name, Children(map[]), inodeid)];
      var link := MakeHardLink(inodes[dir].inodeid, "..");
      DotDotInserted(fs1, name, dir);
      assert inodes == fs1 + [RamInode(name, Children(map[]), |fs1|), RamInode("..", HardLink(dir), |fs1| + 1)];
      r := InsertInto(inodeid, "..", link);
    }

    /** Reads into the buffer from the descriptor's position on. */
    method ReadFile(d: Descriptor, buffer: array<Byte>) returns (r: FsResult<nat>)
      requires Inv(inodes) && d.node < |inodes|
      modifies d`readPos, buffer
      ensures match Read(inodes, old(d.Value()), buffer.Length)
        case Ok((bytes, fd)) => r == Ok(|bytes|) && |bytes| <= buffer.Length &&
            buffer[..] == bytes + old(buffer[..])[|bytes|..] && d.Value() == fd
        case Err(e) => r == Err(e) && buffer[..] == old(buffer[..]) && d.Value() == old(d.Value())
    {
      hide Inv;
      match inodes[d.node].data
      case File(bytes) =>
        var count := buffer.Length;
        if d.readPos > |bytes| { return Err(Panicked); }
        if d.readPos + count > |bytes| { count := |bytes| - d.readPos; }
        var start := d.readPos;
        for i := 0 to count
          invariant forall k :: 0 <= k < i ==> buffer[k] == bytes[start + k]
          invariant forall k :: i <= k < buffer.Length ==> buffer[k] == old(buffer[k])
          invariant d.readPos == start
        {
          buffer[i] := bytes[start + i];
        }
        d.readPos := start + count;
        assert buffer[..] == bytes[start..start + count] + old(buffer[..])[count..];
        return Ok(count);
      case _ => return Err(NotAFile);
    }

    method WriteFile(d: Descriptor, buffer: seq<Byte>) returns (r: FsResult<nat>)
      requires Inv(inodes) && d.node < |inodes|
      modifies this, d`writePos
      ensures match Write(old(inodes), old(d.Value()), buffer)
        case Ok((fs, fd)) => r == Ok(|buffer|) && inodes == fs && d.Value() == fd
        case Err(e) => r == Err(e) && inodes == old(inodes) && d.Value() == old(d.Value())
      ensures Inv(inodes) && Extends(old(inodes), inodes)
    {
      WriteKeeps(inodes, d.Value(), buffer);
      var fs := inodes;
      ExtendsRefl(fs);
      var i := d.node;
      if d.writePos == 0 {
        var truncated := Truncate(fs, i, 0);
        if truncated.Err? { return Err(truncated.error); }
        fs := truncated.value;
        TruncateSafe(inodes, i);
      }
      var written := WriteAt(fs, i, buffer, d.writePos);
      if written.Err? { return Err(written.error); }
      inodes := written.value;
      d.writePos := d.writePos + |buffer|;
      return Ok(|buffer|);
    }
  }

  lemma CreateSafe(fs: Inodes, path: string)
    requires Inv(fs)
    ensures ResolveUncreated(fs, path).Ok? ==> ResolveUncreated(fs, path).value.0 < |fs|
    ensures Create(fs, path).Ok? ==> Inv(Create(fs, path).value) && Extends(fs, Create(fs, path).value)
    ensures LinksBack(fs) && Extends(fs, fs)
  {
    if Create(fs, path).Ok? { CreateKeeps(fs, path); }
  }

  lemma CreateDirSafe(fs: Inodes, path: string)
    requires Inv(fs)
    ensures ResolveUncreated(fs, path).Ok? ==> ResolveUncreated(fs, path).value.0 < |fs|
    ensures CreateDir(fs, path).Ok? ==> Inv(CreateDir(fs, path).value) && Extends(fs, CreateDir(fs, path).value)
    ensures LinksBack(fs) && Extends(fs, fs)
  {
    if CreateDir(fs, path).Ok? { CreateDirKeeps(fs, path); }
  }

  lemma {:induction false} AfterInsert(fs: Inodes, path: string)
    requires Inv(fs) && ResolveUncreated(fs, path).Ok? && ResolveUncreated(fs, path).value.0 < |fs|
    ensures var (dir, name) := ResolveUncreated(fs, path).value;
      Insert(fs, dir, name, |fs|).Ok? ==>
        var fs1 := Insert(fs, dir, name, |fs|).value;
        |fs1| == |fs| && LinksBack(fs1) && fs1[dir].inodeid == dir
  {
    var (dir, name) := ResolveUncreated(fs, path).value;
    InsertAdds(fs, dir, name, |fs|);
  }

  /** Filling in ".." last gives the directory its only entry. */
  lemma DotDotInserted(fs: Inodes, name: string, dir: nat)
    requires LinksBack(fs) && dir < |fs|
    ensures var fs' := fs + [RamInode(name, Children(map[]), |fs|), RamInode("..", HardLink(dir), |fs| + 1)];
      LinksBack(fs') &&
      Insert(fs', |fs|, "..", |fs| + 1) ==
      Ok(fs + [RamInode(name, Children(map[".." := |fs| + 1]), |fs|), RamInode("..", HardLink(dir), |fs| + 1)])
  {
    var fs' := fs + [RamInode(name, Children(map[]), |fs|), RamInode("..", HardLink(dir), |fs| + 1)];
    assert fs'[|fs| := fs'[|fs|].(data := Children(map[".." := |fs| + 1]))] ==
           fs + [RamInode(name, Children(map[".." := |fs| + 1]), |fs|), RamInode("..", HardLink(dir), |fs| + 1)];
  }

  /** Emptying a file. */
  lemma {:induction false} TruncateSafe(fs: Inodes, i: nat)
    requires Inv(fs) && i < |fs| && Truncate(fs, i, 0).Ok?
    ensures |Truncate(fs, i, 0).value| == |fs| && LinksBack(Truncate(fs, i, 0).value)
  {
    if fs[i].data.HardLink? { WriteToLink(fs, i, [], 0); }
  }

  // ----- unpacking an archive -----

  /** The loop of `unpack_tar` from header `at` on: the file system afterwards and the result. */
  function UnpackFrom(fs: Inodes, archive: seq<Byte>, at: Option<nat>): (Inodes, FsResult<()>)
    requires Inv(fs)
    decreases if at.Some? && at.value <= |archive| then |archive| - at.value + 1 else 0
  {
    match at
    case None => (fs, Ok(()))
    case Some(i) =>
      match EntryAt(archive, i)
      case Err(e) => (fs, Err(e))
      case Ok((entry, next)) =>
        var (fs1, r) := UnpackOne(fs, entry);
        if r.Err? then (fs1, r) else UnpackFrom(fs1, archive, if Verified(archive, next) then Some(next) else None)
  }

  /** However it ends, unpacking keeps the invariant and all that was there. */
  lemma {:induction false} UnpackKeeps(fs: Inodes, archive: seq<Byte>, at: Option<nat>)
    requires Inv(fs)
    ensures Inv(UnpackFrom(fs, archive, at).0) && Extends(fs, UnpackFrom(fs, archive, at).0)
    decreases if at.Some? && at.value <= |archive| then |archive| - at.value + 1 else 0
  {
    hide UnpackOne, SizeOf, TrimNul, Text, Inv, Extends;
    ExtendsRefl(fs);
    if at.Some? && EntryAt(archive, at.value).Ok? {
      var (entry, next) := EntryAt(archive, at.value).value;
      var (fs1, r) := UnpackOne(fs, entry);
      if r.Ok? {
        var at' := if Verified(archive, next) then Some(next) else None;
        UnpackKeeps(fs1, archive, at');
        ExtendsTrans(fs, fs1, UnpackFrom(fs1, archive, at').0);
      }
    }
  }

  method UnpackTar(fs: RamFS, tar: TarArchiveIter) returns (r: FsResult<()>)
    requires Inv(fs.inodes)
    modifies fs, tar
    ensures Inv(fs.inodes) && (fs.inodes, r) == UnpackFrom(old(fs.inodes), tar.archive, old(tar.at))
  {
    ghost var start, begin := fs.inodes, tar.at;
    while true
      invariant Inv(fs.inodes)
      invariant UnpackFrom(fs.inodes, tar.archive, tar.at) == UnpackFrom(start, tar.archive, begin)
      decreases if tar.at.Some? && tar.at.value <= |tar.archive| then |tar.archive| - tar.at.value + 1 else 0
    {
      var item := tar.Next();
      if item.Err? { return Err(item.error); }
      if item.value == None { return Ok(()); }
      r := UnpackEntry(fs, item.value.value);
      if r.Err? { return r; }
    }
    return Ok(());
  }

  /** One turn of the loop. */
  method UnpackEntry(fs: RamFS, e: Entry) returns (r: FsResult<()>)
    requires Inv(fs.inodes)
    modifies fs
    ensures Inv(fs.inodes) && (fs.inodes, r) == UnpackOne(old(fs.inodes), e)
  {
    match e.kind
    case Normal =>
      r := fs.CreateFile(e.name);
      if r.Err? { return r; }
      var found := fs.ResolvePath(e.name);
      if found.Err? { return Err(found.error); }
      WalkSafe(fs.inodes, 0, Components(e.name));
      var d := new Descriptor(found.value);
      var written := fs.WriteFile(d, e.data);
      if written.Err? { return Err(written.error); }
      return Ok(());
    case Directory => r := fs.CreateDirectory(TrimEnd(e.name, '/'));
    case Other => return Err(OperationNotSupported);
  }

  /** Reading headers and unpacking in turn is unpacking all entries. */
  lemma {:induction false} UnpackFromEntries(fs: Inodes, archive: seq<Byte>, at: Option<nat>)
    requires Inv(fs) && Entries(archive, at).Ok?
    ensures UnpackFrom(fs, archive, at) == UnpackAll(fs, Entries(archive, at).value)
    decreases if at.Some? && at.value <= |archive| then |archive| - at.value + 1 else 0
  {
    hide UnpackOne, SizeOf, TrimNul, Text;
    if at.Some? {
      var (entry, next) := EntryAt(archive, at.value).value;
      var at' := if Verified(archive, next) then Some(next) else None;
      var entries := Entries(archive, at).value;
      assert entries == [entry] + Entries(archive, at').value;
      assert entries[0] == entry && entries[1..] == Entries(archive, at').value;
      var (fs1, r) := UnpackOne(fs, entry);
      if r.Ok? { UnpackFromEntries(fs1, archive, at'); }
    }
  }

  /** A new file system into which the archive is unpacked. */
  function UnpackedNew(archive: seq<Byte>): (Inodes, FsResult<()>) {
    NewInv();
    UnpackFrom(New(), archive, Some(0))
  }

  /** Archive round trip: unpacking the bytes of a well-formed archive into a new file system succeeds,
      and afterwards every file can be opened by any spelling of its path and reads of any sizes deliver
      its data. */
  lemma {:induction false} ArchiveRoundTrip(archive: seq<Byte>, entries: seq<Entry>, names: seq<seq<string>>, i: nat,
      raw: seq<string>, counts: seq<nat>)
    requires Archive(archive, 0, entries) && Listing(entries, names) && i < |entries| && SamePath(raw, names[i])
    ensures Verified(archive, 0)
    ensures var (fs, r) := UnpackedNew(archive);
      r == Ok(()) && Retrieved(fs, Join(raw), entries[i], counts)
  {
    hide Listing, Retrieved, Archive, SamePath, UnpackFrom, UnpackAll, Entries, Inv, New;
    NewInv();
    ArchiveParses(archive, 0, entries);
    UnpackFromEntries(New(), archive, Some(0));
    UnpackDelivers(entries, names, i, raw, counts);
  }
}
