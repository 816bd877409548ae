/** The in-memory file system: a vector of inodes, directories that map names to inode numbers, and
    hard links, which every new directory gets as its "..".

    A hard link holds the linked inode itself; as inode `i` sits at place `i` for good, the model
    holds its number. Every operation on a link locks the link and then the linked inode, so it
    follows a chain of links with all the locks on the way held.
 */
module RamFs {
  import opened Wrappers

  datatype FsError =
    | NotAFile | NotADirectory | NoSuchAFileOrDirectory | InvalidPath | InvalidDrive | AlreadyExists
    | OperationNotSupported
    | Panicked   // an `unwrap` of an inode that is not there

  type FsResult<T> = Result<T, FsError>

  datatype InodeData =
    | File(bytes: seq<Byte>)
    | Children(entries: map<string, nat>)
    | HardLink(target: nat)

  datatype RamInode = RamInode(name: string, data: InodeData, inodeid: nat)

  type Inodes = seq<RamInode>

  // ----- the invariant -----

  /** Links point backwards, so following them ends. */
  predicate LinksBack(fs: Inodes) {
    forall i :: 0 <= i < |fs| && fs[i].data.HardLink? ==> fs[i].data.target < i
  }

  /** The end of the chain of links that starts at inode `i`: what `i` forwards to. */
  function Target(fs: Inodes, i: nat): (t: nat)
    requires LinksBack(fs) && i < |fs|
    ensures t <= i && !fs[t].data.HardLink?
    decreases i
  {
    if fs[i].data.HardLink? then Target(fs, fs[i].data.target) else i
  }

  predicate IsDir(fs: Inodes, i: nat)
    requires LinksBack(fs) && i < |fs|
  {
    fs[Target(fs, i)].data.Children?
  }

  /** Inode `i` carries number `i`, directory entries exist, links point back to directories, and
      inode 0 is a directory. */
  predicate Inv(fs: Inodes) {
    fs != [] && fs[0].data.Children? && LinksBack(fs) &&
    (forall i :: 0 <= i < |fs| ==> fs[i].inodeid == i) &&
    (forall i, name :: 0 <= i < |fs| && fs[i].data.Children? && name in fs[i].data.entries ==>
        fs[i].data.entries[name] < |fs|) &&
    (forall i :: 0 <= i < |fs| && fs[i].data.HardLink? ==> IsDir(fs, i))
  }

  function New(): Inodes { [RamInode("/", Children(map[]), 0)] }

  lemma NewInv()
    ensures Inv(New())
  {}

  lemma InvParts(fs: Inodes)
    requires Inv(fs)
    ensures fs != [] && LinksBack(fs) && forall i :: 0 <= i < |fs| ==> fs[i].inodeid == i
  {}

  // ----- operations of an inode -----

  /** The locks that an operation on inode `i` holds at once, in the order they are taken. */
  function Locks(fs: Inodes, i: nat): (locks: seq<nat>)
    requires LinksBack(fs) && i < |fs|
    ensures locks != [] && locks[0] == i && locks[|locks| - 1] == Target(fs, i)
    decreases i
  {
    if fs[i].data.HardLink? then [i] + Locks(fs, fs[i].data.target) else [i]
  }

  /** No operation takes a lock twice. */
  lemma {:induction false} LocksDescend(fs: Inodes, i: nat)
    requires LinksBack(fs) && i < |fs|
    ensures forall a, b :: 0 <= a < b < |Locks(fs, i)| ==> Locks(fs, i)[a] > Locks(fs, i)[b]
    decreases i
  {
    if fs[i].data.HardLink? {
      var t := fs[i].data.target;
      LocksDescend(fs, t);
      var rest := Locks(fs, t);
      forall a, b | 0 <= a < b < |Locks(fs, i)| ensures Locks(fs, i)[a] > Locks(fs, i)[b] {
        if a == 0 {
          assert rest[b - 1] <= rest[0];
        } else {
          assert rest[a - 1] > rest[b - 1];
        }
      }
    }
  }

  function Get(fs: Inodes, i: nat, name: string): FsResult<nat>
    requires LinksBack(fs) && i < |fs|
    decreases i
  {
    match fs[i].data
    case Children(entries) => if name in entries then Ok(entries[name]) else Err(NoSuchAFileOrDirectory)
    case HardLink(t) => Get(fs, t, name)
    case File(_) => Err(NotADirectory)
  }

  predicate Contains(fs: Inodes, i: nat, name: string)
    requires LinksBack(fs) && i < |fs|
    decreases i
  {
    match fs[i].data
    case Children(entries) => name in entries
    case HardLink(t) => Contains(fs, t, name)
    case File(_) => false
  }

  /** The inodes after `insert`, or the error. */
  function Insert(fs: Inodes, i: nat, name: string, node: nat): FsResult<Inodes>
    requires LinksBack(fs) && i < |fs|
    decreases i
  {
    match fs[i].data
    case Children(entries) =>
      if name in entries then Err(AlreadyExists)
      else Ok(fs[i := fs[i].(data := Children(entries[name := node]))])
    case HardLink(t) => Insert(fs, t, name, node)
    case File(_) => Err(NotADirectory)
  }

  /** A link answers as the inode at the end of its chain. */
  lemma {:induction false} Forwards(fs: Inodes, i: nat, name: string)
    requires LinksBack(fs) && i < |fs|
    ensures Get(fs, i, name) == Get(fs, Target(fs, i), name)
    ensures Contains(fs, i, name) == Contains(fs, Target(fs, i), name)
    ensures forall node :: Insert(fs, i, name, node) == Insert(fs, Target(fs, i), name, node)
    decreases i
  {
    if fs[i].data.HardLink? { Forwards(fs, fs[i].data.target, name); }
  }

  /** What a lookup answers: the entry of the directory at the end of the chain of links. */
  lemma {:induction false} LookupMeans(fs: Inodes, i: nat, name: string)
    requires LinksBack(fs) && i < |fs|
    ensures var data := fs[Target(fs, i)].data;
      Contains(fs, i, name) == (data.Children? && name in data.entries) &&
      Get(fs, i, name) ==
      if !data.Children? then Err(NotADirectory)
      else if name in data.entries then Ok(data.entries[name])
      else Err(NoSuchAFileOrDirectory)
  {
    Forwards(fs, i, name);
  }

  // ----- paths -----

  predicate Separator(c: char) { c == '/' || c == '\\' }

  /** Splitting at every '/' and '\\'. */
  function SplitPath(path: string): (parts: seq<string>)
    ensures parts != []
  {
    if path == "" then [""]
    else
      var rest := SplitPath(path[1..]);
      if Separator(path[0]) then [""] + rest else [[path[0]] + rest[0]] + rest[1..]
  }

  /** The components that are walked: a leading empty one and a drive are dropped. */
  function Components(path: string): seq<string> {
    var parts := SplitPath(path);
    var parts := if parts[0] == "" then parts[1..] else parts;
    if parts != [] && ':' in parts[0] then parts[1..] else parts
  }

  /** The loop of `reslove_path`, standing on inode `cur`. */
  function Walk(fs: Inodes, cur: nat, parts: seq<string>): FsResult<nat>
    requires LinksBack(fs) && cur < |fs|
    decreases |parts|
  {
    if parts == [] then Ok(cur)
    else if parts[0] == "" then (if |parts| == 1 then Ok(cur) else Err(InvalidPath))
    else if parts[0] == "." then Walk(fs, cur, parts[1..])
    else if !IsDir(fs, cur) || !Contains(fs, cur, parts[0]) then Err(NoSuchAFileOrDirectory)
    else
      match Get(fs, cur, parts[0])
      case Err(e) => Err(e)
      case Ok(next) => if next < |fs| then Walk(fs, next, parts[1..]) else Err(Panicked)
  }

  function Resolve(fs: Inodes, path: string): FsResult<nat>
    requires LinksBack(fs) && fs != []
  {
    Walk(fs, 0, Components(path))
  }

  /** The lookup never meets an inode that is not there. */
  lemma {:induction false} WalkSafe(fs: Inodes, cur: nat, parts: seq<string>)
    requires Inv(fs) && cur < |fs|
    ensures Walk(fs, cur, parts) != Err(Panicked)
    ensures Walk(fs, cur, parts).Ok? ==> Walk(fs, cur, parts).value < |fs|
    decreases |parts|
  {
    if parts != [] && parts[0] != "" {
      if parts[0] == "." {
        WalkSafe(fs, cur, parts[1..]);
      } else if IsDir(fs, cur) && Contains(fs, cur, parts[0]) {
        Forwards(fs, cur, parts[0]);
        WalkSafe(fs, Get(fs, cur, parts[0]).value, parts[1..]);
      }
    }
  }

  // ----- creating -----

  function TrimEnd(s: string, c: char): (r: string)
    ensures r <= s && (r != "" ==> r[|r| - 1] != c) && forall i :: |r| <= i < |s| ==> s[i] == c
  {
    if s != "" && s[|s| - 1] == c then TrimEnd(s[..|s| - 1], c) else s
  }

  /** The place of the last '/'. */
  function LastSlash(s: string): (r: Option<nat>)
    ensures r.Some? ==> r.value < |s| && s[r.value] == '/' && '/' !in s[r.value + 1..]
    ensures r.None? ==> '/' !in s
  {
    if s == "" then None
    else if s[|s| - 1] == '/' then Some(|s| - 1)
    else
      assert s == s[..|s| - 1] + [s[|s| - 1]];
      LastSlash(s[..|s| - 1])
  }

  /** The directory and the name that a path to be created stands for. */
  function ResolveUncreated(fs: Inodes, path: string): FsResult<(nat, string)>
    requires LinksBack(fs) && fs != []
  {
    var path := TrimEnd(path, '/');
    var (name, parent) :=
      match LastSlash(path)
      case Some(i) => (path[i + 1..], path[..i])
      case None => (path, "/");
    match Resolve(fs, parent)
    case Err(e) => Err(e)
    case Ok(dir) =>
      if dir >= |fs| then Err(Panicked)
      else if !IsDir(fs, dir) then Err(NotADirectory) else Ok((dir, name))
  }

  /** `create`: nothing changes on an error. */
  function Create(fs: Inodes, path: string): FsResult<Inodes>
    requires LinksBack(fs) && fs != []
  {
    match ResolveUncreated(fs, path)
    case Err(e) => Err(e)
    case Ok((dir, name)) =>
      if dir >= |fs| then Err(Panicked)
      else
        match Insert(fs, dir, name, |fs|)
        case Err(e) => Err(e)
        case Ok(fs1) => Ok(fs1 + [RamInode(name, File([]), |fs|)])
  }

  /** `createdir`: the new directory gets ".." as a hard link to the directory it was made in. */
  function CreateDir(fs: Inodes, path: string): FsResult<Inodes>
    requires LinksBack(fs) && fs != []
  {
    match ResolveUncreated(fs, path)
    case Err(e) => Err(e)
    case Ok((dir, name)) =>
      if dir >= |fs| then Err(Panicked)
      else
        match Insert(fs, dir, name, |fs|)
        case Err(e) => Err(e)
        case Ok(fs1) =>
          if dir >= |fs1| then Err(Panicked)
          else Ok(fs1 + [RamInode(name, Children(map[".." := |fs| + 1]), |fs|),
                         RamInode("..", HardLink(fs1[dir].inodeid), |fs| + 1)])
  }

  // ----- how the file system grows -----

  /** Nothing is ever removed: inodes keep their number and kind, links their target, and directories
      their entries. */
  predicate Extends(fs: Inodes, fs': Inodes) {
    |fs| <= |fs'| && forall i :: 0 <= i < |fs| ==> ExtendsAt(fs[i], fs'[i])
  }

  predicate ExtendsAt(a: RamInode, b: RamInode) {
    b.inodeid == a.inodeid &&
    match a.data
    case File(_) => b.data.File?
    case Children(entries) => b.data.Children? && forall name :: name in entries ==>
      name in b.data.entries &&
      b.data.entries[name] == entries[name]
    case HardLink(t) => b.data == HardLink(t)
  }

  lemma ExtendsTrans(a: Inodes, b: Inodes, c: Inodes)
    requires Extends(a, b) && Extends(b, c)
    ensures Extends(a, c)
  {
    forall i | 0 <= i < |a| ensures ExtendsAt(a[i], c[i]) {
      assert ExtendsAt(a[i], b[i]) && ExtendsAt(b[i], c[i]);
    }
  }

  lemma {:induction false} TargetKept(fs: Inodes, fs': Inodes, i: nat)
    requires LinksBack(fs) && LinksBack(fs') && Extends(fs, fs') && i < |fs|
    ensures Target(fs', i) == Target(fs, i) && IsDir(fs', i) == IsDir(fs, i)
    decreases i
  {
    assert ExtendsAt(fs[i], fs'[i]);
    if fs[i].data.HardLink? { TargetKept(fs, fs', fs[i].data.target); }
  }

  lemma {:induction false} GetKept(fs: Inodes, fs': Inodes, i: nat, name: string)
    requires LinksBack(fs) && LinksBack(fs') && Extends(fs, fs') && i < |fs|
    ensures Get(fs, i, name).Ok? ==> Get(fs', i, name) == Get(fs, i, name)
    ensures Contains(fs, i, name) ==> Contains(fs', i, name)
  {
    TargetKept(fs, fs', i);
    Forwards(fs, i, name);
    Forwards(fs', i, name);
    assert ExtendsAt(fs[Target(fs, i)], fs'[Target(fs, i)]);
  }

  /** A path that leads somewhere leads there for good. */
  lemma {:induction false} WalkKept(fs: Inodes, fs': Inodes, cur: nat, parts: seq<string>)
    requires Inv(fs) && Inv(fs') && Extends(fs, fs') && cur < |fs| && Walk(fs, cur, parts).Ok?
    ensures Walk(fs', cur, parts) == Walk(fs, cur, parts)
    decreases |parts|
  {
    if parts != [] && parts[0] != "" {
      if parts[0] == "." {
        WalkKept(fs, fs', cur, parts[1..]);
      } else {
        TargetKept(fs, fs', cur);
        GetKept(fs, fs', cur, parts[0]);
        WalkKept(fs, fs', Get(fs, cur, parts[0]).value, parts[1..]);
      }
    }
  }

  /** An entry goes into the directory at the end of the chain of links. */
  lemma {:induction false} InsertAdds(fs: Inodes, dir: nat, name: string, node: nat)
    requires LinksBack(fs) && dir < |fs| && IsDir(fs, dir)
    ensures var t := Target(fs, dir);
      if name in fs[t].data.entries then Insert(fs, dir, name, node) == Err(AlreadyExists)
      else Insert(fs, dir, name, node) == Ok(fs[t := fs[t].(data := Children(fs[t].data.entries[name := node]))])
  {
    Forwards(fs, dir, name);
  }

  /** Adding an entry and then the inodes it needs. */
  lemma GrownInv(fs: Inodes, t: nat, name: string, added: Inodes, fs': Inodes)
    requires Inv(fs) && t < |fs| && fs[t].data.Children? && name !in fs[t].data.entries && added != []
    requires fs' == fs[t := fs[t].(data := Children(fs[t].data.entries[name := |fs|]))] + added
    requires forall j :: 0 <= j < |added| ==> added[j].inodeid == |fs| + j
    requires forall j, n :: 0 <= j < |added| && added[j].data.Children? && n in added[j].data.entries ==>
        added[j].data.entries[n] < |fs'|
    requires forall j :: 0 <= j < |added| && added[j].data.HardLink? ==>
      added[j].data.target < |fs| &&
      IsDir(fs, added[j].data.target)
    ensures Inv(fs') && Extends(fs, fs')
  {
    assert forall i :: 0 <= i < |fs| && i != t ==> fs'[i] == fs[i];
    assert forall j :: 0 <= j < |added| ==> fs'[|fs| + j] == added[j];
    assert LinksBack(fs');
    assert Extends(fs, fs');
    forall i | 0 <= i < |fs'| && fs'[i].data.HardLink? ensures IsDir(fs', i) {
      if i < |fs| {
        TargetKept(fs, fs', i);
      } else {
        TargetKept(fs, fs', fs'[i].data.target);
      }
    }
    EntriesExist(fs, t, name, added, fs');
  }

  lemma EntriesExist(fs: Inodes, t: nat, name: string, added: Inodes, fs': Inodes)
    requires Inv(fs) && t < |fs| && fs[t].data.Children? && added != []
    requires fs' == fs[t := fs[t].(data := Children(fs[t].data.entries[name := |fs|]))] + added
    requires forall j, n :: 0 <= j < |added| && added[j].data.Children? && n in added[j].data.entries ==>
        added[j].data.entries[n] < |fs'|
    ensures forall i, n :: 0 <= i < |fs'| && fs'[i].data.Children? && n in fs'[i].data.entries ==>
        fs'[i].data.entries[n] < |fs'|
  {
    forall i, n | 0 <= i < |fs'| && fs'[i].data.Children? && n in fs'[i].data.entries
      ensures fs'[i].data.entries[n] < |fs'|
    {
      if i < |fs| {
        if i != t { assert fs'[i] == fs[i]; }
      } else {
        assert fs'[i] == added[i - |fs|];
      }
    }
  }

  /** `create` keeps the invariant and every path that led somewhere. */
  lemma CreateKeeps(fs: Inodes, path: string)
    requires Inv(fs) && Create(fs, path).Ok?
    ensures Inv(Create(fs, path).value) && Extends(fs, Create(fs, path).value)
  {
    var (dir, name) := ResolveUncreated(fs, path).value;
    InsertAdds(fs, dir, name, |fs|);
    GrownInv(fs, Target(fs, dir), name, [RamInode(name, File([]), |fs|)], Create(fs, path).value);
  }

  /** Directory `dir` has ".." as inode `link`, which is a hard link to `parent`. */
  predicate DotDot(fs: Inodes, dir: nat, link: nat, parent: nat) {
    dir < |fs| && link < |fs| && parent < |fs| &&
    fs[dir].data.Children? && ".." in fs[dir].data.entries && fs[dir].data.entries[".."] == link &&
    fs[link].data == HardLink(parent)
  }

  /** `createdir` does so too, and its ".." is a link to the inode the path led to, which may itself be
      a link. */
  lemma CreateDirKeeps(fs: Inodes, path: string)
    requires Inv(fs) && CreateDir(fs, path).Ok?
    ensures Inv(CreateDir(fs, path).value) && Extends(fs, CreateDir(fs, path).value)
    ensures ResolveUncreated(fs, path).Ok?
    ensures DotDot(CreateDir(fs, path).value, |fs|, |fs| + 1, ResolveUncreated(fs, path).value.0)
  {
    var (dir, name) := ResolveUncreated(fs, path).value;
    InsertAdds(fs, dir, name, |fs|);
    var t := Target(fs, dir);
    var fs1 := fs[t := fs[t].(data := Children(fs[t].data.entries[name := |fs|]))];
    assert fs1[dir].inodeid == dir;
    var added := [RamInode(name, Children(map[".." := |fs| + 1]), |fs|), RamInode("..", HardLink(dir), |fs| + 1)];
    GrownInv(fs, t, name, added, CreateDir(fs, path).value);
    var fs' := CreateDir(fs, path).value;
    assert fs'[|fs|] == added[0] && fs'[|fs| + 1] == added[1];
  }

  lemma DotDotKept(fs: Inodes, fs': Inodes, dir: nat, link: nat, parent: nat)
    requires DotDot(fs, dir, link, parent) && Extends(fs, fs')
    ensures DotDot(fs', dir, link, parent)
  {
    assert ExtendsAt(fs[dir], fs'[dir]) && ExtendsAt(fs[link], fs'[link]);
  }

  /** Looking a name up through ".." is looking it up in the parent. */
  lemma {:induction false} DotDotTransparent(fs: Inodes, dir: nat, link: nat, parent: nat, name: string)
    requires Inv(fs) && DotDot(fs, dir, link, parent)
    ensures Get(fs, dir, "..") == Ok(link)
    ensures Get(fs, link, name) == Get(fs, parent, name) && Contains(fs, link, name) == Contains(fs, parent, name)
    ensures IsDir(fs, link) && IsDir(fs, parent)
  {}

  // ----- reading and writing -----

  datatype FileDescriptor = FileDescriptor(node: nat, readPos: nat, writePos: nat)

  function Open(fs: Inodes, path: string): FsResult<FileDescriptor>
    requires LinksBack(fs) && fs != []
  {
    match Resolve(fs, path)
    case Err(e) => Err(e)
    case Ok(i) => Ok(FileDescriptor(i, 0, 0))
  }

  function Truncate(fs: Inodes, i: nat, size: nat): FsResult<Inodes>
    requires LinksBack(fs) && i < |fs|
    decreases i
  {
    match fs[i].data
    case File(bytes) => Ok(fs[i := fs[i].(data := File(if size < |bytes| then bytes[..size] else bytes))])
    case HardLink(t) => Truncate(fs, t, size)
    case Children(_) => Err(NotAFile)
  }

  /** Truncating a file leaves its first bytes, as many as it may keep; anything else is not a file. */
  lemma {:induction false} TruncateMeans(fs: Inodes, i: nat, size: nat)
    requires Inv(fs) && i < |fs|
    ensures match Truncate(fs, i, size)
      case Err(e) => e == NotAFile && !fs[i].data.File?
      case Ok(fs') =>
        fs[i].data.File? && |fs'| == |fs| && (forall j :: 0 <= j < |fs| && j != i ==> fs'[j] == fs[j]) &&
        fs'[i].data.File? && fs'[i].data.bytes <= fs[i].data.bytes && |fs'[i].data.bytes| <= size &&
        (|fs[i].data.bytes| <= size ==> fs'[i] == fs[i]) &&
        (|fs[i].data.bytes| > size ==> |fs'[i].data.bytes| == size)
  {
    if fs[i].data.HardLink? { LinkNotTruncated(fs, i, size); }
  }

  lemma {:induction false} LinkNotTruncated(fs: Inodes, i: nat, size: nat)
    requires LinksBack(fs) && i < |fs| && IsDir(fs, i)
    ensures Truncate(fs, i, size) == Err(NotAFile)
    decreases i
  {
    if fs[i].data.HardLink? { LinkNotTruncated(fs, fs[i].data.target, size); }
  }

  /** The file after `buffer` was written at `offset`; a gap is filled with zeros. */
  function Overwrite(bytes: seq<Byte>, buffer: seq<Byte>, offset: nat): (r: seq<Byte>)
    ensures |r| == if |bytes| < offset + |buffer| then offset + |buffer| else |bytes|
    ensures forall k :: 0 <= k < |r| ==>
      r[k] == if offset <= k < offset + |buffer| then buffer[k - offset] else if k < |bytes| then bytes[k] else 0
  {
    var bytes := if |bytes| < |buffer| + offset then bytes + Fill(|buffer| + offset - |bytes|, 0) else bytes;
    bytes[..offset] + buffer + bytes[offset + |buffer|..]
  }

  function WriteAt(fs: Inodes, i: nat, buffer: seq<Byte>, offset: nat): FsResult<Inodes>
    requires LinksBack(fs) && i < |fs|
    decreases i
  {
    match fs[i].data
    case File(bytes) => Ok(fs[i := fs[i].(data := File(Overwrite(bytes, buffer, offset)))])
    case HardLink(t) => WriteAt(fs, t, buffer, offset)
    case Children(_) => Err(NotAFile)
  }

  /** A write at the beginning of a file drops what the file held. */
  function Write(fs: Inodes, fd: FileDescriptor, buffer: seq<Byte>): FsResult<(Inodes, FileDescriptor)>
    requires Inv(fs) && fd.node < |fs|
  {
    match (if fd.writePos == 0 then Truncate(fs, fd.node, 0) else Ok(fs))
    case Err(e) => Err(e)
    case Ok(fs1) =>
      if !(LinksBack(fs1) && fd.node < |fs1|) then Err(Panicked)
      else
        match WriteAt(fs1, fd.node, buffer, fd.writePos)
        case Err(e) => Err(e)
        case Ok(fs2) => Ok((fs2, fd.(writePos := fd.writePos + |buffer|)))
  }

  /** What a read into a buffer of `count` bytes delivers. A position behind the end makes a subtraction
      underflow. */
  function Read(fs: Inodes, fd: FileDescriptor, count: nat): FsResult<(seq<Byte>, FileDescriptor)>
    requires fd.node < |fs|
  {
    match fs[fd.node].data
    case File(bytes) =>
      if fd.readPos > |bytes| then Err(Panicked)
      else
        var n := if fd.readPos + count > |bytes| then |bytes| - fd.readPos else count;
        Ok((bytes[fd.readPos..fd.readPos + n], fd.(readPos := fd.readPos + n)))
    case _ => Err(NotAFile)
  }

  /** Changing the bytes of a file. */
  lemma FileChanged(fs: Inodes, i: nat, bytes: seq<Byte>)
    requires Inv(fs) && i < |fs| && fs[i].data.File?
    ensures var fs' := fs[i := fs[i].(data := File(bytes))]; Inv(fs') && Extends(fs, fs')
  {
    var fs' := fs[i := fs[i].(data := File(bytes))];
    assert LinksBack(fs') && Extends(fs, fs');
    forall j | 0 <= j < |fs'| && fs'[j].data.HardLink? ensures IsDir(fs', j) { TargetKept(fs, fs', j); }
  }

  /** Links lead to directories, so only a file itself can be written: it and nothing else changes. */
  lemma WriteKeeps(fs: Inodes, fd: FileDescriptor, buffer: seq<Byte>)
    requires Inv(fs) && fd.node < |fs|
    ensures Write(fs, fd, buffer).Ok? <==> fs[fd.node].data.File?
    ensures Write(fs, fd, buffer).Ok? ==>
      var (fs', fd') := Write(fs, fd, buffer).value;
      var before := if fd.writePos == 0 then [] else fs[fd.node].data.bytes;
      fs' == fs[fd.node := fs[fd.node].(data := File(Overwrite(before, buffer, fd.writePos)))] &&
      fd' == fd.(writePos := fd.writePos + |buffer|) && Inv(fs') && Extends(fs, fs')
  {
    var i := fd.node;
    match fs[i].data
    case File(bytes) =>
      FileChanged(fs, i, []);
      FileChanged(fs, i, Overwrite(if fd.writePos == 0 then [] else bytes, buffer, fd.writePos));
      assert bytes[..0] == [];
    case HardLink(t) => WriteToLink(fs, i, buffer, fd.writePos);
    case Children(_) =>
  }

  lemma {:induction false} WriteToLink(fs: Inodes, i: nat, buffer: seq<Byte>, offset: nat)
    requires LinksBack(fs) && i < |fs| && IsDir(fs, i)
    ensures WriteAt(fs, i, buffer, offset) == Err(NotAFile) && Truncate(fs, i, 0) == Err(NotAFile)
    decreases i
  {
    if fs[i].data.HardLink? { WriteToLink(fs, fs[i].data.target, buffer, offset); }
  }

  // ----- whole runs -----

  datatype Op = OpCreate(path: string) | OpCreateDir(path: string) | OpWrite(fd: FileDescriptor, buffer: seq<Byte>)

  /** The file system after an operation; an operation that fails changes nothing. */
  function Apply(fs: Inodes, op: Op): Inodes
    requires Inv(fs)
  {
    match op
    case OpCreate(path) => (match Create(fs, path) case Ok(fs') => fs' case Err(_) => fs)
    case OpCreateDir(path) => (match CreateDir(fs, path) case Ok(fs') => fs' case Err(_) => fs)
    case OpWrite(fd, buffer) =>
      if fd.node >= |fs| then fs
      else (match Write(fs, fd, buffer) case Ok((fs', _)) => fs' case Err(_) => fs)
  }

  lemma StepKeeps(fs: Inodes, op: Op)
    requires Inv(fs)
    ensures Inv(Apply(fs, op)) && Extends(fs, Apply(fs, op))
  {
    match op
    case OpCreate(path) => if Create(fs, path).Ok? { CreateKeeps(fs, path); }
    case OpCreateDir(path) => if CreateDir(fs, path).Ok? { CreateDirKeeps(fs, path); }
    case OpWrite(fd, buffer) => if fd.node < |fs| { WriteKeeps(fs, fd, buffer); }
  }

  ghost predicate Run(states: seq<Inodes>, ops: seq<Op>) {
    |states| == |ops| + 1 && Inv(states[0]) &&
    forall i :: 0 <= i < |ops| ==> (Inv(states[i]) ==> states[i + 1] == Apply(states[i], ops[i]))
  }

  /** Every state of a run satisfies the invariant. */
  lemma {:induction false} RunInv(states: seq<Inodes>, ops: seq<Op>, n: nat)
    requires Run(states, ops) && n <= |ops|
    ensures Inv(states[n])
  {
    hide Inv, Apply, Extends;
    if n > 0 {
      RunInv(states, ops, n - 1);
      StepKeeps(states[n - 1], ops[n - 1]);
    }
  }

  /** Over any run nothing is ever taken away. */
  lemma {:induction false} RunKeeps(states: seq<Inodes>, ops: seq<Op>, i: nat, j: nat)
    requires Run(states, ops) && i <= j <= |ops|
    ensures Inv(states[i]) && Inv(states[j]) && Extends(states[i], states[j])
    decreases j
  {
    hide Inv, Apply, Extends;
    RunInv(states, ops, i);
    RunInv(states, ops, j);
    if i < j {
      RunKeeps(states, ops, i, j - 1);
      StepKeeps(states[j - 1], ops[j - 1]);
      ExtendsTrans(states[i], states[j - 1], states[j]);
    } else {
      ExtendsRefl(states[j]);
    }
  }

  // ----- files that get shorter -----

  /** A write at the beginning of file `i` with fewer bytes than it holds. */
  predicate Shortens(fs: Inodes, op: Op, i: nat)
    requires i < |fs| && fs[i].data.File?
  {
    op.OpWrite? && op.fd.node == i && op.fd.writePos == 0 && |op.buffer| < |fs[i].data.bytes|
  }

  /** Nothing else makes a file shorter. */
  lemma ShorterIff(fs: Inodes, op: Op, i: nat)
    requires Inv(fs) && i < |fs| && fs[i].data.File?
    ensures var fs' := Apply(fs, op);
      i < |fs'| && fs'[i].data.File? && (|fs'[i].data.bytes| < |fs[i].data.bytes| <==> Shortens(fs, op, i))
  {
    hide Inv, Create, CreateDir, Overwrite;
    match op
    case OpCreate(path) => CreateLeaves(fs, path, i);
    case OpCreateDir(path) => CreateLeaves(fs, path, i);
    case OpWrite(fd, buffer) =>
      if fd.node < |fs| {
        WriteKeeps(fs, fd, buffer);
        if fd.node == i { OverwriteSize(if fd.writePos == 0 then [] else fs[i].data.bytes, buffer, fd.writePos); }
      }
  }

  lemma OverwriteSize(bytes: seq<Byte>, buffer: seq<Byte>, offset: nat)
    ensures |Overwrite(bytes, buffer, offset)| == if |bytes| < offset + |buffer| then offset + |buffer| else |bytes|
  {}

  /** An insertion changes a directory and no file. */
  lemma {:induction false} InsertLeaves(fs: Inodes, d: nat, name: string, node: nat, i: nat)
    requires LinksBack(fs) && d < |fs| && i < |fs| && fs[i].data.File? && Insert(fs, d, name, node).Ok?
    ensures var fs' := Insert(fs, d, name, node).value; |fs'| == |fs| && fs'[i].data == fs[i].data
    decreases d
  {
    if fs[d].data.HardLink? { InsertLeaves(fs, fs[d].data.target, name, node, i); }
  }

  lemma CreateLeaves(fs: Inodes, path: string, i: nat)
    requires Inv(fs) && i < |fs| && fs[i].data.File?
    ensures Create(fs, path).Ok? ==>
      var fs' := Create(fs, path).value; i < |fs'| && fs'[i].data == fs[i].data
    ensures CreateDir(fs, path).Ok? ==>
      var fs' := CreateDir(fs, path).value; i < |fs'| && fs'[i].data == fs[i].data
  {
    InvParts(fs);
    hide Inv, ResolveUncreated, Insert;
    if ResolveUncreated(fs, path).Ok? {
      var (dir, name) := ResolveUncreated(fs, path).value;
      if dir < |fs| && Insert(fs, dir, name, |fs|).Ok? { InsertLeaves(fs, dir, name, |fs|, i); }
    }
  }

  /** Over any run in which no write shortens the file, a descriptor that can be read can be read later. */
  lemma {:induction false} RunReadable(states: seq<Inodes>, ops: seq<Op>, i: nat, j: nat, fd: FileDescriptor,
      count: nat)
    requires Run(states, ops) && i <= j <= |ops| && fd.node < |states[i]| && Read(states[i], fd, count).Ok?
    requires forall k :: i <= k < j ==>
      fd.node < |states[k]| && states[k][fd.node].data.File? ==> !Shortens(states[k], ops[k], fd.node)
    ensures fd.node < |states[j]| && Read(states[j], fd, count).Ok?
    decreases j
  {
    hide Inv, Apply, Shortens;
    if i < j {
      RunReadable(states, ops, i, j - 1, fd, count);
      RunInv(states, ops, j - 1);
      ShorterIff(states[j - 1], ops[j - 1], fd.node);
    }
  }

  /** A write that shortens the file makes reading panic for every descriptor behind its new end. */
  lemma ShortenedPanics(fs: Inodes, writer: FileDescriptor, buffer: seq<Byte>, fd: FileDescriptor, count: nat)
    requires Inv(fs) && fd.node < |fs| && fs[fd.node].data.File?
    requires Shortens(fs, OpWrite(writer, buffer), fd.node)
    ensures var fs' := Apply(fs, OpWrite(writer, buffer));
      fd.node < |fs'| && (Read(fs', fd, count) == Err(Panicked) <==> fd.readPos > |buffer|)
  {
    hide Inv, Overwrite;
    WriteKeeps(fs, writer, buffer);
    OverwriteSize([], buffer, 0);
  }

  lemma ExtendsRefl(fs: Inodes)
    ensures Extends(fs, fs)
  {}

  /** In every later state a path that resolved resolves to the same inode. */
  lemma RunResolves(states: seq<Inodes>, ops: seq<Op>, i: nat, j: nat, path: string)
    requires Run(states, ops) && i <= j <= |ops| && Inv(states[i]) && Resolve(states[i], path).Ok?
    ensures Inv(states[j]) && Resolve(states[j], path) == Resolve(states[i], path)
  {
    RunKeeps(states, ops, i, j);
    WalkKept(states[i], states[j], 0, Components(path));
  }

  /** The path leaves the inode it starts from. */
  predicate Leaves(parts: seq<string>) {
    parts != [] && if parts[0] == "." then Leaves(parts[1..]) else parts[0] != "" || |parts| > 1
  }

  /** A path that leaves a link is walked as from the inode it links to; one that does not stays at either. */
  lemma {:induction false} WalkFromLink(fs: Inodes, link: nat, parent: nat, parts: seq<string>)
    requires Inv(fs) && link < |fs| && parent < |fs| && fs[link].data == HardLink(parent)
    ensures if Leaves(parts) then Walk(fs, link, parts) == Walk(fs, parent, parts)
            else Walk(fs, link, parts) == Ok(link) && Walk(fs, parent, parts) == Ok(parent)
    decreases |parts|
  {
    if parts != [] && parts[0] == "." { WalkFromLink(fs, link, parent, parts[1..]); }
  }

  lemma {:induction false} WalkThroughDotDot(fs: Inodes, dir: nat, link: nat, parent: nat, parts: seq<string>)
    requires Inv(fs) && DotDot(fs, dir, link, parent)
    ensures Walk(fs, dir, [".."] + parts) == Walk(fs, link, parts)
  {
    assert ([".."] + parts)[1..] == parts;
  }

  /** In every later state a path through ".." of a directory made by `createdir` leads where the rest of
      it leads from the inode the directory was made in, also when that was reached through a chain of
      ".." links; ".." alone leads to the link. */
  lemma {:induction false} RunDotDot(states: seq<Inodes>, ops: seq<Op>, i: nat, j: nat, path: string,
      parts: seq<string>)
    requires Run(states, ops) && i < j <= |ops| && Inv(states[i])
    requires ops[i] == OpCreateDir(path) && CreateDir(states[i], path).Ok?
    ensures ResolveUncreated(states[i], path).Ok?
    ensures var fs, dir, parent := states[j], |states[i]|, ResolveUncreated(states[i], path).value.0;
      Inv(fs) && dir + 1 < |fs| && parent < |fs| &&
      Walk(fs, dir, [".."] + parts) == if Leaves(parts) then Walk(fs, parent, parts) else Ok(dir + 1)
  {
    hide Inv, Extends, Create, CreateDir, Write, ResolveUncreated, Get, Contains, Walk;
    InvParts(states[i]);
    CreateDirKeeps(states[i], path);
    var dir, parent := |states[i]|, ResolveUncreated(states[i], path).value.0;
    RunKeeps(states, ops, i + 1, j);
    DotDotKept(states[i + 1], states[j], dir, dir + 1, parent);
    WalkThroughDotDot(states[j], dir, dir + 1, parent, parts);
    WalkFromLink(states[j], dir + 1, parent, parts);
  }

  // ----- reading in pieces -----

  /** The bytes that reads into buffers of the given sizes deliver, one after the other. */
  function ReadAll(fs: Inodes, fd: FileDescriptor, counts: seq<nat>): FsResult<seq<Byte>>
    requires fd.node < |fs|
    decreases |counts|
  {
    if counts == [] then Ok([])
    else
      match Read(fs, fd, counts[0])
      case Err(e) => Err(e)
      case Ok((bytes, fd')) =>
        match ReadAll(fs, fd', counts[1..])
        case Err(e) => Err(e)
        case Ok(rest) => Ok(bytes + rest)
  }

  function Sum(counts: seq<nat>): nat {
    if counts == [] then 0 else counts[0] + Sum(counts[1..])
  }

  /** However a file is cut into reads, they deliver it from the position on without gap or overlap. */
  lemma {:induction false} ReadAllDelivers(fs: Inodes, fd: FileDescriptor, counts: seq<nat>)
    requires fd.node < |fs| && fs[fd.node].data.File? && fd.readPos <= |fs[fd.node].data.bytes|
    ensures var bytes := fs[fd.node].data.bytes;
      var end := if fd.readPos + Sum(counts) > |bytes| then |bytes| else fd.readPos + Sum(counts);
      ReadAll(fs, fd, counts) == Ok(bytes[fd.readPos..end])
    decreases |counts|
  {
    var bytes := fs[fd.node].data.bytes;
    if counts == [] {
      assert bytes[fd.readPos..fd.readPos] == [];
    } else {
      var (first, fd') := Read(fs, fd, counts[0]).value;
      ReadAllDelivers(fs, fd', counts[1..]);
      var end := if fd.readPos + Sum(counts) > |bytes| then |bytes| else fd.readPos + Sum(counts);
      assert first + bytes[fd'.readPos..end] == bytes[fd.readPos..end];
    }
  }
}
