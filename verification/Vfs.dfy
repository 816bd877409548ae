/** Drives and the working directory: what a path of a process means. */
module Vfs {
  import opened Wrappers
  import opened RamFs
  import opened Ustar
  import opened Unpack
  import opened Lookup
  import FileSystem

  /** The mounted file systems by name. */
  type Drives = map<string, Inodes>

  predicate Sound(drives: Drives) { forall name :: name in drives ==> Inv(drives[name]) }

  predicate EndsWith(s: string, c: char) { s != "" && s[|s| - 1] == c }

  predicate Absolute(path: string) { EndsWith(SplitPath(path)[0], ':') }

  function FullPath(cwd: string, path: string): string { if Absolute(path) then path else cwd + path }

  /** `get_from_path_checked`: the drive that a full path names. */
  function DriveOf(drives: Drives, path: string): (r: FsResult<string>)
    ensures r.Ok? ==> r.value in drives && Absolute(path) && SplitPath(path)[0] == r.value + ":"
  {
    var first := SplitPath(path)[0];
    if !Absolute(path) then Err(InvalidDrive)
    else
      var name := first[..|first| - 1];
      assert first == name + ":";
      if name in drives then Ok(name) else Err(InvalidDrive)
  }

  /** The drive and the inode that a path leads to. */
  function Find(drives: Drives, cwd: string, path: string): FsResult<(string, nat)>
    requires Sound(drives)
  {
    var full := FullPath(cwd, path);
    match DriveOf(drives, full)
    case Err(e) => Err(e)
    case Ok(name) =>
      match Resolve(drives[name], full)
      case Err(e) => Err(e)
      case Ok(i) => Ok((name, i))
  }

  /** `chdir`: the new working directory, which ends in '/'. */
  function Chdir(drives: Drives, cwd: string, path: string): FsResult<string>
    requires Sound(drives)
  {
    match Find(drives, cwd, path)
    case Err(e) => Err(e)
    case Ok((name, i)) =>
      if name !in drives || i >= |drives[name]| then Err(Panicked)
      else if !IsDir(drives[name], i) then Err(NotADirectory)
      else
        var full := FullPath(cwd, path);
        Ok(if EndsWith(full, '/') then full else full + "/")
  }

  /** The part of a process state that `chdir` changes. */
  class Session {
    var currentDir: string

    constructor (dir: string)
      ensures currentDir == dir
    {
      currentDir := dir;
    }

    method ChangeDir(drives: Drives, path: string) returns (r: FsResult<()>)
      requires Sound(drives)
      modifies this
      ensures match Chdir(drives, old(currentDir), path)
        case Ok(dir) => r == Ok(()) && currentDir == dir
        case Err(e) => r == Err(e) && currentDir == old(currentDir)
    {
      hide Inv, Resolve, SplitPath;
      var full := FullPath(currentDir, path);
      var drive := DriveOf(drives, full);
      if drive.Err? { return Err(drive.error); }
      var fs := drives[drive.value];
      InvParts(fs);
      var found := Resolve(fs, full);
      if found.Err? { return Err(found.error); }
      FoundInside(fs, full);
      if !IsDir(fs, found.value) { return Err(NotADirectory); }
      currentDir := full;
      if !EndsWith(currentDir, '/') { currentDir := currentDir + "/"; }
      return Ok(());
    }
  }

  lemma FoundInside(fs: Inodes, path: string)
    requires Inv(fs)
    ensures Resolve(fs, path).Ok? ==> Resolve(fs, path).value < |fs|
  {
    WalkSafe(fs, 0, Components(path));
  }

  // ----- where a process is -----

  /** The working directory is directory `dir` of a drive, and paths can be put behind it. */
  predicate Homed(drives: Drives, cwd: string, name: string, dir: nat) {
    Sound(drives) && EndsWith(cwd, '/') && DriveOf(drives, cwd) == Ok(name) &&
    dir < |drives[name]| && Resolve(drives[name], cwd) == Ok(dir) && IsDir(drives[name], dir)
  }

  /** What a path leads to from inode `i` of a drive. */
  function From(drives: Drives, name: string, i: nat, parts: seq<string>): FsResult<(string, nat)>
    requires Sound(drives) && name in drives && i < |drives[name]|
  {
    match Walk(drives[name], i, parts)
    case Err(e) => Err(e)
    case Ok(j) => Ok((name, j))
  }

  /** Splitting a working directory with something behind it. */
  lemma CwdSplits(cwd: string, path: string)
    requires EndsWith(cwd, '/') && Absolute(cwd)
    ensures var front := cwd[..|cwd| - 1];
      front != "" && SplitPath(cwd + path)[0] == SplitPath(cwd)[0] == SplitPath(front)[0] &&
      Components(cwd + path) == Components(front) + SplitPath(path) && Components(cwd) == Components(front) + [""]
  {
    hide SplitPath, Components;
    var front := cwd[..|cwd| - 1];
    assert cwd == front + ['/'] + "";
    assert cwd + path == front + ['/'] + path;
    SplitAtSeparator(front, '/', "");
    SplitAtSeparator(front, '/', path);
    SplitEmpty();
    assert front != "";
    ComponentsAppend(front, '/', "");
    ComponentsAppend(front, '/', path);
  }

  lemma HomedFront(drives: Drives, cwd: string, name: string, dir: nat)
    requires Homed(drives, cwd, name, dir)
    ensures "" !in Components(cwd[..|cwd| - 1]) && Walk(drives[name], 0, Components(cwd[..|cwd| - 1])) == Ok(dir)
  {
    hide Components, SplitPath, Inv, IsDir;
    CwdSplits(cwd, "");
    var fs, c := drives[name], Components(cwd[..|cwd| - 1]);
    InvParts(fs);
    assert forall k :: 0 <= k < |c| ==> Components(cwd)[k] == c[k];
    ResolvedBlank(fs, Components(cwd));
    WalkConcat(fs, 0, c, [""]);
  }

  /** A path without a drive leads where its components lead from the working directory. */
  lemma {:induction false} RelativeMeans(drives: Drives, cwd: string, name: string, dir: nat, path: string)
    requires Homed(drives, cwd, name, dir) && !Absolute(path)
    ensures Find(drives, cwd, path) == From(drives, name, dir, SplitPath(path))
  {
    hide Components, SplitPath, Inv, IsDir;
    CwdSplits(cwd, path);
    HomedFront(drives, cwd, name, dir);
    WalkConcat(drives[name], 0, Components(cwd[..|cwd| - 1]), SplitPath(path));
  }

  lemma NamesDrive(name: string)
    requires forall i :: 0 <= i < |name| ==> !Separator(name[i])
    ensures IsDrive(name + ":") && forall i :: 0 <= i < |name + ":"| ==> !Separator((name + ":")[i])
  {
    assert (name + ":")[|name|] == ':';
  }

  /** A path with a drive leads where the rest leads from its root, whatever the working directory. */
  lemma {:induction false} AbsoluteMeans(drives: Drives, cwd: string, name: string, c: char, rest: string)
    requires Sound(drives) && Separator(c) && forall i :: 0 <= i < |name| ==> !Separator(name[i])
    ensures var path := name + ":" + [c] + rest;
      Find(drives, cwd, path) ==
      if name in drives then InvParts(drives[name]); From(drives, name, 0, SplitPath(rest)) else Err(InvalidDrive)
  {
    hide Inv, SplitPath, Components, Walk, IsDrive;
    var drive := name + ":";
    assert drive[|drive| - 1] == ':' && drive[..|drive| - 1] == name;
    if name in drives { InvParts(drives[name]); }
    assert IsDrive(drive) by { NamesDrive(name); }
    DriveComponents(drive, c, rest);
    SplitPlain(drive);
    SplitAtSeparator(drive, c, rest);
    assert SplitPath(drive + [c] + rest)[0] == drive;
  }

  /** A slash at the front does not lead to the root: it is put behind the working directory, and no such
      path leads anywhere. */
  lemma SlashLeadsNowhere(drives: Drives, cwd: string, name: string, dir: nat, c: char, rest: string)
    requires Homed(drives, cwd, name, dir) && Separator(c)
    ensures Find(drives, cwd, [c] + rest) == Err(InvalidPath)
  {
    assert SplitPath([c] + rest) == [""] + SplitPath(rest) by { SplitCons(c, rest); }
    RelativeMeans(drives, cwd, name, dir, [c] + rest);
  }

  // ----- changing the directory -----

  /** After `chdir` the process is where the path led exactly when the path does not end in a backslash. */
  lemma ChdirHomedIff(drives: Drives, cwd: string, path: string)
    requires Sound(drives) && Chdir(drives, cwd, path).Ok?
    ensures Find(drives, cwd, path).Ok?
    ensures var (name, dir) := Find(drives, cwd, path).value;
      Homed(drives, Chdir(drives, cwd, path).value, name, dir) <==> !EndsWith(FullPath(cwd, path), '\\')
  {
    hide Components, SplitPath, Inv, Walk;
    var (name, dir) := Find(drives, cwd, path).value;
    var full, cwd' := FullPath(cwd, path), Chdir(drives, cwd, path).value;
    var fs := drives[name];
    InvParts(fs);
    assert full != "" by { SplitEmpty(); }
    if !EndsWith(full, '/') {
      assert cwd' == full + ['/'] + "" && cwd'[..|cwd'| - 1] == full;
      SplitAtSeparator(full, '/', "");
      assert Absolute(cwd');
      CwdSplits(cwd', "");
      EndsBlank(full);
      ResolvedBlank(fs, Components(full));
      var c := Components(full);
      if EndsWith(full, '\\') {
        assert (c + [""])[|c| - 1] == "";
        WalkGap(fs, 0, c + [""], |c| - 1);
      } else {
        assert "" !in c;
        WalkConcat(fs, 0, c, [""]);
        WalkStays(fs, dir);
      }
    }
  }

  lemma {:induction false} WalkStays(fs: Inodes, i: nat)
    requires Inv(fs) && i < |fs|
    ensures Walk(fs, i, [""]) == Ok(i)
  {}

  /** After a backslash at the end no path without a drive leads anywhere. */
  lemma BackslashLost(drives: Drives, cwd: string, path: string, next: string)
    requires Sound(drives) && Chdir(drives, cwd, path).Ok? && EndsWith(FullPath(cwd, path), '\\') && !Absolute(next)
    ensures Find(drives, Chdir(drives, cwd, path).value, next) == Err(InvalidPath)
  {
    hide Components, SplitPath, Inv, Walk;
    var (name, dir) := Find(drives, cwd, path).value;
    var full, cwd' := FullPath(cwd, path), Chdir(drives, cwd, path).value;
    var fs := drives[name];
    InvParts(fs);
    assert full != "" by { SplitEmpty(); }
    assert cwd' == full + ['/'] + "" && cwd'[..|cwd'| - 1] == full;
    SplitAtSeparator(full, '/', "");
    CwdSplits(cwd', next);
    EndsBlank(full);
    var c, parts := Components(full), Components(full) + SplitPath(next);
    ResolvedBlank(fs, c);
    assert parts[..|c| - 1] == c[..|c| - 1];
    assert c == c[..|c| - 1] + [""];
    WalkConcat(fs, 0, c[..|c| - 1], [""]);
    WalkGap(fs, 0, parts, |c| - 1);
  }

  /** A path that leads to no directory is refused, for what is wrong with the path or because it is none. */
  lemma {:induction false} ChdirFails(drives: Drives, cwd: string, name: string, dir: nat, path: string)
    requires Homed(drives, cwd, name, dir) && !Absolute(path)
    ensures var at := Walk(drives[name], dir, SplitPath(path));
      (at.Ok? ==> at.value < |drives[name]|) &&
      if at.Err? then Chdir(drives, cwd, path) == Err(at.error)
      else Chdir(drives, cwd, path).Ok? <==> IsDir(drives[name], at.value)
    ensures var at := Walk(drives[name], dir, SplitPath(path));
      at.Ok? && Chdir(drives, cwd, path).Err? ==> Chdir(drives, cwd, path) == Err(NotADirectory)
  {
    hide SplitPath, Components, Inv;
    InvParts(drives[name]);
    RelativeMeans(drives, cwd, name, dir, path);
    WalkSafe(drives[name], dir, SplitPath(path));
  }

  // ----- whole runs -----

  /** The drives and the working directory of a process. */
  datatype State = State(drives: Drives, cwd: string) {
    ghost predicate HomedAt(name: string, dir: nat) { Homed(drives, cwd, name, dir) }
  }

  datatype Op =
    | Go(path: string)
    | MakeFile(path: string)
    | MakeDir(path: string)
    | Put(drive: string, fd: FileDescriptor, buffer: seq<Byte>)

  /** What an operation does to a file system: which one, and the operation there. */
  function OnDrive(s: State, op: Op): FsResult<(string, RamFs.Op)> {
    match op
    case Go(_) => Err(OperationNotSupported)
    case MakeFile(path) =>
      var full := FullPath(s.cwd, path);
      (match DriveOf(s.drives, full)
       case Err(e) => Err(e)
       case Ok(name) => if EndsWith(full, '/') then Err(NotAFile) else Ok((name, OpCreate(full))))
    case MakeDir(path) =>
      var full := FullPath(s.cwd, path);
      (match DriveOf(s.drives, full) case Err(e) => Err(e) case Ok(name) => Ok((name, OpCreateDir(full))))
    case Put(name, fd, buffer) => if name in s.drives then Ok((name, OpWrite(fd, buffer))) else Err(InvalidDrive)
  }

  function Step(s: State, op: Op): (s': State)
    requires Sound(s.drives)
    ensures s'.drives.Keys == s.drives.Keys
  {
    if op.Go? then
      match Chdir(s.drives, s.cwd, op.path)
      case Err(_) => s
      case Ok(cwd) => s.(cwd := cwd)
    else
      match OnDrive(s, op)
      case Err(_) => s
      case Ok((name, fsop)) => s.(drives := s.drives[name := RamFs.Apply(s.drives[name], fsop)])
  }

  predicate Leaves(s: State, op: Op)
    requires Sound(s.drives)
  {
    op.Go? && Chdir(s.drives, s.cwd, op.path).Ok?
  }

  lemma StepSound(s: State, op: Op)
    requires Sound(s.drives)
    ensures Sound(Step(s, op).drives)
  {
    hide Inv, RamFs.Apply, Chdir, DriveOf;
    if !op.Go? && OnDrive(s, op).Ok? {
      var (name, fsop) := OnDrive(s, op).value;
      StepKeeps(s.drives[name], fsop);
    }
  }

  /** Whatever is created or written, the process stays where it is until it changes its directory. */
  lemma StepHomed(s: State, op: Op, name: string, dir: nat)
    requires s.HomedAt(name, dir) && !Leaves(s, op)
    ensures Step(s, op).HomedAt(name, dir)
  {
    hide Inv, RamFs.Apply, Chdir, Walk, Components, SplitPath, Extends;
    StepSound(s, op);
    if !op.Go? && OnDrive(s, op).Ok? {
      var (n, fsop) := OnDrive(s, op).value;
      if n == name {
        var fs := s.drives[name];
        StepKeeps(fs, fsop);
        var fs' := RamFs.Apply(fs, fsop);
        StaysHome(fs, fs', s.cwd, dir);
      }
    }
  }

  lemma StaysHome(fs: Inodes, fs': Inodes, path: string, dir: nat)
    requires Inv(fs) && Inv(fs') && Extends(fs, fs') && Resolve(fs, path) == Ok(dir) && dir < |fs| && IsDir(fs, dir)
    ensures Resolve(fs', path) == Ok(dir) && dir < |fs'| && IsDir(fs', dir)
  {
    WalkKept(fs, fs', 0, Components(path));
    TargetKept(fs, fs', dir);
  }

  ghost predicate Run(states: seq<State>, ops: seq<Op>) {
    |states| == |ops| + 1 && Sound(states[0].drives) &&
    forall i :: 0 <= i < |ops| ==> Sound(states[i].drives) && states[i + 1] == Step(states[i], ops[i])
  }

  /** Nobody changes to a path that ends in a backslash. */
  ghost predicate Careful(states: seq<State>, ops: seq<Op>)
    requires Run(states, ops)
  {
    forall i :: 0 <= i < |ops| && Leaves(states[i], ops[i]) ==>
      !EndsWith(FullPath(states[i].cwd, ops[i].path), '\\')
  }

  /** The last place that the process went to before state `n`, or where it was at first. */
  ghost function Place(states: seq<State>, ops: seq<Op>, n: nat, first: (string, nat)): (string, nat)
    requires Run(states, ops) && n <= |ops|
  {
    if n == 0 then first
    else
      var s, op := states[n - 1], ops[n - 1];
      if Leaves(s, op) then Find(s.drives, s.cwd, op.path).value else Place(states, ops, n - 1, first)
  }

  /** Over any run the process is in the directory that it went to last, and a path without a drive leads
      where its components lead from there, in the drive as it is then. */
  lemma {:induction false} RunHomed(states: seq<State>, ops: seq<Op>, n: nat, first: (string, nat))
    requires Run(states, ops) && Careful(states, ops) && n <= |ops| && states[0].HomedAt(first.0, first.1)
    ensures var (name, dir) := Place(states, ops, n, first); states[n].HomedAt(name, dir)
    decreases n
  {
    hide Homed, Chdir, Find, OnDrive, FullPath, Sound;
    if n > 0 {
      RunHomed(states, ops, n - 1, first);
      var s, op := states[n - 1], ops[n - 1];
      if Leaves(s, op) {
        ChdirHomedIff(s.drives, s.cwd, op.path);
      } else {
        var (name, dir) := Place(states, ops, n - 1, first);
        StepHomed(s, op, name, dir);
      }
    }
  }

  lemma {:induction false} RunFinds(states: seq<State>, ops: seq<Op>, n: nat, first: (string, nat), path: string)
    requires Run(states, ops) && Careful(states, ops) && n <= |ops| && states[0].HomedAt(first.0, first.1)
    requires !Absolute(path)
    ensures var (name, dir) := Place(states, ops, n, first);
      Sound(states[n].drives) && name in states[n].drives && dir < |states[n].drives[name]| &&
      Find(states[n].drives, states[n].cwd, path) == From(states[n].drives, name, dir, SplitPath(path))
  {
    hide Chdir, Find, FullPath, Resolve, IsDir, From, Inv, Careful, Step, SplitPath, Walk;
    RunHomed(states, ops, n, first);
    var (name, dir) := Place(states, ops, n, first);
    RelativeMeans(states[n].drives, states[n].cwd, name, dir, path);
  }

  // ----- files of the working directory -----

  /** A slash at the end makes no file, and makes the same directory as without it. */
  lemma SlashForDirs(s: State, path: string)
    requires Sound(s.drives)
    ensures Step(s, MakeFile(path + "/")) == s
    ensures Step(s, MakeDir(path + "/")) == Step(s, MakeDir(path))
  {
    hide Inv, SplitPath, Create, CreateDir, Resolve;
    var full := FullPath(s.cwd, path);
    SplitAtSeparator(path, '/', "");
    assert path + ['/'] + "" == path + "/";
    assert FullPath(s.cwd, path + "/") == full + "/";
    SplitAtSeparator(full, '/', "");
    assert full + ['/'] + "" == full + "/";
    assert DriveOf(s.drives, full + "/") == DriveOf(s.drives, full);
    if DriveOf(s.drives, full).Ok? { SameDir(s.drives[DriveOf(s.drives, full).value], full); }
  }

  lemma SameDir(fs: Inodes, path: string)
    requires Inv(fs)
    ensures RamFs.Apply(fs, OpCreateDir(path + "/")) == RamFs.Apply(fs, OpCreateDir(path))
  {
    hide Inv, ResolveUncreated, Insert;
    InvParts(fs);
    SameParent(fs, path);
  }

  lemma SameParent(fs: Inodes, path: string)
    requires LinksBack(fs) && fs != []
    ensures ResolveUncreated(fs, path + "/") == ResolveUncreated(fs, path)
  {
    hide Resolve, LastSlash, TrimEnd, IsDir;
    TrimSlash(path);
  }

  lemma {:induction false} TrimSlash(path: string)
    ensures TrimEnd(path + "/", '/') == TrimEnd(path, '/')
  {
    assert (path + "/")[..|path|] == path;
  }

  /** A bare name behind a working directory. */
  lemma HereWritten(cwd: string, file: string)
    requires EndsWith(cwd, '/') && |cwd| > 1 && !Separator(cwd[|cwd| - 2]) && file != "" && '/' !in file
    ensures !EndsWith(cwd + file, '/')
    ensures var w := Written(Some(cwd[..|cwd| - 1]), file, 0);
      w.Valid() && w.Path() == cwd + file && (Findable(w) <==> file != "." && '\\' !in file)
  {
    var front := cwd[..|cwd| - 1];
    assert file[|file| - 1] in file;
    assert (cwd + file)[|cwd + file| - 1] == file[|file| - 1];
    assert file + Slashes(0) == file && cwd == front + "/";
    assert front[|front| - 1] == cwd[|cwd| - 2];
  }

  lemma MakesFile(s: State, name: string, dir: nat, file: string)
    requires s.HomedAt(name, dir) && !Absolute(file) && !EndsWith(s.cwd + file, '/')
    ensures var s', fs := Step(s, MakeFile(file)), s.drives[name];
      s'.cwd == s.cwd && s'.drives == s.drives[name := RamFs.Apply(fs, OpCreate(s.cwd + file))] &&
      (Sound(s'.drives) ==> DriveOf(s'.drives, s.cwd + file) == Ok(name))
  {
    hide Inv, SplitPath, RamFs.Apply, Components;
    CwdSplits(s.cwd, file);
  }

  /** A file made under a bare name in the working directory is found under that name, unless it is a dot
      or holds a backslash. */
  lemma MadeHere(s: State, name: string, dir: nat, file: string)
    requires s.HomedAt(name, dir) && file != "" && '/' !in file && !Absolute(file)
    requires Create(s.drives[name], s.cwd + file).Ok?
    ensures var s' := Step(s, MakeFile(file));
      Sound(s'.drives) &&
      (Find(s'.drives, s'.cwd, file) == Ok((name, |s.drives[name]|)) <==> file != "." && '\\' !in file)
  {
    hide Inv, Components, SplitPath, Create, Resolve, IsDir, Step, DriveOf, Findable, Absolute, Sound;
    assert Sound(s.drives) && Inv(s.drives[name]) && |s.cwd| > 1 && !Separator(s.cwd[|s.cwd| - 2]) by {
      HomedParts(s, name, dir);
    }
    InvParts(s.drives[name]);
    HereWritten(s.cwd, file);
    MakesFile(s, name, dir, file);
    StepSound(s, MakeFile(file));
    CreateFindsIff(s.drives[name], Written(Some(s.cwd[..|s.cwd| - 1]), file, 0));
  }

  lemma HomedParts(s: State, name: string, dir: nat)
    requires s.HomedAt(name, dir)
    ensures Sound(s.drives) && name in s.drives && Inv(s.drives[name])
    ensures |s.cwd| > 1 && !Separator(s.cwd[|s.cwd| - 2])
  {
    hide Inv, Components, SplitPath, Resolve, IsDir;
    CwdSplits(s.cwd, "");
    HomedFront(s.drives, s.cwd, name, dir);
    EndsBlank(s.cwd[..|s.cwd| - 1]);
  }

  // ----- the first process -----

  /** The drives that are mounted at the start, apart from devices and processes. */
  function Booted(archive: seq<Byte>): Drives { map["ram" := New(), "sys" := FileSystem.UnpackedNew(archive).0] }

  lemma BootSound(archive: seq<Byte>)
    ensures Sound(Booted(archive))
  {
    hide Inv, New, FileSystem.UnpackFrom;
    NewInv();
    FileSystem.UnpackKeeps(New(), archive, Some(0));
  }

  /** A process starts in the root of the drive "ram". */
  lemma StartsHome(archive: seq<Byte>)
    ensures Homed(Booted(archive), "ram:/", "ram", 0)
  {
    hide FileSystem.UnpackedNew, Inv, SplitPath, Components, Walk;
    BootSound(archive);
    NewInv();
    var cwd, drive := "ram:/", "ram:";
    assert cwd == drive + ['/'] + "" && drive[..3] == "ram";
    DriveComponents(drive, '/', "");
    SplitPlain(drive);
    SplitAtSeparator(drive, '/', "");
    SplitEmpty();
    assert SplitPath(cwd)[0] == drive;
    WalkStays(New(), 0);
    assert Resolve(New(), cwd) == Ok(0);
  }

  /** Every entry of a well-formed archive is found on the drive "sys" by any spelling of its path, from
      any working directory, and a file reads as its data. */
  lemma {:induction false} BootFiles(archive: seq<Byte>, entries: seq<Entry>, names: seq<seq<string>>, i: nat,
      raw: seq<string>, counts: seq<nat>, cwd: string)
    requires Archive(archive, 0, entries) && Listing(entries, names) && i < |entries| && SamePath(raw, names[i])
    requires raw[0] == "sys:"
    ensures Sound(Booted(archive))
    ensures var drives := Booted(archive);
      Retrieved(drives["sys"], Join(raw), entries[i], counts) && entries[i].kind != Other &&
      Resolve(drives["sys"], Join(raw)).Ok? &&
      Find(drives, cwd, Join(raw)) == Ok(("sys", Resolve(drives["sys"], Join(raw)).value))
  {
    hide Listing, Archive, FileSystem.UnpackedNew, Inv, New, Strip, Undriven, Join, SplitPath, Resolve, ReadAll, Sum;
    BootSound(archive);
    FileSystem.ArchiveRoundTrip(archive, entries, names, i, raw, counts);
    assert entries[i].kind != Other by { KindOf(entries, names, i); }
    SplitJoin(raw);
    assert "sys:"[|"sys:"| - 1] == ':' && "sys:"[..3] == "sys";
  }

  lemma KindOf(entries: seq<Entry>, names: seq<seq<string>>, i: nat)
    requires Listing(entries, names) && i < |entries|
    ensures entries[i].kind != Other
  {
    assert Named(entries[i], names[i]);
  }
}
