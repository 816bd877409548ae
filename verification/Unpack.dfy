/** Filling a file system from an archive: every regular entry can be opened afterwards and holds
    the entry's data. */
module Unpack {
  import opened Wrappers
  import opened RamFs
  import opened Ustar

  // ----- entries and their names -----

  /** Components that stand for themselves: not empty, no separator, no dots. */
  predicate Clean(part: string) {
    part != "" && part != "." && part != ".." && '/' !in part && '\\' !in part
  }

  predicate AllClean(parts: seq<string>) { forall i :: 0 <= i < |parts| ==> Clean(parts[i]) }

  /** Components without separators, each of them clean or a dot; an empty one may come first. */
  predicate Plain(raw: seq<string>) {
    forall i :: 0 <= i < |raw| ==> Clean(raw[i]) || raw[i] == "." || (i == 0 && raw[i] == "")
  }

  /** How many components do not count: a leading empty one, and then a drive, which is one that holds a
      colon. */
  function Ignored(raw: seq<string>): (k: nat)
    ensures k <= |raw|
  {
    var k := if raw != [] && raw[0] == "" then 1 else 0;
    if k < |raw| && ':' in raw[k] then k + 1 else k
  }

  function Undriven(raw: seq<string>): (parts: seq<string>)
    ensures Plain(raw) ==> Steps(parts)
  {
    raw[Ignored(raw)..]
  }

  /** Clean components and dots. */
  predicate Steps(parts: seq<string>) { forall i :: 0 <= i < |parts| ==> Clean(parts[i]) || parts[i] == "." }

  function Undotted(parts: seq<string>): (r: seq<string>)
    ensures Steps(parts) ==> AllClean(r)
  {
    if parts == [] then []
    else
      var n := |parts| - 1;
      if parts[n] == "." then Undotted(parts[..n]) else Undotted(parts[..n]) + [parts[n]]
  }

  /** The path that a spelling stands for. */
  function Strip(raw: seq<string>): (parts: seq<string>)
    ensures Plain(raw) ==> AllClean(parts)
  {
    Undotted(Undriven(raw))
  }

  function Join(parts: seq<string>): string
    requires parts != []
  {
    if |parts| == 1 then parts[0] else Join(parts[..|parts| - 1]) + "/" + parts[|parts| - 1]
  }

  // ----- joining and splitting -----

  lemma {:induction false} SplitPlain(s: string)
    requires forall i :: 0 <= i < |s| ==> !Separator(s[i])
    ensures SplitPath(s) == [s]
  {
    if s != "" {
      SplitPlain(s[1..]);
      assert [s[0]] + s[1..] == s;
    }
  }

  /** Splitting one character more. */
  function Prepend(c: char, parts: seq<string>): seq<string>
    requires parts != []
  {
    if Separator(c) then [""] + parts else [[c] + parts[0]] + parts[1..]
  }

  lemma {:induction false} SplitCons(c: char, s: string)
    ensures SplitPath([c] + s) == Prepend(c, SplitPath(s))
  {
    assert ([c] + s)[1..] == s;
  }

  lemma PrependConcat(c: char, a: seq<string>, b: seq<string>)
    requires a != []
    ensures Prepend(c, a + b) == Prepend(c, a) + b
  {
    assert (a + b)[1..] == a[1..] + b;
  }

  /** A path is split at either separator wherever it stands. */
  lemma {:induction false} SplitAtSeparator(a: string, c: char, b: string)
    requires c == '/' || c == '\\'
    ensures SplitPath(a + [c] + b) == SplitPath(a) + SplitPath(b)
  {
    hide SplitPath, Prepend;
    if a == "" {
      assert a + [c] + b == [c] + b;
      SplitCons(c, b);
      SplitEmpty();
      PrependSeparator(c, SplitPath(b));
    } else {
      var d, rest := a[0], a[1..];
      assert a == [d] + rest;
      assert a + [c] + b == [d] + (rest + [c] + b);
      SplitAtSeparator(rest, c, b);
      SplitCons(d, rest + [c] + b);
      SplitCons(d, rest);
      PrependConcat(d, SplitPath(rest), SplitPath(b));
    }
  }

  lemma SplitEmpty()
    ensures SplitPath("") == [""]
  {}

  lemma PrependSeparator(c: char, parts: seq<string>)
    requires Separator(c) && parts != []
    ensures Prepend(c, parts) == [""] + parts
  {}

  lemma {:induction false} SplitJoin(parts: seq<string>)
    requires parts != [] && Plain(parts)
    ensures SplitPath(Join(parts)) == parts
    decreases |parts|
  {
    var n := |parts| - 1;
    var last := parts[n];
    assert '/' !in last && '\\' !in last;
    SplitPlain(last);
    if n > 0 {
      SplitJoin(parts[..n]);
      SplitAtSeparator(Join(parts[..n]), '/', last);
      assert parts[..n] + [last] == parts;
    }
  }

  /** A spelled path is walked along just its components, without the empty one and the drive. */
  lemma {:induction false} JoinedComponents(raw: seq<string>)
    requires raw != [] && Plain(raw)
    ensures Components(Join(raw)) == Undriven(raw)
  {
    SplitJoin(raw);
  }

  /** What `reslove_path_uncreated` makes of such a path. */
  lemma {:induction false} JoinedParent(parts: seq<string>)
    requires parts != [] && Clean(parts[|parts| - 1])
    ensures var path, n := Join(parts), |parts| - 1;
      path != "" && path[|path| - 1] != '/' &&
      match LastSlash(path)
      case None => n == 0 && path == parts[0]
      case Some(i) => n > 0 && path[i + 1..] == parts[n] && path[..i] == Join(parts[..n])
  {
    var path, n := Join(parts), |parts| - 1;
    var last := parts[n];
    if n > 0 {
      var front := Join(parts[..n]);
      assert path == front + "/" + last;
      LastSlashIs(front, last);
      assert path[..|front|] == front && path[|front| + 1..] == last;
      assert path[|path| - 1] == last[|last| - 1];
      assert last[|last| - 1] in last;
    } else {
      assert last[|last| - 1] in last;
    }
  }

  lemma {:induction false} LastSlashIs(a: string, b: string)
    requires '/' !in b
    ensures LastSlash(a + "/" + b) == Some(|a|)
  {
    var s := a + "/" + b;
    assert s[|a|] == '/';
    assert s[|a| + 1..] == b;
  }

  lemma {:induction false} NoTrim(s: string, c: char)
    requires s == "" || s[|s| - 1] != c
    ensures TrimEnd(s, c) == s
  {}

  // ----- the tree of clean paths -----

  type Paths = map<seq<string>, nat>

  /** What the entries of directory `p` are: the clean names in it are the paths one step longer. */
  ghost predicate MirrorsAt(fs: Inodes, paths: Paths, p: seq<string>)
    requires p in paths && paths[p] < |fs|
  {
    var data := fs[paths[p]].data;
    !data.HardLink? &&
    forall name :: Clean(name) ==>
      (p + [name] in paths <==> data.Children? && name in data.entries) &&
      (p + [name] in paths ==> data.entries[name] == paths[p + [name]])
  }

  /** `paths` are exactly the clean paths of the file system, and each leads to an inode of its own. */
  ghost predicate Mirrors(fs: Inodes, paths: Paths) {
    Inv(fs) && [] in paths && paths[[]] == 0 &&
    (forall p :: p in paths ==> AllClean(p) && paths[p] < |fs| && MirrorsAt(fs, paths, p)) &&
    Distinct(paths) && Closed(paths)
  }

  ghost predicate Distinct(paths: Paths) {
    forall p, q :: p in paths && q in paths && paths[p] == paths[q] ==> p == q
  }

  ghost predicate Closed(paths: Paths) { forall p :: p in paths && p != [] ==> p[..|p| - 1] in paths }

  lemma NewMirrors()
    ensures Mirrors(New(), map[[] := 0])
  {
    var paths: Paths := map[[] := 0];
    forall name | Clean(name) ensures [] + [name] !in paths {}
  }

  /** One step along a mirrored path. */
  lemma {:induction false} WalkStep(fs: Inodes, paths: Paths, p: seq<string>, parts: seq<string>)
    requires Inv(fs) && p in paths && paths[p] < |fs| && MirrorsAt(fs, paths, p)
    requires parts != [] && Clean(parts[0]) && p + [parts[0]] in paths && paths[p + [parts[0]]] < |fs|
    ensures Walk(fs, paths[p], parts) == Walk(fs, paths[p + [parts[0]]], parts[1..])
  {}

  /** Steps along a mirrored path lead to its inode. */
  lemma {:induction false} WalkMirrors(fs: Inodes, paths: Paths, p: seq<string>, parts: seq<string>)
    requires Mirrors(fs, paths) && p in paths && Steps(parts) && p + Undotted(parts) in paths
    ensures Walk(fs, paths[p], parts) == Ok(paths[p + Undotted(parts)])
    decreases |parts|
  {
    hide MirrorsAt, Distinct, Closed, Inv, Undotted, Clean, Steps;
    if parts == [] {
      assert p + Undotted(parts) == p by { NoSteps(); }
      WalkNowhere(fs, paths[p]);
    } else {
      var name := parts[0];
      FirstStep(parts);
      if name == "." {
        WalkMirrors(fs, paths, p, parts[1..]);
        WalkDot(fs, paths[p], parts);
      } else {
        PrefixIn(paths, p + Undotted(parts), |p| + 1);
        assert (p + Undotted(parts))[..|p| + 1] == p + [name];
        assert p + Undotted(parts) == (p + [name]) + Undotted(parts[1..]);
        hide Walk;
        WalkStep(fs, paths, p, parts);
        WalkMirrors(fs, paths, p + [name], parts[1..]);
      }
    }
  }

  lemma NoSteps()
    ensures Undotted([]) == [] && Strip([]) == []
  {}

  lemma {:induction false} FirstStep(parts: seq<string>)
    requires parts != [] && Steps(parts)
    ensures Undotted(parts) == if parts[0] == "." then Undotted(parts[1..]) else [parts[0]] + Undotted(parts[1..])
    ensures Steps(parts[1..]) && (parts[0] != "." ==> Clean(parts[0]))
    decreases |parts|
  {
    hide Clean, Undotted;
    var n := |parts| - 1;
    LastStep(parts);
    if n > 0 {
      FirstStep(parts[..n]);
      LastStep(parts[1..]);
      assert parts[..n][1..] == parts[1..][..n - 1];
    } else {
      NoSteps();
      assert parts[..0] == parts[1..] == [];
    }
  }

  lemma {:induction false} WalkDot(fs: Inodes, cur: nat, parts: seq<string>)
    requires Inv(fs) && cur < |fs| && parts != [] && parts[0] == "."
    ensures Walk(fs, cur, parts) == Walk(fs, cur, parts[1..])
  {}

  lemma {:induction false} WalkNowhere(fs: Inodes, i: nat)
    requires Inv(fs) && i < |fs|
    ensures Walk(fs, i, []) == Ok(i)
  {}

  lemma {:induction false} PrefixIn(paths: Paths, p: seq<string>, n: nat)
    requires Closed(paths) && p in paths && n <= |p|
    ensures p[..n] in paths
    decreases |p|
  {
    if n == |p| {
      assert p[..n] == p;
    } else {
      PrefixIn(paths, p[..|p| - 1], n);
      assert p[..|p| - 1][..n] == p[..n];
    }
  }

  /** A spelling of a mirrored path resolves to its inode. */
  lemma {:induction false} ResolveMirrors(fs: Inodes, paths: Paths, raw: seq<string>)
    requires Mirrors(fs, paths) && raw != [] && Plain(raw) && Strip(raw) in paths
    ensures Resolve(fs, Join(raw)) == Ok(paths[Strip(raw)])
  {
    hide Walk, Undotted, Undriven, Plain, Steps, MirrorsAt, Distinct, Closed, Inv, Join;
    JoinedComponents(raw);
    assert [] + Undotted(Undriven(raw)) == Strip(raw);
    WalkMirrors(fs, paths, [], Undriven(raw));
  }

  /** Where a new path goes. */
  lemma {:induction false} UncreatedMirrors(fs: Inodes, paths: Paths, raw: seq<string>)
    requires Mirrors(fs, paths) && raw != [] && Plain(raw) && Clean(raw[|raw| - 1])
    requires Strip(raw[..|raw| - 1]) in paths && fs[paths[Strip(raw[..|raw| - 1])]].data.Children?
    ensures ResolveUncreated(fs, Join(raw)) == Ok((paths[Strip(raw[..|raw| - 1])], raw[|raw| - 1]))
  {
    hide ResolveUncreated, Mirrors, MirrorsAt, TrimEnd, LastSlash, Join, Resolve, Strip, Clean, Inv;
    var path, n := Join(raw), |raw| - 1;
    var dir := paths[Strip(raw[..n])];
    MirrorsIn(fs, paths, Strip(raw[..n]));
    InvParts(fs);
    JoinedParent(raw);
    NoTrim(path, '/');
    if n == 0 {
      assert raw[..0] == [];
      assert dir == 0 by { NoSteps(); }
      RootPath(fs);
      UncreatedAt(fs, path, raw[n], "/", dir);
    } else {
      ResolveMirrors(fs, paths, raw[..n]);
      UncreatedAt(fs, path, raw[n], Join(raw[..n]), dir);
    }
  }

  lemma {:induction false} UncreatedAt(fs: Inodes, path: string, name: string, parent: string, dir: nat)
    requires Inv(fs) && TrimEnd(path, '/') == path && Resolve(fs, parent) == Ok(dir)
    requires dir < |fs| && fs[dir].data.Children?
    requires match LastSlash(path)
      case None => name == path && parent == "/"
      case Some(i) => name == path[i + 1..] && parent == path[..i]
    ensures ResolveUncreated(fs, path) == Ok((dir, name))
  {
    hide TrimEnd, LastSlash, Resolve, Inv;
    InvParts(fs);
  }

  lemma RootPath(fs: Inodes)
    requires LinksBack(fs) && fs != []
    ensures Resolve(fs, "/") == Ok(0)
  {
    assert SplitPath("/") == ["", ""] by { assert "/"[1..] == ""; }
  }

  lemma MirrorsIn(fs: Inodes, paths: Paths, p: seq<string>)
    requires Mirrors(fs, paths) && p in paths
    ensures Inv(fs) && paths[p] < |fs| && MirrorsAt(fs, paths, p)
    ensures [] in paths && paths[[]] == 0
  {}

  /** Adding a clean entry for a new file or directory extends the mirror by its path. */
  lemma AddedMirrors(fs: Inodes, paths: Paths, parts: seq<string>, added: Inodes, fs': Inodes)
    requires Mirrors(fs, paths) && parts != [] && AllClean(parts) && parts !in paths
    requires parts[..|parts| - 1] in paths && fs[paths[parts[..|parts| - 1]]].data.Children?
    requires added != [] && (added[0].data.File? || added[0].data == Children(map[".." := |fs| + 1]))
    requires var t := paths[parts[..|parts| - 1]];
      fs' == fs[t := fs[t].(data := Children(fs[t].data.entries[parts[|parts| - 1] := |fs|]))] + added
    requires Inv(fs')
    ensures Mirrors(fs', paths[parts := |fs|])
  {
    hide MirrorsAt, Inv, Distinct, Closed;
    var dir, paths' := parts[..|parts| - 1], paths[parts := |fs|];
    AddedDistinct(fs, paths, parts);
    forall p | p in paths' ensures AllClean(p) && paths'[p] < |fs'| && MirrorsAt(fs', paths', p) {
      if p == parts {
        NewMirrorsAt(fs, paths, parts, fs');
      } else {
        if p != dir { DistinctAt(paths, p, dir); }
        OldMirrorsAt(fs, paths, parts, fs', p);
      }
    }
  }

  lemma DistinctAt(paths: Paths, p: seq<string>, q: seq<string>)
    requires Distinct(paths) && p in paths && q in paths && p != q
    ensures paths[p] != paths[q]
  {}

  lemma AddedDistinct(fs: Inodes, paths: Paths, parts: seq<string>)
    requires Mirrors(fs, paths) && parts != [] && parts[..|parts| - 1] in paths
    ensures Distinct(paths[parts := |fs|]) && Closed(paths[parts := |fs|])
  {
    hide MirrorsAt, Inv, AllClean;
  }

  lemma NewMirrorsAt(fs: Inodes, paths: Paths, parts: seq<string>, fs': Inodes)
    requires Mirrors(fs, paths) && parts != [] && parts !in paths && |fs| < |fs'|
    requires fs'[|fs|].data.File? || fs'[|fs|].data == Children(map[".." := |fs| + 1])
    ensures MirrorsAt(fs', paths[parts := |fs|], parts)
  {
    forall n | Clean(n) ensures parts + [n] !in paths[parts := |fs|] {
      assert (parts + [n])[..|parts|] == parts;
    }
  }

  lemma OldMirrorsAt(fs: Inodes, paths: Paths, parts: seq<string>, fs': Inodes, p: seq<string>)
    requires parts != [] && p in paths && p != parts && paths[p] < |fs| < |fs'| && MirrorsAt(fs, paths, p)
    requires var dir, name := parts[..|parts| - 1], parts[|parts| - 1];
      dir in paths &&
      if p == dir then
        fs[paths[p]].data.Children? && fs'[paths[p]].data == Children(fs[paths[p]].data.entries[name := |fs|])
      else fs'[paths[p]].data == fs[paths[p]].data
    ensures MirrorsAt(fs', paths[parts := |fs|], p)
  {
    var dir, name := parts[..|parts| - 1], parts[|parts| - 1];
    assert parts == dir + [name];
    forall n | Clean(n) ensures p + [n] == parts <==> p == dir && n == name {
      if p + [n] == parts { assert (p + [n])[..|p|] == p && (p + [n])[|p|] == n; }
    }
  }

  /** Giving a file other bytes changes no path. */
  lemma WrittenMirrors(fs: Inodes, paths: Paths, i: nat, bytes: seq<Byte>)
    requires Mirrors(fs, paths) && i < |fs| && fs[i].data.File?
    ensures Mirrors(fs[i := fs[i].(data := File(bytes))], paths)
  {
    var fs' := fs[i := fs[i].(data := File(bytes))];
    FileChanged(fs, i, bytes);
    hide Inv, Distinct, Closed, AllClean;
    forall p | p in paths ensures MirrorsAt(fs', paths, p) { assert MirrorsAt(fs, paths, p); }
  }

  // ----- unpacking -----

  /** One turn of the loop of `unpack_tar`: the file system afterwards and the result. */
  function UnpackOne(fs: Inodes, e: Entry): (r: (Inodes, FsResult<()>))
    requires Inv(fs)
    ensures Inv(r.0) && Extends(fs, r.0)
  {
    ExtendsRefl(fs);
    match e.kind
    case Normal =>
      (match Create(fs, e.name)
       case Err(x) => (fs, Err(x))
       case Ok(fs1) =>
         CreateKeeps(fs, e.name);
         match Open(fs1, e.name)
         case Err(x) => (fs1, Err(x))
         case Ok(fd) =>
           WalkSafe(fs1, 0, Components(e.name));
           WriteKeeps(fs1, fd, e.data);
           match Write(fs1, fd, e.data)
           case Err(x) => (fs1, Err(x))
           case Ok((fs2, _)) => ExtendsTrans(fs, fs1, fs2); (fs2, Ok(())))
    case Directory =>
      (match CreateDir(fs, TrimEnd(e.name, '/'))
       case Err(x) => (fs, Err(x))
       case Ok(fs1) => CreateDirKeeps(fs, TrimEnd(e.name, '/')); (fs1, Ok(())))
    case Other => (fs, Err(OperationNotSupported))
  }

  function UnpackAll(fs: Inodes, entries: seq<Entry>): (Inodes, FsResult<()>)
    requires Inv(fs)
    decreases |entries|
  {
    if entries == [] then (fs, Ok(()))
    else
      var (fs1, r) := UnpackOne(fs, entries[0]);
      if r.Err? then (fs1, r) else UnpackAll(fs1, entries[1..])
  }

  /** A new file system into which the entries are unpacked. */
  function Unpacked(entries: seq<Entry>): (Inodes, FsResult<()>) {
    NewInv();
    UnpackAll(New(), entries)
  }

  /** An entry that cannot be unpacked ends the unpacking: what came before it is there, and what comes
      behind it is not looked at. */
  lemma {:induction false} UnpackStops(fs: Inodes, before: seq<Entry>, e: Entry, after: seq<Entry>)
    requires Inv(fs) && UnpackAll(fs, before).1.Ok?
    ensures Inv(UnpackAll(fs, before).0)
    ensures var r := UnpackOne(UnpackAll(fs, before).0, e);
      UnpackAll(fs, before + [e] + after) == if r.1.Err? then r else UnpackAll(r.0, after)
    ensures e.kind == Other ==>
      UnpackAll(fs, before + [e] + after) == (UnpackAll(fs, before).0, Err(OperationNotSupported))
    decreases |before|
  {
    hide Inv, Create, CreateDir, Open, Write;
    var all := before + [e] + after;
    if before == [] {
      assert all[0] == e && all[1..] == after;
    } else {
      assert all[0] == before[0] && all[1..] == before[1..] + [e] + after;
      UnpackStops(UnpackOne(fs, before[0]).0, before[1..], e, after);
    }
  }

  /** The name of the entry is spelled so, and it is more than a drive; a directory's name may end in '/'. */
  predicate Named(e: Entry, raw: seq<string>) {
    raw != [] && Plain(raw) && Clean(raw[|raw| - 1]) && Undriven(raw) != [] &&
    match e.kind
    case Normal => e.name == Join(raw)
    case Directory => TrimEnd(e.name, '/') == Join(raw)
    case Other => false
  }

  /** Distinct paths, each behind the directory it is in; their spellings are free. */
  ghost predicate Listing(entries: seq<Entry>, names: seq<seq<string>>) {
    |names| == |entries| &&
    (forall i :: 0 <= i < |entries| ==> Named(entries[i], names[i])) &&
    (forall i, j :: 0 <= i < j < |entries| ==> Strip(names[i]) != Strip(names[j])) &&
    (forall i :: 0 <= i < |entries| && |Strip(names[i])| > 1 ==> ParentBefore(entries, names, i))
  }

  ghost predicate ParentBefore(entries: seq<Entry>, names: seq<seq<string>>, i: nat)
    requires |names| == |entries| && i < |entries| && |Strip(names[i])| > 1
  {
    var parts := Strip(names[i]);
    exists j :: 0 <= j < i && entries[j].kind == Directory && Strip(names[j]) == parts[..|parts| - 1]
  }

  /** What is at the path of an entry that was unpacked. */
  predicate Delivered(fs: Inodes, i: nat, e: Entry) {
    i < |fs| && if e.kind == Normal then fs[i].data == File(e.data) else fs[i].data.Children?
  }

  /** What happens to the inodes that were there. */
  ghost predicate Preserved(fs: Inodes, fs': Inodes) {
    |fs| <= |fs'| &&
    forall i :: 0 <= i < |fs| ==> fs'[i].data == fs[i].data || (fs[i].data.Children? && fs'[i].data.Children?)
  }

  /** The directory an entry goes into and its name there. */
  function Folder(raw: seq<string>): seq<string>
    requires raw != []
  {
    Strip(raw[..|raw| - 1])
  }

  function Last(raw: seq<string>): string
    requires raw != []
  {
    raw[|raw| - 1]
  }

  lemma UndrivenIs(raw: seq<string>)
    ensures Undriven(raw) == raw[Ignored(raw)..]
  {}

  lemma UndrivenFront(raw: seq<string>)
    requires Undriven(raw) != []
    ensures raw != [] && Ignored(raw[..|raw| - 1]) == Ignored(raw)
  {
    var n, k := |raw| - 1, if raw[0] == "" then 1 else 0;
    assert k <= n && (n > 0 ==> raw[..n][0] == raw[0]) && (k < n ==> raw[..n][k] == raw[k]);
  }

  lemma {:induction false} LastStep(parts: seq<string>)
    requires parts != []
    ensures var n := |parts| - 1;
      Undotted(parts) == if parts[n] == "." then Undotted(parts[..n]) else Undotted(parts[..n]) + [parts[n]]
  {}

  lemma CleanIsNoDot(part: string)
    requires Clean(part)
    ensures part != "."
  {}

  lemma {:induction false} SpelledPath(raw: seq<string>)
    requires raw != [] && Clean(Last(raw)) && Undriven(raw) != []
    ensures var parts := Strip(raw);
      parts == Folder(raw) + [Last(raw)] && parts[..|parts| - 1] == Folder(raw) && parts[|parts| - 1] == Last(raw)
  {
    hide Undriven, Undotted, Clean;
    var parts, n := Undriven(raw), |raw| - 1;
    UndrivenFront(raw);
    assert Undriven(raw[..n]) == parts[..|parts| - 1] by { UndrivenIs(raw); UndrivenIs(raw[..n]); }
    assert parts[|parts| - 1] == Last(raw) by { UndrivenIs(raw); }
    LastStep(parts);
    assert Last(raw) != "." by { CleanIsNoDot(Last(raw)); }
  }

  ghost predicate Fits(fs: Inodes, paths: Paths, e: Entry, raw: seq<string>) {
    Mirrors(fs, paths) && Named(e, raw) && Strip(raw) !in paths && Folder(raw) in paths &&
    fs[paths[Folder(raw)]].data.Children?
  }

  /** The entry can be inserted where its path says. */
  lemma {:induction false} FitsInserts(fs: Inodes, paths: Paths, e: Entry, raw: seq<string>)
    requires Fits(fs, paths, e, raw)
    ensures var t, name := paths[Folder(raw)], Last(raw);
      ResolveUncreated(fs, Join(raw)) == Ok((t, name)) && name !in fs[t].data.entries && fs[t].inodeid == t &&
      Insert(fs, t, name, |fs|) == Ok(fs[t := fs[t].(data := Children(fs[t].data.entries[name := |fs|]))])
  {
    hide ResolveUncreated, Mirrors, Join, Strip;
    UncreatedMirrors(fs, paths, raw);
    SpelledPath(raw);
    MirrorsIn(fs, paths, Folder(raw));
  }

  /** The file system with the new entry and the inodes it needs. */
  function Grown(fs: Inodes, t: nat, name: string, added: Inodes): Inodes
    requires t < |fs| && fs[t].data.Children?
  {
    fs[t := fs[t].(data := Children(fs[t].data.entries[name := |fs|]))] + added
  }

  lemma {:induction false} CreateFits(fs: Inodes, paths: Paths, e: Entry, raw: seq<string>)
    requires Fits(fs, paths, e, raw)
    ensures Create(fs, Join(raw)) ==
        Ok(Grown(fs, paths[Folder(raw)], Last(raw), [RamInode(Last(raw), File([]), |fs|)]))
  {
    hide ResolveUncreated, Insert, Mirrors, Inv, Join, Strip;
    FitsInserts(fs, paths, e, raw);
    MirrorsIn(fs, paths, Folder(raw));
    InvParts(fs);
  }

  lemma {:induction false} CreateDirFits(fs: Inodes, paths: Paths, e: Entry, raw: seq<string>)
    requires Fits(fs, paths, e, raw)
    ensures var t, name := paths[Folder(raw)], Last(raw);
      var dir := RamInode(name, Children(map[".." := |fs| + 1]), |fs|);
      CreateDir(fs, Join(raw)) == Ok(Grown(fs, t, name, [dir, RamInode("..", HardLink(t), |fs| + 1)]))
  {
    hide ResolveUncreated, Insert, Mirrors, Inv, Join, Strip;
    FitsInserts(fs, paths, e, raw);
    MirrorsIn(fs, paths, Folder(raw));
    InvParts(fs);
  }

  lemma GrownPreserves(fs: Inodes, t: nat, name: string, added: Inodes)
    requires t < |fs| && fs[t].data.Children? && added != []
    ensures Preserved(fs, Grown(fs, t, name, added)) && Grown(fs, t, name, added)[|fs|] == added[0]
  {}

  /** The file system in which the file of the entry is there, but empty. */
  function Empty(fs: Inodes, t: nat, name: string): Inodes
    requires t < |fs| && fs[t].data.Children?
  {
    Grown(fs, t, name, [RamInode(name, File([]), |fs|)])
  }

  lemma {:induction false} FileCreated(fs: Inodes, paths: Paths, e: Entry, raw: seq<string>)
    requires Fits(fs, paths, e, raw) && e.kind == Normal
    ensures var fs1 := Empty(fs, paths[Folder(raw)], Last(raw));
      Create(fs, e.name) == Ok(fs1) && Inv(fs1) && Mirrors(fs1, paths[Strip(raw) := |fs|]) && Preserved(fs, fs1) &&
      |fs| < |fs1| && fs1[|fs|] == RamInode(Last(raw), File([]), |fs|)
  {
    hide Create, Inv, Mirrors, Strip, Join, Grown, Preserved, Plain, Clean;
    CreateFits(fs, paths, e, raw);
    SpelledPath(raw);
    var t, name := paths[Folder(raw)], Last(raw);
    var added := [RamInode(name, File([]), |fs|)];
    MirrorsIn(fs, paths, Folder(raw));
    CreateKeeps(fs, e.name);
    GrownIs(fs, t, name, added);
    StripClean(raw);
    AddedMirrors(fs, paths, Strip(raw), added, Grown(fs, t, name, added));
    GrownPreserves(fs, t, name, added);
  }

  lemma GrownIs(fs: Inodes, t: nat, name: string, added: Inodes)
    requires t < |fs| && fs[t].data.Children?
    ensures Grown(fs, t, name, added) == fs[t := fs[t].(data := Children(fs[t].data.entries[name := |fs|]))] + added
  {}

  lemma {:induction false} StripClean(raw: seq<string>)
    requires Plain(raw)
    ensures AllClean(Strip(raw))
  {}

  lemma {:induction false} UnpackFile(fs: Inodes, paths: Paths, e: Entry, raw: seq<string>)
    requires Fits(fs, paths, e, raw) && e.kind == Normal
    ensures var (fs', r) := UnpackOne(fs, e);
      r == Ok(()) && Mirrors(fs', paths[Strip(raw) := |fs|]) && Delivered(fs', |fs|, e) && Preserved(fs, fs')
  {
    hide Create, Inv, Mirrors, Resolve, Write, Empty, Strip, Join, Plain, Clean, Grown;
    MirrorsIn(fs, paths, Folder(raw));
    FileCreated(fs, paths, e, raw);
    var fs1 := Empty(fs, paths[Folder(raw)], Last(raw));
    FileFilled(fs1, paths[Strip(raw) := |fs|], e, raw);
    var fs2 := fs1[|fs| := fs1[|fs|].(data := File(e.data))];
    assert UnpackOne(fs, e) == (fs2, Ok(()));
  }

  lemma {:induction false} FileFilled(fs: Inodes, paths: Paths, e: Entry, raw: seq<string>)
    requires Mirrors(fs, paths) && Named(e, raw) && e.kind == Normal && Strip(raw) in paths &&
        fs[paths[Strip(raw)]].data == File([])
    ensures Open(fs, e.name) == Ok(FileDescriptor(paths[Strip(raw)], 0, 0))
    ensures var i := paths[Strip(raw)];
      var fs' := fs[i := fs[i].(data := File(e.data))];
      Write(fs, FileDescriptor(i, 0, 0), e.data) == Ok((fs', FileDescriptor(i, 0, |e.data|))) && Mirrors(fs', paths)
  {
    var i := paths[Strip(raw)];
    ResolveMirrors(fs, paths, raw);
    WriteKeeps(fs, FileDescriptor(i, 0, 0), e.data);
    WrittenMirrors(fs, paths, i, e.data);
    OverwriteEmpty(e.data);
    hide Mirrors, Resolve, Overwrite, Inv, Strip;
  }

  lemma OverwriteEmpty(buffer: seq<Byte>)
    ensures Overwrite([], buffer, 0) == buffer
  {}

  lemma {:induction false} UnpackDirectory(fs: Inodes, paths: Paths, e: Entry, raw: seq<string>)
    requires Fits(fs, paths, e, raw) && e.kind == Directory
    ensures var (fs', r) := UnpackOne(fs, e);
      r == Ok(()) && Mirrors(fs', paths[Strip(raw) := |fs|]) && Delivered(fs', |fs|, e) && Preserved(fs, fs')
  {
    hide CreateDir, Inv, Mirrors, Join, Strip;
    SpelledPath(raw);
    MirrorsIn(fs, paths, Folder(raw));
    CreateDirFits(fs, paths, e, raw);
    var t, name := paths[Folder(raw)], Last(raw);
    var added := [RamInode(name, Children(map[".." := |fs| + 1]), |fs|), RamInode("..", HardLink(t), |fs| + 1)];
    CreateDirKeeps(fs, Join(raw));
    AddedMirrors(fs, paths, Strip(raw), added, Grown(fs, t, name, added));
    GrownPreserves(fs, t, name, added);
  }

  /** The first `n` entries have been unpacked into `fs`, and nothing else is there. */
  ghost predicate Holds(fs: Inodes, paths: Paths, entries: seq<Entry>, names: seq<seq<string>>, n: nat)
    requires |names| == |entries| && n <= |entries|
  {
    Mirrors(fs, paths) &&
    (forall p :: p in paths ==> p == [] || Listed(names, n, p)) &&
    (forall i :: 0 <= i < n ==> Strip(names[i]) in paths && Delivered(fs, paths[Strip(names[i])], entries[i]))
  }

  ghost predicate Listed(names: seq<seq<string>>, n: nat, p: seq<string>)
    requires n <= |names|
  {
    exists i :: 0 <= i < n && Strip(names[i]) == p
  }

  lemma StepFits(fs: Inodes, paths: Paths, entries: seq<Entry>, names: seq<seq<string>>, n: nat)
    requires Listing(entries, names) && n < |entries| && Holds(fs, paths, entries, names, n)
    ensures Fits(fs, paths, entries[n], names[n])
  {
    hide Mirrors, Strip, Named, Clean, Inv;
    assert Named(entries[n], names[n]);
    NamedParts(entries[n], names[n]);
    SpelledPath(names[n]);
    if |Strip(names[n])| > 1 {
      assert ParentBefore(entries, names, n);
    } else {
      RootMirrors(fs, paths);
      assert Folder(names[n]) == [];
    }
  }

  lemma NamedParts(e: Entry, raw: seq<string>)
    requires Named(e, raw)
    ensures raw != [] && Clean(Last(raw)) && Undriven(raw) != []
  {}

  lemma RootMirrors(fs: Inodes, paths: Paths)
    requires Mirrors(fs, paths)
    ensures Inv(fs) && [] in paths && paths[[]] < |fs| && fs[paths[[]]].data.Children?
  {}

  lemma StepHolds(fs: Inodes, paths: Paths, entries: seq<Entry>, names: seq<seq<string>>, n: nat, fs': Inodes)
    requires Listing(entries, names) && n < |entries| && Holds(fs, paths, entries, names, n)
    requires Mirrors(fs', paths[Strip(names[n]) := |fs|]) && Delivered(fs', |fs|, entries[n]) && Preserved(fs, fs')
    ensures Holds(fs', paths[Strip(names[n]) := |fs|], entries, names, n + 1)
  {
    hide Mirrors, Strip, Named, Delivered, Preserved, ParentBefore, Listed;
    var paths' := paths[Strip(names[n]) := |fs|];
    forall i | 0 <= i < n + 1
      ensures Strip(names[i]) in paths' && Delivered(fs', paths'[Strip(names[i])], entries[i])
    {
      if i < n { StillDelivered(fs, fs', paths[Strip(names[i])], entries[i]); }
    }
    forall p | p in paths' ensures p == [] || Listed(names, n + 1, p) {
      if p == Strip(names[n]) {
        ListedMore(names, n, p);
      } else if p != [] {
        assert Listed(names, n, p);
        ListedMore(names, n, p);
      }
    }
  }

  lemma StillDelivered(fs: Inodes, fs': Inodes, i: nat, e: Entry)
    requires Delivered(fs, i, e) && Preserved(fs, fs')
    ensures Delivered(fs', i, e)
  {}

  lemma ListedMore(names: seq<seq<string>>, n: nat, p: seq<string>)
    requires n < |names| && (Listed(names, n, p) || p == Strip(names[n]))
    ensures Listed(names, n + 1, p)
  {
    hide Strip;
  }

  lemma {:induction false} UnpackRest(fs: Inodes, paths: Paths, entries: seq<Entry>, names: seq<seq<string>>, n: nat)
      returns (paths': Paths)
    requires Listing(entries, names) && n <= |entries| && Holds(fs, paths, entries, names, n)
    ensures var (fs', r) := UnpackAll(fs, entries[n..]);
      r == Ok(()) && Holds(fs', paths', entries, names, |entries|)
    decreases |entries| - n
  {
    hide Mirrors, Delivered, Preserved, UnpackOne, Inv, ParentBefore, AllClean, Join, Strip;
    RootMirrors(fs, paths);
    if n == |entries| {
      paths' := paths;
    } else {
      StepFits(fs, paths, entries, names, n);
      if entries[n].kind == Normal {
        UnpackFile(fs, paths, entries[n], names[n]);
      } else {
        UnpackDirectory(fs, paths, entries[n], names[n]);
      }
      var fs1 := UnpackOne(fs, entries[n]).0;
      StepHolds(fs, paths, entries, names, n, fs1);
      paths' := UnpackRest(fs1, paths[Strip(names[n]) := |fs|], entries, names, n + 1);
      assert entries[n..][1..] == entries[n + 1..];
    }
  }

  /** The file can be opened, and reads of these sizes deliver its bytes in order up to the end. */
  ghost predicate Reads(fs: Inodes, path: string, data: seq<Byte>, counts: seq<nat>) {
    Inv(fs) && Open(fs, path).Ok? && Open(fs, path).value.node < |fs| &&
    ReadAll(fs, Open(fs, path).value, counts) == Ok(data[..if Sum(counts) > |data| then |data| else Sum(counts)])
  }

  ghost predicate LeadsToDir(fs: Inodes, path: string) {
    Inv(fs) && Resolve(fs, path).Ok? && Resolve(fs, path).value < |fs| && IsDir(fs, Resolve(fs, path).value)
  }

  /** The entry is found by this path: a file with its data, or a directory. */
  ghost predicate Retrieved(fs: Inodes, path: string, e: Entry, counts: seq<nat>) {
    (e.kind == Normal ==> Reads(fs, path, e.data, counts)) && (e.kind == Directory ==> LeadsToDir(fs, path))
  }

  /** Two spellings of one path, each with or without a drive. */
  predicate SamePath(raw: seq<string>, name: seq<string>) {
    raw != [] && Plain(raw) && Strip(raw) == Strip(name)
  }

  /** Unpacking such a listing into a new file system succeeds, and then every file can be opened by any
      spelling of its path and reads of any sizes deliver its data. */
  lemma {:induction false} UnpackDelivers(entries: seq<Entry>, names: seq<seq<string>>, i: nat, raw: seq<string>,
      counts: seq<nat>)
    requires Listing(entries, names) && i < |entries|
    requires SamePath(raw, names[i])
    ensures var (fs, r) := Unpacked(entries);
      r == Ok(()) && Retrieved(fs, Join(raw), entries[i], counts)
  {
    hide Mirrors, Reads, LeadsToDir, Delivered, UnpackAll, New, Strip;
    NewMirrors();
    var paths := UnpackRest(New(), map[[] := 0], entries, names, 0);
    assert entries[0..] == entries;
    assert Named(entries[i], names[i]);
    EntryDelivered(UnpackAll(New(), entries).0, paths, entries[i], raw, counts);
  }

  lemma {:induction false} EntryDelivered(fs: Inodes, paths: Paths, e: Entry, raw: seq<string>, counts: seq<nat>)
    requires Mirrors(fs, paths) && raw != [] && Plain(raw) && Strip(raw) in paths
    requires Delivered(fs, paths[Strip(raw)], e)
    ensures e.kind == Normal ==> Reads(fs, Join(raw), e.data, counts)
    ensures e.kind == Directory ==> LeadsToDir(fs, Join(raw))
  {
    hide Mirrors, Resolve, ReadAll, Sum, Strip, Plain, Join, Inv, MirrorsAt;
    MirrorsIn(fs, paths, Strip(raw));
    InvParts(fs);
    ResolveMirrors(fs, paths, raw);
    if e.kind == Normal {
      ReadAllDelivers(fs, FileDescriptor(paths[Strip(raw)], 0, 0), counts);
      assert forall end :: 0 <= end <= |e.data| ==> e.data[0..end] == e.data[..end];
    }
  }

  /** The file system in which "a" holds two bytes, as unpacking makes it. */
  lemma SmallArchive() returns (fs: Inodes, i: nat)
    ensures fs == UnpackAll(New(), [Entry("a", Normal, [1, 2])]).0 && Inv(fs) && i < |fs|
    ensures Open(fs, "a") == Ok(FileDescriptor(i, 0, 0)) && fs[i].data == File([1, 2])
  {
    hide Mirrors, Inv, Resolve, UnpackAll, New, Strip, Named, Plain, Clean, Join, Listing;
    var entries, names := [Entry("a", Normal, [1, 2])], [["a"]];
    SmallListing();
    NewMirrors();
    var paths := UnpackRest(New(), map[[] := 0], entries, names, 0);
    assert entries[0..] == entries;
    fs, i := UnpackAll(New(), entries).0, paths[Strip(names[0])];
    RootMirrors(fs, paths);
    assert Delivered(fs, i, entries[0]);
    ResolveMirrors(fs, paths, names[0]);
  }

  lemma SmallListing()
    ensures Listing([Entry("a", Normal, [1, 2])], [["a"]]) && Plain(["a"]) && Join(["a"]) == "a"
  {
    assert Clean("a") && ':' !in "a";
    hide Strip, Undriven, Plain, Clean, Join;
    OneName("a");
    assert Named(Entry("a", Normal, [1, 2]), ["a"]);
  }

  lemma OneName(name: string)
    requires Clean(name) && ':' !in name
    ensures Plain([name]) && Undriven([name]) == [name] && Strip([name]) == [name] && Join([name]) == name
  {
    hide Undotted, Undriven, Steps, AllClean, Join, Clean;
    NothingIgnored(name);
    UndrivenIs([name]);
    LastStep([name]);
    NoSteps();
    assert [name][..0] == [];
    JoinOne(name);
    assert name != "." by { CleanIsNoDot(name); }
  }

  lemma NothingIgnored(name: string)
    requires Clean(name) && ':' !in name
    ensures Ignored([name]) == 0
  {}

  lemma JoinOne(name: string)
    ensures Join([name]) == name
  {}

  /** Two descriptors of one file are enough for a read to panic: one reads the file to its end, the other
      writes less than it held. */
  lemma ReadPanicReached()
    ensures var fs := UnpackAll(New(), [Entry("a", Normal, [1, 2])]).0;
      Inv(fs) && Open(fs, "a").Ok? &&
      var fd := Open(fs, "a").value;
      fd.node < |fs| && Read(fs, fd, 2).Ok? && Write(fs, fd, [3]).Ok? &&
      var reader, fs' := Read(fs, fd, 2).value.1, Write(fs, fd, [3]).value.0;
      reader.node < |fs'| && Read(fs', reader, 1) == Err(Panicked)
  {
    hide Inv, UnpackAll, New, Open, Overwrite;
    var fs, i := SmallArchive();
    WriteKeeps(fs, FileDescriptor(i, 0, 0), [3]);
    OverwriteSize([], [3], 0);
  }
}
