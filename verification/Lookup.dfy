/** What paths mean: drives, empty components, and when a path that was created can be found. */
module Lookup {
  import opened Wrappers
  import opened RamFs
  import opened Unpack

  // ----- drives -----

  /** A first component that holds a colon. */
  predicate IsDrive(drive: string) { ':' in drive && forall i :: 0 <= i < |drive| ==> !Separator(drive[i]) }

  /** Behind a drive, the path is walked component by component from the root; a drive alone is the root. */
  lemma {:induction false} DriveComponents(drive: string, c: char, rest: string)
    requires IsDrive(drive) && Separator(c)
    ensures Components(drive + [c] + rest) == SplitPath(rest) && Components(drive) == []
  {
    SplitPlain(drive);
    SplitAtSeparator(drive, c, rest);
    assert (SplitPath(drive) + SplitPath(rest))[1..] == SplitPath(rest);
  }

  /** A path with a drive resolves like the path without it, unless the path without it would itself seem
      to start with a drive. */
  lemma {:induction false} DriveResolves(fs: Inodes, drive: string, c: char, d: char, rest: string)
    requires Inv(fs) && IsDrive(drive) && Separator(c) && Separator(d)
    ensures ':' !in SplitPath(rest)[0] ==> Resolve(fs, drive + [c] + rest) == Resolve(fs, [d] + rest)
    ensures ':' in SplitPath(rest)[0] ==> Components([d] + rest) == SplitPath(rest)[1..]
  {
    hide SplitPath;
    DriveComponents(drive, c, rest);
    assert "" + [d] + rest == [d] + rest;
    SplitAtSeparator("", d, rest);
    SplitEmpty();
    assert ([""] + SplitPath(rest))[1..] == SplitPath(rest);
  }

  // ----- walking -----

  /** One step: "." and a last empty component stay, every other name is an entry of the directory. */
  lemma {:induction false} WalkOne(fs: Inodes, cur: nat, name: string)
    requires Inv(fs) && cur < |fs|
    ensures var data := fs[Target(fs, cur)].data;
      Walk(fs, cur, [name]) ==
      if name == "" || name == "." then Ok(cur)
      else if data.Children? && name in data.entries then Ok(data.entries[name])
      else Err(NoSuchAFileOrDirectory)
  {
    LookupMeans(fs, cur, name);
    assert [name][1..] == [];
  }

  /** Walking on from where the first components lead. */
  lemma {:induction false} WalkConcat(fs: Inodes, cur: nat, a: seq<string>, b: seq<string>)
    requires Inv(fs) && cur < |fs| && "" !in a
    ensures Walk(fs, cur, a).Ok? ==> Walk(fs, cur, a).value < |fs|
    ensures Walk(fs, cur, a + b) ==
      match Walk(fs, cur, a)
      case Err(e) => Err(e)
      case Ok(i) => Walk(fs, i, b)
    decreases |a|
  {
    hide Inv, IsDir;
    InvParts(fs);
    if a == [] {
      assert a + b == b;
    } else {
      assert (a + b)[0] == a[0] && (a + b)[1..] == a[1..] + b;
      assert a[0] in a;
      if a[0] == "." {
        WalkConcat(fs, cur, a[1..], b);
      } else if IsDir(fs, cur) && Contains(fs, cur, a[0]) {
        StepIn(fs, cur, a[0]);
        WalkConcat(fs, Get(fs, cur, a[0]).value, a[1..], b);
      }
    }
  }

  lemma {:induction false} StepIn(fs: Inodes, cur: nat, name: string)
    requires Inv(fs) && cur < |fs| && Contains(fs, cur, name)
    ensures Get(fs, cur, name).Ok? && Get(fs, cur, name).value < |fs|
  {
    LookupMeans(fs, cur, name);
  }

  /** An empty component that is not the last one leads nowhere. */
  lemma {:induction false} WalkGap(fs: Inodes, cur: nat, parts: seq<string>, k: nat)
    requires Inv(fs) && cur < |fs| && k + 1 < |parts| && parts[k] == ""
    ensures Walk(fs, cur, parts).Err?
    ensures "" !in parts[..k] && Walk(fs, cur, parts[..k]).Ok? ==> Walk(fs, cur, parts) == Err(InvalidPath)
    decreases |parts|
  {
    if k > 0 && parts[0] != "" {
      assert parts[..k][0] == parts[0] && parts[..k][1..] == parts[1..][..k - 1];
      if parts[0] == "." {
        WalkGap(fs, cur, parts[1..], k - 1);
      } else if IsDir(fs, cur) && Contains(fs, cur, parts[0]) {
        StepIn(fs, cur, parts[0]);
        WalkGap(fs, Get(fs, cur, parts[0]).value, parts[1..], k - 1);
      }
    }
  }

  // ----- splitting -----

  lemma {:induction false} SplitEnds(path: string)
    requires path != ""
    ensures SplitPath(path)[|SplitPath(path)| - 1] == "" <==> Separator(path[|path| - 1])
    ensures SplitPath(path)[0] == "" <==> Separator(path[0])
    ensures |SplitPath(path)| == 1 ==> SplitPath(path)[0] == path
  {
    if |path| > 1 {
      SplitEnds(path[1..]);
    } else {
      assert path[1..] == "";
      assert path == [path[0]];
    }
  }

  /** No component holds a separator. */
  lemma {:induction false} SplitParts(path: string, k: nat)
    requires k < |SplitPath(path)|
    ensures forall i :: 0 <= i < |SplitPath(path)[k]| ==> !Separator(SplitPath(path)[k][i])
    ensures (exists i :: 0 <= i < |path| && Separator(path[i])) ==> |SplitPath(path)| >= 2
    decreases |path|
  {
    if path != "" {
      var rest := SplitPath(path[1..]);
      if exists i :: 0 <= i < |path| && Separator(path[i]) {
        var i :| 0 <= i < |path| && Separator(path[i]);
        if i > 0 { assert path[1..][i - 1] == path[i]; }
      }
      if Separator(path[0]) {
        SplitParts(path[1..], if k > 0 then k - 1 else 0);
      } else {
        SplitParts(path[1..], k);
      }
    }
  }

  /** Appending to a path appends to its components, unless the path is empty. */
  lemma {:induction false} ComponentsAppend(p: string, c: char, q: string)
    requires Separator(c) && p != ""
    ensures Components(p + [c] + q) == Components(p) + SplitPath(q)
  {
    hide SplitPath;
    SplitAtSeparator(p, c, q);
    SplitEnds(p);
    var a, b := SplitPath(p), SplitPath(q);
    assert a + b == SplitPath(p + [c] + q);
    assert (a + b)[1..] == a[1..] + b;
    if |a| > 1 { assert (a[1..] + b)[1..] == a[1..][1..] + b; }
    assert |a| == 1 ==> a[0] == p;
    assert |a| == 1 ==> a[0] != "";
  }

  // ----- creating -----

  function Slashes(n: nat): (r: string)
    ensures |r| == n && forall i :: 0 <= i < n ==> r[i] == '/'
  {
    if n == 0 then "" else "/" + Slashes(n - 1)
  }

  /** How a path to be created is read: a name without slashes, behind a parent or alone, and slashes at
      the end. Every path is written in exactly this way. */
  datatype Written = Written(parent: Option<string>, name: string, slashes: nat) {
    predicate Valid() { '/' !in name && (parent.Some? ==> name != "") }

    function Path(): string {
      match parent
      case Some(p) => p + "/" + (name + Slashes(slashes))
      case None => name + Slashes(slashes)
    }

    function Parent(): string { if parent.Some? then parent.value else "/" }
  }

  lemma EveryPath(path: string) returns (w: Written)
    ensures w.Valid() && w.Path() == path
  {
    var t := TrimEnd(path, '/');
    var k := |path| - |t|;
    assert path == t + Slashes(k);
    match LastSlash(t)
    case None => w := Written(None, t, k);
    case Some(i) =>
      w := Written(Some(t[..i]), t[i + 1..], k);
      assert t == t[..i] + "/" + t[i + 1..];
      assert w.Path() == path;
  }

  lemma {:induction false} TrimFilled(s: string, k: nat)
    requires s == "" || s[|s| - 1] != '/'
    ensures TrimEnd(s + Slashes(k), '/') == s
    decreases k
  {
    var t := s + Slashes(k);
    if k == 0 {
      assert t == s;
    } else {
      assert t[..|t| - 1] == s + Slashes(k - 1);
      TrimFilled(s, k - 1);
    }
  }

  /** The new entry goes into the directory that the parent leads to, under the name; slashes at the end
      do not count. */
  lemma UncreatedMeans(fs: Inodes, w: Written)
    requires Inv(fs) && w.Valid()
    ensures ResolveUncreated(fs, w.Path()) ==
      match Resolve(fs, w.Parent())
      case Err(e) => Err(e)
      case Ok(dir) => if dir < |fs| && !IsDir(fs, dir) then Err(NotADirectory) else Ok((dir, w.name))
  {
    hide TrimEnd, LastSlash, Resolve, IsDir, Written.Path, Inv;
    InvParts(fs);
    WalkSafe(fs, 0, Components(w.Parent()));
    ResolveIs(fs, w.Parent());
    ReadBack(w);
  }

  /** Trimming and looking for the last slash take a path apart as it was written. */
  lemma ReadBack(w: Written)
    requires w.Valid()
    ensures var t := TrimEnd(w.Path(), '/');
      match LastSlash(t)
      case None => w.parent.None? && t == w.name
      case Some(i) => w.parent == Some(t[..i]) && t[i + 1..] == w.name
  {
    hide TrimEnd, LastSlash;
    assert w.name != "" ==> w.name[|w.name| - 1] in w.name;
    match w.parent
    case None =>
      TrimFilled(w.name, w.slashes);
      NoSlash(w.name);
    case Some(p) =>
      var t := p + "/" + w.name;
      assert t[|t| - 1] == w.name[|w.name| - 1];
      assert w.Path() == t + Slashes(w.slashes);
      TrimFilled(t, w.slashes);
      LastSlashIs(p, w.name);
      assert t[|p| + 1..] == w.name && t[..|p|] == p;
  }

  lemma {:induction false} ResolveIs(fs: Inodes, path: string)
    requires Inv(fs)
    ensures Resolve(fs, path) == Walk(fs, 0, Components(path))
  {}

  lemma {:induction false} NoSlash(s: string)
    requires '/' !in s
    ensures LastSlash(s) == None
  {}

  /** What is wrong with creating something there. */
  function CreateError(fs: Inodes, w: Written): Option<FsError>
    requires Inv(fs)
  {
    WalkSafe(fs, 0, Components(w.Parent()));
    match Resolve(fs, w.Parent())
    case Err(e) => Some(e)
    case Ok(dir) =>
      if !IsDir(fs, dir) then Some(NotADirectory)
      else if Contains(fs, dir, w.name) then Some(AlreadyExists)
      else None
  }

  /** `create` and `createdir` fail for the same reasons: the parent is not a directory, or the name is
      taken. */
  lemma CreateFailsIff(fs: Inodes, w: Written)
    requires Inv(fs) && w.Valid()
    ensures Create(fs, w.Path()).Ok? <==> CreateDir(fs, w.Path()).Ok?
    ensures CreateError(fs, w).Some? ==>
      Create(fs, w.Path()) == Err(CreateError(fs, w).value) && CreateDir(fs, w.Path()) == Err(CreateError(fs, w).value)
    ensures CreateError(fs, w).None? ==> Create(fs, w.Path()).Ok?
  {
    hide Written.Path, Written.Valid, Resolve, TrimEnd, LastSlash, ResolveUncreated;
    UncreatedMeans(fs, w);
    WalkSafe(fs, 0, Components(w.Parent()));
    ResolveIs(fs, w.Parent());
    var at := Resolve(fs, w.Parent());
    if at.Ok? && IsDir(fs, at.value) {
      InsertAdds(fs, at.value, w.name, |fs|);
      LookupMeans(fs, at.value, w.name);
    }
  }

  /** The path leads back to what was created there. */
  predicate Findable(w: Written) {
    w.name != "" && w.name != "." && '\\' !in w.name && w.slashes <= 1 &&
    match w.parent
    case None => ':' !in w.name
    case Some(p) => if p == "" then ':' !in w.name else !Separator(p[|p| - 1])
  }

  /** The only entry that leads to inode `node` is that of directory `t` under the name. */
  ghost predicate OnlyEntry(fs: Inodes, t: nat, name: string, node: nat) {
    node < |fs| && node != 0 &&
    forall i, n :: 0 <= i < |fs| && fs[i].data.Children? && n in fs[i].data.entries && fs[i].data.entries[n] == node ==>
      i == t && n == name
  }

  lemma {:induction false} WalkThroughEntry(fs: Inodes, cur: nat, parts: seq<string>, t: nat, name: string, node: nat)
    requires Inv(fs) && cur < |fs| && OnlyEntry(fs, t, name, node) && cur != node && Walk(fs, cur, parts) == Ok(node)
    ensures name in parts && name != "." && name != ""
    decreases |parts|
  {
    hide OnlyEntry, Inv;
    InvParts(fs);
    assert parts != [] && parts[0] != "";
    if parts[0] == "." {
      WalkThroughEntry(fs, cur, parts[1..], t, name, node);
    } else {
      StepIn(fs, cur, parts[0]);
      var next := Get(fs, cur, parts[0]).value;
      if next == node {
        EntryIs(fs, cur, parts[0], t, name, node);
      } else {
        WalkThroughEntry(fs, next, parts[1..], t, name, node);
      }
    }
  }

  lemma {:induction false} EntryIs(fs: Inodes, cur: nat, part: string, t: nat, name: string, node: nat)
    requires Inv(fs) && cur < |fs| && OnlyEntry(fs, t, name, node) && Get(fs, cur, part) == Ok(node)
    ensures part == name
  {
    LookupMeans(fs, cur, part);
  }

  function Blank(n: nat): (r: seq<string>)
    ensures |r| == n && forall i :: 0 <= i < n ==> r[i] == ""
  {
    if n == 0 then [] else [""] + Blank(n - 1)
  }

  lemma {:induction false} SplitSlashes(s: string, n: nat)
    ensures SplitPath(s + Slashes(n)) == SplitPath(s) + Blank(n)
    decreases n
  {
    hide SplitPath;
    if n == 0 {
      assert s + Slashes(0) == s;
    } else {
      assert s + Slashes(n) == s + "/" + Slashes(n - 1);
      SplitAtSeparator(s, '/', Slashes(n - 1));
      SplitSlashes("", n - 1);
      SplitEmpty();
      assert "" + Slashes(n - 1) == Slashes(n - 1);
    }
  }

  /** What is walked before the name. */
  function Before(w: Written): seq<string> { if w.parent.Some? then Components(w.parent.value) else [] }

  /** The name is taken for a drive. */
  predicate Driven(w: Written) { ':' in w.name && (w.parent == None || w.parent == Some("")) }

  /** The components of a path that was written with a name. */
  lemma WrittenComponents(w: Written)
    requires w.Valid() && w.name != "" && '\\' !in w.name
    ensures Components(w.Path()) == Before(w) + (if Driven(w) then [] else [w.name]) + Blank(w.slashes)
  {
    hide SplitPath;
    var name, tail := w.name, Blank(w.slashes);
    assert forall i :: 0 <= i < |name| ==> name[i] in name;
    SplitPlain(name);
    SplitSlashes(name, w.slashes);
    var q := name + Slashes(w.slashes);
    assert SplitPath(q) == [name] + tail;
    assert ([name] + tail)[1..] == tail;
    match w.parent
    case None =>
    case Some(p) =>
      if p == "" {
        assert p + "/" + q == "" + ['/'] + q;
        SplitAtSeparator("", '/', q);
        SplitEmpty();
        assert ([""] + SplitPath(q))[1..] == SplitPath(q);
        assert Components("") == [];
      } else {
        ComponentsAppend(p, '/', q);
        assert Components(p) + ([name] + tail) == Components(p) + [name] + tail;
      }
  }

  /** Where a path that ends in a separator is walked to, an empty component is the last. */
  lemma EndsBlank(p: string)
    requires p != ""
    ensures var c := Components(p); Separator(p[|p| - 1]) <==> c != [] && c[|c| - 1] == ""
  {
    SplitEnds(p);
  }

  /** A path that resolves holds no empty component before its last. */
  lemma {:induction false} ResolvedBlank(fs: Inodes, parts: seq<string>)
    requires Inv(fs) && Walk(fs, 0, parts).Ok?
    ensures forall k :: 0 <= k < |parts| - 1 ==> parts[k] != ""
  {
    hide Inv, Walk;
    InvParts(fs);
    forall k | 0 <= k < |parts| - 1 ensures parts[k] != "" {
      if parts[k] == "" { WalkGap(fs, 0, parts, k); }
    }
  }

  /** A file system in which the name was entered as inode `node`. */
  ghost predicate Entered(fs: Inodes, w: Written, dir: nat, t: nat, node: nat) {
    Inv(fs) && w.Valid() && Resolve(fs, w.Parent()) == Ok(dir) && dir < |fs| && IsDir(fs, dir) && node < |fs| &&
    Contains(fs, dir, w.name) && Get(fs, dir, w.name) == Ok(node) && OnlyEntry(fs, t, w.name, node)
  }

  lemma FindableFound(fs: Inodes, w: Written, dir: nat, t: nat, node: nat)
    requires Entered(fs, w, dir, t, node) && Findable(w)
    ensures Resolve(fs, w.Path()) == Ok(node)
  {
    hide Components, SplitPath, OnlyEntry, Inv, IsDir, Contains, Get, Written.Path, LinksBack;
    InvParts(fs);
    WrittenComponents(w);
    var before, tail := Before(w), Blank(w.slashes);
    BeforeLeads(fs, w, dir);
    WalkConcat(fs, 0, before, [w.name] + tail);
    assert before + ([w.name] + tail) == before + [w.name] + tail;
    assert ([w.name] + tail)[1..] == tail;
  }

  lemma {:induction false} BeforeLeads(fs: Inodes, w: Written, dir: nat)
    requires Inv(fs) && Resolve(fs, w.Parent()) == Ok(dir) && Findable(w)
    ensures "" !in Before(w) && Walk(fs, 0, Before(w)) == Ok(dir)
  {
    hide SplitPath;
    if w.parent.None? {
      RootPath(fs);
    } else {
      var p := w.parent.value;
      ResolvedBlank(fs, Components(p));
      if p == "" {
        SplitEmpty();
      } else {
        hide Components;
        EndsBlank(p);
        var c := Components(p);
        assert c != [] ==> c[|c| - 1] != "";
      }
    }
  }

  lemma FoundFindable(fs: Inodes, w: Written, dir: nat, t: nat, node: nat)
    requires Entered(fs, w, dir, t, node) && Resolve(fs, w.Path()) == Ok(node)
    ensures Findable(w)
  {
    hide SplitPath, OnlyEntry, Inv, IsDir, Contains, Get, Written.Path, LinksBack, Walk, Components;
    InvParts(fs);
    var c := Components(w.Path());
    assert node != 0 by { NotRoot(fs, t, w.name, node); }
    WalkThroughEntry(fs, 0, c, t, w.name, node);
    NoSeparator(w.Path(), w.name);
    WrittenComponents(w);
    BeforeNothing(w);
    var before, n := Before(w), |Before(w)|;
    assert !Driven(w);
    assert c[n] == w.name && forall k :: 0 <= k < n ==> c[k] == before[k];
    assert forall k :: n < k < |c| ==> c[k] == "";
    assert |c| == n + 1 + w.slashes;
    assert w.slashes > 1 ==> n + 1 < |c| - 1 && c[n + 1] == "";
    if w.parent.Some? && w.parent.value != "" { EndsBlank(w.parent.value); }
    ResolvedBlank(fs, c);
  }

  lemma BeforeNothing(w: Written)
    ensures Driven(w) ==> Before(w) == []
  {
    SplitEmpty();
  }

  lemma NotRoot(fs: Inodes, t: nat, name: string, node: nat)
    requires OnlyEntry(fs, t, name, node)
    ensures node != 0
  {}

  lemma NoSeparator(path: string, name: string)
    requires name in Components(path)
    ensures '\\' !in name
  {
    var parts := SplitPath(path);
    assert name in parts;
    var k :| 0 <= k < |parts| && parts[k] == name;
    SplitParts(path, k);
  }

  /** What becomes of the file system when the name is entered as a new inode. */
  lemma {:induction false} EnteredAfter(fs: Inodes, w: Written, dir: nat, added: Inodes, fs': Inodes)
    requires Inv(fs) && w.Valid() && Resolve(fs, w.Parent()) == Ok(dir) && dir < |fs| && IsDir(fs, dir)
    requires added != [] && Inv(fs') && Extends(fs, fs')
    requires var t := Target(fs, dir);
      fs' == fs[t := fs[t].(data := Children(fs[t].data.entries[w.name := |fs|]))] + added
    requires forall k, n :: 0 <= k < |added| && added[k].data.Children? && n in added[k].data.entries ==>
      added[k].data.entries[n] != |fs|
    ensures Entered(fs', w, dir, Target(fs, dir), |fs|)
  {
    hide Components, Written.Valid, Written.Parent;
    var t := Target(fs, dir);
    WalkKept(fs, fs', 0, Components(w.Parent()));
    TargetKept(fs, fs', dir);
    LookupMeans(fs', dir, w.name);
    assert forall i :: 0 <= i < |fs| && i != t ==> fs'[i] == fs[i];
    assert forall i :: |fs| <= i < |fs'| ==> fs'[i] == added[i - |fs|];
  }

  /** A file or directory that was created is found by its path exactly when the name is not a dot, holds
      no backslash and is not taken for a drive, and no slash is doubled before or behind it. */
  lemma CreateFindsIff(fs: Inodes, w: Written)
    requires Inv(fs) && w.Valid() && Create(fs, w.Path()).Ok?
    ensures var fs' := Create(fs, w.Path()).value;
      Inv(fs') && (Resolve(fs', w.Path()) == Ok(|fs|) <==> Findable(w))
  {
    hide Resolve, Components, Written.Path, Written.Valid, Findable, Written.Parent, ResolveUncreated, Entered, IsDir;
    var dir := CreatedIn(fs, w);
    CreateKeeps(fs, w.Path());
    var fs', t := Create(fs, w.Path()).value, Target(fs, dir);
    EnteredAfter(fs, w, dir, [RamInode(w.name, File([]), |fs|)], fs');
    EnteredFindsIff(fs', w, dir, t, |fs|);
  }

  lemma CreateDirFindsIff(fs: Inodes, w: Written)
    requires Inv(fs) && w.Valid() && CreateDir(fs, w.Path()).Ok?
    ensures var fs' := CreateDir(fs, w.Path()).value;
      Inv(fs') && (Resolve(fs', w.Path()) == Ok(|fs|) <==> Findable(w))
  {
    hide Resolve, Components, Written.Path, Written.Valid, Findable, Written.Parent, ResolveUncreated, Entered, IsDir;
    CreateFailsIff(fs, w);
    var dir := CreatedIn(fs, w);
    CreateDirKeeps(fs, w.Path());
    var fs', t := CreateDir(fs, w.Path()).value, Target(fs, dir);
    var link := RamInode("..", HardLink(fs'[|fs| + 1].data.target), |fs| + 1);
    EnteredAfter(fs, w, dir, [RamInode(w.name, Children(map[".." := |fs| + 1]), |fs|), link], fs');
    EnteredFindsIff(fs', w, dir, t, |fs|);
  }

  lemma EnteredFindsIff(fs: Inodes, w: Written, dir: nat, t: nat, node: nat)
    requires Entered(fs, w, dir, t, node)
    ensures Resolve(fs, w.Path()) == Ok(node) <==> Findable(w)
  {
    if Findable(w) { FindableFound(fs, w, dir, t, node); }
    if Resolve(fs, w.Path()) == Ok(node) { FoundFindable(fs, w, dir, t, node); }
  }

  /** The directory in which something is created. */
  lemma CreatedIn(fs: Inodes, w: Written) returns (dir: nat)
    requires Inv(fs) && w.Valid() && Create(fs, w.Path()).Ok?
    ensures Resolve(fs, w.Parent()) == Ok(dir) && dir < |fs| && IsDir(fs, dir)
    ensures ResolveUncreated(fs, w.Path()) == Ok((dir, w.name))
    ensures var t := Target(fs, dir);
      Insert(fs, dir, w.name, |fs|) == Ok(fs[t := fs[t].(data := Children(fs[t].data.entries[w.name := |fs|]))])
  {
    hide Resolve, Components, Written.Path, Written.Valid, ResolveUncreated;
    UncreatedMeans(fs, w);
    dir := ResolveUncreated(fs, w.Path()).value.0;
    InsertAdds(fs, dir, w.name, |fs|);
  }
}
