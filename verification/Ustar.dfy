/** Archives in the ustar interchange format of POSIX.1, read from memory: how the iterator takes a
    header apart, and that it yields exactly the entries a well-formed archive holds. */
module Ustar {
  import opened Wrappers
  import opened RamFs

  const INODE_SIZE := 500
  const BLOCK := 512
  const U32_LIMIT := 0x1_0000_0000

  datatype Kind = Normal | Directory | Other

  datatype Entry = Entry(name: string, kind: Kind, data: seq<Byte>)

  // ----- fields -----

  function TrimNul(s: seq<Byte>): (r: seq<Byte>)
    ensures r <= s && (r != [] ==> r[|r| - 1] != 0)
  {
    if s != [] && s[|s| - 1] == 0 then TrimNul(s[..|s| - 1]) else s
  }

  function Text(s: seq<Byte>): (r: string)
    ensures |r| == |s|
  {
    seq(|s|, i requires 0 <= i < |s| => s[i] as char)
  }

  predicate Octal(digits: seq<Byte>) { forall i :: 0 <= i < |digits| ==> 48 <= digits[i] < 56 }

  /** The number that octal digits stand for. */
  function Value(digits: seq<Byte>): nat
    requires Octal(digits)
  {
    if digits == [] then 0 else 8 * Value(digits[..|digits| - 1]) + (digits[|digits| - 1] - 48)
  }

  /** The size field as a 32-bit octal number; nothing when parsing fails, which panics. */
  function SizeOf(field: seq<Byte>): Option<nat> {
    var s := TrimNul(field);
    var s := if s != [] && s[0] == 43 then s[1..] else s;
    if s == [] || !Octal(s) || Value(s) >= U32_LIMIT then None else Some(Value(s))
  }

  lemma {:induction false} TrimPadding(s: seq<Byte>, pad: seq<Byte>)
    requires s == [] || s[|s| - 1] != 0
    requires forall i :: 0 <= i < |pad| ==> pad[i] == 0
    ensures TrimNul(s + pad) == s
    decreases |pad|
  {
    if pad == [] {
      assert s + pad == s;
    } else {
      TrimPadding(s, pad[..|pad| - 1]);
      assert (s + pad)[..|s + pad| - 1] == s + pad[..|pad| - 1];
    }
  }

  /** POSIX.1 ends a numeric field with spaces or NULs. It is read right exactly when no space is among
      them and the number fits 32 bits; otherwise the iterator panics. */
  lemma {:induction false} SizeExact(digits: seq<Byte>, ends: seq<Byte>)
    requires digits != [] && Octal(digits)
    requires forall i :: 0 <= i < |ends| ==> ends[i] == 0 || ends[i] == 32
    ensures SizeOf(digits + ends) ==
            if 32 !in ends && Value(digits) < U32_LIMIT then Some(Value(digits)) else None
  {
    var field := digits + ends;
    var s := TrimNul(field);
    if 32 !in ends {
      TrimPadding(digits, ends);
    } else {
      var k :| 0 <= k < |ends| && ends[k] == 32;
      SpaceStays(field, |digits| + k);
      assert s[0] == digits[0] != 43;
    }
  }

  /** A field that is read as a number: perhaps a plus sign, octal digits, and NULs. */
  predicate SizeField(field: seq<Byte>, sign: seq<Byte>, digits: seq<Byte>) {
    (sign == [] || sign == [43]) && digits != [] && Octal(digits) && sign + digits <= field &&
    forall i :: |sign + digits| <= i < |field| ==> field[i] == 0
  }

  /** Exactly these fields are read, as the number of their digits when it fits 32 bits. */
  lemma SizeReadIff(field: seq<Byte>, n: nat)
    ensures SizeOf(field) == Some(n) <==>
      exists sign, digits :: SizeField(field, sign, digits) && Value(digits) == n < U32_LIMIT
  {
    hide SizeOf, Value, Octal, TrimNul;
    if SizeOf(field) == Some(n) { var sign, digits := SizeParts(field); }
    forall sign, digits | SizeField(field, sign, digits) && Value(digits) == n < U32_LIMIT
      ensures SizeOf(field) == Some(n)
    {
      DigitsRead(field, sign, digits);
    }
  }

  lemma SizeParts(field: seq<Byte>) returns (sign: seq<Byte>, digits: seq<Byte>)
    requires SizeOf(field).Some?
    ensures SizeField(field, sign, digits) && SizeOf(field) == Some(Value(digits)) && Value(digits) < U32_LIMIT
  {
    var s := TrimNul(field);
    sign, digits := if s[0] == 43 then [43] else [], if s[0] == 43 then s[1..] else s;
    assert sign + digits == s;
    TrimmedNuls(field);
  }

  lemma {:induction false} DigitsRead(field: seq<Byte>, sign: seq<Byte>, digits: seq<Byte>)
    requires SizeField(field, sign, digits) && Value(digits) < U32_LIMIT
    ensures SizeOf(field) == Some(Value(digits))
  {
    hide Value, TrimNul;
    var front := sign + digits;
    FieldTrimmed(field, sign, digits);
    if sign == [] {
      assert front == digits;
    } else {
      assert front[0] == 43 && front[1..] == digits;
    }
  }

  lemma {:induction false} FieldTrimmed(field: seq<Byte>, sign: seq<Byte>, digits: seq<Byte>)
    requires SizeField(field, sign, digits)
    ensures TrimNul(field) == sign + digits
  {
    hide TrimNul;
    var front := sign + digits;
    assert front[|front| - 1] == digits[|digits| - 1] != 0;
    TrimPadding(front, field[|front|..]);
    assert field == front + field[|front|..];
  }

  lemma {:induction false} TrimmedNuls(s: seq<Byte>)
    ensures forall i :: |TrimNul(s)| <= i < |s| ==> s[i] == 0
  {
    if s != [] && s[|s| - 1] == 0 { TrimmedNuls(s[..|s| - 1]); }
  }

  lemma {:induction false} SpaceStays(s: seq<Byte>, k: nat)
    requires k < |s| && s[k] == 32
    ensures k < |TrimNul(s)| && TrimNul(s)[k] == 32
  {
    if s[|s| - 1] == 0 { SpaceStays(s[..|s| - 1], k); }
  }

  // ----- the iterator -----

  function KindOf(b: Byte): Kind {
    if b == 48 then Normal else if b == 53 then Directory else Other
  }

  /** The header starts with "ustar" in its magic field. */
  predicate Verified(archive: seq<Byte>, at: nat) {
    at + INODE_SIZE <= |archive| && archive[at + 257..at + 262] == [117, 115, 116, 97, 114]
  }

  /** Where the header after one with `size` bytes of data is. */
  function NextHeader(at: nat, size: nat): nat { at + ((size + 511) / 512 + 1) * 512 }

  /** The entry whose header is at `at` and the place of the header after it. Leaving the archive is a
      fault. */
  function EntryAt(archive: seq<Byte>, at: nat): FsResult<(Entry, nat)> {
    if at + INODE_SIZE > |archive| then Err(Panicked)
    else
      match SizeOf(archive[at + 124..at + 136])
      case None => Err(Panicked)
      case Some(size) =>
        var next := NextHeader(at, size);
        if next + INODE_SIZE > |archive| then Err(Panicked)
        else Ok((Entry(Text(TrimNul(archive[at..at + 100])), KindOf(archive[at + 156]),
                       archive[at + BLOCK..at + BLOCK + size]), next))
  }

  // ----- names -----

  /** A field of POSIX.1 that a NUL ends, if there is one. */
  function UpToNul(s: seq<Byte>): (r: seq<Byte>)
    ensures r <= s && 0 !in r
  {
    if s == [] || s[0] == 0 then [] else [s[0]] + UpToNul(s[1..])
  }

  /** The path name of POSIX.1: the name field, behind the prefix field and a '/' when that is not
      empty. */
  function PosixName(block: seq<Byte>): seq<Byte>
    requires |block| == BLOCK
  {
    var prefix, name := UpToNul(block[345..500]), UpToNul(block[..100]);
    if prefix == [] then name else prefix + [47] + name
  }

  lemma {:induction false} UpToNulTrims(s: seq<Byte>)
    requires 0 !in TrimNul(s)
    ensures UpToNul(s) == TrimNul(s)
  {
    if s != [] {
      TrimFirst(s);
      if s[0] != 0 {
        assert TrimNul(s) == [s[0]] + TrimNul(s[1..]);
        assert forall x :: x in TrimNul(s[1..]) ==> x in TrimNul(s);
        UpToNulTrims(s[1..]);
      }
    }
  }

  lemma {:induction false} TrimFirst(s: seq<Byte>)
    requires s != []
    ensures TrimNul(s) == if s[0] == 0 && TrimNul(s[1..]) == [] then [] else [s[0]] + TrimNul(s[1..])
    decreases |s|
  {
    var n := |s| - 1;
    if n > 0 && s[n] == 0 {
      TrimFirst(s[..n]);
      assert s[..n][1..] == s[1..][..n - 1];
    }
  }

  lemma TextInjective(a: seq<Byte>, b: seq<Byte>)
    ensures Text(a) == Text(b) <==> a == b
  {
    if Text(a) == Text(b) {
      assert |a| == |b|;
      forall i | 0 <= i < |a| ensures a[i] == b[i] { assert Text(a)[i] == Text(b)[i]; }
    }
  }

  /** The iterator never looks at the prefix: it reads the name of POSIX.1 exactly when the prefix is
      empty and no NUL is inside the name. */
  lemma NameReadIff(archive: seq<Byte>, at: nat)
    requires EntryAt(archive, at).Ok? && at + BLOCK <= |archive|
    ensures EntryAt(archive, at).value.0.name == Text(PosixName(archive[at..at + BLOCK])) <==>
        archive[at + 345] == 0 && 0 !in TrimNul(archive[at..at + 100])
  {
    var block := archive[at..at + BLOCK];
    var field := archive[at..at + 100];
    assert block[..100] == field;
    var read, posix := TrimNul(field), PosixName(block);
    TextInjective(read, posix);
    hide TrimNul, Text, SizeOf, KindOf;
    var prefix := UpToNul(block[345..500]);
    assert block[345..500][0] == archive[at + 345];
    assert prefix == [] <==> archive[at + 345] == 0;
    assert 0 !in posix;
    if 0 !in read { UpToNulTrims(field); }
  }

  class TarArchiveIter {
    const archive: seq<Byte>
    var at: Option<nat>

    constructor (archive: seq<Byte>)
      requires Verified(archive, 0)
      ensures this.archive == archive && at == Some(0)
    {
      this.archive := archive;
      at := Some(0);
    }

    /** Yields the entry the iterator stands on and moves to the next header, if there is one. */
    method Next() returns (r: FsResult<Option<Entry>>)
      modifies this
      ensures match old(at)
        case None => r == Ok(None) && at == None
        case Some(i) =>
          match EntryAt(archive, i)
          case Err(e) => r == Err(e) && at == old(at)
          case Ok((entry, next)) => r == Ok(Some(entry)) && at == if Verified(archive, next) then Some(next) else None
    {
      hide TrimNul, Text, Verified, SizeOf, KindOf;
      if at == None { return Ok(None); }
      var i := at.value;
      if i + INODE_SIZE > |archive| { return Err(Panicked); }
      var parsed := SizeOf(archive[i + 124..i + 136]);
      if parsed == None { return Err(Panicked); }
      var size := parsed.value;
      var next := NextHeader(i, size);
      if next + INODE_SIZE > |archive| { return Err(Panicked); }
      at := if Verified(archive, next) then Some(next) else None;
      var name := Text(TrimNul(archive[i..i + 100]));
      return Ok(Some(Entry(name, KindOf(archive[i + 156]), archive[i + BLOCK..i + BLOCK + size])));
    }
  }

  /** All entries from `at` on, as repeated calls of `Next` yield them. */
  function Entries(archive: seq<Byte>, at: Option<nat>): FsResult<seq<Entry>>
    decreases if at.Some? && at.value <= |archive| then |archive| - at.value + 1 else 0
  {
    match at
    case None => Ok([])
    case Some(i) =>
      match EntryAt(archive, i)
      case Err(e) => Err(e)
      case Ok((entry, next)) =>
        match Entries(archive, if Verified(archive, next) then Some(next) else None)
        case Err(e) => Err(e)
        case Ok(rest) => Ok([entry] + rest)
  }

  // ----- well-formed archives -----

  /** A header block as the format lays it out: the name padded with NULs, the size as octal digits
      ended by NULs, the type flag, the magic and an empty prefix of the name; the other fields are
      free. */
  ghost predicate Header(block: seq<Byte>, name: seq<Byte>, digits: seq<Byte>, kind: Kind) {
    |block| == BLOCK &&
    |name| <= 100 && 0 !in name && block[..100] == name + Fill(100 - |name|, 0) &&
    1 <= |digits| <= 11 && Octal(digits) && block[124..136] == digits + Fill(12 - |digits|, 0) &&
    (kind == Normal <==> block[156] == 48) && (kind == Directory <==> block[156] == 53) &&
    block[257..262] == [117, 115, 116, 97, 114] && block[345] == 0
  }

  /** One entry at `at`: its header block, then its data in blocks of 512 bytes. */
  ghost predicate Member(archive: seq<Byte>, at: nat, e: Entry, name: seq<Byte>, digits: seq<Byte>) {
    at + BLOCK + |e.data| <= |archive| && |e.data| < U32_LIMIT &&
    Header(archive[at..at + BLOCK], name, digits, e.kind) && e.name == Text(name) && Value(digits) == |e.data| &&
    archive[at + BLOCK..at + BLOCK + |e.data|] == e.data
  }

  /** Where the block of the next header begins: behind the blocks that the data needs. */
  function Blocks(bytes: nat): nat { if bytes == 0 then 0 else 1 + Blocks(if bytes < BLOCK then 0 else bytes - BLOCK) }

  /** From `at` the archive holds exactly these entries and then a block that is not a header. */
  ghost predicate Archive(archive: seq<Byte>, at: nat, entries: seq<Entry>)
    decreases |entries|
  {
    at + BLOCK <= |archive| &&
    if entries == [] then archive[at + 257..at + 262] != [117, 115, 116, 97, 114]
    else
      (exists name, digits :: Member(archive, at, entries[0], name, digits)) &&
      Archive(archive, at + BLOCK + BLOCK * Blocks(|entries[0].data|), entries[1..])
  }

  lemma {:induction false} BlocksUp(bytes: nat)
    ensures Blocks(bytes) == (bytes + 511) / 512
  {
    if bytes >= BLOCK { BlocksUp(bytes - BLOCK); }
  }

  lemma Within(archive: seq<Byte>, at: nat, lo: nat, hi: nat)
    requires lo <= hi <= BLOCK && at + BLOCK <= |archive|
    ensures archive[at..at + BLOCK][lo..hi] == archive[at + lo..at + hi]
  {
    var a, b := archive[at..at + BLOCK][lo..hi], archive[at + lo..at + hi];
    assert |a| == |b|;
    forall i | 0 <= i < |a| ensures a[i] == b[i] {}
  }

  lemma MemberName(archive: seq<Byte>, at: nat, e: Entry, name: seq<Byte>, digits: seq<Byte>)
    requires Member(archive, at, e, name, digits)
    ensures Text(TrimNul(archive[at..at + 100])) == e.name
  {
    hide Octal, Value, Text, TrimNul;
    Within(archive, at, 0, 100);
    assert archive[at..at + BLOCK][0..100] == archive[at..at + BLOCK][..100];
    TrimPadding(name, Fill(100 - |name|, 0));
  }

  lemma MemberSize(archive: seq<Byte>, at: nat, e: Entry, name: seq<Byte>, digits: seq<Byte>)
    requires Member(archive, at, e, name, digits)
    ensures SizeOf(archive[at + 124..at + 136]) == Some(|e.data|)
  {
    hide Text, TrimNul, SizeOf;
    Within(archive, at, 124, 136);
    SizeExact(digits, Fill(12 - |digits|, 0));
  }

  lemma MemberKind(archive: seq<Byte>, at: nat, e: Entry, name: seq<Byte>, digits: seq<Byte>)
    requires Member(archive, at, e, name, digits)
    ensures KindOf(archive[at + 156]) == e.kind && Verified(archive, at)
  {
    hide Octal, Value, Text, TrimNul;
    Within(archive, at, 257, 262);
    assert archive[at + 156] == archive[at..at + BLOCK][156];
  }

  lemma MemberParses(archive: seq<Byte>, at: nat, e: Entry, name: seq<Byte>, digits: seq<Byte>)
    requires Member(archive, at, e, name, digits)
    requires NextHeader(at, |e.data|) + BLOCK <= |archive|
    ensures EntryAt(archive, at) == Ok((e, NextHeader(at, |e.data|))) && Verified(archive, at)
  {
    MemberName(archive, at, e, name, digits);
    MemberSize(archive, at, e, name, digits);
    MemberKind(archive, at, e, name, digits);
    hide Header, TrimNul, Text, SizeOf, Octal, Value;
  }

  /** An entry is read exactly when the archive goes on for a header behind its data, even though the data
      itself is all there. */
  lemma MemberReadIff(archive: seq<Byte>, at: nat, e: Entry, name: seq<Byte>, digits: seq<Byte>)
    requires Member(archive, at, e, name, digits)
    ensures EntryAt(archive, at).Ok? <==> NextHeader(at, |e.data|) + INODE_SIZE <= |archive|
    ensures EntryAt(archive, at).Err? ==> EntryAt(archive, at) == Err(Panicked)
  {
    MemberSize(archive, at, e, name, digits);
    hide Header, TrimNul, Text, SizeOf, Octal, Value;
  }

  /** The iterator yields exactly the entries of a well-formed archive, in order. */
  lemma {:induction false} ArchiveParses(archive: seq<Byte>, at: nat, entries: seq<Entry>)
    requires Archive(archive, at, entries) && entries != []
    ensures Verified(archive, at) && Entries(archive, Some(at)) == Ok(entries)
    decreases |entries|
  {
    hide EntryAt, Member;
    var e := entries[0];
    var name, digits :| Member(archive, at, e, name, digits);
    BlocksUp(|e.data|);
    var next := at + BLOCK + BLOCK * Blocks(|e.data|);
    assert next == NextHeader(at, |e.data|);
    MemberParses(archive, at, e, name, digits);
    if |entries| > 1 { ArchiveParses(archive, next, entries[1..]); }
    assert [e] + entries[1..] == entries;
  }
}
