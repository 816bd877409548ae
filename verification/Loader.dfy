/** Loading the segments of an executable into a new address space. */
module Loader {
  import opened Wrappers
  import opened UserMemory

  /** What loading works on. `answers` are what the next requests for a mapped page will meet: a frame
      nobody uses, or none when the frames have run out. */
  datatype Space = Space(phys: seq<Byte>, table: Frames, answers: seq<Option<nat>>)

  datatype Segment = Segment(load: bool, offset: nat, vaddr: nat, filez: nat, memz: nat)

  datatype LoadError = NotAnExecutable | MapToError | Panicked

  predicate Unused(s: Space, f: nat) { (f + 1) * PAGE_SIZE <= |s.phys| && f !in s.table.Values }

  predicate Valid(s: Space) {
    Backed(s.phys, s.table) && Injective(s.table) &&
    (forall i :: 0 <= i < |s.answers| && s.answers[i].Some? ==> Unused(s, s.answers[i].value)) &&
    (forall i, j :: 0 <= i < j < |s.answers| && s.answers[i].Some? ==> s.answers[i] != s.answers[j])
  }

  // ----- mapping -----

  /** A zeroed frame is mapped at `page`. */
  function MapPage(s: Space, page: nat): Option<Space> {
    if s.answers == [] || s.answers[0].None? || (s.answers[0].value + 1) * PAGE_SIZE > |s.phys| then None
    else
      var f := s.answers[0].value;
      Some(Space(Poke(s.phys, f * PAGE_SIZE, Fill(PAGE_SIZE, 0)), s.table[page := f], s.answers[1..]))
  }

  function MapPages(s: Space, from: nat, to: nat): Option<Space>
    decreases if from < to then to - from else 0
  {
    if from >= to then Some(s)
    else
      match MapPage(s, from)
      case None => None
      case Some(s1) => MapPages(s1, from + 1, to)
  }

  /** The process sees this byte there. */
  predicate Sees(s: Space, va: nat, b: Byte) {
    Backed(s.phys, s.table) && Mapped(s.table, va) && Load(s.phys, s.table, va) == b
  }

  lemma MapPageValid(s: Space, page: nat)
    requires Valid(s) && MapPage(s, page).Some?
    ensures Valid(MapPage(s, page).value)
  {
    var s', f := MapPage(s, page).value, s.answers[0].value;
    assert forall q :: q in s.table ==> s.table[q] in s.table.Values;
    forall i | 0 <= i < |s'.answers| && s'.answers[i].Some? ensures Unused(s', s'.answers[i].value) {
      assert Unused(s, s.answers[i + 1].value) && s.answers[0] != s.answers[i + 1];
    }
  }

  lemma MapPageSees(s: Space, page: nat, va: nat, b: Byte)
    requires Valid(s) && MapPage(s, page).Some?
    ensures va / PAGE_SIZE == page ==> Sees(MapPage(s, page).value, va, 0)
    ensures va / PAGE_SIZE != page && Sees(s, va, b) ==> Sees(MapPage(s, page).value, va, b)
  {
    MapPageValid(s, page);
    if va / PAGE_SIZE != page && Sees(s, va, b) { assert s.table[va / PAGE_SIZE] in s.table.Values; }
  }

  /** Mapping a range of pages gives zeros there and leaves the rest alone. */
  lemma {:induction false} MapPagesSees(s: Space, from: nat, to: nat, va: nat, b: Byte)
    requires Valid(s) && MapPages(s, from, to).Some?
    ensures Valid(MapPages(s, from, to).value)
    ensures from <= va / PAGE_SIZE < to ==> Sees(MapPages(s, from, to).value, va, 0)
    ensures !(from <= va / PAGE_SIZE < to) && Sees(s, va, b) ==> Sees(MapPages(s, from, to).value, va, b)
    decreases if from < to then to - from else 0
  {
    hide Valid, Sees, MapPage;
    if from < to {
      var s1 := MapPage(s, from).value;
      MapPageValid(s, from);
      MapPageSees(s, from, va, b);
      if va / PAGE_SIZE == from {
        MapPagesSees(s1, from + 1, to, va, 0);
      } else {
        MapPagesSees(s1, from + 1, to, va, b);
      }
    }
  }

  // ----- segments -----

  /** The pages that are mapped for a segment. */
  function FirstPage(h: Segment): nat { h.vaddr / PAGE_SIZE }

  function EndPage(h: Segment): nat { (h.vaddr + h.memz + PAGE_SIZE) / PAGE_SIZE }

  function LoadSegment(s: Space, file: seq<Byte>, h: Segment): Result<Space, LoadError> {
    match MapPages(s, FirstPage(h), EndPage(h))
    case None => Err(MapToError)
    case Some(s1) =>
      if h.offset + h.filez > |file| then Err(Panicked)
      else
        match Copied(s1.phys, s1.table, h.vaddr, file[h.offset..h.offset + h.filez])
        case None => Err(Panicked)
        case Some(phys) => Ok(s1.(phys := phys))
  }

  /** All LOAD segments in turn: the space and the program break. */
  function LoadAll(s: Space, file: seq<Byte>, headers: seq<Segment>, brk: nat): Result<(Space, nat), LoadError>
    decreases |headers|
  {
    if headers == [] then Ok((s, brk))
    else if !headers[0].load then LoadAll(s, file, headers[1..], brk)
    else
      match LoadSegment(s, file, headers[0])
      case Err(e) => Err(e)
      case Ok(s1) => LoadAll(s1, file, headers[1..], headers[0].vaddr + headers[0].memz)
  }

  /** What the format and the copy demand of a segment. */
  predicate Loadable(file: seq<Byte>, h: Segment) {
    h.filez <= h.memz && h.offset + h.filez <= |file| && (FitsFirstPage(h.vaddr, h.filez) || h.filez > PAGE_SIZE)
  }

  predicate EachLoadable(file: seq<Byte>, headers: seq<Segment>) {
    forall i :: 0 <= i < |headers| && headers[i].load ==> Loadable(file, headers[i])
  }

  /** None of the pages that are mapped for `b` holds memory of `a`; the page behind `a`, which is mapped
      for it too, may be among them. */
  predicate Spares(b: Segment, a: Segment) {
    a.memz == 0 || EndPage(b) <= FirstPage(a) || (a.vaddr + a.memz - 1) / PAGE_SIZE < FirstPage(b)
  }

  predicate AllLoadable(file: seq<Byte>, headers: seq<Segment>) {
    EachLoadable(file, headers) &&
    forall i, j :: 0 <= i < j < |headers| && headers[i].load && headers[j].load ==> Spares(headers[j], headers[i])
  }

  predicate InSegment(h: Segment, va: nat) { FirstPage(h) <= va / PAGE_SIZE < EndPage(h) }

  /** The byte that belongs at `va` inside the pages of a segment: the file's or zero. */
  function Expected(file: seq<Byte>, h: Segment, va: nat): Byte
    requires h.offset + h.filez <= |file|
  {
    if h.vaddr <= va < h.vaddr + h.filez then file[h.offset + (va - h.vaddr)] else 0
  }

  /** The frame lookup inside the copy never fails. */
  lemma {:induction false} PagesReady(s: Space, file: seq<Byte>, h: Segment)
    requires Valid(s) && MapPages(s, FirstPage(h), EndPage(h)).Some? && h.filez <= h.memz
    ensures PagesMapped(MapPages(s, FirstPage(h), EndPage(h)).value.table, h.vaddr, h.filez)
  {
    forall p | h.vaddr / PAGE_SIZE <= p <= (h.vaddr + h.filez) / PAGE_SIZE ensures p in MapPages(s, FirstPage(h),
        EndPage(h)).value.table {
      assert (h.vaddr + h.memz + PAGE_SIZE) / PAGE_SIZE == (h.vaddr + h.memz) / PAGE_SIZE + 1;
      MapPagesSees(s, FirstPage(h), EndPage(h), p * PAGE_SIZE, 0);
    }
  }

  lemma {:induction false} SegmentCopied(s: Space, file: seq<Byte>, h: Segment)
    requires Valid(s) && MapPages(s, FirstPage(h), EndPage(h)).Some? && Loadable(file, h)
    ensures var s1 := MapPages(s, FirstPage(h), EndPage(h)).value;
      LoadSegment(s, file, h).Ok? && LoadSegment(s, file, h).value == s1.(phys := LoadSegment(s, file, h).value.phys) &&
      Valid(s1) && Copies(s1.phys, s1.table, h.vaddr, file[h.offset..h.offset + h.filez],
          LoadSegment(s, file, h).value.phys)
  {
    PagesReady(s, file, h);
    MapPagesSees(s, FirstPage(h), EndPage(h), 0, 0);
    var s1 := MapPages(s, FirstPage(h), EndPage(h)).value;
    hide MapPages, Copied, Copies, PagesMapped;
    CopySound(s1.phys, s1.table, h.vaddr, file[h.offset..h.offset + h.filez]);
  }

  /** One segment: only a lack of frames can stop it; its pages hold what belongs there, and all other
      addresses what they held. */
  lemma SegmentLoads(s: Space, file: seq<Byte>, h: Segment, va: nat, b: Byte)
    requires Valid(s) && Loadable(file, h)
    ensures match LoadSegment(s, file, h)
      case Err(e) => e == MapToError
      case Ok(s') =>
        Valid(s') && (InSegment(h, va) ==> Sees(s', va, Expected(file, h, va))) &&
        (!InSegment(h, va) && Sees(s, va, b) ==> Sees(s', va, b))
  {
    if MapPages(s, FirstPage(h), EndPage(h)).Some? {
      SegmentCopied(s, file, h);
      MapPagesSees(s, FirstPage(h), EndPage(h), va, b);
      CopyKeepsValid(s, file, h);
      CopySees(MapPages(s, FirstPage(h), EndPage(h)).value, file, h, LoadSegment(s, file, h).value, va);
    }
  }

  lemma {:induction false} CopyKeepsValid(s: Space, file: seq<Byte>, h: Segment)
    requires Valid(s) && MapPages(s, FirstPage(h), EndPage(h)).Some? && Loadable(file, h) && LoadSegment(s, file, h).Ok?
    ensures Valid(LoadSegment(s, file, h).value)
  {
    SegmentCopied(s, file, h);
    hide MapPages, LoadSegment;
  }

  lemma CopySees(s: Space, file: seq<Byte>, h: Segment, s': Space, va: nat)
    requires Loadable(file, h) && s' == s.(phys := s'.phys)
    requires Copies(s.phys, s.table, h.vaddr, file[h.offset..h.offset + h.filez], s'.phys)
    ensures forall b: Byte :: Sees(s, va, b) ==> Sees(s', va,
        if h.vaddr <= va < h.vaddr + h.filez then Expected(file, h, va) else b)
  {}

  predicate Outside(headers: seq<Segment>, va: nat) {
    forall i :: 0 <= i < |headers| && headers[i].load ==> !InSegment(headers[i], va)
  }

  /** Loading never fails for another reason than a lack of frames, and changes nothing outside the
      segments' pages. */
  lemma {:induction false} LoadAllKeeps(s: Space, file: seq<Byte>, headers: seq<Segment>, brk: nat, va: nat, b: Byte)
    requires Valid(s) && EachLoadable(file, headers)
    ensures match LoadAll(s, file, headers, brk)
      case Err(e) => e == MapToError
      case Ok((s', _)) => Valid(s') && (Outside(headers, va) && Sees(s, va, b) ==> Sees(s', va, b))
    decreases |headers|
  {
    hide Valid, Sees, LoadSegment, Loadable, InSegment;
    if headers != [] {
      if headers[0].load {
        SegmentLoads(s, file, headers[0], va, b);
        if LoadSegment(s, file, headers[0]).Ok? {
          LoadAllKeeps(LoadSegment(s, file, headers[0]).value, file, headers[1..], headers[0].vaddr + headers[0].memz,
              va, b);
        }
      } else {
        LoadAllKeeps(s, file, headers[1..], brk, va, b);
      }
    }
  }

  /** After loading, an address of a page holds what belongs there by the last LOAD segment that the page
      is mapped for: its byte of the file or zero. */
  lemma {:induction false} LoadAllDelivers(s: Space, file: seq<Byte>, headers: seq<Segment>, brk: nat, i: nat, va: nat)
    requires Valid(s) && EachLoadable(file, headers) && i < |headers| && headers[i].load
    requires InSegment(headers[i], va) && Outside(headers[i + 1..], va)
    ensures headers[i].offset + headers[i].filez <= |file|
    ensures LoadAll(s, file, headers, brk).Ok? ==> Sees(LoadAll(s, file, headers, brk).value.0, va,
        Expected(file, headers[i], va))
    decreases |headers|
  {
    assert Loadable(file, headers[i]);
    assert headers[i].offset + headers[i].filez <= |file|;
    hide Valid, Sees, LoadSegment, Loadable, Expected, Outside;
    if LoadAll(s, file, headers, brk).Ok? {
      assert i > 0 ==> headers[1..][i..] == headers[i + 1..];
      if i == 0 {
        var want := Expected(file, headers[0], va);
        SegmentLoads(s, file, headers[0], va, want);
        LoadAllKeeps(LoadSegment(s, file, headers[0]).value, file, headers[1..], headers[0].vaddr + headers[0].memz,
            va, want);
      } else if headers[0].load {
        SegmentLoads(s, file, headers[0], va, 0);
        LoadAllDelivers(LoadSegment(s, file, headers[0]).value, file, headers[1..],
            headers[0].vaddr + headers[0].memz, i - 1, va);
      } else {
        LoadAllDelivers(s, file, headers[1..], brk, i - 1, va);
      }
    }
  }

  /** The memory of a segment is on pages that are mapped for it and for no later one. */
  lemma MemorySpared(file: seq<Byte>, headers: seq<Segment>, i: nat, va: nat)
    requires AllLoadable(file, headers) && i < |headers| && headers[i].load
    requires headers[i].vaddr <= va < headers[i].vaddr + headers[i].memz
    ensures InSegment(headers[i], va) && Outside(headers[i + 1..], va)
  {
    var later := headers[i + 1..];
    forall j | 0 <= j < |later| && later[j].load ensures !InSegment(later[j], va) {
      assert later[j] == headers[i + 1 + j] && Spares(headers[i + 1 + j], headers[i]);
    }
  }

  /** The memory of a segment as the ELF specification wants it: the file's bytes, then zeros. */
  ghost predicate SegmentImage(s: Space, file: seq<Byte>, h: Segment) {
    h.offset + h.filez <= |file| &&
    forall va :: h.vaddr <= va < h.vaddr + h.memz ==> Sees(s, va, Expected(file, h, va))
  }

  lemma {:induction false} LoadExecImage(s: Space, file: seq<Byte>, headers: seq<Segment>, i: nat)
    requires Valid(s) && AllLoadable(file, headers) && i < |headers| && headers[i].load
    ensures LoadAll(s, file, headers, 0) != Err(Panicked)
    ensures LoadAll(s, file, headers, 0).Ok? ==> SegmentImage(LoadAll(s, file, headers, 0).value.0, file, headers[i])
  {
    LoadAllKeeps(s, file, headers, 0, 0, 0);
    var h := headers[i];
    assert Loadable(file, h);
    hide LoadAll, Valid, Sees, EachLoadable, Outside, InSegment;
    if LoadAll(s, file, headers, 0).Ok? {
      var s' := LoadAll(s, file, headers, 0).value.0;
      forall va | h.vaddr <= va < h.vaddr + h.memz ensures Sees(s', va, Expected(file, h, va)) {
        MemorySpared(file, headers, i, va);
        LoadAllDelivers(s, file, headers, 0, i, va);
      }
    }
  }

  /** The program break is the end of the last LOAD segment. */
  lemma {:induction false} BreakIsLast(s: Space, file: seq<Byte>, headers: seq<Segment>, brk: nat, i: nat)
    requires i < |headers| && headers[i].load && forall j :: i < j < |headers| ==> !headers[j].load
    requires LoadAll(s, file, headers, brk).Ok?
    ensures LoadAll(s, file, headers, brk).value.1 == headers[i].vaddr + headers[i].memz
    decreases |headers|
  {
    hide LoadSegment;
    var h := headers[0];
    if i == 0 {
      NoMoreLoads(LoadSegment(s, file, h).value, file, headers[1..], h.vaddr + h.memz);
    } else if h.load {
      BreakIsLast(LoadSegment(s, file, h).value, file, headers[1..], h.vaddr + h.memz, i - 1);
    } else {
      BreakIsLast(s, file, headers[1..], brk, i - 1);
    }
  }

  lemma {:induction false} NoMoreLoads(s: Space, file: seq<Byte>, headers: seq<Segment>, brk: nat)
    requires forall j :: 0 <= j < |headers| ==> !headers[j].load
    ensures LoadAll(s, file, headers, brk) == Ok((s, brk))
    decreases |headers|
  {
    if headers != [] { NoMoreLoads(s, file, headers[1..], brk); }
  }
}
