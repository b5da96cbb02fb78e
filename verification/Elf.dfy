/** kernel/elf.c: checking an executable and loading its segments into a new address space. */
module Elf {
  import opened VmState
  import opened VmSpec
  import opened VmView
  import opened VmKernel
  import opened VmScarce

  const WORD: nat := 0x1_0000_0000
  const HEADER_SIZE: nat := 52
  const PH_SIZE: nat := 32
  const MAX_SEGMENTS: nat := 8
  const MAX_IMAGE: nat := 8192
  const MAX_MEMORY: nat := 65536
  const LOAD_MIN: nat := 0x4000_0000
  const LOAD_MAX: nat := 0x9000_0000
  /** The entries of the rollback arrays: ELF_MAX_LOAD_MEMORY_SIZE / FRAME_SIZE + 1. */
  const ROLLBACK: nat := 17

  function U16(f: seq<Byte>, at: nat): (r: nat)
    requires at + 2 <= |f|
    ensures r < 0x1_0000
  {
    (f[at] as nat) + 0x100 * (f[at + 1] as nat)
  }

  function U32(f: seq<Byte>, at: nat): (r: nat)
    requires at + 4 <= |f|
    ensures r < WORD
  {
    (f[at] as nat) + 0x100 * (f[at + 1] as nat) + 0x1_0000 * (f[at + 2] as nat) + 0x100_0000 * (f[at + 3] as nat)
  }

  /** 32-bit unsigned addition. */
  function Add(a: nat, b: nat): nat { (a + b) % WORD }

  predicate AddOverflows(a: nat, b: nat) { Add(a, b) < a }

  /** range_inside_file */
  predicate InsideFile(offset: nat, size: nat, fileSize: nat) {
    !AddOverflows(offset, size) && Add(offset, size) <= fileSize
  }

  /** range_inside_user_space */
  predicate InsideUserSpace(start: nat, size: nat) {
    size != 0 && !AddOverflows(start, size) && start >= LOAD_MIN && Add(start, size) <= LOAD_MAX
  }

  /** The checks mean what they say although the machine's addition wraps. */
  lemma RangeChecks(a: nat, size: nat, fileSize: nat)
    requires a < WORD && size < WORD && fileSize < WORD
    ensures InsideFile(a, size, fileSize) <==> a + size <= fileSize
    ensures InsideUserSpace(a, size) <==> size > 0 && LOAD_MIN <= a && a + size <= LOAD_MAX
  {
  }

  function And(a: nat, b: nat): nat
    requires a < WORD && b < WORD
  {
    ((a as bv32) & (b as bv32)) as nat
  }

  datatype Segment = Segment(kind: nat, offset: nat, vaddr: nat, filesz: nat, memsz: nat, flags: nat, align: nat)

  predicate IsLoad(s: Segment) { s.kind == 1 }

  predicate Writable(s: Segment) { s.flags / 2 % 2 == 1 }

  ghost predicate Words(s: Segment) {
    s.offset < WORD && s.vaddr < WORD && s.filesz < WORD && s.memsz < WORD && s.align < WORD
  }

  /** validate_header */
  predicate HeaderValid(f: seq<Byte>) {
    && |f| >= HEADER_SIZE
    && f[..7] == [0x7F, 0x45, 0x4C, 0x46, 1, 1, 1]
    && U16(f, 16) == 2 && U16(f, 18) == 3 && U32(f, 20) == 1
    && U16(f, 40) == HEADER_SIZE && U16(f, 42) == PH_SIZE
    && 0 < U16(f, 44) <= MAX_SEGMENTS
    && InsideFile(U32(f, 28), U16(f, 44) * PH_SIZE, |f|)
  }

  function Count(f: seq<Byte>): nat
    requires HeaderValid(f)
  {
    U16(f, 44)
  }

  /** The program headers lie in the file. */
  lemma TableInFile(f: seq<Byte>)
    requires HeaderValid(f)
    ensures U32(f, 28) + PH_SIZE * Count(f) <= |f|
  {
  }

  function EntryPoint(f: seq<Byte>): nat
    requires HeaderValid(f)
  {
    U32(f, 24)
  }

  /** The i-th program header. */
  function SegmentAt(f: seq<Byte>, i: nat): (s: Segment)
    requires HeaderValid(f) && i < Count(f)
    ensures Words(s)
  {
    TableInFile(f);
    var at := U32(f, 28) + PH_SIZE * i;
    Segment(U32(f, at), U32(f, at + 4), U32(f, at + 8), U32(f, at + 16), U32(f, at + 20), U32(f, at + 24), U32(f, at + 28))
  }

  /** The word that these four bytes store, the lowest first. */
  ghost predicate Stores(f: seq<Byte>, at: nat, w: nat) {
    at + 4 <= |f| && w == f[at] as nat + f[at + 1] as nat * 256 + f[at + 2] as nat * 65536 + f[at + 3] as nat * 16777216
  }

  ghost predicate StoresHalf(f: seq<Byte>, at: nat, w: nat) {
    at + 2 <= |f| && w == f[at] as nat + f[at + 1] as nat * 256
  }

  /** A header is valid exactly if it is that of a 32-bit little-endian executable for the 80386, with
      one to eight program headers that lie in the file.  Its fields follow one another in the order
      of the ELF Header section of the TIS ELF specification. */
  lemma HeaderMeans(f: seq<Byte>)
    requires 52 <= |f| < WORD
    ensures var kind := 16; var machine := kind + 2; var version := machine + 2; var entry := version + 4;
      var phoff := entry + 4; var shoff := phoff + 4; var flags := shoff + 4; var ehsize := flags + 4;
      var phentsize := ehsize + 2; var phnum := phentsize + 2;
      && (HeaderValid(f) <==> exists table: nat, count: nat ::
            && f[0] == 0x7F && f[1] == 'E' as int && f[2] == 'L' as int && f[3] == 'F' as int && f[4] == 1 && f[5] == 1 && f[6] == 1
            && StoresHalf(f, kind, 2) && StoresHalf(f, machine, 3) && Stores(f, version, 1)
            && StoresHalf(f, ehsize, 52) && StoresHalf(f, phentsize, 32)
            && Stores(f, phoff, table) && StoresHalf(f, phnum, count) && 1 <= count <= 8 && table + 32 * count <= |f|)
      && (HeaderValid(f) ==> Stores(f, entry, EntryPoint(f)) && StoresHalf(f, phnum, Count(f)))
  {
    assert Stores(f, 28, U32(f, 28)) && StoresHalf(f, 44, U16(f, 44));
    RangeChecks(U32(f, 28), U16(f, 44) * PH_SIZE, |f|);
  }

  ghost predicate StoresSegment(f: seq<Byte>, at: nat, s: Segment) {
    var offset := at + 4; var vaddr := offset + 4; var paddr := vaddr + 4; var filesz := paddr + 4;
    var memsz := filesz + 4; var flags := memsz + 4; var align := flags + 4;
    && Stores(f, at, s.kind) && Stores(f, offset, s.offset) && Stores(f, vaddr, s.vaddr) && Stores(f, filesz, s.filesz)
    && Stores(f, memsz, s.memsz) && Stores(f, flags, s.flags) && Stores(f, align, s.align)
  }

  /** The fields of a program header follow one another in the order of the Program Header section. */
  lemma SegmentMeans(f: seq<Byte>, i: nat)
    requires HeaderValid(f) && i < Count(f)
    ensures exists table: nat :: Stores(f, 28, table) && StoresSegment(f, table + 32 * i, SegmentAt(f, i))
  {
    TableInFile(f);
    assert Stores(f, 28, U32(f, 28));
  }

  /** validate_segment */
  predicate SegmentValid(s: Segment, fileSize: nat)
    requires s.offset < WORD && s.vaddr < WORD && s.filesz < WORD && s.memsz < WORD && s.align < WORD
  {
    !IsLoad(s) ||
    (&& s.memsz != 0 && s.filesz <= s.memsz && s.memsz <= MAX_MEMORY
     && InsideFile(s.offset, s.filesz, fileSize)
     && InsideUserSpace(s.vaddr, s.memsz)
     && (s.align == 0 || And(s.align, s.align - 1) == 0)
     && (s.align > 1 ==> And(s.vaddr, s.align - 1) == And(s.offset, s.align - 1)))
  }

  /** What a valid PT_LOAD segment promises. */
  ghost predicate Placeable(s: Segment, fileSize: nat) {
    && 0 < s.memsz <= MAX_MEMORY && s.filesz <= s.memsz && s.offset + s.filesz <= fileSize
    && LOAD_MIN <= s.vaddr && s.vaddr + s.memsz <= LOAD_MAX
  }

  lemma ValidIsPlaceable(s: Segment, fileSize: nat)
    requires Words(s) && IsLoad(s) && SegmentValid(s, fileSize) && fileSize < WORD
    ensures Placeable(s, fileSize)
  {
    RangeChecks(s.offset, s.filesz, fileSize);
    RangeChecks(s.vaddr, s.memsz, fileSize);
  }

  /** A segment is valid exactly if it is not to be loaded, or lies in the file and in the load range,
      is not empty and not larger than 64 KiB, and has an alignment that the machine's bits allow. */
  lemma SegmentValidIff(s: Segment, fileSize: nat)
    requires Words(s) && fileSize < WORD
    ensures SegmentValid(s, fileSize) <==>
      (s.kind == 1 ==>
         && s.filesz <= s.memsz && 0 < s.memsz <= 65536 && s.offset + s.filesz <= fileSize
         && 0x4000_0000 <= s.vaddr && s.vaddr + s.memsz <= 0x9000_0000
         && (s.align > 0 ==> And(s.align, s.align - 1) == 0)
         && (s.align > 1 ==> And(s.vaddr, s.align - 1) == And(s.offset, s.align - 1)))
  {
    hide And;
    RangeChecks(s.offset, s.filesz, fileSize);
    RangeChecks(s.vaddr, s.memsz, fileSize);
  }

  /** align_down(vaddr) and align_up(vaddr + memsz), as page numbers. */
  function FirstPage(s: Segment): nat { s.vaddr / 4096 }

  function EndOfPages(s: Segment): nat { (s.vaddr + s.memsz + 4095) / 4096 }

  /** A segment of at most 64 KiB touches at most 17 pages, aligned or not, all of them below
      the heap. */
  lemma PagesOfSegment(s: Segment, fileSize: nat)
    requires Placeable(s, fileSize)
    ensures 0x40000 <= FirstPage(s) < EndOfPages(s) <= 0x90000 && EndOfPages(s) - FirstPage(s) <= ROLLBACK
    ensures forall a :: s.vaddr <= a < s.vaddr + s.memsz ==> FirstPage(s) <= PageNumber(a) < EndOfPages(s)
  {
  }

  /** The pages of a segment are those with a byte of it. */
  lemma PagesMean(s: Segment, v: nat)
    requires s.memsz > 0
    ensures FirstPage(s) <= v < EndOfPages(s) <==> exists a: nat :: s.vaddr <= a < s.vaddr + s.memsz && PageNumber(a) == v
  {
    if FirstPage(s) <= v < EndOfPages(s) {
      var a := if v * 4096 < s.vaddr then s.vaddr else v * 4096;
      assert s.vaddr <= a < s.vaddr + s.memsz && PageNumber(a) == v;
    }
  }

  // ---------- which files are accepted ----------

  /** Segments overlap exactly if some page has bytes of both. */
  lemma OverlapMeans(s: Segment, t: Segment)
    requires s.memsz > 0 && t.memsz > 0
    ensures Overlap(s, t) <==> exists v: nat :: Covers(s, v) && Covers(t, v)
  {
    if Overlap(s, t) {
      var v := if FirstPage(s) < FirstPage(t) then FirstPage(t) else FirstPage(s);
      assert Covers(s, v) && Covers(t, v);
    }
  }

  /** Exactly the program headers of kind PT_LOAD are loaded. */
  lemma {:induction false} LoadsMean(f: seq<Byte>, n: nat, s: Segment)
    requires HeaderValid(f) && n <= Count(f)
    ensures s in Loads(f, n) <==> s.kind == 1 && exists i :: 0 <= i < n && SegmentAt(f, i) == s
  {
    hide HeaderValid, SegmentAt, Count;
    if n > 0 {
      LoadsMean(f, n - 1, s);
      if s.kind == 1 && SegmentAt(f, n - 1) == s {
        assert s in Loads(f, n);
      }
    }
  }

  /** ranges_overlap, on page numbers. */
  predicate Overlap(s: Segment, t: Segment) {
    FirstPage(s) < EndOfPages(t) && FirstPage(t) < EndOfPages(s)
  }

  /** The PT_LOAD segments among the first n program headers. */
  ghost function Loads(f: seq<Byte>, n: nat): seq<Segment>
    requires HeaderValid(f) && n <= Count(f)
  {
    if n == 0 then []
    else Loads(f, n - 1) + if IsLoad(SegmentAt(f, n - 1)) then [SegmentAt(f, n - 1)] else []
  }

  ghost function Memory(segs: seq<Segment>): nat {
    if segs == [] then 0 else Memory(segs[..|segs| - 1]) + segs[|segs| - 1].memsz
  }

  /** Pages of different segments are different. */
  ghost predicate Apart(segs: seq<Segment>) {
    forall i, j :: 0 <= i < j < |segs| ==> !Overlap(segs[j], segs[i])
  }

  ghost predicate AllValid(f: seq<Byte>, n: nat)
    requires HeaderValid(f) && n <= Count(f)
  {
    forall i :: 0 <= i < n ==> SegmentValid(SegmentAt(f, i), |f|)
  }

  /** The entry point lies between the lowest and the highest loaded address. */
  ghost predicate EntryInside(segs: seq<Segment>, entry: nat) {
    && (exists i :: 0 <= i < |segs| && segs[i].vaddr <= entry)
    && (exists i :: 0 <= i < |segs| && entry < segs[i].vaddr + segs[i].memsz)
  }

  /** The files that elf_load_from_vfs accepts. */
  ghost predicate Loadable(f: seq<Byte>) {
    && HeaderValid(f) && AllValid(f, Count(f))
    && var segs := Loads(f, Count(f));
       Apart(segs) && Memory(segs) <= MAX_MEMORY && segs != [] && EntryInside(segs, EntryPoint(f))
  }

  /** A file is accepted exactly if its header and segments are valid, no page has bytes of two
      segments, they have at most 64 KiB together, and the entry point lies between the first and the
      last byte of those that are loaded. */
  lemma LoadableIff(f: seq<Byte>)
    requires HeaderValid(f)
    ensures var segs := Loads(f, Count(f));
      Loadable(f) <==>
        && (forall i :: 0 <= i < Count(f) ==> SegmentValid(SegmentAt(f, i), |f|))
        && (forall i, j, v: nat :: 0 <= i < j < |segs| ==> !(Covers(segs[i], v) && Covers(segs[j], v)))
        && Memory(segs) <= 65536 && segs != []
        && (exists i :: 0 <= i < |segs| && segs[i].vaddr <= EntryPoint(f))
        && (exists i :: 0 <= i < |segs| && EntryPoint(f) < segs[i].vaddr + segs[i].memsz)
  {
    var segs := Loads(f, Count(f));
    hide HeaderValid, SegmentAt, Count, EntryPoint, Loads;
    if AllValid(f, Count(f)) {
      forall i | 0 <= i < |segs|
        ensures segs[i].memsz > 0
      {
        LoadsMean(f, Count(f), segs[i]);
      }
      hide AllValid, SegmentValid, Overlap, Covers;
      forall i, j | 0 <= i < j < |segs|
        ensures Overlap(segs[j], segs[i]) <==> exists v: nat :: Covers(segs[i], v) && Covers(segs[j], v)
      {
        OverlapMeans(segs[j], segs[i]);
      }
    }
  }

  /** The memory of segments adds up. */
  lemma MemoryMeans(segs: seq<Segment>, s: Segment)
    ensures Memory([]) == 0 && Memory(segs + [s]) == Memory(segs) + s.memsz
  {
    assert (segs + [s])[..|segs|] == segs;
  }

  lemma {:induction false} LoadsPlaceable(f: seq<Byte>, n: nat)
    requires HeaderValid(f) && n <= Count(f) && AllValid(f, n) && |f| < WORD
    ensures forall k :: 0 <= k < |Loads(f, n)| ==> Placeable(Loads(f, n)[k], |f|)
    ensures |Loads(f, n)| <= n
  {
    if n > 0 {
      LoadsPlaceable(f, n - 1);
      if IsLoad(SegmentAt(f, n - 1)) {
        ValidIsPlaceable(SegmentAt(f, n - 1), |f|);
      }
    }
  }

  /** The first pass of elf_load_from_vfs. */
  method Plan(f: seq<Byte>) returns (ok: bool, segs: seq<Segment>, loadStart: nat, loadEnd: nat)
    requires |f| <= MAX_IMAGE
    ensures ok <==> Loadable(f)
    ensures ok ==> segs == Loads(f, Count(f))
  {
    hide HeaderValid, SegmentAt, SegmentValid, Count, EntryPoint, Bounds, EntryInside, Apart, AllValid;
    segs, loadStart, loadEnd := [], 0xFFFF_FFFF, 0;
    if !HeaderValid(f) {
      return false, [], 0, 0;
    }
    PlanNone(f);
    var i, memory := 0, 0;
    while i < Count(f)
      invariant 0 <= i <= Count(f) && Planned(f, i, segs, memory, loadStart, loadEnd)
    {
      hide HeaderValid, Count, Loadable, Planned;
      ok, segs, memory, loadStart, loadEnd := PlanStep(f, i, segs, memory, loadStart, loadEnd);
      if !ok {
        return;
      }
      i := i + 1;
    }
    BoundsEntry(segs, loadStart, loadEnd, EntryPoint(f));
    ok := segs != [] && loadStart <= EntryPoint(f) < loadEnd;
  }

  /** What is known after the first n program headers have been accepted. */
  ghost predicate Planned(f: seq<Byte>, n: nat, segs: seq<Segment>, memory: nat, loadStart: nat, loadEnd: nat)
    requires HeaderValid(f) && n <= Count(f)
  {
    && segs == Loads(f, n) && AllValid(f, n) && Apart(segs)
    && memory == Memory(segs) <= MAX_MEMORY && Bounds(segs, loadStart, loadEnd)
  }

  lemma PlanNone(f: seq<Byte>)
    requires HeaderValid(f)
    ensures Planned(f, 0, [], 0, 0xFFFF_FFFF, 0)
  {
  }

  /** One round of the first pass. */
  method PlanStep(f: seq<Byte>, i: nat, segs: seq<Segment>, memory: nat, loadStart: nat, loadEnd: nat)
    returns (ok: bool, segs2: seq<Segment>, memory2: nat, loadStart2: nat, loadEnd2: nat)
    requires |f| <= MAX_IMAGE && HeaderValid(f) && i < Count(f) && Planned(f, i, segs, memory, loadStart, loadEnd)
    ensures ok ==> Planned(f, i + 1, segs2, memory2, loadStart2, loadEnd2)
    ensures !ok ==> !Loadable(f)
  {
    hide HeaderValid, SegmentAt, SegmentValid, Count, EntryPoint, Bounds, EntryInside, Apart, Overlap, Placeable;
    segs2, memory2, loadStart2, loadEnd2 := segs, memory, loadStart, loadEnd;
    var s := SegmentAt(f, i);
    if !SegmentValid(s, |f|) {
      return false, segs, memory, loadStart, loadEnd;
    }
    if IsLoad(s) {
      var clash := Clashes(segs, s);
      LoadsStep(f, i, s, clash);
      if clash || s.memsz > MAX_MEMORY - memory {
        Rejected(f, i);
        return false, segs, memory, loadStart, loadEnd;
      }
      BoundsStep(segs, s, loadStart, loadEnd);
      memory2 := memory + s.memsz;
      loadStart2 := if s.vaddr < loadStart then s.vaddr else loadStart;
      loadEnd2 := if s.vaddr + s.memsz > loadEnd then s.vaddr + s.memsz else loadEnd;
      segs2 := segs + [s];
    }
    ok := true;
  }

  method Clashes(segs: seq<Segment>, s: Segment) returns (clash: bool)
    ensures clash <==> exists j :: 0 <= j < |segs| && Overlap(s, segs[j])
  {
    for j := 0 to |segs|
      invariant forall k :: 0 <= k < j ==> !Overlap(s, segs[k])
    {
      if Overlap(s, segs[j]) {
        return true;
      }
    }
    return false;
  }

  /** The lowest and the highest address of the segments so far. */
  ghost predicate Bounds(segs: seq<Segment>, loadStart: nat, loadEnd: nat) {
    && (forall i :: 0 <= i < |segs| ==> loadStart <= segs[i].vaddr && segs[i].vaddr + segs[i].memsz <= loadEnd)
    && (segs == [] ==> loadStart == 0xFFFF_FFFF && loadEnd == 0)
    && (segs != [] ==>
          && (exists i :: 0 <= i < |segs| && segs[i].vaddr == loadStart)
          && (exists i :: 0 <= i < |segs| && segs[i].vaddr + segs[i].memsz == loadEnd))
  }

  lemma LoadsStep(f: seq<Byte>, i: nat, s: Segment, clash: bool)
    requires HeaderValid(f) && i < Count(f) && s == SegmentAt(f, i) && IsLoad(s) && SegmentValid(s, |f|) && |f| <= MAX_IMAGE
    requires Apart(Loads(f, i)) && (clash <==> exists j :: 0 <= j < |Loads(f, i)| && Overlap(s, Loads(f, i)[j]))
    ensures Loads(f, i + 1) == Loads(f, i) + [s] && Memory(Loads(f, i + 1)) == Memory(Loads(f, i)) + s.memsz
    ensures Apart(Loads(f, i + 1)) <==> !clash
    ensures s.vaddr < 0xFFFF_FFFF && s.memsz > 0
  {
    ValidIsPlaceable(s, |f|);
    hide HeaderValid, SegmentAt, Count, Overlap, SegmentValid;
    var segs, segs2 := Loads(f, i), Loads(f, i + 1);
    assert segs2[..|segs|] == segs && segs2[|segs|] == s;
    if clash {
      var j :| 0 <= j < |segs| && Overlap(s, segs[j]);
      assert Overlap(segs2[|segs|], segs2[j]);
    }
  }

  lemma BoundsStep(segs: seq<Segment>, s: Segment, loadStart: nat, loadEnd: nat)
    requires Bounds(segs, loadStart, loadEnd) && s.vaddr < 0xFFFF_FFFF && s.memsz > 0
    ensures Bounds(segs + [s], if s.vaddr < loadStart then s.vaddr else loadStart,
                   if s.vaddr + s.memsz > loadEnd then s.vaddr + s.memsz else loadEnd)
  {
    var segs2 := segs + [s];
    assert segs2[|segs|] == s;
    assert forall i :: 0 <= i < |segs| ==> segs2[i] == segs[i];
  }

  lemma BoundsEntry(segs: seq<Segment>, loadStart: nat, loadEnd: nat, entry: nat)
    requires Bounds(segs, loadStart, loadEnd)
    ensures segs != [] ==> (EntryInside(segs, entry) <==> loadStart <= entry < loadEnd)
  {
  }

  /** A clash or an excess of memory among the first headers is one of the whole file. */
  lemma Rejected(f: seq<Byte>, i: nat)
    requires HeaderValid(f) && i < Count(f)
    requires !Apart(Loads(f, i + 1)) || Memory(Loads(f, i + 1)) > MAX_MEMORY
    ensures !Loadable(f)
  {
    LoadsGrow(f, i + 1, Count(f));
  }

  lemma {:induction false} LoadsGrow(f: seq<Byte>, i: nat, n: nat)
    requires HeaderValid(f) && i <= n <= Count(f)
    ensures Loads(f, i) <= Loads(f, n) && Memory(Loads(f, i)) <= Memory(Loads(f, n))
    ensures Apart(Loads(f, n)) ==> Apart(Loads(f, i))
    decreases n
  {
    hide HeaderValid, SegmentAt, Count, Overlap;
    if i < n {
      LoadsGrow(f, i, n - 1);
      var segs := Loads(f, n);
      if IsLoad(SegmentAt(f, n - 1)) {
        assert segs[..|segs| - 1] == Loads(f, n - 1);
      } else {
        assert segs == Loads(f, n - 1);
      }
    }
  }

  // ---------- the loaded image ----------

  /** The byte that a segment puts at an address: from the file, and zero past its end. */
  function ByteFor(f: seq<Byte>, s: Segment, a: nat): Byte
    requires s.vaddr <= a && s.offset + s.filesz <= |f|
  {
    if a - s.vaddr < s.filesz then f[s.offset + (a - s.vaddr)] else 0
  }

  function PageByte(f: seq<Byte>, s: Segment, v: nat, frame: Page, i: nat): Byte
    requires s.offset + s.filesz <= |f| && i < PAGE_SIZE
  {
    if s.vaddr <= v * 4096 + i < s.vaddr + s.memsz then ByteFor(f, s, v * 4096 + i) else frame[i]
  }

  /** A page of the segment; what the frame held before stays around the segment. */
  function SegmentPage(f: seq<Byte>, s: Segment, v: nat, frame: Page): (p: Page)
    requires s.offset + s.filesz <= |f|
    ensures forall i :: 0 <= i < PAGE_SIZE && s.vaddr <= v * 4096 + i < s.vaddr + s.memsz ==> p[i] == ByteFor(f, s, v * 4096 + i)
  {
    seq(PAGE_SIZE, i requires 0 <= i < PAGE_SIZE => PageByte(f, s, v, frame, i))
  }

  /** Page v of the image is a page of the segment with its protection. */
  ghost predicate PageLoaded(im: Image, f: seq<Byte>, s: Segment, v: nat)
    requires s.offset + s.filesz <= |f|
  {
    && v in im.mem && v in im.grant
    && im.grant[v] == (if Writable(s) then ReadWrite else ReadOnly)
    && forall i :: 0 <= i < PAGE_SIZE && s.vaddr <= v * 4096 + i < s.vaddr + s.memsz ==>
         im.mem[v][i] == ByteFor(f, s, v * 4096 + i)
  }

  /** The images differ at most in the pages from a to b. */
  ghost predicate Within(im: Image, im2: Image, a: nat, b: nat) {
    && im2.heapEnd == im.heapEnd && im2.mem.Keys == im.mem.Keys && im2.grant.Keys == im.grant.Keys
    && (forall v :: v in im.mem && !(a <= v < b) ==> im2.mem[v] == im.mem[v])
    && (forall v :: v in im.grant && !(a <= v < b) ==> im2.grant[v] == im.grant[v])
  }

  /** Nothing is mapped at the pages from a to b. */
  ghost predicate Vacant(im: Image, a: nat, b: nat) {
    forall v :: a <= v < b ==> v in im.mem && v in im.grant && im.grant[v] == NoAccess && im.mem[v] == ZeroPage()
  }

  lemma InstallWithin(im: Image, im2: Image, f: seq<Byte>, s: Segment, a: nat, v: nat, frame: Page)
    requires Placeable(s, |f|) && a <= v && Within(im, im2, a, v) && v in im.mem && v in im.grant
    requires forall w :: a <= w < v ==> PageLoaded(im2, f, s, w)
    ensures var im3 := Installed(im2, v, SegmentPage(f, s, v, frame), Writable(s));
      Within(im, im3, a, v + 1) && forall w :: a <= w < v + 1 ==> PageLoaded(im3, f, s, w)
  {
    hide SegmentPage, ByteFor;
    var im3 := Installed(im2, v, SegmentPage(f, s, v, frame), Writable(s));
    forall w | a <= w < v
      ensures PageLoaded(im3, f, s, w)
    {
      assert PageLoaded(im2, f, s, w);
    }
  }

  lemma RemoveWithin(im: Image, im2: Image, v: nat, b: nat)
    requires Within(im, im2, v, b) && v < b && Vacant(im, v, b)
    ensures Within(im, Removed(im2, v), v + 1, b)
  {
  }

  lemma WithinNothing(im: Image, im2: Image, a: nat)
    requires Within(im, im2, a, a)
    ensures im2 == im
  {
    assert im2.mem == im.mem && im2.grant == im.grant;
  }

  // ---------- the second pass ----------

  /** Only the image of pid may have changed, and no other space was touched. */
  ghost predicate OnlyImage(ims: map<nat, Image>, ims2: map<nat, Image>, pid: nat) {
    pid in ims && pid in ims2 && ims2 == ims[pid := ims2[pid]]
  }

  /** The segment's pages up to v are in place. */
  ghost predicate Loading(ims: map<nat, Image>, ims2: map<nat, Image>, pid: nat, f: seq<Byte>, s: Segment, v: nat)
    requires s.offset + s.filesz <= |f|
  {
    && OnlyImage(ims, ims2, pid) && Within(ims[pid], ims2[pid], FirstPage(s), v)
    && forall w :: FirstPage(s) <= w < v ==> PageLoaded(ims2[pid], f, s, w)
  }

  lemma LoadingStart(ims: map<nat, Image>, pid: nat, f: seq<Byte>, s: Segment)
    requires pid in ims && s.offset + s.filesz <= |f|
    ensures Loading(ims, ims, pid, f, s, FirstPage(s))
  {
  }

  lemma LoadingMore(ims: map<nat, Image>, ims2: map<nat, Image>, pid: nat, f: seq<Byte>, s: Segment, v: nat, frame: Page)
    requires Placeable(s, |f|) && FirstPage(s) <= v < EndOfPages(s) && Loading(ims, ims2, pid, f, s, v)
    requires Vacant(ims[pid], FirstPage(s), EndOfPages(s))
    ensures Loading(ims, ims2[pid := Installed(ims2[pid], v, SegmentPage(f, s, v, frame), Writable(s))], pid, f, s, v + 1)
  {
    hide SegmentPage, Installed, Within, PageLoaded;
    InstallWithin(ims[pid], ims2[pid], f, s, FirstPage(s), v, frame);
  }

  /** The kernel in the middle of loading a segment; `s0` and `ims` are what there was before. */
  ghost predicate Midway(k: Kernel, pid: nat, f: seq<Byte>, s: Segment, v: nat, ims: map<nat, Image>, s0: State)
    reads k, k.m
  {
    && k.Valid() && pid in k.procs && Placeable(s, |f|) && FirstPage(s) <= v <= EndOfPages(s)
    && WellShaped(s0) && Kept(s0, k.m.S(), k.procs[pid].cr3) && pid in ims
    && Loading(ims, k.Images(), pid, f, s, v) && Vacant(ims[pid], FirstPage(s), EndOfPages(s))
  }

  lemma MidwayBounds(k: Kernel, pid: nat, f: seq<Byte>, s: Segment, v: nat, ims: map<nat, Image>, s0: State)
    requires Midway(k, pid, f, s, v, ims, s0)
    ensures Placeable(s, |f|) && FirstPage(s) <= v <= EndOfPages(s) && EndOfPages(s) - FirstPage(s) <= ROLLBACK
    ensures 0x40000 <= FirstPage(s) && EndOfPages(s) <= 0x90000
  {
    hide Inv, Kept, ImageOf, Running, Loading, Vacant;
    PagesOfSegment(s, |f|);
  }

  /** One page of map_segment_pages, filled and protected. */
  method LoadPage(k: Kernel, pid: nat, f: seq<Byte>, s: Segment, v: nat, ghost ims: map<nat, Image>, ghost s0: State) returns (ok: bool)
    requires Midway(k, pid, f, s, v, ims, s0) && v < EndOfPages(s)
    modifies k.m`bitmap, k.m`refs, k.m`used, k.m`failAfter, k.m`pinned, k.m`tables, k.m`pages
    ensures Midway(k, pid, f, s, if ok then v + 1 else v, ims, s0)
    ensures ok ==> AtMost(old(k.m.bitmap), old(k.m.failAfter), k.m.bitmap, k.m.failAfter, 2)
    ensures !ok ==> Short(old(k.m.bitmap), old(k.m.failAfter), 2)
  {
    hide AtMost, Short, PageShort, Exact, InRange, Exclusive, Tallied, KernelOk, LayoutOk, Unshared, ImageOf, Running, SpacesOf,
         SegmentPage, Loading, Installed, Vacant, Kept, FirstPage, EndOfPages;
    PagesOfSegment(s, |f|);
    var frame: Page := *;
    ghost var s1 := k.m.S();
    LoadingMore(ims, k.Images(), pid, f, s, v, frame);
    StillVacant(ims, k.Images(), pid, f, s, v);
    if !Short(s1.bitmap, k.m.failAfter, 2) {
      EnoughForPage(s1, k.procs[pid].cr3, DirIndex(v), k.m.failAfter);
    }
    var mapped;
    ok, mapped := k.InstallPage(pid, v, SegmentPage(f, s, v, frame), Writable(s));
    if ok {
      KeptTrans(s0, s1, k.m.S(), k.procs[pid].cr3);
    }
  }

  /** The pages that a segment is still to get are free. */
  lemma StillVacant(ims: map<nat, Image>, ims2: map<nat, Image>, pid: nat, f: seq<Byte>, s: Segment, v: nat)
    requires pid in ims && Placeable(s, |f|) && Loading(ims, ims2, pid, f, s, v) && FirstPage(s) <= v < EndOfPages(s)
    requires Vacant(ims[pid], FirstPage(s), EndOfPages(s))
    ensures pid in ims2 && v in ims2[pid].grant && ims2[pid].grant[v] == NoAccess
  {
    hide PageLoaded, FirstPage, EndOfPages;
  }

  /** The pages of a segment. */
  function PagesOf(s: Segment): nat { if FirstPage(s) <= EndOfPages(s) then EndOfPages(s) - FirstPage(s) else 0 }

  /** The pages of all the segments. */
  ghost function PagesNeeded(segs: seq<Segment>): nat {
    if segs == [] then 0 else PagesNeeded(segs[..|segs| - 1]) + PagesOf(segs[|segs| - 1])
  }

  lemma KeptSelf(s: State, d: nat)
    requires Inv(s)
    ensures Kept(s, s, d)
  {
    hide Exact, InRange, Exclusive, Tallied;
  }

  /** map_segment_pages, the copy and protect_segment_pages.  The pages mapped so far are kept in
      an array of 17 entries, and are taken out again if one cannot be had. */
  method LoadSegment(k: Kernel, pid: nat, f: seq<Byte>, s: Segment) returns (ok: bool)
    requires k.Valid() && pid in k.procs && Placeable(s, |f|)
    requires Vacant(k.Images()[pid], FirstPage(s), EndOfPages(s))
    modifies k.m`bitmap, k.m`refs, k.m`used, k.m`failAfter, k.m`pinned, k.m`tables, k.m`pages
    ensures k.Valid() && k.m.pinned == old(k.m.pinned) && Kept(old(k.m.S()), k.m.S(), k.procs[pid].cr3)
    ensures ok ==> Loading(old(k.Images()), k.Images(), pid, f, s, EndOfPages(s))
    ensures !ok ==> k.Images() == old(k.Images())
    ensures ok ==> AtMost(old(k.m.bitmap), old(k.m.failAfter), k.m.bitmap, k.m.failAfter, 2 * PagesOf(s))
    ensures !ok ==> Short(old(k.m.bitmap), old(k.m.failAfter), 2 * PagesOf(s))
  {
    hide AtMost, Short, PagesOf, Exact, InRange, Exclusive, Tallied, KernelOk, LayoutOk, Unshared, ImageOf, Running, SpacesOf, Loading, Vacant, Kept,
         FirstPage, EndOfPages;
    ghost var ims, s0, d := k.Images(), k.m.S(), k.procs[pid].cr3;
    LoadingStart(ims, pid, f, s);
    KeptSelf(s0, d);
    PagesOfSegment(s, |f|);
    ok := LoadPages(k, pid, f, s, ims, s0);
    assert k.m.pinned == s0.pinned by {
      KeptPins(s0, k.m.S(), d);
    }
    if !ok {
      LoadingNothing(ims, k.Images(), pid, f, s);
    }
  }

  lemma KeptPins(s: State, s2: State, d: nat)
    requires WellShaped(s) && WellShaped(s2) && Kept(s, s2, d)
    ensures s2.pinned == s.pinned
  {
    hide WellShaped;
  }

  lemma LoadingNothing(ims: map<nat, Image>, ims2: map<nat, Image>, pid: nat, f: seq<Byte>, s: Segment)
    requires s.offset + s.filesz <= |f| && Loading(ims, ims2, pid, f, s, FirstPage(s))
    ensures ims2 == ims
  {
    hide PageLoaded;
    WithinNothing(ims[pid], ims2[pid], FirstPage(s));
    assert ims2 == ims[pid := ims2[pid]];
  }

  method LoadPages(k: Kernel, pid: nat, f: seq<Byte>, s: Segment, ghost ims: map<nat, Image>, ghost s0: State) returns (ok: bool)
    requires Midway(k, pid, f, s, FirstPage(s), ims, s0)
    modifies k.m`bitmap, k.m`refs, k.m`used, k.m`failAfter, k.m`pinned, k.m`tables, k.m`pages
    ensures Midway(k, pid, f, s, if ok then EndOfPages(s) else FirstPage(s), ims, s0)
    ensures ok ==> AtMost(old(k.m.bitmap), old(k.m.failAfter), k.m.bitmap, k.m.failAfter, 2 * PagesOf(s))
    ensures !ok ==> Short(old(k.m.bitmap), old(k.m.failAfter), 2 * PagesOf(s))
  {
    hide AtMost, Short, Midway, Placeable, FirstPage, EndOfPages;
    ghost var b0, fa0 := k.m.bitmap, k.m.failAfter;
    AtMostNone(b0, fa0, 0);
    MidwayBounds(k, pid, f, s, FirstPage(s), ims, s0);
    var mapped := new nat[ROLLBACK];
    var count, v := 0, FirstPage(s);
    while v < EndOfPages(s)
      invariant FirstPage(s) <= v <= EndOfPages(s) && count == v - FirstPage(s)
      invariant forall n :: 0 <= n < count ==> mapped[n] == FirstPage(s) + n
      invariant Midway(k, pid, f, s, v, ims, s0)
      invariant AtMost(b0, fa0, k.m.bitmap, k.m.failAfter, 2 * count)
    {
      hide AtMost, Short, Midway, Placeable, FirstPage, EndOfPages;
      ghost var b1, fa1 := k.m.bitmap, k.m.failAfter;
      ok := LoadPage(k, pid, f, s, v, ims, s0);
      if !ok {
        AtMostShort(b0, fa0, b1, fa1, 2 * count, 2);
        ShortMore(b0, fa0, 2 * count + 2, 2 * PagesOf(s));
        TakeOut(k, pid, f, s, mapped, count, ims, s0);
        return false;
      }
      AtMostMore(b0, fa0, b1, fa1, k.m.bitmap, k.m.failAfter, 2 * count, 2);
      mapped[count] := v;
      count := count + 1;
      v := v + 1;
    }
    ok := true;
  }

  /** The rollback of map_segment_pages. */
  method TakeOut(k: Kernel, pid: nat, f: seq<Byte>, s: Segment, mapped: array<nat>, count: nat, ghost ims: map<nat, Image>, ghost s0: State)
    requires Midway(k, pid, f, s, FirstPage(s) + count, ims, s0)
    requires count <= mapped.Length && forall n :: 0 <= n < count ==> mapped[n] == FirstPage(s) + n
    modifies k.m`bitmap, k.m`refs, k.m`used, k.m`tables
    ensures Midway(k, pid, f, s, FirstPage(s), ims, s0)
  {
    hide Midway, Retreat, FirstPage, EndOfPages;
    RetreatStart(k, pid, f, s, FirstPage(s) + count, ims, s0);
    for i := 0 to count
      invariant Retreat(k, pid, f, s, FirstPage(s) + i, FirstPage(s) + count, ims, s0)
    {
      hide Midway, Retreat, FirstPage, EndOfPages;
      TakeOutPage(k, pid, f, s, mapped[i], FirstPage(s) + count, ims, s0);
    }
    RetreatEnd(k, pid, f, s, FirstPage(s) + count, ims, s0);
  }

  /** The pages from v to b are still to be taken out. */
  ghost predicate Retreat(k: Kernel, pid: nat, f: seq<Byte>, s: Segment, v: nat, b: nat, ims: map<nat, Image>, s0: State)
    reads k, k.m
  {
    && k.Valid() && pid in k.procs && Placeable(s, |f|) && FirstPage(s) <= v <= b <= EndOfPages(s)
    && WellShaped(s0) && Kept(s0, k.m.S(), k.procs[pid].cr3) && pid in ims
    && Backing(ims, k.Images(), pid, v, b) && Vacant(ims[pid], FirstPage(s), EndOfPages(s))
  }

  ghost predicate Backing(ims: map<nat, Image>, ims2: map<nat, Image>, pid: nat, v: nat, b: nat) {
    OnlyImage(ims, ims2, pid) && Within(ims[pid], ims2[pid], v, b)
  }

  lemma BackingMore(ims: map<nat, Image>, ims2: map<nat, Image>, pid: nat, v: nat, b: nat)
    requires Backing(ims, ims2, pid, v, b) && v < b && Vacant(ims[pid], v, b)
    ensures Backing(ims, ims2[pid := Removed(ims2[pid], v)], pid, v + 1, b)
  {
    hide Within, Removed, Vacant;
    RemoveWithin(ims[pid], ims2[pid], v, b);
  }

  lemma RetreatStart(k: Kernel, pid: nat, f: seq<Byte>, s: Segment, v: nat, ims: map<nat, Image>, s0: State)
    requires Midway(k, pid, f, s, v, ims, s0)
    ensures Retreat(k, pid, f, s, FirstPage(s), v, ims, s0)
  {
    hide Exact, InRange, Exclusive, Tallied, KernelOk, LayoutOk, Unshared, ImageOf, Running, SpacesOf, Vacant, Kept, Within,
         PageLoaded, FirstPage, EndOfPages;
  }

  lemma RetreatEnd(k: Kernel, pid: nat, f: seq<Byte>, s: Segment, b: nat, ims: map<nat, Image>, s0: State)
    requires Retreat(k, pid, f, s, b, b, ims, s0)
    ensures Midway(k, pid, f, s, FirstPage(s), ims, s0)
  {
    hide Exact, InRange, Exclusive, Tallied, KernelOk, LayoutOk, Unshared, ImageOf, Running, SpacesOf, Vacant, Kept, Within,
         PageLoaded, FirstPage, EndOfPages, Loading;
    WithinNothing(ims[pid], k.Images()[pid], b);
    assert k.Images() == ims;
    LoadingStart(ims, pid, f, s);
  }

  method TakeOutPage(k: Kernel, pid: nat, ghost f: seq<Byte>, ghost s: Segment, v: nat, ghost b: nat, ghost ims: map<nat, Image>, ghost s0: State)
    requires Retreat(k, pid, f, s, v, b, ims, s0) && v < b
    modifies k.m`bitmap, k.m`refs, k.m`used, k.m`tables
    ensures Retreat(k, pid, f, s, v + 1, b, ims, s0)
  {
    hide Exact, InRange, Exclusive, Tallied, KernelOk, LayoutOk, Unshared, ImageOf, Running, SpacesOf, Removed, Kept, Backing, Vacant,
         FirstPage, EndOfPages;
    PagesOfSegment(s, |f|);
    ghost var s1 := k.m.S();
    VacantPart(ims[pid], FirstPage(s), EndOfPages(s), v, b);
    BackingMore(ims, k.Images(), pid, v, b);
    k.RemovePage(pid, v);
    KeptTrans(s0, s1, k.m.S(), k.procs[pid].cr3);
  }

  lemma VacantPart(im: Image, a: nat, b: nat, a2: nat, b2: nat)
    requires Vacant(im, a, b) && a <= a2 && b2 <= b
    ensures Vacant(im, a2, b2)
  {
  }

  // ---------- all segments ----------

  predicate Covers(s: Segment, v: nat) { FirstPage(s) <= v < EndOfPages(s) }

  ghost predicate AllPlaceable(segs: seq<Segment>, fileSize: nat) {
    forall k :: 0 <= k < |segs| ==> Placeable(segs[k], fileSize)
  }

  ghost predicate Covered(segs: seq<Segment>, n: nat, v: nat) {
    exists k :: 0 <= k < n && k < |segs| && Covers(segs[k], v)
  }

  /** The first n segments are in place, and every other page is what it was. */
  ghost predicate ImageLoaded(im: Image, im2: Image, f: seq<Byte>, segs: seq<Segment>, n: nat)
    requires AllPlaceable(segs, |f|)
  {
    && im2.heapEnd == im.heapEnd && im2.mem.Keys == im.mem.Keys && im2.grant.Keys == im.grant.Keys
    && (forall v :: v in im.mem && !Covered(segs, n, v) ==> im2.mem[v] == im.mem[v])
    && (forall v :: v in im.grant && !Covered(segs, n, v) ==> im2.grant[v] == im.grant[v])
    && (forall k, v :: 0 <= k < n && k < |segs| && Covers(segs[k], v) ==> PageLoaded(im2, f, segs[k], v))
  }

  /** The next segment finds its pages vacant, and loading it disturbs no earlier one. */
  lemma NextSegment(im: Image, im2: Image, im3: Image, f: seq<Byte>, segs: seq<Segment>, n: nat)
    requires AllPlaceable(segs, |f|) && Apart(segs) && n < |segs| && ImageLoaded(im, im2, f, segs, n)
    requires Within(im2, im3, FirstPage(segs[n]), EndOfPages(segs[n]))
    requires forall v :: FirstPage(segs[n]) <= v < EndOfPages(segs[n]) ==> PageLoaded(im3, f, segs[n], v)
    ensures ImageLoaded(im, im3, f, segs, n + 1)
  {
    hide PageLoaded, FirstPage, EndOfPages;
    assert Placeable(segs[n], |f|);
    forall v | v in im.mem && !Covered(segs, n + 1, v)
      ensures im3.mem[v] == im.mem[v]
    {
      NotCovered(segs, n, v);
    }
    forall v | v in im.grant && !Covered(segs, n + 1, v)
      ensures im3.grant[v] == im.grant[v]
    {
      NotCovered(segs, n, v);
    }
    forall k, v | 0 <= k < n + 1 && k < |segs| && Covers(segs[k], v)
      ensures PageLoaded(im3, f, segs[k], v)
    {
      if k < n {
        assert !Overlap(segs[n], segs[k]) && PageLoaded(im2, f, segs[k], v);
        PageCarries(im2, im3, f, segs[k], v);
      }
    }
  }

  lemma PageCarries(im: Image, im2: Image, f: seq<Byte>, s: Segment, v: nat)
    requires s.offset + s.filesz <= |f| && PageLoaded(im, f, s, v)
    requires v in im.mem && v in im.grant ==> v in im2.mem && v in im2.grant && im2.mem[v] == im.mem[v] && im2.grant[v] == im.grant[v]
    ensures PageLoaded(im2, f, s, v)
  {
  }

  lemma OnlyImageTrans(a: map<nat, Image>, b: map<nat, Image>, c: map<nat, Image>, pid: nat)
    requires OnlyImage(a, b, pid) && (OnlyImage(b, c, pid) || c == b)
    ensures OnlyImage(a, c, pid)
  {
  }

  lemma NotCovered(segs: seq<Segment>, n: nat, v: nat)
    requires n < |segs| && !Covered(segs, n + 1, v)
    ensures !Covered(segs, n, v) && !Covers(segs[n], v)
  {
  }

  lemma NextVacant(im: Image, im2: Image, f: seq<Byte>, segs: seq<Segment>, n: nat)
    requires AllPlaceable(segs, |f|) && Apart(segs) && n < |segs| && ImageLoaded(im, im2, f, segs, n)
    requires Vacant(im, 0x40000, 0x90000)
    ensures Vacant(im2, FirstPage(segs[n]), EndOfPages(segs[n]))
  {
    PagesOfSegment(segs[n], |f|);
    hide PageLoaded, FirstPage, EndOfPages, Placeable;
    forall v | FirstPage(segs[n]) <= v < EndOfPages(segs[n])
      ensures !Covered(segs, n, v)
    {
      forall k | 0 <= k < n
        ensures !Covers(segs[k], v)
      {
        assert !Overlap(segs[n], segs[k]);
      }
    }
  }

  /** The second pass of elf_load_from_vfs. */
  method LoadImage(k: Kernel, pid: nat, f: seq<Byte>, segs: seq<Segment>) returns (ok: bool)
    requires k.Valid() && pid in k.procs && AllPlaceable(segs, |f|) && Apart(segs)
    requires Vacant(k.Images()[pid], 0x40000, 0x90000)
    modifies k.m`bitmap, k.m`refs, k.m`used, k.m`failAfter, k.m`pinned, k.m`tables, k.m`pages
    ensures Progress(k, pid, old(k.Images()), old(k.m.S()))
    ensures ok ==> ImageLoaded(old(k.Images())[pid], k.Images()[pid], f, segs, |segs|)
    ensures ok ==> AtMost(old(k.m.bitmap), old(k.m.failAfter), k.m.bitmap, k.m.failAfter, 2 * PagesNeeded(segs))
    ensures !ok ==> Short(old(k.m.bitmap), old(k.m.failAfter), 2 * PagesNeeded(segs))
  {
    hide AtMost, Short, PagesNeeded, Exact, InRange, Exclusive, Tallied, KernelOk, LayoutOk, Unshared, ImageOf, Running, SpacesOf, Vacant, Kept, ImageLoaded, Apart, Placeable;
    ghost var ims, s0 := k.Images(), k.m.S();
    KeptSelf(s0, k.procs[pid].cr3);
    LoadedNone(ims[pid], f, segs);
    ok := LoadRest(k, pid, f, segs, ims, s0);
  }

  /** Only the image of pid has changed since `ims` and `s0`. */
  ghost predicate Progress(k: Kernel, pid: nat, ims: map<nat, Image>, s0: State)
    reads k, k.m
  {
    && k.Valid() && pid in k.procs && pid in ims && OnlyImage(ims, k.Images(), pid)
    && WellShaped(s0) && Kept(s0, k.m.S(), k.procs[pid].cr3)
  }

  ghost predicate Loaded(k: Kernel, pid: nat, f: seq<Byte>, segs: seq<Segment>, n: nat, ims: map<nat, Image>, s0: State)
    reads k, k.m
  {
    && Progress(k, pid, ims, s0) && AllPlaceable(segs, |f|) && Apart(segs) && Vacant(ims[pid], 0x40000, 0x90000)
    && ImageLoaded(ims[pid], k.Images()[pid], f, segs, n)
  }

  method LoadRest(k: Kernel, pid: nat, f: seq<Byte>, segs: seq<Segment>, ghost ims: map<nat, Image>, ghost s0: State) returns (ok: bool)
    requires Loaded(k, pid, f, segs, 0, ims, s0)
    modifies k.m`bitmap, k.m`refs, k.m`used, k.m`failAfter, k.m`pinned, k.m`tables, k.m`pages
    ensures Progress(k, pid, ims, s0) && (ok ==> Loaded(k, pid, f, segs, |segs|, ims, s0))
    ensures ok ==> AtMost(old(k.m.bitmap), old(k.m.failAfter), k.m.bitmap, k.m.failAfter, 2 * PagesNeeded(segs))
    ensures !ok ==> Short(old(k.m.bitmap), old(k.m.failAfter), 2 * PagesNeeded(segs))
  {
    hide Loaded, Progress, AtMost, Short;
    ghost var b0, fa0 := k.m.bitmap, k.m.failAfter;
    AtMostNone(b0, fa0, 0);
    assert segs[..0] == [];
    for n := 0 to |segs|
      invariant Loaded(k, pid, f, segs, n, ims, s0)
      invariant AtMost(b0, fa0, k.m.bitmap, k.m.failAfter, 2 * PagesNeeded(segs[..n]))
    {
      hide Loaded, Progress, AtMost, Short;
      ghost var b1, fa1 := k.m.bitmap, k.m.failAfter;
      NeededMore(segs, n);
      ok := LoadNext(k, pid, f, segs, n, ims, s0);
      if !ok {
        AtMostShort(b0, fa0, b1, fa1, 2 * PagesNeeded(segs[..n]), 2 * PagesOf(segs[n]));
        ShortMore(b0, fa0, 2 * PagesNeeded(segs[..n + 1]), 2 * PagesNeeded(segs));
        return false;
      }
      AtMostMore(b0, fa0, b1, fa1, k.m.bitmap, k.m.failAfter, 2 * PagesNeeded(segs[..n]), 2 * PagesOf(segs[n]));
    }
    assert segs[..|segs|] == segs;
    LoadedProgress(k, pid, f, segs, |segs|, ims, s0);
    ok := true;
  }

  lemma NeededMore(segs: seq<Segment>, n: nat)
    requires n < |segs|
    ensures PagesNeeded(segs[..n + 1]) == PagesNeeded(segs[..n]) + PagesOf(segs[n]) && PagesNeeded(segs[..n + 1]) <= PagesNeeded(segs)
  {
    hide PagesOf;
    assert segs[..n + 1][..n] == segs[..n];
    NeededPrefix(segs, n + 1);
  }

  lemma {:induction false} NeededPrefix(segs: seq<Segment>, n: nat)
    requires n <= |segs|
    ensures PagesNeeded(segs[..n]) <= PagesNeeded(segs)
    decreases |segs|
  {
    hide PagesOf;
    if n < |segs| {
      var shorter := segs[..|segs| - 1];
      assert shorter[..n] == segs[..n];
      NeededPrefix(shorter, n);
    } else {
      assert segs[..n] == segs;
    }
  }

  lemma LoadedProgress(k: Kernel, pid: nat, f: seq<Byte>, segs: seq<Segment>, n: nat, ims: map<nat, Image>, s0: State)
    requires Loaded(k, pid, f, segs, n, ims, s0)
    ensures Progress(k, pid, ims, s0)
  {
    hide Progress;
  }

  method LoadNext(k: Kernel, pid: nat, f: seq<Byte>, segs: seq<Segment>, n: nat, ghost ims: map<nat, Image>, ghost s0: State) returns (ok: bool)
    requires Loaded(k, pid, f, segs, n, ims, s0) && n < |segs|
    modifies k.m`bitmap, k.m`refs, k.m`used, k.m`failAfter, k.m`pinned, k.m`tables, k.m`pages
    ensures Progress(k, pid, ims, s0) && (ok ==> Loaded(k, pid, f, segs, n + 1, ims, s0))
    ensures ok ==> AtMost(old(k.m.bitmap), old(k.m.failAfter), k.m.bitmap, k.m.failAfter, 2 * PagesOf(segs[n]))
    ensures !ok ==> Short(old(k.m.bitmap), old(k.m.failAfter), 2 * PagesOf(segs[n]))
  {
    hide AtMost, Short, PagesOf, Exact, InRange, Exclusive, Tallied, KernelOk, LayoutOk, Unshared, ImageOf, Running, SpacesOf, Vacant, Kept, ImageLoaded, Apart,
         Within, PageLoaded, FirstPage, EndOfPages, Loading, OnlyImage;
    ghost var ims1, s1 := k.Images(), k.m.S();
    NextVacant(ims[pid], ims1[pid], f, segs, n);
    ok := LoadSegment(k, pid, f, segs[n]);
    KeptTrans(s0, s1, k.m.S(), k.procs[pid].cr3);
    if ok {
      LoadingImage(ims1, k.Images(), pid, f, segs[n]);
    }
    OnlyImageTrans(ims, ims1, k.Images(), pid);
    if ok {
      NextSegment(ims[pid], ims1[pid], k.Images()[pid], f, segs, n);
    }
  }

  lemma LoadingImage(ims: map<nat, Image>, ims2: map<nat, Image>, pid: nat, f: seq<Byte>, s: Segment)
    requires Placeable(s, |f|) && Loading(ims, ims2, pid, f, s, EndOfPages(s))
    ensures OnlyImage(ims, ims2, pid) && Within(ims[pid], ims2[pid], FirstPage(s), EndOfPages(s))
    ensures forall v :: FirstPage(s) <= v < EndOfPages(s) ==> PageLoaded(ims2[pid], f, s, v)
  {
    hide Within, PageLoaded;
  }

  lemma LoadedNone(im: Image, f: seq<Byte>, segs: seq<Segment>)
    requires AllPlaceable(segs, |f|)
    ensures ImageLoaded(im, im, f, segs, 0)
  {
  }

  /** The image that the Program Header section of the TIS ELF specification describes: every
      byte of a PT_LOAD segment is its byte of the file, or zero past filesz, and can be written
      exactly if the segment has PF_W. */
  lemma ImageRight(im: Image, im2: Image, f: seq<Byte>, segs: seq<Segment>, k: nat, a: nat)
    requires AllPlaceable(segs, |f|) && ImageLoaded(im, im2, f, segs, |segs|) && k < |segs|
    requires segs[k].vaddr <= a < segs[k].vaddr + segs[k].memsz
    ensures MayRead(im2, a) && Peek(im2, a) == ByteFor(f, segs[k], a)
    ensures Peek(im2, a) == if a < segs[k].vaddr + segs[k].filesz then f[segs[k].offset + a - segs[k].vaddr] else 0
    ensures MayWrite(im2, a) <==> segs[k].flags / 2 % 2 == 1
  {
    assert Placeable(segs[k], |f|);
    PagesOfSegment(segs[k], |f|);
    assert PageLoaded(im2, f, segs[k], PageNumber(a));
    assert a == PageNumber(a) * 4096 + PageOffset(a);
  }
}
