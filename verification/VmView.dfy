/** The image that a space presents through its page tables, and why the kernel's updates of
    shared tables and frames do not show in it. */
module VmView {
  import opened VmState
  import opened VmLemmas
  import opened VmSteps
  import opened VmClone
  import opened VmSpec

  datatype Proc = Proc(cr3: nat, heapStart: nat, heapEnd: nat)

  function DirIndex(v: nat): nat { v / 1024 }

  function TableIndex(v: nat): (j: nat)
    ensures j < ENTRIES
  {
    v % 1024
  }

  /** An address is ten bits of directory index, ten bits of table index and twelve bits of offset. */
  lemma AddressSplit(addr: nat)
    ensures addr == DirIndex(PageNumber(addr)) * 0x40_0000 + TableIndex(PageNumber(addr)) * 0x1000 + PageOffset(addr)
    ensures TableIndex(PageNumber(addr)) < 1024 && PageOffset(addr) < 4096
  {
  }

  ghost function EntryOf(s: State, d: nat, v: nat): Entry
    requires WellShaped(s)
  {
    Walk(s, d, DirIndex(v), TableIndex(v))
  }

  ghost function PageOf(s: State, d: nat, v: nat): Page
    requires WellShaped(s)
  {
    if UserLeaf(EntryOf(s, d, v)) && EntryOf(s, d, v).frame < |s.pages|
    then s.pages[EntryOf(s, d, v).frame]
    else ZeroPage()
  }

  ghost function GrantOf(s: State, d: nat, heapEnd: nat, v: nat): Access
    requires WellShaped(s)
  {
    var e := EntryOf(s, d, v);
    if UserLeaf(e) then (if e.writable || e.cow then ReadWrite else ReadOnly)
    else if HeapPage(v) && v < EndPage(heapEnd) then ReadWrite
    else NoAccess
  }

  ghost function ImageOf(s: State, p: Proc): (im: Image)
    requires WellShaped(s)
    ensures WellFormed(im) && im.heapEnd == p.heapEnd
  {
    Image(map v: nat | FIRST_PAGE <= v < LAST_PAGE :: PageOf(s, p.cr3, v),
          map v: nat | FIRST_PAGE <= v < LAST_PAGE :: GrantOf(s, p.cr3, p.heapEnd, v),
          p.heapEnd)
  }

  /** A process whose heap bounds and heap pages are as brk and demand mapping leave them, and whose
      guard page is not mapped. */
  ghost predicate ProcOk(s: State, p: Proc)
    requires WellShaped(s)
  {
    && p.cr3 in s.spaces
    && p.heapStart == HEAP_START <= p.heapEnd <= HEAP_LIMIT
    && (forall v: nat :: HeapPage(v) && UserLeaf(EntryOf(s, p.cr3, v)) ==>
          v < EndPage(p.heapEnd) && (EntryOf(s, p.cr3, v).writable || EntryOf(s, p.cr3, v).cow))
    && !UserLeaf(EntryOf(s, p.cr3, GUARD_PAGE))
  }

  /** Two states in which a process looks the same. */
  ghost predicate SameView(s: State, s2: State, p: Proc)
    requires WellShaped(s) && WellShaped(s2)
  {
    ProcOk(s2, p) && ImageOf(s2, p) == ImageOf(s, p)
  }

  /** A user entry of a live space maps a counted frame. */
  lemma MappedIsCounted(s: State, d: nat, v: nat)
    requires Inv(s) && d in s.spaces && UserLeaf(EntryOf(s, d, v))
    ensures var f := EntryOf(s, d, v).frame;
            && f < |s.refs| && s.refs[f] > 0
            && Holds(s, Leaf(d, DirIndex(v), TableIndex(v)), f)
  {
    UserEntryOwned(s, d, DirIndex(v), TableIndex(v));
    HeldIsCounted(s, Leaf(d, DirIndex(v), TableIndex(v)), EntryOf(s, d, v).frame);
  }

  /** An untouched space looks the same if only unreferenced pages were written. */
  lemma Undisturbed(s: State, s2: State, p: Proc)
    requires Inv(s) && WellShaped(s2) && ProcOk(s, p) && p.cr3 in s2.spaces
    requires SameSpace(s, s2, p.cr3) && |s2.pages| == |s.pages|
    requires forall f :: 0 <= f < |s.pages| && s.refs[f] > 0 ==> s2.pages[f] == s.pages[f]
    ensures SameView(s, s2, p)
  {
    hide Exact, InRange, Exclusive, Tallied, KernelOk, LayoutOk, Walk, Holds, RefSet;
    forall v: nat
      ensures EntryOf(s2, p.cr3, v) == EntryOf(s, p.cr3, v)
      ensures PageOf(s2, p.cr3, v) == PageOf(s, p.cr3, v)
      ensures GrantOf(s2, p.cr3, p.heapEnd, v) == GrantOf(s, p.cr3, p.heapEnd, v)
    {
      if UserLeaf(EntryOf(s, p.cr3, v)) {
        MappedIsCounted(s, p.cr3, v);
      }
    }
  }

  /** A space of which one page changed, to an entry that shows the same page and grant. */
  lemma OnePage(s: State, s2: State, p: Proc, v: nat, e: Entry)
    requires Inv(s) && WellShaped(s2) && ProcOk(s, p) && UserPage(v) && |s2.pages| == |s.pages|
    requires OnlyPage(s, s2, p.cr3, DirIndex(v), TableIndex(v), e) && UserLeaf(e) && (e.writable || e.cow)
    requires forall f :: 0 <= f < |s.pages| && s.refs[f] > 0 ==> s2.pages[f] == s.pages[f]
    requires e.frame < |s2.pages| && s2.pages[e.frame] == PageOf(s, p.cr3, v)
    requires GrantOf(s, p.cr3, p.heapEnd, v) == ReadWrite
    ensures SameView(s, s2, p)
  {
    hide Exact, InRange, Exclusive, Tallied, KernelOk, LayoutOk, Walk, Holds, RefSet;
    var d := p.cr3;
    assert forall w :: DirIndex(w) == DirIndex(v) && TableIndex(w) == TableIndex(v) ==> w == v;
    hide DirIndex, TableIndex;
    forall w: nat
      ensures w != v ==> EntryOf(s2, d, w) == EntryOf(s, d, w)
      ensures PageOf(s2, d, w) == PageOf(s, d, w)
      ensures GrantOf(s2, d, p.heapEnd, w) == GrantOf(s, d, p.heapEnd, w)
    {
      if w != v && UserLeaf(EntryOf(s, d, w)) {
        MappedIsCounted(s, d, w);
      }
    }
  }

  lemma ImageExt(s: State, p: Proc, s2: State, q: Proc)
    requires WellShaped(s) && WellShaped(s2) && q.heapEnd == p.heapEnd
    requires forall v: nat :: PageOf(s2, q.cr3, v) == PageOf(s, p.cr3, v)
    requires forall v: nat :: GrantOf(s2, q.cr3, q.heapEnd, v) == GrantOf(s, p.cr3, p.heapEnd, v)
    ensures ImageOf(s2, q) == ImageOf(s, p)
  {
    hide PageOf, GrantOf, WellShaped;
  }

  /** Page by page: the two entries map the same frame with the same grant. */
  ghost predicate Alike(e: Entry, e2: Entry) {
    && (UserLeaf(e2) <==> UserLeaf(e))
    && (UserLeaf(e) ==> e2.frame == e.frame && ((e2.writable || e2.cow) <==> (e.writable || e.cow)))
  }

  lemma AlikeView(s: State, p: Proc, s2: State, q: Proc)
    requires WellShaped(s) && WellShaped(s2) && ProcOk(s, p) && q.cr3 in s2.spaces && s2.pages == s.pages
    requires q.heapStart == p.heapStart && q.heapEnd == p.heapEnd
    requires forall v: nat :: Alike(EntryOf(s, p.cr3, v), EntryOf(s2, q.cr3, v))
    ensures ProcOk(s2, q) && ImageOf(s2, q) == ImageOf(s, p)
  {
    hide EntryOf, WellShaped;
    forall v: nat
      ensures PageOf(s2, q.cr3, v) == PageOf(s, p.cr3, v)
      ensures GrantOf(s2, q.cr3, q.heapEnd, v) == GrantOf(s, p.cr3, p.heapEnd, v)
    {
      assert Alike(EntryOf(s, p.cr3, v), EntryOf(s2, q.cr3, v));
    }
    ImageExt(s, p, s2, q);
  }

  /** Fork shows in nobody's view, and the child's image is the parent's. */
  lemma CloneView(s0: State, s: State, src: Proc, nd: nat, p: Proc)
    requires Inv(s0) && Inv(s) && ProcOk(s0, src) && ProcOk(s0, p) && Cloned(s0, s, src.cr3, nd)
    ensures SameView(s0, s, p)
    ensures ProcOk(s, src.(cr3 := nd)) && ImageOf(s, src.(cr3 := nd)) == ImageOf(s0, src)
  {
    hide Exact, InRange, Exclusive, Tallied, KernelOk, LayoutOk, Walk, Holds, DirIndex, TableIndex, ImageOf;
    if p.cr3 != src.cr3 {
      assert Root(s0.spaces, p.cr3);
      Undisturbed(s0, s, p);
    } else {
      AlikeView(s0, p, s, p);
    }
    AlikeView(s0, src, s, src.(cr3 := nd));
  }

  /** The state after a byte is stored through the entry of page v. */
  ghost function Stored(s: State, f: nat, k: nat, b: Byte): State
    requires f < |s.pages| && k < PAGE_SIZE
  {
    s.(pages := s.pages[f := s.pages[f][k := b]])
  }

  /** Only page v of space d maps the frame that its writable entry maps. */
  lemma SoleWriter(s: State, d: nat, v: nat, c: nat, w: nat)
    requires Inv(s) && Unshared(s) && d in s.spaces && c in s.spaces
    requires UserLeaf(EntryOf(s, d, v)) && EntryOf(s, d, v).writable
    requires UserLeaf(EntryOf(s, c, w)) && EntryOf(s, c, w).frame == EntryOf(s, d, v).frame
    ensures c == d && w == v
  {
    MappedIsCounted(s, d, v);
    MappedIsCounted(s, c, w);
    assert WritableRef(s, Leaf(d, DirIndex(v), TableIndex(v)));
  }

  ghost function PokedImage(im: Image, v: nat, k: nat, b: Byte): Image
    requires v in im.mem && k < PAGE_SIZE
  {
    Image(im.mem[v := im.mem[v][k := b]], im.grant, im.heapEnd)
  }

  /** A store through a writable entry changes one byte of one image. */
  lemma StoreView(s: State, d: nat, v: nat, k: nat, b: Byte, p: Proc)
    requires Inv(s) && Unshared(s) && ProcOk(s, p) && d in s.spaces && UserPage(v) && k < PAGE_SIZE
    requires UserLeaf(EntryOf(s, d, v)) && EntryOf(s, d, v).writable
    ensures EntryOf(s, d, v).frame < |s.pages|
    ensures var s2 := Stored(s, EntryOf(s, d, v).frame, k, b);
            && Inv(s2) && Unshared(s2) && ProcOk(s2, p)
            && ImageOf(s2, p) == if p.cr3 == d then PokedImage(ImageOf(s, p), v, k, b) else ImageOf(s, p)
  {
    hide Exact, InRange, Exclusive, Tallied, KernelOk, LayoutOk, Unshared, Walk, Holds, RefSet, DirIndex, TableIndex;
    MappedIsCounted(s, d, v);
    var f := EntryOf(s, d, v).frame;
    var s2 := Stored(s, f, k, b);
    PagesIrrelevant(s, s2);
    forall w: nat
      ensures EntryOf(s2, p.cr3, w) == EntryOf(s, p.cr3, w)
      ensures PageOf(s2, p.cr3, w) == if p.cr3 == d && w == v then PageOf(s, d, v)[k := b] else PageOf(s, p.cr3, w)
      ensures GrantOf(s2, p.cr3, p.heapEnd, w) == GrantOf(s, p.cr3, p.heapEnd, w)
    {
      if UserLeaf(EntryOf(s, p.cr3, w)) && EntryOf(s, p.cr3, w).frame == f {
        SoleWriter(s, d, v, p.cr3, w);
      }
    }
    StoredImage(s, s2, d, v, k, b, p);
  }

  lemma StoredImage(s: State, s2: State, d: nat, v: nat, k: nat, b: Byte, p: Proc)
    requires WellShaped(s) && WellShaped(s2) && UserPage(v) && k < PAGE_SIZE
    requires forall w: nat :: PageOf(s2, p.cr3, w) ==
               if p.cr3 == d && w == v then PageOf(s, d, v)[k := b] else PageOf(s, p.cr3, w)
    requires forall w: nat :: GrantOf(s2, p.cr3, p.heapEnd, w) == GrantOf(s, p.cr3, p.heapEnd, w)
    ensures ImageOf(s2, p) == if p.cr3 == d then PokedImage(ImageOf(s, p), v, k, b) else ImageOf(s, p)
  {
    hide PageOf, GrantOf, WellShaped;
  }
}
