/** The memory state of the kernel as one value: the frame allocator (kernel/frame.c),
    the physical frames read as page tables or as data pages, and the set of live
    address spaces (kernel/paging.c).

    Frame numbers stand for frame-aligned physical addresses (address / 4096).  A
    reference to a frame is named by where it is stored (`Ref`); `Holds` says which frame
    a reference designates, and the central invariant `Exact` equates the allocator's
    counter of every frame with the number of references that designate it.
 */
module VmState {

  const PAGE_SIZE: nat := 4096
  const ENTRIES: nat := 1024
  /** RESERVED_LOW_END / FRAME_SIZE */
  const LOW: nat := 0x300
  /** IDENTITY_MAPPED_LIMIT / FRAME_SIZE */
  const IDENTITY: nat := 0x400
  const KERNEL_DIR: nat := 0x100
  const FIRST_TABLE: nat := 0x101
  const MAX_REFS: nat := 0xFFFF
  /** The directory slots that cover [USER_SPACE_START, USER_SPACE_END). */
  const USER_FIRST: nat := 256
  const USER_LIMIT: nat := 768

  type Byte = x: int | 0 <= x < 256
  type Page = p: seq<Byte> | |p| == PAGE_SIZE witness seq(PAGE_SIZE, _ => 0)

  function ZeroPage(): Page { seq(PAGE_SIZE, _ => 0) }

  /** A page-table or page-directory word: its frame and the four flag bits in use. */
  datatype Entry = Entry(frame: nat, present: bool, writable: bool, user: bool, cow: bool)

  /** The word 0x02 that fills fresh tables and cleared slots. */
  const BLANK: Entry := Entry(0, false, true, false, false)

  /** A table as allocator_alloc_page_table leaves it. */
  function BlankTable(): seq<Entry> { seq(ENTRIES, _ => BLANK) }

  /** The supervisor identity map of the low 4 MiB. */
  function IdentityTable(): seq<Entry> { seq(ENTRIES, (i: nat) => Entry(i, true, true, false, false)) }

  datatype State = State(
    bitmap: seq<bool>,
    refs: seq<nat>,
    used: nat,
    tables: seq<seq<Entry>>,
    pages: seq<Page>,
    spaces: set<nat>,
    pinned: set<nat>,
    kernel: set<nat>)

  /** Where a counted reference to a frame is kept: by kernel code or data outside the
      page tables, as a live directory, in a directory slot, or in a page-table entry. */
  datatype Ref = Pin(f: nat) | Dir(d: nat) | Table(d: nat, i: nat) | Leaf(d: nat, i: nat, j: nat)

  predicate UserLeaf(e: Entry) { e.present && e.user }

  ghost predicate WellShaped(s: State) {
    && LOW <= |s.refs|
    && |s.bitmap| == |s.refs|
    && |s.tables| == |s.refs|
    && |s.pages| == |s.refs|
    && (forall f :: 0 <= f < |s.tables| ==> |s.tables[f]| == ENTRIES)
    && (forall d :: d in s.spaces ==> d < |s.refs|)
    && (forall f :: f in s.pinned ==> f < |s.refs|)
  }

  /** Slot i of directory d refers to a table that belongs to the space alone. */
  ghost predicate Owned(s: State, d: nat, i: nat)
    requires WellShaped(s)
  {
    d in s.spaces && i < ENTRIES && s.tables[d][i].present && (i == 0 || s.tables[d][i].user)
  }

  /** The page-table entry that slot i of directory d and index j lead to. */
  ghost function Walk(s: State, d: nat, i: nat, j: nat): (e: Entry)
    requires WellShaped(s)
  {
    if d < |s.tables| && i < ENTRIES && j < ENTRIES && s.tables[d][i].present &&
       s.tables[d][i].frame < |s.tables|
    then s.tables[s.tables[d][i].frame][j]
    else BLANK
  }

  ghost predicate Holds(s: State, r: Ref, f: nat)
    requires WellShaped(s)
  {
    match r
    case Pin(p) => p in s.pinned && p == f
    case Dir(d) => d in s.spaces && d == f
    case Table(d, i) => Owned(s, d, i) && s.tables[d][i].frame == f
    case Leaf(d, i, j) => Owned(s, d, i) && UserLeaf(Walk(s, d, i, j)) && Walk(s, d, i, j).frame == f
  }

  ghost function Universe(n: nat): (u: set<Ref>)
  {
    (set p | 0 <= p < n :: Pin(p)) +
    (set d | 0 <= d < n :: Dir(d)) +
    (set d, i | 0 <= d < n && 0 <= i < ENTRIES :: Table(d, i)) +
    (set d, i, j | 0 <= d < n && 0 <= i < ENTRIES && 0 <= j < ENTRIES :: Leaf(d, i, j))
  }

  /** All references that designate frame f. */
  ghost function RefSet(s: State, f: nat): (rs: set<Ref>)
    requires WellShaped(s)
    ensures forall r :: r in rs <==> Holds(s, r, f)
  {
    var u := Universe(|s.refs|);
    assert forall r :: Holds(s, r, f) ==> r in u;
    set r | r in u && Holds(s, r, f)
  }

  ghost function CountSet(b: seq<bool>): nat {
    if b == [] then 0 else CountSet(b[..|b| - 1]) + (if b[|b| - 1] then 1 else 0)
  }

  /** The allocator's own consistency: used_frames counts the bits of the bitmap, and a
      bit is set exactly when the frame's counter is positive. */
  ghost predicate Tallied(bitmap: seq<bool>, refs: seq<nat>, used: nat)
    requires |bitmap| == |refs|
  {
    && used == CountSet(bitmap)
    && (forall f :: 0 <= f < |refs| ==> (bitmap[f] <==> refs[f] > 0))
    && (forall f :: 0 <= f < |refs| ==> refs[f] <= MAX_REFS)
  }

  ghost predicate AllocOk(s: State)
    requires WellShaped(s)
  {
    Tallied(s.bitmap, s.refs, s.used)
  }

  /** Reference counts are exact. */
  ghost predicate Exact(s: State)
    requires WellShaped(s)
  {
    forall f :: 0 <= f < |s.refs| ==> s.refs[f] == |RefSet(s, f)|
  }

  /** Every counted reference designates a tracked frame, and frame 0 is mapped nowhere. */
  ghost predicate InRange(s: State)
    requires WellShaped(s)
  {
    forall r: Ref, f: nat :: Holds(s, r, f) ==> f < |s.refs| && (r.Leaf? ==> f != 0)
  }

  /** A directory or an owned table is referenced once. */
  ghost predicate Exclusive(s: State)
    requires WellShaped(s)
  {
    forall r1, r2, f: nat :: Holds(s, r1, f) && Holds(s, r2, f) && (r1.Dir? || r1.Table?) ==> r1 == r2
  }

  ghost predicate WritableRef(s: State, r: Ref)
    requires WellShaped(s)
  {
    r.Leaf? && Walk(s, r.d, r.i, r.j).writable
  }

  /** No frame that some space may write is referenced twice. */
  ghost predicate Unshared(s: State)
    requires WellShaped(s)
  {
    forall r1, r2, f: nat :: Holds(s, r1, f) && Holds(s, r2, f) && WritableRef(s, r1) ==> r1 == r2
  }

  ghost predicate Root(spaces: set<nat>, d: nat) { d in spaces || d == KERNEL_DIR }

  /** A present slot that the space shares with the kernel. */
  ghost predicate SharedSlot(s: State, d: nat, i: nat)
    requires WellShaped(s)
  {
    && Root(s.spaces, d) && i < ENTRIES && s.tables[d][i].present
    && !s.tables[d][i].user && (i != 0 || d == KERNEL_DIR)
  }

  /** Frames that belong to the kernel for good: the pinned low frames and the kernel's own
      tables.  Shared supervisor slots lead to them, and they hold no user entry. */
  ghost predicate KernelOk(s: State)
    requires WellShaped(s)
  {
    && s.kernel <= s.pinned
    && (forall f :: 0 <= f < LOW ==> f in s.kernel)
    && (forall f, j :: f in s.kernel && 0 <= j < ENTRIES ==> !UserLeaf(s.tables[f][j]))
    && (forall d: nat, i: nat :: SharedSlot(s, d, i) ==> s.tables[d][i].frame in s.kernel)
  }

  /** Exactly the present directory slots of the user range are user slots, and those are
      writable; an entry that is not present carries no frame; the identity table holds no
      user entry and the other owned tables hold nothing else. */
  ghost predicate LayoutOk(s: State)
    requires WellShaped(s)
  {
    && (forall d: nat, i :: Root(s.spaces, d) && 0 <= i < ENTRIES && s.tables[d][i].present ==>
          (s.tables[d][i].user <==> USER_FIRST <= i < USER_LIMIT) &&
          (s.tables[d][i].user ==> s.tables[d][i].writable))
    && (forall d, i, j :: Owned(s, d, i) && !Walk(s, d, i, j).present ==> Walk(s, d, i, j).frame == 0)
    && (forall d, j :: d in s.spaces ==> !UserLeaf(Walk(s, d, 0, j)))
    && (forall d, i, j :: Owned(s, d, i) && i != 0 && Walk(s, d, i, j).present ==> Walk(s, d, i, j).user)
  }

  ghost predicate Inv(s: State) {
    && WellShaped(s)
    && AllocOk(s)
    && Exact(s)
    && InRange(s)
    && Exclusive(s)
    && KernelOk(s)
    && LayoutOk(s)
  }
}
