/** kernel/frame.c and kernel/paging.c: the frame allocator and the page tables, updated in
    place.  Each method keeps the reference counts exact and says what it changed. */
module VmMachine {
  import opened VmState
  import opened VmLemmas
  import opened VmSteps
  import opened VmClone
  import opened VmScarce

  class Machine {
    // frame_bitmap, frame_refcounts, used_frames and the failure injection of the selftests
    var bitmap: seq<bool>
    var refs: seq<nat>
    var used: nat
    var failAfter: int
    // physical memory, read as table words and as data pages
    var tables: seq<seq<Entry>>
    var pages: seq<Page>
    // active_page_directory, and whether kernel_scratch_table exists
    var active: nat
    var scratch: bool

    ghost var spaces: set<nat>
    ghost var pinned: set<nat>
    ghost var kernel: set<nat>

    ghost function S(): State
      reads this
    {
      State(bitmap, refs, used, tables, pages, spaces, pinned, kernel)
    }

    ghost predicate Valid()
      reads this
    {
      Inv(S()) && Unshared(S()) && Root(spaces, active)
    }

    /** frame_init followed by paging_init.  `usable` lists the usable memory ranges as frame
        intervals and `kernelEnd` is the first frame past the kernel image. */
    constructor (total: nat, usable: seq<(nat, nat)>, kernelEnd: nat)
      requires LOW <= total
      ensures Valid() && spaces == {} && active == KERNEL_DIR && |refs| == total
    {
      bitmap := seq(total, _ => true);
      refs := seq(total, _ => 1);
      used := total;
      failAfter := -1;
      tables := seq(total, _ => BlankTable());
      pages := seq(total, _ => ZeroPage());
      active := KERNEL_DIR;
      scratch := false;
      spaces, pinned, kernel := {}, {}, {};
      new;
      AllSet(bitmap);
      for k := 0 to |usable|
        invariant |bitmap| == |refs| == total && Tallied(bitmap, refs, used) && OneEach(refs)
        invariant spaces == {} && tables == seq(total, _ => BlankTable()) && |pages| == total && active == KERNEL_DIR
      {
        MarkFree(usable[k].0, usable[k].1);
      }
      MarkAllocated(0, LOW);
      MarkAllocated(1, kernelEnd);
      kernel := set f | 0 <= f < total && bitmap[f];
      pinned := kernel;
      Booted(S());
      InitPaging();
    }

    /** mark_free */
    method MarkFree(start: nat, end: nat)
      requires |bitmap| == |refs| && Tallied(bitmap, refs, used) && OneEach(refs)
      modifies this`bitmap, this`refs, this`used
      ensures |bitmap| == |refs| == |old(refs)| && Tallied(bitmap, refs, used) && OneEach(refs)
      ensures forall f :: 0 <= f < |refs| ==> (bitmap[f] <==> old(bitmap[f]) && !(start <= f < end))
    {
      var frame := start;
      var last := if end > |refs| then |refs| else end;
      while frame < last
        invariant |bitmap| == |refs| == |old(refs)| && Tallied(bitmap, refs, used) && OneEach(refs)
        invariant start <= frame
        invariant forall f :: 0 <= f < |refs| ==> (bitmap[f] <==> old(bitmap[f]) && !(start <= f < end && f < frame))
      {
        if bitmap[frame] {
          CountSetUpdate(bitmap, frame, false);
          bitmap := bitmap[frame := false];
          if used > 0 {
            used := used - 1;
          }
          refs := refs[frame := 0];
        }
        frame := frame + 1;
      }
    }

    /** mark_allocated */
    method MarkAllocated(start: nat, end: nat)
      requires |bitmap| == |refs| && Tallied(bitmap, refs, used) && OneEach(refs)
      modifies this`bitmap, this`refs, this`used
      ensures |bitmap| == |refs| == |old(refs)| && Tallied(bitmap, refs, used) && OneEach(refs)
      ensures forall f :: 0 <= f < |refs| ==> (bitmap[f] <==> old(bitmap[f]) || start <= f < end)
    {
      var frame := start;
      var last := if end > |refs| then |refs| else end;
      while frame < last
        invariant |bitmap| == |refs| == |old(refs)| && Tallied(bitmap, refs, used) && OneEach(refs)
        invariant start <= frame
        invariant forall f :: 0 <= f < |refs| ==> (bitmap[f] <==> old(bitmap[f]) || (start <= f < end && f < frame))
      {
        CountSetUpdate(bitmap, frame, true);
        if !bitmap[frame] {
          bitmap := bitmap[frame := true];
          used := used + 1;
        } else {
          assert bitmap == bitmap[frame := true];
        }
        if refs[frame] == 0 {
          refs := refs[frame := 1];
        }
        frame := frame + 1;
      }
    }

    /** paging_init: the kernel's directory, its identity table and the scratch table. */
    method InitPaging()
      requires Inv(S()) && spaces == {} && Unshared(S()) && pinned == kernel
      requires forall i :: 0 <= i < ENTRIES ==> tables[KERNEL_DIR][i] == BLANK
      modifies this
      ensures Valid() && spaces == {} && active == KERNEL_DIR && |refs| == |old(refs)|
    {
      ghost var s0 := S();
      FillIdentity(FIRST_TABLE);
      tables := tables[KERNEL_DIR := tables[KERNEL_DIR][0 := Entry(FIRST_TABLE, true, true, false, false)]];
      KernelTables(s0, S());
      active := KERNEL_DIR;
      ghost var s1 := S();
      var t := AllocTable();
      scratch := t != 0;
      if scratch {
        ghost var s2 := S();
        tables := tables[KERNEL_DIR := tables[KERNEL_DIR][ENTRIES - 1 := Entry(t, true, true, false, false)]];
        kernel := kernel + {t};
        BlankTableIsClean(s2, t);
        KernelTables(s2, S());
      }
    }

    /** frame_alloc_below: the lowest free frame above the reserved area, marked used. */
    method FrameAllocBelow(limit: nat) returns (f: nat)
      requires Inv(S())
      modifies this`bitmap, this`refs, this`used, this`failAfter, this`pinned
      ensures Inv(S())
      ensures f == 0 <==> (old(failAfter) == 0 || forall g :: LOW <= g < limit && g < |refs| ==> old(bitmap[g]))
      ensures f == 0 ==> S() == old(S())
      ensures limit > 0 ==> failAfter == Tick(old(failAfter))
      ensures f != 0 ==>
        && LOW <= f < |refs| && f < limit && !old(bitmap[f]) && old(refs[f]) == 0 && f !in old(pinned) && f !in old(spaces)
        && (forall g :: LOW <= g < f ==> old(bitmap[g]))
        && S() == Taken(old(S()), f, old(tables[f]))
        && Fresh(S(), f) && (forall g: nat :: Fresh(old(S()), g) ==> Fresh(S(), g))
        && (forall d :: Root(old(spaces), d) ==> SameSpace(old(S()), S(), d))
        && (old(Unshared(S())) ==> Unshared(S()))
    {
      hide Exact, InRange, Exclusive, KernelOk, LayoutOk, Unshared, SameSpace, Fresh;
      f := 0;
      if limit == 0 || failAfter == 0 {
        return;
      }
      if failAfter > 0 {
        failAfter := failAfter - 1;
      }
      var maxFrame := if limit > |refs| then |refs| else limit;
      var frame := LOW;
      while frame < maxFrame
        invariant LOW <= frame
        invariant forall g :: LOW <= g < frame && g < |refs| ==> bitmap[g]
      {
        if !bitmap[frame] {
          TakeFrame(S(), frame, tables[frame]);
          assert tables[frame := tables[frame]] == tables;
          bitmap := bitmap[frame := true];
          used := used + 1;
          refs := refs[frame := 1];
          pinned := pinned + {frame};
          return frame;
        }
        frame := frame + 1;
      }
    }

    /** frame_alloc */
    method FrameAlloc() returns (f: nat)
      requires Inv(S())
      modifies this`bitmap, this`refs, this`used, this`failAfter, this`pinned
      ensures Inv(S())
      ensures f == 0 <==> (old(failAfter) == 0 || forall g :: LOW <= g < |refs| ==> old(bitmap[g]))
      ensures f == 0 ==> S() == old(S())
      ensures failAfter == Tick(old(failAfter))
      ensures f != 0 ==>
        && LOW <= f < |refs| && (forall g :: LOW <= g < f ==> old(bitmap[g])) && !old(bitmap[f]) && old(refs[f]) == 0 && f !in old(pinned) && f !in old(spaces)
        && S() == Taken(old(S()), f, old(tables[f]))
        && Fresh(S(), f) && (forall g: nat :: Fresh(old(S()), g) ==> Fresh(S(), g))
        && (forall d :: Root(old(spaces), d) ==> SameSpace(old(S()), S(), d))
        && (old(Unshared(S())) ==> Unshared(S()))
    {
      hide Exact, InRange, Exclusive, KernelOk, LayoutOk, Tallied, Unshared, SameSpace, Fresh;
      f := FrameAllocBelow(|refs|);
    }

    /** frame_retain */
    method FrameRetain(f: nat) returns (ok: bool)
      requires WellShaped(S())
      modifies this`refs
      ensures ok <==> f < |old(refs)| && bitmap[f] && 0 < old(refs[f]) && old(refs[f]) != MAX_REFS
      ensures S() == if ok then Retained(old(S()), f) else old(S())
    {
      if f >= |refs| || !bitmap[f] || refs[f] == 0 || refs[f] == MAX_REFS {
        return false;
      }
      refs := refs[f := refs[f] + 1];
      return true;
    }

    /** frame_release */
    method FrameRelease(f: nat) returns (ok: bool)
      requires WellShaped(S()) && AllocOk(S())
      modifies this`refs, this`bitmap, this`used
      ensures ok <==> f < |old(refs)| && 0 < old(refs[f]) && (f < LOW ==> old(refs[f]) > 1)
      ensures ok ==> old(used) > 0
      ensures S() == if ok then Released(old(S()), f) else old(S())
    {
      if f >= |refs| || !bitmap[f] || refs[f] == 0 {
        return false;
      }
      ReleaseKeepsAllocator(S(), f);
      if f < LOW {
        if refs[f] <= 1 {
          return false;
        }
        refs := refs[f := refs[f] - 1];
        assert bitmap == bitmap[f := true];
        return true;
      }
      refs := refs[f := refs[f] - 1];
      if refs[f] == 0 {
        bitmap := bitmap[f := false];
        if used > 0 {
          used := used - 1;
        }
      } else {
        assert bitmap == bitmap[f := true];
      }
      return true;
    }

    /** allocator_alloc_page_table: a frame below the identity limit, every word blank. */
    method AllocTable() returns (f: nat)
      requires Inv(S())
      modifies this`bitmap, this`refs, this`used, this`failAfter, this`pinned, this`tables
      ensures Inv(S())
      ensures f == 0 <==> Short(old(bitmap), old(failAfter), 1)
      ensures f == 0 ==> S() == old(S())
      ensures f != 0 ==> Spent(old(bitmap), old(failAfter), bitmap, failAfter, 1)
      ensures f != 0 ==>
        && LOW <= f < |refs| && old(refs[f]) == 0 && f !in old(pinned) && f !in old(spaces)
        && S() == Taken(old(S()), f, BlankTable())
        && Fresh(S(), f) && (forall g: nat :: Fresh(old(S()), g) ==> Fresh(S(), g))
        && (forall d :: Root(old(spaces), d) ==> SameSpace(old(S()), S(), d))
        && (old(Unshared(S())) ==> Unshared(S()))
    {
      hide Exact, InRange, Exclusive, KernelOk, LayoutOk, Tallied, Unshared, SameSpace, Fresh;
      ghost var s0 := S();
      FirstTable(bitmap, failAfter);
      hide Short, Spent;
      f := FrameAllocBelow(IDENTITY);
      if f == 0 {
        return;
      }
      OneTaken(s0.bitmap, old(failAfter), f);
      ghost var s1 := S();
      for i := 0 to ENTRIES
        invariant WellShaped(s1) && f < |s1.tables| && failAfter == Tick(old(failAfter))
        invariant |tables| == |s1.tables| && |tables[f]| == ENTRIES
        invariant S() == s1.(tables := s1.tables[f := tables[f]])
        invariant forall k :: 0 <= k < i ==> tables[f][k] == BLANK
      {
        tables := tables[f := tables[f][i := BLANK]];
      }
      assert tables[f] == BlankTable();
      TakeFrame(s0, f, BlankTable());
    }

    /** The loop of paging_create_address_space that fills the low table with the identity map. */
    method FillIdentity(f: nat)
      requires WellShaped(S()) && f < |tables|
      modifies this`tables
      ensures S() == old(S()).(tables := old(tables)[f := IdentityTable()])
    {
      for i := 0 to ENTRIES
        invariant |tables| == |old(tables)| && |tables[f]| == ENTRIES
        invariant tables == old(tables)[f := tables[f]]
        invariant forall k :: 0 <= k < i ==> tables[f][k] == IdentityTable()[k]
      {
        tables := tables[f := tables[f][i := Entry(i, true, true, false, false)]];
      }
      assert tables[f] == IdentityTable();
    }

    /** paging_create_address_space: a directory with its own identity table and the active
        directory's supervisor slots; no user mapping is inherited. */
    method CreateAddressSpace() returns (d: nat)
      requires Valid()
      modifies this
      ensures Valid() && active == old(active) && scratch == old(scratch)
      ensures d == 0 <==> Short(old(bitmap), old(failAfter), 2)
      ensures d != 0 ==> Spent(old(bitmap), old(failAfter), bitmap, failAfter, 2)
      ensures d == 0 ==> SameMemory(old(S()), S())
      ensures d == 0 ==> refs == old(refs) && bitmap == old(bitmap) && used == old(used)
      ensures d != 0 ==>
        && LOW <= d < |refs| == |old(refs)| && old(refs[d]) == 0
        && spaces == old(spaces) + {d} && pinned == old(pinned) && kernel == old(kernel) && pages == old(pages)
        && (forall c :: Root(old(spaces), c) ==> SameSpace(old(S()), S(), c))
        && (forall i, j :: !UserLeaf(Walk(S(), d, i, j)))
      ensures d != 0 ==>
        && active < |old(tables)| && d < |tables|
        && (forall j: nat :: j < ENTRIES ==> Walk(S(), d, 0, j) == Entry(j, true, true, false, false))
        && (forall i :: 0 < i < ENTRIES ==>
              tables[d][i] == if old(tables[active][i]).present && !old(tables[active][i]).user then old(tables[active][i]) else BLANK)
    {
      hide Exact, InRange, Exclusive, Tallied, SameSpace, Short, Spent;
      ghost var s0 := S();
      SameMemoryRefl(s0);
      d := AllocTable();
      if d == 0 {
        ShortMore(bitmap, old(failAfter), 1, 2);
        return;
      }
      ghost var s1 := S();
      ghost var fa1 := failAfter;
      SpentShort(s0.bitmap, old(failAfter), bitmap, failAfter, 1, 1);
      var low := AllocTable();
      if low == 0 {
        DropPin(s1, d);
        var _ := FrameRelease(d);
        pinned := pinned - {d};
        SameMemoryTrans(s0, s1, S());
        assert pinned == s0.pinned;
        CountsDetermined(s0, S());
        return 0;
      }
      SpentMore(s0.bitmap, old(failAfter), s1.bitmap, fa1, bitmap, failAfter, 1, 1);
      FillIdentity(low);
      ghost var s2 := S();
      assert s2 == Taken(s1, low, IdentityTable());
      TakeFrame(s1, low, IdentityTable());
      SameMemoryTrans(s0, s1, s2);
      FillSpace(d, low);
      SameMemoryTrans(s0, s2, S());
      assert Root(s0.spaces, active) && SameSpace(s0, s2, active);
      SlotsSince(s0, s2, S(), active, d);
      assert pinned == s0.pinned;
    }

    /** The new directory gets the identity table and the supervisor slots of the active one. */
    method FillSpace(d: nat, low: nat)
      requires Valid() && Fresh(S(), d) && Fresh(S(), low) && d != low
      requires tables[d] == BlankTable() && tables[low] == IdentityTable()
      modifies this`tables, this`spaces, this`pinned
      ensures Valid()
      ensures S() == old(S()).(tables := tables, spaces := old(spaces) + {d}, pinned := old(pinned) - {d} - {low})
      ensures forall c :: Root(old(spaces), c) ==> SameSpace(old(S()), S(), c)
      ensures SupervisorSlots(old(S()), S(), active, d) && IdentityMapped(S(), d)
      ensures forall i, j :: !UserLeaf(Walk(S(), d, i, j))
    {
      hide Exact, InRange, Exclusive, Tallied, SameSpace;
      ghost var s0 := S();
      OpenSpace(d, low);
      ghost var s3 := S();
      assert Root(s3.spaces, active) && SameSpace(s0, s3, active);
      assert d != active by {
        assert !Holds(s0, Dir(d), d);
      }
      ShareSupervisorSlots(d);
      SameMemoryTrans(s0, s3, S());
      SlotsSince(s0, s3, S(), active, d);
    }

    /** The directory becomes a live space and its slot 0 the identity table. */
    method OpenSpace(d: nat, low: nat)
      requires Inv(S()) && Unshared(S()) && Fresh(S(), d) && Fresh(S(), low) && d != low
      requires tables[d] == BlankTable() && tables[low] == IdentityTable()
      modifies this`tables, this`spaces, this`pinned
      ensures Inv(S()) && Unshared(S())
      ensures S() == old(S()).(tables := tables, spaces := old(spaces) + {d}, pinned := old(pinned) - {d} - {low})
      ensures forall c :: Root(old(spaces), c) ==> SameSpace(old(S()), S(), c)
      ensures tables[d] == BlankTable()[0 := Entry(low, true, true, false, false)]
      ensures forall j :: !UserLeaf(Walk(S(), d, 0, j))
      ensures IdentityMapped(S(), d)
    {
      hide Exact, InRange, Exclusive, Tallied, LayoutOk, Unshared;
      ghost var s0 := S();
      spaces, pinned := spaces + {d}, pinned - {d};
      PinToDir(s0, d);
      ghost var s1 := S();
      assert Fresh(s1, low);
      assert forall j :: 0 <= j < ENTRIES ==> s1.tables[low][j] == IdentityTable()[j];
      assert NoUserEntry(s1, low);
      assert CleanTable(s1, low);
      AttachTable(s1, d, 0, Entry(low, true, true, false, false));
      tables := tables[d := tables[d][0 := Entry(low, true, true, false, false)]];
      pinned := pinned - {low};
      forall c | Root(s0.spaces, c)
        ensures SameSpace(s1, S(), c)
      {
        assert Root(s1.spaces, c) && c != d by {
          assert !Holds(s0, Dir(d), d);
        }
      }
      SameMemoryTrans(s0, s1, S());
    }

    /** The supervisor-only slots of the active directory are shared with directory d. */
    method ShareSupervisorSlots(d: nat)
      requires Valid() && d in spaces && d != active
      requires forall i :: 0 < i < ENTRIES ==> tables[d][i] == BLANK
      requires forall j :: !UserLeaf(Walk(S(), d, 0, j))
      modifies this`tables
      ensures Valid()
      ensures S() == old(S()).(tables := tables)
      ensures forall c :: Root(old(spaces), c) && c != d ==> SameSpace(old(S()), S(), c)
      ensures forall i, j :: !UserLeaf(Walk(S(), d, i, j))
      ensures SupervisorSlots(old(S()), S(), active, d) && (old(IdentityMapped(S(), d)) ==> IdentityMapped(S(), d))
    {
      hide Exact, InRange, Exclusive, Tallied, Unshared;
      ghost var s0 := S();
      assert Root(spaces, active);
      for i := 1 to ENTRIES
        invariant Inv(S()) && Unshared(S()) && S() == s0.(tables := tables)
        invariant forall c :: Root(s0.spaces, c) && c != d ==> SameSpace(s0, S(), c)
        invariant forall a :: i <= a < ENTRIES ==> tables[d][a] == BLANK
        invariant tables[active] == s0.tables[active] && forall j :: Walk(S(), d, 0, j) == Walk(s0, d, 0, j)
        invariant forall a :: 0 < a < i ==>
          tables[d][a] == if s0.tables[active][a].present && !s0.tables[active][a].user then s0.tables[active][a] else BLANK
        invariant forall a, j :: 0 <= a < i ==> !UserLeaf(Walk(S(), d, a, j))
      {
        var word := tables[active][i];
        if word.present && !word.user {
          assert SharedSlot(S(), active, i);
          ShareSlot(S(), d, i, word);
          tables := tables[d := tables[d][i := word.(user := false)]];
        }
      }
    }

    /** The inner loop of the three teardown routines: every user entry of the table in slot i
        gives its frame back. */
    method ReleaseUserEntries(d: nat, i: nat)
      requires Inv(S()) && Owned(S(), d, i) && tables[d][i].frame < |tables|
      modifies this`refs, this`bitmap, this`used, this`tables
      ensures Inv(S()) && (old(Unshared(S())) ==> Unshared(S()))
      ensures S() == old(S()).(refs := refs, bitmap := bitmap, used := used, tables := tables)
      ensures |tables| == |old(tables)| && tables[d] == old(tables[d])
      ensures Owned(S(), d, i) && NoUserEntry(S(), tables[d][i].frame)
      ensures forall a: nat :: Owned(S(), d, a) <==> Owned(old(S()), d, a)
      ensures forall c :: Root(spaces, c) && c != d ==> SameSpace(old(S()), S(), c)
    {
      hide Exact, InRange, Exclusive, KernelOk, LayoutOk, Unshared;
      ghost var s0 := S();
      var t := tables[d][i].frame;
      for j := 0 to ENTRIES
        invariant Inv(S()) && (Unshared(s0) ==> Unshared(S()))
        invariant S() == s0.(refs := refs, bitmap := bitmap, used := used, tables := tables)
        invariant |tables| == |s0.tables| && tables[d] == s0.tables[d]
        invariant Owned(S(), d, i) && t == tables[d][i].frame
        invariant forall a: nat :: Owned(S(), d, a) <==> Owned(s0, d, a)
        invariant forall k :: 0 <= k < j ==> !UserLeaf(tables[t][k])
        invariant forall c :: Root(spaces, c) && c != d ==> SameSpace(s0, S(), c)
      {
        if tables[t][j].present && tables[t][j].user {
          ghost var s1 := S();
          assert Walk(s1, d, i, j) == tables[t][j];
          DropLeaf(s1, d, i, j);
          var _ := FrameRelease(tables[t][j].frame);
          tables := tables[t := tables[t][j := BLANK]];
          assert S() == WithLeaf(Released(s1, s1.tables[t][j].frame), d, i, j, BLANK);
        }
      }
    }

    /** The table in slot i, emptied of user entries, is released and the slot cleared. */
    method ReleaseTable(d: nat, i: nat)
      requires Inv(S()) && Owned(S(), d, i) && NoUserEntry(S(), tables[d][i].frame)
      modifies this`refs, this`bitmap, this`used, this`tables
      ensures Inv(S()) && (old(Unshared(S())) ==> Unshared(S()))
      ensures S() == old(S()).(refs := refs, bitmap := bitmap, used := used, tables := tables)
      ensures |tables| == |old(tables)| && tables[d] == old(tables[d])[i := BLANK]
      ensures !Owned(S(), d, i)
      ensures forall a: nat :: Owned(S(), d, a) ==> Owned(old(S()), d, a)
      ensures forall c :: Root(spaces, c) && c != d ==> SameSpace(old(S()), S(), c)
      ensures forall a: nat, b: nat :: a != i ==> Walk(S(), d, a, b) == Walk(old(S()), d, a, b)
    {
      hide Exact, InRange, Exclusive, KernelOk, LayoutOk, Unshared;
      ghost var s0 := S();
      DropTable(s0, d, i);
      var _ := FrameRelease(tables[d][i].frame);
      tables := tables[d := tables[d][i := BLANK]];
    }

    /** The directory, emptied of owned tables, is released: the space is gone. */
    method ReleaseDirectory(d: nat)
      requires Inv(S()) && d in spaces
      requires forall a: nat :: !Owned(S(), d, a)
      modifies this`refs, this`bitmap, this`used, this`spaces
      ensures Inv(S()) && (old(Unshared(S())) ==> Unshared(S()))
      ensures S() == old(S()).(refs := refs, bitmap := bitmap, used := used, spaces := old(spaces) - {d})
      ensures forall c :: Root(old(spaces), c) && c != d ==> SameSpace(old(S()), S(), c)
    {
      hide Exact, InRange, Exclusive, KernelOk, LayoutOk, Unshared, SameSpace;
      DropDir(S(), d);
      var _ := FrameRelease(d);
      spaces := spaces - {d};
    }

    /** paging_destroy_address_space */
    method DestroyAddressSpace(d: nat)
      requires Valid() && (d == 0 || d == KERNEL_DIR || d in spaces)
      modifies this`refs, this`bitmap, this`used, this`tables, this`spaces
      ensures Valid()
      ensures d == 0 || d == KERNEL_DIR || d == active ==> S() == old(S())
      ensures !(d == 0 || d == KERNEL_DIR || d == active) ==>
        && |refs| == |old(refs)| && spaces == old(spaces) - {d}
        && (forall c :: Root(spaces, c) ==> SameSpace(old(S()), S(), c))
    {
      hide Exact, InRange, Exclusive, LayoutOk, Unshared;
      if d == 0 || d == KERNEL_DIR || d == active {
        return;
      }
      ghost var s0 := S();
      for i := 0 to ENTRIES
        invariant Inv(S()) && Unshared(S()) && d in spaces
        invariant S() == s0.(refs := refs, bitmap := bitmap, used := used, tables := tables)
        invariant |refs| == |s0.refs|
        invariant forall a: nat :: a < i ==> !Owned(S(), d, a)
        invariant forall c :: Root(spaces, c) && c != d ==> SameSpace(s0, S(), c)
      {
        ghost var s1 := S();
        var word := tables[d][i];
        if word.present {
          var t := word.frame;
          if t == FIRST_TABLE || (i != 0 && !word.user) {
            assert !Owned(s1, d, i) by {
              if Owned(s1, d, i) { SoleHolder(s1, Table(d, i), t); }
            }
          } else {
            SoleHolder(s1, Table(d, i), t);
            ReleaseUserEntries(d, i);
            ghost var s2 := S();
            ReleaseTable(d, i);
            OthersSame(s0, s1, s2, d);
            OthersSame(s0, s2, S(), d);
          }
        }
      }
      assert forall a: nat :: !Owned(S(), d, a);
      ghost var s3 := S();
      ReleaseDirectory(d);
      OthersSame(s0, s3, S(), d);
    }

    /** The first half of paging_map_page_in_directory: slot i leads to a table. */
    method EnsureTable(d: nat, i: nat) returns (ok: bool)
      requires Valid() && d in spaces && USER_FIRST <= i < USER_LIMIT
      modifies this`bitmap, this`refs, this`used, this`failAfter, this`pinned, this`tables
      ensures Valid()
      ensures !ok <==> !old(tables)[d][i].present && Short(old(bitmap), old(failAfter), 1)
      ensures ok ==> AtMost(old(bitmap), old(failAfter), bitmap, failAfter, 1)
      ensures !ok ==> S() == old(S())
      ensures ok ==>
        && |refs| == |old(refs)| && pinned == old(pinned) && Owned(S(), d, i)
        && (forall g: nat :: Fresh(old(S()), g) ==> Fresh(S(), g))
        && (forall c :: Root(spaces, c) && c != d ==> SameSpace(old(S()), S(), c))
        && (forall a: nat, b: nat :: Walk(S(), d, a, b) == Walk(old(S()), d, a, b))
    {
      hide Exact, InRange, Exclusive, Tallied, KernelOk, Unshared, Short, Spent, AtMost;
      ghost var s0 := S();
      AtMostNone(bitmap, failAfter, 1);
      if !tables[d][i].present {
        var t := AllocTable();
        if t == 0 {
          return false;
        }
        SpentAtMost(s0.bitmap, old(failAfter), bitmap, failAfter, 1);
        ghost var s1 := S();
        var word := Entry(t, true, true, true, false);
        assert SameSpace(s0, s1, d);
        BlankTableIsClean(s1, t);
        AttachTable(s1, d, i, word);
        tables := tables[d := tables[d][i := word]];
        pinned := pinned - {t};
        assert pinned == s0.pinned;
        AttachedBlank(s0, s1, S(), d, i, word);
      } else {
        assert Root(spaces, d) && tables[d][i].user;
        tables := tables[d := tables[d][i := tables[d][i].(user := true)]];
        assert tables[d] == s0.tables[d];
        assert tables == s0.tables;
      }
      return true;
    }

    /** paging_map_page_in_directory, for a user page that is not mapped and a frame just
        taken from the allocator.  If no table can be allocated nothing changes. */
    method MapPage(d: nat, i: nat, j: nat, f: nat, flags: Entry) returns (ok: bool)
      requires Valid() && d in spaces && USER_FIRST <= i < USER_LIMIT && j < ENTRIES
      requires Fresh(S(), f) && flags.user && !UserLeaf(Walk(S(), d, i, j))
      modifies this`bitmap, this`refs, this`used, this`failAfter, this`pinned, this`tables
      ensures Valid()
      ensures !ok <==> !old(tables)[d][i].present && Short(old(bitmap), old(failAfter), 1)
      ensures ok ==> AtMost(old(bitmap), old(failAfter), bitmap, failAfter, 1)
      ensures !ok ==> S() == old(S())
      ensures ok ==> pinned == old(pinned) - {f} && pages == old(pages) &&
                     OnlyPage(old(S()), S(), d, i, j, flags.(frame := f, present := true))
    {
      hide Exact, InRange, Exclusive, Tallied, KernelOk, LayoutOk, Unshared, Fresh, Short, AtMost;
      ghost var s0 := S();
      ok := EnsureTable(d, i);
      if !ok {
        return;
      }
      ghost var s2 := S();
      var t := tables[d][i].frame;
      AttachLeaf(s2, d, i, j, flags.(frame := f, present := true));
      tables := tables[t := tables[t][j := flags.(frame := f, present := true)]];
      pinned := pinned - {f};
      OthersSame(s0, s2, S(), d);
    }

    /** frame_get_refcount */
    method RefCount(f: nat) returns (n: nat)
      requires WellShaped(S())
      ensures n == if f < |refs| && bitmap[f] then refs[f] else 0
    {
      if f >= |refs| || !bitmap[f] {
        return 0;
      }
      return refs[f];
    }

    /** paging_resolve_cow_fault: the page becomes writable with its contents kept, in its own
        frame if it is the only holder and in a private copy otherwise. */
    method ResolveCow(d: nat, i: nat, j: nat) returns (ok: bool)
      requires Valid() && d in spaces && i < ENTRIES && j < ENTRIES
      modifies this`bitmap, this`refs, this`used, this`failAfter, this`pinned, this`tables, this`pages
      ensures Valid() && pinned == old(pinned)
      ensures !ok ==> S() == old(S())
      ensures ok <==> CanResolve(old(S()), d, i, j, scratch, old(failAfter))
      ensures ok ==> CowResolved(old(S()), S(), d, i, j) && AtMost(old(bitmap), old(failAfter), bitmap, failAfter, 1)
    {
      hide Exact, InRange, Exclusive, LayoutOk, KernelOk, Unshared, Tallied, AtMost;
      ghost var s0 := S();
      AtMostNone(bitmap, failAfter, 1);
      SoleHolder(s0, Dir(d), d);
      if d == 0 || !tables[d][i].present {
        return false;
      }
      SlotInRange(s0, d, i);
      var t := tables[d][i].frame;
      var entry := tables[t][j];
      assert entry == Walk(s0, d, i, j);
      if !entry.present || !entry.user || !entry.cow || entry.writable {
        return false;
      }
      UserEntryOwned(s0, d, i, j);
      HeldIsCounted(s0, Leaf(d, i, j), entry.frame);
      var count := RefCount(entry.frame);
      if count == 0 {
        return false;
      }
      if count == 1 {
        TakeOver(s0, d, i, j, entry.(writable := true, cow := false));
        tables := tables[t := tables[t][j := entry.(writable := true, cow := false)]];
        return true;
      }
      ok := SplitCow(d, i, j);
    }

    /** The end of paging_resolve_cow_fault, for a page that other entries also map. */
    method SplitCow(d: nat, i: nat, j: nat) returns (ok: bool)
      requires Valid() && Owned(S(), d, i) && j < ENTRIES && UserLeaf(Walk(S(), d, i, j))
      requires Walk(S(), d, i, j).frame < |refs|
      modifies this`bitmap, this`refs, this`used, this`failAfter, this`pinned, this`tables, this`pages
      ensures Valid() && pinned == old(pinned)
      ensures !ok ==> S() == old(S())
      ensures ok <==> scratch && old(failAfter) != 0 && HasFree(old(S()))
      ensures ok ==> CowResolved(old(S()), S(), d, i, j) && AtMost(old(bitmap), old(failAfter), bitmap, failAfter, 1)
    {
      hide Exact, InRange, Exclusive, KernelOk, LayoutOk, Unshared, Tallied, Fresh, SameSpace, CowResolved, AtMost, Tick;
      ghost var s0 := S();
      var t := tables[d][i].frame;
      var entry := tables[t][j];
      var f := FrameAlloc();
      if f == 0 {
        return false;
      }
      SplitBudget(s0, f, old(failAfter), d, i, j, s0.refs[entry.frame] > 1);
      TakeUndone(s0, f);
      SplitPage(s0, f, d, i, j);
      if !scratch {
        var _ := FrameRelease(f);
        pinned := pinned - {f};
        return false;
      }
      pages := pages[f := pages[entry.frame]];
      tables := tables[t := tables[t][j := entry.(frame := f, writable := true, cow := false)]];
      pinned := pinned - {f};
      var _ := FrameRelease(entry.frame);
      return true;
    }

    /** paging_destroy_clone_skeleton: tables without user entries, then the directory. */
    method DestroySkeleton(d: nat)
      requires Inv(S()) && d in spaces && d != KERNEL_DIR
      requires forall a: nat, b: nat :: Owned(S(), d, a) ==> !Walk(S(), d, a, b).present
      modifies this`refs, this`bitmap, this`used, this`tables, this`spaces
      ensures Inv(S()) && |refs| == |old(refs)| && spaces == old(spaces) - {d}
      ensures forall c :: Root(spaces, c) ==> SameSpace(old(S()), S(), c)
    {
      hide Exact, InRange, Exclusive, LayoutOk, KernelOk, Unshared, Tallied;
      ghost var s0 := S();
      for i := 0 to ENTRIES
        invariant Inv(S()) && d in spaces && |refs| == |s0.refs|
        invariant S() == s0.(refs := refs, bitmap := bitmap, used := used, tables := tables)
        invariant forall a: nat :: a < i ==> !Owned(S(), d, a)
        invariant forall a: nat, b: nat :: Owned(S(), d, a) ==> !Walk(S(), d, a, b).present
        invariant forall c :: Root(spaces, c) && c != d ==> SameSpace(s0, S(), c)
      {
        if tables[d][i].present && !(i != 0 && !tables[d][i].user) {
          ghost var s1 := S();
          SoleHolder(s1, Table(d, i), tables[d][i].frame);
          assert NoUserEntry(s1, tables[d][i].frame) by {
            forall b: nat | b < ENTRIES
              ensures !UserLeaf(tables[tables[d][i].frame][b])
            {
              assert !Walk(s1, d, i, b).present;
            }
          }
          ReleaseTable(d, i);
          OthersSame(s0, s1, S(), d);
        }
      }
      ghost var s2 := S();
      ReleaseDirectory(d);
      OthersSame(s0, s2, S(), d);
    }

    /** paging_destroy_clone_with_refs */
    method DestroyCloneWithRefs(d: nat)
      requires Inv(S()) && d in spaces && d != KERNEL_DIR
      modifies this`refs, this`bitmap, this`used, this`tables, this`spaces
      ensures Inv(S()) && |refs| == |old(refs)| && spaces == old(spaces) - {d}
      ensures forall c :: Root(spaces, c) ==> SameSpace(old(S()), S(), c)
    {
      hide Exact, InRange, Exclusive, LayoutOk, KernelOk, Unshared, Tallied;
      ghost var s0 := S();
      for i := 0 to ENTRIES
        invariant Inv(S()) && d in spaces && |refs| == |s0.refs|
        invariant S() == s0.(refs := refs, bitmap := bitmap, used := used, tables := tables)
        invariant forall a: nat :: a < i ==> !Owned(S(), d, a)
        invariant forall c :: Root(spaces, c) && c != d ==> SameSpace(s0, S(), c)
      {
        if tables[d][i].present && !(i != 0 && !tables[d][i].user) {
          ghost var s1 := S();
          SoleHolder(s1, Table(d, i), tables[d][i].frame);
          ReleaseUserEntries(d, i);
          ghost var s2 := S();
          ReleaseTable(d, i);
          OthersSame(s0, s1, s2, d);
          OthersSame(s0, s2, S(), d);
        }
      }
      ghost var s3 := S();
      ReleaseDirectory(d);
      OthersSame(s0, s3, S(), d);
    }

    /** The check in phase 1 that every user frame of a table can be retained once more. */
    method RetainableTable(t: nat) returns (ok: bool, ghost bad: nat)
      requires WellShaped(S()) && t < |tables|
      ensures bad <= ENTRIES && (ok <==> bad == ENTRIES)
      ensures forall k :: 0 <= k < bad && UserLeaf(tables[t][k]) ==> Retainable(bitmap, refs, tables[t][k].frame)
      ensures !ok ==> bad < ENTRIES && UserLeaf(tables[t][bad]) && !Retainable(bitmap, refs, tables[t][bad].frame)
    {
      bad := ENTRIES;
      for j := 0 to ENTRIES
        invariant bad == ENTRIES
        invariant forall k :: 0 <= k < j && UserLeaf(tables[t][k]) ==> Retainable(bitmap, refs, tables[t][k].frame)
      {
        if tables[t][j].present && tables[t][j].user {
          var count := RefCount(tables[t][j].frame);
          if count == 0 || count == MAX_REFS {
            return false, j;
          }
        }
      }
      return true, ENTRIES;
    }

    /** Phase 1 for a slot whose table belongs to the parent alone: the clone gets a blank
        table, and every user frame of the parent's table must be retainable. */
    method CloneTable(src: nat, nd: nat, i: nat, ghost s0: State) returns (ok: bool)
      requires Inv(s0) && Inv(S()) && src in s0.spaces && Phase1(s0, S(), src, nd, i)
      requires Owned(S(), src, i) && i < ENTRIES && tables[src][i].frame < |tables|
      modifies this`bitmap, this`refs, this`used, this`failAfter, this`pinned, this`tables
      ensures Inv(S()) && (Phase1(s0, S(), src, nd, i) || Phase1(s0, S(), src, nd, i + 1))
      ensures ok ==> Phase1(s0, S(), src, nd, i + 1) && Spent(old(bitmap), old(failAfter), bitmap, failAfter, 1)
      ensures ok ==> KeptCounters(old(refs), refs)
      ensures !ok ==> Short(old(bitmap), old(failAfter), 1) || FullTable(old(S()), src, i)
    {
      hide Exact, InRange, Exclusive, LayoutOk, KernelOk, Unshared, Tallied, Short, Spent;
      ghost var s1 := S();
      var word := tables[src][i];
      var t := AllocTable();
      if t == 0 {
        return false;
      }
      ghost var m := S();
      assert Root(s1.spaces, nd) && Root(s1.spaces, src) && Root(s0.spaces, src);
      assert SameSpace(s1, m, nd) && SameSpace(s0, s1, src);
      SharedOutside(s1, src, i);
      BlankTableIsClean(m, t);
      AttachTable(m, nd, i, word.(frame := t));
      tables := tables[nd := tables[nd][i := word.(frame := t)]];
      pinned := pinned - {t};
      assert pinned == s1.pinned;
      Phase1Step(s0, s1, m, S(), src, nd, i, word.(frame := t));
      ghost var bad;
      ok, bad := RetainableTable(word.frame);
      if !ok {
        assert tables[word.frame][bad] == Walk(S(), src, i, bad) == Walk(s1, src, i, bad);
        NotRetainable(s1, S(), src, i, bad);
      }
    }

    /** Phase 1 of paging_clone_directory.  On failure the clone is taken down. */
    method ClonePhase1(src: nat, nd: nat, ghost s0: State) returns (ok: bool)
      requires Inv(s0) && Inv(S()) && src in s0.spaces && Phase1(s0, S(), src, nd, 0) && KeptCounters(s0.refs, refs)
      modifies this`bitmap, this`refs, this`used, this`failAfter, this`pinned, this`tables, this`spaces
      ensures Inv(S())
      ensures ok ==> Phase1(s0, S(), src, nd, ENTRIES)
      ensures !ok ==> SameMemory(s0, S())
      ensures ok ==> !Short(old(bitmap), old(failAfter), TablesOf(s0, src))
      ensures !ok ==> Short(old(bitmap), old(failAfter), TablesOf(s0, src)) || Saturates(s0, src)
    {
      hide Exact, InRange, Exclusive, LayoutOk, KernelOk, Unshared, Tallied, Short, Spent, Saturates, OwnedBelow, KeptCounters, FullTable;
      NoneSpent(s0, src, bitmap, failAfter);
      for i := 0 to ENTRIES
        invariant Inv(S()) && Phase1(s0, S(), src, nd, i) && KeptCounters(s0.refs, refs)
        invariant Spent(old(bitmap), old(failAfter), bitmap, failAfter, |OwnedBelow(s0, src, i)|)
      {
        OwnedStep(s0, src, i);
        ghost var s1, fa1 := S(), failAfter;
        assert Root(s0.spaces, src) && SameSpace(s0, s1, src);
        var word := tables[src][i];
        if word.present {
          SlotInRange(s1, src, i);
          if i != 0 && !word.user {
            SharedOutside(s1, src, i);
            ShareSlot(s1, nd, i, word);
            tables := tables[nd := tables[nd][i := word]];
            AllSame(s1);
            Phase1Step(s0, s1, s1, S(), src, nd, i, word);
          } else {
            ok := CloneTable(src, nd, i, s0);
            if !ok {
              ghost var s2 := S();
              CloneRefused(s0, s1, src, i, old(bitmap), old(failAfter), fa1);
              DestroySkeleton(nd);
              ClonedAway(s0, s2, S(), nd);
              return false;
            }
            SpentMore(old(bitmap), old(failAfter), s1.bitmap, fa1, bitmap, failAfter, |OwnedBelow(s0, src, i)|, 1);
            CountersTrans(s0.refs, s1.refs, refs);
          }
        }
      }
      SpentShort(old(bitmap), old(failAfter), bitmap, failAfter, TablesOf(s0, src), 0);
      NeverShort(bitmap, failAfter);
      return true;
    }

    /** Phase 2a for one entry: if present it is copied, a user entry after its frame is
        retained. */
    method ShareEntry(src: nat, nd: nat, i: nat, j: nat, ghost s0: State) returns (ok: bool)
      requires Inv(s0) && Inv(S()) && src in s0.spaces && Phase2(s0, S(), src, nd, i, j)
      requires i < ENTRIES && j < ENTRIES && Owned(S(), nd, i)
      modifies this`refs, this`tables
      ensures Inv(S()) && Owned(S(), nd, i)
      ensures Phase2(s0, S(), src, nd, i, if ok then j + 1 else j)
      ensures !ok ==> Saturates(s0, src)
    {
      hide Exact, InRange, Exclusive, LayoutOk, KernelOk, Unshared, Tallied, Saturates;
      ghost var s1 := S();
      assert Root(s0.spaces, src) && SameSpace(s0, s1, src) && Root(s1.spaces, nd) && Root(s1.spaces, src);
      SlotInRange(s1, src, i);
      SlotInRange(s1, nd, i);
      var nt := tables[nd][i].frame;
      var e := tables[tables[src][i].frame][j];
      assert e == Walk(s1, src, i, j) == Walk(s0, src, i, j);
      assert !Walk(s1, nd, i, j).present;
      if !e.present {
        return true;
      }
      if !e.user {
        EntryIsUser(s1, src, i, j);
        RetagLeaf(s1, nd, i, j, e);
        tables := tables[nt := tables[nt][j := e]];
      } else {
        UserEntryOwned(s1, src, i, j);
        HeldIsCounted(s1, Leaf(src, i, j), e.frame);
        RetainableBelowMax(s1, e.frame);
        var retained := FrameRetain(e.frame);
        if !retained {
          FullWhileSharing(s0, s1, src, nd, i, j, e.frame);
          return false;
        }
        ShareLeaf(s1, nd, i, j, e, Leaf(src, i, j));
        tables := tables[nt := tables[nt][j := e]];
      }
      Phase2Step(s0, s1, S(), src, nd, i, j, e);
      return true;
    }

    /** Phase 2a for one table. */
    method ShareTable(src: nat, nd: nat, i: nat, ghost s0: State) returns (ok: bool)
      requires Inv(s0) && Inv(S()) && src in s0.spaces && i < ENTRIES && Phase2(s0, S(), src, nd, i, 0)
      requires Owned(S(), nd, i)
      modifies this`refs, this`tables
      ensures Inv(S())
      ensures ok ==> Phase2(s0, S(), src, nd, i, ENTRIES)
      ensures !ok ==> (exists j: nat :: Phase2(s0, S(), src, nd, i, j)) && Saturates(s0, src)
    {
      hide Exact, InRange, Exclusive, LayoutOk, KernelOk, Unshared, Tallied, Phase2, Owned, Saturates;
      for j := 0 to ENTRIES
        invariant Inv(S()) && Phase2(s0, S(), src, nd, i, j) && Owned(S(), nd, i)
      {
        ok := ShareEntry(src, nd, i, j, s0);
        if !ok {
          return false;
        }
      }
      return true;
    }

    /** Phase 2b for one table: writable and copy-on-write pages become read-only
        copy-on-write pages on both sides. */
    method CommitTable(src: nat, nd: nat, i: nat, ghost s0: State)
      requires Inv(s0) && Inv(S()) && src in s0.spaces && i < ENTRIES && Phase3(s0, S(), src, nd, i, 0)
      requires Owned(S(), nd, i)
      modifies this`tables
      ensures Inv(S()) && Phase3(s0, S(), src, nd, i, ENTRIES)
    {
      hide Exact, InRange, Exclusive, LayoutOk, KernelOk, Unshared, Tallied;
      SlotInRange(S(), src, i);
      SlotInRange(S(), nd, i);
      var st, nt := tables[src][i].frame, tables[nd][i].frame;
      for j := 0 to ENTRIES
        invariant Inv(S()) && Phase3(s0, S(), src, nd, i, j) && Owned(S(), nd, i)
        invariant st == tables[src][i].frame < |tables| && nt == tables[nd][i].frame < |tables|
      {
        ghost var s1 := S();
        var e := tables[st][j];
        assert e == Walk(s1, src, i, j) == Walk(s0, src, i, j);
        if e.present && e.user && (e.writable || e.cow) {
          assert Walk(s1, nd, i, j) == e;
          assert Owned(s1, src, i);
          var c := e.(writable := false, cow := true);
          RetagLeaf(s1, src, i, j, c);
          tables := tables[st := tables[st][j := c]];
          ghost var m := S();
          assert Root(s1.spaces, nd) && Root(s1.spaces, src);
          RetagLeaf(m, nd, i, j, c);
          tables := tables[nt := tables[nt][j := c]];
          Phase3Step(s0, s1, m, S(), src, nd, i, j, c);
          assert Root(m.spaces, nd) && Root(m.spaces, src);
        }
      }
    }

    /** Phase 2a of paging_clone_directory.  On failure the clone is taken down. */
    method ClonePhase2(src: nat, nd: nat, ghost s0: State) returns (ok: bool)
      requires Inv(s0) && Inv(S()) && src in s0.spaces && nd in spaces && Phase2(s0, S(), src, nd, 0, 0)
      modifies this`bitmap, this`refs, this`used, this`tables, this`spaces
      ensures Inv(S())
      ensures ok ==> Phase2(s0, S(), src, nd, ENTRIES, 0)
      ensures !ok ==> SameMemory(s0, S()) && Saturates(s0, src)
    {
      hide Exact, InRange, Exclusive, LayoutOk, KernelOk, Unshared, Tallied, Phase2, Saturates;
      for i := 0 to ENTRIES
        invariant Inv(S()) && nd in spaces && Phase2(s0, S(), src, nd, i, 0)
      {
        if tables[nd][i].present && !(i != 0 && !tables[nd][i].user) {
          ok := ShareTable(src, nd, i, s0);
          if !ok {
            ghost var s2 := S();
            ghost var j: nat :| Phase2(s0, s2, src, nd, i, j);
            Phase2Joined(s0, s2, src, nd, i, j);
            DestroyCloneWithRefs(nd);
            ClonedAway(s0, s2, S(), nd);
            return false;
          }
          Phase2NextSlot(s0, S(), src, nd, i, ENTRIES);
        } else {
          Phase2NextSlot(s0, S(), src, nd, i, 0);
        }
      }
      return true;
    }

    /** Phase 2b of paging_clone_directory. */
    method ClonePhase3(src: nat, nd: nat, ghost s0: State)
      requires Inv(s0) && Inv(S()) && src in s0.spaces && nd in spaces && Phase3(s0, S(), src, nd, 0, 0)
      modifies this`tables
      ensures Inv(S()) && Phase3(s0, S(), src, nd, ENTRIES, 0)
    {
      hide Exact, InRange, Exclusive, LayoutOk, KernelOk, Unshared, Tallied, Phase3;
      for i := 0 to ENTRIES
        invariant Inv(S()) && nd in spaces && Phase3(s0, S(), src, nd, i, 0)
      {
        if tables[nd][i].present && !(i != 0 && !tables[nd][i].user) {
          CommitTable(src, nd, i, s0);
          Phase3NextSlot(s0, S(), src, nd, i, ENTRIES);
        } else {
          Phase3NextSlot(s0, S(), src, nd, i, 0);
        }
      }
    }

    /** paging_clone_directory: all or nothing, whichever allocation or retain fails. */
    method CloneDirectory(src: nat) returns (nd: nat)
      requires Valid() && src in spaces
      modifies this`bitmap, this`refs, this`used, this`failAfter, this`pinned, this`tables, this`spaces
      ensures Valid()
      ensures nd != 0 <==> CanClone(old(S()), src, scratch, old(failAfter))
      ensures nd == 0 ==> SameMemory(old(S()), S())
      ensures nd == 0 ==> refs == old(refs) && bitmap == old(bitmap) && used == old(used)
      ensures nd != 0 ==> LOW <= nd < |old(refs)| && old(refs[nd]) == 0 && Cloned(old(S()), S(), src, nd)
    {
      hide Exact, InRange, Exclusive, LayoutOk, Unshared, Tallied, SameSpace, Short, Spent, Saturates, OwnedBelow;
      ghost var s0 := S();
      SameMemoryRefl(s0);
      SoleHolder(s0, Dir(src), src);
      if src == 0 || !scratch {
        return 0;
      }
      nd := AllocTable();
      if nd == 0 {
        ShortMore(bitmap, old(failAfter), 1, 1 + TablesOf(s0, src));
        return 0;
      }
      SpentShort(s0.bitmap, old(failAfter), bitmap, failAfter, 1, TablesOf(s0, src));
      ghost var s1 := S();
      BlankTableIsClean(s1, nd);
      PinToDir(s1, nd);
      spaces, pinned := spaces + {nd}, pinned - {nd};
      CloneStarts(s0, s1, S(), src, nd);
      var ok := ClonePhase1(src, nd, s0);
      if !ok {
        Abandoned(s0, S());
        return 0;
      }
      Phase1Ends(s0, S(), src, nd);
      ok := ClonePhase2(src, nd, s0);
      if !ok {
        Abandoned(s0, S());
        return 0;
      }
      Phase2Ends(s0, S(), src, nd);
      ClonePhase3(src, nd, s0);
      RoomForAll(s0, S(), src, nd);
      Finish(s0, S(), src, nd);
      ClonedUnshared(s0, S(), src, nd);
    }
  }
}
