/** kernel/vm.c, kernel/uaccess.c and the brk case of kernel/syscall.c: page faults, kernel
    copies to user memory and heap growth, on top of the shared page tables. */
module VmKernel {
  import opened VmState
  import opened VmLemmas
  import opened VmSteps
  import opened VmClone
  import opened VmScarce
  import opened VmMachine
  import opened VmSpec
  import opened VmView

  datatype Fault = Fatal | Handled | Guard | Oom

  predicate GuardAddress(addr: nat) { GUARD_BOTTOM <= addr < STACK_BOTTOM }

  /** No process but p can tell the two states apart by p's space, and p cannot either. */
  ghost predicate Invisible(s: State, s2: State, p: Proc)
    requires WellShaped(s) && WellShaped(s2)
  {
    forall q: Proc :: ProcOk(s, q) && (q.cr3 == p.cr3 ==> q == p) ==> SameView(s, s2, q)
  }

  lemma InvisibleRefl(s: State, p: Proc)
    requires WellShaped(s)
    ensures Invisible(s, s, p)
  {
  }

  /** A page that was not mapped now maps a frame of zeros that nobody used. */
  ghost predicate DemandMapped(s: State, s2: State, d: nat, v: nat)
    requires WellShaped(s) && WellShaped(s2)
  {
    var f := EntryOf(s2, d, v).frame;
    && OnlyPage(s, s2, d, DirIndex(v), TableIndex(v), Entry(f, true, true, true, false))
    && f < |s.refs| && s.refs[f] == 0
    && s2.pages == s.pages[f := ZeroPage()]
  }

  lemma DemandInvisible(s: State, s2: State, p: Proc, v: nat)
    requires Inv(s) && WellShaped(s2) && ProcOk(s, p) && UserPage(v) && !UserLeaf(EntryOf(s, p.cr3, v))
    requires HeapPage(v) && v < EndPage(p.heapEnd)
    requires DemandMapped(s, s2, p.cr3, v)
    ensures Invisible(s, s2, p)
  {
    hide Exact, InRange, Exclusive, Tallied, KernelOk, LayoutOk, Walk, Holds, DirIndex, TableIndex, ImageOf, SameSpace;
    forall q: Proc | ProcOk(s, q) && (q.cr3 == p.cr3 ==> q == p)
      ensures SameView(s, s2, q)
    {
      if q.cr3 == p.cr3 {
        OnePage(s, s2, p, v, EntryOf(s2, p.cr3, v));
      } else {
        assert Root(s.spaces, q.cr3);
        Undisturbed(s, s2, q);
      }
    }
  }

  lemma CowInvisible(s: State, s2: State, p: Proc, v: nat)
    requires Inv(s) && WellShaped(s2) && ProcOk(s, p) && UserPage(v) && CowEntry(EntryOf(s, p.cr3, v))
    requires CowResolved(s, s2, p.cr3, DirIndex(v), TableIndex(v))
    ensures Invisible(s, s2, p)
  {
    hide Exact, InRange, Exclusive, Tallied, KernelOk, LayoutOk, Walk, Holds, DirIndex, TableIndex, ImageOf, SameSpace;
    MappedIsCounted(s, p.cr3, v);
    forall q: Proc | ProcOk(s, q) && (q.cr3 == p.cr3 ==> q == p)
      ensures SameView(s, s2, q)
    {
      if q.cr3 == p.cr3 {
        OnePage(s, s2, p, v, EntryOf(s2, p.cr3, v));
      } else {
        assert Root(s.spaces, q.cr3);
        Undisturbed(s, s2, q);
      }
    }
  }

  /** Every space but d is what it was, and so is what the kernel itself holds. */
  ghost predicate Kept(s: State, s2: State, d: nat)
    requires WellShaped(s) && WellShaped(s2)
  {
    && s2.kernel == s.kernel && s2.pinned == s.pinned && |s2.refs| == |s.refs|
    && s2.spaces - {d} == s.spaces - {d}
    && forall c :: Root(s.spaces, c) && c != d ==> SameSpace(s, s2, c)
  }

  lemma KeptTrans(s0: State, s1: State, s2: State, d: nat)
    requires WellShaped(s0) && WellShaped(s1) && WellShaped(s2) && Kept(s0, s1, d) && Kept(s1, s2, d)
    ensures Kept(s0, s2, d)
  {
    hide WellShaped, Walk;
    forall c | Root(s0.spaces, c) && c != d
      ensures SameSpace(s0, s2, c)
    {
      assert c in s0.spaces - {d} || c == KERNEL_DIR;
      assert SameSpace(s0, s1, c) && SameSpace(s1, s2, c);
    }
  }

  /** Every space but d that was there is there still, and is what it was. */
  ghost predicate Aside(s: State, s2: State, d: nat)
    requires WellShaped(s) && WellShaped(s2)
  {
    forall c :: c in s.spaces && c != d ==> c in s2.spaces && SameSpace(s, s2, c)
  }

  lemma AsideSelf(s: State, d: nat)
    requires WellShaped(s)
    ensures Aside(s, s, d)
  {
  }

  lemma AsideTrans(s0: State, s1: State, s2: State, d: nat)
    requires WellShaped(s0) && WellShaped(s1) && WellShaped(s2) && Aside(s0, s1, d) && Aside(s1, s2, d)
    ensures Aside(s0, s2, d)
  {
    hide WellShaped, Walk;
    forall c | c in s0.spaces && c != d
      ensures c in s2.spaces && SameSpace(s0, s2, c)
    {
      assert SameSpace(s0, s1, c) && SameSpace(s1, s2, c);
    }
  }

  lemma OthersAside(s: State, s2: State, d: nat)
    requires WellShaped(s) && WellShaped(s2) && s.spaces <= s2.spaces
    requires forall c :: Root(s.spaces, c) && c != d ==> SameSpace(s, s2, c)
    ensures Aside(s, s2, d)
  {
    hide WellShaped, Walk, SameSpace;
    assert forall c :: c in s.spaces ==> Root(s.spaces, c);
  }

  lemma KeptAside(s: State, s2: State, d: nat)
    requires WellShaped(s) && WellShaped(s2) && Kept(s, s2, d)
    ensures Aside(s, s2, d)
  {
    hide WellShaped, Walk, SameSpace;
    assert forall c :: c in s.spaces ==> Root(s.spaces, c);
    assert forall c :: c in s.spaces - {d} ==> c in s2.spaces;
  }

  lemma AllAside(s: State, s2: State)
    requires WellShaped(s) && WellShaped(s2) && s.spaces <= s2.spaces
    requires forall c :: Root(s.spaces, c) ==> SameSpace(s, s2, c)
    ensures forall d :: Aside(s, s2, d)
  {
    hide WellShaped, Walk, SameSpace;
    assert forall c :: c in s.spaces ==> Root(s.spaces, c);
  }

  lemma SameTablesAside(s: State, s2: State, d: nat)
    requires WellShaped(s) && WellShaped(s2) && s2 == s.(pages := s2.pages)
    ensures Aside(s, s2, d)
  {
    SameWalk(s, s2);
    hide Walk;
    assert forall c :: c in s.spaces ==> Root(s.spaces, c);
  }

  /** A page cannot be made writable for want of frames. */
  ghost predicate WriteShort(s: State, p: Proc, v: nat, scratch: bool, failAfter: int)
    requires WellShaped(s)
  {
    var e := EntryOf(s, p.cr3, v);
    if CowEntry(e) then !CanResolve(s, p.cr3, DirIndex(v), TableIndex(v), scratch, failAfter)
    else !e.present && p.heapStart <= v * 4096 < p.heapEnd && PageShort(s, p.cr3, DirIndex(v), failAfter)
  }

  /** A page fault cannot be handled for want of frames. */
  ghost predicate FaultShort(s: State, p: Proc, addr: nat, write: bool, scratch: bool, failAfter: int)
    requires WellShaped(s)
  {
    var v := PageNumber(addr);
    var e := EntryOf(s, p.cr3, v);
    if e.present then write && e.cow && !CanResolve(s, p.cr3, DirIndex(v), TableIndex(v), scratch, failAfter)
    else p.heapStart <= addr < p.heapEnd && PageShort(s, p.cr3, DirIndex(v), failAfter)
  }

  lemma EnoughToWrite(s: State, p: Proc, v: nat, scratch: bool, failAfter: int)
    requires Inv(s) && ProcOk(s, p) && scratch && !Short(s.bitmap, failAfter, 2)
    ensures !WriteShort(s, p, v, scratch, failAfter)
  {
    hide Exact, InRange, Exclusive, Tallied, KernelOk, LayoutOk, Walk, Holds, RefSet, Short;
    EnoughForPage(s, p.cr3, DirIndex(v), failAfter);
    if CowEntry(EntryOf(s, p.cr3, v)) {
      MappedIsCounted(s, p.cr3, v);
    }
  }

  lemma DestroyKept(s: State, s2: State, d: nat)
    requires WellShaped(s) && WellShaped(s2) && s2.kernel == s.kernel && s2.pinned == s.pinned && |s2.refs| == |s.refs|
    requires s2.spaces == s.spaces - {d} && forall c :: Root(s2.spaces, c) ==> SameSpace(s, s2, c)
    ensures Kept(s, s2, d)
  {
    hide WellShaped, Walk, SameSpace;
  }

  lemma OnlyPageKept(s: State, s2: State, d: nat, i: nat, j: nat, e: Entry)
    requires WellShaped(s) && WellShaped(s2) && OnlyPage(s, s2, d, i, j, e) && s2.pinned == s.pinned
    ensures Kept(s, s2, d)
  {
    hide WellShaped, Walk, SameSpace;
  }

  /** A space that came and went leaves every counter, the bitmap and the used count as they were. */
  lemma KeptCounts(s: State, s2: State, d: nat)
    requires Inv(s) && Inv(s2) && Kept(s, s2, d) && d !in s.spaces && d !in s2.spaces && d != KERNEL_DIR
    ensures s2.refs == s.refs && s2.bitmap == s.bitmap && s2.used == s.used
  {
    assert s2.spaces - {d} == s2.spaces && s.spaces - {d} == s.spaces;
    SpacesSame(s, s2);
    forall f | 0 <= f < |s.refs|
      ensures s2.refs[f] == s.refs[f] && s2.bitmap[f] == s.bitmap[f]
    {
      assert RefSet(s, f) == RefSet(s2, f);
    }
    assert s2.bitmap == s.bitmap;
  }

  class Kernel {
    const m: Machine
    var procs: map<nat, Proc>

    constructor (machine: Machine)
      requires machine.Valid()
      ensures m == machine && procs == map[]
    {
      m := machine;
      procs := map[];
    }

    ghost predicate Valid()
      reads this, m
    {
      m.Valid() && Running(m.S(), procs) && m.spaces == SpacesOf(procs)
    }

    /** What the processes see. */
    ghost function Images(): map<nat, Image>
      requires WellShaped(m.S())
      reads this, m
    {
      ImagesOf(m.S(), procs)
    }

    /** demand_map_heap_page.  The zeros are stored through the active directory. */
    method DemandMapHeapPage(p: Proc, v: nat) returns (r: Fault)
      requires m.Valid() && p.cr3 in m.spaces && m.active == p.cr3
      requires UserPage(v) && !UserLeaf(EntryOf(m.S(), p.cr3, v))
      modifies m`bitmap, m`refs, m`used, m`failAfter, m`pinned, m`tables, m`pages
      ensures m.Valid() && m.pinned == old(m.pinned)
      ensures r == Handled || r == Oom
      ensures r == Oom <==> PageShort(old(m.S()), p.cr3, DirIndex(v), old(m.failAfter))
      ensures r == Oom ==> m.S() == old(m.S())
      ensures r == Handled ==> DemandMapped(old(m.S()), m.S(), p.cr3, v)
      ensures r == Handled ==> AtMost(old(m.bitmap), old(m.failAfter), m.bitmap, m.failAfter, 2)
    {
      hide Exact, InRange, Exclusive, Tallied, KernelOk, LayoutOk, Unshared, Holds, Short, AtMost, Tick;
      ghost var s0 := m.S();
      var i, j := DirIndex(v), TableIndex(v);
      var phys := m.FrameAlloc();
      if phys == 0 {
        NoFrameNoTable(s0, old(m.failAfter));
        return Oom;
      }
      ghost var s1, fa1 := m.S(), m.failAfter;
      FrameThenTable(s0, old(m.failAfter), phys);
      AtMostOne(s0.bitmap, old(m.failAfter), phys);
      TakeUndone(s0, phys);
      assert Root(s0.spaces, p.cr3) && SameSpace(s0, s1, p.cr3);
      var mapped := m.MapPage(p.cr3, i, j, phys, Entry(0, true, true, true, false));
      if !mapped {
        var _ := m.FrameRelease(phys);
        m.pinned := m.pinned - {phys};
        return Oom;
      }
      ghost var s2 := m.S();
      AtMostMore(s0.bitmap, old(m.failAfter), s1.bitmap, fa1, s2.bitmap, m.failAfter, 1, 1);
      UserEntryOwned(s2, p.cr3, i, j);
      SlotInRange(s2, m.active, i);
      var target := m.tables[m.tables[m.active][i].frame][j].frame;
      PagesIrrelevant(s2, s2.(pages := m.pages[target := ZeroPage()]));
      m.pages := m.pages[target := ZeroPage()];
      DemandDone(s0, s1, s2, m.S(), p.cr3, v, phys);
      return Handled;
    }

    /** paging_get_page_flags_in_directory, with the frame left in the word. */
    method PageFlags(d: nat, v: nat) returns (e: Entry)
      requires Inv(m.S()) && d in m.spaces && DirIndex(v) < ENTRIES
      ensures e == EntryOf(m.S(), d, v)
    {
      var word := m.tables[d][DirIndex(v)];
      if !word.present {
        return BLANK;
      }
      assert Root(m.spaces, d);
      SlotInRange(m.S(), d, DirIndex(v));
      return m.tables[word.frame][TableIndex(v)];
    }

    /** vm_prepare_user_write_page */
    method PrepareUserWritePage(p: Proc, v: nat) returns (r: Fault)
      requires m.Valid() && ProcOk(m.S(), p) && m.active == p.cr3
      modifies m`bitmap, m`refs, m`used, m`failAfter, m`pinned, m`tables, m`pages
      ensures m.Valid() && m.pinned == old(m.pinned) && m.spaces == old(m.spaces)
      ensures Invisible(old(m.S()), m.S(), p)
      ensures r != Handled ==> m.S() == old(m.S())
      ensures r != Guard
      ensures r == Handled ==> UserPage(v) && UserLeaf(EntryOf(m.S(), p.cr3, v)) && EntryOf(m.S(), p.cr3, v).writable
      ensures r == Handled ==> ImageOf(old(m.S()), p).grant[v] == ReadWrite
      ensures forall w: nat :: w != v ==> EntryOf(m.S(), p.cr3, w) == EntryOf(old(m.S()), p.cr3, w)
      ensures r == Fatal <==> !UserPage(v) || ImageOf(old(m.S()), p).grant[v] != ReadWrite
      ensures r == Oom <==> UserPage(v) && WriteShort(old(m.S()), p, v, m.scratch, old(m.failAfter))
      ensures var e := EntryOf(old(m.S()), p.cr3, v); UserPage(v) && UserLeaf(e) && e.writable ==> r == Handled && m.S() == old(m.S())
      ensures Aside(old(m.S()), m.S(), p.cr3)
      ensures r == Handled ==> AtMost(old(m.bitmap), old(m.failAfter), m.bitmap, m.failAfter, 2)
    {
      hide Exact, InRange, Exclusive, Tallied, KernelOk, LayoutOk, Unshared, Holds, Walk, SameSpace, Aside, PageShort, AtMost;
      ghost var s0 := m.S();
      AsideSelf(s0, p.cr3);
      AtMostNone(m.bitmap, m.failAfter, 2);
      InvisibleRefl(s0, p);
      if p.cr3 == 0 || !UserPage(v) || GuardAddress(v * 4096) {
        assert p.cr3 != 0 by { SoleHolder(s0, Dir(p.cr3), p.cr3); }
        GuardNeverGranted(s0, p, v * 4096);
        return Fatal;
      }
      var e := PageFlags(p.cr3, v);
      if e.present && e.user && e.writable {
        return Handled;
      }
      if e.present && e.user && e.cow {
        var ok := m.ResolveCow(p.cr3, DirIndex(v), TableIndex(v));
        if ok {
          CowInvisible(s0, m.S(), p, v);
          OtherPages(s0, m.S(), p.cr3, v, EntryOf(m.S(), p.cr3, v));
          OthersAside(s0, m.S(), p.cr3);
          AtMostLess(s0.bitmap, old(m.failAfter), m.bitmap, m.failAfter, 1, 2);
          return Handled;
        }
        return Oom;
      }
      if !e.present && p.heapStart <= v * 4096 && v * 4096 < p.heapEnd {
        r := DemandMapHeapPage(p, v);
        if r == Handled {
          DemandInvisible(s0, m.S(), p, v);
          OtherPages(s0, m.S(), p.cr3, v, EntryOf(m.S(), p.cr3, v));
          OthersAside(s0, m.S(), p.cr3);
        }
        return;
      }
      if e.present {
        EntryIsUser(s0, p.cr3, DirIndex(v), TableIndex(v));
      }
      assert GrantOf(s0, p.cr3, p.heapEnd, v) != ReadWrite;
      return Fatal;
    }

    /** vm_handle_page_fault for a fault raised in user mode.  The present bit of the error
        code is the hardware's verdict on the tables. */
    method HandlePageFault(p: Proc, addr: nat, present: bool, write: bool) returns (r: Fault)
      requires m.Valid() && ProcOk(m.S(), p) && m.active == p.cr3 && addr < 0x1_0000_0000
      requires present <==> EntryOf(m.S(), p.cr3, PageNumber(addr)).present
      modifies m`bitmap, m`refs, m`used, m`failAfter, m`pinned, m`tables, m`pages
      ensures m.Valid() && m.pinned == old(m.pinned) && m.spaces == old(m.spaces)
      ensures Invisible(old(m.S()), m.S(), p)
      ensures r != Handled ==> m.S() == old(m.S())
      ensures r == Handled ==> var e := EntryOf(m.S(), p.cr3, PageNumber(addr)); UserLeaf(e) && e.writable
      ensures GivesUp(old(m.S()), p, addr, write, r)
      ensures r == Handled || r == Oom ==> !GivesUp(old(m.S()), p, addr, write, Fatal)
      ensures r == Handled || r == Oom ==> !GivesUp(old(m.S()), p, addr, write, Guard)
      ensures r == Oom <==> FaultShort(old(m.S()), p, addr, write, m.scratch, old(m.failAfter))
      ensures Aside(old(m.S()), m.S(), p.cr3)
    {
      hide Exact, InRange, Exclusive, Tallied, KernelOk, LayoutOk, Unshared, Holds, Walk, SameSpace, Aside, PageShort, AtMost;
      ghost var s0 := m.S();
      AsideSelf(s0, p.cr3);
      InvisibleRefl(s0, p);
      var v := PageNumber(addr);
      SoleHolder(s0, Dir(p.cr3), p.cr3);
      if p.cr3 == 0 {
        return Fatal;
      }
      if present && write {
        var ok := m.ResolveCow(p.cr3, DirIndex(v), TableIndex(v));
        if ok {
          UserEntryOwned(s0, p.cr3, DirIndex(v), TableIndex(v));
          CowInvisible(s0, m.S(), p, v);
          OthersAside(s0, m.S(), p.cr3);
          return Handled;
        }
        var e := PageFlags(p.cr3, v);
        return if e.cow then Oom else Fatal;
      }
      if !present {
        GuardNeverGranted(s0, p, addr);
        if GuardAddress(addr) {
          return Guard;
        }
        if p.heapStart <= addr && addr < p.heapEnd {
          r := DemandMapHeapPage(p, v);
          if r == Handled {
            DemandInvisible(s0, m.S(), p, v);
            OthersAside(s0, m.S(), p.cr3);
          }
          return;
        }
      }
      return Fatal;
    }

    /** A byte loaded by the running process: the walk of the hardware, a fault if it fails,
        and the instruction again once the fault is handled. */
    method UserLoad(pid: nat, addr: nat) returns (r: Load)
      requires Valid() && pid in procs && m.active == procs[pid].cr3 && addr < 0x1_0000_0000
      modifies m`bitmap, m`refs, m`used, m`failAfter, m`pinned, m`tables, m`pages
      ensures Valid() && Images() == old(Images()) && m.pinned == old(m.pinned)
      ensures r.Loaded? ==> MayRead(old(Images())[pid], addr) && r.value == Peek(old(Images())[pid], addr)
      ensures r.Killed? && r.reason != Oom <==> !MayRead(old(Images())[pid], addr) || OutOfReach(old(m.S()), procs[pid], addr)
      ensures r == Killed(Oom) <==> FaultShort(old(m.S()), procs[pid], addr, false, m.scratch, old(m.failAfter))
      ensures Aside(old(m.S()), m.S(), procs[pid].cr3)
    {
      hide Exact, InRange, Exclusive, Tallied, KernelOk, LayoutOk, Unshared, Holds, EntryOf, ImageOf, MayRead, Peek,
           Invisible, GivesUp, OutOfReach, Aside, PageShort;
      ghost var s0 := m.S();
      AsideSelf(s0, procs[pid].cr3);
      LoadDecided(s0, procs[pid], addr);
      var p := procs[pid];
      var v := PageNumber(addr);
      var e := PageFlags(p.cr3, v);
      WalkMeans(s0, p, addr);
      if !(m.tables[p.cr3][DirIndex(v)].user && e.present && e.user) {
        var fault := HandlePageFault(p, addr, e.present, false);
        ImagesSame(s0, m.S(), procs, pid);
        if fault != Handled {
          return Killed(fault);
        }
        e := PageFlags(p.cr3, v);
        WalkMeans(m.S(), p, addr);
      }
      return Loaded(m.pages[e.frame][PageOffset(addr)]);
    }

    /** A byte stored through a writable user entry of the active directory. */
    method StoreByte(pid: nat, addr: nat, b: Byte)
      requires Valid() && pid in procs && m.active == procs[pid].cr3 && addr < 0x1_0000_0000
      requires var e := EntryOf(m.S(), procs[pid].cr3, PageNumber(addr)); UserLeaf(e) && e.writable
      modifies m`pages
      ensures Valid() && MayWrite(old(Images())[pid], addr)
      ensures Images() == old(Images())[pid := Poke(old(Images())[pid], addr, b)]
      ensures forall v: nat :: EntryOf(m.S(), procs[pid].cr3, v) == EntryOf(old(m.S()), procs[pid].cr3, v)
      ensures Aside(old(m.S()), m.S(), procs[pid].cr3)
    {
      hide Exact, InRange, Exclusive, Tallied, KernelOk, LayoutOk, Unshared, Holds, Walk, ImageOf, RefSet, Aside;
      ghost var s0 := m.S();
      var p := procs[pid];
      var v := PageNumber(addr);
      WalkMeans(s0, p, addr);
      var e := PageFlags(p.cr3, v);
      forall qid | qid in procs
        ensures var s2 := Stored(s0, e.frame, PageOffset(addr), b);
                && Inv(s2) && Unshared(s2) && ProcOk(s2, procs[qid])
                && ImageOf(s2, procs[qid]) ==
                   if procs[qid].cr3 == p.cr3
                   then PokedImage(ImageOf(s0, procs[qid]), v, PageOffset(addr), b) else ImageOf(s0, procs[qid])
      {
        StoreView(s0, p.cr3, v, PageOffset(addr), b, procs[qid]);
      }
      m.pages := m.pages[e.frame := m.pages[e.frame][PageOffset(addr) := b]];
      SameWalk(s0, m.S());
      SameTablesAside(s0, m.S(), p.cr3);
      StoredImages(s0, m.S(), procs, pid, addr, b);
    }

    /** A byte stored by the running process, with the fault that may come first. */
    method UserStore(pid: nat, addr: nat, b: Byte) returns (r: Store)
      requires Valid() && pid in procs && m.active == procs[pid].cr3 && addr < 0x1_0000_0000
      modifies m`bitmap, m`refs, m`used, m`failAfter, m`pinned, m`tables, m`pages
      ensures Valid() && m.pinned == old(m.pinned)
      ensures r.StoreDone? ==> MayWrite(old(Images())[pid], addr)
      ensures r.StoreDone? ==> Images() == old(Images())[pid := Poke(old(Images())[pid], addr, b)]
      ensures r.StoreKilled? ==> Images() == old(Images())
      ensures r.StoreDone? <==>
        MayWrite(old(Images())[pid], addr) && !OutOfReach(old(m.S()), procs[pid], addr) &&
        !StoreShort(old(m.S()), procs[pid], addr, m.scratch, old(m.failAfter))
      ensures r == StoreKilled(Oom) <==> StoreShort(old(m.S()), procs[pid], addr, m.scratch, old(m.failAfter))
      ensures Aside(old(m.S()), m.S(), procs[pid].cr3)
    {
      hide Exact, InRange, Exclusive, Tallied, KernelOk, LayoutOk, Unshared, Holds, EntryOf, ImageOf,
           MayRead, MayWrite, Peek, Poke, Invisible, GivesUp, OutOfReach, Aside, FaultShort;
      ghost var s0 := m.S();
      AsideSelf(s0, procs[pid].cr3);
      StoreDecided(s0, procs[pid], addr, m.scratch, m.failAfter);
      var p := procs[pid];
      var v := PageNumber(addr);
      var e := PageFlags(p.cr3, v);
      WalkMeans(s0, p, addr);
      var word := m.tables[p.cr3][DirIndex(v)];
      if !(word.user && word.writable && e.present && e.user && e.writable) {
        var fault := HandlePageFault(p, addr, e.present, true);
        ImagesSame(s0, m.S(), procs, pid);
        if fault != Handled {
          return StoreKilled(fault);
        }
      }
      ghost var s1 := m.S();
      StoreByte(pid, addr, b);
      AsideTrans(s0, s1, m.S(), p.cr3);
      return StoreDone;
    }

    /** uaccess_prepare_write for a range in user space: every page of it becomes writable. */
    method PrepareWrite(pid: nat, addr: nat, size: nat) returns (status: Uaccess)
      requires Valid() && pid in procs && m.active == procs[pid].cr3
      requires size > 0 && USER_START <= addr && addr + size <= USER_END
      modifies m`bitmap, m`refs, m`used, m`failAfter, m`pinned, m`tables, m`pages
      ensures Valid() && Images() == old(Images()) && m.pinned == old(m.pinned)
      ensures status == Success ==> WritablePages(m.S(), procs[pid].cr3, PageNumber(addr), PageNumber(addr + size - 1))
      ensures status == Efault ==> !MayWriteAll(old(Images())[pid], addr, size)
      ensures status == Enomem ==> !m.scratch || Short(old(m.bitmap), old(m.failAfter), 2 * PagesIn(addr, size))
      ensures old(Ready(m.S(), procs[pid].cr3, addr, size)) ==> status == Success && m.S() == old(m.S())
      ensures Aside(old(m.S()), m.S(), procs[pid].cr3)
    {
      hide Exact, InRange, Exclusive, Tallied, KernelOk, LayoutOk, Unshared, Holds, EntryOf, ImageOf, Invisible, Aside, WriteShort, Short, AtMost;
      var p := procs[pid];
      ghost var s0 := m.S();
      AsideSelf(s0, p.cr3);
      AtMostNone(m.bitmap, m.failAfter, 0);
      var v, last := PageNumber(addr), PageNumber(addr + size - 1);
      while true
        invariant PageNumber(addr) <= v <= last && m.Valid() && Aside(s0, m.S(), p.cr3)
        invariant AtMost(s0.bitmap, old(m.failAfter), m.bitmap, m.failAfter, 2 * (v - PageNumber(addr)))
        invariant Ready(s0, p.cr3, addr, size) ==> m.S() == s0
        invariant Valid() && Images() == ImagesOf(s0, procs) && m.pinned == s0.pinned
        invariant WritablePages(m.S(), p.cr3, PageNumber(addr), v - 1)
        decreases last - v
      {
        ghost var s1, fa1 := m.S(), m.failAfter;
        var result := PrepareUserWritePage(p, v);
        ImagesSame(s1, m.S(), procs, pid);
        AsideTrans(s0, s1, m.S(), p.cr3);
        if result == Oom {
          PrepareStarved(s0, s1, p, v, addr, size, m.scratch, old(m.failAfter), fa1);
          return Enomem;
        }
        if result != Handled {
          DeniedPage(ImageOf(s1, p), addr, size, v);
          return Efault;
        }
        AtMostMore(s0.bitmap, old(m.failAfter), s1.bitmap, fa1, m.bitmap, m.failAfter, 2 * (v - PageNumber(addr)), 2);
        if v == last {
          break;
        }
        v := v + 1;
      }
      return Success;
    }

    /** copy_to_user */
    method CopyToUser(pid: nat, addr: nat, data: seq<Byte>) returns (status: Uaccess)
      requires Valid() && pid in procs && m.active == procs[pid].cr3
      requires addr < 0x1_0000_0000 && |data| < 0x1_0000_0000
      modifies m`bitmap, m`refs, m`used, m`failAfter, m`pinned, m`tables, m`pages
      ensures Valid() && m.pinned == old(m.pinned)
      ensures status != Success || data == [] ==> Images() == old(Images())
      ensures status == Success && data != [] ==>
                && MayWriteAll(old(Images())[pid], addr, |data|)
                && Images() == old(Images())[pid := PokeAll(old(Images())[pid], addr, data)]
      ensures status == Success ==> InUserSpace(addr, |data|)
      ensures status == Efault ==>
                !InUserSpace(addr, |data|) || !MayWriteAll(old(Images())[pid], addr, |data|)
      ensures status == Enomem ==> data != [] && (!m.scratch || Short(old(m.bitmap), old(m.failAfter), 2 * PagesIn(addr, |data|)))
      ensures InUserSpace(addr, |data|) && old(Ready(m.S(), procs[pid].cr3, addr, |data|)) ==> status == Success
      ensures Aside(old(m.S()), m.S(), procs[pid].cr3)
    {
      hide Exact, InRange, Exclusive, Tallied, KernelOk, LayoutOk, Unshared, Holds, EntryOf, ImageOf, Poke, Aside, Short, Ready;
      AsideSelf(m.S(), procs[pid].cr3);
      if !RangeValid(addr, |data|) {
        return Efault;
      }
      if |data| == 0 {
        return Success;
      }
      status := PrepareWrite(pid, addr, |data|);
      if status != Success {
        return;
      }
      ghost var s1 := m.S();
      CopyBytes(pid, addr, data);
      AsideTrans(old(m.S()), s1, m.S(), procs[pid].cr3);
    }

    /** uaccess_readable */
    method IsReadable(pid: nat, addr: nat, size: nat) returns (ok: bool)
      requires Valid() && pid in procs && m.active == procs[pid].cr3
      requires addr < 0x1_0000_0000 && size < 0x1_0000_0000
      ensures size == 0 ==> (ok <==> InUserSpace(addr, size))
      ensures size > 0 ==> (ok <==> forall a: nat :: addr <= a < addr + size ==> a in Mapped(m.S(), procs[pid]))
    {
      hide Exact, InRange, Exclusive, Tallied, KernelOk, LayoutOk, Unshared, Holds, EntryOf, ImageOf, PageOf, Mapped;
      if !RangeValid(addr, size) {
        if size > 0 {
          RangeOrUnmapped(m.S(), procs[pid], addr, size);
        }
        return false;
      }
      if size == 0 {
        return true;
      }
      PageNumberMonotone(addr, addr + size - 1);
      var v, last := PageNumber(addr), PageNumber(addr + size - 1);
      while true
        invariant PageNumber(addr) <= v <= last
        invariant forall w: nat :: PageNumber(addr) <= w < v ==> UserLeaf(EntryOf(m.S(), procs[pid].cr3, w))
        decreases last - v
      {
        UserPages(addr, size, v);
        var e := PageFlags(procs[pid].cr3, v);
        if !(e.present && e.user) {
          UnmappedPage(m.S(), procs[pid], addr, size, v);
          return false;
        }
        if v == last {
          break;
        }
        v := v + 1;
      }
      MappedRange(m.S(), procs[pid], addr, size);
      return true;
    }

    /** copy_from_user: refused exactly if the range touches a page that is not mapped. */
    method CopyFromUser(pid: nat, addr: nat, size: nat) returns (ok: bool, bytes: seq<Byte>)
      requires Valid() && pid in procs && m.active == procs[pid].cr3
      requires addr < 0x1_0000_0000 && size < 0x1_0000_0000
      ensures size == 0 ==> (ok <==> InUserSpace(addr, size))
      ensures size > 0 ==> (ok <==> forall a: nat :: addr <= a < addr + size ==> a in Mapped(m.S(), procs[pid]))
      ensures ok ==> |bytes| == size && forall i :: 0 <= i < size ==> bytes[i] == Mapped(m.S(), procs[pid])[addr + i]
    {
      hide Exact, InRange, Exclusive, Tallied, KernelOk, LayoutOk, Unshared, Holds, EntryOf, ImageOf, PageOf, Mapped;
      bytes := [];
      ok := IsReadable(pid, addr, size);
      if ok {
        for i := 0 to size
          invariant |bytes| == i && forall k :: 0 <= k < i ==> bytes[k] == Mapped(m.S(), procs[pid])[addr + k]
        {
          MappedByte(m.S(), procs[pid], addr + i);
          var e := PageFlags(procs[pid].cr3, PageNumber(addr + i));
          bytes := bytes + [m.pages[e.frame][PageOffset(addr + i)]];
        }
      }
    }

    /** How far the memcpy of copy_to_user has come: k bytes stored, all pages still writable. */
    ghost predicate Copying(im0: map<nat, Image>, pid: nat, addr: nat, data: seq<Byte>, k: nat)
      reads this, m
    {
      && Valid() && pid in procs && pid in im0 && k <= |data| && data != [] && addr + |data| <= 0x1_0000_0000
      && m.active == procs[pid].cr3
      && MayWriteAll(im0[pid], addr, |data|)
      && Images() == im0[pid := PokeAll(im0[pid], addr, data[..k])]
      && WritablePages(m.S(), procs[pid].cr3, PageNumber(addr), PageNumber(addr + |data| - 1))
    }

    method CopyByte(pid: nat, addr: nat, data: seq<Byte>, k: nat, ghost im0: map<nat, Image>)
      requires Copying(im0, pid, addr, data, k) && k < |data|
      modifies m`pages
      ensures Copying(im0, pid, addr, data, k + 1) && Aside(old(m.S()), m.S(), procs[pid].cr3)
    {
      hide Exact, InRange, Exclusive, Tallied, KernelOk, LayoutOk, Unshared, EntryOf, ImageOf, Poke, PokeAll, MayWrite,
           PageNumber, ProcOk, SpacesOf, Aside;
      assert PageNumber(addr) <= PageNumber(addr + k) <= PageNumber(addr + |data| - 1) by {
        PageNumberMonotone(addr, addr + k);
        PageNumberMonotone(addr + k, addr + |data| - 1);
      }
      ghost var before := PokeAll(im0[pid], addr, data[..k]);
      StoreByte(pid, addr + k, data[k]);
      PokeAllStep(im0[pid], addr, data, k);
      UpdateTwice(im0, pid, before, Poke(before, addr + k, data[k]));
    }

    /** The memcpy at the end of copy_to_user. */
    method CopyBytes(pid: nat, addr: nat, data: seq<Byte>)
      requires Valid() && pid in procs && m.active == procs[pid].cr3
      requires data != [] && addr + |data| <= 0x1_0000_0000
      requires WritablePages(m.S(), procs[pid].cr3, PageNumber(addr), PageNumber(addr + |data| - 1))
      modifies m`pages
      ensures Valid() && MayWriteAll(old(Images())[pid], addr, |data|)
      ensures Images() == old(Images())[pid := PokeAll(old(Images())[pid], addr, data)]
      ensures Aside(old(m.S()), m.S(), procs[pid].cr3)
    {
      hide Exact, InRange, Exclusive, Tallied, KernelOk, LayoutOk, Unshared, EntryOf, ImageOf, PokeAll, MayWrite,
           PageNumber, SpacesOf, Aside;
      ghost var im0, s0 := Images(), m.S();
      AsideSelf(s0, procs[pid].cr3);
      GrantedPages(m.S(), procs[pid], addr, |data|);
      PokeNothing(im0[pid], addr, data[..0]);
      for k := 0 to |data|
        invariant Copying(im0, pid, addr, data, k) && Aside(s0, m.S(), procs[pid].cr3)
      {
        ghost var s1 := m.S();
        CopyByte(pid, addr, data, k, im0);
        AsideTrans(s0, s1, m.S(), procs[pid].cr3);
      }
      assert data[..|data|] == data;
    }

    /** paging_unmap_page_in_directory followed by frame_release, as brk does for one page. */
    method DropPage(d: nat, v: nat)
      requires m.Valid() && d in m.spaces && UserPage(v)
      modifies m`bitmap, m`refs, m`used, m`tables
      ensures m.Valid() && OnlyPage(old(m.S()), m.S(), d, DirIndex(v), TableIndex(v), BLANK)
    {
      hide Exact, InRange, Exclusive, Tallied, KernelOk, LayoutOk, Unshared, Holds;
      ghost var s0 := m.S();
      var i, j := DirIndex(v), TableIndex(v);
      if m.tables[d][i].present {
        assert Root(s0.spaces, d);
        SlotInRange(s0, d, i);
        SharedOutside(s0, d, i);
        var t := m.tables[d][i].frame;
        var phys := m.tables[t][j].frame;
        EntryForDrop(s0, d, i, j);
        m.tables := m.tables[t := m.tables[t][j := BLANK]];
        if phys != 0 {
          var _ := m.FrameRelease(phys);
        }
      }
    }

    /** The loop of the brk case that gives back the pages past the new end. */
    method DropHeapPages(d: nat, first: nat, last: nat)
      requires m.Valid() && d in m.spaces && FIRST_PAGE <= first <= last <= LAST_PAGE
      modifies m`bitmap, m`refs, m`used, m`tables
      ensures m.Valid() && |m.refs| == |old(m.refs)|
      ensures forall c :: Root(m.spaces, c) && c != d ==> SameSpace(old(m.S()), m.S(), c)
      ensures forall w: nat :: EntryOf(m.S(), d, w) ==
                if first <= w < last then BLANK else EntryOf(old(m.S()), d, w)
    {
      hide Exact, InRange, Exclusive, Tallied, KernelOk, LayoutOk, Unshared, Holds, EntryOf, SameSpace;
      ghost var s0 := m.S();
      AllSame(s0);
      var v := first;
      while v < last
        invariant first <= v <= last && m.Valid() && |m.refs| == |s0.refs|
        invariant forall c :: Root(m.spaces, c) && c != d ==> SameSpace(s0, m.S(), c)
        invariant forall w: nat :: EntryOf(m.S(), d, w) == if first <= w < v then BLANK else EntryOf(s0, d, w)
      {
        ghost var s1 := m.S();
        DropPage(d, v);
        OthersSame(s0, s1, m.S(), d);
        OtherPages(s1, m.S(), d, v, BLANK);
        assert EntryOf(m.S(), d, v) == BLANK by { PageEntry(s1, m.S(), d, v, BLANK); }
        v := v + 1;
      }
    }

    /** SYS_BRK: growth is lazy, shrinking drops whole pages past the new end. */
    method Brk(pid: nat, requested: nat) returns (end: nat)
      requires Valid() && pid in procs
      modifies this`procs, m`bitmap, m`refs, m`used, m`tables
      ensures Valid() && pid in procs && procs == old(procs)[pid := procs[pid]] && procs[pid].cr3 == old(procs)[pid].cr3
      ensures Aside(old(m.S()), m.S(), procs[pid].cr3)
      ensures var ok := requested != 0 && HEAP_START <= requested <= HEAP_LIMIT;
              && end == (if ok then requested else old(procs[pid].heapEnd))
              && Images() == if ok then old(Images())[pid := Resized(old(Images())[pid], requested)] else old(Images())
    {
      hide Exact, InRange, Exclusive, Tallied, KernelOk, LayoutOk, Unshared, Holds, EntryOf, SameSpace, ImageOf, Resized, Aside;
      ghost var s0 := m.S();
      var p := procs[pid];
      AsideSelf(s0, p.cr3);
      assert procs == procs[pid := p];
      if requested == 0 {
        return p.heapEnd;
      }
      if requested < p.heapStart || requested > HEAP_LIMIT {
        return p.heapEnd;
      }
      AllSame(s0);
      var oldEnd, newEnd := EndPage(p.heapEnd), EndPage(requested);
      if newEnd < oldEnd {
        DropHeapPages(p.cr3, newEnd, oldEnd);
        OthersAside(s0, m.S(), p.cr3);
      }
      procs := procs[pid := p.(heapEnd := requested)];
      SpacesAfterUpdate(old(procs), pid, procs[pid]);
      ResizedImages(s0, m.S(), old(procs), pid, requested);
      return requested;
    }

    /** The address-space part of process_fork: the child sees a copy of the parent's memory,
        and a fork that fails leaves no trace. */
    method Fork(pid: nat, child: nat) returns (ok: bool)
      requires Valid() && pid in procs && child !in procs
      modifies this`procs, m`bitmap, m`refs, m`used, m`failAfter, m`pinned, m`tables, m`spaces
      ensures Valid() && m.pinned == old(m.pinned)
      ensures ok ==> Images() == old(Images())[child := old(Images())[pid]]
      ensures ok <==> CanClone(old(m.S()), old(procs[pid].cr3), m.scratch, old(m.failAfter))
      ensures ok ==> child in procs && procs == old(procs)[child := procs[child]]
      ensures !ok ==> Images() == old(Images()) && procs == old(procs)
      ensures !ok ==> m.refs == old(m.refs) && m.bitmap == old(m.bitmap) && m.used == old(m.used)
      ensures Aside(old(m.S()), m.S(), old(procs[pid].cr3))
    {
      hide Exact, InRange, Exclusive, Tallied, KernelOk, LayoutOk, Unshared, Holds, EntryOf, SameSpace, ImageOf, Aside, CanClone;
      ghost var s0 := m.S();
      var p := procs[pid];
      var nd := m.CloneDirectory(p.cr3);
      OthersAside(s0, m.S(), p.cr3);
      if nd == 0 {
        UntouchedImages(s0, m.S(), procs);
        return false;
      }
      procs := procs[child := p.(cr3 := nd)];
      SpacesAfterInsert(old(procs), child, procs[child]);
      ForkedImages(s0, m.S(), old(procs), pid, child, nd);
      return true;
    }

    /** paging_create_address_space for a new process. */
    method Spawn(pid: nat) returns (ok: bool)
      requires Valid() && pid !in procs
      modifies this`procs, m
      ensures Valid() && m.pinned == old(m.pinned)
      ensures ok ==> Images() == old(Images())[pid := EmptyImage()] && procs.Keys == old(procs).Keys + {pid}
      ensures ok <==> !Short(old(m.bitmap), old(m.failAfter), 2)
      ensures ok ==> AtMost(old(m.bitmap), old(m.failAfter), m.bitmap, m.failAfter, 2)
      ensures !ok ==> Images() == old(Images()) && procs == old(procs)
      ensures forall d :: Aside(old(m.S()), m.S(), d)
      ensures m.active == old(m.active)
      ensures ok ==>
        && procs == old(procs)[pid := procs[pid]] && procs[pid].cr3 !in old(m.spaces)
        && Kept(old(m.S()), m.S(), procs[pid].cr3)
      ensures !ok ==> m.refs == old(m.refs) && m.bitmap == old(m.bitmap) && m.used == old(m.used)
    {
      hide Exact, InRange, Exclusive, Tallied, KernelOk, LayoutOk, Unshared, Holds, EntryOf, SameSpace, ImageOf, EmptyImage, ImagesOf, Running, Short, Aside, AtMost, Spent;
      ghost var s0 := m.S();
      var d := m.CreateAddressSpace();
      AllAside(s0, m.S());
      UntouchedImages(s0, m.S(), procs);
      if d == 0 {
        return false;
      }
      SpentAtMost(s0.bitmap, old(m.failAfter), m.bitmap, m.failAfter, 2);
      NewSpace(s0, d);
      SpawnedImages(s0, m.S(), procs, pid, d);
      procs := procs[pid := Proc(d, HEAP_START, HEAP_START)];
      SpacesAfterInsert(old(procs), pid, procs[pid]);
      return true;
    }

    /** paging_set_page_flags_in_directory on a page that is mapped writable. */
    method SetProtection(d: nat, i: nat, j: nat, writable: bool)
      requires m.Valid() && d in m.spaces && j < ENTRIES
      requires UserLeaf(Walk(m.S(), d, i, j)) && Walk(m.S(), d, i, j).writable
      modifies m`tables
      ensures m.Valid()
      ensures OnlyLeaf(old(m.S()), m.S(), d, i, j, Walk(old(m.S()), d, i, j).(writable := writable, cow := false))
    {
      hide Exact, InRange, Exclusive, Tallied, KernelOk, LayoutOk, Unshared, Holds;
      ghost var s0 := m.S();
      UserEntryOwned(s0, d, i, j);
      assert Root(s0.spaces, d);
      SlotInRange(s0, d, i);
      var t := m.tables[d][i].frame;
      var e := m.tables[t][j].(writable := writable, cow := false);
      ReprotectLeaf(s0, d, i, j, e);
      m.tables := m.tables[t := m.tables[t][j := e]];
    }

    /** A frame is allocated and mapped writable at a page that is not mapped. */
    method TakePage(d: nat, v: nat) returns (phys: nat)
      requires m.Valid() && d in m.spaces && UserPage(v) && !EntryOf(m.S(), d, v).present
      modifies m`bitmap, m`refs, m`used, m`failAfter, m`pinned, m`tables
      ensures m.Valid() && m.pinned == old(m.pinned) && m.pages == old(m.pages)
      ensures phys == 0 <==> PageShort(old(m.S()), d, DirIndex(v), old(m.failAfter))
      ensures phys == 0 ==> m.S() == old(m.S())
      ensures phys != 0 ==>
        && phys < |old(m.refs)| && old(m.refs)[phys] == 0
        && OnlyPage(old(m.S()), m.S(), d, DirIndex(v), TableIndex(v), Entry(phys, true, true, true, false))
        && AtMost(old(m.bitmap), old(m.failAfter), m.bitmap, m.failAfter, 2)
    {
      hide Exact, InRange, Exclusive, Tallied, KernelOk, LayoutOk, Unshared, Holds, SameSpace, Walk, Short, AtMost, Tick;
      ghost var s0 := m.S();
      var i, j := DirIndex(v), TableIndex(v);
      phys := m.FrameAlloc();
      if phys == 0 {
        NoFrameNoTable(s0, old(m.failAfter));
        return;
      }
      ghost var s1, fa1 := m.S(), m.failAfter;
      FrameThenTable(s0, old(m.failAfter), phys);
      AtMostOne(s0.bitmap, old(m.failAfter), phys);
      TakeUndone(s0, phys);
      SameEntry(s0, s1, d, v);
      var entered := m.MapPage(d, i, j, phys, Entry(0, true, true, true, false));
      if !entered {
        var _ := m.FrameRelease(phys);
        m.pinned := m.pinned - {phys};
        return 0;
      }
      AtMostMore(s0.bitmap, old(m.failAfter), s1.bitmap, fa1, m.bitmap, m.failAfter, 1, 1);
      PageTaken(s0, s1, m.S(), d, i, j, Entry(phys, true, true, true, false));
    }

    /** The page is allocated, mapped, filled and given its final protection. */
    method AddPage(d: nat, v: nat, bytes: Page, writable: bool) returns (phys: nat)
      requires m.Valid() && d in m.spaces && UserPage(v) && !EntryOf(m.S(), d, v).present
      modifies m`bitmap, m`refs, m`used, m`failAfter, m`pinned, m`tables, m`pages
      ensures m.Valid() && m.pinned == old(m.pinned)
      ensures phys == 0 <==> PageShort(old(m.S()), d, DirIndex(v), old(m.failAfter))
      ensures phys == 0 ==> m.S() == old(m.S())
      ensures phys != 0 ==>
        && phys < |old(m.refs)| && old(m.refs)[phys] == 0 && m.pages == old(m.pages)[phys := bytes]
        && OnlyPage(old(m.S()), m.S(), d, DirIndex(v), TableIndex(v), Entry(phys, true, writable, true, false))
        && AtMost(old(m.bitmap), old(m.failAfter), m.bitmap, m.failAfter, 2)
    {
      hide Exact, InRange, Exclusive, Tallied, KernelOk, LayoutOk, Unshared, Holds, SameSpace, Walk, Short, AtMost, PageShort;
      ghost var s0 := m.S();
      var i, j := DirIndex(v), TableIndex(v);
      phys := TakePage(d, v);
      if phys == 0 {
        return;
      }
      ghost var s2 := m.S();
      PagesIrrelevant(s2, s2.(pages := m.pages[phys := bytes]));
      m.pages := m.pages[phys := bytes];
      ghost var s3 := m.S();
      SetProtection(d, i, j, writable);
      AllSame(s0);
      InstallSteps(s0, s0, s2, s3, m.S(), d, i, j,
                   Entry(phys, true, true, true, false), Entry(phys, true, writable, true, false));
    }

    /** A page of the program image or the stack: a frame is allocated, mapped, filled and given
        its final protection, as the loader and exec do.  A mapped page is refused. */
    method InstallPage(pid: nat, v: nat, bytes: Page, writable: bool) returns (ok: bool, mapped: bool)
      requires Valid() && pid in procs && ImagePage(v)
      modifies m`bitmap, m`refs, m`used, m`failAfter, m`pinned, m`tables, m`pages
      ensures Valid() && m.pinned == old(m.pinned)
      ensures ok ==> old(Images())[pid].grant[v] == NoAccess
      ensures ok ==> Images() == old(Images())[pid := Installed(old(Images())[pid], v, bytes, writable)]
      ensures !ok ==> Images() == old(Images()) && m.S() == old(m.S())
      ensures mapped ==> !ok && old(Images())[pid].grant[v] != NoAccess
      ensures !ok && !mapped <==> old(Images())[pid].grant[v] == NoAccess && PageShort(old(m.S()), procs[pid].cr3, DirIndex(v), old(m.failAfter))
      ensures ok ==> Kept(old(m.S()), m.S(), procs[pid].cr3)
      ensures ok ==> AtMost(old(m.bitmap), old(m.failAfter), m.bitmap, m.failAfter, 2)
    {
      hide Exact, InRange, Exclusive, Tallied, KernelOk, LayoutOk, Unshared, Holds, SameSpace, Installed, Walk, Kept, Short, AtMost, PageShort, ImageOf, OnlyPage;
      ghost var s0 := m.S();
      var d := procs[pid].cr3;
      var i, j := DirIndex(v), TableIndex(v);
      var e := PageFlags(d, v);
      PageGranted(s0, procs[pid], v);
      if e.present {
        return false, true;
      }
      var phys := AddPage(d, v, bytes, writable);
      if phys == 0 {
        return false, false;
      }
      InstalledPage(s0, m.S(), procs, pid, v, Entry(phys, true, writable, true, false), bytes);
      OnlyPageKept(s0, m.S(), d, i, j, Entry(phys, true, writable, true, false));
      return true, false;
    }

    /** paging_unmap_page and frame_release of a page outside the heap: what undoes an installed page. */
    method RemovePage(pid: nat, v: nat)
      requires Valid() && pid in procs && UserPage(v) && !HeapPage(v)
      modifies m`bitmap, m`refs, m`used, m`tables
      ensures Valid()
      ensures Images() == old(Images())[pid := Removed(old(Images())[pid], v)]
      ensures Kept(old(m.S()), m.S(), procs[pid].cr3)
    {
      hide Exact, InRange, Exclusive, Tallied, KernelOk, LayoutOk, Unshared, Holds, SameSpace, Removed, Walk, Kept, ImageOf;
      ghost var s0 := m.S();
      var d := procs[pid].cr3;
      DropPage(d, v);
      RemovedPage(s0, m.S(), procs, pid, v);
      OnlyPageKept(s0, m.S(), d, DirIndex(v), TableIndex(v), BLANK);
    }

    /** The memory part of process_destroy for a process that is not running. */
    method Teardown(pid: nat)
      requires Valid() && pid in procs && procs[pid].cr3 != m.active
      modifies this`procs, m`bitmap, m`refs, m`used, m`tables, m`spaces
      ensures Valid() && procs.Keys == old(procs).Keys - {pid}
      ensures Images() == old(Images()) - {pid}
      ensures procs == old(procs) - {pid} && Kept(old(m.S()), m.S(), old(procs)[pid].cr3) && old(procs)[pid].cr3 !in m.spaces
    {
      hide Exact, InRange, Exclusive, Tallied, KernelOk, LayoutOk, Unshared, Holds, EntryOf, SameSpace, ImageOf, Kept;
      ghost var s0 := m.S();
      var d := procs[pid].cr3;
      SpaceIsNotKernel(s0, d);
      m.DestroyAddressSpace(d);
      DestroyKept(s0, m.S(), d);
      procs := procs - {pid};
      SpacesAfterRemove(old(procs), pid, s0);
      UntouchedImages(s0, m.S(), procs);
    }
  }

  lemma StoredImages(s: State, s2: State, procs: map<nat, Proc>, pid: nat, addr: nat, b: Byte)
    requires WellShaped(s) && WellShaped(s2) && Running(s, procs) && pid in procs
    requires MayWrite(ImageOf(s, procs[pid]), addr)
    requires forall qid :: qid in procs ==>
               && ProcOk(s2, procs[qid])
               && ImageOf(s2, procs[qid]) ==
                  if procs[qid].cr3 == procs[pid].cr3
                  then PokedImage(ImageOf(s, procs[qid]), PageNumber(addr), PageOffset(addr), b)
                  else ImageOf(s, procs[qid])
    ensures Running(s2, procs)
    ensures ImagesOf(s2, procs) == ImagesOf(s, procs)[pid := Poke(ImagesOf(s, procs)[pid], addr, b)]
  {
    hide ProcOk, ImageOf, WellShaped;
    assert Poke(ImageOf(s, procs[pid]), addr, b) ==
           PokedImage(ImageOf(s, procs[pid]), PageNumber(addr), PageOffset(addr), b);
    hide Poke, PokedImage, MayWrite, PageNumber, PageOffset;
    forall qid | qid in procs && qid != pid
      ensures ImageOf(s2, procs[qid]) == ImageOf(s, procs[qid])
    {
    }
  }

  /** What a page-table entry says about an access. */
  lemma WalkMeans(s: State, p: Proc, addr: nat)
    requires Inv(s) && ProcOk(s, p) && addr < 0x1_0000_0000
    ensures var v, e := PageNumber(addr), EntryOf(s, p.cr3, PageNumber(addr));
            && DirIndex(v) < ENTRIES
            && (UserPage(v) && e.present ==> UserLeaf(e))
            && (UserLeaf(e) ==>
                  && UserPage(v) && s.tables[p.cr3][DirIndex(v)].present
                  && s.tables[p.cr3][DirIndex(v)].user && s.tables[p.cr3][DirIndex(v)].writable
                  && e.frame < |s.pages| && MayRead(ImageOf(s, p), addr)
                  && Peek(ImageOf(s, p), addr) == s.pages[e.frame][PageOffset(addr)])
            && (MayWrite(ImageOf(s, p), addr) <==>
                  UserPage(v) && if UserLeaf(e) then e.writable || e.cow else HeapPage(v) && v < EndPage(p.heapEnd))
            && (MayRead(ImageOf(s, p), addr) <==>
                  UserPage(v) && (UserLeaf(e) || (HeapPage(v) && v < EndPage(p.heapEnd))))
  {
    hide Exact, InRange, Exclusive, Tallied, KernelOk, Walk, Holds;
    var v := PageNumber(addr);
    if UserLeaf(EntryOf(s, p.cr3, v)) {
      UserEntryOwned(s, p.cr3, DirIndex(v), TableIndex(v));
      MappedIsCounted(s, p.cr3, v);
      assert Root(s.spaces, p.cr3);
    } else if UserPage(v) && EntryOf(s, p.cr3, v).present {
      EntryIsUser(s, p.cr3, DirIndex(v), TableIndex(v));
    }
    assert ImageOf(s, p).mem.Keys == ImageOf(s, p).grant.Keys;
  }

  /** When the fault handler gives up on an access. */
  ghost predicate GivesUp(s: State, p: Proc, addr: nat, write: bool, r: Fault)
    requires WellShaped(s)
  {
    var e := EntryOf(s, p.cr3, PageNumber(addr));
    && (r == Guard ==> !e.present && PageNumber(addr) == GUARD_PAGE)
    && (r == Fatal ==> if e.present then !write || !e.cow
                       else PageNumber(addr) != GUARD_PAGE && !(HEAP_START <= addr < p.heapEnd))
  }

  /** The last page of the heap may reach past brk; before it is touched, only the bytes
      below brk can be. */
  ghost predicate PastBreak(p: Proc, addr: nat) { HeapPage(PageNumber(addr)) && addr >= p.heapEnd }

  /** The bytes past brk in the last page of the heap cannot be reached until the page is mapped. */
  ghost predicate OutOfReach(s: State, p: Proc, addr: nat)
    requires WellShaped(s)
  {
    PastBreak(p, addr) && !UserLeaf(EntryOf(s, p.cr3, PageNumber(addr)))
  }

  /** Only heap addresses at or past brk are out of reach, and only as long as their page is not
      mapped. */
  lemma OutOfReachMeans(s: State, p: Proc, addr: nat)
    requires WellShaped(s) && ProcOk(s, p)
    ensures OutOfReach(s, p, addr) <==>
      && 0x9000_0000 <= addr < 0xA000_0000 && p.heapEnd <= addr
      && !(EntryOf(s, p.cr3, addr / 4096).present && EntryOf(s, p.cr3, addr / 4096).user)
  {
    hide EntryOf, WellShaped;
  }

  /** The fault handler gives up on exactly the loads that the process may not make or that are
      out of reach. */
  lemma LoadDecided(s: State, p: Proc, addr: nat)
    requires Inv(s) && ProcOk(s, p) && addr < 0x1_0000_0000
    ensures !MayRead(ImageOf(s, p), addr) || OutOfReach(s, p, addr) <==>
      !UserLeaf(EntryOf(s, p.cr3, PageNumber(addr))) && (GivesUp(s, p, addr, false, Fatal) || GivesUp(s, p, addr, false, Guard))
  {
    hide Inv, EntryOf, ImageOf, MayRead, MayWrite, Peek;
    WalkMeans(s, p, addr);
  }

  /** A store cannot be made for want of frames. */
  ghost predicate StoreShort(s: State, p: Proc, addr: nat, scratch: bool, failAfter: int)
    requires WellShaped(s)
  {
    var e := EntryOf(s, p.cr3, PageNumber(addr));
    !(UserLeaf(e) && e.writable) && FaultShort(s, p, addr, true, scratch, failAfter)
  }

  lemma StoreDecided(s: State, p: Proc, addr: nat, scratch: bool, failAfter: int)
    requires Inv(s) && ProcOk(s, p) && addr < 0x1_0000_0000
    ensures var e := EntryOf(s, p.cr3, PageNumber(addr));
      var denied := !MayWrite(ImageOf(s, p), addr) || OutOfReach(s, p, addr);
      var given := GivesUp(s, p, addr, true, Fatal) || GivesUp(s, p, addr, true, Guard);
      && (UserLeaf(e) && e.writable ==> !denied)
      && (!(UserLeaf(e) && e.writable) && given ==> denied && !StoreShort(s, p, addr, scratch, failAfter))
      && (!(UserLeaf(e) && e.writable) && !given && denied ==> StoreShort(s, p, addr, scratch, failAfter))
  {
    var v := PageNumber(addr);
    assert CanResolve(s, p.cr3, DirIndex(v), TableIndex(v), scratch, failAfter) ==> CowEntry(EntryOf(s, p.cr3, v));
    hide Inv, EntryOf, ImageOf, MayRead, MayWrite, Peek, PageShort, HasFree, CanResolve;
    WalkMeans(s, p, addr);
  }

  datatype Load = Loaded(value: Byte) | Killed(reason: Fault)

  datatype Store = StoreDone | StoreKilled(reason: Fault)

  datatype Uaccess = Success | Efault | Enomem

  /** uaccess_range_valid, with the 32-bit wrap of address + size. */
  predicate RangeValid(addr: nat, size: nat)
    requires addr < 0x1_0000_0000 && size < 0x1_0000_0000
  {
    if size == 0 then addr == 0 || USER_START <= addr < USER_END
    else
      && USER_START <= addr < USER_END
      && addr <= (addr + size) % 0x1_0000_0000 <= USER_END
  }

  /** The range lies in user space; an empty one may also start at 0. */
  predicate InUserSpace(addr: nat, size: nat) {
    if size == 0 then addr == 0 || USER_START <= addr < USER_END else USER_START <= addr && addr + size <= USER_END
  }

  /** The check of the range is exact although 32-bit addition wraps. */
  lemma RangeValidIff(addr: nat, size: nat)
    requires addr < 0x1_0000_0000 && size < 0x1_0000_0000
    ensures RangeValid(addr, size) <==> InUserSpace(addr, size)
  {
  }

  /** The bytes of a process that the kernel can read: those of the pages that are mapped. */
  ghost function Mapped(s: State, p: Proc): map<nat, Byte>
    requires WellShaped(s)
  {
    map a: nat | USER_START <= a < USER_END && UserLeaf(EntryOf(s, p.cr3, PageNumber(a))) ::
      PageOf(s, p.cr3, PageNumber(a))[PageOffset(a)]
  }

  /** What the kernel can read is what the process sees; it cannot read exactly those bytes that the
      process could whose heap pages have not been touched. */
  lemma MappedShown(s: State, p: Proc, a: nat)
    requires Inv(s) && ProcOk(s, p) && a < 0x1_0000_0000
    ensures a in Mapped(s, p) ==> MayRead(ImageOf(s, p), a) && Mapped(s, p)[a] == Peek(ImageOf(s, p), a)
    ensures MayRead(ImageOf(s, p), a) && a !in Mapped(s, p) <==>
      HeapPage(PageNumber(a)) && PageNumber(a) < EndPage(p.heapEnd) && !UserLeaf(EntryOf(s, p.cr3, PageNumber(a)))
  {
    hide Exact, InRange, Exclusive, Tallied, KernelOk, LayoutOk, Holds, EntryOf, MayWrite;
    WalkMeans(s, p, a);
  }

  lemma MappedByte(s: State, p: Proc, a: nat)
    requires Inv(s) && ProcOk(s, p) && a in Mapped(s, p)
    ensures a < 0x1_0000_0000 && DirIndex(PageNumber(a)) < ENTRIES
    ensures var e := EntryOf(s, p.cr3, PageNumber(a)); e.frame < |s.pages| && Mapped(s, p)[a] == s.pages[e.frame][PageOffset(a)]
  {
    hide Exact, InRange, Exclusive, Tallied, KernelOk, LayoutOk, Holds, EntryOf, MayWrite, MayRead, Peek, ImageOf;
    WalkMeans(s, p, a);
  }

  lemma RangeOrUnmapped(s: State, p: Proc, addr: nat, size: nat)
    requires WellShaped(s) && 0 < size < 0x1_0000_0000 && addr < 0x1_0000_0000 && !RangeValid(addr, size)
    ensures exists a: nat :: addr <= a < addr + size && a !in Mapped(s, p)
  {
    hide EntryOf, WellShaped, PageOf;
    if USER_START <= addr < USER_END {
      assert USER_END !in Mapped(s, p);
    } else {
      assert addr !in Mapped(s, p);
    }
  }

  lemma UserPages(addr: nat, size: nat, v: nat)
    requires size > 0 && USER_START <= addr && addr + size <= USER_END && PageNumber(addr) <= v <= PageNumber(addr + size - 1)
    ensures UserPage(v) && DirIndex(v) < ENTRIES
  {
  }

  lemma UnmappedPage(s: State, p: Proc, addr: nat, size: nat, v: nat)
    requires WellShaped(s) && size > 0 && PageNumber(addr) <= v <= PageNumber(addr + size - 1) && !UserLeaf(EntryOf(s, p.cr3, v))
    ensures exists a: nat :: addr <= a < addr + size && a !in Mapped(s, p)
  {
    hide EntryOf, WellShaped, PageOf;
    var a := if v * 4096 < addr then addr else v * 4096;
    assert PageNumber(a) == v;
    assert a !in Mapped(s, p);
  }

  lemma MappedRange(s: State, p: Proc, addr: nat, size: nat)
    requires WellShaped(s) && size > 0 && USER_START <= addr && addr + size <= USER_END
    requires forall w: nat :: PageNumber(addr) <= w <= PageNumber(addr + size - 1) ==> UserLeaf(EntryOf(s, p.cr3, w))
    ensures forall a: nat :: addr <= a < addr + size ==> a in Mapped(s, p)
  {
    hide EntryOf, WellShaped, PageOf;
    forall a: nat | addr <= a < addr + size
      ensures a in Mapped(s, p)
    {
      PageNumberMonotone(addr, a);
      PageNumberMonotone(a, addr + size - 1);
    }
  }

  /** The pages first..last map writable user entries. */
  ghost predicate WritablePages(s: State, d: nat, first: int, last: int)
    requires WellShaped(s)
  {
    forall v: nat :: first <= v <= last ==> UserLeaf(EntryOf(s, d, v)) && EntryOf(s, d, v).writable
  }

  /** Every page of the range can be written as it is. */
  ghost predicate Ready(s: State, d: nat, addr: nat, size: nat)
    requires WellShaped(s)
  {
    size > 0 ==> WritablePages(s, d, PageNumber(addr), PageNumber(addr + size - 1))
  }

  function PagesIn(addr: nat, size: nat): nat
    requires size > 0
  {
    PageNumberMonotone(addr, addr + size - 1);
    PageNumber(addr + size - 1) - PageNumber(addr) + 1
  }

  /** A page of the range could not be made writable: there were not enough frames for the range. */
  lemma PrepareStarved(s0: State, s: State, p: Proc, v: nat, addr: nat, size: nat, scratch: bool, fa0: int, fa: int)
    requires Inv(s) && ProcOk(s, p) && size > 0 && PageNumber(addr) <= v <= PageNumber(addr + size - 1)
    requires WriteShort(s, p, v, scratch, fa) && AtMost(s0.bitmap, fa0, s.bitmap, fa, 2 * (v - PageNumber(addr)))
    ensures !scratch || Short(s0.bitmap, fa0, 2 * PagesIn(addr, size))
  {
    hide Inv, WriteShort, Short, AtMost;
    if scratch {
      if !Short(s.bitmap, fa, 2) {
        EnoughToWrite(s, p, v, scratch, fa);
      }
      AtMostShort(s0.bitmap, fa0, s.bitmap, fa, 2 * (v - PageNumber(addr)), 2);
      ShortMore(s0.bitmap, fa0, 2 * (v - PageNumber(addr)) + 2, 2 * PagesIn(addr, size));
    }
  }

  /** The guard page is the only one at which a copy to user memory stops for the guard; nobody is
      granted it, so nothing that a process may write is refused for it. */
  lemma GuardNeverGranted(s: State, p: Proc, addr: nat)
    requires WellShaped(s) && ProcOk(s, p)
    ensures GuardAddress(addr) <==> PageNumber(addr) == GUARD_PAGE
    ensures GuardAddress(addr) ==> !MayRead(ImageOf(s, p), addr) && !MayWrite(ImageOf(s, p), addr)
  {
    hide WellShaped, EntryOf;
  }

  lemma DeniedPage(im: Image, addr: nat, size: nat, v: nat)
    requires WellFormed(im) && size > 0 && PageNumber(addr) <= v <= PageNumber(addr + size - 1) && UserPage(v)
    requires im.grant[v] != ReadWrite
    ensures !MayWriteAll(im, addr, size)
  {
    var a := if v * 4096 < addr then addr else v * 4096;
    assert PageNumber(a) == v;
    assert !MayWrite(im, a);
  }

  lemma GrantedPages(s: State, p: Proc, addr: nat, size: nat)
    requires Inv(s) && ProcOk(s, p) && size > 0 && addr + size <= 0x1_0000_0000
    requires WritablePages(s, p.cr3, PageNumber(addr), PageNumber(addr + size - 1))
    ensures MayWriteAll(ImageOf(s, p), addr, size)
  {
    hide Exact, InRange, Exclusive, Tallied, KernelOk, LayoutOk, EntryOf, ImageOf, MayWrite, MayRead, Peek;
    forall a: nat | addr <= a < addr + size
      ensures MayWrite(ImageOf(s, p), a)
    {
      WalkMeans(s, p, a);
    }
  }

  ghost predicate Running(s: State, procs: map<nat, Proc>)
    requires WellShaped(s)
  {
    && (forall pid :: pid in procs ==> ProcOk(s, procs[pid]))
    && (forall pid, qid :: pid in procs && qid in procs && procs[pid].cr3 == procs[qid].cr3 ==> pid == qid)
  }

  ghost function SpacesOf(procs: map<nat, Proc>): set<nat> {
    set pid | pid in procs :: procs[pid].cr3
  }

  ghost function ImagesOf(s: State, procs: map<nat, Proc>): map<nat, Image>
    requires WellShaped(s)
  {
    map pid | pid in procs :: ImageOf(s, procs[pid])
  }

  /** A change that p cannot see is seen by no process. */
  lemma ImagesSame(s: State, s2: State, procs: map<nat, Proc>, pid: nat)
    requires WellShaped(s) && WellShaped(s2) && Running(s, procs) && pid in procs
    requires Invisible(s, s2, procs[pid])
    ensures Running(s2, procs) && ImagesOf(s2, procs) == ImagesOf(s, procs)
  {
    hide ProcOk, ImageOf, WellShaped;
    forall qid | qid in procs
      ensures SameView(s, s2, procs[qid])
    {
    }
  }

  lemma OtherPages(s: State, s2: State, d: nat, v: nat, e: Entry)
    requires WellShaped(s) && WellShaped(s2) && OnlyPage(s, s2, d, DirIndex(v), TableIndex(v), e)
    ensures forall w: nat :: w != v ==> EntryOf(s2, d, w) == EntryOf(s, d, w)
  {
    assert forall w :: DirIndex(w) == DirIndex(v) && TableIndex(w) == TableIndex(v) ==> w == v;
  }

  lemma DemandDone(s0: State, s1: State, s2: State, s3: State, d: nat, v: nat, f: nat)
    requires Inv(s0) && WellShaped(s1) && WellShaped(s2) && WellShaped(s3) && d in s0.spaces
    requires f < |s0.refs| && s0.refs[f] == 0
    requires s1 == Taken(s0, f, s0.tables[f])
    requires forall c :: Root(s0.spaces, c) ==> SameSpace(s0, s1, c)
    requires OnlyPage(s1, s2, d, DirIndex(v), TableIndex(v), Entry(f, true, true, true, false))
    requires s3 == s2.(pages := s0.pages[f := ZeroPage()])
    ensures DemandMapped(s0, s3, d, v)
  {
    forall c | Root(s0.spaces, c) && c != d
      ensures SameSpace(s0, s3, c)
    {
      assert SameSpace(s0, s1, c) && Root(s1.spaces, c) && SameSpace(s1, s2, c);
    }
    assert Root(s0.spaces, d) && SameSpace(s0, s1, d);
    SameWalk(s2, s3);
  }

  lemma PageEntry(s: State, s2: State, d: nat, v: nat, e: Entry)
    requires WellShaped(s) && WellShaped(s2) && OnlyPage(s, s2, d, DirIndex(v), TableIndex(v), e)
    ensures EntryOf(s2, d, v) == e
  {
  }

  /** Clearing an entry of a user table: a mapped frame is released, an empty entry carries
      no frame. */
  lemma EntryForDrop(s: State, d: nat, i: nat, j: nat)
    requires Inv(s) && Unshared(s) && Owned(s, d, i) && i != 0 && j < ENTRIES
    ensures s.tables[d][i].frame < |s.tables|
    ensures var e := s.tables[s.tables[d][i].frame][j];
            if e.frame == 0 then
              var s2 := WithLeaf(s, d, i, j, BLANK);
              Inv(s2) && Unshared(s2) && OnlyPage(s, s2, d, i, j, BLANK)
            else
              && e.frame < |s.refs| && s.refs[e.frame] > 0 && s.used > 0 && (e.frame < LOW ==> s.refs[e.frame] > 1)
              && var s2 := WithLeaf(Released(s, e.frame), d, i, j, BLANK);
                 Inv(s2) && Unshared(s2) && OnlyPage(s, s2, d, i, j, BLANK)
  {
    hide Exact, Exclusive, Tallied, KernelOk;
    assert Root(s.spaces, d);
    SlotInRange(s, d, i);
    var e := s.tables[s.tables[d][i].frame][j];
    assert e == Walk(s, d, i, j);
    if UserLeaf(e) {
      UserEntryOwned(s, d, i, j);
      DropLeaf(s, d, i, j);
      LeafIsPage(s, WithLeaf(Released(s, e.frame), d, i, j, BLANK), d, i, j, BLANK);
    } else {
      assert !e.present && e.frame == 0;
      RetagLeaf(s, d, i, j, BLANK);
      LeafIsPage(s, WithLeaf(s, d, i, j, BLANK), d, i, j, BLANK);
      UnsharedRetag(s, WithLeaf(s, d, i, j, BLANK), d, i, j, BLANK);
    }
  }

  lemma LeafIsPage(s: State, s2: State, d: nat, i: nat, j: nat, e: Entry)
    requires WellShaped(s) && WellShaped(s2) && OnlyLeaf(s, s2, d, i, j, e) && d in s.spaces
    ensures OnlyPage(s, s2, d, i, j, e)
  {
    assert Root(s.spaces, d);
  }

  lemma ResizedImages(s: State, s2: State, procs: map<nat, Proc>, pid: nat, end: nat)
    requires Inv(s) && Inv(s2) && Running(s, procs) && pid in procs && s2.spaces == s.spaces && s2.pages == s.pages
    requires HEAP_START <= end <= HEAP_LIMIT
    requires forall c :: Root(s.spaces, c) && c != procs[pid].cr3 ==> SameSpace(s, s2, c)
    requires forall w: nat :: EntryOf(s2, procs[pid].cr3, w) ==
               if EndPage(end) <= w < EndPage(procs[pid].heapEnd) then BLANK else EntryOf(s, procs[pid].cr3, w)
    ensures var procs2 := procs[pid := procs[pid].(heapEnd := end)];
            && Running(s2, procs2)
            && ImagesOf(s2, procs2) == ImagesOf(s, procs)[pid := Resized(ImagesOf(s, procs)[pid], end)]
  {
    hide Exact, InRange, Exclusive, Tallied, KernelOk, LayoutOk, Unshared, Holds, SameSpace, ImageOf, Resized;
    var p := procs[pid];
    var procs2 := procs[pid := p.(heapEnd := end)];
    forall qid | qid in procs && qid != pid
      ensures SameView(s, s2, procs[qid])
    {
      assert Root(s.spaces, procs[qid].cr3);
      Undisturbed(s, s2, procs[qid]);
    }
    ResizedView(s, s2, p, end);
  }

  lemma ResizedView(s: State, s2: State, p: Proc, end: nat)
    requires WellShaped(s) && WellShaped(s2) && ProcOk(s, p) && p.cr3 in s2.spaces && s2.pages == s.pages
    requires HEAP_START <= end <= HEAP_LIMIT
    requires forall w: nat :: EntryOf(s2, p.cr3, w) ==
               if EndPage(end) <= w < EndPage(p.heapEnd) then BLANK else EntryOf(s, p.cr3, w)
    ensures ProcOk(s2, p.(heapEnd := end))
    ensures ImageOf(s2, p.(heapEnd := end)) == Resized(ImageOf(s, p), end)
  {
    forall v: nat | UserPage(v)
      ensures ResizedAt(s, s2, p, end, v)
    {
      ResizedPage(s, s2, p, end, v);
    }
    hide EntryOf, WellShaped, PageOf, GrantOf;
    ResizedImage(s, s2, p, end);
  }

  lemma ResizedImage(s: State, s2: State, p: Proc, end: nat)
    requires WellShaped(s) && WellShaped(s2)
    requires forall v: nat :: UserPage(v) ==> ResizedAt(s, s2, p, end, v)
    ensures ImageOf(s2, p.(heapEnd := end)) == Resized(ImageOf(s, p), end)
  {
    hide WellShaped, PageOf, GrantOf, EndPage;
    var q := p.(heapEnd := end);
    forall v: nat | FIRST_PAGE <= v < LAST_PAGE
      ensures ImageOf(s2, q).mem[v] == Resized(ImageOf(s, p), end).mem[v]
      ensures ImageOf(s2, q).grant[v] == Resized(ImageOf(s, p), end).grant[v]
    {
      assert ResizedAt(s, s2, p, end, v);
    }
    hide ResizedAt, WellShaped;
    assert ImageOf(s2, q).mem == Resized(ImageOf(s, p), end).mem;
    assert ImageOf(s2, q).grant == Resized(ImageOf(s, p), end).grant;
  }

  ghost predicate ResizedAt(s: State, s2: State, p: Proc, end: nat, v: nat)
    requires WellShaped(s) && WellShaped(s2)
  {
    && PageOf(s2, p.cr3, v) == (if HeapPage(v) && v >= EndPage(end) then ZeroPage() else PageOf(s, p.cr3, v))
    && GrantOf(s2, p.cr3, end, v) ==
       if HeapPage(v) then (if v < EndPage(end) then ReadWrite else NoAccess) else GrantOf(s, p.cr3, p.heapEnd, v)
  }

  lemma ResizedPage(s: State, s2: State, p: Proc, end: nat, v: nat)
    requires WellShaped(s) && WellShaped(s2) && ProcOk(s, p) && s2.pages == s.pages
    requires HEAP_START <= end <= HEAP_LIMIT && UserPage(v)
    requires forall w: nat :: EntryOf(s2, p.cr3, w) ==
               if EndPage(end) <= w < EndPage(p.heapEnd) then BLANK else EntryOf(s, p.cr3, w)
    ensures ResizedAt(s, s2, p, end, v)
  {
    hide EntryOf, WellShaped;
  }

  lemma SpacesAfterUpdate(procs: map<nat, Proc>, pid: nat, p: Proc)
    requires pid in procs && p.cr3 == procs[pid].cr3
    ensures SpacesOf(procs[pid := p]) == SpacesOf(procs)
  {
    var procs2 := procs[pid := p];
    assert forall qid :: qid in procs ==> procs2[qid].cr3 == procs[qid].cr3;
  }

  lemma SpacesAfterInsert(procs: map<nat, Proc>, pid: nat, p: Proc)
    requires pid !in procs
    ensures SpacesOf(procs[pid := p]) == SpacesOf(procs) + {p.cr3}
  {
    var procs2 := procs[pid := p];
    assert procs2[pid].cr3 == p.cr3;
    assert forall qid :: qid in procs ==> procs2[qid].cr3 == procs[qid].cr3;
  }

  lemma SpacesAfterRemove(procs: map<nat, Proc>, pid: nat, s: State)
    requires WellShaped(s) && Running(s, procs) && pid in procs
    ensures SpacesOf(procs - {pid}) == SpacesOf(procs) - {procs[pid].cr3}
    ensures Running(s, procs - {pid})
  {
    hide ProcOk, WellShaped;
    var procs2 := procs - {pid};
    assert forall qid :: qid in procs2 ==> procs2[qid].cr3 == procs[qid].cr3;
  }

  /** Processes whose spaces and pages were not touched see what they saw. */
  lemma UntouchedImages(s: State, s2: State, procs: map<nat, Proc>)
    requires Inv(s) && Inv(s2) && Running(s, procs) && s2.pages == s.pages
    requires forall pid :: pid in procs ==> procs[pid].cr3 in s2.spaces && SameSpace(s, s2, procs[pid].cr3)
    ensures Running(s2, procs) && ImagesOf(s2, procs) == ImagesOf(s, procs)
  {
    hide Exact, InRange, Exclusive, Tallied, KernelOk, LayoutOk, EntryOf, SameSpace, ImageOf;
    forall pid | pid in procs
      ensures SameView(s, s2, procs[pid])
    {
      Undisturbed(s, s2, procs[pid]);
    }
  }

  lemma ForkedImages(s: State, s2: State, procs: map<nat, Proc>, pid: nat, child: nat, nd: nat)
    requires Inv(s) && Inv(s2) && Running(s, procs) && pid in procs && child !in procs
    requires Cloned(s, s2, procs[pid].cr3, nd)
    ensures var procs2 := procs[child := procs[pid].(cr3 := nd)];
            && Running(s2, procs2)
            && ImagesOf(s2, procs2) == ImagesOf(s, procs)[child := ImagesOf(s, procs)[pid]]
  {
    hide Exact, InRange, Exclusive, Tallied, KernelOk, LayoutOk, EntryOf, SameSpace, ImageOf;
    forall qid | qid in procs
      ensures SameView(s, s2, procs[qid])
      ensures ProcOk(s2, procs[pid].(cr3 := nd))
      ensures ImageOf(s2, procs[pid].(cr3 := nd)) == ImageOf(s, procs[pid])
    {
      CloneView(s, s2, procs[pid], nd, procs[qid]);
    }
    assert forall qid :: qid in procs ==> procs[qid].cr3 in s.spaces;
  }

  lemma SpawnedImages(s: State, s2: State, procs: map<nat, Proc>, pid: nat, d: nat)
    requires WellShaped(s) && WellShaped(s2) && Running(s2, procs) && pid !in procs
    requires ImagesOf(s2, procs) == ImagesOf(s, procs)
    requires d in s2.spaces && d !in SpacesOf(procs) && forall i, j :: !UserLeaf(Walk(s2, d, i, j))
    ensures var procs2 := procs[pid := Proc(d, HEAP_START, HEAP_START)];
            && Running(s2, procs2)
            && ImagesOf(s2, procs2) == ImagesOf(s, procs)[pid := EmptyImage()]
  {
    EmptyView(s2, d);
    hide WellShaped, Walk, ProcOk, ImageOf, EmptyImage;
    assert forall qid :: qid in procs ==> procs[qid].cr3 in SpacesOf(procs);
  }

  lemma NewSpace(s: State, d: nat)
    requires Inv(s) && d < |s.refs| && s.refs[d] == 0
    ensures d !in s.spaces
  {
    Unreferenced(s, d);
  }

  lemma SpaceIsNotKernel(s: State, d: nat)
    requires Inv(s) && d in s.spaces
    ensures d != 0 && d != KERNEL_DIR
  {
    SoleHolder(s, Dir(d), d);
  }

  lemma EmptyView(s: State, d: nat)
    requires WellShaped(s) && d in s.spaces
    requires forall i, j :: !UserLeaf(Walk(s, d, i, j))
    ensures ProcOk(s, Proc(d, HEAP_START, HEAP_START))
    ensures ImageOf(s, Proc(d, HEAP_START, HEAP_START)) == EmptyImage()
  {
    hide Walk, WellShaped;
    forall v: nat
      ensures !UserLeaf(EntryOf(s, d, v)) && PageOf(s, d, v) == ZeroPage()
      ensures GrantOf(s, d, HEAP_START, v) == NoAccess
    {
    }
    hide PageOf, GrantOf, EntryOf;
    assert ImageOf(s, Proc(d, HEAP_START, HEAP_START)).mem == EmptyImage().mem;
    assert ImageOf(s, Proc(d, HEAP_START, HEAP_START)).grant == EmptyImage().grant;
  }

  lemma SameEntry(s: State, s2: State, d: nat, v: nat)
    requires WellShaped(s) && WellShaped(s2) && d in s.spaces
    requires forall c :: Root(s.spaces, c) ==> SameSpace(s, s2, c)
    ensures EntryOf(s2, d, v) == EntryOf(s, d, v)
  {
    assert Root(s.spaces, d);
  }

  /** paging_set_page_flags_in_directory on a page that is mapped writable: its protection may
      only be reduced. */
  lemma ReprotectLeaf(s: State, d: nat, i: nat, j: nat, e: Entry)
    requires Inv(s) && Unshared(s) && Owned(s, d, i) && j < ENTRIES
    requires UserLeaf(e) && UserLeaf(Walk(s, d, i, j)) && e.frame == Walk(s, d, i, j).frame
    requires Walk(s, d, i, j).writable
    ensures s.tables[d][i].frame < |s.tables|
    ensures var s2 := WithLeaf(s, d, i, j, e);
            Inv(s2) && Unshared(s2) && OnlyLeaf(s, s2, d, i, j, e)
  {
    hide Exact, InRange, Exclusive, KernelOk, LayoutOk, Tallied;
    UserEntryOwned(s, d, i, j);
    RetagLeaf(s, d, i, j, e);
    assert forall r :: Holds(s, r, e.frame) ==> r == Leaf(d, i, j) by {
      assert WritableRef(s, Leaf(d, i, j));
    }
    UnsharedRetag(s, WithLeaf(s, d, i, j, e), d, i, j, e);
  }

  /** Outside the heap a page is granted exactly if it is mapped. */
  lemma PageGranted(s: State, p: Proc, v: nat)
    requires Inv(s) && ProcOk(s, p) && UserPage(v) && !HeapPage(v)
    ensures ImageOf(s, p).grant[v] == NoAccess <==> !EntryOf(s, p.cr3, v).present
  {
    hide Exact, InRange, Exclusive, Tallied, KernelOk, LayoutOk, Holds, Walk;
    if EntryOf(s, p.cr3, v).present {
      EntryIsUser(s, p.cr3, DirIndex(v), TableIndex(v));
    }
  }

  lemma PageTaken(s0: State, s1: State, s2: State, d: nat, i: nat, j: nat, e: Entry)
    requires WellShaped(s0) && WellShaped(s1) && WellShaped(s2) && d in s0.spaces
    requires s1.spaces == s0.spaces && s1.kernel == s0.kernel && |s1.refs| == |s0.refs|
    requires forall c :: Root(s0.spaces, c) ==> SameSpace(s0, s1, c)
    requires OnlyPage(s1, s2, d, i, j, e)
    ensures OnlyPage(s0, s2, d, i, j, e)
  {
    hide Walk;
    forall c | Root(s0.spaces, c) && c != d
      ensures SameSpace(s0, s2, c)
    {
      assert SameSpace(s0, s1, c) && Root(s1.spaces, c) && SameSpace(s1, s2, c);
    }
    assert Root(s0.spaces, d) && SameSpace(s0, s1, d);
  }

  /** Allocation, mapping, filling and protection compose to a change of one page. */
  lemma InstallSteps(s0: State, s1: State, s2: State, s3: State, s4: State, d: nat, i: nat, j: nat, e: Entry, e2: Entry)
    requires WellShaped(s0) && WellShaped(s1) && WellShaped(s2) && WellShaped(s3) && WellShaped(s4)
    requires d in s0.spaces
    requires s1.spaces == s0.spaces && s1.kernel == s0.kernel && |s1.refs| == |s0.refs|
    requires forall c :: Root(s0.spaces, c) ==> SameSpace(s0, s1, c)
    requires OnlyPage(s1, s2, d, i, j, e)
    requires s3 == s2.(pages := s3.pages)
    requires OnlyLeaf(s3, s4, d, i, j, e2)
    ensures OnlyPage(s0, s4, d, i, j, e2)
  {
    SameWalk(s2, s3);
    hide Walk;
    forall c | Root(s0.spaces, c) && c != d
      ensures SameSpace(s0, s4, c)
    {
      assert SameSpace(s0, s1, c) && Root(s1.spaces, c) && SameSpace(s1, s2, c);
      assert Root(s3.spaces, c);
    }
    assert Root(s0.spaces, d) && SameSpace(s0, s1, d) && Root(s3.spaces, d);
  }

  /** The net effect of installing a page. */
  lemma InstalledPage(s0: State, s4: State, procs: map<nat, Proc>, pid: nat, v: nat, e: Entry, bytes: Page)
    requires Inv(s0) && WellShaped(s4)
    requires Running(s0, procs) && pid in procs && ImagePage(v)
    requires !EntryOf(s0, procs[pid].cr3, v).present
    requires OnlyPage(s0, s4, procs[pid].cr3, DirIndex(v), TableIndex(v), e) && UserLeaf(e) && !e.cow
    requires e.frame < |s0.refs| && s0.refs[e.frame] == 0 && s4.pages == s0.pages[e.frame := bytes]
    ensures Running(s4, procs)
    ensures ImagesOf(s0, procs)[pid].grant[v] == NoAccess
    ensures ImagesOf(s4, procs) ==
            ImagesOf(s0, procs)[pid := Installed(ImagesOf(s0, procs)[pid], v, bytes, e.writable)]
  {
    hide Exact, InRange, Exclusive, Tallied, KernelOk, LayoutOk, Unshared, Holds, Walk, ImageOf, Installed, SameSpace;
    InstalledView(s0, s4, procs[pid], v, e, bytes);
    hide EntryOf;
    forall qid | qid in procs && qid != pid
      ensures SameView(s0, s4, procs[qid])
    {
      assert Root(s0.spaces, procs[qid].cr3);
      Undisturbed(s0, s4, procs[qid]);
    }
    OneImage(s0, s4, procs, pid, Installed(ImageOf(s0, procs[pid]), v, bytes, e.writable));
  }

  lemma RemovedPage(s: State, s2: State, procs: map<nat, Proc>, pid: nat, v: nat)
    requires Inv(s) && WellShaped(s2) && Running(s, procs) && pid in procs && UserPage(v) && !HeapPage(v)
    requires OnlyPage(s, s2, procs[pid].cr3, DirIndex(v), TableIndex(v), BLANK) && s2.pages == s.pages
    ensures Running(s2, procs)
    ensures ImagesOf(s2, procs) == ImagesOf(s, procs)[pid := Removed(ImagesOf(s, procs)[pid], v)]
  {
    hide Exact, InRange, Exclusive, Tallied, KernelOk, LayoutOk, Unshared, Holds, Walk, ImageOf, Removed, SameSpace;
    RemovedView(s, s2, procs[pid], v);
    hide EntryOf;
    forall qid | qid in procs && qid != pid
      ensures SameView(s, s2, procs[qid])
    {
      assert Root(s.spaces, procs[qid].cr3);
      Undisturbed(s, s2, procs[qid]);
    }
    OneImage(s, s2, procs, pid, Removed(ImageOf(s, procs[pid]), v));
  }

  lemma RemovedView(s: State, s2: State, p: Proc, v: nat)
    requires Inv(s) && WellShaped(s2) && ProcOk(s, p) && UserPage(v) && !HeapPage(v)
    requires OnlyPage(s, s2, p.cr3, DirIndex(v), TableIndex(v), BLANK) && s2.pages == s.pages
    ensures ProcOk(s2, p) && ImageOf(s2, p) == Removed(ImageOf(s, p), v)
  {
    hide Exact, InRange, Exclusive, Tallied, KernelOk, LayoutOk, Unshared, Holds, Walk;
    OtherPages(s, s2, p.cr3, v, BLANK);
    PageEntry(s, s2, p.cr3, v, BLANK);
    hide DirIndex, TableIndex;
    forall w: nat | w != v
      ensures PageOf(s2, p.cr3, w) == PageOf(s, p.cr3, w)
      ensures GrantOf(s2, p.cr3, p.heapEnd, w) == GrantOf(s, p.cr3, p.heapEnd, w)
    {
    }
    RemovedImage(s, s2, p, v);
  }

  lemma RemovedImage(s: State, s2: State, p: Proc, v: nat)
    requires WellShaped(s) && WellShaped(s2) && UserPage(v)
    requires forall w: nat :: w != v ==> PageOf(s2, p.cr3, w) == PageOf(s, p.cr3, w)
    requires forall w: nat :: w != v ==> GrantOf(s2, p.cr3, p.heapEnd, w) == GrantOf(s, p.cr3, p.heapEnd, w)
    requires PageOf(s2, p.cr3, v) == ZeroPage() && GrantOf(s2, p.cr3, p.heapEnd, v) == NoAccess
    ensures ImageOf(s2, p) == Removed(ImageOf(s, p), v)
  {
    hide PageOf, GrantOf, WellShaped;
  }

  lemma OneImage(s: State, s2: State, procs: map<nat, Proc>, pid: nat, im: Image)
    requires WellShaped(s) && WellShaped(s2) && Running(s, procs) && pid in procs
    requires ProcOk(s2, procs[pid]) && ImageOf(s2, procs[pid]) == im
    requires forall qid :: qid in procs && qid != pid ==> SameView(s, s2, procs[qid])
    ensures Running(s2, procs) && ImagesOf(s2, procs) == ImagesOf(s, procs)[pid := im]
  {
    hide ProcOk, ImageOf, WellShaped;
  }

  lemma InstalledView(s: State, s2: State, p: Proc, v: nat, e: Entry, bytes: Page)
    requires Inv(s) && WellShaped(s2) && ProcOk(s, p) && ImagePage(v)
    requires OnlyPage(s, s2, p.cr3, DirIndex(v), TableIndex(v), e) && UserLeaf(e) && !e.cow
    requires !EntryOf(s, p.cr3, v).present
    requires e.frame < |s.refs| && s.refs[e.frame] == 0 && s2.pages == s.pages[e.frame := bytes]
    ensures ProcOk(s2, p) && ImageOf(s, p).grant[v] == NoAccess
    ensures ImageOf(s2, p) == Installed(ImageOf(s, p), v, bytes, e.writable)
  {
    hide Exact, InRange, Exclusive, Tallied, KernelOk, LayoutOk, Unshared, Holds, Walk;
    OtherPages(s, s2, p.cr3, v, e);
    PageEntry(s, s2, p.cr3, v, e);
    forall w: nat | w != v
      ensures PageOf(s2, p.cr3, w) == PageOf(s, p.cr3, w)
      ensures GrantOf(s2, p.cr3, p.heapEnd, w) == GrantOf(s, p.cr3, p.heapEnd, w)
    {
      if UserLeaf(EntryOf(s, p.cr3, w)) {
        MappedIsCounted(s, p.cr3, w);
      }
    }
    InstalledImage(s, s2, p, v, bytes, e.writable);
  }

  lemma InstalledImage(s: State, s2: State, p: Proc, v: nat, bytes: Page, writable: bool)
    requires WellShaped(s) && WellShaped(s2) && UserPage(v)
    requires forall w: nat :: w != v ==> PageOf(s2, p.cr3, w) == PageOf(s, p.cr3, w)
    requires forall w: nat :: w != v ==> GrantOf(s2, p.cr3, p.heapEnd, w) == GrantOf(s, p.cr3, p.heapEnd, w)
    requires PageOf(s2, p.cr3, v) == bytes
    requires GrantOf(s2, p.cr3, p.heapEnd, v) == if writable then ReadWrite else ReadOnly
    ensures ImageOf(s2, p) == Installed(ImageOf(s, p), v, bytes, writable)
  {
    hide WellShaped, PageOf, GrantOf;
    assert ImageOf(s2, p).mem == Installed(ImageOf(s, p), v, bytes, writable).mem;
    assert ImageOf(s2, p).grant == Installed(ImageOf(s, p), v, bytes, writable).grant;
  }
}
