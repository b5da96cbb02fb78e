/** Runs of the virtual-memory subsystem against the specification without sharing. */
module VmRun {
  import opened VmState
  import opened VmLemmas
  import opened VmScarce
  import opened VmSteps
  import opened VmMachine
  import opened VmSpec
  import opened VmView
  import opened VmKernel

  datatype Event =
    | SpawnProcess(pid: nat)
    | MapImage(pid: nat, page: nat, bytes: Page, writable: bool)
    | ForkProcess(pid: nat, child: nat)
    | ReadByte(pid: nat, addr: nat)
    | WriteByte(pid: nat, addr: nat, b: Byte)
    | CopyOut(pid: nat, addr: nat, data: seq<Byte>)
    | SetBreak(pid: nat, requested: nat)
    | ExitProcess(pid: nat)

  /** What the caller learns: the operation happened, a byte was read, it was denied, or the
      kernel ran out of memory (or of counts for a shared frame). */
  datatype Reply = Done | Got(value: Byte) | Denied | NoMemory

  /** The last page of the heap may reach past brk; until it is touched, only the bytes below
      brk can be. */
  ghost predicate Unreached(im: Image, addr: nat) { HeapPage(PageNumber(addr)) && addr >= im.heapEnd }

  /** The replies that the specification allows.  An operation is denied only if the
      specification denies it; when memory runs out is for `Scarce` to say. */
  ghost predicate Allowed(ims: map<nat, Image>, e: Event, r: Reply) {
    match e
    case SpawnProcess(pid) => !r.Got? && (r == Done ==> pid !in ims) && (r == Denied ==> pid in ims)
    case MapImage(pid, page, _, _) =>
      var free := pid in ims && ImagePage(page) && page in ims[pid].grant &&
                  ims[pid].grant[page] == NoAccess;
      !r.Got? && (r == Done ==> free) && (r == Denied ==> !free)
    case ForkProcess(pid, child) =>
      !r.Got? && (r == Done ==> pid in ims && child !in ims) && (r == Denied ==> pid !in ims || child in ims)
    case ReadByte(pid, addr) =>
      && r != Done
      && (r.Got? ==> pid in ims && MayRead(ims[pid], addr) && r.value == Peek(ims[pid], addr))
      && (r == Denied ==> pid !in ims || !MayRead(ims[pid], addr) || Unreached(ims[pid], addr))
    case WriteByte(pid, addr, _) =>
      && !r.Got?
      && (r == Done ==> pid in ims && MayWrite(ims[pid], addr))
      && (r == Denied ==> pid !in ims || !MayWrite(ims[pid], addr) || Unreached(ims[pid], addr))
    case CopyOut(pid, addr, data) =>
      && !r.Got?
      && (r == Done ==> pid in ims && MayWriteAll(ims[pid], addr, |data|))
      && (r == Denied && Addressable(addr, |data|) && pid in ims ==>
            !MayWriteAll(ims[pid], addr, |data|))
    case SetBreak(pid, requested) =>
      var legal := pid in ims && WellFormed(ims[pid]) && HEAP_START <= requested <= HEAP_LIMIT;
      !r.Got? && r != NoMemory && (r == Done <==> legal)
    case ExitProcess(pid) => !r.Got? && r != NoMemory && (r == Done <==> pid in ims)
  }

  /** What an operation finds: the memory, the processes, and whether and when allocations fail. */
  datatype Memory = Memory(s: State, procs: map<nat, Proc>, scratch: bool, failAfter: int)

  ghost function Now(k: Kernel): Memory
    reads k, k.m
  {
    Memory(k.m.S(), k.procs, k.m.scratch, k.m.failAfter)
  }

  /** There are not enough frames or counts for the operation. */
  ghost predicate Scarce(mem: Memory, e: Event)
    requires WellShaped(mem.s)
  {
    match e
    case SpawnProcess(_) => Short(mem.s.bitmap, mem.failAfter, 2)
    case MapImage(pid, page, _, _) => pid in mem.procs && PageShort(mem.s, mem.procs[pid].cr3, DirIndex(page), mem.failAfter)
    case ForkProcess(pid, _) => pid in mem.procs && !CanClone(mem.s, mem.procs[pid].cr3, mem.scratch, mem.failAfter)
    case ReadByte(pid, addr) => pid in mem.procs && FaultShort(mem.s, mem.procs[pid], addr, false, mem.scratch, mem.failAfter)
    case WriteByte(pid, addr, _) => pid in mem.procs && StoreShort(mem.s, mem.procs[pid], addr, mem.scratch, mem.failAfter)
    case CopyOut(_, addr, data) => data != [] && (!mem.scratch || Short(mem.s.bitmap, mem.failAfter, 2 * PagesIn(addr, |data|)))
    case SetBreak(_, _) => false
    case ExitProcess(_) => false
  }

  /** Every process but pid is still there, with the page tables it had. */
  ghost predicate Untouched(mem: Memory, mem2: Memory, pid: nat)
    requires WellShaped(mem.s) && WellShaped(mem2.s)
  {
    forall q :: q in mem.procs && q != pid ==> Stays(mem, mem2, q)
  }

  ghost predicate Stays(mem: Memory, mem2: Memory, q: nat)
    requires WellShaped(mem.s) && WellShaped(mem2.s) && q in mem.procs
  {
    q in mem2.procs && mem2.procs[q] == mem.procs[q] && SameSpace(mem.s, mem2.s, mem.procs[q].cr3)
  }

  lemma UntouchedSelf(mem: Memory, pid: nat)
    requires WellShaped(mem.s) && Running(mem.s, mem.procs)
    ensures Untouched(mem, mem, pid)
  {
  }

  lemma AsideUntouched(mem: Memory, mem2: Memory, pid: nat)
    requires WellShaped(mem.s) && WellShaped(mem2.s) && Running(mem.s, mem.procs)
    requires pid in mem.procs && Aside(mem.s, mem2.s, mem.procs[pid].cr3)
    requires forall q :: q in mem.procs && q != pid ==> q in mem2.procs && mem2.procs[q] == mem.procs[q]
    ensures Untouched(mem, mem2, pid)
  {
    hide WellShaped, SameSpace;
  }

  lemma NewUntouched(mem: Memory, mem2: Memory, pid: nat)
    requires WellShaped(mem.s) && WellShaped(mem2.s) && Running(mem.s, mem.procs)
    requires forall d :: Aside(mem.s, mem2.s, d)
    requires forall q :: q in mem.procs && q != pid ==> q in mem2.procs && mem2.procs[q] == mem.procs[q]
    ensures Untouched(mem, mem2, pid)
  {
    hide WellShaped, SameSpace;
    forall q | q in mem.procs && q != pid
      ensures Stays(mem, mem2, q)
    {
      assert Aside(mem.s, mem2.s, mem.procs[q].cr3 + 1);
    }
  }

  lemma GoneUntouched(mem: Memory, mem2: Memory, pid: nat)
    requires WellShaped(mem.s) && WellShaped(mem2.s) && Running(mem.s, mem.procs) && pid in mem.procs
    requires Kept(mem.s, mem2.s, mem.procs[pid].cr3) && mem2.procs == mem.procs - {pid}
    ensures Untouched(mem, mem2, pid)
  {
    hide WellShaped, SameSpace;
    assert forall c :: c in mem.s.spaces ==> Root(mem.s.spaces, c);
  }

  lemma StaysTrans(a: Memory, b: Memory, c: Memory, q: nat)
    requires WellShaped(a.s) && WellShaped(b.s) && WellShaped(c.s)
    requires q in a.procs && Stays(a, b, q) && Stays(b, c, q)
    ensures Stays(a, c, q)
  {
    hide WellShaped;
  }

  ghost predicate Addressable(addr: nat, size: nat) {
    addr < 0x1_0000_0000 && size < 0x1_0000_0000 && InUserSpace(addr, size)
  }

  /** The specification's next state: every process has memory of its own. */
  ghost function Next(ims: map<nat, Image>, e: Event, r: Reply): map<nat, Image> {
    if r != Done || !Allowed(ims, e, r) then ims else
    match e
    case SpawnProcess(pid) => ims[pid := EmptyImage()]
    case MapImage(pid, page, bytes, writable) => ims[pid := Installed(ims[pid], page, bytes, writable)]
    case ForkProcess(pid, child) => ims[child := ims[pid]]
    case ReadByte(_, _) => ims
    case WriteByte(pid, addr, b) => ims[pid := Poke(ims[pid], addr, b)]
    case CopyOut(pid, addr, data) => ims[pid := PokeAll(ims[pid], addr, data)]
    case SetBreak(pid, requested) => ims[pid := Resized(ims[pid], requested)]
    case ExitProcess(pid) => ims - {pid}
  }

  /** A whole run of the specification: the state it reaches, and that it allows each reply. */
  ghost function SpecState(ims: map<nat, Image>, events: seq<Event>, replies: seq<Reply>): map<nat, Image>
    requires |replies| == |events|
    decreases |events|
  {
    if events == [] then ims
    else
      Next(SpecState(ims, events[..|events| - 1], replies[..|events| - 1]),
           events[|events| - 1], replies[|events| - 1])
  }

  ghost predicate SpecAllows(ims: map<nat, Image>, events: seq<Event>, replies: seq<Reply>)
    requires |replies| == |events|
  {
    forall k :: 0 <= k < |events| ==> Allowed(SpecState(ims, events[..k], replies[..k]), events[k], replies[k])
  }

  /** The process becomes the running one (paging_switch_directory). */
  method SwitchTo(k: Kernel, pid: nat)
    requires k.Valid() && pid in k.procs
    modifies k.m`active
    ensures k.Valid() && k.Images() == old(k.Images()) && k.m.active == k.procs[pid].cr3
  {
    k.m.active := k.procs[pid].cr3;
  }

  method ReadOne(k: Kernel, e: Event) returns (r: Reply)
    requires k.Valid() && e.ReadByte?
    modifies k.m
    ensures k.Valid() && k.m.pinned == old(k.m.pinned)
    ensures Allowed(old(k.Images()), e, r) && k.Images() == Next(old(k.Images()), e, r)
    ensures r == NoMemory ==> Scarce(old(Now(k)), e)
    ensures Untouched(old(Now(k)), Now(k), e.pid)
  {
    hide Exact, InRange, Exclusive, Tallied, KernelOk, LayoutOk, Unshared, ImageOf, Running, SpacesOf, Untouched, Aside,
         MayRead, Peek, FaultShort, OutOfReach;
    ghost var mem := Now(k);
    UntouchedSelf(mem, e.pid);
    if e.pid !in k.procs {
      return Denied;
    }
    if e.addr >= 0x1_0000_0000 {
      BeyondUserSpace(k.Images()[e.pid], e.addr);
      return Denied;
    }
    SwitchTo(k, e.pid);
    var load := k.UserLoad(e.pid, e.addr);
    AsideUntouched(mem, Now(k), e.pid);
    UnreachedWhere(mem, e.pid, e.addr);
    return match load case Loaded(b) => Got(b) case Killed(why) => if why == Oom then NoMemory else Denied;
  }

  method WriteOne(k: Kernel, e: Event) returns (r: Reply)
    requires k.Valid() && e.WriteByte?
    modifies k.m
    ensures k.Valid() && k.m.pinned == old(k.m.pinned)
    ensures Allowed(old(k.Images()), e, r) && k.Images() == Next(old(k.Images()), e, r)
    ensures r == NoMemory ==> Scarce(old(Now(k)), e)
    ensures Untouched(old(Now(k)), Now(k), e.pid)
  {
    hide Exact, InRange, Exclusive, Tallied, KernelOk, LayoutOk, Unshared, ImageOf, Running, SpacesOf, Untouched, Aside,
         MayWrite, Poke, StoreShort, OutOfReach;
    ghost var mem := Now(k);
    UntouchedSelf(mem, e.pid);
    if e.pid !in k.procs {
      return Denied;
    }
    if e.addr >= 0x1_0000_0000 {
      BeyondUserSpace(k.Images()[e.pid], e.addr);
      return Denied;
    }
    SwitchTo(k, e.pid);
    var store := k.UserStore(e.pid, e.addr, e.b);
    AsideUntouched(mem, Now(k), e.pid);
    UnreachedWhere(mem, e.pid, e.addr);
    return match store case StoreDone => Done case StoreKilled(why) => if why == Oom then NoMemory else Denied;
  }

  method CopyBuffer(k: Kernel, e: Event) returns (r: Reply)
    requires k.Valid() && e.CopyOut?
    modifies k.m
    ensures k.Valid() && k.m.pinned == old(k.m.pinned)
    ensures Allowed(old(k.Images()), e, r) && k.Images() == Next(old(k.Images()), e, r)
    ensures r == NoMemory ==> Scarce(old(Now(k)), e)
    ensures Untouched(old(Now(k)), Now(k), e.pid)
  {
    hide Exact, InRange, Exclusive, Tallied, KernelOk, LayoutOk, Unshared, ImageOf, Running, SpacesOf, Untouched, Aside,
         MayWriteAll, PokeAll, Short, Ready;
    ghost var mem := Now(k);
    UntouchedSelf(mem, e.pid);
    if e.pid !in k.procs || e.addr >= 0x1_0000_0000 || |e.data| >= 0x1_0000_0000 {
      return Denied;
    }
    SwitchTo(k, e.pid);
    var status := k.CopyToUser(e.pid, e.addr, e.data);
    AsideUntouched(mem, Now(k), e.pid);
    if status == Success && e.data == [] {
      PokeNothing(k.Images()[e.pid], e.addr, e.data);
      assert k.Images()[e.pid := k.Images()[e.pid]] == k.Images();
    }
    return match status case Success => Done case Efault => Denied case Enomem => NoMemory;
  }

  /** An access to user memory by the running process or on its behalf. */
  method Access(k: Kernel, e: Event) returns (r: Reply)
    requires k.Valid() && (e.ReadByte? || e.WriteByte? || e.CopyOut?)
    modifies k.m
    ensures k.Valid() && k.m.pinned == old(k.m.pinned)
    ensures Allowed(old(k.Images()), e, r) && k.Images() == Next(old(k.Images()), e, r)
    ensures r == NoMemory ==> Scarce(old(Now(k)), e)
    ensures Untouched(old(Now(k)), Now(k), e.pid)
  {
    hide Exact, InRange, Exclusive, Tallied, KernelOk, LayoutOk, Unshared, ImageOf, Running, SpacesOf, Allowed, Next, Scarce, Untouched;
    if e.ReadByte? {
      r := ReadOne(k, e);
    } else if e.WriteByte? {
      r := WriteOne(k, e);
    } else {
      r := CopyBuffer(k, e);
    }
  }

  lemma UnreachedWhere(mem: Memory, pid: nat, addr: nat)
    requires WellShaped(mem.s) && pid in mem.procs
    ensures OutOfReach(mem.s, mem.procs[pid], addr) ==> Unreached(ImageOf(mem.s, mem.procs[pid]), addr)
  {
  }

  lemma BeyondUserSpace(im: Image, addr: nat)
    requires WellFormed(im) && addr >= 0x1_0000_0000
    ensures !MayRead(im, addr) && !MayWrite(im, addr)
  {
  }

  /** A process appears or disappears. */
  method Lifecycle(k: Kernel, e: Event) returns (r: Reply)
    requires k.Valid() && (e.SpawnProcess? || e.ForkProcess? || e.ExitProcess?)
    modifies k, k.m
    ensures k.Valid() && k.m.pinned == old(k.m.pinned)
    ensures Allowed(old(k.Images()), e, r) && k.Images() == Next(old(k.Images()), e, r)
    ensures r == NoMemory ==> Scarce(old(Now(k)), e)
    ensures Untouched(old(Now(k)), Now(k), e.pid)
  {
    hide Exact, InRange, Exclusive, Tallied, KernelOk, LayoutOk, Unshared, ImageOf, Running, SpacesOf, EmptyImage,
         Untouched, Aside, CanClone, Short, Kept;
    ghost var mem := Now(k);
    UntouchedSelf(mem, e.pid);
    match e {
      case SpawnProcess(pid) =>
        if pid in k.procs {
          return Denied;
        }
        var ok := k.Spawn(pid);
        NewUntouched(mem, Now(k), pid);
        return if ok then Done else NoMemory;
      case ForkProcess(pid, child) =>
        if pid !in k.procs || child in k.procs {
          return Denied;
        }
        var ok := k.Fork(pid, child);
        AsideUntouched(mem, Now(k), pid);
        return if ok then Done else NoMemory;
      case ExitProcess(pid) =>
        if pid !in k.procs {
          return Denied;
        }
        k.m.active := KERNEL_DIR;
        SpaceOfProcess(k.m.S(), k.procs, pid);
        k.Teardown(pid);
        GoneUntouched(mem, Now(k), pid);
        return Done;
    }
  }

  /** A page of the program image or the stack is installed. */
  method Install(k: Kernel, e: Event) returns (r: Reply)
    requires k.Valid() && e.MapImage?
    modifies k.m
    ensures k.Valid() && k.m.pinned == old(k.m.pinned)
    ensures Allowed(old(k.Images()), e, r) && k.Images() == Next(old(k.Images()), e, r)
    ensures r == NoMemory ==> Scarce(old(Now(k)), e)
    ensures Untouched(old(Now(k)), Now(k), e.pid)
  {
    hide Exact, InRange, Exclusive, Tallied, KernelOk, LayoutOk, Unshared, ImageOf, Running, SpacesOf, Installed,
         Untouched, Aside, PageShort, Kept;
    ghost var mem := Now(k);
    UntouchedSelf(mem, e.pid);
    if e.pid !in k.procs || !ImagePage(e.page) {
      return Denied;
    }
    var ok, mapped := k.InstallPage(e.pid, e.page, e.bytes, e.writable);
    if ok {
      KeptAside(mem.s, k.m.S(), k.procs[e.pid].cr3);
    } else {
      AsideSelf(mem.s, k.procs[e.pid].cr3);
    }
    AsideUntouched(mem, Now(k), e.pid);
    return if ok then Done else if mapped then Denied else NoMemory;
  }

  /** The heap grows or shrinks. */
  method Resize(k: Kernel, e: Event) returns (r: Reply)
    requires k.Valid() && e.SetBreak?
    modifies k, k.m
    ensures k.Valid() && k.m.pinned == old(k.m.pinned)
    ensures Allowed(old(k.Images()), e, r) && k.Images() == Next(old(k.Images()), e, r)
    ensures r == NoMemory ==> Scarce(old(Now(k)), e)
    ensures Untouched(old(Now(k)), Now(k), e.pid)
  {
    hide Exact, InRange, Exclusive, Tallied, KernelOk, LayoutOk, Unshared, ImageOf, Running, SpacesOf, Resized,
         Untouched, Aside;
    ghost var mem := Now(k);
    UntouchedSelf(mem, e.pid);
    if e.pid !in k.procs {
      return Denied;
    }
    var _ := k.Brk(e.pid, e.requested);
    AsideUntouched(mem, Now(k), e.pid);
    return if HEAP_START <= e.requested <= HEAP_LIMIT then Done else Denied;
  }

  /** One event, performed by the kernel. */
  method Perform(k: Kernel, e: Event) returns (r: Reply)
    requires k.Valid()
    modifies k, k.m
    ensures k.Valid() && k.m.pinned == old(k.m.pinned)
    ensures Allowed(old(k.Images()), e, r) && k.Images() == Next(old(k.Images()), e, r)
    ensures r == NoMemory ==> Scarce(old(Now(k)), e)
    ensures Untouched(old(Now(k)), Now(k), e.pid)
  {
    hide Exact, InRange, Exclusive, Tallied, KernelOk, LayoutOk, Unshared, ImageOf, Running, SpacesOf, Allowed, Next, Scarce, Untouched;
    if e.SpawnProcess? || e.ForkProcess? || e.ExitProcess? {
      r := Lifecycle(k, e);
    } else if e.MapImage? {
      r := Install(k, e);
    } else if e.SetBreak? {
      r := Resize(k, e);
    } else {
      r := Access(k, e);
    }
  }

  ghost predicate Sensible(mem: Memory) { WellShaped(mem.s) && Running(mem.s, mem.procs) }

  /** The memory before each event and after the last shows the images of the specification; memory
      ran out only where it was scarce; and who did not act was not touched. */
  ghost predicate Traced(trace: seq<Memory>, ims: map<nat, Image>, events: seq<Event>, replies: seq<Reply>) {
    && |trace| == |events| + 1 == |replies| + 1
    && (forall i :: 0 <= i < |trace| ==> Sensible(trace[i]) && ImagesOf(trace[i].s, trace[i].procs) == SpecState(ims, events[..i], replies[..i]))
    && (forall i :: 0 <= i < |events| && replies[i] == NoMemory ==> Scarce(trace[i], events[i]))
    && (forall i :: 0 <= i < |events| ==> Untouched(trace[i], trace[i + 1], events[i].pid))
  }

  lemma TracedMore(trace: seq<Memory>, ims: map<nat, Image>, events: seq<Event>, replies: seq<Reply>, e: Event, r: Reply, mem: Memory)
    requires Traced(trace, ims, events, replies) && Sensible(mem)
    requires ImagesOf(mem.s, mem.procs) == SpecState(ims, events + [e], replies + [r])
    requires r == NoMemory ==> Scarce(trace[|events|], e)
    requires Untouched(trace[|events|], mem, e.pid)
    ensures Traced(trace + [mem], ims, events + [e], replies + [r])
  {
    hide Scarce, Untouched, ImagesOf, Running, WellShaped, SpecState;
    var t, es, rs := trace + [mem], events + [e], replies + [r];
    forall i | 0 <= i < |t|
      ensures Sensible(t[i]) && ImagesOf(t[i].s, t[i].procs) == SpecState(ims, es[..i], rs[..i])
    {
      if i < |trace| {
        assert t[i] == trace[i] && es[..i] == events[..i] && rs[..i] == replies[..i];
      } else {
        assert es[..i] == es && rs[..i] == rs;
      }
    }
    forall i | 0 <= i < |es|
      ensures Untouched(t[i], t[i + 1], es[i].pid) && (rs[i] == NoMemory ==> Scarce(t[i], es[i]))
    {
      if i < |events| {
        assert t[i] == trace[i] && t[i + 1] == trace[i + 1] && es[i] == events[i] && rs[i] == replies[i];
      }
    }
  }

  /** Who does not act keeps its page tables and its memory through the whole run. */
  lemma {:induction false} NotActing(trace: seq<Memory>, ims: map<nat, Image>, events: seq<Event>, replies: seq<Reply>, q: nat, n: nat)
    requires Traced(trace, ims, events, replies) && n <= |events|
    requires q in trace[0].procs && forall i :: 0 <= i < |events| ==> events[i].pid != q
    ensures Sensible(trace[0]) && Sensible(trace[n]) && Stays(trace[0], trace[n], q)
    ensures q in SpecState(ims, events[..n], replies[..n]) && q in ims && SpecState(ims, events[..n], replies[..n])[q] == ims[q]
    decreases n
  {
    hide Scarce, Running, WellShaped, ImageOf, Next, Stays, Untouched, SpecState;
    assert Sensible(trace[0]) && Sensible(trace[n]);
    if n == 0 {
      StaysSelf(trace[0], q);
      SpecStart(trace, ims, events, replies, q);
    } else {
      NotActing(trace, ims, events, replies, q, n - 1);
      assert Sensible(trace[n - 1]) && Untouched(trace[n - 1], trace[n], events[n - 1].pid);
      StaysOne(trace[n - 1], trace[n], events[n - 1].pid, q, trace[0]);
      StaysTrans(trace[0], trace[n - 1], trace[n], q);
      SpecStepElsewhere(ims, events, replies, q, n);
    }
  }

  lemma StaysOne(a: Memory, b: Memory, pid: nat, q: nat, before: Memory)
    requires WellShaped(before.s) && WellShaped(a.s) && WellShaped(b.s) && q in before.procs && Stays(before, a, q)
    requires Untouched(a, b, pid) && q != pid
    ensures q in a.procs && Stays(a, b, q)
  {
    hide WellShaped, SameSpace;
  }

  lemma SpecStart(trace: seq<Memory>, ims: map<nat, Image>, events: seq<Event>, replies: seq<Reply>, q: nat)
    requires Traced(trace, ims, events, replies) && q in trace[0].procs
    ensures SpecState(ims, events[..0], replies[..0]) == ims && q in ims
  {
    hide Scarce, Running, WellShaped, ImageOf, Next, Untouched;
    assert Sensible(trace[0]) && q in ImagesOf(trace[0].s, trace[0].procs);
  }

  lemma SpecStepElsewhere(ims: map<nat, Image>, events: seq<Event>, replies: seq<Reply>, q: nat, n: nat)
    requires 0 < n <= |events| == |replies| && events[n - 1].pid != q
    requires q in ims && q in SpecState(ims, events[..n - 1], replies[..n - 1]) && SpecState(ims, events[..n - 1], replies[..n - 1])[q] == ims[q]
    ensures q in SpecState(ims, events[..n], replies[..n]) && SpecState(ims, events[..n], replies[..n])[q] == ims[q]
  {
    hide Next;
    assert events[..n][..n - 1] == events[..n - 1] && replies[..n][..n - 1] == replies[..n - 1];
    NextElsewhere(SpecState(ims, events[..n - 1], replies[..n - 1]), events[n - 1], replies[n - 1], q);
  }

  lemma StaysSelf(mem: Memory, q: nat)
    requires Sensible(mem) && q in mem.procs
    ensures Stays(mem, mem, q)
  {
  }

  lemma NextElsewhere(ims: map<nat, Image>, e: Event, r: Reply, q: nat)
    requires q in ims && e.pid != q
    ensures q in Next(ims, e, r) && Next(ims, e, r)[q] == ims[q]
  {
    hide EmptyImage, Installed, Poke, PokeAll, Resized, MayRead, MayWrite, MayWriteAll, Addressable, WellFormed;
  }

  /** Lazy sharing refines eager copying: over every run, whatever fails along the way, the
      processes see exactly the memory of the specification, the replies are the
      specification's, memory runs out only where it is scarce, and a run that ends with no
      process has given every frame back. */
  method Run(k: Kernel, events: seq<Event>) returns (replies: seq<Reply>, ghost trace: seq<Memory>)
    requires k.Valid()
    modifies k, k.m
    ensures k.Valid() && k.m.pinned == old(k.m.pinned)
    ensures |replies| == |events| && |trace| == |events| + 1
    ensures k.Images() == SpecState(old(k.Images()), events, replies)
    ensures SpecAllows(old(k.Images()), events, replies)
    ensures Traced(trace, old(k.Images()), events, replies) && trace[0] == old(Now(k)) && trace[|events|] == Now(k)
    ensures k.procs == map[] ==> k.m.used == |k.m.pinned|
    ensures old(k.procs) == map[] && k.procs == map[] ==> k.m.used == old(k.m.used)
  {
    hide Exact, InRange, Exclusive, Tallied, KernelOk, LayoutOk, Unshared, ImageOf, Running, Allowed, Next, Scarce, Untouched;
    replies, trace := [], [Now(k)];
    ghost var ims := k.Images();
    ghost var s0 := k.m.S();
    if k.procs == map[] {
      IdleUsed(s0);
    }
    assert events[..0] == [];
    for i := 0 to |events|
      invariant k.Valid() && k.m.pinned == s0.pinned && |replies| == i
      invariant k.Images() == SpecState(ims, events[..i], replies)
      invariant SpecAllows(ims, events[..i], replies)
      invariant Traced(trace, ims, events[..i], replies) && trace[0] == old(Now(k)) && trace[i] == Now(k)
    {
      hide Exact, InRange, Exclusive, Tallied, KernelOk, LayoutOk, Unshared, ImageOf, Running, Allowed, Next, Scarce, Untouched, Traced;
      var r := Perform(k, events[i]);
      SpecExtends(ims, events[..i], replies, events[i], r);
      TracedMore(trace, ims, events[..i], replies, events[i], r, Now(k));
      assert events[..i + 1] == events[..i] + [events[i]];
      replies, trace := replies + [r], trace + [Now(k)];
    }
    assert events[..|events|] == events;
    if k.procs == map[] {
      IdleUsed(k.m.S());
    }
  }

  /** What a wait with a status pointer does: the range is made writable at the call, other processes
      run while the caller sleeps, and the status is copied when it is resumed.  The copy cannot
      fail, whatever the others do and however short memory is by then. */
  method PrepareThenCopy(k: Kernel, pid: nat, addr: nat, data: seq<Byte>, events: seq<Event>) returns (prepared: Uaccess, copied: Uaccess)
    requires k.Valid() && pid in k.procs && data != [] && USER_START <= addr && addr + |data| <= USER_END
    requires forall i :: 0 <= i < |events| ==> events[i].pid != pid
    modifies k, k.m
    ensures k.Valid() && pid in k.procs
    ensures prepared == Success ==>
      && copied == Success && MayWriteAll(old(k.Images())[pid], addr, |data|)
      && k.Images()[pid] == PokeAll(old(k.Images())[pid], addr, data)
    ensures prepared == Efault ==> !MayWriteAll(old(k.Images())[pid], addr, |data|)
  {
    hide Exact, InRange, Exclusive, Tallied, KernelOk, LayoutOk, Unshared, ImageOf, Running, SpacesOf, Traced, Aside,
         Ready, Short, PokeAll, MayWriteAll, SpecAllows;
    SwitchTo(k, pid);
    prepared := k.PrepareWrite(pid, addr, |data|);
    copied := prepared;
    if prepared != Success {
      return;
    }
    ghost var s0, ims := k.m.S(), k.Images();
    ReadyWhen(s0, k.procs[pid].cr3, addr, |data|);
    var replies;
    ghost var trace;
    replies, trace := Run(k, events);
    assert events[..|events|] == events && replies[..|events|] == replies;
    NotActing(trace, ims, events, replies, pid, |events|);
    ReadyStays(trace[0], trace[|events|], pid, addr, |data|);
    SwitchTo(k, pid);
    copied := k.CopyToUser(pid, addr, data);
  }

  lemma ReadyWhen(s: State, d: nat, addr: nat, size: nat)
    requires WellShaped(s) && size > 0 && WritablePages(s, d, PageNumber(addr), PageNumber(addr + size - 1))
    ensures Ready(s, d, addr, size)
  {
  }

  lemma ReadyStays(mem: Memory, mem2: Memory, q: nat, addr: nat, size: nat)
    requires WellShaped(mem.s) && WellShaped(mem2.s) && q in mem.procs && Stays(mem, mem2, q) && Ready(mem.s, mem.procs[q].cr3, addr, size)
    ensures Ready(mem2.s, mem2.procs[q].cr3, addr, size)
  {
    var d := mem.procs[q].cr3;
    assert forall v: nat :: EntryOf(mem2.s, d, v) == EntryOf(mem.s, d, v);
  }

  lemma SpecExtends(ims: map<nat, Image>, events: seq<Event>, replies: seq<Reply>, e: Event, r: Reply)
    requires |replies| == |events| && SpecAllows(ims, events, replies)
    requires Allowed(SpecState(ims, events, replies), e, r)
    ensures SpecState(ims, events + [e], replies + [r]) == Next(SpecState(ims, events, replies), e, r)
    ensures SpecAllows(ims, events + [e], replies + [r])
  {
    hide Allowed, Next;
    var es, rs := events + [e], replies + [r];
    assert es[..|events|] == events && rs[..|events|] == replies;
    forall k | 0 <= k < |es|
      ensures Allowed(SpecState(ims, es[..k], rs[..k]), es[k], rs[k])
    {
      if k < |events| {
        assert es[..k] == events[..k] && rs[..k] == replies[..k];
      }
    }
  }

  lemma SpaceOfProcess(s: State, procs: map<nat, Proc>, pid: nat)
    requires Inv(s) && Running(s, procs) && pid in procs
    ensures procs[pid].cr3 != KERNEL_DIR
  {
    hide Exact, InRange, Exclusive, Tallied, KernelOk, LayoutOk;
    SpaceIsNotKernel(s, procs[pid].cr3);
  }
}
