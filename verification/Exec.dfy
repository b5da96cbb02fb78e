/** SYS_EXEC in kernel/syscall.c from beginning to end: the kernel heap, the argument vectors, the
    file, the new address space and the stack together.  A call that fails is invisible. */
module Exec {
  import VmState
  import VmSpec
  import VmView
  import VmKernel
  import VmScarce
  import FsCodec
  import FsState
  import SimpleFs
  import Vfs
  import Heap
  import Elf
  import ExecStack

  datatype Status = Ok | Enoent | Einval | Enospc | Eio | Enomem | Efault | E2big

  const READ_ONLY: Vfs.Flags := Vfs.Flags(true, false, false, false, false)
  /** sizeof(struct exec_vectors) */
  const VECTORS_SIZE: nat := 3148

  // ---------- reading the file ----------

  /** The open-file table while the executable is being read at descriptor fd. */
  ghost predicate Reading(now: Vfs.View, was: Vfs.View, path: seq<FsCodec.Byte>, fd: nat, done: nat) {
    && fd < |was.table| && was.table[fd].Closed?
    && now == Vfs.View(was.files, was.table[fd := Vfs.OpenFile(1, path, READ_ONLY, done)])
  }

  /** What reading the file comes to: it can be read unless it is missing, empty, too large, or no
      open file is left. */
  ghost function FileStatus(v: Vfs.View, path: seq<FsCodec.Byte>): (r: Status)
    ensures r == Ok ==> SimpleFs.GoodPath(path) && path[1..] in v.files && 0 < |v.files[path[1..]]| <= Elf.MAX_IMAGE
    ensures r in {Ok, Enoent, Einval, Eio}
  {
    if !SimpleFs.GoodPath(path) then Eio
    else if path[1..] !in v.files then Enoent
    else if |v.files[path[1..]]| == 0 || |v.files[path[1..]]| > Elf.MAX_IMAGE then Einval
    else if AllOpen(v) then Eio
    else Ok
  }

  /** The reasons for which an executable cannot be read: the path is bad, the file is missing, it is
      empty or larger than 8 KiB, or 16 files are open already. */
  lemma FileStatusMeans(v: Vfs.View, path: seq<FsCodec.Byte>)
    ensures FileStatus(v, path) == Enoent <==> SimpleFs.GoodPath(path) && path[1..] !in v.files
    ensures FileStatus(v, path) == Einval <==>
      SimpleFs.GoodPath(path) && path[1..] in v.files && !(1 <= |v.files[path[1..]]| <= 8192)
    ensures FileStatus(v, path) == Ok <==>
      SimpleFs.GoodPath(path) && path[1..] in v.files && 1 <= |v.files[path[1..]]| <= 8192 && exists i :: 0 <= i < |v.table| && v.table[i].Closed?
  {
  }

  ghost predicate AllOpen(v: Vfs.View) { forall i :: 0 <= i < |v.table| ==> v.table[i].OpenFile? }

  /** The file has bytes left where the reading stopped short: this does not happen. */
  ghost predicate Stopped(file: seq<FsCodec.Byte>) { exists k: nat :: StoppedAt(file, k) }

  ghost predicate StoppedAt(file: seq<FsCodec.Byte>, k: nat) {
    k < |file| && SimpleFs.Slice(file, k, |file| - k) == []
  }

  lemma NeverStopped(file: seq<FsCodec.Byte>)
    ensures !Stopped(file)
  {
    forall k: nat
      ensures !StoppedAt(file, k)
    {
    }
  }

  lemma SliceMore(file: seq<FsCodec.Byte>, k: nat)
    requires k <= |file|
    ensures var more := SimpleFs.Slice(file, k, |file| - k); k + |more| <= |file| && file[..k] + more == file[..k + |more|]
  {
  }

  /** read_file_into_buffer: the whole file, and the open-file table as it was. */
  method ReadFile(v: Vfs.OpenFiles, path: seq<FsCodec.Byte>) returns (status: Status, data: seq<FsCodec.Byte>)
    requires v.Valid() && 0 !in path && |path| < Vfs.MAX_PATH
    modifies v`table, v.fs`disk, v.fs`used
    ensures v.Valid() && v.Seen() == old(v.Seen())
    ensures status == FileStatus(old(v.Seen()), path)
    ensures status == Ok ==> data == old(v.Seen()).files[path[1..]]
  {
    hide FsState.DiskOk, FsState.SuperOk, FsState.BitmapExact, FsState.Files;
    data := [];
    var st, size := v.Stat(path);
    if st != SimpleFs.Ok {
      return if st == SimpleFs.Enoent then Enoent else Eio, [];
    }
    if size == 0 || size > Elf.MAX_IMAGE {
      return Einval, [];
    }
    ghost var was := v.Seen();
    var fd;
    st, fd := v.Open(path, READ_ONLY);
    if st != SimpleFs.Ok {
      return if st == SimpleFs.Enoent then Enoent else Eio, [];
    }
    assert Reading(v.Seen(), was, path, fd, 0);
    status, data := ReadAll(v, path, fd, size, was);
    NeverStopped(was.files[path[1..]]);
    var closed := v.Close(fd);
    assert v.Seen().table == was.table;
  }

  /** The loop that fills the buffer. */
  method ReadAll(v: Vfs.OpenFiles, ghost path: seq<FsCodec.Byte>, fd: nat, size: nat, ghost was: Vfs.View)
    returns (status: Status, data: seq<FsCodec.Byte>)
    requires v.Valid() && Reading(v.Seen(), was, path, fd, 0) && path != [] && path[1..] in was.files && size == |was.files[path[1..]]|
    modifies v`table
    ensures v.Valid() && exists done :: Reading(v.Seen(), was, path, fd, done)
    ensures status == Ok ==> data == was.files[path[1..]]
    ensures status != Ok ==> Stopped(was.files[path[1..]])
  {
    hide FsState.DiskOk, FsState.SuperOk, FsState.BitmapExact, FsState.Files, SimpleFs.Slice;
    data := [];
    while |data| < size
      invariant v.Valid() && |data| <= size && Reading(v.Seen(), was, path, fd, |data|)
      invariant data == was.files[path[1..]][..|data|]
      decreases size - |data|
    {
      hide FsState.DiskOk, FsState.SuperOk, FsState.BitmapExact, FsState.Files, SimpleFs.Slice;
      SliceMore(was.files[path[1..]], |data|);
      var st, more := v.Read(fd, size - |data|);
      assert Reading(v.Seen(), was, path, fd, |data| + |more|);
      if st != SimpleFs.Ok || |more| == 0 {
        assert StoppedAt(was.files[path[1..]], |data|);
        return Eio, data;
      }
      data := data + more;
    }
    return Ok, data;
  }

  // ---------- the new address space ----------

  /** What a successful exec leaves in the new space: the segments of the file and the stack. */
  ghost predicate NewImage(im: VmSpec.Image, data: seq<VmState.Byte>, stack: VmState.Page, sp: nat,
                           argv: seq<seq<ExecStack.byte>>, envs: seq<seq<ExecStack.byte>>)
  {
    && |data| <= Elf.MAX_IMAGE && Elf.Loadable(data)
    && var segs := Elf.Loads(data, Elf.Count(data));
       && Elf.AllPlaceable(segs, |data|) && ExecStack.StackImage(stack, sp, argv, envs)
       && exists im1 :: Elf.ImageLoaded(VmSpec.EmptyImage(), im1, data, segs, |segs|) && im == VmSpec.Installed(im1, VmSpec.STACK_PAGE, stack, true)
  }

  /** What loading the file comes to, if memory suffices. */
  ghost function ProgramStatus(v: Vfs.View, path: seq<FsCodec.Byte>): (r: Status)
    ensures r == Ok ==> SimpleFs.GoodPath(path) && path[1..] in v.files && |v.files[path[1..]]| <= Elf.MAX_IMAGE && Elf.Loadable(v.files[path[1..]])
  {
    if FileStatus(v, path) != Ok then FileStatus(v, path)
    else if !Elf.Loadable(v.files[path[1..]]) then Einval
    else Ok
  }

  /** The low frames that exec may need: two for the address space, and two for every page of the
      segments and for the stack. */
  ghost function Need(v: Vfs.View, path: seq<FsCodec.Byte>): nat { 2 + FillNeed(v, path) }

  ghost function FillNeed(v: Vfs.View, path: seq<FsCodec.Byte>): nat {
    if ProgramStatus(v, path) != Ok then 0 else FileNeed(v.files[path[1..]])
  }

  ghost function FileNeed(data: seq<VmState.Byte>): nat
    requires |data| <= Elf.MAX_IMAGE && Elf.Loadable(data)
  {
    2 * Elf.PagesNeeded(Elf.Loads(data, Elf.Count(data))) + 2
  }

  lemma EmptyVacant()
    ensures Elf.Vacant(VmSpec.EmptyImage(), 0x40000, 0x90000)
    ensures VmSpec.STACK_PAGE in VmSpec.EmptyImage().grant && VmSpec.EmptyImage().grant[VmSpec.STACK_PAGE] == VmSpec.NoAccess
  {
  }

  /** Everything exec does to the new space: the executable and the stack. */
  method Populate(k: VmKernel.Kernel, v: Vfs.OpenFiles, tmp: nat, path: seq<FsCodec.Byte>,
                  vectors: ExecStack.Vectors, ghost argv: seq<seq<ExecStack.byte>>, ghost envs: seq<seq<ExecStack.byte>>)
    returns (status: Status, entry: nat, sp: nat, ghost data: seq<VmState.Byte>, ghost stack: VmState.Page)
    requires k.Valid() && v.Valid() && 0 !in path && |path| < Vfs.MAX_PATH && tmp in k.procs && k.Images()[tmp] == VmSpec.EmptyImage()
    requires Ready(vectors, argv, envs)
    modifies k.m`bitmap, k.m`refs, k.m`used, k.m`failAfter, k.m`pinned, k.m`tables, k.m`pages, v`table, v.fs`disk, v.fs`used
    ensures v.Valid() && v.Seen() == old(v.Seen()) && Elf.Progress(k, tmp, old(k.Images()), old(k.m.S()))
    ensures status !in {Efault, E2big} && (status in {Ok, Enospc, Enomem} || status == ProgramStatus(old(v.Seen()), path))
    ensures status in {Ok, Enospc, Enomem} ==> ProgramStatus(old(v.Seen()), path) == Ok
    ensures status in {Enospc, Enomem} ==> VmScarce.Short(old(k.m.bitmap), old(k.m.failAfter), FillNeed(old(v.Seen()), path))
    ensures status == Ok ==>
      && data == old(v.Seen()).files[path[1..]]
      && NewImage(k.Images()[tmp], data, stack, sp, argv, envs) && entry == Elf.EntryPoint(data)
  {
    hide VmState.Exact, VmState.InRange, VmState.Exclusive, VmState.Tallied, VmState.KernelOk, VmState.LayoutOk, VmState.Unshared,
         VmView.ImageOf, VmKernel.Running, VmKernel.SpacesOf, VmKernel.Kept, VmSpec.EmptyImage, VmSpec.Installed,
         FsState.DiskOk, FsState.SuperOk, FsState.BitmapExact, FsState.Files, Vfs.ViewOk,
         Elf.Loadable, Elf.HeaderValid, Elf.Vacant, Elf.ImageLoaded, Elf.AllPlaceable, Elf.Apart, Ready, NewImage, ExecStack.StackImage,
         VmScarce.Short, FileNeed;
    entry, sp, stack := 0, 0, VmState.ZeroPage();
    ghost var s0, ims := k.m.S(), k.Images();
    Elf.KeptSelf(s0, k.procs[tmp].cr3);
    var file;
    status, file := ReadFile(v, path);
    data := file;
    if status != Ok {
      return;
    }
    status, entry, sp, stack := Fill(k, tmp, file, vectors, argv, envs);
  }

  /** The kernel's copy of the vectors holds these strings, within the limits. */
  ghost predicate Ready(vectors: ExecStack.Vectors, argv: seq<seq<ExecStack.byte>>, envs: seq<seq<ExecStack.byte>>)
    reads vectors, vectors.data, vectors.argvOffsets, vectors.envOffsets
  {
    && vectors.Valid()
    && vectors.argc == |argv| <= ExecStack.MAX_ARGS && vectors.envc == |envs| <= ExecStack.MAX_ENVS
    && ExecStack.Held(vectors.data[..], vectors.argvOffsets[..], argv, vectors.bytesUsed)
    && ExecStack.Held(vectors.data[..], vectors.envOffsets[..], envs, vectors.bytesUsed)
    && ExecStack.Size(argv) + ExecStack.Size(envs) <= ExecStack.MAX_BYTES
  }

  /** elf_load_from_vfs after the file is read, and the stack page. */
  method Fill(k: VmKernel.Kernel, tmp: nat, file: seq<VmState.Byte>,
              vectors: ExecStack.Vectors, ghost argv: seq<seq<ExecStack.byte>>, ghost envs: seq<seq<ExecStack.byte>>)
    returns (status: Status, entry: nat, sp: nat, ghost stack: VmState.Page)
    requires k.Valid() && tmp in k.procs && k.Images()[tmp] == VmSpec.EmptyImage() && |file| <= Elf.MAX_IMAGE
    requires Ready(vectors, argv, envs)
    modifies k.m`bitmap, k.m`refs, k.m`used, k.m`failAfter, k.m`pinned, k.m`tables, k.m`pages
    ensures Elf.Progress(k, tmp, old(k.Images()), old(k.m.S()))
    ensures status in {Ok, Enospc, Enomem, Einval} && (status == Einval <==> !Elf.Loadable(file))
    ensures status in {Enospc, Enomem} ==> VmScarce.Short(old(k.m.bitmap), old(k.m.failAfter), FileNeed(file))
    ensures status == Ok ==> NewImage(k.Images()[tmp], file, stack, sp, argv, envs) && entry == Elf.EntryPoint(file)
  {
    hide VmState.Exact, VmState.InRange, VmState.Exclusive, VmState.Tallied, VmState.KernelOk, VmState.LayoutOk, VmState.Unshared,
         VmView.ImageOf, VmKernel.Running, VmKernel.SpacesOf, VmKernel.Kept, VmSpec.EmptyImage, VmSpec.Installed,
         Elf.HeaderValid, Elf.Vacant, Elf.ImageLoaded, Elf.Apart, ExecStack.StackImage, Elf.AllPlaceable, Elf.AllValid, Elf.EntryInside,
         VmScarce.Short, VmScarce.AtMost, Elf.PagesNeeded, Ready;
    entry, sp, stack := 0, 0, VmState.ZeroPage();
    Elf.KeptSelf(k.m.S(), k.procs[tmp].cr3);
    var ok, segs, loadStart, loadEnd := Elf.Plan(file);
    if !ok {
      return Einval, 0, 0, stack;
    }
    SegmentsPlaceable(file);
    status, sp, stack := Place(k, tmp, file, segs, vectors, argv, envs);
    entry := Elf.EntryPoint(file);
  }

  /** The segments that the headers describe, and the stack page. */
  method Place(k: VmKernel.Kernel, tmp: nat, file: seq<VmState.Byte>, segs: seq<Elf.Segment>,
               vectors: ExecStack.Vectors, ghost argv: seq<seq<ExecStack.byte>>, ghost envs: seq<seq<ExecStack.byte>>)
    returns (status: Status, sp: nat, ghost stack: VmState.Page)
    requires k.Valid() && tmp in k.procs && k.Images()[tmp] == VmSpec.EmptyImage() && |file| <= Elf.MAX_IMAGE
    requires Ready(vectors, argv, envs) && Elf.AllPlaceable(segs, |file|) && Elf.Apart(segs)
    modifies k.m`bitmap, k.m`refs, k.m`used, k.m`failAfter, k.m`pinned, k.m`tables, k.m`pages
    ensures Elf.Progress(k, tmp, old(k.Images()), old(k.m.S()))
    ensures status in {Ok, Enospc, Enomem}
    ensures status != Ok ==> VmScarce.Short(old(k.m.bitmap), old(k.m.failAfter), 2 * Elf.PagesNeeded(segs) + 2)
    ensures status == Ok ==>
      && ExecStack.StackImage(stack, sp, argv, envs)
      && exists im1 :: Elf.ImageLoaded(VmSpec.EmptyImage(), im1, file, segs, |segs|)
                       && k.Images()[tmp] == VmSpec.Installed(im1, VmSpec.STACK_PAGE, stack, true)
  {
    hide VmState.Exact, VmState.InRange, VmState.Exclusive, VmState.Tallied, VmState.KernelOk, VmState.LayoutOk, VmState.Unshared,
         VmView.ImageOf, VmKernel.Running, VmKernel.SpacesOf, VmKernel.Kept, VmSpec.EmptyImage, VmSpec.Installed,
         Elf.Vacant, Elf.ImageLoaded, Elf.Apart, ExecStack.StackImage, Elf.AllPlaceable,
         VmScarce.Short, VmScarce.AtMost, Elf.PagesNeeded, Ready;
    sp, stack := 0, VmState.ZeroPage();
    ghost var s0, ims := k.m.S(), k.Images();
    Elf.KeptSelf(s0, k.procs[tmp].cr3);
    EmptyVacant();
    ghost var b0, fa0, pages := k.m.bitmap, k.m.failAfter, Elf.PagesNeeded(segs);
    var ok := Elf.LoadImage(k, tmp, file, segs);
    if !ok {
      VmScarce.ShortMore(b0, fa0, 2 * pages, 2 * pages + 2);
      return Enospc, 0, stack;
    }
    ghost var b1, fa1, im1 := k.m.bitmap, k.m.failAfter, k.Images()[tmp];
    StackStaysFree(im1, file, segs);
    status, sp, stack := AddStack(k, tmp, vectors, argv, envs, ims, s0);
    if status == Enomem {
      VmScarce.AtMostShort(b0, fa0, b1, fa1, 2 * pages, 2);
    }
  }

  /** The stack page is not mapped. */
  ghost predicate StackFree(ims: map<nat, VmSpec.Image>, pid: nat) {
    pid in ims && VmSpec.STACK_PAGE in ims[pid].grant && ims[pid].grant[VmSpec.STACK_PAGE] == VmSpec.NoAccess
  }

  /** No segment reaches the stack page. */
  lemma StackStaysFree(im: VmSpec.Image, f: seq<VmState.Byte>, segs: seq<Elf.Segment>)
    requires Elf.AllPlaceable(segs, |f|) && Elf.ImageLoaded(VmSpec.EmptyImage(), im, f, segs, |segs|)
    ensures VmSpec.STACK_PAGE in im.grant && im.grant[VmSpec.STACK_PAGE] == VmSpec.NoAccess
  {
    EmptyVacant();
    hide VmSpec.EmptyImage, Elf.PageLoaded;
    forall n | 0 <= n < |segs|
      ensures !Elf.Covers(segs[n], VmSpec.STACK_PAGE)
    {
      assert Elf.Placeable(segs[n], |f|);
      Elf.PagesOfSegment(segs[n], |f|);
    }
  }

  lemma SegmentsPlaceable(file: seq<VmState.Byte>)
    requires Elf.Loadable(file) && |file| <= Elf.MAX_IMAGE
    ensures Elf.AllPlaceable(Elf.Loads(file, Elf.Count(file)), |file|)
  {
    hide Elf.HeaderValid, Elf.Placeable, Elf.Count, Elf.Loads;
    Elf.LoadsPlaceable(file, Elf.Count(file));
  }

  /** The stack page with the arguments. */
  method AddStack(k: VmKernel.Kernel, tmp: nat, vectors: ExecStack.Vectors,
                  ghost argv: seq<seq<ExecStack.byte>>, ghost envs: seq<seq<ExecStack.byte>>, ghost ims: map<nat, VmSpec.Image>, ghost s0: VmState.State)
    returns (status: Status, sp: nat, ghost stack: VmState.Page)
    requires Elf.Progress(k, tmp, ims, s0) && Ready(vectors, argv, envs) && StackFree(k.Images(), tmp)
    modifies k.m`bitmap, k.m`refs, k.m`used, k.m`failAfter, k.m`pinned, k.m`tables, k.m`pages
    ensures Elf.Progress(k, tmp, ims, s0) && status in {Ok, Enomem}
    ensures status == Enomem ==> VmScarce.Short(old(k.m.bitmap), old(k.m.failAfter), 2)
    ensures status == Ok ==>
      && tmp in k.procs && k.Images()[tmp] == VmSpec.Installed(old(k.Images())[tmp], VmSpec.STACK_PAGE, stack, true)
      && ExecStack.StackImage(stack, sp, argv, envs)
  {
    hide VmState.Exact, VmState.InRange, VmState.Exclusive, VmState.Tallied, VmState.KernelOk, VmState.LayoutOk, VmState.Unshared,
         VmView.ImageOf, VmKernel.Running, VmKernel.SpacesOf, VmKernel.Kept, VmSpec.Installed, ExecStack.StackImage, ExecStack.Held, ExecStack.Size,
         VmScarce.Short, VmScarce.PageShort;
    ghost var s1, ims1 := k.m.S(), k.Images();
    if !VmScarce.Short(s1.bitmap, k.m.failAfter, 2) {
      VmScarce.EnoughForPage(s1, k.procs[tmp].cr3, VmView.DirIndex(VmSpec.STACK_PAGE), k.m.failAfter);
    }
    var page := new ExecStack.byte[ExecStack.PAGE];
    var built;
    built, sp := vectors.BuildUserStack(page, true, argv, envs);
    var bytes: VmState.Page := page[..];
    stack := bytes;
    var ok, mapped := k.InstallPage(tmp, VmSpec.STACK_PAGE, bytes, true);
    if !ok {
      return Enomem, 0, stack;
    }
    VmKernel.KeptTrans(s0, s1, k.m.S(), k.procs[tmp].cr3);
    Elf.OnlyImageTrans(ims, ims1, k.Images(), tmp);
    return Ok, sp, stack;
  }

  // ---------- the old address space ----------

  /** The new space replaces the old one of the process, which is destroyed. */
  method Adopt(k: VmKernel.Kernel, pid: nat, tmp: nat)
    requires k.Valid() && pid in k.procs && tmp in k.procs && pid != tmp
    modifies k`procs, k.m`active, k.m`bitmap, k.m`refs, k.m`used, k.m`tables, k.m`spaces
    ensures k.Valid() && k.procs.Keys == old(k.procs).Keys - {tmp}
    ensures k.Images() == (old(k.Images()) - {tmp})[pid := old(k.Images())[tmp]]
    ensures k.m.active == k.procs[pid].cr3
  {
    hide VmState.Exact, VmState.InRange, VmState.Exclusive, VmState.Tallied, VmState.KernelOk, VmState.LayoutOk, VmState.Unshared,
         VmView.ImageOf, VmView.ProcOk, VmKernel.Kept;
    k.m.active := k.procs[tmp].cr3;
    k.Teardown(pid);
    RenamedImages(k.m.S(), k.procs, pid, tmp);
    k.procs := (k.procs - {tmp})[pid := k.procs[tmp]];
    assert k.Images() == (old(k.Images()) - {tmp})[pid := old(k.Images())[tmp]];
  }

  lemma RenamedImages(s: VmState.State, procs: map<nat, VmView.Proc>, pid: nat, tmp: nat)
    requires VmState.WellShaped(s) && VmKernel.Running(s, procs) && tmp in procs && pid !in procs
    ensures var procs2 := (procs - {tmp})[pid := procs[tmp]];
      && VmKernel.Running(s, procs2) && VmKernel.SpacesOf(procs2) == VmKernel.SpacesOf(procs)
      && VmKernel.ImagesOf(s, procs2) == (VmKernel.ImagesOf(s, procs) - {tmp})[pid := VmKernel.ImagesOf(s, procs)[tmp]]
  {
    hide VmState.WellShaped, VmView.ImageOf, VmView.ProcOk;
    var procs2 := (procs - {tmp})[pid := procs[tmp]];
    forall d | d in VmKernel.SpacesOf(procs)
      ensures d in VmKernel.SpacesOf(procs2)
    {
      var q :| q in procs && procs[q].cr3 == d;
      if q == tmp {
        assert procs2[pid].cr3 == d;
      } else {
        assert procs2[q].cr3 == d;
      }
    }
  }

  /** The new space is given up: nothing is left of it. */
  method Abandon(k: VmKernel.Kernel, tmp: nat, ghost was: map<nat, VmView.Proc>, ghost imsWas: map<nat, VmSpec.Image>,
                 ghost ims: map<nat, VmSpec.Image>, ghost s0: VmState.State, ghost s1: VmState.State)
    requires Elf.Progress(k, tmp, ims, s1) && VmState.Inv(s0) && k.procs[tmp].cr3 != k.m.active
    requires VmKernel.Kept(s0, s1, k.procs[tmp].cr3) && k.procs[tmp].cr3 !in s0.spaces
    requires tmp !in was && k.procs == was[tmp := k.procs[tmp]] && tmp !in imsWas && ims == imsWas[tmp := ims[tmp]]
    modifies k`procs, k.m`bitmap, k.m`refs, k.m`used, k.m`tables, k.m`spaces
    ensures k.Valid() && k.procs == was && k.Images() == imsWas
    ensures k.m.refs == s0.refs && k.m.bitmap == s0.bitmap && k.m.used == s0.used
  {
    hide VmState.Exact, VmState.InRange, VmState.Exclusive, VmState.Tallied, VmState.KernelOk, VmState.LayoutOk, VmState.Unshared,
         VmView.ImageOf, VmKernel.Running, VmKernel.SpacesOf, VmKernel.Kept;
    ghost var s2, d := k.m.S(), k.procs[tmp].cr3;
    NotRoot(k, tmp);
    k.Teardown(tmp);
    VmKernel.KeptTrans(s0, s1, s2, d);
    VmKernel.KeptTrans(s0, s2, k.m.S(), d);
    VmKernel.KeptCounts(s0, k.m.S(), d);
    assert k.procs == was;
    assert k.Images() == imsWas;
  }

  lemma NotRoot(k: VmKernel.Kernel, tmp: nat)
    requires k.Valid() && tmp in k.procs
    ensures k.procs[tmp].cr3 != VmState.KERNEL_DIR && k.procs[tmp].cr3 in k.m.spaces
  {
    hide VmState.Exact, VmState.InRange, VmState.Exclusive, VmState.Tallied, VmState.KernelOk, VmState.LayoutOk, VmState.Unshared;
    VmKernel.SpaceIsNotKernel(k.m.S(), k.procs[tmp].cr3);
  }

  // ---------- the call ----------

  /** syscall_exec but for the memory of the vectors.  `tmp` names the new space until the process
      takes it over. */
  method Replace(k: VmKernel.Kernel, v: Vfs.OpenFiles, u: ExecStack.Memory, pid: nat, tmp: nat,
                 path: seq<FsCodec.Byte>, argvPtr: nat, envPtr: nat)
    returns (status: Status, entry: nat, sp: nat, ghost argv: seq<seq<ExecStack.byte>>, ghost envs: seq<seq<ExecStack.byte>>,
             ghost data: seq<VmState.Byte>, ghost stack: VmState.Page)
    requires k.Valid() && v.Valid() && 0 !in path && |path| < Vfs.MAX_PATH
    requires pid in k.procs && tmp !in k.procs && k.m.active == k.procs[pid].cr3
    modifies k, k.m, v`table, v.fs`disk, v.fs`used
    ensures k.Valid() && v.Valid() && v.Seen() == old(v.Seen()) && k.procs.Keys == old(k.procs).Keys
    ensures status != Ok ==> Untouched(k, old(k.procs), old(k.Images()), old(k.m.S()))
    ensures status in {Efault, E2big} <==> BothRefused(u, argvPtr, envPtr)
    ensures status !in {Efault, E2big, Enomem, Enospc} ==> status == ProgramStatus(old(v.Seen()), path)
    ensures status == Enospc ==> ProgramStatus(old(v.Seen()), path) == Ok
    ensures status in {Enospc, Enomem} ==> VmScarce.Short(old(k.m.bitmap), old(k.m.failAfter), Need(old(v.Seen()), path))
    ensures status == Ok ==>
      && BothAccepted(u, argvPtr, envPtr, argv, envs)
      && Replaced(old(k.Images()), k.Images(), old(v.Seen()).files, pid, path, data, stack, entry, sp, argv, envs)
  {
    hide VmState.Exact, VmState.InRange, VmState.Exclusive, VmState.Tallied, VmState.KernelOk, VmState.LayoutOk, VmState.Unshared,
         VmView.ImageOf, VmKernel.Running, VmKernel.SpacesOf, VmKernel.Kept, VmSpec.EmptyImage,
         FsState.DiskOk, FsState.SuperOk, FsState.BitmapExact, FsState.Files, Vfs.ViewOk,
         ExecStack.Held, ExecStack.Size, ExecStack.Vector, ExecStack.Short, ExecStack.Refused, NewImage, Ready, Elf.HeaderValid;
    entry, sp, argv, envs, data, stack := 0, 0, [], [], [], VmState.ZeroPage();
    var vectors := new ExecStack.Vectors();
    status, argv, envs := CopyVectors(vectors, u, argvPtr, envPtr);
    if status != Ok {
      return;
    }
    status, entry, sp, data, stack := NewSpace(k, v, pid, tmp, path, vectors, argv, envs);
  }

  /** The two vectors of the caller, within the limits that they share. */
  ghost predicate BothAccepted(u: ExecStack.Memory, argvPtr: nat, envPtr: nat,
                               argv: seq<seq<ExecStack.byte>>, envs: seq<seq<ExecStack.byte>>)
  {
    && ExecStack.Accepted(u, argvPtr, argv, ExecStack.MAX_ARGS, ExecStack.MAX_BYTES)
    && ExecStack.Size(argv) <= ExecStack.MAX_BYTES
    && ExecStack.Accepted(u, envPtr, envs, ExecStack.MAX_ENVS, ExecStack.MAX_BYTES - ExecStack.Size(argv))
  }

  ghost predicate BothRefused(u: ExecStack.Memory, argvPtr: nat, envPtr: nat) {
    forall argv, envs :: !BothAccepted(u, argvPtr, envPtr, argv, envs)
  }

  lemma ArgvRefused(u: ExecStack.Memory, argvPtr: nat, envPtr: nat)
    requires ExecStack.Refused(u, argvPtr, ExecStack.MAX_ARGS, ExecStack.MAX_BYTES)
    ensures BothRefused(u, argvPtr, envPtr)
  {
    hide ExecStack.Accepted;
  }

  lemma EnvsRefused(u: ExecStack.Memory, argvPtr: nat, envPtr: nat, argv: seq<seq<ExecStack.byte>>)
    requires ExecStack.Accepted(u, argvPtr, argv, ExecStack.MAX_ARGS, ExecStack.MAX_BYTES) && ExecStack.Size(argv) <= ExecStack.MAX_BYTES
    requires ExecStack.Refused(u, envPtr, ExecStack.MAX_ENVS, ExecStack.MAX_BYTES - ExecStack.Size(argv))
    ensures BothRefused(u, argvPtr, envPtr)
  {
    hide ExecStack.Vector, ExecStack.Fits;
    forall a, e | BothAccepted(u, argvPtr, envPtr, a, e)
      ensures false
    {
      ExecStack.VectorUnique(u, argvPtr, a, argv);
    }
  }

  /** The process has the memory that the file and the vectors describe, and no other changed. */
  ghost predicate Replaced(ims: map<nat, VmSpec.Image>, ims2: map<nat, VmSpec.Image>, files: map<FsState.Name, seq<FsCodec.Byte>>, pid: nat,
                           path: seq<FsCodec.Byte>, data: seq<VmState.Byte>, stack: VmState.Page, entry: nat, sp: nat,
                           argv: seq<seq<ExecStack.byte>>, envs: seq<seq<ExecStack.byte>>)
  {
    && SimpleFs.GoodPath(path) && path[1..] in files && data == files[path[1..]]
    && pid in ims2 && ims2 == ims[pid := ims2[pid]]
    && NewImage(ims2[pid], data, stack, sp, argv, envs) && entry == Elf.EntryPoint(data)
  }

  /** Every process, every image and every frame is as it was. */
  ghost predicate Untouched(k: VmKernel.Kernel, procs: map<nat, VmView.Proc>, ims: map<nat, VmSpec.Image>, s0: VmState.State)
    reads k, k.m
  {
    && k.Valid() && k.procs == procs && k.Images() == ims
    && k.m.refs == s0.refs && k.m.bitmap == s0.bitmap && k.m.used == s0.used
  }

  method CopyVectors(vectors: ExecStack.Vectors, u: ExecStack.Memory, argvPtr: nat, envPtr: nat)
    returns (status: Status, ghost argv: seq<seq<ExecStack.byte>>, ghost envs: seq<seq<ExecStack.byte>>)
    requires vectors.Valid() && vectors.argc == vectors.envc == vectors.bytesUsed == 0
    modifies vectors, vectors.data, vectors.argvOffsets, vectors.envOffsets
    ensures status in {Ok, Efault, E2big} && (status != Ok <==> BothRefused(u, argvPtr, envPtr))
    ensures status == Ok ==>
      Ready(vectors, argv, envs) && BothAccepted(u, argvPtr, envPtr, argv, envs)
  {
    hide ExecStack.Held, ExecStack.Size, ExecStack.Vector, ExecStack.Short, ExecStack.Refused;
    argv, envs := [], [];
    var st;
    st, argv := vectors.CopyVector(u, argvPtr, false);
    if st != ExecStack.Success {
      ArgvRefused(u, argvPtr, envPtr);
      return if st == ExecStack.Fault then Efault else E2big, argv, envs;
    }
    ghost var d, used := vectors.data[..], vectors.bytesUsed;
    st, envs := vectors.CopyVector(u, envPtr, true);
    if st != ExecStack.Success {
      EnvsRefused(u, argvPtr, envPtr, argv);
      return if st == ExecStack.Fault then Efault else E2big, argv, envs;
    }
    ExecStack.HeldKept(d, vectors.data[..], vectors.argvOffsets[..], vectors.argvOffsets[..], argv, used, vectors.bytesUsed);
    assert BothAccepted(u, argvPtr, envPtr, argv, envs);
    status := Ok;
  }

  method NewSpace(k: VmKernel.Kernel, v: Vfs.OpenFiles, pid: nat, tmp: nat, path: seq<FsCodec.Byte>,
                  vectors: ExecStack.Vectors, ghost argv: seq<seq<ExecStack.byte>>, ghost envs: seq<seq<ExecStack.byte>>)
    returns (status: Status, entry: nat, sp: nat, ghost data: seq<VmState.Byte>, ghost stack: VmState.Page)
    requires k.Valid() && v.Valid() && 0 !in path && |path| < Vfs.MAX_PATH
    requires pid in k.procs && tmp !in k.procs && k.m.active == k.procs[pid].cr3
    requires Ready(vectors, argv, envs)
    modifies k, k.m, v`table, v.fs`disk, v.fs`used
    ensures k.Valid() && v.Valid() && v.Seen() == old(v.Seen()) && k.procs.Keys == old(k.procs).Keys
    ensures status != Ok ==> Untouched(k, old(k.procs), old(k.Images()), old(k.m.S()))
    ensures status !in {Efault, E2big} && (status in {Enomem, Enospc} || status == ProgramStatus(old(v.Seen()), path))
    ensures status == Enospc ==> ProgramStatus(old(v.Seen()), path) == Ok
    ensures status in {Enospc, Enomem} ==> VmScarce.Short(old(k.m.bitmap), old(k.m.failAfter), Need(old(v.Seen()), path))
    ensures status == Ok ==>
      Replaced(old(k.Images()), k.Images(), old(v.Seen()).files, pid, path, data, stack, entry, sp, argv, envs)
  {
    hide VmState.Exact, VmState.InRange, VmState.Exclusive, VmState.Tallied, VmState.KernelOk, VmState.LayoutOk, VmState.Unshared,
         VmView.ImageOf, VmKernel.Running, VmKernel.SpacesOf, VmKernel.Kept, VmSpec.EmptyImage,
         FsState.DiskOk, FsState.SuperOk, FsState.BitmapExact, FsState.Files, Vfs.ViewOk, NewImage, Ready, Elf.HeaderValid, VmKernel.Aside, ProgramStatus, Replaced,
         VmScarce.Short, VmScarce.AtMost, FillNeed;
    entry, sp, data, stack := 0, 0, [], VmState.ZeroPage();
    ghost var s0, ims0, procs0 := k.m.S(), k.Images(), k.procs;
    NotRoot(k, pid);
    ghost var b0, fa0 := k.m.bitmap, k.m.failAfter;
    var ok := k.Spawn(tmp);
    if !ok {
      VmScarce.ShortMore(b0, fa0, 2, Need(v.Seen(), path));
      return Enomem, 0, 0, data, stack;
    }
    ghost var b1, fa1 := k.m.bitmap, k.m.failAfter;
    NewRoot(s0, procs0, pid, k.procs[tmp].cr3);
    status, entry, sp, data, stack := FillOrAbandon(k, v, pid, tmp, path, vectors, argv, envs, procs0, ims0, s0);
    if status == Enospc || status == Enomem {
      VmScarce.AtMostShort(b0, fa0, b1, fa1, 2, FillNeed(v.Seen(), path));
    }
  }

  lemma NewRoot(s: VmState.State, procs: map<nat, VmView.Proc>, pid: nat, d: nat)
    requires VmState.Inv(s) && VmKernel.Running(s, procs) && pid in procs && d !in s.spaces
    ensures procs[pid].cr3 != d
  {
  }

  /** The new space is filled and taken over, or given up. */
  method FillOrAbandon(k: VmKernel.Kernel, v: Vfs.OpenFiles, pid: nat, tmp: nat, path: seq<FsCodec.Byte>,
                       vectors: ExecStack.Vectors, ghost argv: seq<seq<ExecStack.byte>>, ghost envs: seq<seq<ExecStack.byte>>,
                       ghost procs0: map<nat, VmView.Proc>, ghost ims0: map<nat, VmSpec.Image>, ghost s0: VmState.State)
    returns (status: Status, entry: nat, sp: nat, ghost data: seq<VmState.Byte>, ghost stack: VmState.Page)
    requires k.Valid() && v.Valid() && 0 !in path && |path| < Vfs.MAX_PATH && Ready(vectors, argv, envs)
    requires pid in procs0 && tmp !in procs0 && tmp in k.procs && k.procs == procs0[tmp := k.procs[tmp]]
    requires ims0.Keys == procs0.Keys && k.Images() == ims0[tmp := VmSpec.EmptyImage()]
    requires VmState.Inv(s0) && VmKernel.Kept(s0, k.m.S(), k.procs[tmp].cr3) && k.procs[tmp].cr3 !in s0.spaces
    requires k.procs[tmp].cr3 != k.m.active
    modifies k, k.m, v`table, v.fs`disk, v.fs`used
    ensures k.Valid() && v.Valid() && v.Seen() == old(v.Seen()) && k.procs.Keys == procs0.Keys
    ensures status != Ok ==> Untouched(k, procs0, ims0, s0)
    ensures status !in {Efault, E2big} && (status in {Enomem, Enospc} || status == ProgramStatus(old(v.Seen()), path))
    ensures status == Enospc ==> ProgramStatus(old(v.Seen()), path) == Ok
    ensures status in {Enospc, Enomem} ==> VmScarce.Short(old(k.m.bitmap), old(k.m.failAfter), FillNeed(old(v.Seen()), path))
    ensures status == Ok ==> Replaced(ims0, k.Images(), old(v.Seen()).files, pid, path, data, stack, entry, sp, argv, envs)
  {
    hide VmState.Exact, VmState.InRange, VmState.Exclusive, VmState.Tallied, VmState.KernelOk, VmState.LayoutOk, VmState.Unshared,
         VmView.ImageOf, VmKernel.Running, VmKernel.SpacesOf, VmKernel.Kept, VmSpec.EmptyImage,
         FsState.DiskOk, FsState.SuperOk, FsState.BitmapExact, FsState.Files, Vfs.ViewOk, NewImage, Ready, Elf.HeaderValid,
         ProgramStatus, Replaced, Elf.OnlyImage, Elf.EntryPoint, VmScarce.Short, FillNeed;
    ghost var s1, ims1 := k.m.S(), k.Images();
    status, entry, sp, data, stack := Populate(k, v, tmp, path, vectors, argv, envs);
    ghost var ims2 := k.Images();
    Settle(k, pid, tmp, status == Ok, procs0, ims0, ims1, s0, s1);
    if status == Ok {
      Adopted(ims0, ims2[tmp], k.Images(), pid, old(v.Seen()), path, data, stack, entry, sp, argv, envs);
    }
  }

  /** A space that was filled is taken over; another is given up. */
  method Settle(k: VmKernel.Kernel, pid: nat, tmp: nat, filled: bool, ghost procs0: map<nat, VmView.Proc>, ghost ims0: map<nat, VmSpec.Image>,
                ghost ims1: map<nat, VmSpec.Image>, ghost s0: VmState.State, ghost s1: VmState.State)
    requires Elf.Progress(k, tmp, ims1, s1) && VmState.Inv(s0) && k.procs[tmp].cr3 != k.m.active
    requires VmKernel.Kept(s0, s1, k.procs[tmp].cr3) && k.procs[tmp].cr3 !in s0.spaces
    requires pid in procs0 && tmp !in procs0 && k.procs == procs0[tmp := k.procs[tmp]]
    requires ims0.Keys == procs0.Keys && tmp in ims1 && ims1 == ims0[tmp := ims1[tmp]]
    modifies k`procs, k.m`active, k.m`bitmap, k.m`refs, k.m`used, k.m`tables, k.m`spaces
    ensures k.Valid() && k.procs.Keys == procs0.Keys
    ensures !filled ==> Untouched(k, procs0, ims0, s0)
    ensures filled ==> k.Images() == ims0[pid := old(k.Images())[tmp]]
  {
    hide VmState.Exact, VmState.InRange, VmState.Exclusive, VmState.Tallied, VmState.KernelOk, VmState.LayoutOk, VmState.Unshared,
         VmView.ImageOf, VmKernel.Running, VmKernel.SpacesOf, VmKernel.Kept;
    ghost var ims2 := k.Images();
    if filled {
      Adopt(k, pid, tmp);
      AdoptedImages(ims0, ims1, ims2, k.Images(), pid, tmp);
    } else {
      Abandon(k, tmp, procs0, ims0, ims1, s0, s1);
    }
  }

  lemma Adopted(ims0: map<nat, VmSpec.Image>, im: VmSpec.Image, ims3: map<nat, VmSpec.Image>, pid: nat,
                v: Vfs.View, path: seq<FsCodec.Byte>, data: seq<VmState.Byte>, stack: VmState.Page, entry: nat, sp: nat,
                argv: seq<seq<ExecStack.byte>>, envs: seq<seq<ExecStack.byte>>)
    requires pid in ims0 && ims3 == ims0[pid := im]
    requires ProgramStatus(v, path) == Ok && data == v.files[path[1..]]
    requires NewImage(im, data, stack, sp, argv, envs) && entry == Elf.EntryPoint(data)
    ensures Replaced(ims0, ims3, v.files, pid, path, data, stack, entry, sp, argv, envs)
  {
    hide NewImage, Elf.EntryPoint;
  }

  lemma AdoptedImages(ims0: map<nat, VmSpec.Image>, ims1: map<nat, VmSpec.Image>, ims2: map<nat, VmSpec.Image>, ims3: map<nat, VmSpec.Image>, pid: nat, tmp: nat)
    requires pid in ims0 && tmp !in ims0 && pid != tmp && tmp in ims1 && ims1 == ims0[tmp := ims1[tmp]]
    requires Elf.OnlyImage(ims1, ims2, tmp) && ims3 == (ims2 - {tmp})[pid := ims2[tmp]]
    ensures ims3 == ims0[pid := ims2[tmp]]
  {
  }

  /** The bytes of the caller that copy_from_user gives. */
  ghost function CallerBytes(s: VmState.State, p: VmView.Proc): ExecStack.Memory
    requires VmState.WellShaped(s)
  {
    map a | a in VmKernel.Mapped(s, p) :: VmKernel.Mapped(s, p)[a]
  }

  /** copy_string_from_user for the path: refused exactly if no string of less than 64 bytes lies there. */
  method CopyPath(u: ExecStack.Memory, ptr: nat) returns (ok: bool, path: seq<FsCodec.Byte>)
    ensures ok ==> ExecStack.StringAt(u, ptr, path) && |path| < Vfs.MAX_PATH && 0 !in path
    ensures !ok ==> NoPath(u, ptr)
  {
    path := [];
    while |path| < Vfs.MAX_PATH
      invariant |path| <= Vfs.MAX_PATH && ExecStack.Before(u, ptr, path)
    {
      var a := ExecStack.Plus(ptr, |path|);
      if a !in u {
        return false, [];
      }
      if u[a] == 0 {
        return true, path;
      }
      path := path + [u[a]];
    }
    return false, [];
  }

  ghost predicate NoPath(u: ExecStack.Memory, ptr: nat) {
    forall s :: ExecStack.StringAt(u, ptr, s) ==> |s| >= Vfs.MAX_PATH
  }

  /** SYS_EXEC; `u` are the bytes that the kernel can read of the caller.  If it fails, whatever the
      reason and wherever it happens, every process with its memory, every frame count, the blocks
      of the kernel heap and the open files are as they were; if it succeeds, the process has the
      memory that the file and the vectors describe, nobody else's has changed, and heap and open
      files are as they were, too.  Unless memory runs out, it fails exactly if the path or a vector
      cannot be read within the limits, the file cannot be read, or it is not loadable.  Memory runs
      out only if the heap has no block for the vectors or there are fewer low frames than the
      address space, the pages of the plan and the stack may need. */
  method SysExec(k: VmKernel.Kernel, h: Heap.KernelHeap, v: Vfs.OpenFiles, u: ExecStack.Memory, pid: nat, tmp: nat,
                 pathPtr: nat, argvPtr: nat, envPtr: nat)
    returns (status: Status, entry: nat, sp: nat, path: seq<FsCodec.Byte>, ghost argv: seq<seq<ExecStack.byte>>, ghost envs: seq<seq<ExecStack.byte>>,
             ghost data: seq<VmState.Byte>, ghost stack: VmState.Page)
    requires k.Valid() && h.Valid() && v.Valid() && pid in k.procs && tmp !in k.procs && k.m.active == k.procs[pid].cr3
    requires u == CallerBytes(k.m.S(), k.procs[pid])
    modifies k, k.m, h, v`table, v.fs`disk, v.fs`used
    ensures k.Valid() && h.Valid() && v.Valid()
    ensures h.blocks == old(h.blocks) && v.Seen() == old(v.Seen()) && k.procs.Keys == old(k.procs).Keys
    ensures status != Ok ==> Untouched(k, old(k.procs), old(k.Images()), old(k.m.S()))
    ensures status == Efault || status == E2big ==> NoPath(u, pathPtr) || BothRefused(u, argvPtr, envPtr)
    ensures NoPath(u, pathPtr) ==> status == Efault
    ensures !NoPath(u, pathPtr) ==> ExecStack.StringAt(u, pathPtr, path)
    ensures BothRefused(u, argvPtr, envPtr) ==> status in {Efault, E2big, Enomem}
    ensures status !in {Efault, E2big, Enomem, Enospc} ==> status == ProgramStatus(old(v.Seen()), path)
    ensures status in {Enomem, Enospc} ==>
      || Heap.NoFit(old(h.blocks), Heap.AlignUp(VECTORS_SIZE))
      || VmScarce.Short(old(k.m.bitmap), old(k.m.failAfter), Need(old(v.Seen()), path))
    ensures status == Ok ==>
      && BothAccepted(u, argvPtr, envPtr, argv, envs)
      && Replaced(old(k.Images()), k.Images(), old(v.Seen()).files, pid, path, data, stack, entry, sp, argv, envs)
  {
    hide VmState.Exact, VmState.InRange, VmState.Exclusive, VmState.Tallied, VmState.KernelOk, VmState.LayoutOk, VmState.Unshared,
         VmView.ImageOf, VmKernel.Running, VmKernel.SpacesOf, CallerBytes, BothRefused, ProgramStatus, ExecStack.StringAt, VmScarce.Short, Need, Heap.NoFit,
         FsState.DiskOk, FsState.SuperOk, FsState.BitmapExact, FsState.Files, Vfs.ViewOk, BothAccepted, Replaced,
         Heap.Links, Heap.Live, Heap.Bytes, Heap.Chain, Heap.Apart, Heap.Split, Heap.AlignUp;
    entry, sp, argv, envs, data, stack := 0, 0, [], [], [], VmState.ZeroPage();
    var readable;
    readable, path := CopyPath(u, pathPtr);
    if !readable {
      return Efault, 0, 0, path, argv, envs, data, stack;
    }
    var ptr;
    ghost var b;
    ptr, b := h.Kmalloc(VECTORS_SIZE);
    if ptr == 0 {
      return Enomem, 0, 0, path, argv, envs, data, stack;
    }
    ghost var taken := h.blocks;
    status, entry, sp, argv, envs, data, stack := Replace(k, v, u, pid, tmp, path, argvPtr, envPtr);
    h.Kfree(ptr, b);
    Heap.FreeUndoesMalloc(old(h.blocks), taken, h.blocks, taken[b]);
  }

  /** What exec reads of the caller's memory is what the caller sees there. */
  lemma CallerSees(s: VmState.State, p: VmView.Proc, a: nat)
    requires VmState.Inv(s) && VmView.ProcOk(s, p) && a in CallerBytes(s, p)
    ensures a in Readable(VmView.ImageOf(s, p)) && Readable(VmView.ImageOf(s, p))[a] == CallerBytes(s, p)[a]
  {
    hide VmState.Exact, VmState.InRange, VmState.Exclusive, VmState.Tallied, VmState.KernelOk, VmState.LayoutOk, VmView.ImageOf, VmView.EntryOf;
    VmKernel.MappedByte(s, p, a);
    VmKernel.MappedShown(s, p, a);
  }

  // ---------- what the new program finds ----------

  /** The bytes a process can read. */
  ghost function Readable(im: VmSpec.Image): ExecStack.Memory {
    map a: nat | a < 0x1_0000_0000 && VmSpec.MayRead(im, a) :: VmSpec.Peek(im, a)
  }

  /** After a successful exec the program finds each byte of its segments, with their protection. */
  lemma ProgramThere(im: VmSpec.Image, data: seq<VmState.Byte>, stack: VmState.Page, sp: nat,
                     argv: seq<seq<ExecStack.byte>>, envs: seq<seq<ExecStack.byte>>, n: nat, a: nat)
    requires NewImage(im, data, stack, sp, argv, envs) && n < |Elf.Loads(data, Elf.Count(data))|
    requires var s := Elf.Loads(data, Elf.Count(data))[n]; s.vaddr <= a < s.vaddr + s.memsz
    ensures var s := Elf.Loads(data, Elf.Count(data))[n];
      && s.offset + s.filesz <= |data| && VmSpec.MayRead(im, a)
      && VmSpec.Peek(im, a) == (if a < s.vaddr + s.filesz then data[s.offset + a - s.vaddr] else 0)
      && (VmSpec.MayWrite(im, a) <==> s.flags / 2 % 2 == 1)
  {
    hide Elf.HeaderValid, Elf.Count, Elf.Loads, Elf.ImageLoaded, ExecStack.StackImage, VmSpec.EmptyImage;
    var segs := Elf.Loads(data, Elf.Count(data));
    var im1 :| Elf.ImageLoaded(VmSpec.EmptyImage(), im1, data, segs, |segs|) && im == VmSpec.Installed(im1, VmSpec.STACK_PAGE, stack, true);
    assert Elf.Placeable(segs[n], |data|);
    Elf.ImageRight(VmSpec.EmptyImage(), im1, data, segs, n, a);
    assert VmSpec.PageNumber(a) < VmSpec.STACK_PAGE;
  }

  /** After a successful exec the stack pointer leads to the strings that the caller passed. */
  lemma ArgumentsThere(im: VmSpec.Image, data: seq<VmState.Byte>, stack: VmState.Page, sp: nat,
                       argv: seq<seq<ExecStack.byte>>, envs: seq<seq<ExecStack.byte>>)
    requires NewImage(im, data, stack, sp, argv, envs)
    ensures ExecStack.WordReadable(Readable(im), sp) && ExecStack.WordAt(Readable(im), sp) == |argv|
    ensures ExecStack.Vector(Readable(im), sp + 4, argv) && ExecStack.Vector(Readable(im), sp + 4 * (|argv| + 2), envs)
  {
    hide Elf.HeaderValid, Elf.Count, Elf.Loads, Elf.ImageLoaded, ExecStack.StackImage, Elf.Loadable, ExecStack.Vector, VmSpec.EmptyImage,
         ExecStack.WordReadable, ExecStack.WordAt;
    StackShown(im, stack);
    ExecStack.StackDecodes(Readable(im), stack, sp, argv, envs);
  }

  lemma StackShown(im: VmSpec.Image, stack: VmState.Page)
    requires exists im1 :: im == VmSpec.Installed(im1, VmSpec.STACK_PAGE, stack, true)
    ensures ExecStack.Shows(Readable(im), stack)
  {
    forall a: nat | ExecStack.STACK_BASE <= a < ExecStack.STACK_TOP
      ensures a in Readable(im) && Readable(im)[a] == stack[a - ExecStack.STACK_BASE]
    {
      assert VmSpec.PageNumber(a) == VmSpec.STACK_PAGE && VmSpec.PageOffset(a) == a - ExecStack.STACK_BASE;
    }
  }
}
