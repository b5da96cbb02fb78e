/** kernel/process.c with its callers in kernel/syscall.c, kernel/pipe.c and kernel/vfs.c: the
    process table, its descriptors, and what blocks and wakes processes. */
module Processes {
  import opened Lifecycle
  import opened Descriptors
  import opened Pipes
  import opened ProcessFacts
  import opened ProcessRuns

  class ProcessTable {
    var procs: seq<Proc>
    var nextPid: nat
    /** The scheduler's current process. */
    var cur: int
    var fds: seq<FdTable>
    var pipes: seq<Value>
    /** Reference counts of the open-file table. */
    var files: seq<nat>
    ghost var hist: History
    /** The ends of pipes at which a process blocked while another was blocked there. */
    ghost var crowded: set<End>
    /** The bytes that went through the pipes, and when these were made. */
    ghost var moves: seq<Move>

    ghost predicate Inv(spare: multiset<nat>)
      reads this
    {
      && |procs| == |fds| == MAX_PROCESSES && |pipes| == MAX_PIPES && |files| == MAX_FILES
      && Base(procs, cur, nextPid, hist, fds) && Accounted(fds, pipes, files, spare)
      && Orderly(procs, fds, pipes, crowded) && FlowOk(pipes, moves)
    }

    ghost predicate Valid()
      reads this
    {
      Inv(multiset{})
    }

    /** process_init, pipe_init and the first process, which is not the child of another. */
    constructor (first: Frame)
      requires first != NoFrame
      ensures Valid() && Clean(procs) && procs[0].state == Running && crowded == {} && moves == [] && AtRest(procs)
    {
      procs := seq(MAX_PROCESSES, i => if i == 0 then Blank.(pid := 1, state := Running, frame := first) else Blank);
      nextPid, cur := 2, 0;
      fds := seq(MAX_PROCESSES, _ => seq(MAX_FDS, _ => NoFd));
      pipes := seq(MAX_PIPES, _ => Unused);
      files := seq(MAX_FILES, _ => 0);
      hist := History(map[1 := 0], map[], map[], [], {}, {}, {});
      crowded, moves := {}, [];
      new;
      hide Base, Orderly, Accounted, Clean, AtRest;
      EmptyTable(fds, pipes, files);
      FirstAlone(procs, fds, pipes, first);
    }

    /** process_wake_pipe_waiter */
    method WakePipeWaiter(i: nat, reason: Reason)
      requires |procs| == |fds| && PipeReason(reason)
      modifies this`procs
      ensures |procs| == |old(procs)| && Awake(old(procs), procs)
      ensures AtMostOne(old(procs), fds, End(i, reason)) ==> NoWaiter(procs, fds, i, reason)
      ensures NoWaiter(old(procs), fds, i, reason) ==> procs == old(procs)
    {
      hide OnPipe;
      for p := 0 to |procs|
        invariant procs == old(procs)
        invariant forall q :: 0 <= q < p ==> !Waits(procs[q], fds[q], i, reason)
      {
        if Waits(procs[p], fds[p], i, reason) {
          procs := procs[p := procs[p].(state := Ready)];
          return;
        }
      }
    }

    /** pipe_handle_index: the handle names a pipe in use. */
    predicate PipeInUse(h: nat)
      reads this
    {
      h >= HANDLE_BASE && PipeOf(h) < |pipes| && pipes[PipeOf(h)].used
    }

    /** pipe_close */
    method PipeClose(h: nat, ghost spare: multiset<nat>) returns (ok: bool)
      requires Inv(spare)
      modifies this`procs, this`pipes
      ensures ok <==> old(PipeInUse(h)) && IsHandle(h) && CountOf(old(pipes), files, h) > 0
      ensures !ok ==> procs == old(procs) && pipes == old(pipes)
      ensures ok ==> Awake(old(procs), procs) && pipes == old(pipes)[PipeOf(h) := AfterClose(old(pipes)[PipeOf(h)], IsReadEnd(h))]
      ensures ok && h in spare ==> Inv(spare - multiset{h})
      ensures ok && CountOf(old(pipes), files, h) > 1 ==> procs == old(procs)
      ensures ok && NoWaiter(old(procs), fds, PipeOf(h), if IsReadEnd(h) then PipeWriteWait else PipeReadWait) ==> procs == old(procs)
    {
      hide Sound, Purposeful, OneRunning, Emptied, Orderly, AtMostOne, FdsOk, ValueOk, AfterClose, Awake, PipeOf, IsReadEnd;
      if !PipeInUse(h) {
        return false;
      }
      var i, reading := PipeOf(h), IsReadEnd(h);
      assert IsHandle(h);
      var count := if reading then pipes[i].readers else pipes[i].writers;
      if count == 0 {
        return false;
      }
      ok := true;
      AwakeSelf(procs);
      if count == 1 {
        WakePipeWaiter(i, if reading then PipeWriteWait else PipeReadWait);
      }
      DrainedClose(pipes, i, reading);
      FlowDrained(pipes, pipes[i := AfterClose(pipes[i], reading)], moves);
      pipes := pipes[i := AfterClose(pipes[i], reading)];
      CloseKeeps(old(procs), procs, nextPid, hist, cur, fds, old(pipes), files, crowded, h, spare);
    }

    /** pipe_retain */
    method PipeRetain(h: nat, ghost spare: multiset<nat>) returns (ok: bool)
      requires Inv(spare)
      modifies this`pipes
      ensures ok <==> old(PipeInUse(h)) && IsHandle(h) && CountOf(old(pipes), files, h) != COUNT_MAX
      ensures !ok ==> pipes == old(pipes)
      ensures ok ==> Inv(spare + multiset{h}) && Drained(old(pipes), pipes)
    {
      hide Sound, Purposeful, OneRunning, Emptied, Orderly, FdsOk, PipeOf, IsReadEnd;
      if !PipeInUse(h) {
        return false;
      }
      var i, reading := PipeOf(h), IsReadEnd(h);
      assert IsHandle(h);
      if (if reading then pipes[i].readers else pipes[i].writers) == COUNT_MAX {
        return false;
      }
      ok := true;
      pipes := pipes[i := AfterRetain(pipes[i], reading)];
      FlowDrained(old(pipes), pipes, moves);
      EndMoved(old(pipes), files, h, pipes[i], 1);
      CountRaised(fds, old(pipes), files, spare, pipes, files, h);
      RetainOrderly(procs, fds, old(pipes), i, reading, crowded);
    }

    /** vfs_retain */
    method VfsRetain(h: nat, ghost spare: multiset<nat>) returns (ok: bool)
      requires Inv(spare)
      modifies this`files
      ensures ok <==> h < MAX_FILES && old(files)[h] > 0 && old(files)[h] != COUNT_MAX
      ensures !ok ==> files == old(files)
      ensures ok ==> Inv(spare + multiset{h})
    {
      hide Sound, Purposeful, OneRunning, Emptied, Orderly, FdsOk, PipeOf, IsReadEnd;
      if h >= MAX_FILES || files[h] == 0 || files[h] == COUNT_MAX {
        return false;
      }
      ok := true;
      files := files[h := files[h] + 1];
      CountRaised(fds, pipes, old(files), spare, pipes, files, h);
    }

    /** vfs_close */
    method VfsClose(h: nat, ghost spare: multiset<nat>) returns (ok: bool)
      requires Inv(spare)
      modifies this`files
      ensures ok <==> h < MAX_FILES && old(files)[h] > 0
      ensures files == if ok then old(files)[h := old(files)[h] - 1] else old(files)
      ensures ok && h in spare ==> Inv(spare - multiset{h})
    {
      hide Sound, Purposeful, OneRunning, Emptied, Orderly, FdsOk, PipeOf, IsReadEnd;
      if h >= MAX_FILES || files[h] == 0 {
        return false;
      }
      ok := true;
      files := files[h := if files[h] > 1 then files[h] - 1 else 0];
      if h in spare {
        CountLowered(fds, pipes, old(files), spare, pipes, files, h);
      }
    }

    /** process_fd_install_typed, for a handle that the kernel holds. */
    method FdInstall(p: nat, fd: Fd, ghost spare: multiset<nat>) returns (f: int)
      requires Inv(spare) && p < |procs| && Active(procs[p]) && procs[p].state != Blocked
      requires fd.Open? && FdOk(fd) && fd.handle in spare
      modifies this`fds
      ensures f < MAX_FDS
      ensures f < 0 ==> fds == old(fds) && forall g :: 0 <= g < MAX_FDS ==> fds[p][g].Open?
      ensures f >= 0 ==> old(fds)[p][f].NoFd? && fds == SetFd(old(fds), p, f, fd) && Inv(spare - multiset{fd.handle})
      ensures forall g :: 0 <= g < f ==> old(fds)[p][g].Open?
    {
      hide Sound, Purposeful, OneRunning, Orderly, Exact, PipeOf, IsReadEnd, PipesOk;
      for g := 0 to MAX_FDS
        invariant fds == old(fds) && forall k :: 0 <= k < g ==> fds[p][k].Open?
      {
        if fds[p][g].NoFd? {
          FdFilled(fds, pipes, files, spare, p, g, fd);
          fds := fds[p := fds[p][g := fd]];
          FdsKeep(procs, old(fds), fds, pipes, p, crowded);
          return g;
        }
      }
      return -1;
    }

    /** process_fd_close */
    method FdClose(p: nat, f: int, ghost spare: multiset<nat>) returns (ok: bool)
      requires Inv(spare) && p < |procs| && procs[p].state != Blocked
      modifies this`procs, this`fds, this`pipes, this`files
      ensures Inv(spare) && Awake(old(procs), procs) && Drained(old(pipes), pipes)
      ensures ok <==> 0 <= f < MAX_FDS && old(fds)[p][f].Open?
      ensures ok ==> fds == SetFd(old(fds), p, f, NoFd)
      ensures !ok ==> fds == old(fds) && procs == old(procs) && pipes == old(pipes) && files == old(files)
      ensures ok && SharedFd(old(fds), p, f) ==> procs == old(procs)
      ensures ok && old(fds)[p][f].kind != File && Deserted(old(procs), old(fds), PipeOf(old(fds)[p][f].handle)) ==> procs == old(procs)
    {
      AwakeSelf(procs);
      assert Drained(pipes, pipes);
      hide Sound, Purposeful, OneRunning, Orderly, Exact, PipeOf, IsReadEnd, PipesOk, Awake;
      if f < 0 || f >= MAX_FDS || fds[p][f].NoFd? {
        return false;
      }
      var fd := fds[p][f];
      NamedIsCounted(fds, pipes, files, spare, p, f);
      FdEmptied(fds, pipes, files, spare, p, f);
      fds := fds[p := fds[p][f := NoFd]];
      FdsKeep(procs, old(fds), fds, pipes, p, crowded);
      if SharedFd(old(fds), p, f) {
        SharedCount(old(fds), p, f, pipes, files, spare);
      }
      if fd.kind != File && Deserted(procs, old(fds), PipeOf(fd.handle)) {
        StillDeserted(procs, old(fds), fds, p, PipeOf(fd.handle));
      }
      ReleaseHandle(fd, spare);
      ok := true;
    }

    /** The handle of a closed descriptor is given up. */
    method ReleaseHandle(fd: Fd, ghost spare: multiset<nat>)
      requires fd.Open? && FdOk(fd) && Inv(spare + multiset{fd.handle}) && CountOf(pipes, files, fd.handle) > 0
      modifies this`procs, this`pipes, this`files
      ensures Inv(spare) && Awake(old(procs), procs) && Drained(old(pipes), pipes)
      ensures CountOf(old(pipes), old(files), fd.handle) > 1 ==> procs == old(procs)
      ensures fd.kind == File || Deserted(old(procs), fds, PipeOf(fd.handle)) ==> procs == old(procs)
    {
      AwakeSelf(procs);
      CountInUse(pipes, files, fd.handle);
      hide Sound, Purposeful, OneRunning, Emptied, Orderly, Accounted, PipeOf, IsReadEnd, Awake, Drained, AfterClose;
      ghost var more := spare + multiset{fd.handle};
      assert more - multiset{fd.handle} == spare;
      DrainedSelf(pipes);
      if fd.kind != File {
        DrainedClose(pipes, PipeOf(fd.handle), IsReadEnd(fd.handle));
        var _ := PipeClose(fd.handle, more);
      } else {
        var _ := VfsClose(fd.handle, more);
      }
    }

    /** process_fd_close_all and process_fd_close_on_exec */
    method CloseSome(p: nat, onlyFlagged: bool, ghost spare: multiset<nat>)
      requires Inv(spare) && p < |procs| && procs[p].state != Blocked
      modifies this`procs, this`fds, this`pipes, this`files
      ensures Inv(spare) && Awake(old(procs), procs) && Drained(old(pipes), pipes)
      ensures fds == old(fds)[p := Shut(old(fds)[p], MAX_FDS, onlyFlagged)]
      ensures AllShared(old(fds), p) ==> procs == old(procs)
    {
      AwakeSelf(procs);
      DrainedSelf(pipes);
      ShutNone(fds, p, onlyFlagged);
      SizeOfTable(fds, p);
      hide Sound, Purposeful, OneRunning, Emptied, Orderly, Accounted, Awake, Drained, Shut, SharedFd, AllShared;
      CloseLoop(p, onlyFlagged, spare);
    }

    method CloseLoop(p: nat, onlyFlagged: bool, ghost spare: multiset<nat>)
      requires Inv(spare) && p < |procs| && procs[p].state != Blocked && |fds[p]| == MAX_FDS
      requires Closing(procs, fds, pipes, p, 0, onlyFlagged, procs, fds, pipes)
      modifies this`procs, this`fds, this`pipes, this`files
      ensures Inv(spare) && Closing(old(procs), old(fds), old(pipes), p, MAX_FDS, onlyFlagged, procs, fds, pipes)
    {
      hide Base, Orderly, Accounted, Closing;
      for f := 0 to MAX_FDS
        invariant Inv(spare) && procs[p].state != Blocked
        invariant Closing(old(procs), old(fds), old(pipes), p, f, onlyFlagged, procs, fds, pipes)
      {
        hide Base, Orderly, Accounted, Closing;
        CloseStep(p, f, onlyFlagged, spare, old(procs), old(fds), old(pipes));
      }
    }

    /** One round of the closing loops. */
    method CloseStep(p: nat, f: nat, onlyFlagged: bool, ghost spare: multiset<nat>, ghost procs0: seq<Proc>, ghost fds0: seq<FdTable>, ghost pipes0: seq<Value>)
      requires Inv(spare) && p < |procs| && procs[p].state != Blocked && f < MAX_FDS
      requires |fds0| == |fds| && |fds0[p]| == MAX_FDS && Closing(procs0, fds0, pipes0, p, f, onlyFlagged, procs, fds, pipes)
      modifies this`procs, this`fds, this`pipes, this`files
      ensures Inv(spare) && p < |procs| && procs[p].state != Blocked
      ensures Closing(procs0, fds0, pipes0, p, f + 1, onlyFlagged, procs, fds, pipes)
    {
      hide Sound, Purposeful, OneRunning, Emptied, Orderly, Accounted, Awake, Drained, Shut, SharedFd, AllShared;
      ShutStep(fds0, p, f, onlyFlagged);
      if ToClose(fds[p][f], onlyFlagged) {
        if AllShared(fds0, p) {
          SharedStays(fds0, fds, p, f);
        }
        var _ := FdClose(p, f, spare);
        AwakeTrans(procs0, old(procs), procs);
        AwakeOne(old(procs), procs, p);
        DrainedTrans(pipes0, old(pipes), pipes);
      }
    }

    method Retain(fd: Fd) returns (ok: bool)
      requires Valid() && fd.Open? && FdOk(fd)
      modifies this`pipes, this`files
      ensures ok ==> Inv(multiset{fd.handle}) && Drained(old(pipes), pipes)
      ensures !ok ==> pipes == old(pipes) && files == old(files) && CountOf(pipes, files, fd.handle) in {0, COUNT_MAX}
    {
      DrainedSelf(pipes);
      if CountOf(pipes, files, fd.handle) > 0 {
        CountInUse(pipes, files, fd.handle);
      }
      hide Sound, Purposeful, OneRunning, Emptied, Orderly, Accounted, PipeOf, IsReadEnd, Drained;
      assert multiset{} + multiset{fd.handle} == multiset{fd.handle};
      if fd.kind != File {
        ok := PipeRetain(fd.handle, multiset{});
      } else {
        ok := VfsRetain(fd.handle, multiset{});
      }
    }

    /** process_fd_inherit: the child gets all of the parent's descriptors or none. */
    method Inherit(child: nat, parent: nat) returns (ok: bool)
      requires Valid() && child < |procs| && parent < |procs| && child != parent
      requires Active(procs[child]) && procs[child].state != Blocked && AllClosed(fds[child])
      modifies this`procs, this`fds, this`pipes, this`files
      ensures Valid() && procs == old(procs)
      ensures ok ==> fds == old(fds)[child := old(fds)[parent]] && Drained(old(pipes), pipes)
      ensures !ok ==> fds == old(fds) && pipes == old(pipes) && files == old(files) && Saturated(fds)
    {
      DrainedSelf(pipes);
      SizeOfTable(fds, parent);
      SizeOfTable(fds, child);
      PartNone(fds, child, parent);
      hide FlowOk, Inv, Accounted, Drained, Part, SetFd, AllClosed, Saturated;
      for f := 0 to MAX_FDS
        invariant Valid() && procs == old(procs) && Drained(old(pipes), pipes)
        invariant fds == old(fds)[child := Part(old(fds)[parent], f)]
      {
        ok := InheritStep(child, parent, f, old(fds), old(pipes), old(files));
        if !ok {
          return false;
        }
      }
      PartAll(old(fds)[parent]);
      ok := true;
    }

    /** One round of the loop of process_fd_inherit. */
    method InheritStep(child: nat, parent: nat, f: nat, ghost fds0: seq<FdTable>, ghost pipes0: seq<Value>, ghost files0: seq<nat>)
      returns (ok: bool)
      requires Valid() && child < |procs| && parent < |procs| && child != parent && f < MAX_FDS
      requires Active(procs[child]) && procs[child].state != Blocked
      requires Accounted(fds0, pipes0, files0, multiset{}) && Drained(pipes0, pipes)
      requires |fds0| == |procs| && AllClosed(fds0[child]) && fds == fds0[child := Part(fds0[parent], f)]
      modifies this`procs, this`fds, this`pipes, this`files
      ensures Valid() && procs == old(procs)
      ensures ok ==> fds == fds0[child := Part(fds0[parent], f + 1)] && Drained(pipes0, pipes)
      ensures !ok ==> fds == fds0 && pipes == pipes0 && files == files0 && Saturated(fds0)
    {
      SizeOfTable(fds0, parent);
      SizeOfTable(fds0, child);
      PartStep(fds0, child, parent, f);
      hide FlowOk, Sound, Purposeful, OneRunning, Emptied, Orderly, Accounted, Drained, Part, SetFd, AllClosed, Saturated;
      ok := true;
      if fds[parent][f].Open? {
        ok := InheritOne(child, parent, f);
        if !ok {
          InheritRefused(fds0, child, parent, f, pipes, files, fds[parent][f].handle);
          DropInherited(child, parent, f, fds0, pipes0, files0);
        } else {
          DrainedTrans(pipes0, old(pipes), pipes);
        }
      }
    }

    /** The rollback of process_fd_inherit. */
    method DropInherited(child: nat, ghost parent: nat, ghost f: nat, ghost fds0: seq<FdTable>, ghost pipes0: seq<Value>, ghost files0: seq<nat>)
      requires Valid() && child < |procs| && parent < |procs| && child != parent && procs[child].state != Blocked
      requires Accounted(fds0, pipes0, files0, multiset{}) && Drained(pipes0, pipes)
      requires |fds0| == |procs| && AllClosed(fds0[child]) && fds == fds0[child := Part(fds0[parent], f)]
      modifies this`procs, this`fds, this`pipes, this`files
      ensures Valid() && procs == old(procs)
      ensures fds == fds0 && pipes == pipes0 && files == files0
    {
      SizeOfTable(fds0, parent);
      SizeOfTable(fds0, child);
      hide Sound, Purposeful, OneRunning, Emptied, Orderly, Accounted, Drained, Part, AllShared, Shut, Awake;
      PartShared(fds0, child, parent, f);
      PartShut(fds0, child, parent, f);
      CloseSome(child, false, multiset{});
      DrainedTrans(pipes0, old(pipes), pipes);
      assert fds == fds0;
      Restored(fds, pipes0, files0, pipes, files);
    }

    method InheritOne(child: nat, parent: nat, f: nat) returns (ok: bool)
      requires Valid() && child < |procs| && parent < |procs| && f < MAX_FDS
      requires Active(procs[child]) && procs[child].state != Blocked
      requires |fds[child]| == |fds[parent]| == MAX_FDS && fds[child][f].NoFd? && fds[parent][f].Open?
      modifies this`fds, this`pipes, this`files
      ensures Valid()
      ensures ok ==> fds == SetFd(old(fds), child, f, old(fds)[parent][f]) && Drained(old(pipes), pipes)
      ensures !ok ==> fds == old(fds) && pipes == old(pipes) && files == old(files)
      ensures !ok ==> IsHandle(fds[parent][f].handle) && CountOf(pipes, files, fds[parent][f].handle) == COUNT_MAX
    {
      var fd := fds[parent][f];
      FdOfTable(fds, parent, f);
      NamedIsCounted(fds, pipes, files, multiset{}, parent, f);
      hide Sound, Purposeful, OneRunning, Emptied, Orderly, Accounted, PipeOf, IsReadEnd, Drained, CountOf;
      ok := Retain(fd);
      if ok {
        FillFd(child, f, fd);
      }
    }

    /** A free descriptor takes over a handle that was retained for it. */
    method FillFd(p: nat, f: nat, fd: Fd)
      requires fd.Open? && FdOk(fd) && Inv(multiset{fd.handle}) && p < |procs| && Active(procs[p]) && procs[p].state != Blocked
      requires f < |fds[p]| && fds[p][f].NoFd?
      modifies this`fds
      ensures Valid() && fds == SetFd(old(fds), p, f, fd)
    {
      hide Sound, Purposeful, OneRunning, Orderly, Accounted;
      FdFilled(fds, pipes, files, multiset{fd.handle}, p, f, fd);
      assert multiset{fd.handle} - multiset{fd.handle} == multiset{};
      fds := fds[p := fds[p][f := fd]];
      FdsKeep(procs, old(fds), fds, pipes, p, crowded);
    }

    /** process_get_current */
    method Current() returns (me: int)
      requires Valid()
      ensures me < |procs| && (me >= 0 ==> procs[me].state == Running && me == cur)
      ensures me < 0 ==> forall p :: 0 <= p < |procs| ==> procs[p].state != Running
    {
      for p := 0 to |procs|
        invariant forall q :: 0 <= q < p ==> procs[q].state != Running
      {
        if procs[p].state == Running {
          return p;
        }
      }
      return -1;
    }

    /** vfs_open, which may fail for reasons of its own. */
    method VfsOpen(fails: bool) returns (h: int)
      requires Valid()
      modifies this`files
      ensures h < MAX_FILES
      ensures h < 0 ==> files == old(files)
      ensures h < 0 <==> fails || 0 !in old(files)
      ensures h >= 0 ==> Inv(multiset{h}) && old(files)[h] == 0 && files == old(files)[h := 1]
    {
      hide Sound, Purposeful, OneRunning, Emptied, Orderly, Exact, PipesOk, FdsOk;
      if fails {
        return -1;
      }
      for k := 0 to MAX_FILES
        invariant files == old(files) && forall j :: 0 <= j < k ==> files[j] > 0
      {
        if files[k] == 0 {
          files := files[k := 1];
          Opened(fds, pipes, old(files), k);
          return k;
        }
      }
      return -1;
    }

    /** The descriptors of the current process. */
    ghost function TableNow(): FdTable
      reads this
    {
      if 0 <= cur < |fds| then fds[cur] else []
    }

    ghost predicate SomeoneRuns()
      reads this
    {
      0 <= cur < |procs| && procs[cur].state == Running
    }

    /** SYS_OPEN: the lowest free descriptor, exactly if the file system opens the file and a slot of
        both tables is free; a failed call leaves every descriptor and count as it was. */
    method SysOpen(fails: bool, cloexec: bool) returns (f: int)
      requires Valid()
      modifies this`fds, this`files
      ensures Valid() && f < MAX_FDS
      ensures f >= 0 <==> SomeoneRuns() && !fails && 0 in old(files) && exists g :: 0 <= g < MAX_FDS && old(fds)[cur][g].NoFd?
      ensures forall g :: 0 <= g < f ==> old(fds)[cur][g].Open?
      ensures f < 0 ==> fds == old(fds) && files == old(files)
      ensures f >= 0 ==> 0 <= cur < |procs| && old(fds)[cur][f].NoFd? && exists h ::
                0 <= h < MAX_FILES && old(files)[h] == 0 && files == old(files)[h := 1] &&
                fds == SetFd(old(fds), cur, f, Open(File, h, cloexec))
    {
      hide Base, Orderly, Accounted;
      var me := Current();
      if me < 0 {
        return -1;
      }
      var h := VfsOpen(fails);
      if h < 0 {
        return -1;
      }
      assert multiset{h as nat} - multiset{h as nat} == multiset{};
      f := FdInstall(me, Open(File, h, cloexec), multiset{h as nat});
      if f < 0 {
        var _ := VfsClose(h, multiset{h as nat});
      }
    }

    /** pipe_create */
    method PipeCreate() returns (i: int)
      requires Valid()
      modifies this`pipes, this`moves
      ensures i < MAX_PIPES
      ensures i < 0 ==> pipes == old(pipes) && moves == old(moves) && forall k :: 0 <= k < MAX_PIPES ==> pipes[k].used
      ensures i >= 0 ==>
        && old(pipes)[i] == Unused && pipes == old(pipes)[i := Value(true, [], 1, 1)]
        && moves == old(moves) + [Made(i)] && Inv(multiset{ReadEnd(i), WriteEnd(i)})
    {
      hide Sound, Purposeful, OneRunning, Emptied, Orderly, Exact, FdsOk, FlowOk;
      for k := 0 to MAX_PIPES
        invariant pipes == old(pipes) && moves == old(moves) && forall j :: 0 <= j < k ==> pipes[j].used
      {
        if !pipes[k].used {
          FlowMade(pipes, moves, k);
          pipes, moves := pipes[k := Value(true, [], 1, 1)], moves + [Made(k)];
          Created(procs, fds, old(pipes), files, k, crowded);
          return k;
        }
      }
      return -1;
    }

    /** SYS_PIPE; `copied` says whether both numbers reach the caller's memory.  A failed call
        leaves every descriptor, count and pipe as it was. */
    method SysPipe(copied: bool) returns (ok: bool, readFd: int, writeFd: int)
      requires Valid()
      modifies this`procs, this`fds, this`pipes, this`files, this`moves
      ensures Valid() && procs == old(procs)
      ensures ok <==> SomeoneRuns() && (exists i :: 0 <= i < MAX_PIPES && !old(pipes)[i].used) && TwoFree(old(fds)[cur]) && copied
      ensures ok ==> Lowest(old(fds)[cur], readFd, writeFd)
      ensures !ok ==> fds == old(fds) && pipes == old(pipes) && files == old(files) && moves == old(moves)
      ensures ok ==> 0 <= cur < |procs| && files == old(files) && exists i ::
        && 0 <= i < MAX_PIPES && moves == old(moves) + [Made(i)] && old(pipes)[i] == Unused && pipes == old(pipes)[i := Value(true, [], 1, 1)]
        && 0 <= readFd < writeFd < MAX_FDS && old(fds)[cur][readFd].NoFd? && old(fds)[cur][writeFd].NoFd?
        && fds == SetFd(SetFd(old(fds), cur, readFd, Open(PipeRead, ReadEnd(i), false)),
                        cur, writeFd, Open(PipeWrite, WriteEnd(i), false))
    {
      AwakeSelf(procs);
      hide Base, Orderly, Accounted, Awake, FlowOk;
      readFd, writeFd := -1, -1;
      var me := Current();
      if me < 0 {
        return false, -1, -1;
      }
      var i := PipeCreate();
      if i < 0 {
        return false, -1, -1;
      }
      NewPipeDeserted(procs, fds, old(pipes), files, i);
      ok, readFd, writeFd := InstallEnds(me, i, copied, old(pipes), old(files));
      if !ok {
        moves := old(moves);
      }
    }

    method InstallEnds(me: nat, i: nat, copied: bool, ghost pipes0: seq<Value>, ghost files0: seq<nat>)
      returns (ok: bool, readFd: int, writeFd: int)
      requires i < MAX_PIPES && Inv(multiset{ReadEnd(i), WriteEnd(i)})
      requires me < |procs| && procs[me].state == Running
      requires Accounted(fds, pipes0, files0, multiset{}) && pipes0[i] == Unused
      requires pipes == pipes0[i := Value(true, [], 1, 1)] && files == files0 && Deserted(procs, fds, i)
      modifies this`procs, this`fds, this`pipes, this`files
      ensures Valid() && procs == old(procs)
      ensures ok <==> TwoFree(old(fds)[me]) && copied
      ensures ok ==> Lowest(old(fds)[me], readFd, writeFd)
      ensures !ok ==> fds == old(fds) && pipes == pipes0 && files == files0
      ensures ok ==> pipes == old(pipes) && files == old(files)
      ensures ok ==>
        && 0 <= readFd < writeFd < MAX_FDS && old(fds)[me][readFd].NoFd? && old(fds)[me][writeFd].NoFd?
        && fds == SetFd(SetFd(old(fds), me, readFd, Open(PipeRead, ReadEnd(i), false)),
                        me, writeFd, Open(PipeWrite, WriteEnd(i), false))
    {
      AwakeSelf(procs);
      EndHandles(i);
      assert multiset{ReadEnd(i), WriteEnd(i)} - multiset{ReadEnd(i)} == multiset{WriteEnd(i)};
      assert multiset{WriteEnd(i)} - multiset{WriteEnd(i)} == multiset{};
      hide FlowOk, Sound, Purposeful, OneRunning, Emptied, Orderly, Accounted, Awake, PipeOf, IsReadEnd, ReadEnd, WriteEnd;
      readFd := FdInstall(me, Open(PipeRead, ReadEnd(i), false), multiset{ReadEnd(i), WriteEnd(i)});
      if readFd < 0 {
        DropPipe(i);
        Unmade(fds, pipes0, files0, old(pipes), pipes, files, i);
        return false, -1, -1;
      }
      ok, writeFd := InstallWrite(me, readFd, i, copied, old(fds), pipes0, files0);
    }

    /** The write end, once the read end is installed. */
    method InstallWrite(me: nat, readFd: nat, i: nat, copied: bool, ghost fds0: seq<FdTable>, ghost pipes0: seq<Value>, ghost files0: seq<nat>)
      returns (ok: bool, writeFd: int)
      requires i < MAX_PIPES && Inv(multiset{WriteEnd(i)}) && me < |procs| && procs[me].state == Running
      requires |fds0| == MAX_PROCESSES && |fds0[me]| == MAX_FDS && readFd < MAX_FDS && fds0[me][readFd].NoFd?
      requires fds == SetFd(fds0, me, readFd, Open(PipeRead, ReadEnd(i), false))
      requires forall g :: 0 <= g < readFd ==> fds0[me][g].Open?
      requires Accounted(fds0, pipes0, files0, multiset{}) && pipes0[i] == Unused
      requires pipes == pipes0[i := Value(true, [], 1, 1)] && files == files0 && Deserted(procs, fds, i)
      modifies this`procs, this`fds, this`pipes, this`files
      ensures Valid() && procs == old(procs)
      ensures ok <==> TwoFree(fds0[me]) && copied
      ensures ok ==> Lowest(fds0[me], readFd, writeFd)
      ensures !ok ==> fds == fds0 && pipes == pipes0 && files == files0
      ensures ok ==> pipes == old(pipes) && files == old(files)
      ensures ok ==>
        && readFd < writeFd < MAX_FDS && fds0[me][writeFd].NoFd?
        && fds == SetFd(SetFd(fds0, me, readFd, Open(PipeRead, ReadEnd(i), false)),
                        me, writeFd, Open(PipeWrite, WriteEnd(i), false))
    {
      AwakeSelf(procs);
      EndHandles(i);
      SetFdOther(fds0, me, readFd, Open(PipeRead, ReadEnd(i), false));
      assert multiset{WriteEnd(i)} - multiset{WriteEnd(i)} == multiset{};
      assert NamesPipe(Open(PipeRead, ReadEnd(i), false), i) && NamesPipe(Open(PipeWrite, WriteEnd(i), false), i);
      hide FlowOk, Base, Orderly, Accounted, Awake, PipeOf, IsReadEnd, ReadEnd, WriteEnd, SetFd, Deserted, NamesPipe;
      writeFd := FdInstall(me, Open(PipeWrite, WriteEnd(i), false), multiset{WriteEnd(i)});
      if writeFd < 0 {
        DropRead(me, readFd, i);
        Unmade(fds, pipes0, files0, old(pipes), pipes, files, i);
        return false, -1;
      }
      if !copied {
        InstalledDeserted(procs, old(fds), me, writeFd, Open(PipeWrite, WriteEnd(i), false), i);
        SetFdTwice(fds0, me, readFd, writeFd, Open(PipeRead, ReadEnd(i), false), Open(PipeWrite, WriteEnd(i), false));
        DropBoth(me, readFd, writeFd, i);
        Unmade(fds, pipes0, files0, old(pipes), pipes, files, i);
        return false, -1;
      }
      ok := true;
    }

    /** Both ends of a new pipe are given up before a descriptor names them. */
    method DropPipe(i: nat)
      requires i < MAX_PIPES && Inv(multiset{ReadEnd(i), WriteEnd(i)}) && pipes[i] == Value(true, [], 1, 1)
      modifies this`procs, this`pipes
      ensures Valid() && Awake(old(procs), procs) && Drained(old(pipes), pipes)
      ensures Deserted(old(procs), fds, i) ==> procs == old(procs)
    {
      EndHandles(i);
      assert multiset{ReadEnd(i), WriteEnd(i)} - multiset{ReadEnd(i)} == multiset{WriteEnd(i)};
      assert multiset{WriteEnd(i)} - multiset{WriteEnd(i)} == multiset{};
      assert AfterClose(pipes[i], true) == Value(true, [], 0, 1);
      DrainedClose(pipes, i, true);
      DrainedClose(pipes[i := Value(true, [], 0, 1)], i, false);
      hide Base, Orderly, Accounted, Awake, PipeOf, IsReadEnd, ReadEnd, WriteEnd, AfterClose, Drained;
      var _ := PipeClose(ReadEnd(i), multiset{ReadEnd(i), WriteEnd(i)});
      ghost var middle, half := procs, pipes;
      var _ := PipeClose(WriteEnd(i), multiset{WriteEnd(i)});
      AwakeTrans(old(procs), middle, procs);
      DrainedTrans(old(pipes), half, pipes);
    }

    method DropRead(me: nat, readFd: nat, i: nat)
      requires i < MAX_PIPES && Inv(multiset{WriteEnd(i)}) && pipes[i] == Value(true, [], 1, 1)
      requires me < |procs| && procs[me].state == Running && readFd < MAX_FDS && |fds[me]| == MAX_FDS
      requires fds[me][readFd] == Open(PipeRead, ReadEnd(i), false)
      modifies this`procs, this`fds, this`pipes, this`files
      ensures Valid() && Awake(old(procs), procs) && Drained(old(pipes), pipes)
      ensures fds == SetFd(old(fds), me, readFd, NoFd)
      ensures Deserted(old(procs), old(fds), i) ==> procs == old(procs)
    {
      EndHandles(i);
      if Deserted(procs, fds, i) {
        StillDeserted(procs, fds, SetFd(fds, me, readFd, NoFd), me, i);
      }
      assert multiset{WriteEnd(i)} - multiset{WriteEnd(i)} == multiset{};
      var _ := FdClose(me, readFd, multiset{WriteEnd(i)});
      ghost var middle, half := procs, pipes;
      assert CountOf(pipes, files, WriteEnd(i)) >= 1;
      CountInUse(pipes, files, WriteEnd(i));
      hide FlowOk, Sound, Purposeful, OneRunning, Emptied, Orderly, Accounted, Awake, PipeOf, IsReadEnd, ReadEnd, WriteEnd;
      var _ := PipeClose(WriteEnd(i), multiset{WriteEnd(i)});
      AwakeTrans(old(procs), middle, procs);
      DrainedClose(half, i, false);
      DrainedTrans(old(pipes), half, pipes);
    }

    method DropBoth(me: nat, readFd: nat, writeFd: nat, ghost i: nat)
      requires Valid() && me < |procs| && procs[me].state == Running
      requires readFd < writeFd < MAX_FDS && |fds[me]| == MAX_FDS && fds[me][readFd].Open? && fds[me][writeFd].Open?
      modifies this`procs, this`fds, this`pipes, this`files
      ensures Valid() && Awake(old(procs), procs) && Drained(old(pipes), pipes)
      ensures fds == SetFd(SetFd(old(fds), me, readFd, NoFd), me, writeFd, NoFd)
      ensures NamesPipe(old(fds)[me][readFd], i) && NamesPipe(old(fds)[me][writeFd], i) && Deserted(old(procs), old(fds), i) ==>
        procs == old(procs)
    {
      if Deserted(procs, fds, i) {
        StillDeserted(procs, fds, SetFd(fds, me, readFd, NoFd), me, i);
      }
      hide Sound, Purposeful, OneRunning, Emptied, Orderly, Accounted, Drained;
      var _ := FdClose(me, readFd, multiset{});
      ghost var middle, half := procs, pipes;
      AwakeOne(old(procs), procs, me);
      hide Awake;
      var _ := FdClose(me, writeFd, multiset{});
      AwakeTrans(old(procs), middle, procs);
      DrainedTrans(old(pipes), half, pipes);
    }

    /** pipe_read */
    method PipeReadAt(h: nat, count: nat) returns (r: Result, data: seq<byte>)
      requires Valid()
      modifies this`procs, this`pipes, this`moves
      ensures Valid() && Awake(old(procs), procs)
      ensures !(old(PipeInUse(h)) && IsReadEnd(h)) ==> r == BadHandle
      ensures r.Moved? ==> h >= HANDLE_BASE && |data| == r.n
      ensures !r.Moved? ==> pipes == old(pipes)
      ensures moves == if r.Moved? then old(moves) + [Took(PipeOf(h), data)] else old(moves)
      ensures old(PipeInUse(h)) && IsReadEnd(h) ==>
        && r == ReadResult(old(pipes)[PipeOf(h)], count)
        && pipes == old(pipes)[PipeOf(h) := AfterRead(old(pipes)[PipeOf(h)], count)]
        && data == old(pipes)[PipeOf(h)].content[..Taken(r)]
      ensures !(r.Moved? && r.n > 0) ==> procs == old(procs)
    {
      AwakeSelf(procs);
      hide Sound, Purposeful, OneRunning, Emptied, Orderly, AtMostOne, Exact, FdsOk, FlowOk, Awake, PipeOf, IsReadEnd;
      if !PipeInUse(h) || !IsReadEnd(h) {
        return BadHandle, [];
      }
      var i := PipeOf(h);
      r := ReadResult(pipes[i], count);
      data := pipes[i].content[..Taken(r)];
      if r.Moved? {
        FlowTook(pipes, moves, i, r.n);
        assert pipes[i].content[0..] == pipes[i].content;
        moves := moves + [Took(i, data)];
      }
      if r.Moved? && r.n > 0 {
        pipes := pipes[i := pipes[i].(content := pipes[i].content[r.n..])];
        WakePipeWaiter(i, PipeWriteWait);
        ReadKeeps(old(procs), procs, nextPid, hist, cur, fds, old(pipes), files, crowded, i, count);
      } else {
        assert old(pipes)[i := AfterRead(old(pipes)[i], count)] == pipes;
      }
    }

    /** pipe_write */
    method PipeWriteAt(h: nat, data: seq<byte>) returns (r: Result)
      requires Valid()
      modifies this`procs, this`pipes, this`moves
      ensures Valid() && Awake(old(procs), procs)
      ensures !(old(PipeInUse(h)) && !IsReadEnd(h)) ==> r == BadHandle
      ensures !r.Moved? ==> pipes == old(pipes)
      ensures r.Moved? ==> h >= HANDLE_BASE && r.n <= |data|
      ensures moves == if r.Moved? then old(moves) + [Gave(PipeOf(h), data[..r.n])] else old(moves)
      ensures old(PipeInUse(h)) && !IsReadEnd(h) ==>
        && r == WriteResult(old(pipes)[PipeOf(h)], |data|)
        && pipes == old(pipes)[PipeOf(h) := AfterWrite(old(pipes)[PipeOf(h)], data)]
      ensures !(r.Moved? && r.n > 0) ==> procs == old(procs)
    {
      AwakeSelf(procs);
      hide Sound, Purposeful, OneRunning, Emptied, Orderly, AtMostOne, Exact, FdsOk, FlowOk, Awake, PipeOf, IsReadEnd;
      if !PipeInUse(h) || IsReadEnd(h) {
        return BadHandle;
      }
      var i := PipeOf(h);
      r := WriteResult(pipes[i], |data|);
      if r.Moved? {
        FlowGave(pipes, moves, i, data[..r.n]);
        assert r.n == 0 ==> pipes[i].content + data[..r.n] == pipes[i].content;
        assert r.n == 0 ==> pipes[i := pipes[i].(content := pipes[i].content + data[..r.n])] == pipes;
        moves := moves + [Gave(i, data[..r.n])];
      }
      if r.Moved? && r.n > 0 {
        pipes := pipes[i := pipes[i].(content := pipes[i].content + data[..r.n])];
        WakePipeWaiter(i, PipeReadWait);
        WriteKeeps(old(procs), procs, nextPid, hist, cur, fds, old(pipes), files, crowded, i, data);
      } else {
        assert pipes[i].content + data[..0] == pipes[i].content;
      }
    }

    /** scheduler_stop_current_locked.  Which ready process the scheduler prefers does not matter
        here, so any may be chosen; none is if there is no other or the preferred one cannot be resumed. */
    method StopCurrent(frame: Frame, stopped: State, resume: bool) returns (out: Frame, next: int)
      requires |procs| == MAX_PROCESSES && cur < |procs|
      modifies this`procs, this`cur
      ensures |procs| == |old(procs)| && next < |procs|
      ensures old(cur) < 0 || frame == NoFrame ==> next < 0 && out == NoFrame && procs == old(procs) && cur == old(cur)
      ensures old(cur) >= 0 && frame != NoFrame && next < 0 ==>
        && procs == Stopped(old(procs), old(cur), frame, if resume then Running else stopped)
        && cur == old(cur) && out == if resume then frame else NoFrame
      ensures old(cur) >= 0 && frame != NoFrame && next >= 0 ==>
        && cur == next != old(cur) && old(procs)[next].state == Ready
        && procs == Stopped(old(procs), old(cur), frame, stopped)[next := Dispatch(old(procs)[next])]
        && out == procs[next].frame != NoFrame
      ensures old(cur) >= 0 && frame != NoFrame && next < 0 ==> Stalls(old(procs), old(cur))
    {
      if cur < 0 || frame == NoFrame {
        return NoFrame, -1;
      }
      var was := procs[cur];
      procs := procs[cur := Halt(was, frame, stopped)];
      var choice := Preferred();
      StallsFor(old(procs), procs, cur, choice);
      if choice < 0 || procs[choice].frame == NoFrame {
        if resume {
          procs := procs[cur := Halt(was, frame, Running)];
          return frame, -1;
        }
        return NoFrame, -1;
      }
      procs := procs[choice := Dispatch(procs[choice])];
      cur := choice;
      return procs[choice].frame, choice;
    }

    /** Some ready process, if there is one besides the current. */
    method Preferred() returns (choice: int)
      ensures choice < |procs| && (choice >= 0 ==> choice != cur && procs[choice].state == Ready)
      ensures choice < 0 ==> forall p :: 0 <= p < |procs| && p != cur ==> procs[p].state != Ready
    {
      choice := *;
      if 0 <= choice < |procs| && choice != cur && procs[choice].state == Ready {
        return;
      }
      for k := 0 to |procs|
        invariant forall p :: 0 <= p < k && p != cur ==> procs[p].state != Ready
      {
        if procs[k].state == Ready && k != cur {
          return k;
        }
      }
      return -1;
    }

    /** process_begin_pipe_wait and scheduler_block_current, in a read or write that would block. */
    method BlockOnPipe(me: nat, f: nat, count: nat, reason: Reason, frame: Frame, ghost e: End) returns (out: Frame, switched: bool)
      requires Valid() && me < |procs| && me == cur && procs[me].state == Running && !procs[me].completing && PipeReason(reason)
      requires f < |fds[me]| && RightlyBlocked(AtPipe(procs[me], f, count, reason, frame), fds[me], pipes, e)
      modifies this`procs, this`cur, this`crowded
      ensures Valid() && switched == (cur != me)
      ensures switched ==> procs[me] == AtPipe(old(procs)[me], f, count, reason, frame) && out != NoFrame
      ensures !switched ==> out == frame && procs == old(procs)[me := procs[me]] && procs[me].state == Running && crowded == old(crowded)
      ensures switched ==> crowded == CrowdedNow(old(procs), fds, me, e, old(crowded))
      ensures !switched && frame != NoFrame ==> Stalls(old(procs), me)
    {
      hide Base, Orderly, Accounted, RightlyBlocked, AtMostOne, CrowdedNow, Halt, PipeWait, ForgetReason, Dispatch;
      if frame == NoFrame {
        return frame, false;
      }
      ghost var before := procs;
      procs := procs[me := PipeWait(procs[me], f, count, reason)];
      StallsFor(before, procs, me, -1);
      ghost var next;
      out, next := StopCurrent(frame, Blocked, true);
      if cur == me {
        procs := procs[me := ForgetReason(procs[me])];
        assert procs == before[me := NotBlocked(before[me], f, count, reason, frame)];
        ResumeKeeps(before, me, fds, pipes, nextPid, hist, f, count, reason, frame, crowded);
        return out, false;
      }
      assert procs == before[me := AtPipe(before[me], f, count, reason, frame)][next := Dispatch(before[next])];
      BlockKeeps(before, me, fds, pipes, nextPid, hist, f, count, reason, frame, next, e, crowded);
      crowded := CrowdedNow(before, fds, me, e, crowded);
      return out, true;
    }

    /** SYS_READ on a descriptor of a pipe; a file is read by the file system.  `writable` says
        whether the buffer could be made writable. */
    method SysRead(f: int, count: nat, writable: bool, frame: Frame) returns (out: Frame, reply: Reply, data: seq<byte>)
      requires Valid() && AtRest(procs)
      modifies this`procs, this`pipes, this`cur, this`crowded, this`moves
      ensures Valid() && CrowdedBound(old(crowded), crowded, old(procs), fds, old(cur), Read(f, count, writable))
      ensures !reply.Done? ==> pipes == old(pipes)
      ensures (moves == old(moves) && EarlyReply(old(SomeoneRuns()), old(TableNow()), f, PipeRead, count > 0 && !writable, reply)) || exists i ::
        && AtPipeEnd(old(SomeoneRuns()), old(TableNow()), f, PipeRead, count > 0 && !writable, i)
        && ReadFrom(old(pipes), i, count, reply, pipes, data)
        && moves == if reply.Done? then old(moves) + [Took(i, data)] else old(moves)
      ensures reply == Err(EAGAIN) && frame != NoFrame ==> Stalls(old(procs), old(cur))
      ensures frame != NoFrame ==> out != NoFrame
    {
      hide Base, Orderly, Exact, PipeOf, IsReadEnd, CrowdedNow, CrowdedBound, ReadFrom;
      out, data := frame, [];
      BoundSelf(crowded, procs, fds, cur, Read(f, count, writable));
      if count > 0 && !writable {
        return frame, Err(EFAULT), [];
      }
      var me := Current();
      if me < 0 || f < 0 || f >= MAX_FDS || fds[me][f].NoFd? {
        return frame, Err(EBADF), [];
      }
      FdOfTable(fds, me, f);
      NamedInUse(fds, pipes, files, me, f);
      if fds[me][f].kind == File {
        return frame, FileCall, [];
      }
      if fds[me][f].kind != PipeRead {
        return frame, Err(EBADF), [];
      }
      ghost var i := PipeOf(fds[me][f].handle);
      assert OnPipe(fds[me], f, i) && i < MAX_PIPES;
      assert AtPipeEnd(SomeoneRuns(), TableNow(), f, PipeRead, count > 0 && !writable, i);
      out, reply, data := ReadPipe(me, f, count, frame, i);
      JoinsOnly(old(crowded), crowded, old(procs), fds, me, f, Read(f, count, writable), End(i, PipeReadWait));
    }

    /** A read from the pipe that the descriptor names. */
    method ReadPipe(me: nat, f: nat, count: nat, frame: Frame, ghost i: nat) returns (out: Frame, reply: Reply, data: seq<byte>)
      requires Valid() && me < |procs| && me == cur && procs[me].state == Running && !procs[me].completing
      requires f < |fds[me]| && fds[me][f].Open? && FdOk(fds[me][f]) && fds[me][f].kind == PipeRead
      requires OnPipe(fds[me], f, i) && i < MAX_PIPES && pipes[i].used && IsReadEnd(fds[me][f].handle)
      modifies this`procs, this`pipes, this`cur, this`crowded, this`moves
      ensures Valid() && (reply.Done? || pipes == old(pipes)) && ReadFrom(old(pipes), i, count, reply, pipes, data)
      ensures moves == if reply.Done? then old(moves) + [Took(i, data)] else old(moves)
      ensures crowded == old(crowded) || crowded == CrowdedNow(old(procs), fds, me, End(i, PipeReadWait), old(crowded))
      ensures reply == Err(EAGAIN) && frame != NoFrame ==> Stalls(old(procs), old(cur))
      ensures frame != NoFrame ==> out != NoFrame
    {
      hide Base, Orderly, Exact, AtPipe, RightlyBlocked, PipeOf, IsReadEnd, AtMostOne, CrowdedNow;
      out, data := frame, [];
      var r;
      r, data := PipeReadAt(fds[me][f].handle, count);
      if r != WouldBlock {
        return frame, if r.Moved? then Done(r.n) else Err(EBADF), data;
      }
      AtPipeStuck(procs[me], fds[me], f, count, PipeReadWait, frame, old(pipes), pipes);
      var switched;
      out, switched := BlockOnPipe(me, f, count, PipeReadWait, frame, End(i, PipeReadWait));
      return out, if switched then Switched else Err(EAGAIN), [];
    }

    /** SYS_WRITE on a descriptor of a pipe; `readable` says whether the buffer is. */
    method SysWrite(f: int, data: seq<byte>, readable: bool, frame: Frame) returns (out: Frame, reply: Reply)
      requires Valid() && AtRest(procs)
      modifies this`procs, this`pipes, this`cur, this`crowded, this`moves
      ensures Valid() && CrowdedBound(old(crowded), crowded, old(procs), fds, old(cur), Write(f, data, readable))
      ensures !reply.Done? ==> pipes == old(pipes)
      ensures (moves == old(moves) && EarlyReply(old(SomeoneRuns()), old(TableNow()), f, PipeWrite, |data| > 0 && !readable, reply)) || exists i ::
        && AtPipeEnd(old(SomeoneRuns()), old(TableNow()), f, PipeWrite, |data| > 0 && !readable, i)
        && WrittenTo(old(pipes), i, data, reply, pipes) && (reply.Done? ==> reply.n <= |data|)
        && moves == if reply.Done? then old(moves) + [Gave(i, data[..reply.n])] else old(moves)
      ensures reply == Err(EAGAIN) && frame != NoFrame ==> Stalls(old(procs), old(cur))
      ensures frame != NoFrame ==> out != NoFrame
    {
      hide Base, Orderly, Exact, PipeOf, IsReadEnd, CrowdedNow, CrowdedBound, WrittenTo;
      out := frame;
      BoundSelf(crowded, procs, fds, cur, Write(f, data, readable));
      if |data| > 0 && !readable {
        return frame, Err(EFAULT);
      }
      var me := Current();
      if me < 0 || f < 0 || f >= MAX_FDS || fds[me][f].NoFd? {
        return frame, Err(EBADF);
      }
      FdOfTable(fds, me, f);
      NamedInUse(fds, pipes, files, me, f);
      if fds[me][f].kind == File {
        return frame, FileCall;
      }
      if fds[me][f].kind != PipeWrite {
        return frame, Err(EBADF);
      }
      ghost var i := PipeOf(fds[me][f].handle);
      assert OnPipe(fds[me], f, i) && i < MAX_PIPES;
      assert AtPipeEnd(SomeoneRuns(), TableNow(), f, PipeWrite, |data| > 0 && !readable, i);
      out, reply := WritePipe(me, f, data, frame, i);
      JoinsOnly(old(crowded), crowded, old(procs), fds, me, f, Write(f, data, readable), End(i, PipeWriteWait));
    }

    /** A write to the pipe that the descriptor names. */
    method WritePipe(me: nat, f: nat, data: seq<byte>, frame: Frame, ghost i: nat) returns (out: Frame, reply: Reply)
      requires Valid() && me < |procs| && me == cur && procs[me].state == Running && !procs[me].completing
      requires f < |fds[me]| && fds[me][f].Open? && FdOk(fds[me][f]) && fds[me][f].kind == PipeWrite
      requires OnPipe(fds[me], f, i) && i < MAX_PIPES && pipes[i].used && !IsReadEnd(fds[me][f].handle)
      modifies this`procs, this`pipes, this`cur, this`crowded, this`moves
      ensures Valid() && (reply.Done? || pipes == old(pipes)) && WrittenTo(old(pipes), i, data, reply, pipes)
      ensures reply.Done? ==> reply.n <= |data|
      ensures moves == if reply.Done? then old(moves) + [Gave(i, data[..reply.n])] else old(moves)
      ensures crowded == old(crowded) || crowded == CrowdedNow(old(procs), fds, me, End(i, PipeWriteWait), old(crowded))
      ensures reply == Err(EAGAIN) && frame != NoFrame ==> Stalls(old(procs), old(cur))
      ensures frame != NoFrame ==> out != NoFrame
    {
      hide Base, Orderly, Exact, AtPipe, RightlyBlocked, PipeOf, IsReadEnd, AtMostOne, CrowdedNow;
      out := frame;
      var r := PipeWriteAt(fds[me][f].handle, data);
      if r != WouldBlock {
        return frame, if r.Moved? then Done(r.n) else if r.Broken? then Err(EPIPE) else Err(EBADF);
      }
      AtPipeStuck(procs[me], fds[me], f, |data|, PipeWriteWait, frame, old(pipes), pipes);
      var switched;
      out, switched := BlockOnPipe(me, f, |data|, PipeWriteWait, frame, End(i, PipeWriteWait));
      return out, if switched then Switched else Err(EAGAIN);
    }

    /** process_get_by_pid */
    method GetByPid(pid: nat) returns (i: int)
      ensures i < |procs| && (i >= 0 ==> pid != 0 && InTable(procs, pid, i))
      ensures i < 0 ==> pid == 0 || forall k :: !InTable(procs, pid, k)
    {
      if pid == 0 {
        return -1;
      }
      for k := 0 to |procs|
        invariant forall j :: 0 <= j < k ==> !InTable(procs, pid, j)
      {
        if procs[k].pid == pid && Live(procs[k]) {
          return k;
        }
      }
      return -1;
    }

    /** The children of an exiting process are orphaned. */
    method OrphanChildren(pid: nat)
      modifies this`procs
      ensures |procs| == |old(procs)| && forall k :: 0 <= k < |procs| ==> procs[k] == Orphan(old(procs)[k], pid)
    {
      hide Orphan;
      for i := 0 to |procs|
        invariant |procs| == |old(procs)|
        invariant forall k :: 0 <= k < |procs| ==> procs[k] == if k < i then Orphan(old(procs)[k], pid) else old(procs)[k]
      {
        procs := procs[i := Orphan(procs[i], pid)];
      }
    }

    /** The parent hears of an exit: a signal, and the status if it is waiting for this child. */
    method NotifyParent(me: nat, pa: nat, status: nat)
      requires me < |procs| && pa < |procs| && me != pa
      modifies this`procs
      ensures Notified(old(procs), me, pa, status, procs)
    {
      hide Signalled, Completed, Received;
      procs := procs[pa := Signalled(procs[pa], SIGCHLD)];
      if procs[pa].state == Blocked && procs[pa].waiting && Matches(procs[pa].target, procs[me].pid) {
        procs := procs[pa := Completed(procs[pa], procs[me].pid, status)];
        procs := procs[me := Received(procs[me])];
      }
    }

    /** The exiting process becomes a zombie and its children orphans. */
    method Bury(me: nat, e: Ending)
      requires me < |procs|
      modifies this`procs
      ensures Buried(old(procs), me, e, procs)
    {
      var pid := procs[me].pid;
      hide Zombified, Orphan;
      procs := procs[me := Zombified(procs[me], e)];
      OrphanChildren(pid);
    }

    /** process_mark_exit after the descriptors are closed. */
    method BuryAndNotify(me: nat, e: Ending)
      requires Valid() && me < |procs| && Active(procs[me]) && procs[me].state != Blocked && AllClosed(fds[me])
      modifies this`procs, this`hist
      ensures Valid() && |procs| == |old(procs)|
      ensures exists pa :: ExitStep(old(procs), procs, me, e, pa) && hist == ExitHistory(old(procs), me, e, pa, old(hist))
      ensures Died(old(hist), old(procs)[me].pid, e, hist)
      ensures ExitSignals(old(procs), procs, me) && Calmer(old(procs), procs)
    {
      hide Died, Sound, Purposeful, OneRunning, Emptied, AllClosed, Orderly, Accounted, ExitStep, ExitHistory, Prepared, Calmer, ExitSignals;
      OwnParent(procs, me, nextPid, hist);
      ghost var pa;
      pa := ZombieWithParent(me, e);
      ExitDied(old(procs), procs, me, e, pa, nextPid, hist);
      ExitKeeps(old(procs), procs, me, e, pa, nextPid, hist, cur, fds, pipes, crowded);
      hist := ExitHistory(old(procs), me, e, pa, hist);
    }

    method ZombieWithParent(me: nat, e: Ending) returns (ghost pa: int)
      requires me < |procs| && Prepared(procs, me)
      modifies this`procs
      ensures ExitStep(old(procs), procs, me, e, pa) && Calmer(old(procs), procs) && |procs| == |old(procs)|
      ensures ExitSignals(old(procs), procs, me)
    {
      ghost var p0 := procs;
      var m := procs[me];
      Bury(me, e);
      BuriedKeeps(p0, me, e, procs);
      hide Buried, Received, Signalled, Completed, ExitStep, ExitSignals, Calmer, Orphan, Zombified;
      var i := GetByPid(m.parent);
      if i < 0 || procs[i].state == Zombie {
        NoParentExit(p0, me, e, procs);
        procs := procs[me := Received(procs[me])];
        return -1;
      }
      ghost var p1 := procs;
      var status := if procs[i].isWaitpid then Encoded(if e.sig != 0 then 0 else e.code, e.sig) else e.code;
      NotifyParent(me, i, status);
      ParentExit(p0, me, e, i, p1, status, procs);
      ParentSignals(p0, me, e, i, p1, status, procs);
      return i;
    }

    /** process_mark_exit; `sig` is the signal that ends the process, or 0. */
    method MarkExit(me: nat, code: nat, sig: nat)
      requires Valid() && me < |procs| && procs[me].state != Blocked
      modifies this`procs, this`fds, this`pipes, this`files, this`hist
      ensures Valid() && Actives(procs) == Actives(old(procs)) - {me as int}
      ensures !Active(old(procs)[me]) ==> procs == old(procs) && hist == old(hist)
      ensures Active(old(procs)[me]) ==>
        && procs[me].state == Zombie && procs[me].pid == old(procs)[me].pid && AllClosed(fds[me])
        && procs[me].exitCode == ExitCode(code) && procs[me].killedBy == sig
        && Died(old(hist), old(procs)[me].pid, Ending(ExitCode(code), sig), hist)
        && ExitSignals(old(procs), procs, me) && OnlyRanBefore(old(procs), procs)
    {
      ClosedAll(fds, me);
      hide Base, Orderly, Accounted, ExitStep, Shut, Awake, AllClosed, ExitHistory, ExitSignals, Calmer, Died, OnlyRanBefore, ExitCode;
      if !Active(procs[me]) {
        return;
      }
      CloseSome(me, false, multiset{});
      AwakeActives(old(procs), procs, me);
      ghost var middle := procs;
      BuryAndNotify(me, Ending(ExitCode(code), sig));
      ghost var pa :| ExitStep(middle, procs, me, Ending(ExitCode(code), sig), pa) && hist == ExitHistory(middle, me, Ending(ExitCode(code), sig), pa, old(hist));
      ExitActives(middle, procs, me, Ending(ExitCode(code), sig), pa);
      AwakeSignals(old(procs), middle, procs, me);
      RanBefore(old(procs), middle, procs);
    }

    /** process_mark_exit of the running process, and scheduler_exit_current. */
    method ExitAndSwitch(me: nat, code: nat, sig: nat, frame: Frame) returns (out: Frame)
      requires Valid() && me < |procs| && me == cur && procs[me].state == Running && frame != NoFrame
      modifies this`procs, this`fds, this`pipes, this`files, this`hist, this`cur
      ensures Valid() && Actives(procs) == Actives(old(procs)) - {me as int}
      ensures Died(old(hist), old(procs)[me].pid, Ending(ExitCode(code), sig), hist)
      ensures out == NoFrame ==> Stalls(procs, cur)
      ensures out == NoFrame ==> forall p :: 0 <= p < |procs| ==> procs[p].state != Running
      ensures out != NoFrame ==>
        && 0 <= cur < |procs| == |old(procs)| && cur != me && procs[cur].state == Running && out == old(procs)[cur].frame
        && procs[cur].pending == PendingAfter(old(procs), me, cur)
    {
      hide Stalls, Base, Orderly, Accounted, AllClosed, Halt, Dispatch, ExitSignals, OnlyRanBefore, Died, Actives, ExitCode;
      SoleRunner(procs, me, cur, nextPid, hist, fds);
      MarkExit(me, code, sig);
      ghost var middle := procs;
      ghost var next;
      out, next := StopCurrent(frame, Zombie, false);
      if next < 0 {
        StallsFor(middle, procs, me, -1);
      }
      SwitchKeeps(middle, me, next, frame, nextPid, hist, fds, pipes, crowded);
      NobodyRuns(old(procs), middle, me, frame);
      if next >= 0 {
        DispatchedSignals(old(procs), middle, me, next);
      }
    }

    /** A change to the running process that concerns only itself. */
    method UpdateCurrent(me: nat, p: Proc)
      requires Valid() && me < |procs| && procs[me].state == Running && p.state == Running && Alike(procs[me], p)
      modifies this`procs
      ensures Valid() && procs == old(procs)[me := p] && Actives(procs) == Actives(old(procs))
    {
      procs := procs[me := p];
      UpdateKeeps(old(procs), me, cur, p, nextPid, hist, fds, pipes, crowded);
    }

    /** process_deliver_signals.  Every kill removes an active process and every other round
        clears a pending signal, although a kill raises SIGCHLD elsewhere and switches to
        another process. */
    method DeliverSignals(frame: Frame) returns (out: Frame)
      requires Valid()
      modifies this`procs, this`fds, this`pipes, this`files, this`hist, this`cur
      ensures Valid() && Killed(old(hist), hist)
      ensures Settled(procs, out)
      ensures out == NoFrame ==> Stalls(procs, cur) || (frame == NoFrame && procs == old(procs) && cur == old(cur))
    {
      out := frame;
      KilledSelf(hist);
      while true
        invariant Valid() && Killed(old(hist), hist)
        invariant out == NoFrame ==> Stalls(procs, cur) || (frame == NoFrame && procs == old(procs) && cur == old(cur))
        decreases |Actives(procs)|, PendingOfCurrent(procs, cur)
      {
        hide Base, Orderly, Accounted, Killed, Actives, Stalls, Settled;
        var more;
        ghost var before := hist;
        out, more := DeliverOne(out);
        KilledTrans(old(hist), before, hist);
        if !more {
          return;
        }
      }
    }

    /** One round of the loop of process_deliver_signals. */
    method DeliverOne(frame: Frame) returns (out: Frame, more: bool)
      requires Valid()
      modifies this`procs, this`fds, this`pipes, this`files, this`hist, this`cur
      ensures Valid() && Killed(old(hist), hist)
      ensures !more ==> out == frame && Settled(procs, frame)
      ensures more ==>
        || |Actives(procs)| < |Actives(old(procs))|
        || (|Actives(procs)| == |Actives(old(procs))| && PendingOfCurrent(procs, cur) < PendingOfCurrent(old(procs), old(cur)))
      ensures !more ==> procs == old(procs) && cur == old(cur)
      ensures more && out == NoFrame ==> Stalls(procs, cur)
    {
      hide Stalls, Sound, Purposeful, OneRunning, Emptied, Orderly, Accounted, Killed;
      KilledSelf(hist);
      var me := Current();
      if me < 0 || frame != UserFrame {
        return frame, false;
      }
      var p := procs[me];
      if SIGKILL in p.pending || SIGTERM in p.pending {
        out := KillCurrent(me, if SIGKILL in p.pending then SIGKILL else SIGTERM, frame);
        return out, true;
      }
      if SIGCHLD in p.pending {
        ClearedAlike(p, SIGCHLD);
        FewerPending(p, SIGCHLD);
        hide Cleared, Alike;
        UpdateCurrent(me, Cleared(p, SIGCHLD));
        return frame, true;
      }
      SettledWhen(procs, me, frame);
      return frame, false;
    }

    /** The running process ends by a signal. */
    method KillCurrent(me: nat, sig: nat, frame: Frame) returns (out: Frame)
      requires Valid() && me < |procs| && me == cur && procs[me].state == Running && frame == UserFrame
      requires sig in procs[me].pending && sig == if SIGKILL in procs[me].pending then SIGKILL else SIGTERM
      modifies this`procs, this`fds, this`pipes, this`files, this`hist, this`cur
      ensures Valid() && |Actives(procs)| < |Actives(old(procs))|
      ensures Died(old(hist), old(procs)[me].pid, Ending(0, sig), hist) && Killed(old(hist), hist)
      ensures out == NoFrame ==> Stalls(procs, cur)
    {
      hide Sound, Purposeful, OneRunning, Emptied, Orderly, Accounted, Actives, Died, Killed;
      PendingSent(procs, me, nextPid, hist);
      FewerActives(procs, me);
      out := ExitAndSwitch(me, 0, sig, frame);
      DiedKilled(old(hist), old(procs)[me].pid, sig, hist);
    }

    /** SYS_KILL */
    method SysKill(pid: nat, sig: nat) returns (reply: Reply)
      requires Valid()
      modifies this`procs, this`hist
      ensures Valid() && Actives(procs) == Actives(old(procs))
      ensures hist == if reply.Done? then Send(old(hist), pid, sig) else old(hist)
      ensures reply.Done? <==> (sig in {SIGKILL, SIGTERM, SIGCHLD} && exists i :: InTable(old(procs), pid, i) && Active(old(procs)[i]))
      ensures !reply.Done? ==> procs == old(procs)
      ensures forall i :: reply.Done? && InTable(old(procs), pid, i) ==>
        procs == old(procs)[i := old(procs)[i].(pending := old(procs)[i].pending + {sig})]
    {
      hide Sound, Purposeful, OneRunning, Emptied, Orderly, Accounted, Send, Actives;
      var i := GetByPid(pid);
      UniquePid(procs, pid, nextPid, hist);
      if i < 0 {
        return Err(ESRCH);
      }
      if sig == 0 || sig >= 32 {
        return Err(EINVAL);
      }
      if (sig != SIGKILL && sig != SIGTERM && sig != SIGCHLD) || !Active(procs[i]) {
        return Err(ESRCH);
      }
      procs := procs[i := Signalled(procs[i], sig)];
      SignalKeeps(old(procs), i, cur, sig, nextPid, hist, fds, pipes, crowded);
      hist := Send(hist, pid, sig);
      return Done(0);
    }

    /** process_destroy of a zombie that nobody will ask for. */
    method Destroy(i: nat)
      requires Valid() && i < |procs| && procs[i].state == Zombie && procs[i].waited
      modifies this`procs, this`fds, this`pipes, this`files
      ensures Valid() && procs == old(procs)[i := Blank] && fds == old(fds) && pipes == old(pipes) && files == old(files)
    {
      ClosedShut(procs, fds, i);
      CloseSome(i, false, multiset{});
      Restored(fds, old(pipes), old(files), pipes, files);
      hide Orderly, Accounted, AllClosed, Shut, Blank;
      procs := procs[i := Blank];
      DestroyKeeps(old(procs), i, cur, nextPid, hist, fds, pipes, crowded);
    }

    /** A parent receives the status of an exited child, which then leaves the table. */
    method Reap(child: nat, ghost posix: bool)
      requires Valid() && child < |procs| && procs[child].state == Zombie && !procs[child].waited
      modifies this`procs, this`fds, this`pipes, this`files, this`hist
      ensures Valid() && hist == HandNow(old(hist), ReportFor(old(procs)[child], posix))
      ensures procs == old(procs)[child := Blank] && fds == old(fds) && pipes == old(pipes) && files == old(files)
    {
      hide Sound, Purposeful, OneRunning, Emptied, Orderly, Accounted, Received, ReportFor, HandNow, Blank;
      ReceiveKeeps(procs, child, posix, cur, nextPid, hist, fds, pipes, crowded);
      hist := HandNow(hist, ReportFor(procs[child], posix));
      procs := procs[child := Received(procs[child])];
      Destroy(child);
    }

    /** process_find_exited_child_by_pid */
    method FindExited(parent: nat, target: nat) returns (i: int)
      requires Valid()
      ensures i < |procs|
      ensures i >= 0 ==> Unreported(procs[i], parent) && Matches(target, procs[i].pid) && parent != 0 && procs[i].pid != 0
      ensures i < 0 ==> parent == 0 || forall k :: 0 <= k < |procs| && Unreported(procs[k], parent) ==> !Matches(target, procs[k].pid)
    {
      AllExited(procs, nextPid, hist);
      hide Base, Orderly, Accounted;
      if parent == 0 {
        return -1;
      }
      for k := 0 to |procs|
        invariant forall j :: 0 <= j < k && Unreported(procs[j], parent) ==> !Matches(target, procs[j].pid)
      {
        if procs[k].pid != 0 && procs[k].parent == parent && procs[k].state == Zombie && procs[k].exited && !procs[k].waited {
          if target == ANY || procs[k].pid == target {
            return k;
          }
        }
      }
      return -1;
    }

    /** process_begin_waitpid, scheduler_block_current and, if nobody else can run, process_cancel_wait. */
    method BlockOnWait(me: nat, target: nat, wantsStatus: bool, posix: bool, frame: Frame, ghost child: nat) returns (out: Frame, switched: bool)
      requires Valid() && me < |procs| && me == cur && procs[me].state == Running && !procs[me].completing && frame != NoFrame
      requires forall k :: 0 <= k < |procs| && Unreported(procs[k], procs[me].pid) ==> !Matches(target, procs[k].pid)
      requires child != me && child < |procs| && Active(procs[child]) && procs[child].parent == procs[me].pid && Matches(target, procs[child].pid)
      modifies this`procs, this`cur, this`hist
      ensures Valid() && switched == (cur != me)
      ensures hist == if switched then Asks(old(hist), old(procs)[me].pid, Ask(target, wantsStatus, posix)) else old(hist)
      ensures switched ==> procs[me] == Halt(WaitBegun(old(procs)[me], target, wantsStatus, posix), frame, Blocked)
      ensures !switched ==> procs == old(procs)[me := procs[me]] && procs[me].state == Running && out == frame
      ensures !switched ==> Stalls(old(procs), me)
      ensures out != NoFrame
    {
      hide Base, Orderly, Accounted, Halt, WaitBegun, WaitCancelled, Dispatch, Asks;
      ghost var before := procs;
      procs := procs[me := WaitBegun(procs[me], target, wantsStatus, posix)];
      StallsFor(before, procs, me, -1);
      ghost var next;
      out, next := StopCurrent(frame, Blocked, true);
      if cur == me {
        procs := procs[me := WaitCancelled(procs[me])];
        assert procs == before[me := WaitCancelled(Halt(WaitBegun(before[me], target, wantsStatus, posix), frame, Running))];
        CancelKeeps(before, me, target, wantsStatus, posix, frame, nextPid, hist, fds, pipes, crowded);
        return out, false;
      }
      assert procs == before[me := Halt(WaitBegun(before[me], target, wantsStatus, posix), frame, Blocked)][next := Dispatch(before[next])];
      WaitKeeps(before, me, target, wantsStatus, posix, frame, next, child, nextPid, hist, fds, pipes, crowded);
      hist := Asks(hist, before[me].pid, Ask(target, wantsStatus, posix));
      return out, true;
    }

    /** process_has_child_by_pid */
    method FindChild(parent: nat, target: nat) returns (i: int)
      ensures i < |procs|
      ensures i >= 0 ==> parent != 0 && Live(procs[i]) && procs[i].parent == parent && !procs[i].waited && Matches(target, procs[i].pid)
      ensures i < 0 ==> parent == 0 || forall k :: 0 <= k < |procs| && Live(procs[k]) && procs[k].parent == parent && !procs[k].waited ==> !Matches(target, procs[k].pid)
    {
      if parent == 0 {
        return -1;
      }
      for k := 0 to |procs|
        invariant forall j :: 0 <= j < k && Live(procs[j]) && procs[j].parent == parent && !procs[j].waited ==> !Matches(target, procs[j].pid)
      {
        if Live(procs[k]) && procs[k].parent == parent && !procs[k].waited && (target == ANY || procs[k].pid == target) {
          return k;
        }
      }
      return -1;
    }

    /** SYS_WAIT; `writable` says whether the status pointer is. */
    method SysWait(wantsStatus: bool, writable: bool, frame: Frame) returns (out: Frame, reply: Reply, status: nat)
      requires Valid() && Clean(procs) && AtRest(procs)
      modifies this`procs, this`fds, this`pipes, this`files, this`hist, this`cur
      ensures Valid() && hist == CallHistory(old(hist), Wait(wantsStatus, writable), PidAt(old(procs), old(cur)), reply, status)
      ensures reply == Err(EFAULT) <==> old(SomeoneRuns()) && wantsStatus && !writable
      ensures reply == Err(ECHILD) <==> old(SomeoneRuns()) && !(wantsStatus && !writable) && NoChild(old(procs), PidAt(old(procs), old(cur)), ANY)
      ensures reply.Done? ==> exists i :: ReturnedAt(old(procs), PidAt(old(procs), old(cur)), i, reply.n, status, false)
      ensures !old(SomeoneRuns()) ==> reply == Err(EINVAL)
      ensures old(SomeoneRuns()) && !(wantsStatus && !writable) && frame != NoFrame ==>
        WaitReply(old(procs), old(cur), PidAt(old(procs), old(cur)), ANY, false, false, reply)
      ensures frame != NoFrame ==> out != NoFrame
    {
      hide FlowOk, Sound, Purposeful, OneRunning, Emptied, Orderly, Accounted, ReportFor, HandNow, Asks, Blank, WaitReply, Stalls;
      out, status := frame, 0;
      var me := Current();
      if me < 0 {
        return frame, Err(EINVAL), 0;
      }
      OwnPid(procs, me, nextPid, hist);
      if wantsStatus && !writable {
        return frame, Err(EFAULT), 0;
      }
      var child := FindExited(procs[me].pid, ANY);
      if child >= 0 {
        WaitGives(procs, me, procs[me].pid, ANY, false, false, child);
        status := procs[child].exitCode;
        var pid := procs[child].pid;
        PlainReport(procs[child]);
        Returns(procs, procs[me].pid, child, status, false);
        Reap(child, false);
        return frame, Done(pid), status;
      }
      WaitNone(procs, me, procs[me].pid, ANY, false, false);
      child := FindChild(procs[me].pid, ANY);
      if child < 0 {
        return frame, Err(ECHILD), 0;
      }
      if frame == NoFrame {
        return frame, Err(EAGAIN), 0;
      }
      assert Unreported(procs[child], procs[me].pid) || Active(procs[child]);
      var switched;
      out, switched := BlockOnWait(me, ANY, wantsStatus, false, frame, child);
      return out, if switched then Switched else Err(EAGAIN), 0;
    }

    /** The check of SYS_WAITPID that a matching child exists. */
    method SomeChild(me: nat, target: nat) returns (child: int)
      requires Valid() && Clean(procs) && me < |procs| && procs[me].state == Running
      ensures child < |procs| && (child < 0 <==> NoChild(procs, procs[me].pid, target))
      ensures child >= 0 ==> child != me && procs[child].parent == procs[me].pid && Matches(target, procs[child].pid)
      ensures child >= 0 ==> Unreported(procs[child], procs[me].pid) || Active(procs[child])
    {
      hide FlowOk, Sound, Purposeful, OneRunning, Emptied, Orderly, Accounted;
      OwnPid(procs, me, nextPid, hist);
      UniquePid(procs, target, nextPid, hist);
      if target == ANY {
        child := FindChild(procs[me].pid, ANY);
        return;
      }
      child := GetByPid(target);
      assert forall i :: 0 <= i < |procs| && Live(procs[i]) && procs[i].pid == target ==> InTable(procs, target, i);
      if child >= 0 && procs[child].parent != procs[me].pid {
        child := -1;
      }
    }

    /** SYS_WAITPID; `copies` says whether the status reaches the caller's memory. */
    method SysWaitpid(target: nat, wantsStatus: bool, writable: bool, copies: bool, options: nat, frame: Frame)
      returns (out: Frame, reply: Reply, status: nat)
      requires Valid() && Clean(procs) && AtRest(procs)
      modifies this`procs, this`fds, this`pipes, this`files, this`hist, this`cur
      ensures Valid()
      ensures hist == CallHistory(old(hist), Waitpid(target, wantsStatus, writable, copies, options), PidAt(old(procs), old(cur)), reply, status)
      ensures reply == Err(ECHILD) <==>
        old(SomeoneRuns()) && options <= 1 && !(wantsStatus && !writable) && NoChild(old(procs), PidAt(old(procs), old(cur)), target)
      ensures reply.Done? && reply.n != 0 ==> (target == 0xFFFF_FFFF || target == reply.n) && exists i ::
        ReturnedAt(old(procs), PidAt(old(procs), old(cur)), i, reply.n, status, true)
      ensures !old(SomeoneRuns()) || options > 1 ==> reply == Err(EINVAL)
      ensures old(SomeoneRuns()) && options <= 1 && wantsStatus && !writable ==> reply == Err(EFAULT)
      ensures old(SomeoneRuns()) && options <= 1 && !(wantsStatus && !writable) && frame != NoFrame ==>
        WaitReply(old(procs), old(cur), PidAt(old(procs), old(cur)), target, wantsStatus && !copies, options == 1, reply)
      ensures frame != NoFrame ==> out != NoFrame
    {
      hide NoChild, Tells, Encoded, ReturnedAt, FlowOk, Sound, Purposeful, OneRunning, Emptied, Orderly, Accounted, ReportFor, HandNow, Asks, Blank, WaitReply, Stalls;
      out, status := frame, 0;
      var me := Current();
      if me < 0 || options > 1 {
        return frame, Err(EINVAL), 0;
      }
      OwnPid(procs, me, nextPid, hist);
      if wantsStatus && !writable {
        return frame, Err(EFAULT), 0;
      }
      var child := FindExited(procs[me].pid, target);
      if child >= 0 {
        WaitGives(procs, me, procs[me].pid, target, wantsStatus && !copies, options == 1, child);
        status := if procs[child].killedBy != 0 then Encoded(0, procs[child].killedBy) else Encoded(procs[child].exitCode, 0);
        if wantsStatus && !copies {
          return frame, Err(EFAULT), 0;
        }
        var pid := procs[child].pid;
        PlainReport(procs[child]);
        Returns(procs, procs[me].pid, child, status, true);
        Reap(child, true);
        return frame, Done(pid), status;
      }
      WaitNone(procs, me, procs[me].pid, target, wantsStatus && !copies, options == 1);
      child := SomeChild(me, target);
      if child < 0 {
        return frame, Err(ECHILD), 0;
      }
      if options == 1 {
        return frame, Done(0), 0;
      }
      if frame == NoFrame {
        return frame, Err(EAGAIN), 0;
      }
      var switched;
      out, switched := BlockOnWait(me, target, wantsStatus, true, frame, child);
      return out, if switched then Switched else Err(EAGAIN), 0;
    }

    /** process_complete_pipe_io: the call that blocked is made once more, now that the process runs again. */
    method CompletePipeIo(me: nat) returns (r: Result, data: seq<byte>)
      requires Valid() && me < |procs| && me == cur && procs[me].state == Running && !procs[me].completing
      modifies this`procs, this`pipes, this`moves
      ensures Valid() && Awake(old(procs)[me := procs[me]], procs) && SameRun(old(procs)[me], procs[me])
      ensures !PipeReason(procs[me].reason) && !procs[me].completing
      ensures !PipeReason(old(procs)[me].reason) ==> procs == old(procs) && pipes == old(pipes) && moves == old(moves)
      ensures PipeReason(old(procs)[me].reason) ==>
        Retried(old(procs)[me], fds[me], old(pipes), pipes, r, data) && procs[me] == Unblocked(old(procs)[me], r)
      ensures PipeReason(old(procs)[me].reason) ==> Again(old(procs)[me], fds, r, data, old(moves), moves)
    {
      AwakeSelf(procs);
      var p := procs[me];
      assert procs[me := p] == procs;
      r, data := BadHandle, [];
      if !PipeReason(p.reason) {
        return;
      }
      r, data := Retry(me);
      AwakeOne(old(procs), procs, me);
      NoLongerBlocked(procs, me, nextPid, hist, r);
      hide Base, Orderly, Accounted, Unblocked, Awake, SameRun, Alike, Retried;
      ghost var woken := procs;
      UpdateCurrent(me, Unblocked(procs[me], r));
      AwakeElsewhere(old(procs), woken, me, procs[me]);
    }

    /** The read or write of a process that was woken. */
    method Retry(me: nat) returns (r: Result, data: seq<byte>)
      requires Valid() && me < |procs| && procs[me].state == Running && PipeReason(procs[me].reason)
      modifies this`procs, this`pipes, this`moves
      ensures Valid() && Awake(old(procs), procs) && Retried(old(procs)[me], fds[me], old(pipes), pipes, r, data)
      ensures Again(old(procs)[me], fds, r, data, old(moves), moves)
    {
      AwakeSelf(procs);
      hide Sound, Purposeful, OneRunning, Emptied, Orderly, Exact, Awake, PipeOf, IsReadEnd, ReadResult, WriteResult, AfterRead, AfterWrite, MoveRight, FlowOk;
      var p := procs[me];
      r, data := BadHandle, [];
      var f := p.blockedFd;
      AskingSome(procs, me, nextPid, hist);
      if 0 <= f < |fds[me]| && fds[me][f].Open? {
        NamedInUse(fds, pipes, files, me, f);
        if p.reason == PipeReadWait && fds[me][f].kind == PipeRead {
          RetriedRight(fds, pipes, files, moves, PipeOf(fds[me][f].handle), p.blockedCount, []);
          r, data := PipeReadAt(fds[me][f].handle, p.blockedCount);
        } else if p.reason == PipeWriteWait && fds[me][f].kind == PipeWrite {
          data := UserBytes(p.blockedCount);
          RetriedRight(fds, pipes, files, moves, PipeOf(fds[me][f].handle), p.blockedCount, data);
          r := PipeWriteAt(fds[me][f].handle, data);
        }
      }
    }

    /** The bytes at the caller's buffer, whatever they are by now. */
    method UserBytes(count: nat) returns (data: seq<byte>)
      ensures |data| == count
    {
      data := seq(count, _ => 0);
      for i := 0 to count
        invariant |data| == count
      {
        var b: byte := *;
        data := data[i := b];
      }
    }

    /** process_complete_context_switch, before the processor returns from an interrupt.  `written`
        is the status that is copied to the program, if it wanted one; `r` and `data` tell how a
        read or write that had blocked ends. */
    method CompleteContextSwitch(copies: bool) returns (written: seq<nat>, r: Result, data: seq<byte>)
      requires Valid()
      modifies this`procs, this`fds, this`pipes, this`files, this`hist, this`moves
      ensures Valid() && Clean(procs) && AtRest(procs)
      ensures forall frame :: Settled(procs, frame) <==> Settled(old(procs), frame)
      ensures Delivered(procs, cur, old(hist), copies, hist, written)
      ensures fds == old(fds) && files == old(files)
      ensures if old(SomeoneRuns()) && PipeReason(old(procs)[cur].reason)
              then Retried(old(procs)[cur], fds[cur], old(pipes), pipes, r, data) && procs[cur] == Unblocked(old(procs)[cur], r)
              else pipes == old(pipes)
      ensures Resupplied(procs, cur, fds, data, old(moves), moves)
    {
      hide Sound, Purposeful, OneRunning, Emptied, Orderly, Accounted, Awake, Swept, Delivered, Settled, AtRest, Clean, HandedOver, Retried, Unblocked;
      written, r, data := [], BadHandle, [];
      var me := Current();
      ghost var before := procs;
      if me < 0 {
        NothingToHand(procs, cur, hist, copies);
        BuryTheDead(me);
        HandedStays(before, cur, old(hist), copies, before, procs, hist, written);
        HandedDelivered(before, cur, nextPid, old(hist), copies, procs, hist, written);
        return;
      }
      ReasonOrWait(procs, me, nextPid, hist);
      written := HandStatus(me, copies);
      ghost var middle := procs;
      r, data := CompletePipeIo(me);
      RunsSettled(before, middle, procs, me);
      RunsAtRest(procs, me, cur);
      HandedKept(before, middle, procs, me, cur, old(hist), copies, hist, written);
      ghost var calm := procs;
      BuryTheDead(me);
      HandedStays(before, cur, old(hist), copies, calm, procs, hist, written);
      SweptRuns(calm, procs, me);
      if PipeReason(before[me].reason) {
        AgainSupplied(before[me], fds, r, data, old(moves), moves, procs, cur);
      }
      HandedDelivered(before, cur, nextPid, old(hist), copies, procs, hist, written);
    }

    /** The wait of the running process, if it was woken from one, is completed. */
    method HandStatus(me: nat, copies: bool) returns (written: seq<nat>)
      requires Valid() && me < |procs| && me == cur && procs[me].state == Running
      modifies this`procs, this`hist
      ensures Valid() && |procs| == |old(procs)| && procs == old(procs)[me := procs[me]] && !procs[me].completing
      ensures SameRun(old(procs)[me], procs[me])
      ensures !old(procs)[me].completing ==> procs == old(procs)
      ensures old(procs)[me].completing ==> procs[me] == StatusCopied(old(procs)[me], copies) && !PipeReason(procs[me].reason)
      ensures HandedOver(old(procs), cur, old(hist), copies, procs, hist, written)
    {
      hide Base, Orderly, Accounted, StatusCopied, SameRun, Hand, Underway;
      written := [];
      var p := procs[me];
      if !p.completing {
        SameRunSelf(p);
        assert procs == procs[me := p];
        return;
      }
      HandKeeps(procs, me, cur, nextPid, hist, fds, pipes, crowded, copies);
      StatusCopiedFacts(p, copies);
      if p.wantsStatus && copies {
        written := [p.result];
      }
      hist := Hand(hist, ReportOf(p), Reaches(p, copies));
      procs := procs[me := StatusCopied(p, copies)];
    }

    /** The sweep over the zombies. */
    method BuryTheDead(me: int)
      requires Valid() && me < |procs| && (me >= 0 ==> procs[me].state == Running)
      modifies this`procs, this`fds, this`pipes, this`files
      ensures Valid() && Clean(procs) && Swept(old(procs), procs, |procs|)
      ensures fds == old(fds) && pipes == old(pipes) && files == old(files)
      ensures forall frame :: Settled(procs, frame) <==> Settled(old(procs), frame)
      ensures AtRest(old(procs)) ==> AtRest(procs)
    {
      SweptNone(procs);
      for i := 0 to MAX_PROCESSES
        invariant Valid() && Swept(old(procs), procs, i) && fds == old(fds) && pipes == old(pipes) && files == old(files)
      {
        hide Base, Orderly, Accounted, Blank, Swept;
        ghost var before := procs;
        BuryOne(me, i);
        SweptMore(old(procs), before, procs, i, me);
      }
      SweptClean(old(procs), procs);
    }

    method BuryOne(me: int, i: nat)
      requires Valid() && i < |procs|
      modifies this`procs, this`fds, this`pipes, this`files
      ensures Valid() && (procs == old(procs) || (old(procs)[i].state == Zombie && procs == old(procs)[i := Blank]))
      ensures fds == old(fds) && pipes == old(pipes) && files == old(files)
      ensures procs[i].state == Zombie && i != me ==> !procs[i].waited
    {
      hide Sound, Purposeful, OneRunning, Emptied, Orderly, Accounted, Blank;
      WaitedIff(procs, i, nextPid, hist);
      UniquePid(procs, procs[i].parent, nextPid, hist);
      if i == me || procs[i].state != Zombie {
        return;
      }
      var parent := GetByPid(procs[i].parent);
      if procs[i].waited || procs[i].parent == 0 || parent < 0 || procs[parent].state == Zombie {
        Destroy(i);
        BlankDead();
      }
    }

    /** SYS_FORK and process_fork; `fails` says that a stack or an address space is not to be had. */
    method SysFork(frame: Frame, fails: bool) returns (reply: Reply)
      requires Valid()
      modifies this`procs, this`nextPid, this`fds, this`pipes, this`files, this`hist
      ensures Valid() && hist == CallHistory(old(hist), Fork(fails), PidAt(old(procs), old(cur)), reply, 0)
      ensures reply.Done? ==> reply.n !in old(hist).born
      ensures !reply.Done? ==> procs == old(procs) && fds == old(fds) && pipes == old(pipes) && files == old(files) && hist == old(hist)
      ensures reply.Done? ==> SomeoneRuns() && frame == UserFrame && !fails
      ensures !reply.Done? ==> !SomeoneRuns() || frame != UserFrame || fails || Saturated(fds) || Full(procs)
      ensures reply.Done? ==> 0 <= cur < |procs| && reply.n == old(nextPid) && exists i ::
        && 0 <= i < |procs| && old(procs)[i].state == Dead && i != cur
        && procs == old(procs)[i := ChildOf(old(procs)[cur], old(nextPid))] && fds == old(fds)[i := old(fds)[cur]]
        && hist == Birth(old(hist), old(nextPid), old(procs)[cur].pid) && Drained(old(pipes), pipes)
    {
      hide FlowOk, Sound, Purposeful, OneRunning, Emptied, Orderly, Accounted, ChildOf, Birth, AllClosed, Blank, Saturated;
      NewPid(procs, nextPid, hist);
      var me := Current();
      if me < 0 || frame != UserFrame || fails {
        return if me < 0 || frame == NoFrame then Err(EINVAL) else Err(ENOMEM);
      }
      var i := FreeSlot();
      if i < 0 {
        return Err(ENOMEM);
      }
      ChildKeeps(procs, i, me, cur, nextPid, hist, fds, pipes, crowded);
      FreeIsBlank(procs, i, nextPid, hist);
      procs := procs[i := ChildOf(procs[me], nextPid)];
      hist := Birth(hist, nextPid, procs[me].pid);
      nextPid := nextPid + 1;
      var ok := Inherit(i, me);
      if !ok {
        procs := procs[i := Blank];
        hist := old(hist);
        assert procs == old(procs);
        LaterPid(procs, cur, old(nextPid), hist, fds);
        return Err(ENOMEM);
      }
      return Done(nextPid - 1);
    }

    method FreeSlot() returns (i: int)
      ensures i < |procs| && (i >= 0 ==> procs[i].state == Dead)
      ensures i < 0 ==> Full(procs)
    {
      for k := 0 to |procs|
        invariant forall j :: 0 <= j < k ==> procs[j].state != Dead
      {
        if procs[k].state == Dead {
          return k;
        }
      }
      return -1;
    }

    /** scheduler_preempt: the timer may give the processor to a ready process. */
    method Tick(frame: Frame) returns (out: Frame, ghost next: int)
      requires Valid()
      modifies this`procs, this`cur
      ensures Valid() && next < |procs| == |old(procs)|
      ensures next < 0 ==> out == frame && procs == old(procs) && cur == old(cur)
      ensures next >= 0 ==>
        && old(procs)[next].state == Ready && out == old(procs)[next].frame != NoFrame && cur == next
        && procs == Preempted(old(procs), old(cur), frame)[next := Dispatch(old(procs)[next])]
        && procs[next] == old(procs)[next].(state := Running)
        && (forall i :: 0 <= i < |procs| && i != next && i != old(cur) ==> procs[i] == old(procs)[i])
        && (0 <= old(cur) < |procs| && old(procs)[old(cur)].state == Running ==>
              old(cur) != next && procs[old(cur)] == old(procs)[old(cur)].(state := Ready, frame := frame))
      ensures frame != NoFrame ==> out != NoFrame
    {
      hide Sound, Purposeful, OneRunning, Emptied, Orderly, Accounted;
      var choice: int := *;
      if frame == NoFrame || choice < 0 || choice >= |procs| || choice == cur || procs[choice].state != Ready || procs[choice].frame == NoFrame {
        return frame, -1;
      }
      if 0 <= cur < |procs| && procs[cur].frame == NoFrame {
        return frame, -1;
      }
      PreemptKeeps(procs, cur, choice, frame, nextPid, hist, fds, pipes, crowded);
      procs := Preempted(procs, cur, frame);
      procs := procs[choice := Dispatch(procs[choice])];
      cur := choice;
      return procs[choice].frame, choice;
    }

    /** What the kernel does for a system call, a fault or a tick, up to the frame to resume. */
    method Serve(e: Event, frame: Frame) returns (out: Frame, reply: Reply, status: nat, data: seq<byte>)
      requires Valid() && Clean(procs) && AtRest(procs) && frame != NoFrame
      modifies this
      ensures Valid() && CrowdedBound(old(crowded), crowded, old(procs), old(fds), old(cur), e)
      ensures Called(old(hist), old(procs), old(cur), e, reply, status, out == NoFrame, hist)
      ensures Supplied(old(Now()), e, reply, data, moves)
      ensures Replied(old(Now()), e, reply)
      ensures out == NoFrame && !e.Fault? ==> Stalls(procs, cur)
      ensures e.Fault? ==> FaultServed(e, frame, old(procs), old(cur), out, procs, cur)
    {
      hide Stalls, WaitReply, Inv, Clean, AtRest, CrowdedBound, Died, FaultServed, HandNow, Asks, Send, Birth, PidAt, ExitCode, Supplied;
      out, reply, status, data := frame, Done(0), 0, [];
      BoundSelf(crowded, procs, fds, cur, e);
      NoSupply(Now(), e, data);
      match e
      case Exit(code) =>
        out := EndCurrent(code, frame);
      case Fault(fatal, code) =>
        out := PageFault(fatal, code, frame);
      case Wait(wantsStatus, writable) =>
        out, reply, status := SysWait(wantsStatus, writable, frame);
      case Waitpid(target, wantsStatus, writable, copies, options) =>
        out, reply, status := SysWaitpid(target, wantsStatus, writable, copies, options, frame);
      case Fork(fails) =>
        reply := SysFork(frame, fails);
      case Kill(pid, sig) =>
        reply := SysKill(pid, sig);
      case OpenFile(fails, cloexec) =>
        var _ := SysOpen(fails, cloexec);
      case Close(f) =>
        OwnDescriptors(false, f);
      case Exec =>
        OwnDescriptors(true, 0);
      case MakePipe(copied) =>
        out, reply, data := ServePipe(e, frame);
      case Read(f, count, writable) =>
        out, reply, data := ServePipe(e, frame);
      case Write(f, bytes, readable) =>
        out, reply, data := ServePipe(e, frame);
      case Timer =>
        ghost var next;
        out, next := Tick(frame);
    }

    /** SYS_PIPE, SYS_READ and SYS_WRITE. */
    method ServePipe(e: Event, frame: Frame) returns (out: Frame, reply: Reply, data: seq<byte>)
      requires Valid() && AtRest(procs) && frame != NoFrame && (e.MakePipe? || e.Read? || e.Write?)
      modifies this`procs, this`fds, this`pipes, this`files, this`cur, this`crowded, this`moves
      ensures Valid() && CrowdedBound(old(crowded), crowded, old(procs), old(fds), old(cur), e)
      ensures Supplied(old(Now()), e, reply, data, moves) && out != NoFrame
    {
      hide Base, Orderly, Accounted, FlowOk, AtRest, CrowdedBound, AtPipeEnd, ReadResult, AfterRead, WrittenTo, ReadAnswer, WriteAnswer;
      BoundSelf(crowded, procs, fds, cur, e);
      out, reply, data := frame, Done(0), [];
      if e.MakePipe? {
        var _, _, _ := SysPipe(e.copied);
      } else if e.Read? {
        out, reply, data := SysRead(e.f, e.count, e.writable, frame);
        ReadsAnswered(old(Now()), old(pipes), files, e.f, e.count, e.count > 0 && !e.writable, reply, pipes, data);
      } else {
        out, reply := SysWrite(e.f, e.data, e.readable, frame);
        WritesAnswered(old(Now()), old(pipes), files, e.f, e.data, |e.data| > 0 && !e.readable, reply, pipes);
      }
    }

    /** SYS_EXIT */
    method EndCurrent(code: nat, frame: Frame) returns (out: Frame)
      requires Valid() && frame != NoFrame
      modifies this`procs, this`fds, this`pipes, this`files, this`hist, this`cur
      ensures Valid()
      ensures if RunsAt(old(procs), old(cur)) then Died(old(hist), PidAt(old(procs), old(cur)), Ending(ExitCode(code), 0), hist) else hist == old(hist)
      ensures out == NoFrame ==> Stalls(procs, cur)
    {
      hide Base, Orderly, Accounted, Died, ExitCode;
      out := frame;
      var me := Current();
      if me >= 0 {
        out := ExitAndSwitch(me, code, 0, frame);
      }
    }

    /** page_fault_dispatch: a fault of a user program is handled by the memory subsystem, or ends
        the program; a fault of the kernel itself stops the machine. */
    method PageFault(fatal: bool, code: nat, frame: Frame) returns (out: Frame)
      requires Valid() && frame != NoFrame
      modifies this`procs, this`fds, this`pipes, this`files, this`hist, this`cur
      ensures Valid()
      ensures if fatal && frame == UserFrame && RunsAt(old(procs), old(cur))
              then Died(old(hist), PidAt(old(procs), old(cur)), Ending(ExitCode(code), 0), hist) else hist == old(hist)
      ensures fatal && (frame != UserFrame || !RunsAt(old(procs), old(cur))) ==> out == NoFrame
      ensures FaultServed(Fault(fatal, code), frame, old(procs), old(cur), out, procs, cur)
    {
      hide Sound, Purposeful, Emptied, Orderly, Accounted, Died, PendingAfter, ExitCode;
      if frame != UserFrame {
        return NoFrame;
      }
      if !fatal {
        return frame;
      }
      var me := Current();
      if me < 0 {
        return NoFrame;
      }
      out := ExitAndSwitch(me, code, 0, frame);
    }

    /** SYS_CLOSE, or the descriptors that a successful exec closes. */
    method OwnDescriptors(exec: bool, f: int)
      requires Valid()
      modifies this`procs, this`fds, this`pipes, this`files
      ensures Valid()
    {
      hide Base, Orderly, Accounted;
      var me := Current();
      if me >= 0 {
        if exec {
          CloseSome(me, true, multiset{});
        } else {
          var _ := FdClose(me, f, multiset{});
        }
      }
    }

    ghost function Now(): Snapshot
      reads this
    {
      Snapshot(procs, cur, fds, hist, crowded, moves)
    }

    /** An interrupt from beginning to end: the call, pending signals unless it was a fault, and the
        work that is due before the processor returns.  Without a frame to resume the machine
        halts.  `called` and `due` are the records after the call and before the work that is due;
        `written` is the status that is copied to the program then.  `data` are the bytes that the
        call read and `later` those of a read that had blocked; `moved` is what had gone through the
        pipes in between. */
    method Interrupt(e: Event, frame: Frame, copies: bool) returns (out: Frame, reply: Reply, status: nat, data: seq<byte>, written: seq<nat>, later: seq<byte>, ghost called: History, ghost due: History, ghost moved: seq<Move>)
      requires Valid() && Clean(procs) && AtRest(procs) && frame != NoFrame
      modifies this
      ensures Valid() && CrowdedBound(old(crowded), crowded, old(procs), old(fds), old(cur), e)
      ensures Recorded(old(Now()), Step(e, copies), out != NoFrame, Now(), reply, status, called, due, written)
      ensures Flowed(old(Now()), Step(e, copies), out != NoFrame, Now(), reply, data, moved, later)
      ensures out != NoFrame ==> Clean(procs) && AtRest(procs)
      ensures out != NoFrame && !e.Fault? ==> Settled(procs, out)
      ensures out != NoFrame && e.Fault? && !e.fatal ==> (Settled(procs, out) <==> Settled(old(procs), frame))
      ensures out != NoFrame && e.Fault? && e.fatal ==>
        0 <= old(cur) < |old(procs)| && 0 <= cur < |old(procs)| &&
        (Settled(procs, out) <==> FaultSettles(old(procs), old(cur), cur, out))
    {
      hide Stalls, Replied, Inv, Clean, AtRest, Settled, Killed, CrowdedBound, Delivered, Died, CallHistory, PidAt, ExitCode, Supplied, Resupplied;
      written, later := [], [];
      out, reply, status, data := Serve(e, frame);
      called, moved := hist, moves;
      if !e.Fault? {
        out := DeliverSignals(out);
      }
      due := hist;
      if out != NoFrame {
        if e.Fault? && e.fatal {
          FaultUnsettled(e, frame, old(procs), old(cur), out, procs, cur);
        }
        var r;
        written, r, later := CompleteContextSwitch(copies);
      }
    }
  }

  /** Over every run of interrupts, whatever the scheduler chooses and whatever fails, the table keeps
      all its invariants: no status is lost or received twice, nobody waits in vain, every count is
      exact.  Each time the processor returns, no dead process is left and, unless it returns from a
      fault, no signal is pending; each step hands over what is due.  An end of a pipe at which
      nobody calls while another waits is not crowded, so whoever waits there waits rightly.  No
      status is refused by memory that can be written.  Every report says how its child ended at a
      step of the run, to the process that forked it; what was read from a pipe is a prefix of what
      was written to it. */
  method Run(t: ProcessTable, steps: seq<Step>, first: Frame) returns (frame: Frame, ghost trace: seq<Snapshot>)
    requires t.Valid() && Clean(t.procs) && AtRest(t.procs)
    modifies t
    ensures t.Valid() && Chain(trace, steps, frame != NoFrame) && trace[0] == old(t.Now()) && trace[|trace| - 1] == t.Now()
    ensures frame != NoFrame ==> |trace| == |steps| + 1 && Clean(t.procs) && AtRest(t.procs)
    ensures frame != NoFrame && steps != [] && !steps[|steps| - 1].event.Fault? ==> Settled(t.procs, frame)
    ensures forall x :: x !in old(t.crowded) && Uncrowded(trace, steps, x) ==> x !in t.crowded
    ensures (forall k :: 0 <= k < |trace| - 1 ==> steps[k].copies) ==> t.hist.faulted == old(t.hist.faulted)
    ensures old(t.moves) <= t.moves && FlowOk(t.pipes, t.moves)
    ensures Later(old(t.hist), t.hist) && forall r :: r in t.hist.reports ==> Told(trace, steps, r)
    ensures forall x :: x in t.hist.sent && x !in old(t.hist.sent) ==> exists k :: SentAt(trace, steps, k, x.0, x.1)
  {
    frame, trace := first, [t.Now()];
    var i := 0;
    while i < |steps| && frame != NoFrame
      invariant 0 <= i <= |steps| && t.Valid() && |trace| == i + 1
      invariant Chain(trace, steps, frame != NoFrame) && trace[0] == old(t.Now()) && trace[i] == t.Now()
      invariant frame != NoFrame ==> Clean(t.procs) && AtRest(t.procs)
      invariant frame != NoFrame && i > 0 && !steps[i - 1].event.Fault? ==> Settled(t.procs, frame)
    {
      hide Base, Orderly, Accounted, Clean, AtRest, Settled, Chain, Recorded, CrowdedBound;
      frame := OneStep(t, steps[i], frame);
      ChainMore(trace, steps, t.Now(), frame != NoFrame);
      trace := trace + [t.Now()];
      i := i + 1;
    }
    ChainMeans(trace, steps, frame != NoFrame);
    ReportsTold(trace, steps, frame != NoFrame, t.nextPid);
    SignalsTold(trace, steps, frame != NoFrame);
  }

  method OneStep(t: ProcessTable, step: Step, frame: Frame) returns (out: Frame)
    requires t.Valid() && Clean(t.procs) && AtRest(t.procs) && frame != NoFrame
    modifies t
    ensures t.Valid() && Next(old(t.Now()), step, out != NoFrame, t.Now())
    ensures out != NoFrame ==> Clean(t.procs) && AtRest(t.procs)
    ensures out != NoFrame && !step.event.Fault? ==> Settled(t.procs, out)
  {
    hide Base, Orderly, Accounted, Clean, AtRest, Settled, Recorded, Flowed, CrowdedBound;
    var reply, status, data, written, later;
    ghost var called, due, moved;
    out, reply, status, data, written, later, called, due, moved := t.Interrupt(step.event, frame, step.copies);
    assert Recorded(old(t.Now()), step, out != NoFrame, t.Now(), reply, status, called, due, written);
    assert Flowed(old(t.Now()), step, out != NoFrame, t.Now(), reply, data, moved, later);
  }
}
