/** kernel/process.c, kernel/vfs.c and kernel/pipe.c: descriptors of processes and the counts
    of the open files and pipe ends they name. */
module Descriptors {
  import opened Pipes

  const MAX_FDS: nat := 16
  const MAX_PIPES: nat := 8
  const MAX_FILES: nat := 16
  const HANDLE_BASE: nat := 256

  datatype Kind = File | PipeRead | PipeWrite

  datatype Fd = NoFd | Open(kind: Kind, handle: nat, cloexec: bool)

  type FdTable = seq<Fd>

  function ReadEnd(i: nat): nat { HANDLE_BASE + 2 * i }

  function WriteEnd(i: nat): nat { HANDLE_BASE + 2 * i + 1 }

  function PipeOf(h: nat): (i: nat)
    requires h >= HANDLE_BASE
    ensures h == if IsReadEnd(h) then ReadEnd(i) else WriteEnd(i)
    ensures i < MAX_PIPES <==> h < HANDLE_BASE + 2 * MAX_PIPES
  {
    (h - HANDLE_BASE) / 2
  }

  predicate IsReadEnd(h: nat) { h >= HANDLE_BASE && (h - HANDLE_BASE) % 2 == 0 }

  predicate IsHandle(h: nat) {
    h < MAX_FILES || HANDLE_BASE <= h < HANDLE_BASE + 2 * MAX_PIPES
  }

  function KindOf(h: nat): Kind {
    if h < HANDLE_BASE then File else if IsReadEnd(h) then PipeRead else PipeWrite
  }

  /** The count kept for a handle: references to an open file, or open ends of a pipe. */
  function CountOf(pipes: seq<Value>, files: seq<nat>, h: nat): nat
    requires IsHandle(h) && |pipes| == MAX_PIPES && |files| == MAX_FILES
  {
    if h < MAX_FILES then files[h]
    else if IsReadEnd(h) then pipes[PipeOf(h)].readers else pipes[PipeOf(h)].writers
  }

  predicate Names(fd: Fd, h: nat) { fd.Open? && fd.handle == h }

  /** The descriptors of all processes that name a handle. */
  ghost function RefSet(fds: seq<FdTable>, h: nat): set<(int, int)> {
    set p, f | 0 <= p < |fds| && 0 <= f < |fds[p]| && NamedAt(fds, p, f, h) :: (p, f)
  }

  ghost predicate NamedAt(fds: seq<FdTable>, p: int, f: int, h: nat) {
    0 <= p < |fds| && 0 <= f < |fds[p]| && Names(fds[p][f], h)
  }

  /** Tables are of their sizes and every open descriptor has a handle of its kind. */
  ghost predicate FdsOk(fds: seq<FdTable>) {
    && (forall p :: 0 <= p < |fds| ==> |fds[p]| == MAX_FDS)
    && (forall p, f :: 0 <= p < |fds| && 0 <= f < |fds[p]| && fds[p][f].Open? ==> FdOk(fds[p][f]))
  }

  ghost predicate FdOk(fd: Fd) {
    fd.Open? ==> IsHandle(fd.handle) && fd.kind == KindOf(fd.handle)
  }

  ghost predicate PipesOk(pipes: seq<Value>) {
    |pipes| == MAX_PIPES && forall i :: 0 <= i < |pipes| ==> ValueOk(pipes[i])
  }

  /** Every count is the number of descriptors that name the handle, plus those a kernel
      function holds at the moment. */
  ghost predicate Exact(fds: seq<FdTable>, pipes: seq<Value>, files: seq<nat>, spare: multiset<nat>) {
    && |pipes| == MAX_PIPES && |files| == MAX_FILES
    && (forall h :: h in spare ==> IsHandle(h))
    && (forall h :: IsHandle(h) ==> CountOf(pipes, files, h) == |RefSet(fds, h)| + spare[h])
  }

  ghost predicate Accounted(fds: seq<FdTable>, pipes: seq<Value>, files: seq<nat>, spare: multiset<nat>) {
    FdsOk(fds) && PipesOk(pipes) && Exact(fds, pipes, files, spare)
  }

  // ---------- counting ----------

  lemma RefSetFinite(fds: seq<FdTable>, p: int, f: int, h: nat)
    requires 0 <= p < |fds| && 0 <= f < |fds[p]| && Names(fds[p][f], h)
    ensures |RefSet(fds, h)| >= 1
  {
    assert (p, f) in RefSet(fds, h);
    assert RefSet(fds, h) != {};
  }

  /** A descriptor that names a handle keeps its count positive. */
  lemma NamedIsCounted(fds: seq<FdTable>, pipes: seq<Value>, files: seq<nat>, spare: multiset<nat>, p: nat, f: nat)
    requires Accounted(fds, pipes, files, spare) && p < |fds| && f < |fds[p]| && fds[p][f].Open?
    ensures IsHandle(fds[p][f].handle) && CountOf(pipes, files, fds[p][f].handle) >= 1
  {
    assert FdOk(fds[p][f]);
    RefSetFinite(fds, p, f, fds[p][f].handle);
  }

  /** The places of the descriptors of the first n processes. */
  ghost function Places(n: nat): set<(int, int)> {
    set p, f | 0 <= p < n && 0 <= f < MAX_FDS :: (p, f)
  }

  ghost function Row(p: int, m: nat): set<(int, int)> {
    set f | 0 <= f < m :: (p, f)
  }

  lemma {:induction false} RowSize(p: int, m: nat)
    ensures |Row(p, m)| == m
  {
    if m > 0 {
      RowSize(p, m - 1);
      assert Row(p, m) == Row(p, m - 1) + {(p, m - 1)};
    } else {
      assert Row(p, m) == {};
    }
  }

  lemma {:induction false} PlacesSize(n: nat)
    ensures |Places(n)| == n * MAX_FDS
  {
    if n > 0 {
      PlacesSize(n - 1);
      RowSize(n - 1, MAX_FDS);
      assert Places(n) == Places(n - 1) + Row(n - 1, MAX_FDS);
      assert Places(n - 1) !! Row(n - 1, MAX_FDS);
    } else {
      assert Places(n) == {};
    }
  }

  lemma SubsetSize(a: set<(int, int)>, b: set<(int, int)>)
    requires a <= b
    ensures |a| <= |b|
  {
    assert b == a + (b - a);
  }

  /** A count is near its maximum. */
  ghost predicate Saturated(fds: seq<FdTable>) {
    exists h :: IsHandle(h) && |RefSet(fds, h)| + MAX_FDS >= COUNT_MAX
  }

  /** There are too few descriptors to saturate a count. */
  lemma NeverSaturated(fds: seq<FdTable>)
    requires FdsOk(fds) && |fds| < 0x1000
    ensures !Saturated(fds)
  {
    forall h | IsHandle(h)
      ensures |RefSet(fds, h)| <= |fds| * MAX_FDS
    {
      SubsetSize(RefSet(fds, h), Places(|fds|));
      PlacesSize(|fds|);
    }
  }

  ghost function SetFd(fds: seq<FdTable>, p: nat, f: nat, fd: Fd): seq<FdTable>
    requires p < |fds| && f < |fds[p]|
  {
    fds[p := fds[p][f := fd]]
  }

  function Bit(b: bool): nat { if b then 1 else 0 }

  lemma RefSetChange(fds: seq<FdTable>, p: nat, f: nat, fd: Fd, h: nat)
    requires p < |fds| && f < |fds[p]|
    ensures |RefSet(SetFd(fds, p, f, fd), h)| == |RefSet(fds, h)| - Bit(Names(fds[p][f], h)) + Bit(Names(fd, h))
  {
    var fds2 := SetFd(fds, p, f, fd);
    SetFdAt(fds, p, f, fd, h);
    hide SetFd, RefSet;
    var here, rest := (p as int, f as int), RefSet(fds, h) - {(p as int, f as int)};
    assert RefSet(fds2, h) - {here} == rest by {
      OtherRefs(fds, fds2, h, here);
    }
    OneRef(fds, p, f, h);
    OneRef(fds2, p, f, h);
  }

  lemma OtherRefs(fds: seq<FdTable>, fds2: seq<FdTable>, h: nat, here: (int, int))
    requires |fds2| == |fds| && forall q :: 0 <= q < |fds| ==> |fds2[q]| == |fds[q]|
    requires forall q, g :: (q, g) != here ==> (NamedAt(fds2, q, g, h) <==> NamedAt(fds, q, g, h))
    ensures RefSet(fds2, h) - {here} == RefSet(fds, h) - {here}
  {
    hide NamedAt;
  }

  lemma OneRef(fds: seq<FdTable>, p: nat, f: nat, h: nat)
    requires p < |fds| && f < |fds[p]|
    ensures |RefSet(fds, h)| == |RefSet(fds, h) - {(p as int, f as int)}| + Bit(NamedAt(fds, p, f, h))
  {
    var here := (p as int, f as int);
    assert here in RefSet(fds, h) <==> NamedAt(fds, p, f, h);
  }

  lemma SetFdAt(fds: seq<FdTable>, p: nat, f: nat, fd: Fd, h: nat)
    requires p < |fds| && f < |fds[p]|
    ensures var fds2 := SetFd(fds, p, f, fd);
      && |fds2| == |fds| && (forall q :: 0 <= q < |fds| ==> |fds2[q]| == |fds[q]|)
      && (NamedAt(fds, p, f, h) <==> Names(fds[p][f], h)) && (NamedAt(fds2, p, f, h) <==> Names(fd, h))
      && (forall q, g :: (q, g) != (p, f) ==> (NamedAt(fds2, q, g, h) <==> NamedAt(fds, q, g, h)))
  {
  }

  lemma SetFdOk(fds: seq<FdTable>, p: nat, f: nat, fd: Fd)
    requires FdsOk(fds) && p < |fds| && f < |fds[p]| && FdOk(fd)
    ensures FdsOk(SetFd(fds, p, f, fd))
  {
  }

  /** Emptying a descriptor leaves its handle with the kernel. */
  lemma FdEmptied(fds: seq<FdTable>, pipes: seq<Value>, files: seq<nat>, spare: multiset<nat>, p: nat, f: nat)
    requires Accounted(fds, pipes, files, spare) && p < |fds| && f < |fds[p]| && fds[p][f].Open?
    ensures Accounted(SetFd(fds, p, f, NoFd), pipes, files, spare + multiset{fds[p][f].handle})
  {
    SetFdOk(fds, p, f, NoFd);
    forall h | IsHandle(h)
      ensures CountOf(pipes, files, h) == |RefSet(SetFd(fds, p, f, NoFd), h)| + (spare + multiset{fds[p][f].handle})[h]
    {
      RefSetChange(fds, p, f, NoFd, h);
    }
  }

  /** Filling a free descriptor takes a handle over from the kernel. */
  lemma FdFilled(fds: seq<FdTable>, pipes: seq<Value>, files: seq<nat>, spare: multiset<nat>, p: nat, f: nat, fd: Fd)
    requires Accounted(fds, pipes, files, spare) && p < |fds| && f < |fds[p]| && fds[p][f].NoFd?
    requires fd.Open? && FdOk(fd) && fd.handle in spare
    ensures Accounted(SetFd(fds, p, f, fd), pipes, files, spare - multiset{fd.handle})
  {
    SetFdOk(fds, p, f, fd);
    forall h | IsHandle(h)
      ensures CountOf(pipes, files, h) == |RefSet(SetFd(fds, p, f, fd), h)| + (spare - multiset{fd.handle})[h]
    {
      RefSetChange(fds, p, f, fd, h);
    }
  }

  /** Only the count of h differs, by d. */
  ghost predicate CountsMoved(pipes: seq<Value>, files: seq<nat>, pipes2: seq<Value>, files2: seq<nat>, h: nat, d: int) {
    && |pipes| == |pipes2| == MAX_PIPES && |files| == |files2| == MAX_FILES && IsHandle(h)
    && (forall x :: IsHandle(x) ==> CountOf(pipes2, files2, x) == CountOf(pipes, files, x) + if x == h then d else 0)
  }

  lemma CountLowered(fds: seq<FdTable>, pipes: seq<Value>, files: seq<nat>, spare: multiset<nat>, pipes2: seq<Value>, files2: seq<nat>, h: nat)
    requires Accounted(fds, pipes, files, spare) && PipesOk(pipes2) && h in spare && CountsMoved(pipes, files, pipes2, files2, h, -1)
    ensures Accounted(fds, pipes2, files2, spare - multiset{h})
  {
    hide FdsOk;
  }

  lemma CountRaised(fds: seq<FdTable>, pipes: seq<Value>, files: seq<nat>, spare: multiset<nat>, pipes2: seq<Value>, files2: seq<nat>, h: nat)
    requires Accounted(fds, pipes, files, spare) && PipesOk(pipes2) && CountsMoved(pipes, files, pipes2, files2, h, 1)
    ensures Accounted(fds, pipes2, files2, spare + multiset{h})
  {
    hide FdsOk;
  }

  /** Exact counts are determined by the descriptors. */
  lemma CountsDetermined(fds: seq<FdTable>, pipes: seq<Value>, files: seq<nat>, pipes2: seq<Value>, files2: seq<nat>, spare: multiset<nat>)
    requires Exact(fds, pipes, files, spare) && Exact(fds, pipes2, files2, spare)
    ensures files2 == files
    ensures forall i :: 0 <= i < MAX_PIPES ==> pipes2[i].readers == pipes[i].readers && pipes2[i].writers == pipes[i].writers
  {
    assert forall h :: 0 <= h < MAX_FILES ==> IsHandle(h) && CountOf(pipes, files, h) == files[h] && CountOf(pipes2, files2, h) == files2[h];
    forall i | 0 <= i < MAX_PIPES
      ensures pipes2[i].readers == pipes[i].readers && pipes2[i].writers == pipes[i].writers
    {
      assert PipeOf(ReadEnd(i)) == i && PipeOf(WriteEnd(i)) == i;
      assert CountOf(pipes, files, ReadEnd(i)) == CountOf(pipes2, files2, ReadEnd(i));
      assert CountOf(pipes, files, WriteEnd(i)) == CountOf(pipes2, files2, WriteEnd(i));
    }
  }

  /** Somebody has the handle open. */
  ghost predicate Held(fds: seq<FdTable>, h: nat) { exists p, f :: NamedAt(fds, p, f, h) }

  /** At rest, the count of a handle is positive exactly if somebody has it open. */
  lemma HeldIff(fds: seq<FdTable>, pipes: seq<Value>, files: seq<nat>, h: nat)
    requires Accounted(fds, pipes, files, multiset{}) && IsHandle(h)
    ensures CountOf(pipes, files, h) > 0 <==> Held(fds, h)
  {
    assert CountOf(pipes, files, h) == |RefSet(fds, h)|;
    if Held(fds, h) {
      var p, f :| NamedAt(fds, p, f, h);
      assert (p, f) in RefSet(fds, h);
    } else {
      assert RefSet(fds, h) == {};
    }
  }

  /** At rest, a pipe or an open file is in use exactly as long as some descriptor names it. */
  lemma InUseIff(fds: seq<FdTable>, pipes: seq<Value>, files: seq<nat>)
    requires Accounted(fds, pipes, files, multiset{})
    ensures forall i :: 0 <= i < MAX_PIPES ==>
      (pipes[i].used <==> RefSet(fds, ReadEnd(i)) != {} || RefSet(fds, WriteEnd(i)) != {})
    ensures forall h :: 0 <= h < MAX_FILES ==> (files[h] > 0 <==> RefSet(fds, h) != {})
  {
    forall i | 0 <= i < MAX_PIPES
      ensures pipes[i].used <==> RefSet(fds, ReadEnd(i)) != {} || RefSet(fds, WriteEnd(i)) != {}
    {
      assert PipeOf(ReadEnd(i)) == i && PipeOf(WriteEnd(i)) == i && ValueOk(pipes[i]);
      assert CountOf(pipes, files, ReadEnd(i)) == |RefSet(fds, ReadEnd(i))|;
      assert CountOf(pipes, files, WriteEnd(i)) == |RefSet(fds, WriteEnd(i))|;
    }
    forall h: nat | 0 <= h < MAX_FILES
      ensures files[h] > 0 <==> RefSet(fds, h) != {}
    {
      assert IsHandle(h) && CountOf(pipes, files, h) == |RefSet(fds, h)|;
    }
  }
}
