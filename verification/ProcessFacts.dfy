/** kernel/process.c: what the operations on the process table, its descriptors and its pipes keep,
    as statements about values. */
module ProcessFacts {
  import opened Lifecycle
  import opened Descriptors
  import opened Pipes

  predicate PipeReason(r: Reason) { r == PipeReadWait || r == PipeWriteWait }

  /** The descriptor f of a table names an end of pipe i. */
  predicate OnPipe(table: FdTable, f: int, i: nat) {
    && 0 <= f < |table| && table[f].Open? && table[f].kind != File
    && table[f].handle >= HANDLE_BASE && PipeOf(table[f].handle) == i
  }

  /** process_wake_pipe_waiter wakes such a process. */
  predicate Waits(p: Proc, table: FdTable, i: nat, reason: Reason) {
    p.state == Blocked && p.reason == reason && OnPipe(table, p.blockedFd, i)
  }

  /** The blocked call would block again if it were made now. */
  ghost predicate Stuck(p: Proc, v: Value) {
    && |v.content| <= CAPACITY
    && (p.reason == PipeReadWait ==> ReadResult(v, p.blockedCount) == WouldBlock)
    && (p.reason == PipeWriteWait ==> WriteResult(v, p.blockedCount) == WouldBlock)
  }

  /** One end of a pipe, by what waiting there is for. */
  datatype End = End(pipe: nat, reason: Reason)

  ghost predicate WaitsAt(p: Proc, table: FdTable, e: End) { Waits(p, table, e.pipe, e.reason) }

  /** Whoever is blocked on a pipe has the descriptor it waits for, of the right kind. */
  ghost predicate BlockedShape(p: Proc, table: FdTable) {
    p.state == Blocked && PipeReason(p.reason) ==>
      && 0 <= p.blockedFd < |table| && table[p.blockedFd].Open?
      && table[p.blockedFd].kind == (if p.reason == PipeReadWait then PipeRead else PipeWrite)
      && HANDLE_BASE <= table[p.blockedFd].handle && PipeOf(table[p.blockedFd].handle) < MAX_PIPES
  }

  /** A blocked process that waits at e, and would have to wait again if it tried. */
  ghost predicate RightlyBlocked(p: Proc, table: FdTable, pipes: seq<Value>, e: End) {
    && BlockedShape(p, table) && WaitsAt(p, table, e) && PipeReason(e.reason)
    && e.pipe < |pipes| && Stuck(p, pipes[e.pipe])
  }

  /** At most one process waits at the end. */
  ghost predicate AtMostOne(procs: seq<Proc>, fds: seq<FdTable>, e: End) {
    |fds| == |procs| && forall p, q ::
      (0 <= p < |procs| && 0 <= q < |procs| && WaitsAt(procs[p], fds[p], e) && WaitsAt(procs[q], fds[q], e)) ==> p == q
  }

  /** Whoever waits at the end would have to wait again. */
  ghost predicate AllStuck(procs: seq<Proc>, fds: seq<FdTable>, pipes: seq<Value>, e: End) {
    |fds| == |procs| && forall p :: 0 <= p < |procs| && WaitsAt(procs[p], fds[p], e) ==>
      e.pipe < |pipes| && Stuck(procs[p], pipes[e.pipe])
  }

  /** At every end of a pipe that is not crowded at most one process waits, and rightly so. */
  ghost predicate Orderly(procs: seq<Proc>, fds: seq<FdTable>, pipes: seq<Value>, crowded: set<End>) {
    && |fds| == |procs| && (forall p :: 0 <= p < |procs| ==> BlockedShape(procs[p], fds[p]))
    && forall e: End :: PipeReason(e.reason) && e !in crowded ==> AtMostOne(procs, fds, e) && AllStuck(procs, fds, pipes, e)
  }

  /** Nobody has begun to wait for a pipe. */
  ghost predicate FewerWait(procs: seq<Proc>, procs2: seq<Proc>) {
    |procs2| == |procs| && forall p :: 0 <= p < |procs| && procs2[p].state == Blocked && PipeReason(procs2[p].reason) ==>
      && procs[p].state == Blocked && procs2[p].reason == procs[p].reason
      && procs2[p].blockedFd == procs[p].blockedFd && procs2[p].blockedCount == procs[p].blockedCount
  }

  /** Some processes blocked on pipes have been woken. */
  ghost predicate Awake(procs: seq<Proc>, procs2: seq<Proc>) {
    && |procs2| == |procs|
    && forall p :: 0 <= p < |procs| ==> procs2[p] == procs[p] || Awoken(procs[p], procs2[p])
  }

  ghost predicate Awoken(p: Proc, q: Proc) {
    p.state == Blocked && PipeReason(p.reason) && q == p.(state := Ready)
  }

  predicate NamesPipe(fd: Fd, i: nat) {
    fd.Open? && fd.kind != File && fd.handle >= HANDLE_BASE && PipeOf(fd.handle) == i
  }

  /** Nobody waits for this pipe. */
  ghost predicate Deserted(procs: seq<Proc>, fds: seq<FdTable>, i: nat) {
    NoWaiter(procs, fds, i, PipeReadWait) && NoWaiter(procs, fds, i, PipeWriteWait)
  }

  /** Nobody waits at this end any more. */
  ghost predicate NoWaiter(procs: seq<Proc>, fds: seq<FdTable>, i: nat, reason: Reason) {
    |fds| == |procs| && forall p :: 0 <= p < |procs| ==> !Waits(procs[p], fds[p], i, reason)
  }

  ghost predicate StuckOn(p: Proc, table: FdTable, i: nat, v: Value, crowded: set<End>) {
    PipeReason(p.reason) && End(i, p.reason) !in crowded && Waits(p, table, i, p.reason) && Stuck(p, v)
  }

  /** Whoever is blocked waits for a child or for a pipe. */
  ghost predicate Purposeful(procs: seq<Proc>) {
    forall p :: 0 <= p < |procs| && procs[p].state == Blocked ==>
      procs[p].waiting || PipeReason(procs[p].reason)
  }

  ghost predicate OneRunning(procs: seq<Proc>, cur: int) {
    forall p :: 0 <= p < |procs| && procs[p].state == Running ==> p == cur
  }

  /** Free slots and zombies have no open descriptors. */
  ghost predicate Emptied(procs: seq<Proc>, fds: seq<FdTable>) {
    |fds| == |procs| && forall p :: 0 <= p < |procs| && !Active(procs[p]) ==> AllClosed(fds[p])
  }

  ghost predicate AllClosed(table: FdTable) {
    forall f :: 0 <= f < |table| ==> table[f].NoFd?
  }

  /** Pipes keep their bytes while they are in use. */
  ghost predicate Drained(pipes: seq<Value>, pipes2: seq<Value>) {
    && |pipes2| == |pipes|
    && forall i :: 0 <= i < |pipes| && pipes2[i].used ==> pipes[i].used && pipes2[i].content == pipes[i].content
  }

  /** The child of a fork: it starts as a copy of the parent, without its waits and signals. */
  function ChildOf(p: Proc, pid: nat): Proc {
    Blank.(pid := pid, parent := p.pid, state := Ready, frame := UserFrame)
  }

  /** The child of a fork has its own pid and sees 0 as the result; it is ready, waits for nothing and
      has no signal pending. */
  lemma ChildMeans(p: Proc, pid: nat)
    ensures var c := ChildOf(p, pid);
      && c.pid == pid && c.parent == p.pid && c.state == Ready && c.frame == UserFrame && c.eax == 0
      && c.pending == {} && c.killedBy == 0 && !c.waiting && !c.completing && c.reason == NoReason && !c.exited && !c.waited
  {
  }

  /** The first n processes have been looked at, and some zombies have gone. */
  ghost predicate Swept(procs0: seq<Proc>, procs: seq<Proc>, n: nat) {
    && |procs| == |procs0|
    && (forall k :: 0 <= k < n && k < |procs| && procs[k].state == Zombie ==> !procs[k].waited)
    && (forall k :: 0 <= k < |procs| ==> procs[k] == procs0[k] || (procs0[k].state == Zombie && procs[k] == Blank))
  }

  /** The process is as it was but for what a completed call changes. */
  ghost predicate SameRun(p: Proc, q: Proc) {
    q.state == p.state && q.pending == p.pending && q.pid == p.pid
  }

  /** The result of the call that had blocked. */
  function Unblocked(p: Proc, r: Result): Proc {
    p.(eax := if r.Moved? then r.n else if r.Broken? then -15 else if r.WouldBlock? then -13 else -9,
       reason := NoReason, blockedFd := -1, blockedCount := 0)
  }

  /** A blocked call that is completed returns the number of bytes, or the error that the call itself
      would have returned: EPIPE, EAGAIN or EBADF. */
  lemma UnblockedMeans(p: Proc, n: nat)
    ensures Unblocked(p, Moved(n)).eax == n && Unblocked(p, Broken).eax == -15
    ensures Unblocked(p, WouldBlock).eax == -13 && Unblocked(p, BadHandle).eax == -9
    ensures forall r :: var q := Unblocked(p, r); q.reason == NoReason && q == p.(eax := q.eax, reason := q.reason, blockedFd := q.blockedFd, blockedCount := q.blockedCount)
  {
  }

  /** The status of a completed wait is copied to the caller, if its memory allows. */
  function StatusCopied(p: Proc, copies: bool): Proc {
    p.(eax := if Reaches(p, copies) then p.eax else -2, wantsStatus := false, result := 0, completing := false)
  }

  /** The status reaches the parent's program unless it is wanted and its memory refuses it. */
  predicate Reaches(p: Proc, copies: bool) { !p.wantsStatus || copies }

  /** No zombie is left whose status was received or whom nobody can ask for. */
  ghost predicate Clean(procs: seq<Proc>) {
    forall i :: 0 <= i < |procs| && procs[i].state == Zombie ==> !procs[i].waited
  }

  /** The running process has nothing left to complete: it can make calls. */
  ghost predicate AtRest(procs: seq<Proc>) {
    forall p :: 0 <= p < |procs| && procs[p].state == Running ==> !procs[p].completing && !PipeReason(procs[p].reason)
  }

  /** The running process calls on a descriptor of the pipe while another waits at the end. */
  ghost predicate Joins(procs: seq<Proc>, fds: seq<FdTable>, cur: int, f: int, x: End) {
    0 <= cur < |procs| == |fds| && OnPipe(fds[cur], f, x.pipe) && !NoneElse(procs, fds, cur, x)
  }

  ghost predicate Crowds(procs: seq<Proc>, fds: seq<FdTable>, cur: int, e: Event, x: End) {
    || (e.Read? && x.reason == PipeReadWait && Joins(procs, fds, cur, e.f, x))
    || (e.Write? && x.reason == PipeWriteWait && Joins(procs, fds, cur, e.f, x))
  }

  /** An end is newly crowded only if the event is a read or write there while another process
      waits there. */
  ghost predicate CrowdedBound(crowded: set<End>, crowded2: set<End>, procs: seq<Proc>, fds: seq<FdTable>, cur: int, e: Event) {
    forall x :: x in crowded2 ==> x in crowded || Crowds(procs, fds, cur, e, x)
  }

  /** A report is due to the program that runs. */
  ghost predicate DueTo(h: History, r: Report, procs: seq<Proc>, cur: int) {
    Underway(h, r) && 0 <= cur < |procs| && procs[cur].state == Running && procs[cur].pid == r.parent
  }

  /** The program that runs gets the report that is due to it, if there is one. */
  ghost predicate Delivered(procs: seq<Proc>, cur: int, h: History, copies: bool, h2: History, written: seq<nat>) {
    if exists r :: DueTo(h, r, procs, cur)
    then forall r :: DueTo(h, r, procs, cur) ==> GivenTo(h, r, procs[cur], copies, h2, written)
    else h2 == h && written == []
  }

  /** The program gets the pid of the child and, if it asked for it, the status; it gets EFAULT
      exactly if it asked for the status and its memory refuses it. */
  ghost predicate GivenTo(h: History, r: Report, p: Proc, copies: bool, h2: History, written: seq<nat>) {
    && r.parent in h.asked
    && var wants := h.asked[r.parent].wantsStatus;
       && h2 == Hand(h, r, !wants || copies)
       && p.eax == (if !wants || copies then r.child else -2)
       && written == (if wants && copies then [r.status] else [])
  }

  /** What the running process carries from a wait is handed to its program: the pid of the child in
      eax and, if it wants it, the status of the child as it left it; memory that refuses the status
      is the one case in which the program gets EFAULT instead. */
  ghost predicate HandedOver(procs: seq<Proc>, cur: int, h: History, copies: bool, procs2: seq<Proc>, h2: History, written: seq<nat>) {
    (0 <= cur < |procs2| && procs2[cur].state == Running ==>
       cur < |procs| && procs[cur].state == Running && procs2[cur].pid == procs[cur].pid) &&
    if 0 <= cur < |procs| && procs[cur].state == Running && procs[cur].completing then
      var p, r := procs[cur], ReportOf(procs[cur]);
      && Underway(h, r) && h2 == Hand(h, r, Reaches(p, copies)) && cur < |procs2|
      && procs2[cur].pid == r.parent && procs2[cur].state == Running && !procs2[cur].completing
      && procs2[cur].eax == (if Reaches(p, copies) then r.child else -2)
      && written == (if p.wantsStatus && copies then [r.status] else [])
    else h2 == h && written == []
  }

  /** The read or write that had blocked, made once more; `data` are the bytes that were read, or
      those that were to be written. */
  ghost predicate Retried(p: Proc, table: FdTable, pipes: seq<Value>, pipes2: seq<Value>, r: Result, data: seq<byte>) {
    var f := p.blockedFd;
    if 0 <= f < |table| && table[f].Open? && table[f].handle >= HANDLE_BASE && PipeOf(table[f].handle) < |pipes| &&
       pipes[PipeOf(table[f].handle)].used && |pipes[PipeOf(table[f].handle)].content| <= CAPACITY
    then
      var i := PipeOf(table[f].handle);
      && (p.reason == PipeReadWait && table[f].kind == PipeRead && IsReadEnd(table[f].handle) ==>
            && r == ReadResult(pipes[i], p.blockedCount) && pipes2 == pipes[i := AfterRead(pipes[i], p.blockedCount)]
            && data == pipes[i].content[..Taken(r)])
      && (p.reason == PipeWriteWait && table[f].kind == PipeWrite && !IsReadEnd(table[f].handle) ==>
            |data| == p.blockedCount && r == WriteResult(pipes[i], |data|) && pipes2 == pipes[i := AfterWrite(pipes[i], data)])
    else r == BadHandle && pipes2 == pipes
  }

  /** Who runs has run before. */
  ghost predicate OnlyRanBefore(procs: seq<Proc>, procs2: seq<Proc>) {
    |procs2| == |procs| && forall p :: 0 <= p < |procs| && procs2[p].state == Running ==> procs[p].state == Running
  }

  /** The table when the current process has given up the processor to the timer. */
  function Preempted(procs: seq<Proc>, cur: int, frame: Frame): seq<Proc> {
    if 0 <= cur < |procs| then Stopped(procs, cur, frame, if procs[cur].state == Running then Ready else procs[cur].state) else procs
  }

  /** No signal is left pending after a fatal fault: the process that runs next had none pending and
      is not the parent of the one that died. */
  ghost predicate FaultSettles(procs: seq<Proc>, me: nat, next: nat, out: Frame)
    requires me < |procs| && next < |procs|
  {
    out == UserFrame ==>
      procs[next].pending !! {SIGKILL, SIGTERM, SIGCHLD} && !(procs[me].parent != 0 && procs[next].pid == procs[me].parent)
  }

  /** What a fault leaves to be done. */
  ghost predicate FaultServed(e: Event, frame: Frame, procs: seq<Proc>, cur: int, out: Frame, procs2: seq<Proc>, cur2: int) {
    e.Fault? && (out != NoFrame ==>
      frame == UserFrame &&
      if !e.fatal then out == frame && procs2 == procs && cur2 == cur
      else
        && 0 <= cur < |procs| == |procs2| && 0 <= cur2 < |procs| && cur2 != cur
        && procs2[cur2].state == Running && OneRunning(procs2, cur2)
        && out == procs[cur2].frame && procs2[cur2].pending == PendingAfter(procs, cur, cur2))
  }

  /** process_begin_waitpid */
  function WaitBegun(p: Proc, target: nat, wantsStatus: bool, posix: bool): Proc {
    p.(waiting := true, target := target, wantsStatus := wantsStatus, result := 0, completing := false,
       isWaitpid := posix, reason := WaitChild)
  }

  /** process_cancel_wait */
  function WaitCancelled(p: Proc): Proc {
    p.(waiting := false, target := 0, wantsStatus := false, result := 0, completing := false, reason := NoReason)
  }

  function Cleared(p: Proc, sig: nat): Proc { p.(pending := p.pending - {sig}) }

  /** Nobody runs, the frame is not one of user mode, or no signal is pending for the process
      that is about to run. */
  ghost predicate Settled(procs: seq<Proc>, frame: Frame) {
    frame == UserFrame ==>
      forall p :: 0 <= p < |procs| && procs[p].state == Running ==> procs[p].pending !! {SIGKILL, SIGTERM, SIGCHLD}
  }

  ghost function PendingOfCurrent(procs: seq<Proc>, cur: int): nat {
    if 0 <= cur < |procs| then |procs[cur].pending| else 0
  }

  /** The exit code that is kept: eight bits, or all of a code with the top bit set. */
  function ExitCode(code: nat): nat { if code >= 0x8000_0000 then code else code % 0x100 }

  /** What the parent learns of an exit: waitpid gives the low byte of the code, wait the low byte or,
      for a code with the top bit set as the kernel uses them, all of it. */
  lemma ExitTold(code: nat)
    ensures code < 0x8000_0000 ==> StatusOf(Ending(ExitCode(code), 0), false) == code % 256
    ensures code >= 0x8000_0000 ==> StatusOf(Ending(ExitCode(code), 0), false) == code
    ensures var status := StatusOf(Ending(ExitCode(code), 0), true); status % 128 == 0 && status / 256 == code % 256
  {
  }

  ghost function Actives(procs: seq<Proc>): set<int> {
    set p | 0 <= p < |procs| && Active(procs[p])
  }

  /** The exiting process and its relations. */
  ghost predicate Prepared(procs: seq<Proc>, me: nat) {
    && me < |procs| && Active(procs[me]) && procs[me].state != Blocked && !procs[me].waiting && !procs[me].waited
    && procs[me].parent < procs[me].pid
    && (procs[me].parent != 0 ==> exists j :: ParentAt(procs, procs[me].parent, j))
    && (forall j, k :: ParentAt(procs, procs[me].parent, j) && InTable(procs, procs[me].parent, k) ==> j == k)
    && (forall k :: 0 <= k < |procs| && procs[k].waiting ==> procs[k].state == Blocked)
  }

  ghost predicate Buried(procs: seq<Proc>, me: nat, e: Ending, procs2: seq<Proc>) {
    && me < |procs| == |procs2|
    && (forall k :: 0 <= k < |procs| && k != me ==> procs2[k] == Orphan(procs[k], procs[me].pid))
    && procs2[me] == Orphan(Zombified(procs[me], e), procs[me].pid)
  }

  /** The signals that are pending for process i once the one at `me` has exited. */
  function PendingAfter(procs: seq<Proc>, me: nat, i: nat): set<nat>
    requires me < |procs| && i < |procs|
  {
    procs[i].pending + if procs[me].parent != 0 && procs[i].pid == procs[me].parent then {SIGCHLD} else {}
  }

  /** An exit raises SIGCHLD for the parent and no other signal, and moves no frame. */
  ghost predicate ExitSignals(procs: seq<Proc>, procs2: seq<Proc>, me: nat) {
    && me < |procs| == |procs2|
    && forall i :: 0 <= i < |procs| && i != me && Active(procs[i]) ==>
         procs2[i].pending == PendingAfter(procs, me, i) && procs2[i].frame == procs[i].frame
  }

  function Signalled(p: Proc, sig: nat): Proc { p.(pending := p.pending + {sig}) }

  function Completed(p: Proc, child: nat, status: nat): Proc {
    p.(result := status, completing := true, waiting := false, reason := NoReason, eax := child, state := Ready)
  }

  function Received(p: Proc): Proc { p.(waited := true) }

  /** The process has ended; a signal that ends it is no longer pending. */
  function Zombified(p: Proc, e: Ending): Proc {
    p.(exitCode := e.code, killedBy := e.sig, pending := p.pending - {e.sig}, exited := true, state := Zombie, reason := NoReason)
  }

  /** Nobody has started to run, and whoever is blocked was blocked for the same reason before. */
  ghost predicate Calmer(procs: seq<Proc>, procs2: seq<Proc>) {
    && |procs2| == |procs|
    && (forall p :: 0 <= p < |procs| && procs2[p].state == Running ==> procs[p].state == Running)
    && forall p :: 0 <= p < |procs| && procs2[p].state == Blocked ==>
      && procs[p].state == Blocked && procs2[p].reason == procs[p].reason && procs2[p].waiting == procs[p].waiting
      && procs2[p].blockedFd == procs[p].blockedFd && procs2[p].blockedCount == procs[p].blockedCount
  }

  /** What NotifyParent leaves behind. */
  ghost predicate Notified(procs1: seq<Proc>, me: nat, pa: nat, status: nat, procs2: seq<Proc>) {
    && me < |procs1| && pa < |procs1| && me != pa
    && var p := Signalled(procs1[pa], SIGCHLD);
       if p.state == Blocked && p.waiting && Matches(p.target, procs1[me].pid)
       then procs2 == procs1[pa := Completed(p, procs1[me].pid, status)][me := Received(procs1[me])]
       else procs2 == procs1[pa := p]
  }

  ghost predicate SameBlock(p: Proc, q: Proc) {
    && q.state == p.state && q.reason == p.reason && q.waiting == p.waiting
    && q.blockedFd == p.blockedFd && q.blockedCount == p.blockedCount
  }

  /** What can interrupt the running process. */
  datatype Event =
    | Exit(code: nat)
    | Fault(fatal: bool, code: nat)
    | Wait(wantsStatus: bool, writable: bool)
    | Waitpid(target: nat, wantsStatus: bool, writable: bool, copies: bool, options: nat)
    | Fork(fails: bool)
    | Kill(pid: nat, sig: nat)
    | OpenFile(fails: bool, cloexec: bool)
    | Close(f: int)
    | Exec
    | MakePipe(copied: bool)
    | Read(f: int, count: nat, writable: bool)
    | Write(f: int, data: seq<byte>, readable: bool)
    | Timer

  datatype Errno = EBADF | EAGAIN | EPIPE | ECHILD | EFAULT | EINVAL | ENOMEM | ESRCH | EMFILE

  datatype Reply = Done(n: nat) | Err(errno: Errno) | Switched | FileCall

  /** The running process has the descriptor open, as an end of this kind or as a file. */
  ghost predicate HasEnd(runs: bool, table: FdTable, f: int, kind: Kind) {
    runs && 0 <= f < |table| && table[f].Open? && (table[f].kind == File || table[f].kind == kind)
  }

  /** How a read or write is answered before a pipe is looked at. */
  ghost predicate EarlyReply(runs: bool, table: FdTable, f: int, kind: Kind, fault: bool, reply: Reply) {
    if fault then reply == Err(EFAULT)
    else if !HasEnd(runs, table, f, kind) then reply == Err(EBADF)
    else table[f].kind == File && reply == FileCall
  }

  /** The call finds a pipe at the descriptor. */
  ghost predicate AtPipeEnd(runs: bool, table: FdTable, f: int, kind: Kind, fault: bool, i: nat) {
    !fault && HasEnd(runs, table, f, kind) && table[f].kind == kind && kind != File && OnPipe(table, f, i)
  }

  /** How the result of a pipe operation is answered; a call that would block does, unless nobody
      else can run. */
  ghost predicate PipeReply(r: Result, reply: Reply) {
    match r
    case Moved(n) => reply == Done(n)
    case WouldBlock => reply == Switched || reply == Err(EAGAIN)
    case Broken => reply == Err(EPIPE)
    case BadHandle => reply == Err(EBADF)
  }

  /** A read from pipe i gives its oldest bytes. */
  ghost predicate ReadFrom(pipes: seq<Value>, i: nat, count: nat, reply: Reply, pipes2: seq<Value>, data: seq<byte>) {
    && i < |pipes| && PipeReply(ReadResult(pipes[i], count), reply)
    && (reply.Done? ==> pipes2 == pipes[i := AfterRead(pipes[i], count)] && reply.n <= |pipes[i].content| && data == pipes[i].content[..reply.n])
  }

  /** A write to pipe i appends what fits. */
  ghost predicate WrittenTo(pipes: seq<Value>, i: nat, data: seq<byte>, reply: Reply, pipes2: seq<Value>) {
    && i < |pipes| && |pipes[i].content| <= CAPACITY && PipeReply(WriteResult(pipes[i], |data|), reply)
    && (reply.Done? ==> pipes2 == pipes[i := AfterWrite(pipes[i], data)])
  }

  function Stopped(procs: seq<Proc>, cur: nat, frame: Frame, state: State): seq<Proc>
    requires cur < |procs|
  {
    procs[cur := Halt(procs[cur], frame, state)]
  }

  /** A process gives up the processor with the frame to resume from. */
  function Halt(p: Proc, frame: Frame, state: State): Proc { p.(frame := frame, state := state) }

  function Dispatch(p: Proc): Proc { p.(state := Running) }

  /** process_begin_pipe_wait */
  function PipeWait(p: Proc, f: int, count: nat, reason: Reason): Proc {
    p.(reason := reason, blockedFd := f, blockedCount := count)
  }

  /** A process blocked on a pipe. */
  function AtPipe(p: Proc, f: int, count: nat, reason: Reason, frame: Frame): Proc {
    Halt(PipeWait(p, f, count, reason), frame, Blocked)
  }

  /** A process that could not block because nobody else could run. */
  function NotBlocked(p: Proc, f: int, count: nat, reason: Reason, frame: Frame): Proc {
    ForgetReason(Halt(PipeWait(p, f, count, reason), frame, Running))
  }

  function ForgetReason(p: Proc): Proc { p.(reason := NoReason) }

  /** Nobody but perhaps the process at `me` waits at the end. */
  ghost predicate NoneElse(procs: seq<Proc>, fds: seq<FdTable>, me: nat, e: End) {
    |fds| == |procs| && forall q :: 0 <= q < |procs| && q != me ==> !WaitsAt(procs[q], fds[q], e)
  }

  /** The crowded ends once the process at `me` waits at e: a process that waits alone makes its
      end orderly again, one that joins another makes it crowded. */
  ghost function CrowdedNow(procs: seq<Proc>, fds: seq<FdTable>, me: nat, e: End, crowded: set<End>): set<End> {
    if NoneElse(procs, fds, me, e) then crowded - {e} else crowded + {e}
  }

  ghost predicate Base(procs: seq<Proc>, cur: int, nextPid: nat, h: History, fds: seq<FdTable>) {
    Sound(procs, nextPid, h) && Purposeful(procs) && OneRunning(procs, cur) && Emptied(procs, fds)
  }

  /** The first n descriptors of a table. */
  ghost function Part(table: FdTable, n: nat): (r: FdTable)
    ensures |r| == |table|
  {
    seq(|table|, f requires 0 <= f < |table| => if f < n then table[f] else NoFd)
  }

  /** The first n descriptors have been closed, or those of them that are flagged. */
  ghost predicate Closing(procs0: seq<Proc>, fds0: seq<FdTable>, pipes0: seq<Value>, p: nat, n: nat, onlyFlagged: bool,
                          procs: seq<Proc>, fds: seq<FdTable>, pipes: seq<Value>)
  {
    && p < |fds0| && fds == fds0[p := Shut(fds0[p], n, onlyFlagged)]
    && Awake(procs0, procs) && Drained(pipes0, pipes) && (AllShared(fds0, p) ==> procs == procs0)
  }

  /** The process has no child that matches. */
  ghost predicate NoChild(procs: seq<Proc>, pid: nat, target: nat) {
    forall i :: 0 <= i < |procs| && Live(procs[i]) && procs[i].parent == pid ==> !Matches(target, procs[i].pid)
  }

  /** A child that matches has exited and nobody has received its status. */
  ghost predicate ExitedChild(procs: seq<Proc>, pid: nat, target: nat, i: int) {
    0 <= i < |procs| && Unreported(procs[i], pid) && (target == 0xFFFF_FFFF || procs[i].pid == target)
  }

  /** No other process can be given the processor: none is ready, or one that is has no frame to
      resume from and may be preferred. */
  ghost predicate Stalls(procs: seq<Proc>, cur: int) {
    || (forall p :: 0 <= p < |procs| && p != cur ==> procs[p].state != Ready)
    || exists p :: 0 <= p < |procs| && p != cur && procs[p].state == Ready && procs[p].frame == NoFrame
  }

  /** How a wait must end: with the pid of a child that has exited, if there is one and the status can
      be copied; with ECHILD if no child matches; otherwise it returns 0 if it is not to wait, and
      waits, or could not because nobody else can run. */
  ghost predicate WaitReply(procs: seq<Proc>, cur: int, pid: nat, target: nat, refused: bool, nohang: bool, reply: Reply) {
    if exists i :: ExitedChild(procs, pid, target, i) then (if refused then reply == Err(EFAULT) else reply.Done? && reply.n != 0)
    else if NoChild(procs, pid, target) then reply == Err(ECHILD)
    else if nohang then reply == Done(0)
    else reply == Switched || (reply == Err(EAGAIN) && Stalls(procs, cur))
  }

  lemma WaitGives(procs: seq<Proc>, cur: int, pid: nat, target: nat, refused: bool, nohang: bool, i: nat)
    requires i < |procs| && Unreported(procs[i], pid) && Matches(target, procs[i].pid) && procs[i].pid != 0
    ensures WaitReply(procs, cur, pid, target, refused, nohang, if refused then Err(EFAULT) else Done(procs[i].pid))
    ensures !NoChild(procs, pid, target)
  {
    assert ExitedChild(procs, pid, target, i);
  }

  lemma WaitNone(procs: seq<Proc>, cur: int, pid: nat, target: nat, refused: bool, nohang: bool)
    requires forall i :: 0 <= i < |procs| && Unreported(procs[i], pid) ==> !Matches(target, procs[i].pid)
    ensures NoChild(procs, pid, target) ==> WaitReply(procs, cur, pid, target, refused, nohang, Err(ECHILD))
    ensures !NoChild(procs, pid, target) && nohang ==> WaitReply(procs, cur, pid, target, refused, nohang, Done(0))
    ensures !NoChild(procs, pid, target) && !nohang ==>
      && WaitReply(procs, cur, pid, target, refused, nohang, Switched)
      && (Stalls(procs, cur) ==> WaitReply(procs, cur, pid, target, refused, nohang, Err(EAGAIN)))
  {
    hide NoChild, Stalls;
  }

  /** What another process needs to be given the processor is not up to the one that has it. */
  lemma StallsFor(procs: seq<Proc>, procs2: seq<Proc>, cur: int, choice: int)
    requires |procs2| == |procs| && forall p :: 0 <= p < |procs| && p != cur ==> procs2[p] == procs[p]
    ensures Stalls(procs2, cur) <==> Stalls(procs, cur)
    ensures 0 <= choice < |procs| && choice != cur && procs[choice].state == Ready && procs[choice].frame == NoFrame ==> Stalls(procs, cur)
  {
    if Stalls(procs, cur) && exists p :: 0 <= p < |procs| && p != cur && procs[p].state == Ready {
      var p :| 0 <= p < |procs| && p != cur && procs[p].state == Ready && procs[p].frame == NoFrame;
      assert procs2[p] == procs[p];
    }
    if Stalls(procs2, cur) && exists p :: 0 <= p < |procs| && p != cur && procs2[p].state == Ready {
      var p :| 0 <= p < |procs| && p != cur && procs2[p].state == Ready && procs2[p].frame == NoFrame;
      assert procs2[p] == procs[p];
    }
  }

  /** No slot of the process table is free. */
  ghost predicate Full(procs: seq<Proc>) {
    forall i :: 0 <= i < |procs| ==> procs[i].state != Dead
  }

  /** The table has room for both ends of a pipe. */
  ghost predicate TwoFree(table: FdTable) {
    exists f, g :: 0 <= f < g < |table| && table[f].NoFd? && table[g].NoFd?
  }

  /** The two lowest free descriptors. */
  ghost predicate Lowest(table: FdTable, f: int, g: int) {
    forall k :: 0 <= k < g && k < |table| && k != f ==> table[k].Open?
  }

  predicate ToClose(fd: Fd, onlyFlagged: bool) { fd.Open? && (onlyFlagged ==> fd.cloexec) }

  /** The table with the first n descriptors closed, or those of them that are flagged. */
  ghost function Shut(table: FdTable, n: nat, onlyFlagged: bool): (r: FdTable)
    ensures |r| == |table|
  {
    seq(|table|, f requires 0 <= f < |table| => if f < n && ToClose(table[f], onlyFlagged) then NoFd else table[f])
  }

  /** Exactly the open descriptors are closed, or exactly those flagged close-on-exec. */
  lemma ShutMeans(table: FdTable, f: nat, onlyFlagged: bool)
    requires f < |table| && |table| == MAX_FDS
    ensures Shut(table, MAX_FDS, onlyFlagged)[f] == if table[f].NoFd? || (onlyFlagged && !table[f].cloexec) then table[f] else NoFd
  {
  }

  /** Another process has the handle of the descriptor, too. */
  ghost predicate SharedFd(fds: seq<FdTable>, p: nat, f: nat) {
    p < |fds| && f < |fds[p]| && fds[p][f].Open? && exists q, g :: q != p && NamedAt(fds, q, g, fds[p][f].handle)
  }

  ghost predicate AllShared(fds: seq<FdTable>, p: nat) {
    p < |fds| && forall f :: 0 <= f < |fds[p]| && fds[p][f].Open? ==> SharedFd(fds, p, f)
  }

  // ---------- lemmas ----------

  lemma FewerOrderly(procs: seq<Proc>, procs2: seq<Proc>, fds: seq<FdTable>, pipes: seq<Value>, crowded: set<End>)
    requires Orderly(procs, fds, pipes, crowded) && FewerWait(procs, procs2)
    ensures Orderly(procs2, fds, pipes, crowded)
  {
    hide OnPipe;
    forall p | 0 <= p < |procs2|
      ensures BlockedShape(procs2[p], fds[p])
    {
      assert BlockedShape(procs[p], fds[p]);
    }
    forall p, e: End | 0 <= p < |procs| && PipeReason(e.reason) && WaitsAt(procs2[p], fds[p], e)
      ensures WaitsAt(procs[p], fds[p], e) && forall v :: Stuck(procs[p], v) ==> Stuck(procs2[p], v)
    {
    }
    hide WaitsAt, Stuck;
    forall e: End | PipeReason(e.reason) && e !in crowded
      ensures AtMostOne(procs2, fds, e) && AllStuck(procs2, fds, pipes, e)
    {
      assert AtMostOne(procs, fds, e) && AllStuck(procs, fds, pipes, e);
    }
  }

  lemma AwakeOrderly(procs: seq<Proc>, procs2: seq<Proc>, fds: seq<FdTable>, pipes: seq<Value>, crowded: set<End>)
    requires Orderly(procs, fds, pipes, crowded) && Awake(procs, procs2)
    ensures Orderly(procs2, fds, pipes, crowded)
  {
    hide Orderly;
    FewerOrderly(procs, procs2, fds, pipes, crowded);
  }

  /** A pipe changes in such a way that whoever still waits for it is still stuck. */
  lemma PipeOrderly(procs: seq<Proc>, fds: seq<FdTable>, pipes: seq<Value>, i: nat, v: Value, crowded: set<End>)
    requires Orderly(procs, fds, pipes, crowded) && i < |pipes|
    requires forall p :: 0 <= p < |procs| && StuckOn(procs[p], fds[p], i, pipes[i], crowded) ==> Stuck(procs[p], v)
    ensures Orderly(procs, fds, pipes[i := v], crowded)
  {
    hide Stuck, OnPipe, BlockedShape;
    forall e: End | PipeReason(e.reason) && e !in crowded
      ensures AllStuck(procs, fds, pipes[i := v], e)
    {
      assert AllStuck(procs, fds, pipes, e);
      forall p | 0 <= p < |procs| && WaitsAt(procs[p], fds[p], e)
        ensures e.pipe < |pipes| && Stuck(procs[p], pipes[i := v][e.pipe])
      {
        if e.pipe == i {
          assert e == End(i, procs[p].reason);
          assert StuckOn(procs[p], fds[p], i, pipes[i], crowded);
        }
      }
    }
  }

  /** Closing an end leaves those stuck that the last close of the other kind does not wake. */
  lemma CloseOrderly(procs: seq<Proc>, fds: seq<FdTable>, pipes: seq<Value>, i: nat, reading: bool, crowded: set<End>)
    requires Orderly(procs, fds, pipes, crowded) && i < |pipes| && ValueOk(pipes[i])
    requires if reading then pipes[i].readers > 0 else pipes[i].writers > 0
    requires var r := if reading then PipeWriteWait else PipeReadWait;
      (if reading then pipes[i].readers else pipes[i].writers) == 1 && End(i, r) !in crowded ==> NoWaiter(procs, fds, i, r)
    ensures Orderly(procs, fds, pipes[i := AfterClose(pipes[i], reading)], crowded)
  {
    hide Orderly, OnPipe;
    PipeOrderly(procs, fds, pipes, i, AfterClose(pipes[i], reading), crowded);
  }

  /** The pipe is full, or too full for a write that is not to be split. */
  predicate NoRoom(v: Value, count: nat) {
    |v.content| == CAPACITY || (count <= PIPE_BUF && |v.content| + count > CAPACITY)
  }

  /** Whoever is blocked at an end that is not crowded is alone there and cannot go on: a reader has
      an empty pipe that can still be written, a writer a pipe that can still be read and has not
      the space it needs. */
  lemma BlockedMeans(procs: seq<Proc>, fds: seq<FdTable>, pipes: seq<Value>, crowded: set<End>, p: nat)
    requires Orderly(procs, fds, pipes, crowded) && PipesOk(pipes) && p < |procs| && procs[p].state == Blocked && PipeReason(procs[p].reason)
    ensures 0 <= procs[p].blockedFd < |fds[p]| && fds[p][procs[p].blockedFd].Open? && fds[p][procs[p].blockedFd].handle >= HANDLE_BASE
    ensures var e := End(PipeOf(fds[p][procs[p].blockedFd].handle), procs[p].reason);
      e.pipe < |pipes| &&
      (e !in crowded ==>
         && NoneElse(procs, fds, p, e) && procs[p].blockedCount > 0
         && (e.reason == PipeReadWait ==> pipes[e.pipe].content == [] && pipes[e.pipe].writers > 0)
         && (e.reason == PipeWriteWait ==> pipes[e.pipe].readers > 0 && NoRoom(pipes[e.pipe], procs[p].blockedCount)))
  {
    assert BlockedShape(procs[p], fds[p]);
    var e := End(PipeOf(fds[p][procs[p].blockedFd].handle), procs[p].reason);
    assert WaitsAt(procs[p], fds[p], e);
    if e !in crowded {
      assert AtMostOne(procs, fds, e) && AllStuck(procs, fds, pipes, e);
    }
  }

  lemma RetainOrderly(procs: seq<Proc>, fds: seq<FdTable>, pipes: seq<Value>, i: nat, reading: bool, crowded: set<End>)
    requires Orderly(procs, fds, pipes, crowded) && i < |pipes|
    ensures Orderly(procs, fds, pipes[i := AfterRetain(pipes[i], reading)], crowded)
  {
    hide Orderly, OnPipe;
    PipeOrderly(procs, fds, pipes, i, AfterRetain(pipes[i], reading), crowded);
  }

  /** One end of a pipe is closed or retained: one count moves. */
  lemma EndMoved(pipes: seq<Value>, files: seq<nat>, h: nat, v: Value, d: int)
    requires PipesOk(pipes) && |files| == MAX_FILES && IsHandle(h) && h >= HANDLE_BASE && ValueOk(v)
    requires v.readers == pipes[PipeOf(h)].readers + (if IsReadEnd(h) then d else 0)
    requires v.writers == pipes[PipeOf(h)].writers + (if IsReadEnd(h) then 0 else d)
    ensures PipesOk(pipes[PipeOf(h) := v]) && CountsMoved(pipes, files, pipes[PipeOf(h) := v], files, h, d)
  {
    var pipes2 := pipes[PipeOf(h) := v];
    hide PipeOf, IsReadEnd;
    forall x: nat | IsHandle(x)
      ensures CountOf(pipes2, files, x) == CountOf(pipes, files, x) + if x == h then d else 0
    {
      if x >= HANDLE_BASE && PipeOf(x) == PipeOf(h) && IsReadEnd(x) == IsReadEnd(h) {
        assert x == h;
      }
    }
  }

  lemma AwakeKeeps(procs: seq<Proc>, procs2: seq<Proc>, nextPid: nat, h: History, cur: int, fds: seq<FdTable>)
    requires Awake(procs, procs2) && Sound(procs, nextPid, h) && Purposeful(procs) && OneRunning(procs, cur) && Emptied(procs, fds)
    ensures AllAlike(procs, procs2)
    ensures Sound(procs2, nextPid, h) && Purposeful(procs2) && OneRunning(procs2, cur) && Emptied(procs2, fds)
  {
    assert AllAlike(procs, procs2) by {
      assert forall p :: 0 <= p < |procs| ==> Fine(procs[p], nextPid, h);
      hide Reported, Abandoned, LogOk, Distinct, Parents, NoneOverdue, NoneInVain, NoneLost, NoneStranded, Underway;
    }
    hide Sound, AllAlike, AllClosed;
    AlikeSound(procs, procs2, nextPid, h);
  }

  lemma AwakeTrans(a: seq<Proc>, b: seq<Proc>, c: seq<Proc>)
    requires Awake(a, b) && Awake(b, c)
    ensures Awake(a, c)
  {
  }

  lemma DrainedTrans(a: seq<Value>, b: seq<Value>, c: seq<Value>)
    requires Drained(a, b) && Drained(b, c)
    ensures Drained(a, c)
  {
  }

  lemma ChildKeeps(procs: seq<Proc>, i: nat, me: nat, cur: int, nextPid: nat, h: History, fds: seq<FdTable>, pipes: seq<Value>, crowded: set<End>)
    requires i < |procs| == |fds| && procs[i].state == Dead && me < |procs| && Active(procs[me])
    requires Base(procs, cur, nextPid, h, fds) && Orderly(procs, fds, pipes, crowded)
    ensures var procs2 := procs[i := ChildOf(procs[me], nextPid)];
      && Base(procs2, cur, nextPid + 1, Birth(h, nextPid, procs[me].pid), fds) && Orderly(procs2, fds, pipes, crowded)
      && Active(procs2[i]) && procs2[i].state != Blocked && AllClosed(fds[i])
  {
    assert ParentAt(procs, procs[me].pid, me);
    var child := ChildOf(procs[me], nextPid);
    BornSound(procs, i, child, nextPid, h);
    hide Sound, Orderly, AllClosed, Birth;
    UnblockedOrderly(procs, fds, pipes, i, child, crowded);
  }

  /** The next pid is new. */
  lemma NewPid(procs: seq<Proc>, nextPid: nat, h: History)
    requires Sound(procs, nextPid, h)
    ensures nextPid !in h.born
  {
  }

  lemma FreeIsBlank(procs: seq<Proc>, i: nat, nextPid: nat, h: History)
    requires Sound(procs, nextPid, h) && i < |procs| && procs[i].state == Dead
    ensures procs[i] == Blank
  {
    assert Fine(procs[i], nextPid, h);
  }

  /** A pid that was drawn for nothing. */
  lemma LaterPid(procs: seq<Proc>, cur: int, nextPid: nat, h: History, fds: seq<FdTable>)
    requires Base(procs, cur, nextPid, h, fds)
    ensures Base(procs, cur, nextPid + 1, h, fds)
  {
    hide Distinct, Parents, NoneOverdue, NoneInVain, NoneLost, NoneStranded, Underway, Purposeful, OneRunning, Emptied, Reported, Abandoned;
    forall i | 0 <= i < |procs|
      ensures Fine(procs[i], nextPid + 1, h)
    {
      assert Fine(procs[i], nextPid, h);
    }
    hide Fine, ReportOk;
  }

  lemma PreemptKeeps(procs: seq<Proc>, cur: int, next: nat, frame: Frame, nextPid: nat, h: History, fds: seq<FdTable>, pipes: seq<Value>, crowded: set<End>)
    requires |procs| == |fds| && next < |procs| && next != cur && procs[next].state == Ready
    requires 0 <= cur < |procs| ==> procs[cur].frame != NoFrame
    requires Base(procs, cur, nextPid, h, fds) && Orderly(procs, fds, pipes, crowded)
    ensures var p1 := Preempted(procs, cur, frame); var procs2 := p1[next := Dispatch(p1[next])];
      && Base(procs2, next, nextPid, h, fds) && Orderly(procs2, fds, pipes, crowded)
      && p1[next] == procs[next] && procs2[next].frame == procs[next].frame
  {
    var p1 := Preempted(procs, cur, frame);
    PreemptedKeeps(procs, cur, frame, nextPid, h, fds, pipes, crowded);
    assert p1[next] == procs[next];
    hide Base, Orderly, Preempted;
    DispatchKeeps(p1, cur, next, nextPid, h, fds, pipes, crowded);
  }

  lemma PreemptedKeeps(procs: seq<Proc>, cur: int, frame: Frame, nextPid: nat, h: History, fds: seq<FdTable>, pipes: seq<Value>, crowded: set<End>)
    requires |procs| == |fds| && (0 <= cur < |procs| ==> procs[cur].frame != NoFrame)
    requires Base(procs, cur, nextPid, h, fds) && Orderly(procs, fds, pipes, crowded)
    ensures var p1 := Preempted(procs, cur, frame);
      && |p1| == |procs| && Base(p1, cur, nextPid, h, fds) && Orderly(p1, fds, pipes, crowded)
      && forall p :: 0 <= p < |p1| ==> p1[p].state != Running
  {
    var p1 := Preempted(procs, cur, frame);
    if 0 <= cur < |procs| {
      assert Fine(procs[cur], nextPid, h);
      hide Sound, AllClosed, Orderly;
      SameBase(procs, p1, cur, cur, nextPid, h, fds);
      FewerOrderly(procs, p1, fds, pipes, crowded);
    }
  }

  /** The first process, alone in the table. */
  lemma FirstAlone(procs: seq<Proc>, fds: seq<FdTable>, pipes: seq<Value>, first: Frame)
    requires |procs| == |fds| > 0 && procs[0] == Blank.(pid := 1, state := Running, frame := first)
    requires (forall i :: 1 <= i < |procs| ==> procs[i] == Blank) && forall i :: 0 <= i < |fds| ==> AllClosed(fds[i])
    ensures Base(procs, 0, 2, History(map[1 := 0], map[], map[], [], {}, {}, {}), fds) && Orderly(procs, fds, pipes, {})
    ensures Clean(procs) && AtRest(procs)
  {
    var h := History(map[1 := 0], map[], map[], [], {}, {}, {});
    assert Orderly(procs, fds, pipes, {}) by {
      assert forall p, e: End :: 0 <= p < |procs| ==> !WaitsAt(procs[p], fds[p], e);
    }
    hide Orderly, AllClosed;
    assert Fine(procs[0], 2, h) && Fine(Blank, 2, h);
  }

  lemma EmptyTable(fds: seq<FdTable>, pipes: seq<Value>, files: seq<nat>)
    requires (forall p :: 0 <= p < |fds| ==> |fds[p]| == MAX_FDS && AllClosed(fds[p]))
    requires |pipes| == MAX_PIPES && (forall i :: 0 <= i < |pipes| ==> pipes[i] == Unused)
    requires |files| == MAX_FILES && (forall i :: 0 <= i < |files| ==> files[i] == 0)
    ensures Accounted(fds, pipes, files, multiset{})
  {
    forall h: nat | IsHandle(h)
      ensures CountOf(pipes, files, h) == |RefSet(fds, h)|
    {
      assert RefSet(fds, h) == {};
    }
  }

  lemma SweptNone(procs: seq<Proc>)
    ensures Swept(procs, procs, 0)
  {
  }

  lemma SweptMore(procs0: seq<Proc>, a: seq<Proc>, b: seq<Proc>, i: nat, me: int)
    requires Swept(procs0, a, i) && i < |a| && (b == a || (a[i].state == Zombie && b == a[i := Blank]))
    requires b[i].state == Zombie && i != me ==> !b[i].waited
    requires 0 <= me < |procs0| ==> procs0[me].state == Running
    ensures Swept(procs0, b, i + 1)
  {
    BlankDead();
  }

  lemma SweptClean(procs0: seq<Proc>, procs: seq<Proc>)
    requires Swept(procs0, procs, |procs0|)
    ensures Clean(procs) && (AtRest(procs0) ==> AtRest(procs))
    ensures forall frame :: Settled(procs, frame) <==> Settled(procs0, frame)
  {
    BlankDead();
    assert forall k :: 0 <= k < |procs| && (procs0[k].state == Running || procs[k].state == Running) ==> procs[k] == procs0[k];
  }

  lemma SweptRuns(procs0: seq<Proc>, procs: seq<Proc>, me: nat)
    requires Swept(procs0, procs, |procs|) && me < |procs| && procs0[me].state == Running
    ensures procs[me] == procs0[me]
  {
  }

  /** Who was woken from a wait was not blocked on a pipe. */
  lemma ReasonOrWait(procs: seq<Proc>, me: nat, nextPid: nat, h: History)
    requires Sound(procs, nextPid, h) && me < |procs| && Active(procs[me])
    ensures PipeReason(procs[me].reason) ==> !procs[me].completing
  {
    assert Fine(procs[me], nextPid, h);
  }

  lemma BlankDead()
    ensures Blank.state == Dead
  {
  }

  lemma NoLongerBlocked(procs: seq<Proc>, me: nat, nextPid: nat, h: History, r: Result)
    requires Sound(procs, nextPid, h) && me < |procs| && procs[me].state == Running && !procs[me].completing
    ensures var q := Unblocked(procs[me], r);
      Alike(procs[me], q) && q.state == Running && SameRun(procs[me], q) && !PipeReason(q.reason) && !q.completing
  {
    assert Fine(procs[me], nextPid, h);
  }

  /** The parent that was woken gets what it carries. */
  lemma HandKeeps(procs: seq<Proc>, me: nat, cur: int, nextPid: nat, h: History, fds: seq<FdTable>, pipes: seq<Value>, crowded: set<End>, copies: bool)
    requires me < |procs| == |fds| && procs[me].state == Running && procs[me].completing
    requires Base(procs, cur, nextPid, h, fds) && Orderly(procs, fds, pipes, crowded)
    ensures var q := StatusCopied(procs[me], copies);
      && Base(procs[me := q], cur, nextPid, Hand(h, ReportOf(procs[me]), Reaches(procs[me], copies)), fds)
      && Orderly(procs[me := q], fds, pipes, crowded)
      && q.state == Running && SameRun(procs[me], q) && !q.completing && !PipeReason(q.reason)
    ensures Underway(h, ReportOf(procs[me])) && procs[me].eax == ReportOf(procs[me]).child
  {
    var q := StatusCopied(procs[me], copies);
    assert Fine(procs[me], nextPid, h);
    HandedSound(procs, me, q, nextPid, h, Reaches(procs[me], copies));
    hide Sound, Orderly, AllClosed, Hand;
    UnblockedOrderly(procs, fds, pipes, me, q, crowded);
  }

  lemma AwakeElsewhere(procs: seq<Proc>, woken: seq<Proc>, me: nat, p: Proc)
    requires Awake(procs, woken) && me < |procs|
    ensures Awake(procs[me := p], woken[me := p])
  {
  }

  lemma RunsSettled(before: seq<Proc>, middle: seq<Proc>, after: seq<Proc>, me: nat)
    requires me < |before| && before[me].state == Running
    requires |middle| == |before| && middle == before[me := middle[me]] && SameRun(before[me], middle[me])
    requires |after| == |middle| && Awake(middle[me := after[me]], after) && SameRun(middle[me], after[me])
    ensures forall frame :: Settled(after, frame) <==> Settled(before, frame)
  {
    assert forall k :: 0 <= k < |after| && (after[k].state == Running || before[k].state == Running) ==>
      before[k].state == Running && after[k].state == Running && after[k].pending == before[k].pending;
  }

  lemma RunsAtRest(procs: seq<Proc>, me: nat, cur: int)
    requires me < |procs| && OneRunning(procs, cur) && cur == me && !procs[me].completing && !PipeReason(procs[me].reason)
    ensures AtRest(procs)
  {
  }

  lemma SameRunSelf(p: Proc)
    ensures SameRun(p, p)
  {
  }

  lemma StatusCopiedFacts(p: Proc, copies: bool)
    ensures var q := StatusCopied(p, copies);
      q.pid == p.pid && q.state == p.state && q.eax == if Reaches(p, copies) then p.eax else -2
  {
  }

  lemma NothingToHand(procs: seq<Proc>, cur: int, h: History, copies: bool)
    requires forall p :: 0 <= p < |procs| ==> procs[p].state != Running
    ensures HandedOver(procs, cur, h, copies, procs, h, []) && AtRest(procs)
  {
  }

  /** The blocked read or write does not touch what was handed over. */
  lemma HandedKept(before: seq<Proc>, middle: seq<Proc>, after: seq<Proc>, me: nat, cur: int, h: History, copies: bool, h2: History, written: seq<nat>)
    requires HandedOver(before, cur, h, copies, middle, h2, written) && me == cur && me < |before| == |middle| == |after|
    requires before[me].completing ==> after == middle
    requires after[me].state == middle[me].state && after[me].pid == middle[me].pid
    ensures HandedOver(before, cur, h, copies, after, h2, written)
  {
  }

  /** Neither does the sweep over the zombies. */
  lemma HandedStays(before: seq<Proc>, cur: int, h: History, copies: bool, calm: seq<Proc>, after: seq<Proc>, h2: History, written: seq<nat>)
    requires HandedOver(before, cur, h, copies, calm, h2, written) && Swept(calm, after, |after|)
    ensures HandedOver(before, cur, h, copies, after, h2, written)
  {
    BlankDead();
  }

  /** What a woken process carries is the one report that is due to it, as it asked. */
  lemma HandedDelivered(before: seq<Proc>, cur: int, nextPid: nat, h: History, copies: bool, after: seq<Proc>, h2: History, written: seq<nat>)
    requires Sound(before, nextPid, h) && HandedOver(before, cur, h, copies, after, h2, written)
    ensures Delivered(after, cur, h, copies, h2, written)
  {
    hide Parents, NoneOverdue, NoneInVain, NoneLost, LogOk, Reported, Abandoned, Hand;
    forall r | DueTo(h, r, after, cur)
      ensures before[cur].completing && r == ReportOf(before[cur])
    {
      assert Fine(before[cur], nextPid, h);
      var j :| CarriedBy(before, r, j);
      assert Fine(before[j], nextPid, h);
    }
    if 0 <= cur < |before| && before[cur].state == Running && before[cur].completing {
      assert Fine(before[cur], nextPid, h);
      assert DueTo(h, ReportOf(before[cur]), after, cur);
    }
  }

  lemma BoundSelf(crowded: set<End>, procs: seq<Proc>, fds: seq<FdTable>, cur: int, e: Event)
    ensures CrowdedBound(crowded, crowded, procs, fds, cur, e)
  {
  }

  lemma JoinsOnly(crowded: set<End>, crowded2: set<End>, procs: seq<Proc>, fds: seq<FdTable>, me: nat, f: nat, e: Event, x: End)
    requires crowded2 == crowded || crowded2 == CrowdedNow(procs, fds, me, x, crowded)
    requires me < |procs| == |fds| && OnPipe(fds[me], f, x.pipe)
    requires (e.Read? && e.f == f && x.reason == PipeReadWait) || (e.Write? && e.f == f && x.reason == PipeWriteWait)
    ensures CrowdedBound(crowded, crowded2, procs, fds, me, e)
  {
    hide NoneElse, OnPipe;
  }

  lemma RanBefore(procs: seq<Proc>, woken: seq<Proc>, procs2: seq<Proc>)
    requires Awake(procs, woken) && Calmer(woken, procs2)
    ensures OnlyRanBefore(procs, procs2)
  {
  }

  lemma SoleRunner(procs: seq<Proc>, me: nat, cur: int, nextPid: nat, h: History, fds: seq<FdTable>)
    requires Base(procs, cur, nextPid, h, fds) && me < |procs| && procs[me].state == Running
    ensures forall p :: 0 <= p < |procs| && procs[p].state == Running ==> p == me
  {
  }

  /** Once the running process is a zombie, nobody runs. */
  lemma NobodyRuns(procs: seq<Proc>, middle: seq<Proc>, me: nat, frame: Frame)
    requires me < |procs| == |middle| && OnlyRanBefore(procs, middle) && middle[me].state == Zombie
    requires forall p :: 0 <= p < |procs| && procs[p].state == Running ==> p == me
    ensures forall p :: 0 <= p < |middle| ==> middle[p].state != Running
    ensures forall p :: 0 <= p < |middle| ==> Stopped(middle, me, frame, Zombie)[p].state != Running
  {
  }

  /** The process that runs next has the signals it had, and SIGCHLD if its child died. */
  lemma DispatchedSignals(procs: seq<Proc>, middle: seq<Proc>, me: nat, next: nat)
    requires ExitSignals(procs, middle, me) && next < |procs| && next != me && middle[next].state == Ready
    requires Actives(middle) == Actives(procs) - {me as int}
    ensures Dispatch(middle[next]).pending == PendingAfter(procs, me, next) && Dispatch(middle[next]).frame == procs[next].frame
    ensures Dispatch(middle[next]).state == Running
  {
    assert next in Actives(middle);
  }

  /** Whether a fatal fault leaves a signal pending can be told from the state before it and from
      who runs next. */
  lemma FaultUnsettled(e: Event, frame: Frame, procs: seq<Proc>, cur: int, out: Frame, procs2: seq<Proc>, cur2: int)
    requires FaultServed(e, frame, procs, cur, out, procs2, cur2) && e.fatal && out != NoFrame
    ensures 0 <= cur < |procs| && 0 <= cur2 < |procs|
    ensures Settled(procs2, out) <==> FaultSettles(procs, cur, cur2, out)
  {
  }

  const Sleeper: Proc := Blank.(pid := 1, state := Blocked, waiting := true, target := ANY, reason := WaitChild, frame := UserFrame)
  const Faulter: Proc := Blank.(pid := 2, parent := 1, state := Running, frame := UserFrame)

  /** A parent that sleeps in wait, while its child runs. */
  function ParentWaits(): (r: seq<Proc>)
    ensures |r| == MAX_PROCESSES && r[0] == Sleeper && r[1] == Faulter && forall i :: 2 <= i < |r| ==> r[i] == Blank
  {
    seq(MAX_PROCESSES, i => if i == 0 then Sleeper else if i == 1 then Faulter else Blank)
  }

  ghost function ParentWaitsRecord(): History {
    History(map[1 := 0, 2 := 1], map[], map[1 := Ask(ANY, false, false)], [], {}, {}, {})
  }

  /** No signal is pending in this state, and everything is in order. */
  lemma ParentWaitsSound()
    ensures Sound(ParentWaits(), 3, ParentWaitsRecord()) && Clean(ParentWaits()) && AtRest(ParentWaits())
    ensures Settled(ParentWaits(), UserFrame)
  {
    hide ParentWaits, Fine, LogOk, AllFine, NoneStranded, NoneLost, ParentWaitsRecord;
    var procs := ParentWaits();
    ParentWaitsFine();
    assert ParentAt(procs, 1, 0);
    assert Awaited(procs, procs[0], 1);
  }

  lemma ParentWaitsFine()
    ensures var procs, h := ParentWaits(), ParentWaitsRecord();
      LogOk(h, 3) && AllFine(procs, 3, h) && NoneStranded(procs, h) && NoneLost(procs, h)
  {
    hide ParentWaits;
    var h := ParentWaitsRecord();
    assert Fine(Sleeper, 3, h) && Fine(Faulter, 3, h) && Fine(Blank, 3, h);
  }

  /** When the child faults here, its exit dispatches the parent, which returns to its program with
      SIGCHLD pending. */
  lemma FaultLeavesSignal(code: nat)
    ensures var procs := ParentWaits();
      var middle := procs[0 := Completed(Signalled(procs[0], SIGCHLD), 2, code)][1 := Received(Zombified(procs[1], Ending(code, 0)))];
      var after := Stopped(middle, 1, UserFrame, Zombie)[0 := Dispatch(middle[0])];
      && ExitStep(procs, middle, 1, Ending(code, 0), 0)
      && FaultServed(Fault(true, code), UserFrame, procs, 1, UserFrame, after, 0)
      && !FaultSettles(procs, 1, 0, UserFrame) && !Settled(after, UserFrame)
  {
    var procs := ParentWaits();
    assert ParentAt(procs, 1, 0);
    var middle := procs[0 := Completed(Signalled(procs[0], SIGCHLD), 2, code)][1 := Received(Zombified(procs[1], Ending(code, 0)))];
    var after := Stopped(middle, 1, UserFrame, Zombie)[0 := Dispatch(middle[0])];
    assert after[0].state == Running && SIGCHLD in after[0].pending;
    assert !FaultSettles(procs, 1, 0, UserFrame);
  }

  /** A zombie goes exactly if its status was received or nobody can ask for it. */
  lemma WaitedIff(procs: seq<Proc>, i: nat, nextPid: nat, h: History)
    requires Sound(procs, nextPid, h) && i < |procs|
    ensures procs[i].state == Zombie && procs[i].parent == 0 ==> procs[i].waited
    ensures procs[i].state == Zombie && procs[i].parent != 0 ==> exists j :: InTable(procs, procs[i].parent, j) && Active(procs[j])
  {
    assert Fine(procs[i], nextPid, h);
    if procs[i].state == Zombie && procs[i].parent != 0 {
      var j :| ParentAt(procs, procs[i].parent, j);
      assert InTable(procs, procs[i].parent, j);
    }
  }

  lemma OwnPid(procs: seq<Proc>, me: nat, nextPid: nat, h: History)
    requires Sound(procs, nextPid, h) && me < |procs| && Active(procs[me])
    ensures procs[me].pid != 0 && procs[me].parent != procs[me].pid
    ensures forall k :: 0 <= k < |procs| && procs[k].state == Zombie ==> procs[k].pid != 0
    ensures forall k :: 0 <= k < |procs| && Active(procs[k]) ==> !procs[k].waited
  {
    assert forall k :: 0 <= k < |procs| ==> Fine(procs[k], nextPid, h);
  }

  lemma PlainReport(z: Proc)
    ensures ReportFor(z, false) == Report(z.pid, z.parent, z.exitCode, false)
    ensures ReportFor(z, true) == Report(z.pid, z.parent, if z.killedBy != 0 then Encoded(0, z.killedBy) else Encoded(z.exitCode, 0), true)
  {
  }

  lemma ClosedShut(procs: seq<Proc>, fds: seq<FdTable>, i: nat)
    requires Emptied(procs, fds) && i < |procs| && !Active(procs[i])
    ensures fds[i := Shut(fds[i], MAX_FDS, false)] == fds && AllShared(fds, i)
  {
    assert AllClosed(fds[i]);
    assert Shut(fds[i], MAX_FDS, false) == fds[i];
  }

  lemma DestroyKeeps(procs: seq<Proc>, i: nat, cur: int, nextPid: nat, h: History, fds: seq<FdTable>, pipes: seq<Value>, crowded: set<End>)
    requires i < |procs| == |fds| && procs[i].state == Zombie && procs[i].waited
    requires Base(procs, cur, nextPid, h, fds) && Orderly(procs, fds, pipes, crowded)
    ensures Base(procs[i := Blank], cur, nextPid, h, fds) && Orderly(procs[i := Blank], fds, pipes, crowded)
  {
    DestroyedSound(procs, i, nextPid, h);
    hide Sound, Orderly, AllClosed;
    UnblockedOrderly(procs, fds, pipes, i, Blank, crowded);
  }

  lemma ReceiveKeeps(procs: seq<Proc>, i: nat, posix: bool, cur: int, nextPid: nat, h: History, fds: seq<FdTable>, pipes: seq<Value>, crowded: set<End>)
    requires i < |procs| == |fds| && procs[i].state == Zombie && !procs[i].waited
    requires Base(procs, cur, nextPid, h, fds) && Orderly(procs, fds, pipes, crowded)
    ensures var procs2 := procs[i := Received(procs[i])];
      && Base(procs2, cur, nextPid, HandNow(h, ReportFor(procs[i], posix)), fds) && Orderly(procs2, fds, pipes, crowded)
      && procs2[i].state == Zombie && procs2[i].waited
  {
    ReceivedSound(procs, i, nextPid, h, posix);
    hide Sound, Orderly, AllClosed, HandNow, ReportFor;
    UnblockedOrderly(procs, fds, pipes, i, Received(procs[i]), crowded);
  }

  lemma AllExited(procs: seq<Proc>, nextPid: nat, h: History)
    requires Sound(procs, nextPid, h)
    ensures forall k :: 0 <= k < |procs| && procs[k].state == Zombie ==> procs[k].exited && procs[k].pid != 0
  {
    assert forall k :: 0 <= k < |procs| ==> Fine(procs[k], nextPid, h);
  }

  lemma CancelKeeps(procs: seq<Proc>, me: nat, target: nat, wantsStatus: bool, posix: bool, frame: Frame,
                    nextPid: nat, h: History, fds: seq<FdTable>, pipes: seq<Value>, crowded: set<End>)
    requires me < |procs| == |fds| && procs[me].state == Running && !procs[me].completing
    requires Base(procs, me, nextPid, h, fds) && Orderly(procs, fds, pipes, crowded)
    ensures var p := WaitCancelled(Halt(WaitBegun(procs[me], target, wantsStatus, posix), frame, Running));
      Base(procs[me := p], me, nextPid, h, fds) && Orderly(procs[me := p], fds, pipes, crowded) && p.state == Running
  {
    var p := WaitCancelled(Halt(WaitBegun(procs[me], target, wantsStatus, posix), frame, Running));
    assert Fine(procs[me], nextPid, h);
    hide Orderly, AllClosed;
    CancelSound(procs, me, p, nextPid, h);
    hide Sound;
    UnblockedOrderly(procs, fds, pipes, me, p, crowded);
  }

  /** Only the target of a process that does not wait changes. */
  lemma CancelSound(procs: seq<Proc>, me: nat, p: Proc, nextPid: nat, h: History)
    requires Sound(procs, nextPid, h) && me < |procs| && Active(procs[me]) && !procs[me].waiting && !procs[me].completing
    requires Alike(procs[me].(target := p.target), p)
    ensures Sound(procs[me := p], nextPid, h)
  {
    var procs1 := procs[me := procs[me].(target := p.target)];
    assert Sound(procs1, nextPid, h) by {
      TargetSound(procs, me, p.target, nextPid, h);
    }
    hide Sound;
    assert AllAlike(procs1, procs[me := p]);
    AlikeSound(procs1, procs[me := p], nextPid, h);
  }

  lemma TargetSound(procs: seq<Proc>, me: nat, target: nat, nextPid: nat, h: History)
    requires Sound(procs, nextPid, h) && me < |procs| && Active(procs[me]) && !procs[me].waiting && !procs[me].completing
    ensures Sound(procs[me := procs[me].(target := target)], nextPid, h)
  {
    hide LogOk, Reported, Abandoned, Underway, NoneStranded, NoneLost, Parents, Distinct, NoneOverdue, NoneInVain;
    var procs2 := procs[me := procs[me].(target := target)];
    assert AllFine(procs2, nextPid, h) by {
      assert forall k :: 0 <= k < |procs| ==> Fine(procs[k], nextPid, h);
    }
    hide Fine, AllFine;
    TargetRelated(procs, me, target, h);
    StrandedKept(procs, procs2, h, h);
  }

  lemma TargetRelated(procs: seq<Proc>, me: nat, target: nat, h: History)
    requires Distinct(procs) && Parents(procs) && NoneLost(procs, h) && NoneOverdue(procs) && NoneInVain(procs)
    requires me < |procs| && Active(procs[me]) && !procs[me].waiting
    ensures var procs2 := procs[me := procs[me].(target := target)];
      Distinct(procs2) && Parents(procs2) && NoneLost(procs2, h) && NoneOverdue(procs2) && NoneInVain(procs2)
  {
    var procs2 := procs[me := procs[me].(target := target)];
    hide Reported, Abandoned, Distinct, Parents, NoneLost;
    assert Carried(procs, procs2, h);
    CarriedRelated(procs, procs2, h);
    forall k | 0 <= k < |procs2| && procs2[k].waiting
      ensures exists j :: Awaited(procs2, procs2[k], j)
    {
      CarriedAwaited(procs, procs2, h, k);
    }
  }

  lemma WaitKeeps(procs: seq<Proc>, me: nat, target: nat, wantsStatus: bool, posix: bool, frame: Frame, next: nat, child: nat,
                  nextPid: nat, h: History, fds: seq<FdTable>, pipes: seq<Value>, crowded: set<End>)
    requires me < |procs| == |fds| && procs[me].state == Running && !procs[me].completing && next < |procs| && procs[next].state == Ready
    requires Base(procs, me, nextPid, h, fds) && Orderly(procs, fds, pipes, crowded)
    requires forall k :: 0 <= k < |procs| && Unreported(procs[k], procs[me].pid) ==> !Matches(target, procs[k].pid)
    requires child != me && child < |procs| && Active(procs[child]) && procs[child].parent == procs[me].pid && Matches(target, procs[child].pid)
    ensures var procs2 := procs[me := Halt(WaitBegun(procs[me], target, wantsStatus, posix), frame, Blocked)][next := Dispatch(procs[next])];
      Base(procs2, next, nextPid, Asks(h, procs[me].pid, Ask(target, wantsStatus, posix)), fds) && Orderly(procs2, fds, pipes, crowded)
  {
    var p := Halt(WaitBegun(procs[me], target, wantsStatus, posix), frame, Blocked);
    var p1, h2 := procs[me := p], Asks(h, procs[me].pid, Ask(target, wantsStatus, posix));
    WaitBase(procs, me, target, wantsStatus, posix, frame, child, nextPid, h, fds);
    WaitOrderly(procs, fds, pipes, me, p, crowded);
    hide Base, Orderly, Dispatch, WaitBegun, Halt, Asks;
    DispatchKeeps(p1, me, next, nextPid, h2, fds, pipes, crowded);
  }

  lemma WaitBase(procs: seq<Proc>, me: nat, target: nat, wantsStatus: bool, posix: bool, frame: Frame, child: nat,
                 nextPid: nat, h: History, fds: seq<FdTable>)
    requires me < |procs| == |fds| && procs[me].state == Running && !procs[me].completing && Base(procs, me, nextPid, h, fds)
    requires forall k :: 0 <= k < |procs| && Unreported(procs[k], procs[me].pid) ==> !Matches(target, procs[k].pid)
    requires child != me && child < |procs| && Active(procs[child]) && procs[child].parent == procs[me].pid && Matches(target, procs[child].pid)
    ensures var p1 := procs[me := Halt(WaitBegun(procs[me], target, wantsStatus, posix), frame, Blocked)];
      && Base(p1, me, nextPid, Asks(h, procs[me].pid, Ask(target, wantsStatus, posix)), fds)
      && forall k :: 0 <= k < |p1| ==> p1[k].state != Running
  {
    var p := Halt(WaitBegun(procs[me], target, wantsStatus, posix), frame, Blocked);
    assert Fine(procs[me], nextPid, h);
    hide Sound, AllClosed, Asks;
    WaitingSound(procs, me, p, nextPid, h, child);
  }

  lemma WaitOrderly(procs: seq<Proc>, fds: seq<FdTable>, pipes: seq<Value>, me: nat, p: Proc, crowded: set<End>)
    requires Orderly(procs, fds, pipes, crowded) && me < |procs| && !PipeReason(p.reason)
    ensures Orderly(procs[me := p], fds, pipes, crowded)
  {
    hide Orderly;
    FewerOrderly(procs, procs[me := p], fds, pipes, crowded);
  }

  lemma UpdateKeeps(procs: seq<Proc>, me: nat, cur: int, p: Proc, nextPid: nat, h: History, fds: seq<FdTable>, pipes: seq<Value>, crowded: set<End>)
    requires me < |procs| == |fds| && procs[me].state == Running && p.state == Running && Alike(procs[me], p)
    requires Base(procs, cur, nextPid, h, fds) && Orderly(procs, fds, pipes, crowded)
    ensures Base(procs[me := p], cur, nextPid, h, fds) && Orderly(procs[me := p], fds, pipes, crowded)
    ensures Actives(procs[me := p]) == Actives(procs)
  {
    hide Sound, Orderly, AllClosed;
    SameBase(procs, procs[me := p], cur, cur, nextPid, h, fds);
    UnblockedOrderly(procs, fds, pipes, me, p, crowded);
  }

  lemma SignalKeeps(procs: seq<Proc>, i: nat, cur: int, sig: nat, nextPid: nat, h: History, fds: seq<FdTable>, pipes: seq<Value>, crowded: set<End>)
    requires i < |procs| == |fds| && Active(procs[i])
    requires Base(procs, cur, nextPid, h, fds) && Orderly(procs, fds, pipes, crowded)
    ensures var procs2 := procs[i := Signalled(procs[i], sig)];
      Base(procs2, cur, nextPid, Send(h, procs[i].pid, sig), fds) && Orderly(procs2, fds, pipes, crowded) && Actives(procs2) == Actives(procs)
  {
    var procs2 := procs[i := Signalled(procs[i], sig)];
    SentSound(procs, i, sig, nextPid, h);
    hide Sound, Orderly, AllClosed, Send;
    assert Calmer(procs, procs2);
    CalmerOrderly(procs, procs2, fds, pipes, crowded);
  }

  lemma ClearedAlike(p: Proc, sig: nat)
    requires p.state == Running && sig == SIGCHLD
    ensures Alike(p, Cleared(p, sig)) && Cleared(p, sig).state == Running
  {
  }

  lemma SettledWhen(procs: seq<Proc>, me: nat, frame: Frame)
    requires me < |procs| && OneRunning(procs, me) && procs[me].pending !! {SIGKILL, SIGTERM, SIGCHLD}
    ensures Settled(procs, frame)
  {
  }

  lemma FewerActives(procs: seq<Proc>, me: nat)
    requires me < |procs| && Active(procs[me])
    ensures |Actives(procs) - {me as int}| < |Actives(procs)|
  {
    assert me as int in Actives(procs);
  }

  lemma FewerPending(p: Proc, sig: nat)
    requires sig in p.pending
    ensures |Cleared(p, sig).pending| < |p.pending|
  {
  }

  lemma UniquePid(procs: seq<Proc>, pid: nat, nextPid: nat, h: History)
    requires Sound(procs, nextPid, h)
    ensures forall i, j :: InTable(procs, pid, i) && InTable(procs, pid, j) ==> i == j
    ensures forall i :: !InTable(procs, 0, i)
  {
    assert forall i :: 0 <= i < |procs| ==> Fine(procs[i], nextPid, h);
  }

  lemma ClosedAll(fds: seq<FdTable>, p: nat)
    requires FdsOk(fds) && p < |fds|
    ensures AllClosed(Shut(fds[p], MAX_FDS, false))
  {
    ShutAll(fds[p]);
  }

  lemma AwakeActives(procs: seq<Proc>, procs2: seq<Proc>, me: nat)
    requires Awake(procs, procs2) && me < |procs|
    ensures |procs2| == |procs| && Actives(procs2) == Actives(procs) && (procs[me].state != Blocked ==> procs2[me] == procs[me])
  {
  }

  lemma ExitActives(procs: seq<Proc>, procs2: seq<Proc>, me: nat, e: Ending, pa: int)
    requires ExitStep(procs, procs2, me, e, pa) && Active(procs[me])
    ensures Actives(procs2) == Actives(procs) - {me as int}
    ensures procs2[me].state == Zombie && procs2[me].pid == procs[me].pid && procs2[me].exitCode == e.code && procs2[me].killedBy == e.sig
  {
    ExitOthers(procs, procs2, me, e, pa);
    hide Alike, Resumed, Orphan, Completes;
  }

  /** A zombie hands the processor over. */
  lemma SwitchKeeps(procs: seq<Proc>, me: nat, next: int, frame: Frame, nextPid: nat, h: History,
                    fds: seq<FdTable>, pipes: seq<Value>, crowded: set<End>)
    requires me < |procs| == |fds| && procs[me].state == Zombie && next < |procs| && (next >= 0 ==> procs[next].state == Ready)
    requires Base(procs, me, nextPid, h, fds) && Orderly(procs, fds, pipes, crowded)
    ensures var procs2 := Stopped(procs, me, frame, Zombie);
      Base(procs2, me, nextPid, h, fds) && Orderly(procs2, fds, pipes, crowded) && Actives(procs2) == Actives(procs)
    ensures next >= 0 ==> var procs2 := Stopped(procs, me, frame, Zombie)[next := Dispatch(procs[next])];
      Base(procs2, next, nextPid, h, fds) && Orderly(procs2, fds, pipes, crowded) && Actives(procs2) == Actives(procs)
  {
    var p1 := Stopped(procs, me, frame, Zombie);
    HaltKeeps(procs, me, frame, nextPid, h, fds, pipes, crowded);
    assert forall p :: 0 <= p < |procs| && p1[p].state == Running ==> p == me;
    hide Base, Orderly, Dispatch, Actives;
    if next >= 0 {
      DispatchKeeps(p1, me, next, nextPid, h, fds, pipes, crowded);
    }
  }

  lemma HaltKeeps(procs: seq<Proc>, me: nat, frame: Frame, nextPid: nat, h: History, fds: seq<FdTable>, pipes: seq<Value>, crowded: set<End>)
    requires me < |procs| == |fds| && procs[me].state == Zombie
    requires Base(procs, me, nextPid, h, fds) && Orderly(procs, fds, pipes, crowded)
    ensures var procs2 := Stopped(procs, me, frame, Zombie);
      Base(procs2, me, nextPid, h, fds) && Orderly(procs2, fds, pipes, crowded) && Actives(procs2) == Actives(procs)
  {
    var p1 := Stopped(procs, me, frame, Zombie);
    hide Sound, Orderly, AllClosed;
    SameBase(procs, p1, me, me, nextPid, h, fds);
    UnblockedOrderly(procs, fds, pipes, me, p1[me], crowded);
  }

  /** A ready process starts to run when nobody else does. */
  lemma DispatchKeeps(procs: seq<Proc>, cur: int, next: nat, nextPid: nat, h: History, fds: seq<FdTable>, pipes: seq<Value>, crowded: set<End>)
    requires next < |procs| == |fds| && procs[next].state == Ready && forall p :: 0 <= p < |procs| ==> procs[p].state != Running
    requires Base(procs, cur, nextPid, h, fds) && Orderly(procs, fds, pipes, crowded)
    ensures var procs2 := procs[next := Dispatch(procs[next])];
      Base(procs2, next, nextPid, h, fds) && Orderly(procs2, fds, pipes, crowded) && Actives(procs2) == Actives(procs)
  {
    assert Fine(procs[next], nextPid, h);
    hide Sound, Orderly, AllClosed;
    SameBase(procs, procs[next := Dispatch(procs[next])], cur, next, nextPid, h, fds);
    UnblockedOrderly(procs, fds, pipes, next, Dispatch(procs[next]), crowded);
  }

  lemma CalmerOrderly(procs: seq<Proc>, procs2: seq<Proc>, fds: seq<FdTable>, pipes: seq<Value>, crowded: set<End>)
    requires Orderly(procs, fds, pipes, crowded) && Calmer(procs, procs2)
    ensures Orderly(procs2, fds, pipes, crowded)
  {
    hide Orderly;
    FewerOrderly(procs, procs2, fds, pipes, crowded);
  }

  /** The exiting process has an active parent other than itself, or none. */
  lemma OwnParent(procs: seq<Proc>, me: nat, nextPid: nat, h: History)
    requires Sound(procs, nextPid, h) && me < |procs| && Active(procs[me]) && procs[me].state != Blocked
    ensures Prepared(procs, me)
  {
    assert forall k :: 0 <= k < |procs| ==> Fine(procs[k], nextPid, h);
  }

  /** Marking the exiting process and orphaning its children changes no pid and no state but its own. */
  lemma BuriedKeeps(procs: seq<Proc>, me: nat, e: Ending, procs2: seq<Proc>)
    requires Prepared(procs, me) && Buried(procs, me, e, procs2)
    ensures |procs2| == |procs| && procs2[me].pid == procs[me].pid
    ensures forall pid, k :: InTable(procs2, pid, k) <==> InTable(procs, pid, k)
    ensures procs[me].parent != 0 ==>
      (exists j :: ParentAt(procs, procs[me].parent, j)) &&
      forall k :: InTable(procs, procs[me].parent, k) ==> k != me && ParentAt(procs, procs[me].parent, k) && procs2[k].state != Zombie
    ensures forall k :: 0 <= k < |procs| && k != me ==> procs2[k].isWaitpid == procs[k].isWaitpid
  {
  }

  lemma NoParentExit(procs: seq<Proc>, me: nat, e: Ending, procs2: seq<Proc>)
    requires Prepared(procs, me) && Buried(procs, me, e, procs2) && procs[me].parent == 0
    ensures ExitStep(procs, procs2[me := Received(procs2[me])], me, e, -1)
    ensures Calmer(procs, procs2[me := Received(procs2[me])])
    ensures ExitSignals(procs, procs2[me := Received(procs2[me])], me)
  {
  }

  lemma ParentSignals(procs: seq<Proc>, me: nat, e: Ending, pa: nat, procs1: seq<Proc>, status: nat, procs2: seq<Proc>)
    requires Prepared(procs, me) && Buried(procs, me, e, procs1) && Notified(procs1, me, pa, status, procs2)
    requires procs[me].parent != 0 && ParentAt(procs, procs[me].parent, pa)
    ensures ExitSignals(procs, procs2, me)
  {
    forall i | 0 <= i < |procs| && i != me && Active(procs[i])
      ensures procs2[i].pending == PendingAfter(procs, me, i) && procs2[i].frame == procs[i].frame
    {
      assert procs1[i] == Orphan(procs[i], procs[me].pid);
      assert procs[i].pid == procs[me].parent ==> InTable(procs, procs[me].parent, i);
    }
  }

  /** Wakings raise no signal and move no frame. */
  lemma AwakeSignals(procs: seq<Proc>, woken: seq<Proc>, procs2: seq<Proc>, me: nat)
    requires Awake(procs, woken) && ExitSignals(woken, procs2, me) && me < |procs| && procs[me].state != Blocked
    ensures ExitSignals(procs, procs2, me)
  {
  }

  lemma RecordFacts(p: Proc, pid: nat)
    ensures Alike(p, p) && (Live(p) ==> Alike(p, Signalled(p, SIGCHLD))) && SameBlock(p, Signalled(p, SIGCHLD))
    ensures SameBlock(p, Orphan(p, pid)) && Orphan(p, pid).isWaitpid == p.isWaitpid && Orphan(p, pid).target == p.target
    ensures Signalled(p, SIGCHLD).target == p.target && Orphan(p, pid).pid == p.pid
  {
  }

  lemma ZombieFacts(m: Proc, e: Ending)
    requires m.parent < m.pid && !m.waited && !m.waiting
    ensures var z := Orphan(Zombified(m, e), m.pid);
      && BecomesZombie(m, z, e, false) && BecomesZombie(m, Received(z), e, true)
  {
  }

  lemma CompletedFacts(p: Proc, child: nat, status: nat, e: Ending)
    requires Active(p) && status == StatusOf(e, p.isWaitpid)
    ensures var q := Completed(Signalled(p, SIGCHLD), child, status);
      Resumed(p, q, child, e) && q.state == Ready
  {
  }

  lemma ParentExit(procs: seq<Proc>, me: nat, e: Ending, pa: nat, procs1: seq<Proc>, status: nat, procs2: seq<Proc>)
    requires Prepared(procs, me) && Buried(procs, me, e, procs1) && Notified(procs1, me, pa, status, procs2)
    requires procs[me].parent != 0 && ParentAt(procs, procs[me].parent, pa)
    requires status == StatusOf(e, procs[pa].isWaitpid)
    ensures ExitStep(procs, procs2, me, e, pa) && Calmer(procs, procs2)
  {
    hide StatusOf, Alike, Orphan, Signalled, Completed, Zombified, Received, Resumed, BecomesZombie;
    var pid, m, o := procs[me].pid, procs[me], Orphan(procs[pa], procs[me].pid);
    ZombieFacts(m, e);
    forall k | 0 <= k < |procs|
      ensures SameBlock(procs[k], Orphan(procs[k], pid)) && Alike(Orphan(procs[k], pid), Orphan(procs[k], pid))
    {
      RecordFacts(procs[k], pid);
      RecordFacts(Orphan(procs[k], pid), pid);
    }
    RecordFacts(procs[pa], pid);
    RecordFacts(o, pid);
    CompletedFacts(o, pid, status, e);
    assert procs1[me].pid == pid;
  }

  lemma ExitKeeps(procs: seq<Proc>, procs2: seq<Proc>, me: nat, e: Ending, pa: int, nextPid: nat, h: History, cur: int,
                  fds: seq<FdTable>, pipes: seq<Value>, crowded: set<End>)
    requires Base(procs, cur, nextPid, h, fds) && me < |procs| == |fds| && Active(procs[me]) && AllClosed(fds[me])
    requires ExitStep(procs, procs2, me, e, pa) && Orderly(procs, fds, pipes, crowded)
    requires Calmer(procs, procs2)
    ensures Base(procs2, cur, nextPid, ExitHistory(procs, me, e, pa, h), fds)
    ensures Orderly(procs2, fds, pipes, crowded)
  {
    ExitSound(procs, procs2, me, e, pa, nextPid, h);
    ExitOthers(procs, procs2, me, e, pa);
    hide Sound, ExitHistory, AllClosed;
    CalmerOrderly(procs, procs2, fds, pipes, crowded);
  }

  /** A call that would block may block. */
  lemma AtPipeStuck(p: Proc, table: FdTable, f: nat, count: nat, reason: Reason, frame: Frame, before: seq<Value>, pipes: seq<Value>)
    requires f < |table| && table[f].Open? && FdOk(table[f]) && PipesOk(before) && |pipes| == MAX_PIPES && PipeReason(reason)
    requires table[f].kind == if reason == PipeReadWait then PipeRead else PipeWrite
    requires reason == PipeReadWait ==>
      var i := PipeOf(table[f].handle);
      ReadResult(before[i], count) == WouldBlock && pipes == before[i := AfterRead(before[i], count)]
    requires reason == PipeWriteWait ==>
      var i := PipeOf(table[f].handle);
      WriteResult(before[i], count) == WouldBlock && pipes[i].content == before[i].content && pipes[i].readers == before[i].readers
    ensures RightlyBlocked(AtPipe(p, f, count, reason, frame), table, pipes, End(PipeOf(table[f].handle), reason))
  {
    assert ValueOk(before[PipeOf(table[f].handle)]);
  }

  lemma ResumeKeeps(procs: seq<Proc>, me: nat, fds: seq<FdTable>, pipes: seq<Value>, nextPid: nat, h: History,
                    f: int, count: nat, reason: Reason, frame: Frame, crowded: set<End>)
    requires me < |procs| == |fds| && procs[me].state == Running && !procs[me].completing
    requires Base(procs, me, nextPid, h, fds) && Orderly(procs, fds, pipes, crowded)
    ensures var procs2 := procs[me := NotBlocked(procs[me], f, count, reason, frame)];
      && Base(procs2, me, nextPid, h, fds) && Orderly(procs2, fds, pipes, crowded) && procs2[me].state == Running
  {
    var p := NotBlocked(procs[me], f, count, reason, frame);
    assert Fine(procs[me], nextPid, h);
    hide Sound, Orderly, AllClosed;
    SameBase(procs, procs[me := p], me, me, nextPid, h, fds);
    UnblockedOrderly(procs, fds, pipes, me, p, crowded);
  }

  lemma BlockKeeps(procs: seq<Proc>, me: nat, fds: seq<FdTable>, pipes: seq<Value>, nextPid: nat, h: History,
                   f: int, count: nat, reason: Reason, frame: Frame, next: nat, e: End, crowded: set<End>)
    requires me < |procs| == |fds| && procs[me].state == Running && !procs[me].completing && PipeReason(reason)
    requires next < |procs| && procs[next].state == Ready
    requires Base(procs, me, nextPid, h, fds) && Orderly(procs, fds, pipes, crowded)
    requires RightlyBlocked(AtPipe(procs[me], f, count, reason, frame), fds[me], pipes, e)
    ensures var procs2 := procs[me := AtPipe(procs[me], f, count, reason, frame)][next := Dispatch(procs[next])];
      && Base(procs2, next, nextPid, h, fds) && Orderly(procs2, fds, pipes, CrowdedNow(procs, fds, me, e, crowded))
      && (AtMostOne(procs2, fds, e) <==> NoneElse(procs, fds, me, e))
  {
    var p := AtPipe(procs[me], f, count, reason, frame);
    var procs1, crowded2 := procs[me := p], CrowdedNow(procs, fds, me, e, crowded);
    assert count > 0;
    BlockBase(procs, me, nextPid, h, fds, f, count, reason, frame, next);
    hide Base, Orderly, BlockedShape, OnPipe, Stuck, NoneElse, CrowdedNow, AtMostOne;
    BlockedOrderly(procs, fds, pipes, me, p, e, crowded);
    UnblockedOrderly(procs1, fds, pipes, next, Dispatch(procs[next]), crowded2);
    ReadyNeverWaits(procs1, fds, next, e);
  }

  lemma BlockBase(procs: seq<Proc>, me: nat, nextPid: nat, h: History, fds: seq<FdTable>,
                  f: int, count: nat, reason: Reason, frame: Frame, next: nat)
    requires me < |procs| == |fds| && procs[me].state == Running && !procs[me].completing && PipeReason(reason)
    requires next < |procs| && procs[next].state == Ready && Base(procs, me, nextPid, h, fds) && count > 0
    ensures Base(procs[me := AtPipe(procs[me], f, count, reason, frame)][next := Dispatch(procs[next])], next, nextPid, h, fds)
  {
    assert Fine(procs[me], nextPid, h) && Fine(procs[next], nextPid, h);
    hide Sound, AllClosed;
    SameBase(procs, procs[me := AtPipe(procs[me], f, count, reason, frame)][next := Dispatch(procs[next])], me, next, nextPid, h, fds);
  }

  /** A ready process that starts to run is not one that waits. */
  lemma ReadyNeverWaits(procs: seq<Proc>, fds: seq<FdTable>, next: nat, e: End)
    requires next < |procs| && procs[next].state == Ready && |fds| == |procs|
    ensures AtMostOne(procs[next := Dispatch(procs[next])], fds, e) <==> AtMostOne(procs, fds, e)
  {
    hide OnPipe;
    var procs2 := procs[next := Dispatch(procs[next])];
    assert forall q :: 0 <= q < |procs| ==> (WaitsAt(procs2[q], fds[q], e) <==> WaitsAt(procs[q], fds[q], e));
    hide WaitsAt;
  }

  lemma SameBase(procs: seq<Proc>, procs2: seq<Proc>, cur: int, cur2: int, nextPid: nat, h: History, fds: seq<FdTable>)
    requires Base(procs, cur, nextPid, h, fds) && AllAlike(procs, procs2) && OneRunning(procs2, cur2) && Purposeful(procs2)
    ensures Base(procs2, cur2, nextPid, h, fds)
  {
    hide Sound, AllClosed;
    assert forall p :: 0 <= p < |procs| ==> Alike(procs[p], procs2[p]);
    hide AllAlike;
    AlikeSound(procs, procs2, nextPid, h);
  }

  lemma UnblockedOrderly(procs: seq<Proc>, fds: seq<FdTable>, pipes: seq<Value>, me: nat, p: Proc, crowded: set<End>)
    requires Orderly(procs, fds, pipes, crowded) && me < |procs| && p.state != Blocked
    ensures Orderly(procs[me := p], fds, pipes, crowded)
  {
    hide Orderly;
    FewerOrderly(procs, procs[me := p], fds, pipes, crowded);
  }

  /** A process waits at one end only. */
  lemma OneEnd(p: Proc, table: FdTable, e: End, x: End)
    requires WaitsAt(p, table, e) && x != e
    ensures !WaitsAt(p, table, x)
  {
  }

  /** When a process begins to wait, its end is crowded exactly if somebody waits there already. */
  lemma BlockedOrderly(procs: seq<Proc>, fds: seq<FdTable>, pipes: seq<Value>, me: nat, p: Proc, e: End, crowded: set<End>)
    requires Orderly(procs, fds, pipes, crowded) && me < |procs| && procs[me].state != Blocked
    requires BlockedShape(p, fds[me]) && WaitsAt(p, fds[me], e) && PipeReason(e.reason) && e.pipe < |pipes| && Stuck(p, pipes[e.pipe])
    ensures Orderly(procs[me := p], fds, pipes, CrowdedNow(procs, fds, me, e, crowded))
    ensures AtMostOne(procs[me := p], fds, e) <==> NoneElse(procs, fds, me, e)
  {
    hide OnPipe, Stuck, BlockedShape;
    var procs2 := procs[me := p];
    forall x | x != e
      ensures !WaitsAt(procs2[me], fds[me], x)
    {
      OneEnd(p, fds[me], e, x);
    }
    assert forall q, x :: 0 <= q < |procs| && q != me ==> (WaitsAt(procs2[q], fds[q], x) <==> WaitsAt(procs[q], fds[q], x));
    assert forall x :: !WaitsAt(procs[me], fds[me], x);
    hide WaitsAt;
    forall x: End | PipeReason(x.reason) && x !in CrowdedNow(procs, fds, me, e, crowded)
      ensures AtMostOne(procs2, fds, x) && AllStuck(procs2, fds, pipes, x)
    {
      if x != e {
        assert AtMostOne(procs, fds, x) && AllStuck(procs, fds, pipes, x);
      }
    }
    if !NoneElse(procs, fds, me, e) {
      var q :| 0 <= q < |procs| && q != me && WaitsAt(procs[q], fds[q], e);
      assert WaitsAt(procs2[q], fds[q], e) && WaitsAt(procs2[me], fds[me], e);
    }
  }

  /** The bytes of a pipe change but not its ends. */
  lemma ContentKeeps(fds: seq<FdTable>, pipes: seq<Value>, files: seq<nat>, i: nat, v: Value)
    requires Accounted(fds, pipes, files, multiset{}) && i < |pipes| && ValueOk(v) && v == pipes[i].(content := v.content)
    ensures Accounted(fds, pipes[i := v], files, multiset{})
  {
    hide FdsOk, PipeOf, IsReadEnd;
  }

  lemma ReadKeeps(procs: seq<Proc>, procs2: seq<Proc>, nextPid: nat, hist: History, cur: int, fds: seq<FdTable>,
                  pipes: seq<Value>, files: seq<nat>, crowded: set<End>, i: nat, count: nat)
    requires Sound(procs, nextPid, hist) && Purposeful(procs) && OneRunning(procs, cur) && Emptied(procs, fds)
    requires Accounted(fds, pipes, files, multiset{}) && Orderly(procs, fds, pipes, crowded)
    requires i < |pipes| && pipes[i].used && pipes[i].content != [] && Awake(procs, procs2)
    requires AtMostOne(procs, fds, End(i, PipeWriteWait)) ==> NoWaiter(procs2, fds, i, PipeWriteWait)
    ensures Sound(procs2, nextPid, hist) && Purposeful(procs2) && OneRunning(procs2, cur) && Emptied(procs2, fds)
    ensures var pipes2 := pipes[i := AfterRead(pipes[i], count)];
      Accounted(fds, pipes2, files, multiset{}) && Orderly(procs2, fds, pipes2, crowded)
  {
    hide Sound, Purposeful, OneRunning, Emptied, Awake, FdsOk, Exact;
    AwakeKeeps(procs, procs2, nextPid, hist, cur, fds);
    var v := AfterRead(pipes[i], count);
    assert ValueOk(pipes[i]);
    ContentKeeps(fds, pipes, files, i, v);
    AwakeOrderly(procs, procs2, fds, pipes, crowded);
    hide OnPipe, Orderly, AtMostOne;
    PipeOrderly(procs2, fds, pipes, i, v, crowded);
  }

  lemma WriteKeeps(procs: seq<Proc>, procs2: seq<Proc>, nextPid: nat, hist: History, cur: int, fds: seq<FdTable>,
                   pipes: seq<Value>, files: seq<nat>, crowded: set<End>, i: nat, data: seq<byte>)
    requires Sound(procs, nextPid, hist) && Purposeful(procs) && OneRunning(procs, cur) && Emptied(procs, fds)
    requires Accounted(fds, pipes, files, multiset{}) && Orderly(procs, fds, pipes, crowded)
    requires i < |pipes| && pipes[i].used && Awake(procs, procs2)
    requires AtMostOne(procs, fds, End(i, PipeReadWait)) ==> NoWaiter(procs2, fds, i, PipeReadWait)
    ensures Sound(procs2, nextPid, hist) && Purposeful(procs2) && OneRunning(procs2, cur) && Emptied(procs2, fds)
    ensures i < MAX_PIPES && ValueOk(pipes[i])
    ensures var pipes2 := pipes[i := AfterWrite(pipes[i], data)];
      Accounted(fds, pipes2, files, multiset{}) && Orderly(procs2, fds, pipes2, crowded)
  {
    hide Sound, Purposeful, OneRunning, Emptied, Awake, FdsOk, Exact;
    AwakeKeeps(procs, procs2, nextPid, hist, cur, fds);
    assert ValueOk(pipes[i]);
    var v := AfterWrite(pipes[i], data);
    ContentKeeps(fds, pipes, files, i, v);
    AwakeOrderly(procs, procs2, fds, pipes, crowded);
    hide OnPipe, Orderly, AtMostOne;
    PipeOrderly(procs2, fds, pipes, i, v, crowded);
  }

  lemma SetFdOther(fds: seq<FdTable>, p: nat, f: nat, fd: Fd)
    requires p < |fds| && f < |fds[p]| && fds[p][f].NoFd? && fd.Open?
    ensures var fds2 := SetFd(fds, p, f, fd);
      && |fds2| == |fds| && |fds2[p]| == |fds[p]| && fds2[p][f] == fd
      && (forall g :: 0 <= g < |fds[p]| && fds2[p][g].NoFd? ==> g != f && fds[p][g].NoFd?)
      && SetFd(fds2, p, f, NoFd) == fds
  {
    assert SetFd(SetFd(fds, p, f, fd), p, f, NoFd)[p] == fds[p];
  }

  lemma SetFdTwice(fds: seq<FdTable>, p: nat, f: nat, g: nat, fd: Fd, gd: Fd)
    requires p < |fds| && f < g < |fds[p]| && fds[p][f].NoFd? && fds[p][g].NoFd? && fd.Open? && gd.Open?
    ensures var fds2 := SetFd(SetFd(fds, p, f, fd), p, g, gd);
      && |fds2| == |fds| && |fds2[p]| == |fds[p]| && fds2[p][f].Open? && fds2[p][g].Open?
      && SetFd(SetFd(fds2, p, f, NoFd), p, g, NoFd) == fds
  {
    var fds2 := SetFd(SetFd(fds, p, f, fd), p, g, gd);
    assert SetFd(SetFd(fds2, p, f, NoFd), p, g, NoFd)[p] == fds[p];
  }

  lemma EndHandles(i: nat)
    requires i < MAX_PIPES
    ensures IsHandle(ReadEnd(i)) && IsHandle(WriteEnd(i)) && ReadEnd(i) != WriteEnd(i)
    ensures ReadEnd(i) >= HANDLE_BASE && WriteEnd(i) >= HANDLE_BASE
    ensures PipeOf(ReadEnd(i)) == i && PipeOf(WriteEnd(i)) == i && IsReadEnd(ReadEnd(i)) && !IsReadEnd(WriteEnd(i))
  {
  }

  /** A pipe that was created and whose ends are both gone again has left no trace. */
  lemma Unmade(fds: seq<FdTable>, pipes0: seq<Value>, files0: seq<nat>, made: seq<Value>, pipes: seq<Value>, files: seq<nat>, i: nat)
    requires Accounted(fds, pipes0, files0, multiset{}) && Accounted(fds, pipes, files, multiset{})
    requires i < MAX_PIPES && pipes0[i] == Unused && made == pipes0[i := Value(true, [], 1, 1)] && Drained(made, pipes)
    ensures pipes == pipes0 && files == files0
  {
    CountsDetermined(fds, pipes0, files0, pipes, files, multiset{});
    forall k | 0 <= k < |pipes|
      ensures pipes[k] == pipes0[k]
    {
      assert ValueOk(pipes[k]) && ValueOk(pipes0[k]);
    }
  }

  lemma Opened(fds: seq<FdTable>, pipes: seq<Value>, files: seq<nat>, h: nat)
    requires Accounted(fds, pipes, files, multiset{}) && h < MAX_FILES && files[h] == 0
    ensures Accounted(fds, pipes, files[h := 1], multiset{h})
  {
    hide FdsOk, PipeOf, IsReadEnd;
    CountRaised(fds, pipes, files, multiset{}, pipes, files[h := 1], h);
    assert multiset{} + multiset{h} == multiset{h};
  }

  lemma Created(procs: seq<Proc>, fds: seq<FdTable>, pipes: seq<Value>, files: seq<nat>, i: nat, crowded: set<End>)
    requires Accounted(fds, pipes, files, multiset{}) && i < MAX_PIPES && !pipes[i].used && Orderly(procs, fds, pipes, crowded)
    ensures pipes[i] == Unused
    ensures Accounted(fds, pipes[i := Value(true, [], 1, 1)], files, multiset{ReadEnd(i), WriteEnd(i)})
    ensures Orderly(procs, fds, pipes[i := Value(true, [], 1, 1)], crowded)
  {
    assert ValueOk(pipes[i]);
    assert PipeOf(ReadEnd(i)) == i && PipeOf(WriteEnd(i)) == i && IsReadEnd(ReadEnd(i)) && !IsReadEnd(WriteEnd(i));
    hide FdsOk, PipeOf, IsReadEnd, Orderly;
    var half, whole := pipes[i := Value(true, [], 1, 0)], pipes[i := Value(true, [], 1, 1)];
    EndMoved(pipes, files, ReadEnd(i), Value(true, [], 1, 0), 1);
    CountRaised(fds, pipes, files, multiset{}, half, files, ReadEnd(i));
    EndMoved(half, files, WriteEnd(i), Value(true, [], 1, 1), 1);
    assert half[i := Value(true, [], 1, 1)] == whole;
    CountRaised(fds, half, files, multiset{} + multiset{ReadEnd(i)}, whole, files, WriteEnd(i));
    assert multiset{} + multiset{ReadEnd(i)} + multiset{WriteEnd(i)} == multiset{ReadEnd(i), WriteEnd(i)};
    PipeOrderly(procs, fds, pipes, i, Value(true, [], 1, 1), crowded);
  }

  lemma FdOfTable(fds: seq<FdTable>, p: nat, f: nat)
    requires FdsOk(fds) && p < |fds| && f < |fds[p]|
    ensures FdOk(fds[p][f])
  {
  }

  lemma PartNone(fds: seq<FdTable>, child: nat, parent: nat)
    requires child < |fds| && parent < |fds| && |fds[child]| == |fds[parent]| && AllClosed(fds[child])
    ensures fds == fds[child := Part(fds[parent], 0)]
  {
    assert Part(fds[parent], 0) == fds[child];
  }

  lemma PartAll(table: FdTable)
    ensures Part(table, |table|) == table
  {
  }

  lemma PartStep(fds: seq<FdTable>, child: nat, parent: nat, f: nat)
    requires child < |fds| && parent < |fds| && child != parent && f < |fds[parent]| == |fds[child]|
    ensures var now: seq<FdTable> := fds[child := Part(fds[parent], f)];
      && now[parent] == fds[parent] && now[child][f].NoFd? && |now[child]| == |fds[parent]|
      && fds[child := Part(fds[parent], f + 1)] == (if fds[parent][f].Open? then SetFd(now, child, f, fds[parent][f]) else now)
  {
    var t, t2 := Part(fds[parent], f), Part(fds[parent], f + 1);
    assert t2 == t[f := fds[parent][f]];
    assert fds[parent][f].NoFd? ==> t2 == t;
  }

  lemma PartShared(fds: seq<FdTable>, child: nat, parent: nat, f: nat)
    requires child < |fds| && parent < |fds| && child != parent
    ensures AllShared(fds[child := Part(fds[parent], f)], child)
  {
    var now: seq<FdTable> := fds[child := Part(fds[parent], f)];
    forall g | 0 <= g < |now[child]| && now[child][g].Open?
      ensures SharedFd(now, child, g)
    {
      assert NamedAt(now, parent, g, now[child][g].handle);
    }
  }

  lemma PartShut(fds: seq<FdTable>, child: nat, parent: nat, f: nat)
    requires child < |fds| && parent < |fds| && AllClosed(fds[child]) && |fds[parent]| == |fds[child]| == MAX_FDS
    ensures fds[child := Shut(Part(fds[parent], f), MAX_FDS, false)] == fds
  {
    assert Shut(Part(fds[parent], f), MAX_FDS, false) == fds[child];
  }

  /** When the descriptors are what they were, so are all counts and pipes. */
  lemma Restored(fds: seq<FdTable>, pipes: seq<Value>, files: seq<nat>, pipes2: seq<Value>, files2: seq<nat>)
    requires Accounted(fds, pipes, files, multiset{}) && Accounted(fds, pipes2, files2, multiset{}) && Drained(pipes, pipes2)
    ensures pipes2 == pipes && files2 == files
  {
    CountsDetermined(fds, pipes, files, pipes2, files2, multiset{});
    forall i | 0 <= i < |pipes|
      ensures pipes2[i] == pipes[i]
    {
      assert ValueOk(pipes[i]) && ValueOk(pipes2[i]);
    }
  }

  lemma ShutNone(fds: seq<FdTable>, p: nat, onlyFlagged: bool)
    requires p < |fds|
    ensures fds == fds[p := Shut(fds[p], 0, onlyFlagged)]
  {
    assert Shut(fds[p], 0, onlyFlagged) == fds[p];
  }

  lemma ShutStep(fds: seq<FdTable>, p: nat, f: nat, onlyFlagged: bool)
    requires p < |fds| && f < |fds[p]|
    ensures var now := fds[p := Shut(fds[p], f, onlyFlagged)];
      && now[p][f] == fds[p][f]
      && fds[p := Shut(fds[p], f + 1, onlyFlagged)] == if ToClose(fds[p][f], onlyFlagged) then SetFd(now, p, f, NoFd) else now
  {
    var t, t2 := Shut(fds[p], f, onlyFlagged), Shut(fds[p], f + 1, onlyFlagged);
    assert t2 == if ToClose(fds[p][f], onlyFlagged) then t[f := NoFd] else t;
  }

  lemma ShutAll(table: FdTable)
    requires |table| == MAX_FDS
    ensures AllClosed(Shut(table, MAX_FDS, false))
  {
  }

  lemma SizeOfTable(fds: seq<FdTable>, p: nat)
    requires FdsOk(fds) && p < |fds|
    ensures |fds[p]| == MAX_FDS
  {
  }

  lemma DrainedClose(pipes: seq<Value>, i: nat, reading: bool)
    requires i < |pipes| && (if reading then pipes[i].readers > 0 else pipes[i].writers > 0)
    ensures Drained(pipes, pipes[i := AfterClose(pipes[i], reading)])
  {
  }

  lemma FlowDrained(pipes: seq<Value>, pipes2: seq<Value>, moves: seq<Move>)
    requires FlowOk(pipes, moves) && Drained(pipes, pipes2)
    ensures FlowOk(pipes2, moves)
  {
    hide Got, Put;
  }

  lemma DrainedSelf(pipes: seq<Value>)
    ensures Drained(pipes, pipes)
  {
  }

  lemma SharedStays(fds: seq<FdTable>, fds2: seq<FdTable>, p: nat, f: nat)
    requires AllShared(fds, p) && f < |fds[p]| && fds[p][f].Open? && |fds2| == |fds| && fds2 == fds[p := fds2[p]]
    requires f < |fds2[p]| && fds2[p][f] == fds[p][f]
    ensures SharedFd(fds2, p, f)
  {
    var q, g :| q != p && NamedAt(fds, q, g, fds[p][f].handle);
    assert NamedAt(fds2, q, g, fds2[p][f].handle);
  }

  lemma SharedCount(fds: seq<FdTable>, p: nat, f: nat, pipes: seq<Value>, files: seq<nat>, spare: multiset<nat>)
    requires SharedFd(fds, p, f) && Accounted(fds, pipes, files, spare)
    ensures IsHandle(fds[p][f].handle) && CountOf(pipes, files, fds[p][f].handle) > 1
  {
    var h := fds[p][f].handle;
    assert FdOk(fds[p][f]);
    var q, g :| q != p && NamedAt(fds, q, g, h);
    assert (q, g) in RefSet(fds, h) && (p as int, f as int) in RefSet(fds, h);
    var two := {(q, g), (p as int, f as int)};
    SubsetSize(two, RefSet(fds, h));
    assert |two| == 2;
  }

  /** A descriptor that cannot be inherited shows that a count is near its maximum. */
  lemma InheritRefused(fds: seq<FdTable>, child: nat, parent: nat, f: nat, pipes: seq<Value>, files: seq<nat>, h: nat)
    requires child < |fds| && parent < |fds| && AllClosed(fds[child]) && |fds[parent]| == MAX_FDS
    requires Accounted(fds[child := Part(fds[parent], f)], pipes, files, multiset{}) && IsHandle(h) && CountOf(pipes, files, h) == COUNT_MAX
    ensures Saturated(fds)
  {
    var now: seq<FdTable> := fds[child := Part(fds[parent], f)];
    var row := Row(child, MAX_FDS);
    RowSize(child, MAX_FDS);
    SubsetSize(RefSet(now, h), RefSet(fds, h) + row);
    assert |RefSet(fds, h) + row| <= |RefSet(fds, h)| + MAX_FDS;
  }

  lemma AwakeOne(a: seq<Proc>, b: seq<Proc>, p: nat)
    requires Awake(a, b) && p < |a|
    ensures |b| == |a| && (a[p].state != Blocked ==> b[p] == a[p])
  {
  }

  /** Changing a descriptor of a process that is not blocked brings no waiter. */
  lemma StillDeserted(procs: seq<Proc>, fds: seq<FdTable>, fds2: seq<FdTable>, p: nat, i: nat)
    requires Deserted(procs, fds, i) && p < |procs| && |fds2| == |fds| && procs[p].state != Blocked && fds2 == fds[p := fds2[p]]
    ensures Deserted(procs, fds2, i)
  {
    hide OnPipe;
  }

  lemma InstalledDeserted(procs: seq<Proc>, fds: seq<FdTable>, p: nat, f: nat, fd: Fd, i: nat)
    requires Deserted(procs, fds, i) && p < |fds| == |procs| && f < |fds[p]| && procs[p].state != Blocked
    ensures Deserted(procs, SetFd(fds, p, f, fd), i)
  {
    hide Deserted;
    StillDeserted(procs, fds, SetFd(fds, p, f, fd), p, i);
  }

  /** A pipe that no descriptor names has no waiter. */
  lemma NewPipeDeserted(procs: seq<Proc>, fds: seq<FdTable>, pipes: seq<Value>, files: seq<nat>, i: nat)
    requires Accounted(fds, pipes, files, multiset{}) && i < MAX_PIPES && pipes[i] == Unused && |fds| == |procs|
    ensures Deserted(procs, fds, i)
  {
    InUseIff(fds, pipes, files);
    forall p, f | 0 <= p < |fds| && 0 <= f < |fds[p]|
      ensures !OnPipe(fds[p], f, i)
    {
      assert (p, f) !in RefSet(fds, ReadEnd(i)) && (p, f) !in RefSet(fds, WriteEnd(i));
      assert !NamedAt(fds, p, f, ReadEnd(i)) && !NamedAt(fds, p, f, WriteEnd(i));
    }
  }

  lemma CountInUse(pipes: seq<Value>, files: seq<nat>, h: nat)
    requires PipesOk(pipes) && |files| == MAX_FILES && IsHandle(h) && CountOf(pipes, files, h) > 0
    ensures h < MAX_FILES ==> files[h] > 0
    ensures h >= HANDLE_BASE ==> PipeOf(h) < |pipes| && pipes[PipeOf(h)].used
  {
  }

  /** A pipe that a descriptor names is in use. */
  lemma NamedInUse(fds: seq<FdTable>, pipes: seq<Value>, files: seq<nat>, p: nat, f: nat)
    requires Accounted(fds, pipes, files, multiset{}) && p < |fds| && f < |fds[p]| && fds[p][f].Open?
    ensures fds[p][f].kind != File ==>
      var h := fds[p][f].handle;
      && h >= HANDLE_BASE && PipeOf(h) < |pipes| && pipes[PipeOf(h)].used && |pipes[PipeOf(h)].content| <= CAPACITY
      && (IsReadEnd(h) <==> fds[p][f].kind == PipeRead)
  {
    assert FdOk(fds[p][f]);
    NamedIsCounted(fds, pipes, files, multiset{}, p, f);
    CountInUse(pipes, files, fds[p][f].handle);
    assert fds[p][f].kind != File ==> ValueOk(pipes[PipeOf(fds[p][f].handle)]);
  }

  /** A descriptor of a process that is not blocked changes. */
  lemma FdsKeep(procs: seq<Proc>, fds: seq<FdTable>, fds2: seq<FdTable>, pipes: seq<Value>, p: nat, crowded: set<End>)
    requires p < |procs| == |fds| == |fds2| && fds2 == fds[p := fds2[p]] && procs[p].state != Blocked
    requires Emptied(procs, fds) && (Active(procs[p]) || AllClosed(fds2[p])) && Orderly(procs, fds, pipes, crowded)
    ensures Emptied(procs, fds2) && Orderly(procs, fds2, pipes, crowded)
  {
    hide OnPipe, Stuck;
    forall q | 0 <= q < |procs|
      ensures BlockedShape(procs[q], fds2[q])
    {
      assert BlockedShape(procs[q], fds[q]);
    }
    assert forall q, e :: 0 <= q < |procs| ==> (WaitsAt(procs[q], fds2[q], e) <==> WaitsAt(procs[q], fds[q], e));
    hide WaitsAt;
    forall e: End | PipeReason(e.reason) && e !in crowded
      ensures AtMostOne(procs, fds2, e) && AllStuck(procs, fds2, pipes, e)
    {
      assert AtMostOne(procs, fds, e) && AllStuck(procs, fds, pipes, e);
    }
  }

  lemma AwakeSelf(procs: seq<Proc>)
    ensures Awake(procs, procs)
  {
  }

  lemma CloseKeeps(procs: seq<Proc>, procs2: seq<Proc>, nextPid: nat, hist: History, cur: int, fds: seq<FdTable>,
                   pipes: seq<Value>, files: seq<nat>, crowded: set<End>, h: nat, spare: multiset<nat>)
    requires Sound(procs, nextPid, hist) && Purposeful(procs) && OneRunning(procs, cur) && Emptied(procs, fds)
    requires Accounted(fds, pipes, files, spare) && Orderly(procs, fds, pipes, crowded)
    requires IsHandle(h) && h >= HANDLE_BASE && CountOf(pipes, files, h) > 0 && Awake(procs, procs2)
    requires CountOf(pipes, files, h) == 1 && AtMostOne(procs, fds, End(PipeOf(h), if IsReadEnd(h) then PipeWriteWait else PipeReadWait)) ==>
               NoWaiter(procs2, fds, PipeOf(h), if IsReadEnd(h) then PipeWriteWait else PipeReadWait)
    ensures Sound(procs2, nextPid, hist) && Purposeful(procs2) && OneRunning(procs2, cur) && Emptied(procs2, fds)
    ensures var pipes2 := pipes[PipeOf(h) := AfterClose(pipes[PipeOf(h)], IsReadEnd(h))];
      && (h in spare ==> Accounted(fds, pipes2, files, spare - multiset{h}))
      && Orderly(procs2, fds, pipes2, crowded)
  {
    hide Sound, Purposeful, OneRunning, Emptied, PipeOf, IsReadEnd, Awake, FdsOk;
    AwakeKeeps(procs, procs2, nextPid, hist, cur, fds);
    var v := AfterClose(pipes[PipeOf(h)], IsReadEnd(h));
    EndMoved(pipes, files, h, v, -1);
    if h in spare {
      CountLowered(fds, pipes, files, spare, pipes[PipeOf(h) := v], files, h);
    }
    AwakeOrderly(procs, procs2, fds, pipes, crowded);
    CloseOrderly(procs2, fds, pipes, PipeOf(h), IsReadEnd(h), crowded);
  }
}
