/** kernel/process.c and kernel/syscall.c: what a run of interrupts leaves in the record of births,
    endings, waits and signals. */
module ProcessRuns {
  import opened Lifecycle
  import opened Descriptors
  import opened Pipes
  import opened ProcessFacts

  /** The state of the table at a moment of a run. */
  datatype Snapshot = Snapshot(procs: seq<Proc>, cur: int, fds: seq<FdTable>, hist: History, crowded: set<End>, moves: seq<Move>)

  /** One interrupt of a run, and whether a status can be copied to the program then. */
  datatype Step = Step(event: Event, copies: bool)

  ghost predicate RunsAt(procs: seq<Proc>, cur: int) { 0 <= cur < |procs| && procs[cur].state == Running }

  ghost function PidAt(procs: seq<Proc>, cur: int): nat { if 0 <= cur < |procs| then procs[cur].pid else 0 }

  // ---------- what one interrupt records ----------

  /** The event ends the process that runs. */
  predicate Ends(e: Event) { e.Exit? || (e.Fault? && e.fatal) }

  /** The process has ended so; if its parent waits for it, the report is made as the parent asked. */
  ghost predicate Died(h: History, pid: nat, e: Ending, h2: History) {
    && pid in h.born && pid !in h.ended
    && var h1 := h.(ended := h.ended[pid := e]);
       h2 == h1 || ReportMade(h1, pid, e, h2)
  }

  ghost predicate ReportMade(h: History, pid: nat, e: Ending, h2: History) {
    && pid in h.born && h.born[pid] in h.asked
    && var posix := h.asked[h.born[pid]].posix;
       h2 == Receive(h, Report(pid, h.born[pid], StatusOf(e, posix), posix))
  }

  /** What a call adds to the record: the child it forks, the signal it sends, the status that it
      returns at once, or what the caller now waits for. */
  ghost function CallHistory(h: History, e: Event, pid: nat, reply: Reply, status: nat): History {
    if e.Fork? && reply.Done? then Birth(h, reply.n, pid)
    else if e.Kill? && reply.Done? then Send(h, e.pid, e.sig)
    else if e.Wait? && reply.Done? then HandNow(h, Report(reply.n, pid, status, false))
    else if e.Waitpid? && reply.Done? && reply.n != 0 then HandNow(h, Report(reply.n, pid, status, true))
    else if e.Wait? && reply.Switched? then Asks(h, pid, Ask(ANY, e.wantsStatus, false))
    else if e.Waitpid? && reply.Switched? then Asks(h, pid, Ask(e.target, e.wantsStatus, true))
    else h
  }

  /** What the call, fault or tick records: an exit or a fatal fault ends the caller with the code
      given; a fault of the kernel itself halts the machine. */
  ghost predicate Called(h: History, procs: seq<Proc>, cur: int, e: Event, reply: Reply, status: nat, halted: bool, h2: History) {
    if Ends(e) && RunsAt(procs, cur)
    then Died(h, PidAt(procs, cur), Ending(ExitCode(e.code), 0), h2) || (e.Fault? && halted && h2 == h)
    else h2 == CallHistory(h, e, PidAt(procs, cur), reply, status) && (e.Fork? && reply.Done? ==> reply.n !in h.born)
  }

  /** The process ended by a signal that was sent to it, by KILL if both were. */
  ghost predicate ByKill(h: History, c: nat, e: Ending) {
    e.code == 0 && e.sig == (if (c, SIGKILL) in h.sent then SIGKILL else SIGTERM) && (c, e.sig) in h.sent
  }

  ghost predicate Extends<T>(m: map<nat, T>, m2: map<nat, T>) {
    forall c :: c in m ==> c in m2 && m2[c] == m[c]
  }

  /** Signals that were pending have ended processes, and reports of this were made. */
  ghost predicate Killed(h: History, h2: History) {
    && h2.born == h.born && h2.asked == h.asked && h2.handed == h.handed && h2.faulted == h.faulted && h2.sent == h.sent
    && h.reports <= h2.reports && Extends(h.ended, h2.ended)
    && forall c :: c in h2.ended && c !in h.ended ==> ByKill(h, c, h2.ended[c])
  }

  /** A wait ends as the children of the caller say. */
  ghost predicate Replied(s: Snapshot, e: Event, reply: Reply) {
    && (e.Wait? && RunsAt(s.procs, s.cur) && !(e.wantsStatus && !e.writable) ==>
          WaitReply(s.procs, s.cur, PidAt(s.procs, s.cur), ANY, false, false, reply))
    && (e.Waitpid? && RunsAt(s.procs, s.cur) && e.options <= 1 && !(e.wantsStatus && !e.writable) ==>
          WaitReply(s.procs, s.cur, PidAt(s.procs, s.cur), e.target, e.wantsStatus && !e.copies, e.options == 1, reply))
  }

  /** The record of an interrupt: the call, the signals, and what is due to the program that runs.  The
      machine halts only if nobody can run. */
  ghost predicate Recorded(s: Snapshot, step: Step, resumes: bool, s2: Snapshot, reply: Reply, status: nat,
                           called: History, due: History, written: seq<nat>)
  {
    && Called(s.hist, s.procs, s.cur, step.event, reply, status, !resumes, called) && Replied(s, step.event, reply)
    && (!resumes && !step.event.Fault? ==> Stalls(s2.procs, s2.cur))
    && (if step.event.Fault? then due == called else Killed(called, due))
    && if resumes then Delivered(s2.procs, s2.cur, due, step.copies, s2.hist, written) else s2.hist == due
  }

  // ---------- what one interrupt moves ----------

  /** The call that had blocked moves the bytes it gets or gives, if it succeeds. */
  ghost predicate Again(p: Proc, fds: seq<FdTable>, r: Result, data: seq<byte>, moves: seq<Move>, moves2: seq<Move>) {
    if !r.Moved? then moves2 == moves
    else if p.reason == PipeReadWait then |data| == r.n && exists i :: moves2 == moves + [Took(i, data)] && MoveRight(fds, moves, Took(i, data))
    else r.n <= |data| && exists i :: moves2 == moves + [Gave(i, data[..r.n])] && MoveRight(fds, moves, Gave(i, data[..r.n]))
  }

  /** Nothing is read only if everything written was read and nobody has the other end open to
      write more; nothing is written to a pipe that nobody has open to read. */
  ghost predicate MoveRight(fds: seq<FdTable>, moves: seq<Move>, m: Move) {
    && (m.Took? && m.bytes == [] ==> Got(moves, m.pipe) == Put(moves, m.pipe) && !Held(fds, WriteEnd(m.pipe)))
    && (m.Gave? ==> m.bytes != [] && Held(fds, ReadEnd(m.pipe)))
  }

  /** A blocked call of the program that runs is completed: eax is the number of bytes that moved,
      and what it read is `data`, nothing exactly at the end of the file. */
  ghost predicate Resupplied(procs: seq<Proc>, cur: int, fds: seq<FdTable>, data: seq<byte>, moves: seq<Move>, moves2: seq<Move>) {
    moves2 == moves || exists m :: moves2 == moves + [m] && SuppliedBy(procs, cur, data, m) && MoveRight(fds, moves, m)
  }

  ghost predicate SuppliedBy(procs: seq<Proc>, cur: int, data: seq<byte>, m: Move) {
    !m.Made? && RunsAt(procs, cur) && procs[cur].eax == |m.bytes| && (m.Took? ==> m.bytes == data)
  }

  ghost function TableAt(s: Snapshot): FdTable { if 0 <= s.cur < |s.fds| then s.fds[s.cur] else [] }

  /** What the call itself moves: a read gives the caller `data`, a write takes the front of the
      caller's bytes, each as many as it replies, and a pipe may be made. */
  ghost predicate Supplied(s: Snapshot, e: Event, reply: Reply, data: seq<byte>, moves2: seq<Move>) {
    && Transferred(s, e, reply, data, moves2)
    && (e.Read? ==> forall i :: AtPipeEnd(RunsAt(s.procs, s.cur), TableAt(s), e.f, PipeRead, e.count > 0 && !e.writable, i) ==>
          ReadAnswer(s, i, e.count, reply))
    && (e.Write? ==> forall i :: AtPipeEnd(RunsAt(s.procs, s.cur), TableAt(s), e.f, PipeWrite, |e.data| > 0 && !e.readable, i) ==>
          WriteAnswer(s, i, |e.data|, reply))
  }

  /** How many bytes that were written to the pipe have not been read. */
  ghost function Unread(moves: seq<Move>, i: nat): int { |Put(moves, i)| - |Got(moves, i)| }

  /** The call blocks, or cannot because nobody else can run. */
  ghost predicate MustWait(s: Snapshot, reply: Reply) { reply == Switched || (reply == Err(EAGAIN) && Stalls(s.procs, s.cur)) }

  /** A read gets what was written and not read yet, up to the bytes asked for; if there is nothing
      it waits as long as somebody has the pipe open to write, and is at the end of the file
      otherwise. */
  ghost predicate ReadAnswer(s: Snapshot, i: nat, count: nat, reply: Reply) {
    if count == 0 then reply == Done(0)
    else if Got(s.moves, i) != Put(s.moves, i) then reply.Done? && 0 < reply.n == if count < Unread(s.moves, i) then count else Unread(s.moves, i)
    else if Held(s.fds, WriteEnd(i)) then MustWait(s, reply)
    else reply == Done(0)
  }

  /** A write fails if nobody has the pipe open to read; one of at most 512 bytes goes in whole or
      waits, a longer one waits only for a full pipe and goes in as far as it fits. */
  ghost predicate WriteAnswer(s: Snapshot, i: nat, count: nat, reply: Reply) {
    var space := 4096 - Unread(s.moves, i);
    if count == 0 then reply == Done(0)
    else if !Held(s.fds, ReadEnd(i)) then reply == Err(EPIPE)
    else if count <= 512 then (if count <= space then reply == Done(count) else MustWait(s, reply))
    else if space <= 0 then MustWait(s, reply) else reply == Done(if count < space then count else space)
  }

  /** What is in the pipe and which of its ends are open is what the bytes moved and the descriptors
      say. */
  lemma PipeKnown(fds: seq<FdTable>, pipes: seq<Value>, files: seq<nat>, moves: seq<Move>, i: nat)
    requires Accounted(fds, pipes, files, multiset{}) && FlowOk(pipes, moves) && i < MAX_PIPES && pipes[i].used
    ensures Unread(moves, i) == |pipes[i].content| && |pipes[i].content| <= 4096
    ensures pipes[i].content == [] <==> Got(moves, i) == Put(moves, i)
    ensures pipes[i].readers > 0 <==> Held(fds, ReadEnd(i))
    ensures pipes[i].writers > 0 <==> Held(fds, WriteEnd(i))
  {
    hide Got, Put, Held, FdsOk, Exact;
    assert PipeOf(ReadEnd(i)) == i && PipeOf(WriteEnd(i)) == i && ValueOk(pipes[i]);
    HeldIff(fds, pipes, files, ReadEnd(i));
    HeldIff(fds, pipes, files, WriteEnd(i));
  }

  lemma ReadAnswered(s: Snapshot, pipes: seq<Value>, files: seq<nat>, i: nat, count: nat, reply: Reply, pipes2: seq<Value>, data: seq<byte>)
    requires Accounted(s.fds, pipes, files, multiset{}) && FlowOk(pipes, s.moves) && i < MAX_PIPES && pipes[i].used
    requires ReadFrom(pipes, i, count, reply, pipes2, data)
    requires reply == Err(EAGAIN) ==> Stalls(s.procs, s.cur)
    ensures ReadAnswer(s, i, count, reply)
  {
    PipeKnown(s.fds, pipes, files, s.moves, i);
    hide Accounted, FlowOk, Unread, Held, Stalls, Got, Put;
  }

  lemma WriteAnswered(s: Snapshot, pipes: seq<Value>, files: seq<nat>, i: nat, data: seq<byte>, reply: Reply, pipes2: seq<Value>)
    requires Accounted(s.fds, pipes, files, multiset{}) && FlowOk(pipes, s.moves) && i < MAX_PIPES && pipes[i].used
    requires WrittenTo(pipes, i, data, reply, pipes2)
    requires reply == Err(EAGAIN) ==> Stalls(s.procs, s.cur)
    ensures WriteAnswer(s, i, |data|, reply)
  {
    PipeKnown(s.fds, pipes, files, s.moves, i);
    hide Accounted, FlowOk, Unread, Held, Stalls, Got, Put;
  }

  /** The call of a process that was woken moves what it must. */
  lemma RetriedRight(fds: seq<FdTable>, pipes: seq<Value>, files: seq<nat>, moves: seq<Move>, i: nat, count: nat, bytes: seq<byte>)
    requires Accounted(fds, pipes, files, multiset{}) && FlowOk(pipes, moves) && i < MAX_PIPES && pipes[i].used && count > 0
    ensures |pipes[i].content| <= CAPACITY
    ensures var r := ReadResult(pipes[i], count); r.Moved? ==> MoveRight(fds, moves, Took(i, pipes[i].content[..r.n]))
    ensures var r := WriteResult(pipes[i], count); r.Moved? && |bytes| == count ==> MoveRight(fds, moves, Gave(i, bytes[..r.n]))
  {
    PipeKnown(fds, pipes, files, moves, i);
    hide Accounted, FlowOk, Unread, Held;
  }

  /** The pipe of the caller's descriptor is in use. */
  lemma EndInUse(s: Snapshot, pipes: seq<Value>, files: seq<nat>, f: int, kind: Kind, fault: bool, i: nat)
    requires Accounted(s.fds, pipes, files, multiset{}) && AtPipeEnd(RunsAt(s.procs, s.cur), TableAt(s), f, kind, fault, i)
    ensures i < MAX_PIPES && pipes[i].used
  {
    NamedInUse(s.fds, pipes, files, s.cur, f);
  }

  lemma ReadsAnswered(s: Snapshot, pipes: seq<Value>, files: seq<nat>, f: int, count: nat, fault: bool, reply: Reply, pipes2: seq<Value>, data: seq<byte>)
    requires Accounted(s.fds, pipes, files, multiset{}) && FlowOk(pipes, s.moves)
    requires EarlyReply(RunsAt(s.procs, s.cur), TableAt(s), f, PipeRead, fault, reply) ||
      exists i :: AtPipeEnd(RunsAt(s.procs, s.cur), TableAt(s), f, PipeRead, fault, i) && ReadFrom(pipes, i, count, reply, pipes2, data)
    requires reply == Err(EAGAIN) ==> Stalls(s.procs, s.cur)
    ensures forall i :: AtPipeEnd(RunsAt(s.procs, s.cur), TableAt(s), f, PipeRead, fault, i) ==> ReadAnswer(s, i, count, reply)
  {
    hide Accounted, FlowOk, ReadFrom, ReadAnswer, PipeOf, Stalls;
    forall i | AtPipeEnd(RunsAt(s.procs, s.cur), TableAt(s), f, PipeRead, fault, i)
      ensures ReadAnswer(s, i, count, reply)
    {
      EndInUse(s, pipes, files, f, PipeRead, fault, i);
      ReadAnswered(s, pipes, files, i, count, reply, pipes2, data);
    }
  }

  lemma WritesAnswered(s: Snapshot, pipes: seq<Value>, files: seq<nat>, f: int, data: seq<byte>, fault: bool, reply: Reply, pipes2: seq<Value>)
    requires Accounted(s.fds, pipes, files, multiset{}) && FlowOk(pipes, s.moves)
    requires EarlyReply(RunsAt(s.procs, s.cur), TableAt(s), f, PipeWrite, fault, reply) ||
      exists i :: AtPipeEnd(RunsAt(s.procs, s.cur), TableAt(s), f, PipeWrite, fault, i) && WrittenTo(pipes, i, data, reply, pipes2)
    requires reply == Err(EAGAIN) ==> Stalls(s.procs, s.cur)
    ensures forall i :: AtPipeEnd(RunsAt(s.procs, s.cur), TableAt(s), f, PipeWrite, fault, i) ==> WriteAnswer(s, i, |data|, reply)
  {
    hide Accounted, FlowOk, WrittenTo, WriteAnswer, PipeOf, Stalls;
    forall i | AtPipeEnd(RunsAt(s.procs, s.cur), TableAt(s), f, PipeWrite, fault, i)
      ensures WriteAnswer(s, i, |data|, reply)
    {
      EndInUse(s, pipes, files, f, PipeWrite, fault, i);
      WriteAnswered(s, pipes, files, i, data, reply, pipes2);
    }
  }

  /** The process waits for some bytes. */
  lemma AskingSome(procs: seq<Proc>, i: nat, nextPid: nat, h: History)
    requires Sound(procs, nextPid, h) && i < |procs| && Active(procs[i]) && PipeReason(procs[i].reason)
    ensures procs[i].blockedCount > 0
  {
    assert Fine(procs[i], nextPid, h);
  }

  ghost predicate Transferred(s: Snapshot, e: Event, reply: Reply, data: seq<byte>, moves2: seq<Move>) {
    if e.Read? && reply.Done? then exists i ::
      && AtPipeEnd(RunsAt(s.procs, s.cur), TableAt(s), e.f, PipeRead, e.count > 0 && !e.writable, i)
      && |data| == reply.n && moves2 == s.moves + [Took(i, data)]
    else if e.Write? && reply.Done? then exists i ::
      && AtPipeEnd(RunsAt(s.procs, s.cur), TableAt(s), e.f, PipeWrite, |e.data| > 0 && !e.readable, i)
      && reply.n <= |e.data| && moves2 == s.moves + [Gave(i, e.data[..reply.n])]
    else moves2 == s.moves || (e.MakePipe? && exists i :: moves2 == s.moves + [Made(i)])
  }

  /** The bytes of an interrupt: those of the call, and those of a call that had blocked. */
  ghost predicate Flowed(s: Snapshot, step: Step, resumes: bool, s2: Snapshot, reply: Reply, data: seq<byte>, moved: seq<Move>, later: seq<byte>) {
    && Supplied(s, step.event, reply, data, moved)
    && if resumes then Resupplied(s2.procs, s2.cur, s2.fds, later, moved, s2.moves) else s2.moves == moved
  }

  /** What an interrupt does to the record, the crowded ends and the bytes in the pipes. */
  ghost predicate Next(s: Snapshot, step: Step, resumes: bool, s2: Snapshot) {
    && CrowdedBound(s.crowded, s2.crowded, s.procs, s.fds, s.cur, step.event)
    && exists reply, status, called, due, written, data, moved, later ::
         Recorded(s, step, resumes, s2, reply, status, called, due, written) && Flowed(s, step, resumes, s2, reply, data, moved, later)
  }

  lemma NoSupply(s: Snapshot, e: Event, data: seq<byte>)
    ensures !e.Read? && !e.Write? ==> forall reply :: Supplied(s, e, reply, data, s.moves)
  {
  }

  lemma AgainSupplied(p: Proc, fds: seq<FdTable>, r: Result, data: seq<byte>, moves: seq<Move>, moves2: seq<Move>, procs: seq<Proc>, cur: int)
    requires Again(p, fds, r, data, moves, moves2) && RunsAt(procs, cur) && procs[cur] == Unblocked(p, r)
    ensures Resupplied(procs, cur, fds, data, moves, moves2)
  {
    hide MoveRight;
    if r.Moved? {
      if p.reason == PipeReadWait {
        var i :| moves2 == moves + [Took(i, data)] && MoveRight(fds, moves, Took(i, data));
        assert SuppliedBy(procs, cur, data, Took(i, data));
      } else {
        var i :| moves2 == moves + [Gave(i, data[..r.n])] && MoveRight(fds, moves, Gave(i, data[..r.n]));
        assert SuppliedBy(procs, cur, data, Gave(i, data[..r.n]));
      }
    }
  }

  /** The exit of a process, as the table records it. */
  lemma ExitDied(procs: seq<Proc>, procs2: seq<Proc>, me: nat, e: Ending, pa: int, nextPid: nat, h: History)
    requires Sound(procs, nextPid, h) && me < |procs| && Active(procs[me])
    requires ExitStep(procs, procs2, me, e, pa)
    ensures Died(h, procs[me].pid, e, ExitHistory(procs, me, e, pa, h))
  {
    hide Parents, NoneOverdue, NoneInVain, NoneLost, NoneStranded, LogOk, Distinct, Reported, Abandoned, Underway, StatusOf, Doomed;
    assert Fine(procs[me], nextPid, h);
    if Completes(procs, me, pa) {
      assert Fine(procs[pa], nextPid, h);
    }
  }

  lemma KilledSelf(h: History)
    ensures Killed(h, h)
  {
  }

  lemma KilledTrans(a: History, b: History, c: History)
    requires Killed(a, b) && Killed(b, c)
    ensures Killed(a, c)
  {
  }

  lemma DiedKilled(h: History, pid: nat, sig: nat, h2: History)
    requires Died(h, pid, Ending(0, sig), h2) && sig == (if (pid, SIGKILL) in h.sent then SIGKILL else SIGTERM) && (pid, sig) in h.sent
    ensures Killed(h, h2)
  {
    hide StatusOf;
  }

  /** The signals that end a process are pending exactly if they were sent. */
  lemma PendingSent(procs: seq<Proc>, i: nat, nextPid: nat, h: History)
    requires Sound(procs, nextPid, h) && i < |procs| && Active(procs[i])
    ensures forall sig :: sig in {SIGKILL, SIGTERM} ==> (sig in procs[i].pending <==> (procs[i].pid, sig) in h.sent)
  {
    assert Fine(procs[i], nextPid, h);
  }

  /** The child at i has exited, nobody has received its status, and this status tells how. */
  ghost predicate ReturnedAt(procs: seq<Proc>, parent: nat, i: int, pid: nat, status: nat, posix: bool) {
    && 0 <= i < |procs| && Unreported(procs[i], parent) && procs[i].pid == pid
    && Tells(status, Ending(procs[i].exitCode, procs[i].killedBy), posix)
  }

  lemma Returns(procs: seq<Proc>, parent: nat, i: nat, status: nat, posix: bool)
    requires i < |procs| && Unreported(procs[i], parent)
    requires status == StatusOf(Ending(procs[i].exitCode, procs[i].killedBy), posix)
    ensures ReturnedAt(procs, parent, i, procs[i].pid, status, posix)
  {
    StatusMeans(Ending(procs[i].exitCode, procs[i].killedBy));
  }

  // ---------- whole runs ----------

  /** A run of interrupts, from state to state; all but the last resume a process. */
  ghost predicate Chain(trace: seq<Snapshot>, steps: seq<Step>, resumes: bool) {
    0 < |trace| <= |steps| + 1 && forall k :: 0 <= k < |trace| - 1 ==> Next(trace[k], steps[k], k < |trace| - 2 || resumes, trace[k + 1])
  }

  /** Nobody in the run reads or writes at the end while another waits there. */
  ghost predicate Uncrowded(trace: seq<Snapshot>, steps: seq<Step>, x: End) {
    forall k :: 0 <= k < |trace| - 1 && k < |steps| ==> !Crowds(trace[k].procs, trace[k].fds, trace[k].cur, steps[k].event, x)
  }

  /** Nothing that was recorded is undone or replaced. */
  ghost predicate Later(h: History, h2: History) {
    && h.reports <= h2.reports && h.handed <= h2.handed && h.faulted <= h2.faulted && h.sent <= h2.sent
    && Extends(h.born, h2.born) && Extends(h.ended, h2.ended)
  }

  /** The step ends the process: it exits or faults with that code, or a signal sent to it does. */
  ghost predicate EndedBy(s: Snapshot, event: Event, c: nat, e: Ending) {
    || (Ends(event) && RunsAt(s.procs, s.cur) && c == PidAt(s.procs, s.cur) && e == Ending(ExitCode(event.code), 0))
    || (&& e.code == 0 && e.sig in {SIGKILL, SIGTERM} && ((c, e.sig) in s.hist.sent || event == Kill(c, e.sig))
        && (e.sig == SIGTERM ==> (c, SIGKILL) !in s.hist.sent))
  }

  /** Endings, births and signals that are new are those of the step. */
  ghost predicate Grounds(s: Snapshot, event: Event, h2: History) {
    && (forall c :: c in h2.ended && c !in s.hist.ended ==> EndedBy(s, event, c, h2.ended[c]))
    && (forall c :: c in h2.born && c !in s.hist.born ==> event.Fork? && h2.born[c] == PidAt(s.procs, s.cur))
    && (forall x :: x in h2.sent && x !in s.hist.sent ==> event == Kill(x.0, x.1))
  }

  ghost predicate EndedAt(trace: seq<Snapshot>, steps: seq<Step>, k: int, c: nat, e: Ending) {
    && 0 <= k < |trace| - 1 && k < |steps|
    && c !in trace[k].hist.ended && c in trace[k + 1].hist.ended && EndedBy(trace[k], steps[k].event, c, e)
  }

  ghost predicate BornAt(trace: seq<Snapshot>, steps: seq<Step>, k: int, c: nat, parent: nat) {
    && 0 <= k < |trace| - 1 && k < |steps|
    && c !in trace[k].hist.born && c in trace[k + 1].hist.born && steps[k].event.Fork? && PidAt(trace[k].procs, trace[k].cur) == parent
  }

  ghost predicate SentAt(trace: seq<Snapshot>, steps: seq<Step>, k: int, c: nat, sig: nat) {
    0 <= k < |trace| - 1 && k < |steps| && steps[k].event == Kill(c, sig)
  }

  lemma LaterSelf(h: History)
    ensures Later(h, h)
  {
  }

  lemma LaterTrans(a: History, b: History, c: History)
    requires Later(a, b) && Later(b, c)
    ensures Later(a, c)
  {
  }

  lemma ChainMore(trace: seq<Snapshot>, steps: seq<Step>, s: Snapshot, resumes: bool)
    requires Chain(trace, steps, true) && |trace| <= |steps| && Next(trace[|trace| - 1], steps[|trace| - 1], resumes, s)
    ensures Chain(trace + [s], steps, resumes)
  {
    hide Next;
    assert forall k :: 0 <= k < |trace| ==> (trace + [s])[k] == trace[k];
  }

  /** What one step does to the record, whatever it replies. */
  lemma NextMeans(s: Snapshot, step: Step, resumes: bool, s2: Snapshot)
    requires Next(s, step, resumes, s2)
    ensures Later(s.hist, s2.hist) && Grounds(s, step.event, s2.hist) && (step.copies ==> s2.hist.faulted == s.hist.faulted)
    ensures forall x :: x in s2.crowded ==> x in s.crowded || Crowds(s.procs, s.fds, s.cur, step.event, x)
    ensures s.moves <= s2.moves
  {
    hide Later, Grounds, Called, Killed, Delivered, Crowds, Flowed, Replied, Stalls;
    var reply, status, called, due, written, data, moved, later :|
      Recorded(s, step, resumes, s2, reply, status, called, due, written) && Flowed(s, step, resumes, s2, reply, data, moved, later);
    FlowedMeans(s, step, resumes, s2, reply, data, moved, later);
    CalledMeans(s, step.event, reply, status, !resumes, called);
    if !step.event.Fault? {
      KilledMeans(s, step.event, called, due);
    }
    if resumes {
      DeliveredMeans(s, step.event, s2.procs, s2.cur, due, step.copies, s2.hist, written);
    }
  }

  /** A read that asks for some bytes and gets none is at the end of the file: everything written to
      the pipe has been read, and nobody has it open to write. */
  lemma EmptyReads(s: Snapshot, step: Step, resumes: bool, s2: Snapshot, i: nat)
    requires Next(s, step, resumes, s2) && (step.event.Read? ==> step.event.count > 0)
    requires |s.moves| < |s2.moves| && s2.moves[|s.moves|] == Took(i, [])
    ensures Got(s.moves, i) == Put(s.moves, i)
    ensures !Held(s.fds, WriteEnd(i)) || !Held(s2.fds, WriteEnd(i))
  {
    hide Recorded, CrowdedBound, Got, Put, Held, WriteAnswer;
    var reply, status, called, due, written, data, moved, later :|
      Recorded(s, step, resumes, s2, reply, status, called, due, written) && Flowed(s, step, resumes, s2, reply, data, moved, later);
    if moved != s.moves {
      assert s2.moves[|s.moves|] == moved[|s.moves|];
      var k :| && AtPipeEnd(RunsAt(s.procs, s.cur), TableAt(s), step.event.f, PipeRead, step.event.count > 0 && !step.event.writable, k)
               && |data| == reply.n && moved == s.moves + [Took(k, data)];
      assert k == i && reply == Done(0);
      CallEmpty(s, i, step.event.count, reply);
    }
  }

  lemma CallEmpty(s: Snapshot, i: nat, count: nat, reply: Reply)
    requires ReadAnswer(s, i, count, reply) && count > 0 && reply == Done(0)
    ensures Got(s.moves, i) == Put(s.moves, i) && !Held(s.fds, WriteEnd(i))
  {
  }

  lemma FlowedMeans(s: Snapshot, step: Step, resumes: bool, s2: Snapshot, reply: Reply, data: seq<byte>, moved: seq<Move>, later: seq<byte>)
    requires Flowed(s, step, resumes, s2, reply, data, moved, later)
    ensures s.moves <= s2.moves
  {
  }

  lemma CalledMeans(s: Snapshot, e: Event, reply: Reply, status: nat, halted: bool, h2: History)
    requires Called(s.hist, s.procs, s.cur, e, reply, status, halted, h2)
    ensures Later(s.hist, h2) && Grounds(s, e, h2) && h2.faulted == s.hist.faulted
  {
    hide Died, Later, Grounds, CallHistory;
    LaterSelf(s.hist);
    if Ends(e) && RunsAt(s.procs, s.cur) {
      NoGrounds(s, e);
      if h2 != s.hist {
        DiedMeans(s, e, h2);
      }
    } else {
      CallMeans(s, e, reply, status);
    }
  }

  lemma NoGrounds(s: Snapshot, e: Event)
    ensures Grounds(s, e, s.hist)
  {
  }

  lemma DiedMeans(s: Snapshot, e: Event, h2: History)
    requires Ends(e) && RunsAt(s.procs, s.cur) && Died(s.hist, PidAt(s.procs, s.cur), Ending(ExitCode(e.code), 0), h2)
    ensures Later(s.hist, h2) && Grounds(s, e, h2) && h2.faulted == s.hist.faulted
  {
    hide StatusOf, ExitCode;
  }

  lemma CallMeans(s: Snapshot, e: Event, reply: Reply, status: nat)
    requires e.Fork? && reply.Done? ==> reply.n !in s.hist.born
    ensures var h2 := CallHistory(s.hist, e, PidAt(s.procs, s.cur), reply, status);
      Later(s.hist, h2) && Grounds(s, e, h2) && h2.faulted == s.hist.faulted
  {
    hide EndedBy;
  }

  lemma KilledMeans(s: Snapshot, e: Event, called: History, due: History)
    requires Later(s.hist, called) && Grounds(s, e, called) && called.faulted == s.hist.faulted && Killed(called, due)
    ensures Later(s.hist, due) && Grounds(s, e, due) && due.faulted == s.hist.faulted
  {
    hide ExitCode;
    forall c | c in due.ended && c !in s.hist.ended
      ensures EndedBy(s, e, c, due.ended[c])
    {
      if c !in called.ended {
        assert ByKill(called, c, due.ended[c]);
      }
    }
  }

  lemma DeliveredMeans(s: Snapshot, e: Event, procs: seq<Proc>, cur: int, due: History, copies: bool, h2: History, written: seq<nat>)
    requires Later(s.hist, due) && Grounds(s, e, due) && due.faulted == s.hist.faulted && Delivered(procs, cur, due, copies, h2, written)
    ensures Later(s.hist, h2) && Grounds(s, e, h2) && (copies ==> h2.faulted == s.hist.faulted)
  {
    hide Underway, EndedBy;
    if r :| DueTo(due, r, procs, cur) {
      assert GivenTo(due, r, procs[cur], copies, h2, written);
    }
  }

  /** In a run nothing recorded is undone or replaced; an end at which nobody calls while another
      waits does not become crowded; no status is refused while memory accepts all of them. */
  lemma {:induction false} ChainMeans(trace: seq<Snapshot>, steps: seq<Step>, resumes: bool)
    requires Chain(trace, steps, resumes)
    ensures var a, z := trace[0], trace[|trace| - 1];
      && Later(a.hist, z.hist) && a.moves <= z.moves
      && (forall x :: x !in a.crowded && Uncrowded(trace, steps, x) ==> x !in z.crowded)
      && ((forall k :: 0 <= k < |trace| - 1 ==> steps[k].copies) ==> z.hist.faulted == a.hist.faulted)
    decreases |trace|
  {
    var n := |trace| - 1;
    if n > 0 {
      var shorter := trace[..n];
      Shortened(trace, steps, resumes);
      hide Next, Crowds, Later, Grounds;
      assert forall x :: Uncrowded(trace, steps, x) ==> Uncrowded(shorter, steps, x);
      ChainMeans(shorter, steps, true);
      NextMeans(trace[n - 1], steps[n - 1], resumes, trace[n]);
      LaterTrans(trace[0].hist, trace[n - 1].hist, trace[n].hist);
    } else {
      LaterSelf(trace[0].hist);
    }
  }

  lemma Shortened(trace: seq<Snapshot>, steps: seq<Step>, resumes: bool)
    requires Chain(trace, steps, resumes) && |trace| > 1
    ensures Chain(trace[..|trace| - 1], steps, true)
    ensures Next(trace[|trace| - 2], steps[|trace| - 2], resumes, trace[|trace| - 1])
  {
    hide Next;
    var shorter := trace[..|trace| - 1];
    assert forall k :: 0 <= k < |shorter| ==> shorter[k] == trace[k];
  }

  /** Whoever ended in a run ended at a step of the run, and the record says how. */
  lemma {:induction false} ChainEnded(trace: seq<Snapshot>, steps: seq<Step>, resumes: bool, c: nat) returns (k: int)
    requires Chain(trace, steps, resumes) && c !in trace[0].hist.ended && c in trace[|trace| - 1].hist.ended
    ensures EndedAt(trace, steps, k, c, trace[|trace| - 1].hist.ended[c])
    decreases |trace|
  {
    hide Next, EndedBy;
    var n := |trace| - 1;
    Shortened(trace, steps, resumes);
    NextMeans(trace[n - 1], steps[n - 1], resumes, trace[n]);
    if c in trace[n - 1].hist.ended {
      k := ChainEnded(trace[..n], steps, true, c);
      assert EndedAt(trace, steps, k, c, trace[n].hist.ended[c]);
    } else {
      k := n - 1;
      assert EndedAt(trace, steps, n - 1, c, trace[n].hist.ended[c]);
    }
  }

  /** Whoever was born in a run was forked at a step of the run, by the parent the record names. */
  lemma {:induction false} ChainBorn(trace: seq<Snapshot>, steps: seq<Step>, resumes: bool, c: nat) returns (k: int)
    requires Chain(trace, steps, resumes) && c !in trace[0].hist.born && c in trace[|trace| - 1].hist.born
    ensures BornAt(trace, steps, k, c, trace[|trace| - 1].hist.born[c])
    decreases |trace|
  {
    hide Next, EndedBy;
    var n := |trace| - 1;
    Shortened(trace, steps, resumes);
    NextMeans(trace[n - 1], steps[n - 1], resumes, trace[n]);
    if c in trace[n - 1].hist.born {
      k := ChainBorn(trace[..n], steps, true, c);
      assert BornAt(trace, steps, k, c, trace[n].hist.born[c]);
    } else {
      k := n - 1;
      assert BornAt(trace, steps, n - 1, c, trace[n].hist.born[c]);
    }
  }

  /** A signal that was sent in a run was sent by a kill of the run. */
  lemma {:induction false} ChainSent(trace: seq<Snapshot>, steps: seq<Step>, resumes: bool, c: nat, sig: nat) returns (k: int)
    requires Chain(trace, steps, resumes) && (c, sig) !in trace[0].hist.sent && (c, sig) in trace[|trace| - 1].hist.sent
    ensures SentAt(trace, steps, k, c, sig)
    decreases |trace|
  {
    hide Next, EndedBy;
    var n := |trace| - 1;
    Shortened(trace, steps, resumes);
    NextMeans(trace[n - 1], steps[n - 1], resumes, trace[n]);
    if (c, sig) in trace[n - 1].hist.sent {
      k := ChainSent(trace[..n], steps, true, c, sig);
      assert SentAt(trace, steps, k, c, sig);
    } else {
      k := n - 1;
      assert SentAt(trace, steps, n - 1, c, sig);
    }
  }

  /** Every signal that was sent in the run was sent by a kill of the run. */
  lemma SignalsTold(trace: seq<Snapshot>, steps: seq<Step>, resumes: bool)
    requires Chain(trace, steps, resumes)
    ensures forall x :: x in trace[|trace| - 1].hist.sent && x !in trace[0].hist.sent ==> exists k :: SentAt(trace, steps, k, x.0, x.1)
  {
    hide Next, SentAt;
    forall x | x in trace[|trace| - 1].hist.sent && x !in trace[0].hist.sent
      ensures exists k :: SentAt(trace, steps, k, x.0, x.1)
    {
      var k := ChainSent(trace, steps, resumes, x.0, x.1);
    }
  }

  /** Every report of a run carries the status of the step at which the child ended, and goes to the
      process that forked it. */
  ghost predicate Told(trace: seq<Snapshot>, steps: seq<Step>, r: Report) {
    && |trace| > 0
    && var a, z := trace[0].hist, trace[|trace| - 1].hist;
       && r.child in z.ended && r.child in z.born && r.parent == z.born[r.child] && Tells(r.status, z.ended[r.child], r.posix)
       && (if r.child in a.ended then z.ended[r.child] == a.ended[r.child] else exists k :: EndedAt(trace, steps, k, r.child, z.ended[r.child]))
       && (if r.child in a.born then z.born[r.child] == a.born[r.child] else exists k :: BornAt(trace, steps, k, r.child, r.parent))
  }

  lemma ReportsTold(trace: seq<Snapshot>, steps: seq<Step>, resumes: bool, nextPid: nat)
    requires Chain(trace, steps, resumes) && LogOk(trace[|trace| - 1].hist, nextPid)
    ensures forall r :: r in trace[|trace| - 1].hist.reports ==> Told(trace, steps, r)
    ensures var z := trace[|trace| - 1].hist;
      forall r :: r in z.reports ==>
        && r.child in z.ended && (!r.posix ==> r.status == z.ended[r.child].code)
        && (r.posix && z.ended[r.child].sig == 0 ==> r.status % 128 == 0 && r.status / 256 % 256 == z.ended[r.child].code % 256)
        && (r.posix && z.ended[r.child].sig != 0 ==> r.status % 128 == z.ended[r.child].sig % 128)
  {
    hide Next, EndedBy, StatusOf;
    var a, z := trace[0].hist, trace[|trace| - 1].hist;
    ChainMeans(trace, steps, resumes);
    forall r | r in z.reports
      ensures Told(trace, steps, r)
    {
      var k :| 0 <= k < |z.reports| && z.reports[k] == r;
      assert ReportOk(z, r);
      StatusMeans(z.ended[r.child]);
      if r.child !in a.ended {
        var n := ChainEnded(trace, steps, resumes, r.child);
      }
      if r.child !in a.born {
        var n := ChainBorn(trace, steps, resumes, r.child);
      }
    }
  }
}
