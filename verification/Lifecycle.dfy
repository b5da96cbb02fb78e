/** kernel/process.c: the process table as far as parents, children and waiting go. */
module Lifecycle {

  const MAX_PROCESSES: nat := 16
  const ANY: nat := 0xFFFF_FFFF
  const SIGKILL: nat := 9
  const SIGTERM: nat := 15
  const SIGCHLD: nat := 17

  datatype State = Dead | Ready | Running | Blocked | Zombie

  datatype Reason = NoReason | WaitChild | PipeReadWait | PipeWriteWait

  /** The interrupt frame a process resumes from. */
  datatype Frame = NoFrame | KernelFrame | UserFrame

  datatype Proc = Proc(
    pid: nat, parent: nat, state: State,
    exitCode: nat, exited: bool, waited: bool,
    waiting: bool, target: nat, wantsStatus: bool, result: nat, completing: bool, isWaitpid: bool,
    reason: Reason, blockedFd: int, blockedCount: nat,
    pending: set<nat>, killedBy: nat,
    frame: Frame, eax: int)

  const Blank: Proc := Proc(0, 0, Dead, 0, false, false, false, 0, false, 0, false, false, NoReason, -1, 0, {}, 0, NoFrame, 0)

  predicate Live(p: Proc) { p.state != Dead }

  /** Neither free nor a zombie. */
  predicate Active(p: Proc) { p.state != Dead && p.state != Zombie }

  predicate Matches(target: nat, pid: nat) { target == ANY || target == pid }

  /** A child that has exited and whose status nobody has received. */
  predicate Unreported(p: Proc, parent: nat) {
    p.state == Zombie && !p.waited && p.parent == parent
  }

  // ---------- what has happened ----------

  /** How a process ended. */
  datatype Ending = Ending(code: nat, sig: nat)

  /** A status that reached a waiting parent, in the encoding of waitpid or plain. */
  datatype Report = Report(child: nat, parent: nat, status: nat, posix: bool)

  /** What a process asked for when it last blocked in wait or waitpid. */
  datatype Ask = Ask(target: nat, wantsStatus: bool, posix: bool)

  /** The recorded past: who forked whom, how processes ended, who waits or waited for what, which
      statuses were taken for a wait of the parent, which of these the parent's program was handed,
      or could not be handed because its memory refused the status, and which signals were sent
      to whom. */
  datatype History = History(born: map<nat, nat>, ended: map<nat, Ending>, asked: map<nat, Ask>, reports: seq<Report>,
                             handed: set<Report>, faulted: set<Report>, sent: set<(nat, nat)>)

  /** W_EXITCODE */
  function Encoded(code: nat, sig: nat): nat { code % 0x100 * 0x100 + sig % 0x80 }

  /** The status of an ended process, as waitpid or as wait gives it. */
  function StatusOf(e: Ending, posix: bool): nat {
    if !posix then e.code else if e.sig != 0 then Encoded(0, e.sig) else Encoded(e.code, 0)
  }

  /** What a parent makes of a status: of waitpid it reads the signal from the low seven bits, or if
      they are zero the low byte of the exit code from the second byte; of wait it has the code. */
  ghost predicate Tells(status: nat, e: Ending, posix: bool) {
    if !posix then status == e.code
    else if e.sig == 0 then status % 128 == 0 && status / 256 == e.code % 256 && status % 256 == 0
    else status % 128 == e.sig % 128 && status / 128 == 0
  }

  /** WIFEXITED, WEXITSTATUS and WTERMSIG recover how the process ended. */
  lemma StatusMeans(e: Ending)
    ensures e.sig == 0 ==> StatusOf(e, true) % 128 == 0 && StatusOf(e, true) / 256 % 256 == e.code % 256
    ensures e.sig != 0 ==> StatusOf(e, true) % 128 == e.sig % 128 && StatusOf(e, true) / 256 == 0
    ensures StatusOf(e, false) == e.code
    ensures Tells(StatusOf(e, true), e, true) && Tells(StatusOf(e, false), e, false)
  {
  }

  /** A target of -1 is any child, every other target is that child. */
  lemma MatchesMeans(target: nat, pid: nat)
    ensures Matches(0xFFFF_FFFF, pid)
    ensures target != 0xFFFF_FFFF ==> (Matches(target, pid) <==> pid == target)
  {
  }

  ghost predicate Reported(h: History, child: nat) {
    exists k :: 0 <= k < |h.reports| && h.reports[k].child == child
  }

  /** The process had no parent or its parent has ended. */
  ghost predicate Abandoned(h: History, child: nat) {
    child in h.born && (h.born[child] == 0 || h.born[child] in h.ended)
  }

  ghost predicate ReportOk(h: History, r: Report) {
    && r.child in h.ended && r.child in h.born && h.born[r.child] == r.parent
    && r.status == StatusOf(h.ended[r.child], r.posix)
  }

  /** Each status goes at most once, to the parent, and as the child left it. */
  ghost predicate LogOk(h: History, nextPid: nat) {
    && (forall c :: c in h.born ==> c < nextPid)
    && (forall c :: c in h.ended ==> c in h.born)
    && (forall k :: 0 <= k < |h.reports| ==> ReportOk(h, h.reports[k]))
    && (forall k, l :: 0 <= k < l < |h.reports| ==> h.reports[k].child != h.reports[l].child)
    && (forall r :: r in h.handed ==> r in h.reports && r !in h.faulted)
    && (forall r :: r in h.faulted ==> r in h.reports)
    && (forall x :: x in h.sent ==> x.0 in h.born)
  }

  /** The signals that end a process are pending exactly if they were sent. */
  ghost predicate Doomed(p: Proc, h: History) {
    (SIGKILL in p.pending <==> (p.pid, SIGKILL) in h.sent) && (SIGTERM in p.pending <==> (p.pid, SIGTERM) in h.sent)
  }

  /** The report that a woken parent carries until it runs. */
  ghost function ReportOf(p: Proc): Report {
    Report(if p.eax >= 0 then p.eax else 0, p.pid, p.result, p.isWaitpid)
  }

  /** The report was made and has not reached the parent's program yet. */
  ghost predicate Underway(h: History, r: Report) {
    r in h.reports && r !in h.handed && r !in h.faulted
  }

  /** Whoever waits for a pipe wants to move some bytes. */
  ghost predicate Asking(p: Proc) {
    p.reason == PipeReadWait || p.reason == PipeWriteWait ==> p.blockedCount > 0
  }

  ghost predicate AsAsked(p: Proc, h: History) {
    p.pid in h.asked && h.asked[p.pid] == Ask(p.target, p.wantsStatus, p.isWaitpid)
  }

  // ---------- the invariants ----------

  /** What holds of each process by itself: it has exited exactly if it is a zombie, a zombie
      whose status was not received still has a parent, whoever waits is blocked, and whoever was
      woken from a wait carries the report made for it; both as they asked. */
  ghost predicate Fine(p: Proc, nextPid: nat, h: History) {
    && (p.waiting ==> p.state == Blocked && p.reason == WaitChild)
    && (if p.state == Dead then p == Blank else
          && 0 < p.pid < nextPid && p.parent < p.pid
          && p.pid in h.born && (p.parent == 0 || p.parent == h.born[p.pid])
          && (p.parent == 0 ==> Abandoned(h, p.pid))
          && (!p.waited ==> !Reported(h, p.pid))
          && (p.exited <==> p.state == Zombie)
          && (p.exited <==> p.pid in h.ended)
          && (p.exited ==>
                && h.ended[p.pid] == Ending(p.exitCode, p.killedBy)
                && (p.waited || p.parent != 0)
                && (p.waited ==> Reported(h, p.pid) || Abandoned(h, p.pid)))
          && (p.waited ==> p.exited)
          && (Active(p) ==> p.killedBy == 0 && Doomed(p, h))
          && (Active(p) ==> Asking(p))
          && (Active(p) && (p.waiting || p.completing) ==> AsAsked(p, h))
          && (Active(p) && p.completing ==>
                p.state != Blocked && !p.waiting && p.reason == NoReason && p.eax >= 0 && Underway(h, ReportOf(p))))
  }

  ghost predicate AllFine(procs: seq<Proc>, nextPid: nat, h: History) {
    forall i :: 0 <= i < |procs| ==> Fine(procs[i], nextPid, h)
  }

  ghost predicate Distinct(procs: seq<Proc>) {
    forall i, j :: 0 <= i < j < |procs| && Live(procs[i]) && Live(procs[j]) ==> procs[i].pid != procs[j].pid
  }

  /** A process that can act as the parent with this pid. */
  ghost predicate ParentAt(procs: seq<Proc>, pid: nat, j: int) {
    0 <= j < |procs| && Active(procs[j]) && procs[j].pid == pid
  }

  /** Every recorded parent is still active. */
  ghost predicate Parents(procs: seq<Proc>) {
    forall i :: 0 <= i < |procs| && Live(procs[i]) && procs[i].parent != 0 ==>
      exists j :: ParentAt(procs, procs[i].parent, j)
  }

  /** Nobody waits while a matching unreported zombie is there. */
  ghost predicate NoneOverdue(procs: seq<Proc>) {
    forall i, j :: 0 <= i < |procs| && 0 <= j < |procs| && procs[i].waiting && Unreported(procs[j], procs[i].pid) ==>
      !Matches(procs[i].target, procs[j].pid)
  }

  /** A child of p that p is waiting for and that can still exit. */
  ghost predicate Awaited(procs: seq<Proc>, p: Proc, j: int) {
    0 <= j < |procs| && Active(procs[j]) && procs[j].parent == p.pid && Matches(p.target, procs[j].pid)
  }

  /** Nobody waits in vain. */
  ghost predicate NoneInVain(procs: seq<Proc>) {
    forall i :: 0 <= i < |procs| && procs[i].waiting ==> exists j :: Awaited(procs, procs[i], j)
  }

  ghost predicate InTable(procs: seq<Proc>, pid: nat, i: int) {
    0 <= i < |procs| && Live(procs[i]) && procs[i].pid == pid
  }

  /** An ended child whose status was not received is still in the table, unless its parent
      has ended. */
  ghost predicate NoneLost(procs: seq<Proc>, h: History) {
    forall c :: c in h.ended && !Reported(h, c) && !Abandoned(h, c) ==> exists i :: InTable(procs, c, i)
  }

  ghost predicate CarriedBy(procs: seq<Proc>, r: Report, j: int) {
    0 <= j < |procs| && Active(procs[j]) && procs[j].completing && ReportOf(procs[j]) == r
  }

  /** A report that is underway is with the parent, unless the parent has ended. */
  ghost predicate NoneStranded(procs: seq<Proc>, h: History) {
    forall r :: Underway(h, r) && r.parent !in h.ended ==> exists j :: CarriedBy(procs, r, j)
  }

  ghost predicate Sound(procs: seq<Proc>, nextPid: nat, h: History) {
    && nextPid > 0 && LogOk(h, nextPid) && AllFine(procs, nextPid, h) && Distinct(procs)
    && Parents(procs) && NoneOverdue(procs) && NoneInVain(procs) && NoneLost(procs, h) && NoneStranded(procs, h)
  }

  // ---------- changes that leave the relations alone ----------

  /** Only the running state, signals, frames or pipe waits differ. */
  ghost predicate Alike(p: Proc, q: Proc) {
    && q.pid == p.pid && q.parent == p.parent && q.exited == p.exited && q.waited == p.waited
    && q.waiting == p.waiting && q.target == p.target
    && (p.waiting ==> q.reason == p.reason && q.wantsStatus == p.wantsStatus && q.isWaitpid == p.isWaitpid)
    && (q.state == p.state || (!p.waiting && Active(p) && Active(q)))
    && (p.state == Zombie ==> q.exitCode == p.exitCode && q.killedBy == p.killedBy)
    && (p.state == Dead ==> q == p)
    && (Active(p) ==> SameDoom(p, q)) && (Asking(p) ==> Asking(q))
    && q.completing == p.completing
    && (p.completing ==> SameCarry(p, q) && q.reason == p.reason && (q.state == p.state || q.state != Blocked))
  }

  ghost predicate SameDoom(p: Proc, q: Proc) {
    && q.killedBy == p.killedBy
    && (SIGKILL in q.pending <==> SIGKILL in p.pending) && (SIGTERM in q.pending <==> SIGTERM in p.pending)
  }

  /** What a woken parent carries to its program. */
  ghost predicate SameCarry(p: Proc, q: Proc) {
    q.eax == p.eax && q.result == p.result && q.isWaitpid == p.isWaitpid && q.wantsStatus == p.wantsStatus
  }

  ghost predicate AllAlike(procs: seq<Proc>, procs2: seq<Proc>) {
    |procs2| == |procs| && forall i :: 0 <= i < |procs| ==> Alike(procs[i], procs2[i])
  }

  lemma AlikeFine(procs: seq<Proc>, procs2: seq<Proc>, nextPid: nat, h: History)
    requires AllFine(procs, nextPid, h) && AllAlike(procs, procs2)
    ensures AllFine(procs2, nextPid, h)
  {
    hide Reported, Abandoned, Underway;
    forall i | 0 <= i < |procs2|
      ensures Fine(procs2[i], nextPid, h)
    {
      assert Alike(procs[i], procs2[i]) && Fine(procs[i], nextPid, h);
    }
  }

  lemma AlikeRelated(procs: seq<Proc>, procs2: seq<Proc>, h: History)
    requires Distinct(procs) && Parents(procs) && NoneLost(procs, h) && AllAlike(procs, procs2)
    ensures Distinct(procs2) && Parents(procs2) && NoneLost(procs2, h)
  {
    hide Reported, Abandoned;
    forall i | 0 <= i < |procs2| && Live(procs2[i]) && procs2[i].parent != 0
      ensures exists j :: ParentAt(procs2, procs2[i].parent, j)
    {
      var j :| ParentAt(procs, procs[i].parent, j);
      assert ParentAt(procs2, procs2[i].parent, j);
    }
    forall c | c in h.ended && !Reported(h, c) && !Abandoned(h, c)
      ensures exists i :: InTable(procs2, c, i)
    {
      var i :| InTable(procs, c, i);
      assert InTable(procs2, c, i);
    }
  }

  lemma AlikeWaiters(procs: seq<Proc>, procs2: seq<Proc>)
    requires NoneOverdue(procs) && NoneInVain(procs) && AllAlike(procs, procs2)
    ensures NoneOverdue(procs2) && NoneInVain(procs2)
  {
    forall i | 0 <= i < |procs2| && procs2[i].waiting
      ensures exists j :: Awaited(procs2, procs2[i], j)
    {
      var j :| Awaited(procs, procs[i], j);
      assert Awaited(procs2, procs2[i], j);
    }
  }

  lemma AlikeStranded(procs: seq<Proc>, procs2: seq<Proc>, h: History)
    requires NoneStranded(procs, h) && AllAlike(procs, procs2)
    ensures NoneStranded(procs2, h)
  {
    hide Underway;
    forall r | Underway(h, r) && r.parent !in h.ended
      ensures exists j :: CarriedBy(procs2, r, j)
    {
      var j :| CarriedBy(procs, r, j);
      assert Alike(procs[j], procs2[j]);
      assert CarriedBy(procs2, r, j);
    }
  }

  lemma AlikeSound(procs: seq<Proc>, procs2: seq<Proc>, nextPid: nat, h: History)
    requires Sound(procs, nextPid, h) && AllAlike(procs, procs2)
    ensures Sound(procs2, nextPid, h)
  {
    hide LogOk, AllFine, Distinct, Parents, NoneOverdue, NoneInVain, NoneLost, NoneStranded, AllAlike;
    AlikeStranded(procs, procs2, h);
    AlikeFine(procs, procs2, nextPid, h);
    AlikeRelated(procs, procs2, h);
    AlikeWaiters(procs, procs2);
  }

  // ---------- birth ----------

  ghost function Birth(h: History, pid: nat, parent: nat): History {
    h.(born := h.born[pid := parent])
  }

  /** A new process with the next pid takes a free slot. */
  lemma BornSound(procs: seq<Proc>, i: nat, child: Proc, nextPid: nat, h: History)
    requires Sound(procs, nextPid, h) && i < |procs| && procs[i].state == Dead
    requires child.pid == nextPid && Active(child) && !child.waiting && !child.exited && !child.waited && !child.completing
    requires child.killedBy == 0 && child.pending == {} && Asking(child)
    requires child.parent == 0 || exists j :: ParentAt(procs, child.parent, j)
    ensures Sound(procs[i := child], nextPid + 1, Birth(h, nextPid, child.parent))
  {
    var procs2, h2 := procs[i := child], Birth(h, nextPid, child.parent);
    BornLog(h, nextPid, child.parent);
    assert child.parent < nextPid by {
      if child.parent != 0 {
        var j :| ParentAt(procs, child.parent, j);
        assert Fine(procs[j], nextPid, h);
      }
    }
    forall k | 0 <= k < |procs2|
      ensures Fine(procs2[k], nextPid + 1, h2)
    {
      assert Fine(procs[k], nextPid, h);
    }
    hide LogOk;
    assert Distinct(procs2) by {
      assert forall k :: 0 <= k < |procs| ==> Fine(procs[k], nextPid, h);
    }
    hide Fine, Reported, Abandoned, NoneStranded;
    BornRelated(procs, i, child, h, h2);
    assert NoneStranded(procs2, h2) by {
      StrandedKept(procs, procs2, h, h2);
    }
  }

  /** Whoever carries a report still does. */
  lemma StrandedKept(procs: seq<Proc>, procs2: seq<Proc>, h: History, h2: History)
    requires NoneStranded(procs, h) && |procs2| == |procs|
    requires forall r :: Underway(h2, r) && r.parent !in h2.ended ==> Underway(h, r) && r.parent !in h.ended
    requires forall j :: 0 <= j < |procs| && Active(procs[j]) && procs[j].completing && Underway(h2, ReportOf(procs[j])) && procs[j].pid !in h2.ended ==>
               Active(procs2[j]) && procs2[j].completing && ReportOf(procs2[j]) == ReportOf(procs[j])
    ensures NoneStranded(procs2, h2)
  {
    hide Underway;
    forall r | Underway(h2, r) && r.parent !in h2.ended
      ensures exists j :: CarriedBy(procs2, r, j)
    {
      var j :| CarriedBy(procs, r, j);
      assert CarriedBy(procs2, r, j);
    }
  }

  lemma BornLog(h: History, nextPid: nat, parent: nat)
    requires LogOk(h, nextPid)
    ensures LogOk(Birth(h, nextPid, parent), nextPid + 1)
    ensures !Reported(h, nextPid) && nextPid !in h.ended && forall s :: (nextPid, s) !in h.sent
    ensures forall c :: Reported(Birth(h, nextPid, parent), c) <==> Reported(h, c)
    ensures forall c :: c != nextPid ==> (Abandoned(Birth(h, nextPid, parent), c) <==> Abandoned(h, c))
    ensures forall r :: Underway(Birth(h, nextPid, parent), r) <==> Underway(h, r)
  {
    var h2 := Birth(h, nextPid, parent);
    assert forall k :: 0 <= k < |h.reports| ==> ReportOk(h, h.reports[k]) && ReportOk(h2, h.reports[k]);
  }

  lemma BornRelated(procs: seq<Proc>, i: nat, child: Proc, h: History, h2: History)
    requires i < |procs| && procs[i].state == Dead && Active(child) && !child.waiting && !child.waited
    requires Parents(procs) && NoneOverdue(procs) && NoneInVain(procs) && NoneLost(procs, h)
    requires child.parent == 0 || exists j :: ParentAt(procs, child.parent, j)
    requires h2.ended == h.ended && forall c :: c in h.ended ==> (Reported(h2, c) <==> Reported(h, c)) && (Abandoned(h2, c) <==> Abandoned(h, c))
    ensures Parents(procs[i := child]) && NoneOverdue(procs[i := child]) && NoneInVain(procs[i := child]) && NoneLost(procs[i := child], h2)
  {
    var procs2 := procs[i := child];
    hide Reported, Abandoned;
    forall k | 0 <= k < |procs2| && Live(procs2[k]) && procs2[k].parent != 0
      ensures exists j :: ParentAt(procs2, procs2[k].parent, j)
    {
      var j :| ParentAt(procs, procs2[k].parent, j);
      assert ParentAt(procs2, procs2[k].parent, j);
    }
    forall k | 0 <= k < |procs2| && procs2[k].waiting
      ensures exists j :: Awaited(procs2, procs2[k], j)
    {
      var j :| Awaited(procs, procs[k], j);
      assert Awaited(procs2, procs2[k], j);
    }
    forall c | c in h2.ended && !Reported(h2, c) && !Abandoned(h2, c)
      ensures exists k :: InTable(procs2, c, k)
    {
      var k :| InTable(procs, c, k);
      assert InTable(procs2, c, k);
    }
  }

  // ---------- a status is received, and the zombie goes ----------

  ghost function Receive(h: History, r: Report): History {
    h.(reports := h.reports + [r])
  }

  lemma ReceiveLog(h: History, nextPid: nat, r: Report)
    requires LogOk(h, nextPid) && ReportOk(h, r) && !Reported(h, r.child)
    ensures LogOk(Receive(h, r), nextPid)
    ensures forall c :: Reported(Receive(h, r), c) <==> Reported(h, c) || c == r.child
    ensures forall c :: Abandoned(Receive(h, r), c) <==> Abandoned(h, c)
    ensures forall q :: Underway(Receive(h, r), q) <==> Underway(h, q) || q == r
    ensures forall q :: Underway(h, q) ==> q != r
  {
    var h2 := Receive(h, r);
    assert forall k :: 0 <= k < |h.reports| ==> h2.reports[k] == h.reports[k] && ReportOk(h2, h.reports[k]);
    assert h2.reports[|h.reports|] == r;
    assert r !in h.reports;
    forall c | Reported(h, c)
      ensures Reported(h2, c)
    {
      var k :| 0 <= k < |h.reports| && h.reports[k].child == c;
      assert h2.reports[k].child == c;
    }
  }

  /** The report reaches the parent's program, or is refused by its memory. */
  ghost function Hand(h: History, r: Report, reached: bool): History {
    if reached then h.(handed := h.handed + {r}) else h.(faulted := h.faulted + {r})
  }

  lemma HandLog(h: History, nextPid: nat, r: Report, reached: bool)
    requires LogOk(h, nextPid) && Underway(h, r)
    ensures LogOk(Hand(h, r, reached), nextPid)
    ensures forall c :: Reported(Hand(h, r, reached), c) <==> Reported(h, c)
    ensures forall c :: Abandoned(Hand(h, r, reached), c) <==> Abandoned(h, c)
    ensures forall q :: Underway(Hand(h, r, reached), q) <==> Underway(h, q) && q != r
    ensures var h2 := Hand(h, r, reached); h2.ended == h.ended && h2.born == h.born && h2.asked == h.asked && h2.sent == h.sent
  {
    var h2 := Hand(h, r, reached);
    assert forall k :: 0 <= k < |h.reports| ==> ReportOk(h, h.reports[k]) && ReportOk(h2, h.reports[k]);
  }

  /** A parent asks and gets the status of an exited child at once. */
  ghost function HandNow(h: History, r: Report): History { Hand(Receive(h, r), r, true) }

  /** An unreported zombie's status is received. */
  lemma ReceivedSound(procs: seq<Proc>, i: nat, nextPid: nat, h: History, posix: bool)
    requires Sound(procs, nextPid, h) && i < |procs| && procs[i].state == Zombie && !procs[i].waited
    ensures Sound(procs[i := procs[i].(waited := true)], nextPid, HandNow(h, ReportFor(procs[i], posix)))
  {
    var z, r := procs[i], ReportFor(procs[i], posix);
    var procs2, h1, h2 := procs[i := z.(waited := true)], Receive(h, r), HandNow(h, r);
    assert Fine(z, nextPid, h);
    ReceiveLog(h, nextPid, r);
    HandLog(h1, nextPid, r, true);
    ReceivedFine(procs, i, nextPid, h, h2, r);
    hide Reported, LogOk, ReportOk, StatusOf, Fine, Abandoned, Underway, AllFine, HandNow, NoneStranded;
    StillRelated(procs, i, procs2, h, h2);
    StrandedKept(procs, procs2, h, h2);
  }

  lemma ReceivedFine(procs: seq<Proc>, i: nat, nextPid: nat, h: History, h2: History, r: Report)
    requires AllFine(procs, nextPid, h) && i < |procs| && procs[i].state == Zombie && !procs[i].waited && r.child == procs[i].pid
    requires Distinct(procs) && h2.born == h.born && h2.ended == h.ended && h2.asked == h.asked && h2.sent == h.sent
    requires forall c :: Reported(h2, c) <==> Reported(h, c) || c == r.child
    requires forall c :: Abandoned(h2, c) <==> Abandoned(h, c)
    requires forall q :: Underway(h2, q) <==> Underway(h, q)
    ensures AllFine(procs[i := procs[i].(waited := true)], nextPid, h2)
  {
    var procs2 := procs[i := procs[i].(waited := true)];
    hide Reported, Abandoned, Underway;
    forall k | 0 <= k < |procs2|
      ensures Fine(procs2[k], nextPid, h2)
    {
      assert Fine(procs[k], nextPid, h);
    }
  }

  /** The parent that was woken runs: what it carries reaches its program, or is refused. */
  lemma HandedSound(procs: seq<Proc>, i: nat, q: Proc, nextPid: nat, h: History, reached: bool)
    requires Sound(procs, nextPid, h) && i < |procs| && Active(procs[i]) && procs[i].completing && !q.completing
    requires q == procs[i].(completing := false, eax := q.eax, result := q.result, wantsStatus := q.wantsStatus)
    ensures Underway(h, ReportOf(procs[i]))
    ensures Sound(procs[i := q], nextPid, Hand(h, ReportOf(procs[i]), reached))
  {
    hide Reported, LogOk, Abandoned, Underway, Hand, NoneStranded, Distinct, Parents, NoneOverdue, NoneInVain, NoneLost;
    var procs2, r := procs[i := q], ReportOf(procs[i]);
    var h2 := Hand(h, r, reached);
    assert Fine(procs[i], nextPid, h);
    HandLog(h, nextPid, r, reached);
    HandedFine(procs, i, q, nextPid, h, h2);
    HandedRelated(procs, i, q, h, h2);
    HandedStranded(procs, i, q, nextPid, h, h2);
  }

  lemma HandedStranded(procs: seq<Proc>, i: nat, q: Proc, nextPid: nat, h: History, h2: History)
    requires AllFine(procs, nextPid, h) && NoneStranded(procs, h) && i < |procs| && h2.ended == h.ended
    requires forall r :: Underway(h2, r) <==> Underway(h, r) && r != ReportOf(procs[i])
    ensures NoneStranded(procs[i := q], h2)
  {
    hide NoneStranded, Underway, Fine;
    StrandedKept(procs, procs[i := q], h, h2);
  }

  /** A change to one process that leaves its relations alone. */
  lemma HandedRelated(procs: seq<Proc>, i: nat, q: Proc, h: History, h2: History)
    requires Distinct(procs) && Parents(procs) && NoneOverdue(procs) && NoneInVain(procs) && NoneLost(procs, h) && i < |procs|
    requires q.pid == procs[i].pid && q.parent == procs[i].parent && q.state == procs[i].state && q.waited == procs[i].waited
    requires q.waiting == procs[i].waiting && q.target == procs[i].target
    requires h2.ended == h.ended && forall c :: (Reported(h2, c) <==> Reported(h, c)) && (Abandoned(h2, c) <==> Abandoned(h, c))
    ensures var procs2 := procs[i := q];
      Distinct(procs2) && Parents(procs2) && NoneOverdue(procs2) && NoneInVain(procs2) && NoneLost(procs2, h2)
  {
    hide Reported, Abandoned;
    var procs2 := procs[i := q];
    forall k | 0 <= k < |procs2| && Live(procs2[k]) && procs2[k].parent != 0
      ensures exists j :: ParentAt(procs2, procs2[k].parent, j)
    {
      var j :| ParentAt(procs, procs[k].parent, j);
      assert ParentAt(procs2, procs2[k].parent, j);
    }
    forall k | 0 <= k < |procs2| && procs2[k].waiting
      ensures exists j :: Awaited(procs2, procs2[k], j)
    {
      var j :| Awaited(procs, procs[k], j);
      assert Awaited(procs2, procs2[k], j);
    }
    forall c | c in h2.ended && !Reported(h2, c) && !Abandoned(h2, c)
      ensures exists k :: InTable(procs2, c, k)
    {
      var k :| InTable(procs, c, k);
      assert InTable(procs2, c, k);
    }
  }

  lemma HandedFine(procs: seq<Proc>, i: nat, q: Proc, nextPid: nat, h: History, h2: History)
    requires AllFine(procs, nextPid, h) && Distinct(procs) && i < |procs| && Active(procs[i]) && procs[i].completing && !q.completing
    requires q == procs[i].(completing := false, eax := q.eax, result := q.result, wantsStatus := q.wantsStatus)
    requires h2.born == h.born && h2.ended == h.ended && h2.asked == h.asked && h2.sent == h.sent
    requires forall c :: (Reported(h2, c) <==> Reported(h, c)) && (Abandoned(h2, c) <==> Abandoned(h, c))
    requires forall r :: Underway(h2, r) <==> Underway(h, r) && r != ReportOf(procs[i])
    ensures AllFine(procs[i := q], nextPid, h2)
  {
    var procs2 := procs[i := q];
    hide Reported, Abandoned, Underway;
    forall k | 0 <= k < |procs2|
      ensures Fine(procs2[k], nextPid, h2)
    {
      assert Fine(procs[k], nextPid, h);
      assert k != i && Live(procs[k]) ==> procs[k].pid != procs[i].pid;
    }
  }

  ghost function ReportFor(z: Proc, posix: bool): Report {
    Report(z.pid, z.parent, StatusOf(Ending(z.exitCode, z.killedBy), posix), posix)
  }

  /** Marking a zombie as received changes nothing else. */
  lemma StillRelated(procs: seq<Proc>, i: nat, procs2: seq<Proc>, h: History, h2: History)
    requires i < |procs| && procs[i].state == Zombie && procs2 == procs[i := procs[i].(waited := true)]
    requires Distinct(procs) && Parents(procs) && NoneOverdue(procs) && NoneInVain(procs) && NoneLost(procs, h)
    requires h2.ended == h.ended && forall c :: (Reported(h, c) ==> Reported(h2, c)) && (Abandoned(h2, c) <==> Abandoned(h, c))
    ensures Distinct(procs2) && Parents(procs2) && NoneOverdue(procs2) && NoneInVain(procs2) && NoneLost(procs2, h2)
  {
    hide Reported, Abandoned;
    forall k | 0 <= k < |procs2| && Live(procs2[k]) && procs2[k].parent != 0
      ensures exists j :: ParentAt(procs2, procs2[k].parent, j)
    {
      var j :| ParentAt(procs, procs[k].parent, j);
      assert ParentAt(procs2, procs2[k].parent, j);
    }
    forall k | 0 <= k < |procs2| && procs2[k].waiting
      ensures exists j :: Awaited(procs2, procs2[k], j)
    {
      var j :| Awaited(procs, procs[k], j);
      assert Awaited(procs2, procs2[k], j);
    }
    forall c | c in h2.ended && !Reported(h2, c) && !Abandoned(h2, c)
      ensures exists k :: InTable(procs2, c, k)
    {
      var k :| InTable(procs, c, k);
      assert InTable(procs2, c, k);
    }
  }

  /** Active processes stay, and whoever goes has been received or abandoned. */
  ghost predicate Carried(procs: seq<Proc>, procs2: seq<Proc>, h: History) {
    && |procs2| == |procs|
    && (forall k :: 0 <= k < |procs| && Active(procs[k]) ==> Active(procs2[k]))
    && (forall k :: 0 <= k < |procs| && Live(procs2[k]) ==>
          Live(procs[k]) && procs2[k].pid == procs[k].pid && procs2[k].parent == procs[k].parent)
    && (forall k :: 0 <= k < |procs| && Live(procs[k]) && !Live(procs2[k]) ==>
          Reported(h, procs[k].pid) || Abandoned(h, procs[k].pid))
  }

  lemma CarriedRelated(procs: seq<Proc>, procs2: seq<Proc>, h: History)
    requires Carried(procs, procs2, h) && Distinct(procs) && Parents(procs) && NoneLost(procs, h)
    ensures Distinct(procs2) && Parents(procs2) && NoneLost(procs2, h)
  {
    hide Reported, Abandoned;
    forall k | 0 <= k < |procs2| && Live(procs2[k]) && procs2[k].parent != 0
      ensures exists j :: ParentAt(procs2, procs2[k].parent, j)
    {
      var j :| ParentAt(procs, procs[k].parent, j);
      assert ParentAt(procs2, procs2[k].parent, j);
    }
    forall c | c in h.ended && !Reported(h, c) && !Abandoned(h, c)
      ensures exists k :: InTable(procs2, c, k)
    {
      var k :| InTable(procs, c, k);
      assert InTable(procs2, c, k);
    }
  }

  lemma CarriedAwaited(procs: seq<Proc>, procs2: seq<Proc>, h: History, k: nat)
    requires Carried(procs, procs2, h) && NoneInVain(procs) && k < |procs|
    requires procs[k].waiting && procs2[k].pid == procs[k].pid && procs2[k].target == procs[k].target
    ensures exists j :: Awaited(procs2, procs2[k], j)
  {
    hide Reported, Abandoned;
    var j :| Awaited(procs, procs[k], j);
    assert Awaited(procs2, procs2[k], j);
  }

  /** A zombie whose status was received, or that nobody can ask for, leaves the table. */
  lemma DestroyedSound(procs: seq<Proc>, i: nat, nextPid: nat, h: History)
    requires Sound(procs, nextPid, h) && i < |procs| && procs[i].state == Zombie && procs[i].waited
    ensures Sound(procs[i := Blank], nextPid, h)
  {
    var procs2 := procs[i := Blank];
    assert Fine(procs[i], nextPid, h);
    hide LogOk, Reported, Abandoned, Underway, NoneStranded;
    assert AllFine(procs2, nextPid, h) by {
      assert forall k :: 0 <= k < |procs| ==> Fine(procs[k], nextPid, h);
    }
    hide Fine;
    assert Carried(procs, procs2, h);
    CarriedRelated(procs, procs2, h);
    StrandedKept(procs, procs2, h, h);
    forall k | 0 <= k < |procs2| && procs2[k].waiting
      ensures exists j :: Awaited(procs2, procs2[k], j)
    {
      CarriedAwaited(procs, procs2, h, k);
    }
    hide Carried, Distinct, Parents, NoneLost, AllFine;
  }

  // ---------- signals ----------

  ghost function Send(h: History, pid: nat, sig: nat): History { h.(sent := h.sent + {(pid, sig)}) }

  lemma SendLog(h: History, pid: nat, sig: nat, nextPid: nat)
    requires LogOk(h, nextPid) && pid in h.born
    ensures LogOk(Send(h, pid, sig), nextPid)
    ensures var h2 := Send(h, pid, sig);
      && (forall c :: Reported(h2, c) <==> Reported(h, c)) && (forall c :: Abandoned(h2, c) <==> Abandoned(h, c))
      && (forall r :: Underway(h2, r) <==> Underway(h, r))
  {
    var h2 := Send(h, pid, sig);
    assert forall k :: 0 <= k < |h.reports| ==> ReportOk(h, h.reports[k]) && ReportOk(h2, h.reports[k]);
  }

  /** A signal is sent to an active process. */
  lemma SentSound(procs: seq<Proc>, i: nat, sig: nat, nextPid: nat, h: History)
    requires Sound(procs, nextPid, h) && i < |procs| && Active(procs[i])
    ensures Sound(procs[i := procs[i].(pending := procs[i].pending + {sig})], nextPid, Send(h, procs[i].pid, sig))
  {
    var q, h2 := procs[i].(pending := procs[i].pending + {sig}), Send(h, procs[i].pid, sig);
    var procs2 := procs[i := q];
    assert Fine(procs[i], nextPid, h);
    SendLog(h, procs[i].pid, sig, nextPid);
    assert AllFine(procs2, nextPid, h2) by {
      hide LogOk, Parents, NoneOverdue, NoneInVain, NoneLost, NoneStranded, Reported, Abandoned, Underway;
      forall k | 0 <= k < |procs2|
        ensures Fine(procs2[k], nextPid, h2)
      {
        assert Fine(procs[k], nextPid, h);
      }
    }
    hide LogOk, Reported, Abandoned, Underway, NoneStranded, AllFine, Fine;
    HandedRelated(procs, i, q, h, h2);
    StrandedKept(procs, procs2, h, h2);
  }

  // ---------- waiting ----------

  ghost function Asks(h: History, pid: nat, a: Ask): History { h.(asked := h.asked[pid := a]) }

  /** A process starts to wait when no matching child has exited and some can. */
  lemma WaitingSound(procs: seq<Proc>, i: nat, p: Proc, nextPid: nat, h: History, j: nat)
    requires Sound(procs, nextPid, h) && i < |procs| && Active(procs[i]) && !procs[i].waiting && !procs[i].completing
    requires p.waiting && p.state == Blocked && p.reason == WaitChild && !p.completing
    requires p.pid == procs[i].pid && p.parent == procs[i].parent && !p.exited && !p.waited && SameDoom(procs[i], p)
    requires forall k :: 0 <= k < |procs| && Unreported(procs[k], p.pid) ==> !Matches(p.target, procs[k].pid)
    requires Awaited(procs, p, j) && j != i
    ensures Sound(procs[i := p], nextPid, Asks(h, p.pid, Ask(p.target, p.wantsStatus, p.isWaitpid)))
  {
    var procs2, a := procs[i := p], Ask(p.target, p.wantsStatus, p.isWaitpid);
    AsksLog(h, p.pid, a, nextPid);
    hide LogOk, Reported, Abandoned, Underway, NoneStranded, NoneLost, Parents, Asks, NoneOverdue, NoneInVain;
    assert AllFine(procs2, nextPid, Asks(h, p.pid, a)) by {
      WaitingFine(procs, i, p, nextPid, h, Asks(h, p.pid, a));
    }
    hide Distinct, Fine, AllFine;
    WaitingRelated(procs, i, p, h, j);
    LostKept(procs2, h, Asks(h, p.pid, a));
    StrandedKept(procs, procs2, h, Asks(h, p.pid, a));
  }

  lemma AsksLog(h: History, pid: nat, a: Ask, nextPid: nat)
    requires LogOk(h, nextPid)
    ensures LogOk(Asks(h, pid, a), nextPid)
    ensures var h2 := Asks(h, pid, a);
      && h2.born == h.born && h2.ended == h.ended && h2.sent == h.sent && h2.asked == h.asked[pid := a]
      && (forall c :: Reported(h2, c) <==> Reported(h, c)) && (forall c :: Abandoned(h2, c) <==> Abandoned(h, c))
      && (forall r :: Underway(h2, r) <==> Underway(h, r))
  {
    var h2 := Asks(h, pid, a);
    assert forall k :: 0 <= k < |h.reports| ==> ReportOk(h, h.reports[k]) && ReportOk(h2, h.reports[k]);
  }

  lemma LostKept(procs: seq<Proc>, h: History, h2: History)
    requires NoneLost(procs, h) && h2.ended == h.ended
    requires forall c :: (Reported(h2, c) <==> Reported(h, c)) && (Abandoned(h2, c) <==> Abandoned(h, c))
    ensures NoneLost(procs, h2)
  {
    hide Reported, Abandoned;
  }

  lemma WaitingFine(procs: seq<Proc>, i: nat, p: Proc, nextPid: nat, h: History, h2: History)
    requires AllFine(procs, nextPid, h) && Distinct(procs) && i < |procs| && Active(procs[i])
    requires p.waiting && p.state == Blocked && p.reason == WaitChild && !p.completing
    requires p.pid == procs[i].pid && p.parent == procs[i].parent && !p.exited && !p.waited && SameDoom(procs[i], p)
    requires h2.born == h.born && h2.ended == h.ended && h2.sent == h.sent && h2.asked == h.asked[p.pid := Ask(p.target, p.wantsStatus, p.isWaitpid)]
    requires forall c :: (Reported(h2, c) <==> Reported(h, c)) && (Abandoned(h2, c) <==> Abandoned(h, c))
    requires forall r :: Underway(h2, r) <==> Underway(h, r)
    ensures AllFine(procs[i := p], nextPid, h2)
  {
    hide Reported, Abandoned, Underway;
    var procs2 := procs[i := p];
    forall k | 0 <= k < |procs2|
      ensures Fine(procs2[k], nextPid, h2)
    {
      assert Fine(procs[k], nextPid, h) && Fine(procs[i], nextPid, h);
    }
  }

  lemma WaitingRelated(procs: seq<Proc>, i: nat, p: Proc, h: History, j: nat)
    requires Distinct(procs) && Parents(procs) && NoneLost(procs, h) && NoneOverdue(procs) && NoneInVain(procs)
    requires i < |procs| && Active(procs[i]) && !procs[i].waiting
    requires p.waiting && p.state == Blocked && p.pid == procs[i].pid && p.parent == procs[i].parent
    requires forall k :: 0 <= k < |procs| && Unreported(procs[k], p.pid) ==> !Matches(p.target, procs[k].pid)
    requires Awaited(procs, p, j) && j != i
    ensures var procs2 := procs[i := p];
      Distinct(procs2) && Parents(procs2) && NoneLost(procs2, h) && NoneOverdue(procs2) && NoneInVain(procs2)
  {
    var procs2 := procs[i := p];
    hide Reported, Abandoned, Distinct, Parents, NoneLost;
    assert Carried(procs, procs2, h);
    CarriedRelated(procs, procs2, h);
    WaitingOverdue(procs, i, p);
    assert Awaited(procs2, p, j);
    forall k | 0 <= k < |procs2| && procs2[k].waiting
      ensures exists j :: Awaited(procs2, procs2[k], j)
    {
      if k != i {
        CarriedAwaited(procs, procs2, h, k);
      }
    }
  }

  lemma WaitingOverdue(procs: seq<Proc>, i: nat, p: Proc)
    requires NoneOverdue(procs) && i < |procs| && Active(procs[i])
    requires p.state == Blocked
    requires forall k :: 0 <= k < |procs| && Unreported(procs[k], p.pid) ==> !Matches(p.target, procs[k].pid)
    ensures NoneOverdue(procs[i := p])
  {
  }

  // ---------- exit ----------

  /** The children of an exiting process lose their parent; those that are zombies will not be
      asked for. */
  function Orphan(p: Proc, pid: nat): Proc {
    if Live(p) && p.parent == pid then p.(parent := 0, waited := p.waited || p.state == Zombie) else p
  }

  ghost function Ended(h: History, p: Proc, e: Ending): History {
    h.(ended := h.ended[p.pid := e])
  }

  /** The exit of the process at `me` completes the wait of the one at `pa`. */
  ghost predicate Completes(procs: seq<Proc>, me: nat, pa: int) {
    && me < |procs| && 0 <= pa < |procs| && procs[me].parent != 0
    && procs[pa].waiting && Matches(procs[pa].target, procs[me].pid)
  }

  /** The waiting parent resumes with the pid of the child and its status. */
  ghost predicate Resumed(p: Proc, q: Proc, child: nat, e: Ending) {
    && q.pid == p.pid && q.parent == p.parent && q.exited == p.exited && q.waited == p.waited
    && Active(p) && q.state == Ready && !q.waiting && q.reason == NoReason && q.isWaitpid == p.isWaitpid && q.wantsStatus == p.wantsStatus
    && SameDoom(p, q) && q.target == p.target && q.completing && q.result == StatusOf(e, p.isWaitpid) && q.eax == child
  }

  /** The table after the process at `me` has exited; `pa` is its parent, if it has one. */
  ghost predicate ExitStep(procs: seq<Proc>, procs2: seq<Proc>, me: nat, e: Ending, pa: int) {
    && |procs2| == |procs| && me < |procs|
    && (procs[me].parent != 0 ==> ParentAt(procs, procs[me].parent, pa))
    && BecomesZombie(procs[me], procs2[me], e, procs[me].parent == 0 || Completes(procs, me, pa))
    && (forall i :: 0 <= i < |procs| && i != me ==>
          if i == pa && Completes(procs, me, pa) then Resumed(Orphan(procs[i], procs[me].pid), procs2[i], procs[me].pid, e)
          else Alike(Orphan(procs[i], procs[me].pid), procs2[i]))
  }

  ghost predicate BecomesZombie(p: Proc, q: Proc, e: Ending, received: bool) {
    && q.pid == p.pid && q.parent == p.parent && q.state == Zombie && q.exited && !q.waiting
    && q.exitCode == e.code && q.killedBy == e.sig && q.waited == received
  }

  ghost function ExitHistory(procs: seq<Proc>, me: nat, e: Ending, pa: int, h: History): History
    requires me < |procs|
  {
    var h1 := Ended(h, procs[me], e);
    if !Completes(procs, me, pa) then h1 else Receive(h1, ExitReport(procs, me, e, pa))
  }

  ghost function ExitReport(procs: seq<Proc>, me: nat, e: Ending, pa: int): Report
    requires me < |procs| && 0 <= pa < |procs|
  {
    Report(procs[me].pid, procs[me].parent, StatusOf(e, procs[pa].isWaitpid), procs[pa].isWaitpid)
  }

  lemma EndedLog(h: History, p: Proc, e: Ending, nextPid: nat)
    requires LogOk(h, nextPid) && p.pid in h.born && p.pid !in h.ended
    ensures LogOk(Ended(h, p, e), nextPid)
    ensures forall c :: Reported(Ended(h, p, e), c) <==> Reported(h, c)
    ensures forall c :: Abandoned(h, c) ==> Abandoned(Ended(h, p, e), c)
    ensures forall c :: c in h.born && h.born[c] == p.pid ==> Abandoned(Ended(h, p, e), c)
    ensures forall q :: Underway(Ended(h, p, e), q) <==> Underway(h, q)
  {
    var h2 := Ended(h, p, e);
    assert forall k :: 0 <= k < |h.reports| ==> ReportOk(h, h.reports[k]) && ReportOk(h2, h.reports[k]);
  }

  lemma ExitLog(procs: seq<Proc>, me: nat, e: Ending, pa: int, nextPid: nat, h: History)
    requires Sound(procs, nextPid, h) && me < |procs| && Active(procs[me])
    ensures LogOk(ExitHistory(procs, me, e, pa, h), nextPid)
    ensures var h2 := ExitHistory(procs, me, e, pa, h);
      && h2.born == h.born && h2.ended == h.ended[procs[me].pid := e] && h2.asked == h.asked && h2.sent == h.sent
      && (forall c :: Reported(h2, c) <==> Reported(h, c) || (c == procs[me].pid && Completes(procs, me, pa)))
      && (forall c :: Abandoned(h, c) ==> Abandoned(h2, c))
      && (forall c :: c in h.born && h.born[c] == procs[me].pid ==> Abandoned(h2, c))
      && (forall q :: Underway(h2, q) <==> Underway(h, q) || (Completes(procs, me, pa) && q == ExitReport(procs, me, e, pa)))
  {
    hide NoneOverdue, NoneInVain, NoneLost, Parents, Distinct, StatusOf;
    assert Fine(procs[me], nextPid, h);
    hide Reported, Abandoned, LogOk, Underway, NoneStranded;
    var h1, m := Ended(h, procs[me], e), procs[me];
    EndedLog(h, m, e, nextPid);
    if Completes(procs, me, pa) {
      ReceiveLog(h1, nextPid, ExitReport(procs, me, e, pa));
    }
  }

  lemma ExitFine(procs: seq<Proc>, procs2: seq<Proc>, me: nat, e: Ending, pa: int, nextPid: nat, h: History)
    requires Sound(procs, nextPid, h) && me < |procs| && Active(procs[me]) && ExitStep(procs, procs2, me, e, pa)
    ensures AllFine(procs2, nextPid, ExitHistory(procs, me, e, pa, h))
  {
    var h2 := ExitHistory(procs, me, e, pa, h);
    ExitLog(procs, me, e, pa, nextPid, h);
    hide Reported, Abandoned, LogOk, NoneOverdue, NoneInVain, NoneLost, Parents, ExitHistory;
    assert Fine(procs[me], nextPid, h);
    forall i | 0 <= i < |procs2|
      ensures Fine(procs2[i], nextPid, h2)
    {
      assert Fine(procs[i], nextPid, h);
      if i != me && Live(procs[i]) {
        assert procs[i].pid != procs[me].pid;
        assert i == pa && Completes(procs, me, pa) ==> procs[i].pid == procs[me].parent;
        hide Distinct, AllFine;
        OtherFine(procs, procs2, me, e, pa, nextPid, h, h2, i);
      } else {
        hide Distinct, AllFine;
      }
    }
  }

  lemma OtherFine(procs: seq<Proc>, procs2: seq<Proc>, me: nat, e: Ending, pa: int, nextPid: nat, h: History, h2: History, i: nat)
    requires me < |procs| && ExitStep(procs, procs2, me, e, pa) && Active(procs[me])
    requires i < |procs| && i != me && Live(procs[i]) && procs[i].pid != procs[me].pid && Fine(procs[i], nextPid, h)
    requires h2.born == h.born && h2.ended == h.ended[procs[me].pid := e] && h2.asked == h.asked && h2.sent == h.sent
    requires Reported(h2, procs[i].pid) <==> Reported(h, procs[i].pid)
    requires Abandoned(h, procs[i].pid) ==> Abandoned(h2, procs[i].pid)
    requires h.born[procs[i].pid] == procs[me].pid ==> Abandoned(h2, procs[i].pid)
    requires procs[me].pid > 0
    requires forall q :: Underway(h, q) ==> Underway(h2, q)
    requires Completes(procs, me, pa) ==> Underway(h2, ExitReport(procs, me, e, pa))
    ensures Fine(procs2[i], nextPid, h2)
  {
    hide Reported, Abandoned, Underway, StatusOf;
  }

  lemma ExitStranded(procs: seq<Proc>, procs2: seq<Proc>, me: nat, e: Ending, pa: int, nextPid: nat, h: History)
    requires Sound(procs, nextPid, h) && me < |procs| && Active(procs[me]) && ExitStep(procs, procs2, me, e, pa)
    ensures NoneStranded(procs2, ExitHistory(procs, me, e, pa, h))
  {
    hide Reported, Abandoned, LogOk, NoneOverdue, NoneInVain, NoneLost, Parents, ExitHistory, Underway, Distinct, ExitStep, Completes, ExitReport;
    var h2 := ExitHistory(procs, me, e, pa, h);
    ExitLog(procs, me, e, pa, nextPid, h);
    forall r | Underway(h2, r) && r.parent !in h2.ended
      ensures exists j :: CarriedBy(procs2, r, j)
    {
      if Underway(h, r) {
        var j :| CarriedBy(procs, r, j);
        assert Fine(procs[j], nextPid, h);
        StillCarries(procs, procs2, me, e, pa, j, r);
      } else {
        assert Fine(procs[me], nextPid, h);
        NowCarries(procs, procs2, me, e, pa);
      }
    }
  }

  lemma StillCarries(procs: seq<Proc>, procs2: seq<Proc>, me: nat, e: Ending, pa: int, j: nat, r: Report)
    requires ExitStep(procs, procs2, me, e, pa) && CarriedBy(procs, r, j) && j != me && !procs[j].waiting
    ensures CarriedBy(procs2, r, j)
  {
  }

  lemma NowCarries(procs: seq<Proc>, procs2: seq<Proc>, me: nat, e: Ending, pa: int)
    requires ExitStep(procs, procs2, me, e, pa) && Completes(procs, me, pa) && procs[me].parent < procs[me].pid
    ensures CarriedBy(procs2, ExitReport(procs, me, e, pa), pa)
  {
    hide StatusOf;
  }

  /** Everyone but the exiting process is still there, with the parent it had unless that
      was the exiting process. */
  lemma ExitOthers(procs: seq<Proc>, procs2: seq<Proc>, me: nat, e: Ending, pa: int)
    requires ExitStep(procs, procs2, me, e, pa) && Active(procs[me])
    ensures forall i :: 0 <= i < |procs| ==> (Live(procs2[i]) <==> Live(procs[i])) && procs2[i].pid == procs[i].pid
    ensures forall i :: 0 <= i < |procs| && i != me ==> (Active(procs2[i]) <==> Active(procs[i]))
    ensures forall i :: 0 <= i < |procs| && Live(procs[i]) ==>
              procs2[i].parent == if i != me && procs[i].parent == procs[me].pid then 0 else procs[i].parent
    ensures forall i :: 0 <= i < |procs| && procs2[i].waiting ==>
              i != me && procs[i].waiting && procs2[i].target == procs[i].target && !(i == pa && Completes(procs, me, pa))
    ensures forall i, pid :: 0 <= i < |procs| && i != me && pid != 0 && Unreported(procs2[i], pid) ==> Unreported(procs[i], pid)
  {
    hide Completes, ParentAt;
  }

  lemma ExitRelated(procs: seq<Proc>, procs2: seq<Proc>, me: nat, e: Ending, pa: int, nextPid: nat, h: History)
    requires Sound(procs, nextPid, h) && me < |procs| && Active(procs[me])
    requires ExitStep(procs, procs2, me, e, pa)
    ensures Distinct(procs2) && Parents(procs2) && NoneLost(procs2, ExitHistory(procs, me, e, pa, h))
  {
    var h2 := ExitHistory(procs, me, e, pa, h);
    ExitLog(procs, me, e, pa, nextPid, h);
    ExitOthers(procs, procs2, me, e, pa);
    assert procs[me].parent < procs[me].pid by {
      assert Fine(procs[me], nextPid, h);
    }
    hide Reported, Abandoned, LogOk, AllFine, NoneOverdue, NoneInVain, ExitHistory, ExitStep, Completes;
    forall k | 0 <= k < |procs2| && Live(procs2[k]) && procs2[k].parent != 0
      ensures exists j :: ParentAt(procs2, procs2[k].parent, j)
    {
      var j :| ParentAt(procs, procs[k].parent, j);
      assert ParentAt(procs2, procs2[k].parent, j);
    }
    forall c | c in h2.ended && !Reported(h2, c) && !Abandoned(h2, c)
      ensures exists k :: InTable(procs2, c, k)
    {
      if c == procs[me].pid {
        assert InTable(procs2, c, me);
      } else {
        var k :| InTable(procs, c, k);
        assert InTable(procs2, c, k);
      }
    }
  }

  lemma ExitWaiters(procs: seq<Proc>, procs2: seq<Proc>, me: nat, e: Ending, pa: int, nextPid: nat, h: History)
    requires Sound(procs, nextPid, h) && me < |procs| && Active(procs[me])
    requires ExitStep(procs, procs2, me, e, pa)
    ensures NoneOverdue(procs2) && NoneInVain(procs2)
  {
    ExitOthers(procs, procs2, me, e, pa);
    assert forall k :: 0 <= k < |procs| ==> Fine(procs[k], nextPid, h);
    hide Reported, Abandoned, LogOk, AllFine, NoneLost, Parents;
    forall i | 0 <= i < |procs2| && procs2[i].waiting
      ensures exists j :: Awaited(procs2, procs2[i], j)
      ensures Unreported(procs2[me], procs2[i].pid) ==> !Matches(procs2[i].target, procs2[me].pid)
      ensures procs2[i].pid != 0
    {
      assert Live(procs[i]) && procs[i].pid != procs[me].pid;
      assert procs[me].parent == procs[i].pid ==> i == pa;
      var j :| Awaited(procs, procs[i], j);
      assert j != me;
      assert Awaited(procs2, procs2[i], j);
    }
  }

  /** Exit keeps all the invariants: children are orphaned, the status is received at once if
      the parent waits for it, and otherwise stays in the table. */
  lemma ExitSound(procs: seq<Proc>, procs2: seq<Proc>, me: nat, e: Ending, pa: int, nextPid: nat, h: History)
    requires Sound(procs, nextPid, h) && me < |procs| && Active(procs[me]) && ExitStep(procs, procs2, me, e, pa)
    ensures Sound(procs2, nextPid, ExitHistory(procs, me, e, pa, h))
  {
    hide LogOk, AllFine, Distinct, Parents, NoneOverdue, NoneInVain, NoneLost, NoneStranded, ExitHistory, ExitStep;
    ExitLog(procs, me, e, pa, nextPid, h);
    ExitFine(procs, procs2, me, e, pa, nextPid, h);
    ExitRelated(procs, procs2, me, e, pa, nextPid, h);
    ExitWaiters(procs, procs2, me, e, pa, nextPid, h);
    ExitStranded(procs, procs2, me, e, pa, nextPid, h);
  }

  // ---------- what the invariants mean ----------

  /** The child is a zombie that its parent can still ask for. */
  ghost predicate Askable(procs: seq<Proc>, child: nat, parent: nat, i: int) {
    0 <= i < |procs| && procs[i].pid == child && Unreported(procs[i], parent)
  }

  /** The one report about the child. */
  ghost predicate About(h: History, child: nat, r: Report) { r in h.reports && r.child == child }

  /** While its parent has not ended, the status of an ended child is in exactly one place: with
      the zombie, which the active parent can ask for; with the parent, which was woken and has not
      run yet; handed to the parent's program; or refused by the parent's memory. */
  lemma NeverLost(procs: seq<Proc>, nextPid: nat, h: History, child: nat)
    requires Sound(procs, nextPid, h) && child in h.ended && h.born[child] != 0 && h.born[child] !in h.ended
    ensures (forall r :: !About(h, child, r)) <==> exists i :: Askable(procs, child, h.born[child], i)
    ensures (forall r :: !About(h, child, r)) ==> exists j :: ParentAt(procs, h.born[child], j)
    ensures forall r :: About(h, child, r) ==>
      && r.parent == h.born[child] && r.status == StatusOf(h.ended[child], r.posix)
      && (Underway(h, r) <==> exists j :: CarriedBy(procs, r, j))
      && (Underway(h, r) || r in h.handed || r in h.faulted) && !(r in h.handed && r in h.faulted)
  {
    hide Parents, NoneOverdue, NoneInVain, StatusOf;
    assert forall i :: 0 <= i < |procs| ==> Fine(procs[i], nextPid, h);
    if forall r :: !About(h, child, r) {
      assert !Reported(h, child) by {
        assert forall k :: 0 <= k < |h.reports| ==> h.reports[k] in h.reports && !About(h, child, h.reports[k]);
      }
      AskableZombie(procs, nextPid, h, child);
    }
    forall r | About(h, child, r)
      ensures Reported(h, child) && ReportOk(h, r)
    {
      var k :| 0 <= k < |h.reports| && h.reports[k] == r;
    }
  }

  lemma AskableZombie(procs: seq<Proc>, nextPid: nat, h: History, child: nat)
    requires Sound(procs, nextPid, h) && child in h.ended && h.born[child] != 0 && h.born[child] !in h.ended && !Reported(h, child)
    ensures exists i :: Askable(procs, child, h.born[child], i)
    ensures exists j :: ParentAt(procs, h.born[child], j)
  {
    hide NoneOverdue, NoneInVain, NoneStranded;
    var i :| InTable(procs, child, i);
    assert Fine(procs[i], nextPid, h);
    assert Askable(procs, child, h.born[child], i);
  }

  /** Two reports about a child are one and the same. */
  lemma ReceivedOnce(procs: seq<Proc>, nextPid: nat, h: History, child: nat, r: Report, q: Report)
    requires Sound(procs, nextPid, h) && About(h, child, r) && About(h, child, q)
    ensures r == q
  {
    var k :| 0 <= k < |h.reports| && h.reports[k] == r;
    var l :| 0 <= l < |h.reports| && h.reports[l] == q;
  }
}
