/** kernel/scheduler.c: the linked ready queue with priority aging. */
module Scheduler {

  const MAX_PRIORITY: nat := 16
  const DEFAULT_PRIORITY: nat := 1

  datatype ProcessState = Dead | Ready | Running | Blocked | Zombie

  class Process {
    var next: Process?
    var priority: nat
    var dynamicPriority: nat
    var state: ProcessState
    /** Whether the process can be resumed from an interrupt frame, and where. */
    var interruptFrame: bool
    var esp: nat

    /** A process as fork leaves it. */
    constructor (inherited: nat, frame: nat)
      ensures priority == dynamicPriority == inherited && state == Ready && interruptFrame && esp == frame
    {
      next, priority, dynamicPriority, state, interruptFrame, esp := null, inherited, inherited, Ready, true, frame;
    }
  }

  // ---------- the queue as a value ----------

  /** A queued process with its dynamic priority. */
  datatype Slot = Slot(proc: Process, dyn: nat)

  /** The index that find_best_ready arrives at: the first of the largest. */
  ghost predicate IsBest(q: seq<Slot>, b: int) {
    && 0 <= b < |q|
    && (forall i :: 0 <= i < |q| ==> q[i].dyn <= q[b].dyn)
    && (forall i :: 0 <= i < b ==> q[i].dyn < q[b].dyn)
  }

  lemma BestUnique(q: seq<Slot>, a: int, b: int)
    requires IsBest(q, a) && IsBest(q, b)
    ensures a == b
  {
    assert q[a].dyn == q[b].dyn;
  }

  ghost function Without(q: seq<Slot>, b: nat): seq<Slot>
    requires b < |q|
  {
    q[..b] + q[b + 1..]
  }

  ghost function AgedSlot(s: Slot): Slot {
    if s.dyn < MAX_PRIORITY then s.(dyn := s.dyn + 1) else s
  }

  ghost function Aged(q: seq<Slot>): (r: seq<Slot>)
    ensures |r| == |q| && forall i :: 0 <= i < |q| ==> r[i] == AgedSlot(q[i])
  {
    seq(|q|, i requires 0 <= i < |q| => AgedSlot(q[i]))
  }

  /** Aging raises every priority by one up to 16 and moves nobody. */
  lemma AgedMeans(q: seq<Slot>)
    ensures |Aged(q)| == |q|
    ensures forall i :: 0 <= i < |q| ==> Aged(q)[i].proc == q[i].proc
    ensures forall i :: 0 <= i < |q| ==> Aged(q)[i].dyn == if q[i].dyn < 16 then q[i].dyn + 1 else q[i].dyn
  {
  }

  ghost predicate Bounded(p: Process)
    reads p
  {
    p.priority <= MAX_PRIORITY && p.dynamicPriority <= MAX_PRIORITY
  }

  ghost function Successor(q: seq<Process>, i: nat): Process? {
    if i + 1 < |q| then q[i + 1] else null
  }

  ghost predicate Linked(q: seq<Process>, head: Process?)
    reads q
  {
    && (forall i, j :: 0 <= i < j < |q| ==> q[i] != q[j])
    && head == (if q == [] then null else q[0])
    && (forall i :: 0 <= i < |q| ==> q[i].next == Successor(q, i))
  }

  ghost function Slots(q: seq<Process>): (r: seq<Slot>)
    reads q
    ensures |r| == |q| && forall i :: 0 <= i < |q| ==> r[i] == Slot(q[i], q[i].dynamicPriority)
  {
    seq(|q|, i requires 0 <= i < |q| reads q => Slot(q[i], q[i].dynamicPriority))
  }

  twostate lemma SlotsKept(q: seq<Process>)
    requires forall i :: 0 <= i < |q| ==> q[i].dynamicPriority == old(q[i].dynamicPriority)
    ensures Slots(q) == old(Slots(q))
  {
  }

  lemma SlotsSet(q: seq<Process>, i: nat, v: seq<Slot>)
    requires i < |q| == |v| && forall j :: 0 <= j < |q| && j != i ==> v[j] == Slot(q[j], q[j].dynamicPriority)
    ensures Slots(q) == v[i := Slot(q[i], q[i].dynamicPriority)]
  {
  }

  lemma SlotsAppend(q: seq<Process>, p: Process)
    ensures Slots(q + [p]) == Slots(q) + [Slot(p, p.dynamicPriority)]
  {
  }

  lemma SlotsWithout(q: seq<Process>, b: nat)
    requires b < |q|
    ensures Slots(q[..b] + q[b + 1..]) == Without(Slots(q), b)
  {
  }

  lemma LinksAppended(q: seq<Process>, head: Process?, proc: Process)
    requires forall i, j :: 0 <= i < j < |q| ==> q[i] != q[j]
    requires proc !in q && proc.next == null && head == if q == [] then proc else q[0]
    requires forall i :: 0 <= i < |q| ==> q[i].next == if i == |q| - 1 then proc else Successor(q, i)
    ensures Linked(q + [proc], head)
  {
    var q2 := q + [proc];
    forall i | 0 <= i < |q2|
      ensures q2[i].next == Successor(q2, i)
    {
      assert i < |q| ==> q2[i] == q[i];
    }
  }

  lemma LinksWithout(q: seq<Process>, head: Process?, b: nat)
    requires b < |q| && forall i, j :: 0 <= i < j < |q| ==> q[i] != q[j]
    requires head == if b == 0 then Successor(q, b) else q[0]
    requires forall i :: 0 <= i < |q| ==>
      q[i].next == if i == b then null else if i == b - 1 then Successor(q, b) else Successor(q, i)
    ensures Linked(q[..b] + q[b + 1..], head)
  {
    var q2 := q[..b] + q[b + 1..];
    forall i | 0 <= i < |q2|
      ensures q2[i].next == Successor(q2, i)
    {
      assert i < b ==> q2[i] == q[i];
      assert i >= b ==> q2[i] == q[i + 1];
    }
  }

  class ReadyQueue {
    var head: Process?
    var current: Process?
    var scheduleCount: nat
    ghost var queue: seq<Process>
    /** The processes of the process table. */
    ghost var known: set<Process>

    ghost predicate Valid()
      reads this, queue
    {
      Linked(queue, head)
    }

    ghost predicate QueueKept()
      reads this, known
    {
      && (forall p :: p in queue ==> p in known && p.state == Ready)
      && (forall p :: p in known ==> Bounded(p))
    }

    /** No priority exceeds the maximum, whoever is queued is ready, and the current process is not
        queued: it runs or has just ended. */
    ghost predicate Kept()
      reads this, known
    {
      && QueueKept()
      && (current != null ==> current in known && current !in queue && (current.state == Running || current.state == Zombie))
    }

    /** scheduler_init */
    constructor ()
      ensures Valid() && queue == [] && current == null && known == {} && Kept()
    {
      head, current, scheduleCount, queue, known := null, null, 0, [], {};
    }

    ghost function View(): seq<Slot>
      reads this, queue
    {
      Slots(queue)
    }

    /** The walk to the last process of the queue. */
    method Last() returns (p: Process)
      requires Valid() && queue != []
      ensures p == queue[|queue| - 1]
    {
      p := head;
      ghost var i := 0;
      while p.next != null
        invariant 0 <= i < |queue| && p == queue[i]
        decreases |queue| - i
      {
        p := p.next;
        i := i + 1;
      }
    }

    /** The walk to the process before the one at position b. */
    method Before(proc: Process, ghost b: nat) returns (prev: Process)
      requires Valid() && 0 < b < |queue| && queue[b] == proc
      ensures prev == queue[b - 1]
    {
      prev := head;
      ghost var i := 0;
      while prev.next != proc
        invariant 0 <= i < b && prev == queue[i]
        decreases b - i
      {
        prev := prev.next;
        i := i + 1;
      }
    }

    /** enqueue: at the tail, with a dynamic priority. */
    method Enqueue(proc: Process)
      requires Valid() && proc !in queue
      modifies this`head, this`queue, queue`next, proc`next, proc`dynamicPriority
      ensures Valid() && queue == old(queue) + [proc]
      ensures proc.dynamicPriority == EntryPriority(old(proc.dynamicPriority), proc.priority)
      ensures View() == old(View()) + [Slot(proc, proc.dynamicPriority)]
      ensures old(QueueKept()) && proc in known && proc.state == Ready ==> QueueKept()
    {
      hide Slots, Linked;
      Prepare(proc);
      LinkLast(proc);
    }

    /** A process that joins the queue has no successor and some dynamic priority. */
    method Prepare(proc: Process)
      modifies proc`next, proc`dynamicPriority
      ensures proc.next == null && proc.dynamicPriority == EntryPriority(old(proc.dynamicPriority), proc.priority)
    {
      proc.next := null;
      if proc.dynamicPriority == 0 {
        proc.dynamicPriority := if proc.priority != 0 then proc.priority else DEFAULT_PRIORITY;
      }
    }

    /** The tail end of enqueue. */
    method LinkLast(proc: Process)
      requires Valid() && proc !in queue && proc.next == null
      modifies this`head, this`queue, queue`next
      ensures Valid() && queue == old(queue) + [proc]
      ensures View() == old(View()) + [Slot(proc, proc.dynamicPriority)]
    {
      hide Slots, Successor;
      SetTail(proc);
      SlotsKept(queue);
      SlotsAppend(queue, proc);
      queue := queue + [proc];
    }

    method SetTail(proc: Process)
      requires Valid() && proc !in queue && proc.next == null
      modifies this`head, queue`next
      ensures Linked(queue + [proc], head)
    {
      hide Successor;
      if head == null {
        head := proc;
      } else {
        var p := Last();
        p.next := proc;
      }
      LinksAppended(queue, head, proc);
    }

    /** find_best_ready */
    method FindBest() returns (best: Process?, ghost b: int)
      requires Valid()
      ensures best == null <==> queue == []
      ensures best != null ==> IsBest(View(), b) && best == queue[b]
    {
      best, b := head, 0;
      var p := head;
      ghost var i := 0;
      while p != null
        invariant 0 <= i <= |queue| && p == (if i < |queue| then queue[i] else null)
        invariant queue == [] ==> best == null
        invariant queue != [] ==> 0 <= b < |queue| && best == queue[b]
        invariant queue != [] ==> forall k :: 0 <= k < i ==> queue[k].dynamicPriority <= best.dynamicPriority
        invariant queue != [] ==> forall k :: 0 <= k < b ==> queue[k].dynamicPriority < best.dynamicPriority
        decreases |queue| - i
      {
        if p.dynamicPriority > best.dynamicPriority {
          best, b := p, i;
        }
        p := p.next;
        i := i + 1;
      }
    }

    /** Unlinks the process at position b. */
    method Unlink(proc: Process, ghost b: nat)
      requires Valid() && b < |queue| && queue[b] == proc
      modifies this`head, this`queue, queue`next
      ensures Valid() && queue == old(queue)[..b] + old(queue)[b + 1..] && proc.next == null
      ensures View() == Without(old(View()), b)
      ensures (old(QueueKept()) ==> QueueKept()) && (old(Kept()) ==> Kept())
    {
      hide Slots, Without, Successor;
      Bypass(proc, b);
      SlotsKept(queue);
      SlotsWithout(queue, b);
      queue := queue[..b] + queue[b + 1..];
    }

    method Bypass(proc: Process, ghost b: nat)
      requires Valid() && b < |queue| && queue[b] == proc
      modifies this`head, queue`next
      ensures Linked(queue[..b] + queue[b + 1..], head) && proc.next == null
    {
      hide Successor;
      if head == proc {
        head := proc.next;
      } else {
        var prev := Before(proc, b);
        prev.next := proc.next;
      }
      proc.next := null;
      LinksWithout(queue, head, b);
    }

    /** dequeue_best */
    method DequeueBest() returns (best: Process?, ghost b: int)
      requires Valid()
      modifies this`head, this`queue, queue`next
      ensures Valid()
      ensures best == null <==> old(queue) == []
      ensures best == null ==> queue == old(queue) && View() == old(View())
      ensures best != null ==>
        && IsBest(old(View()), b) && best == old(queue)[b] && best.next == null && best !in queue
        && queue == old(queue)[..b] + old(queue)[b + 1..] && View() == Without(old(View()), b)
      ensures old(QueueKept()) ==> QueueKept() && (best != null ==> best in known && best.state == Ready)
      ensures old(Kept()) ==> Kept()
      ensures best != null ==> (old(BestResumable()) <==> best.interruptFrame && best.esp != 0)
    {
      best, b := FindBest();
      if best != null {
        TheBest(b);
        Unlink(best, b);
      }
    }

    /** age_ready_queue */
    method Age()
      requires Valid()
      modifies queue`dynamicPriority
      ensures Valid() && queue == old(queue) && View() == Aged(old(View()))
      ensures forall p :: p in queue ==> p.dynamicPriority == if old(p.dynamicPriority) < 16 then old(p.dynamicPriority) + 1 else old(p.dynamicPriority)
      ensures old(QueueKept()) ==> QueueKept()
    {
      hide Slots, Linked, Aged, Successor;
      AgeAll();
    }

    /** The loop of age_ready_queue. */
    method AgeAll()
      requires Valid()
      modifies queue`dynamicPriority
      ensures Valid() && queue == old(queue) && View() == Aged(old(View()))
      ensures forall p :: p in queue ==> p.dynamicPriority == if old(p.dynamicPriority) < 16 then old(p.dynamicPriority) + 1 else old(p.dynamicPriority)
    {
      var p := head;
      ghost var i := 0;
      while p != null
        invariant 0 <= i <= |queue| && p == (if i < |queue| then queue[i] else null)
        invariant queue == old(queue) && Linked(queue, head)
        invariant forall k :: 0 <= k < |queue| ==>
          queue[k].dynamicPriority ==
            if k < i then AgedSlot(old(View())[k]).dyn else old(queue[k].dynamicPriority)
        decreases |queue| - i
      {
        assert p == queue[i] && forall k :: 0 <= k < |queue| && k != i ==> queue[k] != p;
        if p.dynamicPriority < MAX_PRIORITY {
          p.dynamicPriority := p.dynamicPriority + 1;
        }
        assert Linked(queue, head);
        p := p.next;
        i := i + 1;
      }
    }

    /** The process that would be chosen was interrupted. */
    ghost predicate BestFramed()
      reads this, queue
    {
      exists b :: IsBest(View(), b) && queue[b].interruptFrame
    }

    /** The process that would be chosen can be resumed. */
    ghost predicate BestResumable()
      reads this, queue
    {
      exists b :: IsBest(View(), b) && queue[b].interruptFrame && queue[b].esp != 0
    }

    lemma TheBest(b: int)
      requires IsBest(View(), b)
      ensures BestFramed() <==> queue[b].interruptFrame
      ensures BestResumable() <==> queue[b].interruptFrame && queue[b].esp != 0
    {
      forall a | IsBest(View(), a)
        ensures a == b
      {
        BestUnique(View(), a, b);
      }
    }

    /** The process that was running and goes back to the queue when another is chosen. */
    ghost function Preempted(): seq<Slot>
      reads this, current
    {
      if current != null && current.state == Running
      then [Slot(current, EntryPriority(current.dynamicPriority, current.priority))] else []
    }

    /** The chosen process starts to run with its own priority. */
    method Start(proc: Process)
      requires Valid() && proc !in queue
      modifies this`current, this`scheduleCount, proc`dynamicPriority, proc`state
      ensures Valid() && View() == old(View()) && current == proc && scheduleCount == old(scheduleCount) + 1
      ensures proc.state == Running && proc.dynamicPriority == EntryPriority(0, proc.priority)
      ensures old(QueueKept()) && proc in known ==> Kept()
    {
      hide Slots, Linked, Successor;
      proc.dynamicPriority := if proc.priority != 0 then proc.priority else DEFAULT_PRIORITY;
      proc.state := Running;
      current := proc;
      scheduleCount := scheduleCount + 1;
    }

    /** scheduler_schedule_locked */
    method ScheduleLocked() returns (ghost b: int)
      requires Valid() && (current != null ==> current !in queue)
      modifies this`head, this`current, this`scheduleCount, this`queue, queue, current
      ensures Valid() && (current != null ==> current !in queue)
      ensures old(queue) == [] ==> View() == old(View()) && current == old(current)
      ensures old(queue) != [] ==>
        && IsBest(old(View()), b) && current == old(queue)[b] && current.state == Running
        && View() == Dispatched(old(View()), b, old(Preempted()))
      ensures old(queue) != [] ==> Step(old(View()), Dispatch(old(Preempted())), View())
      ensures scheduleCount == old(scheduleCount) + if old(queue) == [] then 0 else 1
      ensures old(queue) != [] ==> current.dynamicPriority == EntryPriority(0, current.priority)
      ensures old(Kept()) ==> Kept()
    {
      hide Slots, Successor, Linked, Without, Aged, IsBest, QueueKept, Kept;
      KeptMeans();
      ghost var view0, extra := View(), Preempted();
      var next;
      next, b := DequeueBest();
      if next == null {
        return;
      }
      TakeTurns(next);
    }

    /** The current process goes back to the queue, the queue ages and the next process starts. */
    method TakeTurns(next: Process)
      requires Valid() && (current != null ==> current !in queue) && next !in queue && next != current
      modifies this`head, this`current, this`scheduleCount, this`queue, queue, current, next
      ensures Valid() && current == next && next !in queue && next.state == Running && scheduleCount == old(scheduleCount) + 1
      ensures View() == Aged(old(View()) + old(Preempted())) && next.dynamicPriority == EntryPriority(0, next.priority)
      ensures old(QueueKept()) && next in known && (old(current) != null ==> old(current) in known) ==> Kept()
    {
      hide Slots, Successor, Linked, Aged, QueueKept, Kept, Preempted;
      Requeue();
      StartNext(next);
    }

    /** The queue ages and the next process starts. */
    method StartNext(next: Process)
      requires Valid() && next !in queue
      modifies this`current, this`scheduleCount, queue`dynamicPriority, next`dynamicPriority, next`state
      ensures Valid() && queue == old(queue) && current == next && next.state == Running && scheduleCount == old(scheduleCount) + 1
      ensures View() == Aged(old(View())) && next.dynamicPriority == EntryPriority(0, next.priority)
      ensures old(QueueKept()) && next in known ==> Kept()
    {
      hide Slots, Successor, Linked, Aged, QueueKept, Kept;
      Age();
      Start(next);
    }

    lemma KeptMeans()
      ensures Kept() ==> QueueKept() && (current != null ==> current in known && current !in queue)
    {
    }

    /** The process that was running joins the queue again. */
    method Requeue()
      requires Valid() && (current != null ==> current !in queue)
      modifies this`head, this`queue, queue`next, current
      ensures Valid() && View() == old(View()) + old(Preempted())
      ensures queue == old(queue) + if current != null && old(current.state) == Running then [current] else []
      ensures old(QueueKept()) && (current != null ==> current in known) ==> QueueKept()
    {
      hide Slots, Successor, Linked;
      if current != null && current.state == Running {
        ghost var view0 := View();
        current.state := Ready;
        assert Valid() && View() == view0;
        Enqueue(current);
      } else {
        assert View() + [] == View();
      }
    }

    /** scheduler_stop_current_locked: the running process blocks or ends, and the best ready
        process takes over if it can be resumed. */
    method StopCurrent(interruptedEsp: nat, stopped: ProcessState, resume: bool) returns (esp: nat, ghost b: int)
      requires Valid() && (current != null ==> current !in queue)
      modifies this`head, this`current, this`scheduleCount, this`queue, queue, current
      ensures Valid() && (current != null ==> current !in queue)
      ensures old(current) == null || interruptedEsp == 0 || old(queue) == [] ==> View() == old(View()) && current == old(current)
      ensures old(current) == null || interruptedEsp == 0 ==> esp == 0
      ensures old(current) != null && interruptedEsp != 0 && old(queue) != [] ==> (current != old(current) <==> old(BestResumable()))
      ensures old(current) != null && interruptedEsp != 0 && old(queue) != [] && current == old(current) ==>
        IsBest(old(View()), b) && View() == Without(old(View()), b) +
                                    [Slot(old(queue)[b], EntryPriority(old(View())[b].dyn, old(queue[b].priority)))]
      ensures current != old(current) ==>
        && IsBest(old(View()), b) && current == old(queue)[b] && current.state == Running && esp == current.esp != 0
        && View() == Dispatched(old(View()), b, []) && Step(old(View()), Dispatch([]), View())
      ensures scheduleCount == old(scheduleCount) + if current == old(current) then 0 else 1
      ensures old(Kept()) && (stopped == Zombie || (stopped == Blocked && resume)) ==> Kept()
    {
      hide Slots, Successor, Linked, Without, Aged, IsBest, QueueKept, Kept, BestResumable;
      b := 0;
      if current == null || interruptedEsp == 0 {
        return 0, 0;
      }
      ghost var view0 := View();
      KeptMeans();
      var was := current;
      Suspend(interruptedEsp, stopped);
      var next;
      next, b := DequeueBest();
      if next == null || !next.interruptFrame || next.esp == 0 {
        if next != null {
          Enqueue(next);
        }
        if resume {
          Resume();
          return interruptedEsp, b;
        }
        if stopped == Zombie {
          EndedKept();
        }
        return 0, b;
      }
      assert View() == Without(view0, b) + [];
      StartNext(next);
      return next.esp, b;
    }

    /** The current process gives up the processor. */
    method Suspend(interruptedEsp: nat, stopped: ProcessState)
      requires Valid() && current != null && current !in queue
      modifies current
      ensures Valid() && View() == old(View()) && current.state == stopped
      ensures BestResumable() <==> old(BestResumable())
      ensures old(QueueKept()) ==> QueueKept()
    {
      current.esp := interruptedEsp;
      current.interruptFrame := true;
      current.state := stopped;
    }

    method Resume()
      requires Valid() && current != null && current !in queue
      modifies current`state
      ensures Valid() && View() == old(View())
      ensures old(QueueKept()) && current in known ==> Kept()
    {
      current.state := Running;
    }

    lemma EndedKept()
      requires current != null && current !in queue && current.state == Zombie
      ensures QueueKept() && current in known ==> Kept()
    {
    }

    /** scheduler_preempt: the timer switches to the best ready process. */
    method Preempt(enabled: bool, interruptedEsp: nat) returns (esp: nat, ghost b: int)
      requires Valid() && (current != null ==> current !in queue)
      modifies this`head, this`current, this`scheduleCount, this`queue, queue, current
      ensures Valid() && (current != null ==> current !in queue)
      ensures current != old(current) ==>
        && IsBest(old(View()), b) && current == old(queue)[b] && View() == Dispatched(old(View()), b, old(Preempted()))
        && Step(old(View()), Dispatch(old(Preempted())), View())
      ensures current == old(current) ==> View() == old(View())
      ensures scheduleCount == old(scheduleCount) + if current == old(current) then 0 else 1
      ensures old(Kept()) ==> Kept()
      ensures current != old(current) <==>
        enabled && old(queue) != [] && (old(current) == null || old(current.interruptFrame)) && old(BestFramed())
    {
      hide Slots, Successor, Linked, Without, Aged;
      b := 0;
      if !enabled || head == null {
        EmptyQueue(queue, head);
        return interruptedEsp, 0;
      }
      ghost var view0, extra := View(), Preempted();
      NonEmptyQueue(queue, head);
      if current != null {
        if !current.interruptFrame {
          return interruptedEsp, 0;
        }
        current.esp := interruptedEsp;
      }
      assert Valid() && View() == view0;
      var next;
      next, b := FindBest();
      if !next.interruptFrame {
        return interruptedEsp, b;
      }
      assert Preempted() == extra;
      b := ScheduleLocked();
      return (if !current.interruptFrame || current.esp == 0 then interruptedEsp else current.esp), b;
    }

    /** scheduler_wake */
    method Wake(proc: Process)
      requires Valid() && (proc.state == Blocked ==> proc !in queue)
      modifies this`head, this`queue, queue`next, proc
      ensures Valid()
      ensures View() == if old(proc.state) == Blocked
                        then old(View()) + [Slot(proc, EntryPriority(old(proc.dynamicPriority), old(proc.priority)))]
                        else old(View())
      ensures proc.state == if old(proc.state) == Blocked then Ready else old(proc.state)
      ensures old(Kept()) && proc in known ==> Kept()
    {
      hide Slots, Successor, Linked;
      if proc.state == Blocked {
        ghost var view0 := View();
        proc.state := Ready;
        assert Valid() && View() == view0;
        Enqueue(proc);
      }
    }

    /** scheduler_add of a process that has just entered the process table. */
    method Admit(proc: Process)
      requires Valid() && Kept() && proc !in known && proc.state == Ready && Bounded(proc)
      modifies this`head, this`queue, this`known, queue`next, proc`next, proc`dynamicPriority
      ensures Valid() && Kept() && known == old(known) + {proc} && current == old(current)
      ensures View() == old(View()) + [Slot(proc, proc.dynamicPriority)] && proc.dynamicPriority <= MAX_PRIORITY
      ensures queue == old(queue) + [proc]
    {
      hide Slots, Linked, Successor;
      known := known + {proc};
      Enqueue(proc);
    }

    /** The walk of scheduler_remove. */
    method Position(proc: Process) returns (found: bool, ghost i: nat)
      requires Valid()
      ensures found <==> proc in queue
      ensures found ==> i < |queue| && queue[i] == proc
    {
      var item := head;
      i := 0;
      while item != null
        invariant 0 <= i <= |queue| && item == (if i < |queue| then queue[i] else null)
        invariant forall k :: 0 <= k < i ==> queue[k] != proc
        decreases |queue| - i
      {
        if item == proc {
          return true, i;
        }
        item := item.next;
        i := i + 1;
      }
      return false, i;
    }

    /** scheduler_remove */
    method Remove(proc: Process)
      requires Valid()
      modifies this`head, this`queue, queue`next
      ensures Valid()
      ensures proc !in old(queue) ==> View() == old(View())
      ensures forall i :: 0 <= i < |old(queue)| && old(queue)[i] == proc ==> View() == Without(old(View()), i)
      ensures proc in old(queue) ==> Step(old(View()), Leave(proc), View())
      ensures old(Kept()) ==> Kept()
    {
      hide Without, Kept, QueueKept;
      ghost var i;
      var found;
      found, i := Position(proc);
      if found {
        assert At(View(), proc, i);
        assert forall j :: 0 <= j < |queue| && queue[j] == proc ==> j == i;
        Unlink(proc, i);
      }
    }

    /** scheduler_set_priority */
    method SetPriority(proc: Process, requested: nat)
      requires Valid()
      modifies proc`priority, proc`dynamicPriority
      ensures Valid() && proc.priority == proc.dynamicPriority == Clamped(requested)
      ensures proc !in queue ==> View() == old(View())
      ensures proc in queue ==> Step(old(View()), Reprioritize(proc, proc.dynamicPriority), View())
      ensures old(Kept()) ==> Kept()
    {
      hide Slots, Successor, Linked, Kept, QueueKept;
      var level := Clamped(requested);
      ghost var view0 := View();
      SetLevel(proc, level);
      if proc in queue {
        ghost var i :| 0 <= i < |queue| && queue[i] == proc;
        SlotsSet(queue, i, view0);
        assert At(view0, proc, i) && View() == view0[i := Slot(proc, level)];
      } else {
        SlotsKept(queue);
      }
    }

    method SetLevel(proc: Process, level: nat)
      requires Valid() && level <= MAX_PRIORITY
      modifies proc`priority, proc`dynamicPriority
      ensures Valid() && proc.priority == proc.dynamicPriority == level
      ensures forall i, j :: 0 <= i < j < |queue| ==> queue[i] != queue[j]
      ensures old(Kept()) ==> Kept()
    {
      proc.priority := level;
      proc.dynamicPriority := level;
    }
  }

  /** The queue after the process at b is chosen: it leaves, `extra` joins, the rest age. */
  ghost function Dispatched(q: seq<Slot>, b: nat, extra: seq<Slot>): seq<Slot>
    requires b < |q|
  {
    Aged(Without(q, b) + extra)
  }

  /** A requested priority, brought into 1..16. */
  function Clamped(requested: nat): (r: nat)
    ensures 0 < r <= MAX_PRIORITY && (0 < requested <= MAX_PRIORITY ==> r == requested)
  {
    if requested == 0 then DEFAULT_PRIORITY else if requested > MAX_PRIORITY then MAX_PRIORITY else requested
  }

  function EntryPriority(dyn: nat, priority: nat): nat {
    if dyn != 0 then dyn else if priority != 0 then priority else DEFAULT_PRIORITY
  }

  /** Who joins keeps a priority it has gathered; who has none gets its own, or 1 if that is not set.
      A requested priority of 0 is 1 and one past 16 is 16. */
  lemma PrioritiesMean(dyn: nat, priority: nat)
    ensures dyn > 0 ==> EntryPriority(dyn, priority) == dyn
    ensures dyn == 0 && priority > 0 ==> EntryPriority(dyn, priority) == priority
    ensures EntryPriority(0, 0) == 1 == Clamped(0)
    ensures priority > 16 ==> Clamped(priority) == 16
    ensures 0 < priority <= 16 ==> Clamped(priority) == priority
  {
  }

  lemma EmptyQueue(q: seq<Process>, head: Process?)
    requires Linked(q, head)
    ensures head == null ==> q == []
  {
  }

  lemma NonEmptyQueue(q: seq<Process>, head: Process?)
    requires Linked(q, head) && head != null
    ensures q != []
  {
  }

  // ---------- bounded waiting ----------

  /** What can happen to the queue.  A dispatch is a successful scheduling step. */
  datatype Event =
    | Dispatch(extra: seq<Slot>)
    | Join(slot: Slot)
    | Leave(proc: Process)
    | Reprioritize(proc: Process, dyn: nat)

  ghost predicate QueueOk(q: seq<Slot>) {
    && (forall i :: 0 <= i < |q| ==> q[i].dyn <= MAX_PRIORITY)
    && (forall i, j :: 0 <= i < j < |q| ==> q[i].proc != q[j].proc)
  }

  ghost predicate Step(q: seq<Slot>, e: Event, q2: seq<Slot>) {
    match e
    case Dispatch(extra) => exists b :: IsBest(q, b) && q2 == Dispatched(q, b, extra)
    case Join(slot) => q2 == q + [slot]
    case Leave(proc) => exists i :: At(q, proc, i) && q2 == Without(q, i)
    case Reprioritize(proc, dyn) => exists i :: At(q, proc, i) && q2 == q[i := Slot(proc, dyn)]
  }

  /** Whoever joins is not queued yet and has a priority of at most 16; at most one process
      gives up the processor in a dispatch. */
  ghost predicate EventOk(q: seq<Slot>, e: Event) {
    match e
    case Dispatch(extra) => |extra| <= 1 && (extra != [] ==> Newcomer(q, extra[0]))
    case Join(slot) => Newcomer(q, slot)
    case Leave(_) => true
    case Reprioritize(_, dyn) => dyn <= MAX_PRIORITY
  }

  ghost predicate Newcomer(q: seq<Slot>, s: Slot) {
    s.dyn <= MAX_PRIORITY && forall i :: 0 <= i < |q| ==> q[i].proc != s.proc
  }

  lemma WithoutOk(q: seq<Slot>, b: nat)
    requires QueueOk(q) && b < |q|
    ensures QueueOk(Without(q, b))
    ensures forall s :: Newcomer(q, s) ==> Newcomer(Without(q, b), s)
  {
    var r := Without(q, b);
    assert forall i :: 0 <= i < |r| ==> r[i] == q[if i < b then i else i + 1];
  }

  lemma JoinedOk(q: seq<Slot>, s: Slot)
    requires QueueOk(q) && Newcomer(q, s)
    ensures QueueOk(q + [s])
  {
  }

  lemma AgedOk(q: seq<Slot>)
    requires QueueOk(q)
    ensures QueueOk(Aged(q))
  {
  }

  /** Every step keeps the queue in order. */
  lemma StepKeepsOk(q: seq<Slot>, e: Event, q2: seq<Slot>)
    requires QueueOk(q) && EventOk(q, e) && Step(q, e, q2)
    ensures QueueOk(q2)
  {
    match e
    case Join(s) => JoinedOk(q, s);
    case Leave(other) =>
      var i :| At(q, other, i) && q2 == Without(q, i);
      WithoutOk(q, i);
    case Reprioritize(_, _) =>
    case Dispatch(extra) =>
      DispatchedOk(q, extra, q2);
  }

  lemma DispatchedOk(q: seq<Slot>, extra: seq<Slot>, q2: seq<Slot>)
    requires QueueOk(q) && EventOk(q, Dispatch(extra)) && Step(q, Dispatch(extra), q2)
    ensures QueueOk(q2)
  {
    hide Without, QueueOk, Newcomer, Aged;
    var b :| IsBest(q, b) && q2 == Dispatched(q, b, extra);
    WithoutOk(q, b);
    var r := Without(q, b);
    if extra == [] {
      assert r + extra == r;
    } else {
      assert extra == [extra[0]];
      JoinedOk(r, extra[0]);
    }
    AgedOk(r + extra);
  }

  ghost predicate At(q: seq<Slot>, proc: Process, i: int) { 0 <= i < |q| && q[i].proc == proc }

  ghost predicate Chosen(q: seq<Slot>, e: Event, proc: Process) {
    e.Dispatch? && exists b :: IsBest(q, b) && At(q, proc, b)
  }

  /** The step neither runs the process nor takes it out nor changes its priority. */
  ghost predicate LeavesAlone(q: seq<Slot>, e: Event, proc: Process) {
    && !Chosen(q, e, proc)
    && (e.Leave? ==> e.proc != proc)
    && (e.Reprioritize? ==> e.proc != proc)
  }

  /** How long a process at position k may still have to wait. */
  ghost function Patience(q: seq<Slot>, k: nat): int
    requires k < |q|
  {
    (MAX_PRIORITY - q[k].dyn) + k
  }

  /** Each time a waiting process is passed over, its patience strictly decreases; nothing
      else increases it. */
  lemma PassedOver(q: seq<Slot>, e: Event, q2: seq<Slot>, proc: Process, k: nat) returns (k2: nat)
    requires QueueOk(q) && QueueOk(q2) && Step(q, e, q2) && At(q, proc, k) && LeavesAlone(q, e, proc)
    ensures At(q2, proc, k2)
    ensures Patience(q2, k2) <= Patience(q, k) - (if e.Dispatch? then 1 else 0)
    ensures q2[k2].dyn == if e.Dispatch? && q[k].dyn < 16 then q[k].dyn + 1 else q[k].dyn
  {
    match e
    case Join(_) =>
      k2 := k;
    case Leave(other) =>
      var i :| At(q, other, i) && q2 == Without(q, i);
      k2 := AfterRemoval(q, i, [], k);
      assert Without(q, i) + [] == q2;
    case Reprioritize(_, _) =>
      k2 := k;
    case Dispatch(extra) =>
      k2 := AfterDispatch(q, extra, q2, proc, k);
  }

  /** Where the slot at k ends up when the slot at b is taken out. */
  lemma AfterRemoval(q: seq<Slot>, b: nat, extra: seq<Slot>, k: nat) returns (k2: nat)
    requires b < |q| && k < |q| && b != k
    ensures k2 < |Without(q, b) + extra| && (Without(q, b) + extra)[k2] == q[k]
    ensures k2 == if b < k then k - 1 else k
  {
    k2 := if b < k then k - 1 else k;
  }

  /** A waiting process below the top priority ages; one at the top was passed over by an
      earlier process of the top priority, and moves up. */
  lemma AfterDispatch(q: seq<Slot>, extra: seq<Slot>, q2: seq<Slot>, proc: Process, k: nat) returns (k2: nat)
    requires QueueOk(q) && At(q, proc, k) && !Chosen(q, Dispatch(extra), proc)
    requires exists b :: IsBest(q, b) && q2 == Dispatched(q, b, extra)
    ensures At(q2, proc, k2) && Patience(q2, k2) <= Patience(q, k) - 1
    ensures q2[k2].dyn == if q[k].dyn < 16 then q[k].dyn + 1 else q[k].dyn
  {
    var b :| IsBest(q, b) && q2 == Dispatched(q, b, extra);
    assert b != k;
    k2 := AfterRemoval(q, b, extra, k);
    hide Without;
    assert q2[k2] == AgedSlot(q[k]);
  }

  ghost function Dispatches(es: seq<Event>): nat {
    if es == [] then 0 else (if es[0].Dispatch? then 1 else 0) + Dispatches(es[1..])
  }

  lemma {:induction false} DispatchesJoin(es: seq<Event>, es2: seq<Event>)
    ensures Dispatches(es + es2) == Dispatches(es) + Dispatches(es2)
  {
    if es == [] {
      assert es + es2 == es2;
    } else {
      assert (es + es2)[1..] == es[1..] + es2;
      DispatchesJoin(es[1..], es2);
    }
  }

  /** A run of the queue. */
  ghost predicate Run(qs: seq<seq<Slot>>, es: seq<Event>) {
    && |qs| == |es| + 1 && QueueOk(qs[0])
    && (forall t :: 0 <= t < |es| ==> EventOk(qs[t], es[t]))
    && (forall t :: 0 <= t < |es| ==> Step(qs[t], es[t], qs[t + 1]))
  }

  /** Aging bounds the wait: over any run in which the process is left alone, there are at most
      (16 - d) + k dispatches. */
  lemma {:induction false} BoundedWaiting(qs: seq<seq<Slot>>, es: seq<Event>, proc: Process, k: nat)
    requires Run(qs, es) && At(qs[0], proc, k)
    requires forall t :: 0 <= t < |es| ==> LeavesAlone(qs[t], es[t], proc)
    ensures Dispatches(es) <= Patience(qs[0], k)
    decreases |es|
  {
    if es != [] {
      assert Step(qs[0], es[0], qs[0 + 1]) && EventOk(qs[0], es[0]);
      StepKeepsOk(qs[0], es[0], qs[1]);
      var k2 := PassedOver(qs[0], es[0], qs[1], proc, k);
      BoundedWaiting(qs[1..], es[1..], proc, k2);
    }
  }

  /** Within (16 - d) + k + 1 dispatches the process runs, if nobody takes it out of the queue
      or changes its priority. */
  lemma RunsInTime(qs: seq<seq<Slot>>, es: seq<Event>, proc: Process, k: nat)
    requires Run(qs, es) && At(qs[0], proc, k)
    requires forall t :: 0 <= t < |es| ==> es[t] != Leave(proc) && (es[t].Reprioritize? ==> es[t].proc != proc)
    requires Dispatches(es) >= Patience(qs[0], k) + 1
    ensures exists t :: 0 <= t < |es| && Chosen(qs[t], es[t], proc)
  {
    if forall t :: 0 <= t < |es| ==> !Chosen(qs[t], es[t], proc) {
      assert forall t :: 0 <= t < |es| ==> LeavesAlone(qs[t], es[t], proc);
      BoundedWaiting(qs, es, proc, k);
    }
  }

  /** Whoever is passed over by n dispatches has gained n, up to 16. */
  lemma {:induction false} AgedByRun(qs: seq<seq<Slot>>, es: seq<Event>, proc: Process, k: nat) returns (k2: nat)
    requires Run(qs, es) && At(qs[0], proc, k)
    requires forall t :: 0 <= t < |es| ==> LeavesAlone(qs[t], es[t], proc)
    ensures At(qs[|es|], proc, k2)
    ensures qs[|es|][k2].dyn == if qs[0][k].dyn + Dispatches(es) < 16 then qs[0][k].dyn + Dispatches(es) else 16
    decreases |es|
  {
    if es == [] {
      k2 := k;
    } else {
      assert Step(qs[0], es[0], qs[0 + 1]) && EventOk(qs[0], es[0]);
      StepKeepsOk(qs[0], es[0], qs[1]);
      var k1 := PassedOver(qs[0], es[0], qs[1], proc, k);
      k2 := AgedByRun(qs[1..], es[1..], proc, k1);
    }
  }

  /** Two waiting processes keep their order. */
  lemma OrderKept(q: seq<Slot>, e: Event, q2: seq<Slot>, p1: Process, k1: nat, p2: Process, k2: nat, m1: nat, m2: nat)
    requires QueueOk(q) && QueueOk(q2) && Step(q, e, q2) && At(q, p1, k1) && At(q, p2, k2) && k1 < k2
    requires At(q2, p1, m1) && At(q2, p2, m2) && LeavesAlone(q, e, p1) && LeavesAlone(q, e, p2)
    ensures m1 < m2
  {
    hide QueueOk, Without, Aged, Newcomer;
    match e
    case Join(_) =>
      OnePlace(q2, p1, k1, m1);
      OnePlace(q2, p2, k2, m2);
    case Leave(other) =>
      var i :| At(q, other, i) && q2 == Without(q, i);
      assert Without(q, i) + [] == q2;
      RemovalOrder(q, i, [], p1, k1, p2, k2, q2, m1, m2);
    case Reprioritize(_, _) =>
      OnePlace(q2, p1, k1, m1);
      OnePlace(q2, p2, k2, m2);
    case Dispatch(extra) =>
      var b :| IsBest(q, b) && q2 == Dispatched(q, b, extra);
      AgedMeans(Without(q, b) + extra);
      RemovalOrder(q, b, extra, p1, k1, p2, k2, q2, m1, m2);
  }

  lemma OnePlace(q: seq<Slot>, p: Process, i: nat, j: nat)
    requires QueueOk(q) && At(q, p, i) && At(q, p, j)
    ensures i == j
  {
  }

  lemma RemovalOrder(q: seq<Slot>, b: nat, extra: seq<Slot>, p1: Process, k1: nat, p2: Process, k2: nat, q2: seq<Slot>, m1: nat, m2: nat)
    requires b < |q| && At(q, p1, k1) && At(q, p2, k2) && k1 < k2 && b != k1 && b != k2
    requires QueueOk(q2) && At(q2, p1, m1) && At(q2, p2, m2)
    requires |q2| == |Without(q, b) + extra| && forall i :: 0 <= i < |q2| ==> q2[i].proc == (Without(q, b) + extra)[i].proc
    ensures m1 < m2
  {
    hide QueueOk, Without;
    var n1 := AfterRemoval(q, b, extra, k1);
    var n2 := AfterRemoval(q, b, extra, k2);
    OnePlace(q2, p1, n1, m1);
    OnePlace(q2, p2, n2, m2);
  }

  /** p1 waits before p2 and with at least its priority, or with a larger priority that n more
      dispatches do not bring to the limit. */
  ghost predicate Ahead(q: seq<Slot>, p1: Process, p2: Process, n: nat) {
    exists k1, k2 :: At(q, p1, k1) && At(q, p2, k2) && AheadAt(q, k1, k2, n)
  }

  ghost predicate AheadAt(q: seq<Slot>, k1: int, k2: int, n: nat) {
    && 0 <= k1 < |q| && 0 <= k2 < |q|
    && ((k1 < k2 && q[k1].dyn >= q[k2].dyn) || (q[k1].dyn > q[k2].dyn && q[k2].dyn + n < 16))
  }

  /** Nobody overtakes: while p1 waits, p2 does not run before it, unless its priority is changed or
      it is taken out. */
  lemma {:induction false} NotOvertaken(qs: seq<seq<Slot>>, es: seq<Event>, p1: Process, p2: Process)
    requires Run(qs, es) && p1 != p2 && Ahead(qs[0], p1, p2, Dispatches(es))
    requires forall t :: 0 <= t < |es| ==> LeavesAlone(qs[t], es[t], p1)
    requires forall t :: 0 <= t < |es| ==> es[t] != Leave(p2) && (es[t].Reprioritize? ==> es[t].proc != p2)
    ensures forall t :: 0 <= t < |es| ==> !Chosen(qs[t], es[t], p2)
    decreases |es|
  {
    if es != [] {
      assert Step(qs[0], es[0], qs[0 + 1]) && EventOk(qs[0], es[0]) && LeavesAlone(qs[0], es[0], p1);
      StepKeepsOk(qs[0], es[0], qs[1]);
      StaysAhead(qs[0], es[0], qs[1], p1, p2, Dispatches(es[1..]));
      NotOvertaken(qs[1..], es[1..], p1, p2);
      forall t | 0 <= t < |es|
        ensures !Chosen(qs[t], es[t], p2)
      {
        if t > 0 {
          assert qs[1..][t - 1] == qs[t] && es[1..][t - 1] == es[t];
        }
      }
    }
  }

  lemma NotBest(q: seq<Slot>, k1: int, k2: int)
    requires 0 <= k1 < |q| && 0 <= k2 < |q| && (q[k1].dyn > q[k2].dyn || (k1 < k2 && q[k1].dyn >= q[k2].dyn))
    ensures !IsBest(q, k2)
  {
  }

  lemma StaysAhead(q: seq<Slot>, e: Event, q2: seq<Slot>, p1: Process, p2: Process, n: nat)
    requires QueueOk(q) && QueueOk(q2) && Step(q, e, q2) && p1 != p2 && Ahead(q, p1, p2, (if e.Dispatch? then 1 else 0) + n)
    requires LeavesAlone(q, e, p1) && e != Leave(p2) && (e.Reprioritize? ==> e.proc != p2)
    ensures !Chosen(q, e, p2) && Ahead(q2, p1, p2, n)
  {
    var k1, k2 :| At(q, p1, k1) && At(q, p2, k2) && AheadAt(q, k1, k2, (if e.Dispatch? then 1 else 0) + n);
    NotBest(q, k1, k2);
    assert forall b :: At(q, p2, b) ==> b == k2;
    var m1 := PassedOver(q, e, q2, p1, k1);
    var m2 := PassedOver(q, e, q2, p2, k2);
    if k1 < k2 {
      OrderKept(q, e, q2, p1, k1, p2, k2, m1, m2);
    }
    assert AheadAt(q2, m1, m2, n);
  }

  // ---------- runs of the scheduler ----------

  /** The calls into the scheduler; processes are named by their place in the process table. */
  datatype Call =
    | Timer(enabled: bool, esp: nat)
    | Block(esp: nat)
    | Exit(esp: nat)
    | Add(parent: nat, esp: nat)
    | WakeUp(index: nat)
    | TakeOut(index: nat)
    | Prioritize(index: nat, priority: nat)

  /** What the scheduler finds when it is called: the process table, the queue, the current process
      and what it would queue again, and who is blocked, was interrupted, or can be resumed. */
  datatype Shot = Shot(procs: seq<Process>, view: seq<Slot>, current: Process?, preempted: seq<Slot>,
                       blocked: set<Process>, framed: set<Process>, resumable: set<Process>)

  ghost function ShotOf(q: ReadyQueue, procs: seq<Process>): Shot
    reads q, q.queue, q.current, procs
  {
    Shot(procs, q.View(), q.current, q.Preempted(), set p | p in procs && p.state == Blocked,
         set p | p in procs && p.interruptFrame, set p | p in procs && p.interruptFrame && p.esp != 0)
  }

  ghost predicate BestIn(v: seq<Slot>, group: set<Process>) {
    exists b :: IsBest(v, b) && v[b].proc in group
  }

  ghost predicate Queued(v: seq<Slot>, p: Process) { exists k :: At(v, p, k) }

  /** Exactly what a call does to the queue.  The timer dispatches if it may and the best process was
      interrupted; a process that stops makes room for the best if that can be resumed, which
      otherwise goes to the end; a child of an existing process joins; a blocked process that is woken
      joins; a queued process leaves when it is taken out and is changed in place when its priority
      is. */
  ghost predicate EventsOf(c: Call, s: Shot, es: seq<Event>) {
    match c
    case Timer(enabled, _) =>
      if enabled && s.view != [] && (s.current == null || s.current in s.framed) && BestIn(s.view, s.framed)
      then es == [Dispatch(s.preempted)] else es == []
    case Block(esp) => StopEvents(esp, s, es)
    case Exit(esp) => StopEvents(esp, s, es)
    case Add(parent, _) => if parent < |s.procs| then |es| == 1 && es[0].Join? && es[0].slot.proc !in s.procs else es == []
    case WakeUp(i) =>
      if i < |s.procs| && s.procs[i] in s.blocked then |es| == 1 && es[0].Join? && es[0].slot.proc == s.procs[i] else es == []
    case TakeOut(i) => es == if i < |s.procs| && Queued(s.view, s.procs[i]) then [Leave(s.procs[i])] else []
    case Prioritize(i, priority) =>
      es == if i < |s.procs| && Queued(s.view, s.procs[i]) then [Reprioritize(s.procs[i], Clamped(priority))] else []
  }

  ghost predicate StopEvents(esp: nat, s: Shot, es: seq<Event>) {
    if s.current == null || esp == 0 || s.view == [] then es == []
    else if BestIn(s.view, s.resumable) then es == [Dispatch([])]
    else Moved(es) && exists b :: IsBest(s.view, b) && es[0].proc == s.view[b].proc
  }

  ghost predicate Moved(es: seq<Event>) { |es| == 2 && es[0].Leave? && es[1].Join? && es[1].slot.proc == es[0].proc }

  /** The process table of a queue. */
  ghost predicate TableOf(q: ReadyQueue, procs: seq<Process>)
    reads q, q.queue, q.known
  {
    q.Valid() && q.Kept() && q.known == set p | p in procs
  }

  /** What the queue says of its best process, and of who is queued. */
  lemma ShotBest(q: ReadyQueue, procs: seq<Process>)
    requires TableOf(q, procs)
    ensures var s := ShotOf(q, procs);
      && (s.view == [] <==> q.queue == [])
      && (BestIn(s.view, s.framed) <==> q.BestFramed()) && (BestIn(s.view, s.resumable) <==> q.BestResumable())
      && (s.current != null ==> (s.current in s.framed <==> s.current.interruptFrame))
      && forall p :: Queued(s.view, p) <==> p in q.queue
  {
    var s := ShotOf(q, procs);
    hide Slots;
    forall b | IsBest(s.view, b)
      ensures s.view[b].proc == q.queue[b] && (q.queue[b] in s.framed <==> q.queue[b].interruptFrame)
      ensures q.queue[b] in s.resumable <==> q.queue[b].interruptFrame && q.queue[b].esp != 0
    {
      ShownAt(q, procs, b);
    }
    forall p
      ensures Queued(s.view, p) <==> p in q.queue
    {
      QueuedIff(q.queue, p);
    }
  }

  lemma ShownAt(q: ReadyQueue, procs: seq<Process>, b: nat)
    requires TableOf(q, procs) && b < |q.View()|
    ensures |q.View()| == |q.queue| && q.View()[b].proc == q.queue[b] && q.queue[b] in procs
  {
    assert q.queue[b] in q.known;
  }

  lemma QueuedIff(queue: seq<Process>, p: Process)
    ensures Queued(Slots(queue), p) <==> p in queue
  {
    if p in queue {
      var k :| 0 <= k < |queue| && queue[k] == p;
      assert At(Slots(queue), p, k);
    }
  }

  lemma KeptQueueOk(q: ReadyQueue)
    requires q.Valid() && q.Kept()
    ensures QueueOk(q.View())
    ensures forall p :: p in q.known && p !in q.queue ==> Newcomer(q.View(), Slot(p, EntryPriority(p.dynamicPriority, p.priority)))
    ensures forall s: Slot :: s in q.Preempted() ==> Newcomer(q.View(), s)
  {
    assert forall i :: 0 <= i < |q.queue| ==> q.queue[i] in q.queue;
  }

  lemma NoStep(v: seq<Slot>)
    requires QueueOk(v)
    ensures Run([v], [])
  {
  }

  lemma OneStep(v: seq<Slot>, e: Event, v2: seq<Slot>)
    requires QueueOk(v) && EventOk(v, e) && Step(v, e, v2)
    ensures Run([v, v2], [e]) && Dispatches([e]) == if e.Dispatch? then 1 else 0
  {
    assert [e][1..] == [];
  }

  /** The chosen process cannot be resumed and goes to the end of the queue. */
  lemma MovedToEnd(v: seq<Slot>, b: nat, s: Slot, v2: seq<Slot>)
    requires QueueOk(v) && b < |v| && s.proc == v[b].proc && s.dyn <= MAX_PRIORITY && v2 == Without(v, b) + [s]
    ensures var es := [Leave(s.proc), Join(s)];
      Run([v, Without(v, b), v2], es) && Moved(es) && Dispatches(es) == 0
  {
    var es := [Leave(s.proc), Join(s)];
    assert At(v, s.proc, b);
    assert es[1..] == [Join(s)] && es[1..][1..] == [] && Dispatches(es[1..]) == 0;
    var r := Without(v, b);
    assert forall i :: 0 <= i < |r| ==> r[i] == v[if i < b then i else i + 1];
    assert Step(v, es[0], r) && Step(r, es[1], v2);
  }

  /** One run after another. */
  lemma RunsJoin(qs: seq<seq<Slot>>, es: seq<Event>, qs2: seq<seq<Slot>>, es2: seq<Event>)
    requires Run(qs, es) && Run(qs2, es2) && qs[|es|] == qs2[0]
    ensures Run(qs[..|es|] + qs2, es + es2)
  {
    hide QueueOk, EventOk, Step;
    var q, e := qs[..|es|] + qs2, es + es2;
    forall t | 0 <= t < |e|
      ensures EventOk(q[t], e[t]) && Step(q[t], e[t], q[t + 1])
    {
      if t < |es| {
        assert q[t] == qs[t] && q[t + 1] == qs[t + 1] && e[t] == es[t];
      } else {
        assert q[t] == qs2[t - |es|] && q[t + 1] == qs2[t - |es| + 1] && e[t] == es2[t - |es|];
      }
    }
  }

  /** The timer. */
  method Tick(q: ReadyQueue, procs: seq<Process>, enabled: bool, esp: nat) returns (ghost qs: seq<seq<Slot>>, ghost es: seq<Event>)
    requires TableOf(q, procs)
    modifies q`head, q`current, q`scheduleCount, q`queue, q.known
    ensures TableOf(q, procs) && q.scheduleCount == old(q.scheduleCount) + Dispatches(es)
    ensures Run(qs, es) && qs[0] == old(q.View()) && qs[|es|] == q.View() && EventsOf(Timer(enabled, esp), old(ShotOf(q, procs)), es)
  {
    hide Slots, Linked, IsBest, QueueOk, Newcomer, Step, Run;
    KeptQueueOk(q);
    ShotBest(q, procs);
    ghost var v, extra, was := q.View(), q.Preempted(), q.current;
    NoStep(v);
    qs, es := [v], [];
    ghost var b;
    var next;
    next, b := q.Preempt(enabled, esp);
    if q.current != was {
      qs, es := [v, q.View()], [Dispatch(extra)];
      OneStep(v, Dispatch(extra), q.View());
    }
  }

  /** The running process blocks or ends. */
  method Stop(q: ReadyQueue, procs: seq<Process>, c: Call) returns (ghost qs: seq<seq<Slot>>, ghost es: seq<Event>)
    requires TableOf(q, procs) && (c.Block? || c.Exit?)
    modifies q`head, q`current, q`scheduleCount, q`queue, q.known
    ensures TableOf(q, procs) && q.scheduleCount == old(q.scheduleCount) + Dispatches(es)
    ensures Run(qs, es) && qs[0] == old(q.View()) && qs[|es|] == q.View() && EventsOf(c, old(ShotOf(q, procs)), es)
  {
    hide Linked, QueueOk, Newcomer, Step, Run, Without;
    KeptQueueOk(q);
    ShotBest(q, procs);
    ghost var v, was := q.View(), q.current;
    NoStep(v);
    qs, es := [v], [];
    ghost var b;
    var next;
    ghost var prios := seq(|q.queue|, i requires 0 <= i < |q.queue| reads q, q.queue => q.queue[i].priority);
    KeptPrios(q, prios);
    next, b := q.StopCurrent(c.esp, if c.Block? then Blocked else Zombie, c.Block?);
    if q.current != was {
      qs, es := [v, q.View()], [Dispatch([])];
      OneStep(v, Dispatch([]), q.View());
    } else if was != null && c.esp != 0 && v != [] {
      ghost var s := Slot(v[b].proc, EntryPriority(v[b].dyn, prios[b]));
      MovedToEnd(v, b, s, q.View());
      qs, es := [v, Without(v, b), q.View()], [Leave(s.proc), Join(s)];
    }
  }

  lemma KeptPrios(q: ReadyQueue, prios: seq<nat>)
    requires q.Valid() && q.Kept() && |prios| == |q.queue| && forall i :: 0 <= i < |prios| ==> prios[i] == q.queue[i].priority
    ensures forall i :: 0 <= i < |prios| ==> EntryPriority(q.View()[i].dyn, prios[i]) <= MAX_PRIORITY
  {
    assert forall i :: 0 <= i < |q.queue| ==> q.queue[i] in q.queue;
  }

  /** A process is created and joins the queue. */
  method AddProcess(q: ReadyQueue, procs: seq<Process>, parent: nat, esp: nat)
    returns (procs2: seq<Process>, ghost qs: seq<seq<Slot>>, ghost es: seq<Event>)
    requires TableOf(q, procs)
    modifies q`head, q`queue, q`known, q.known
    ensures TableOf(q, procs2) && procs <= procs2 && fresh(q.known - old(q.known)) && old(q.known) <= q.known
    ensures q.scheduleCount == old(q.scheduleCount) && Dispatches(es) == 0
    ensures Run(qs, es) && qs[0] == old(q.View()) && qs[|es|] == q.View() && EventsOf(Add(parent, esp), old(ShotOf(q, procs)), es)
  {
    hide Slots, Linked, IsBest, QueueOk, Newcomer, Step, Run;
    KeptQueueOk(q);
    ghost var v := q.View();
    NoStep(v);
    qs, es, procs2 := [v], [], procs;
    if parent < |procs| {
      var p := new Process(procs[parent].priority, esp);
      NewProcess(q, p);
      q.Admit(p);
      procs2 := procs + [p];
      ghost var e := Join(Slot(p, p.dynamicPriority));
      qs, es := [v, q.View()], [e];
      OneStep(v, e, q.View());
    }
  }

  lemma NewProcess(q: ReadyQueue, p: Process)
    requires q.Valid() && q.Kept() && p !in q.known
    ensures forall dyn: nat :: dyn <= MAX_PRIORITY ==> Newcomer(q.View(), Slot(p, dyn))
  {
    assert forall i :: 0 <= i < |q.queue| ==> q.queue[i] in q.queue;
  }

  /** A process is woken, taken out of the queue, or given another priority. */
  method Touch(q: ReadyQueue, procs: seq<Process>, c: Call) returns (ghost qs: seq<seq<Slot>>, ghost es: seq<Event>)
    requires TableOf(q, procs) && (c.WakeUp? || c.TakeOut? || c.Prioritize?)
    modifies q`head, q`queue, q.known
    ensures TableOf(q, procs) && Dispatches(es) == 0
    ensures Run(qs, es) && qs[0] == old(q.View()) && qs[|es|] == q.View() && EventsOf(c, old(ShotOf(q, procs)), es)
  {
    hide Slots, Linked, QueueOk, Newcomer, Step, Run;
    KeptQueueOk(q);
    ShotBest(q, procs);
    ghost var v := q.View();
    NoStep(v);
    qs, es := [v], [];
    if c.index >= |procs| {
      return;
    }
    var p := procs[c.index];
    ghost var e, happens;
    if c.WakeUp? {
      e, happens := Join(Slot(p, EntryPriority(p.dynamicPriority, p.priority))), p.state == Blocked;
      JoinStep(v, e.slot);
      q.Wake(p);
    } else if c.TakeOut? {
      e, happens := Leave(p), p in q.queue;
      q.Remove(p);
    } else {
      q.SetPriority(p, c.priority);
      e, happens := Reprioritize(p, p.dynamicPriority), p in q.queue;
    }
    if happens {
      qs, es := [v, q.View()], [e];
      OneStep(v, e, q.View());
    }
  }

  lemma JoinStep(v: seq<Slot>, s: Slot)
    ensures Step(v, Join(s), v + [s])
  {
  }

  /** One call. */
  method Perform(q: ReadyQueue, procs: seq<Process>, c: Call)
    returns (procs2: seq<Process>, ghost qs: seq<seq<Slot>>, ghost es: seq<Event>)
    requires TableOf(q, procs)
    modifies q, q.known
    ensures TableOf(q, procs2) && procs <= procs2 && fresh(q.known - old(q.known)) && old(q.known) <= q.known
    ensures q.scheduleCount == old(q.scheduleCount) + Dispatches(es)
    ensures Run(qs, es) && qs[0] == old(q.View()) && qs[|es|] == q.View() && EventsOf(c, old(ShotOf(q, procs)), es)
  {
    hide Slots, Linked, Run, EventsOf, TableOf, ShotOf;
    procs2 := procs;
    if c.Timer? {
      qs, es := Tick(q, procs, c.enabled, c.esp);
    } else if c.Block? || c.Exit? {
      qs, es := Stop(q, procs, c);
    } else if c.Add? {
      procs2, qs, es := AddProcess(q, procs, c.parent, c.esp);
    } else {
      qs, es := Touch(q, procs, c);
    }
  }

  ghost function Flat(pieces: seq<seq<Event>>): seq<Event> {
    if pieces == [] then [] else Flat(pieces[..|pieces| - 1]) + pieces[|pieces| - 1]
  }

  /** The calls, what the scheduler found at each, and the events of each are those of a run. */
  ghost predicate Explained(calls: seq<Call>, shots: seq<Shot>, pieces: seq<seq<Event>>, qs: seq<seq<Slot>>, es: seq<Event>) {
    && es == Flat(pieces) && |pieces| == |shots| == |calls| && |qs| == |es| + 1
    && forall i :: 0 <= i < |calls| ==>
         && EventsOf(calls[i], shots[i], pieces[i])
         && |Flat(pieces[..i])| <= |es| && shots[i].view == qs[|Flat(pieces[..i])|]
  }

  /** Every run of calls into the scheduler is a run of the queue in which each call does exactly what
      it has to, the schedule count counts the dispatches and no priority exceeds 16; so a process
      that waits at position k with priority d and is neither taken out, nor moved, nor given another
      priority has been chosen once the count has grown by more than (16 - d) + k. */
  method RunCalls(q: ReadyQueue, procs: seq<Process>, calls: seq<Call>)
    returns (procs2: seq<Process>, ghost qs: seq<seq<Slot>>, ghost es: seq<Event>, ghost pieces: seq<seq<Event>>, ghost shots: seq<Shot>)
    requires TableOf(q, procs)
    modifies q, q.known
    ensures TableOf(q, procs2) && procs <= procs2
    ensures Run(qs, es) && qs[0] == old(q.View()) && qs[|es|] == q.View()
    ensures Explained(calls, shots, pieces, qs, es)
    ensures q.scheduleCount == old(q.scheduleCount) + Dispatches(es)
    ensures forall p, k :: At(qs[0], p, k) && LeftAlone(es, p) && q.scheduleCount > old(q.scheduleCount) + Patience(qs[0], k) ==>
      exists t :: 0 <= t < |es| && Chosen(qs[t], es[t], p)
  {
    hide Slots, Linked, EventsOf, TableOf, Run, Explained;
    procs2, qs, es, pieces, shots := CallLoop(q, procs, calls);
    RunShape(qs, es);
    forall p, k | At(qs[0], p, k) && LeftAlone(es, p) && q.scheduleCount > old(q.scheduleCount) + Patience(qs[0], k)
      ensures exists t :: 0 <= t < |es| && Chosen(qs[t], es[t], p)
    {
      RunsInTime(qs, es, p, k);
    }
  }

  method CallLoop(q: ReadyQueue, procs: seq<Process>, calls: seq<Call>)
    returns (procs2: seq<Process>, ghost qs: seq<seq<Slot>>, ghost es: seq<Event>, ghost pieces: seq<seq<Event>>, ghost shots: seq<Shot>)
    requires TableOf(q, procs)
    modifies q, q.known
    ensures TableOf(q, procs2) && procs <= procs2
    ensures Run(qs, es) && qs[0] == old(q.View()) && qs[|es|] == q.View()
    ensures Explained(calls, shots, pieces, qs, es)
    ensures q.scheduleCount == old(q.scheduleCount) + Dispatches(es)
  {
    hide Slots, Linked, EventsOf, Run, TableOf;
    TableQueueOk(q, procs);
    procs2, qs, es, pieces, shots := procs, [q.View()], [], [], [];
    NoStep(q.View());
    for n := 0 to |calls|
      invariant TableOf(q, procs2) && procs <= procs2 && fresh(q.known - old(q.known)) && old(q.known) <= q.known
      invariant |qs| == |es| + 1 && Run(qs, es) && qs[0] == old(q.View()) && qs[|es|] == q.View()
      invariant Explained(calls[..n], shots, pieces, qs, es)
      invariant q.scheduleCount == old(q.scheduleCount) + Dispatches(es)
    {
      hide Slots, Linked, Run, EventsOf, TableOf, ShotOf, Explained, Flat;
      ghost var shot, more, next := ShotOf(q, procs2), [], [];
      ShotView(q, procs2);
      procs2, more, next := Perform(q, procs2, calls[n]);
      RunsJoin(qs, es, more, next);
      RunShape(more, next);
      DispatchesJoin(es, next);
      ExplainedMore(calls[..n], shots, pieces, qs, es, calls[n], shot, more, next);
      assert calls[..n + 1] == calls[..n] + [calls[n]];
      qs, es, pieces, shots := qs[..|es|] + more, es + next, pieces + [next], shots + [shot];
    }
    assert calls[..|calls|] == calls;
  }

  lemma ShotView(q: ReadyQueue, procs: seq<Process>)
    ensures ShotOf(q, procs).view == q.View()
  {
  }

  lemma ExplainedMore(calls: seq<Call>, shots: seq<Shot>, pieces: seq<seq<Event>>, qs: seq<seq<Slot>>, es: seq<Event>,
                      c: Call, shot: Shot, more: seq<seq<Slot>>, next: seq<Event>)
    requires Explained(calls, shots, pieces, qs, es) && EventsOf(c, shot, next) && |more| == |next| + 1 && more[0] == qs[|es|] == shot.view
    ensures Explained(calls + [c], shots + [shot], pieces + [next], qs[..|es|] + more, es + next)
  {
    hide EventsOf;
    FlatMore(pieces, next);
    hide Flat;
    var pieces2, qs2 := pieces + [next], qs[..|es|] + more;
    forall i | 0 <= i < |calls| + 1
      ensures EventsOf((calls + [c])[i], (shots + [shot])[i], pieces2[i])
      ensures |Flat(pieces2[..i])| <= |es + next| && (shots + [shot])[i].view == qs2[|Flat(pieces2[..i])|]
    {
      assert pieces2[..i] == pieces[..i];
      if i == |calls| {
        assert pieces[..i] == pieces;
      }
    }
  }

  lemma TableQueueOk(q: ReadyQueue, procs: seq<Process>)
    requires TableOf(q, procs)
    ensures QueueOk(q.View())
  {
    KeptQueueOk(q);
  }

  lemma FlatMore(pieces: seq<seq<Event>>, next: seq<Event>)
    ensures Flat(pieces + [next]) == Flat(pieces) + next
  {
    assert (pieces + [next])[..|pieces|] == pieces;
  }

  /** The process is never taken out, moved or given another priority. */
  ghost predicate LeftAlone(es: seq<Event>, p: Process) {
    forall t :: 0 <= t < |es| ==> es[t] != Leave(p) && (es[t].Reprioritize? ==> es[t].proc != p)
  }

  lemma RunShape(qs: seq<seq<Slot>>, es: seq<Event>)
    requires Run(qs, es)
    ensures |qs| == |es| + 1
  {
  }
}
