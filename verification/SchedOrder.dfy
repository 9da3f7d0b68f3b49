/**
  Which task runs next (kernel/sched/main.cc): the one of the highest priority, and among tasks of
  one priority the one that has been in the queue longest.
 */
module SchedOrder {
  import opened Basics
  import opened Sched

  // ---- the highest priority ----------------------------------------------------------------------

  /** No task in the queues of rq has a priority above p. */
  ghost predicate NoneAbove(tasks: map<Task, TaskRec>, rq: Rq, p: nat)
  {
    forall i, u :: 0 <= i < |rq.queues| && u in rq.queues[i] ==> u in tasks && tasks[u].prio <= p
  }

  /** After schedule(), the current task is of the highest priority on the CPU; the CPU idles only
      if nobody is queued. */
  ghost predicate Best(s: State, c: Cpu)
  {
    && c in s.cpus
    && match s.cpus[c].current
      case Some(t) => t in s.tasks && NoneAbove(s.tasks, s.cpus[c], s.tasks[t].prio)
      case None => forall i, u :: 0 <= i < |s.cpus[c].queues| ==> u !in s.cpus[c].queues[i]
  }

  /** The entries of all queues above p are none. */
  lemma TopQueue(s: State, c: Cpu, p: nat)
    requires Inv(s) && c in s.cpus && Picks(s.cpus[c].queues, p)
    ensures NoneAbove(s.tasks, s.cpus[c], p)
    ensures var t := s.cpus[c].queues[p][0]; t in s.tasks && s.tasks[t].prio == p
  {
    hide Inv, Handshake, Total, NoRepeat;
    RqAt(s, c);
    var rq := s.cpus[c];
    assert rq.queues[p][0] in rq.queues[p];
    forall i, u | 0 <= i < |rq.queues| && u in rq.queues[i]
      ensures u in s.tasks && s.tasks[u].prio <= p
    {
      assert s.tasks[u].prio == i;
    }
  }

  lemma TakeBest(s: State, s': State, c: Cpu)
    requires Inv(s) && c in s.cpus && s.cpus[c].current == None && Take(s, s', c)
    ensures Best(s', c)
  {
    hide Inv;
    if p: nat :| TakeFrom(s, s', c, p) {
      TopQueue(s, c, p);
      var rq, rq' := s.cpus[c], s'.cpus[c];
      forall i, u | 0 <= i < |rq'.queues| && u in rq'.queues[i]
        ensures u in s'.tasks && s'.tasks[u].prio <= p
      {
        assert u in rq.queues[i];
      }
    }
  }

  /** If the leaving task is picked again, it was the best one all along. */
  lemma AgainBest(s: State, mid: State, c: Cpu)
    requires Inv(s) && Inv(mid) && Leave(s, mid, c) && PicksAgain(s, mid, c)
    ensures Best(s, c)
  {
    hide Inv, Settled;
    CurrentAt(s, c);
    var t := s.cpus[c].current.value;
    var p: nat :| Picks(mid.cpus[c].queues, p) && mid.cpus[c].queues[p][0] == t;
    TopQueue(mid, c, p);
    var rq, rq' := s.cpus[c], mid.cpus[c];
    forall i, u | 0 <= i < |rq.queues| && u in rq.queues[i]
      ensures u in s.tasks && s.tasks[u].prio <= p
    {
      assert u in rq'.queues[i];
    }
  }

  lemma PicksHighest(r: seq<State>, i: nat, c: Cpu)
    requires Run(r) && i + 1 < |r| && Schedule(r[i], r[i + 1], c)
    ensures Best(r[i + 1], c)
  {
    hide Run, Inv, Leave, Take, PicksAgain, Best;
    RunInv(r, i);
    var s, s' := r[i], r[i + 1];
    var mid :| Leave(s, mid, c) && (if PicksAgain(s, mid, c) then s' == s else Take(mid, s', c));
    LeaveInv(s, mid, c);
    if PicksAgain(s, mid, c) {
      AgainBest(s, mid, c);
    } else {
      TakeBest(mid, s', c);
    }
  }

  // ---- first in, first out -----------------------------------------------------------------------

  /** What a step does to one queue: somebody may join at its end, and its first task may leave to
      become the current task. */
  ghost predicate QueueStep(q: seq<Task>, q': seq<Task>, current: Option<Task>)
  {
    || q' == q
    || (exists t :: t !in q && Joins(q, q', t))
    || (q != [] && q' == q[1..] && current == Some(q[0]))
    || (exists t :: t !in q && q != [] && Joins(q[1..], q', t) && current == Some(q[0]))
  }

  ghost predicate Joins(q: seq<Task>, q': seq<Task>, t: Task)
  {
    q' == q + [t]
  }

  ghost function Queue(s: State, c: Cpu, p: nat): seq<Task>
  {
    if c in s.cpus && p < |s.cpus[c].queues| then s.cpus[c].queues[p] else []
  }

  ghost function CurrentOf(s: State, c: Cpu): Option<Task>
  {
    if c in s.cpus then s.cpus[c].current else None
  }

  /** A task that is not queued is in no queue. */
  lemma NotQueued(s: State, c: Cpu, p: nat, t: Task)
    requires Inv(s) && t in s.tasks && !s.tasks[t].place.Queued?
    ensures t !in Queue(s, c, p)
  {
    hide Inv, Handshake, Total, NoRepeat;
    if c in s.cpus { RqAt(s, c); }
  }

  lemma EnqueueQueue(s: State, s': State, t: Task, d: Cpu, c: Cpu, p: nat)
    requires Inv(s) && Enqueue(s, s', t, d)
    ensures QueueStep(Queue(s, c, p), Queue(s', c, p), CurrentOf(s', c))
  {
    hide Inv, Handshake, Arrived;
    TaskAt(s, t);
    ArrivedOk(s.tasks[t], d);
    NotQueued(s, c, p, t);
    if c == d && p == s.tasks[t].prio {
      assert Joins(Queue(s, c, p), Queue(s', c, p), t);
    }
  }

  lemma LeaveQueue(s: State, s': State, d: Cpu, c: Cpu, p: nat)
    requires Inv(s) && Leave(s, s', d)
    ensures Queue(s', c, p) == Queue(s, c, p)
      || (c == d && s.cpus[d].current.Some? && s.cpus[d].current.value !in Queue(s, c, p)
          && Joins(Queue(s, c, p), Queue(s', c, p), s.cpus[d].current.value))
    ensures c != d ==> CurrentOf(s', c) == CurrentOf(s, c) && Queue(s', c, p) == Queue(s, c, p)
  {
    hide Inv, Settled;
    if s.cpus[d].current.Some? {
      CurrentAt(s, d);
      NotQueued(s, c, p, s.cpus[d].current.value);
    }
  }

  lemma TakeQueue(s: State, s': State, d: Cpu, c: Cpu, p: nat)
    requires d in s.cpus && Take(s, s', d)
    ensures Queue(s', c, p) == Queue(s, c, p)
      || (c == d && Picks(s.cpus[c].queues, p) && Queue(s', c, p) == Queue(s, c, p)[1..]
          && CurrentOf(s', c) == Some(Queue(s, c, p)[0]))
  {
  }

  lemma PickedAgain(s: State, mid: State, c: Cpu, p: nat)
    requires c in s.cpus && c in mid.cpus && s.cpus[c].current.Some? && Picks(mid.cpus[c].queues, p)
    requires mid.cpus[c].queues[p][0] == s.cpus[c].current.value
    ensures PicksAgain(s, mid, c)
  {
  }

  lemma ScheduleQueue(s: State, s': State, d: Cpu, c: Cpu, p: nat)
    requires Inv(s) && Schedule(s, s', d)
    ensures QueueStep(Queue(s, c, p), Queue(s', c, p), CurrentOf(s', c))
  {
    hide Inv, Leave, Take, PicksAgain;
    var mid :| Leave(s, mid, d) && (if PicksAgain(s, mid, d) then s' == s else Take(mid, s', d));
    if !PicksAgain(s, mid, d) {
      LeaveInv(s, mid, d);
      LeaveQueue(s, mid, d, c, p);
      TakeQueue(mid, s', d, c, p);
      var q, q1, q2 := Queue(s, c, p), Queue(mid, c, p), Queue(s', c, p);
      if q1 != q && q2 != q1 {
        var t := s.cpus[d].current.value;
        if q == [] { PickedAgain(s, mid, d, p); }
        assert Joins(q[1..], q2, t);
      }
    }
  }

  lemma NextQueue(r: seq<State>, i: nat, c: Cpu, p: nat)
    requires Run(r) && i + 1 < |r|
    ensures QueueStep(Queue(r[i], c, p), Queue(r[i + 1], c, p), CurrentOf(r[i + 1], c)) && NoRepeat(Queue(r[i], c, p))
  {
    hide Inv, Solo, Enqueue, Schedule, Handshake, QueueStep, NoRepeat, Total;
    RunInv(r, i);
    var s, s' := r[i], r[i + 1];
    assert Next(s, s');
    QueueOnce(s, c, p);
    if t :| Solo(s, s', t) {
      SoloQueue(s, s', t, c, p);
    } else if t, d :| Enqueue(s, s', t, d) {
      EnqueueQueue(s, s', t, d, c, p);
    } else {
      var d :| Schedule(s, s', d);
      ScheduleQueue(s, s', d, c, p);
    }
  }

  lemma QueueOnce(s: State, c: Cpu, p: nat)
    requires Inv(s)
    ensures NoRepeat(Queue(s, c, p))
  {
    hide Inv, Handshake, Total;
    if c in s.cpus { RqAt(s, c); }
  }

  lemma SoloQueue(s: State, s': State, t: Task, c: Cpu, p: nat)
    requires Solo(s, s', t)
    ensures QueueStep(Queue(s, c, p), Queue(s', c, p), CurrentOf(s', c))
  {
    hide TaskStep;
  }

  /** Somebody else at the end changes nothing. */
  lemma EndOrder(q: seq<Task>, q': seq<Task>, x: Task, t: Task, u: Task)
    requires Joins(q, q', x) && t in q && (u in q ==> Precedes(q, t, u))
    ensures (u in q ==> u in q') && (u in q' ==> Precedes(q', t, u))
  {
    hide Precedes;
    PrecedesJoin(q, [x], t, u);
  }

  /** One step: while t stays in the queue, it stays before u, and u does not leave. */
  lemma StaysBefore(q: seq<Task>, q': seq<Task>, current: Option<Task>, t: Task, u: Task)
    requires QueueStep(q, q', current) && NoRepeat(q) && t in q && t in q' && (u in q ==> Precedes(q, t, u))
    ensures (u in q ==> u in q') && (u in q' ==> Precedes(q', t, u))
  {
    hide Precedes, NoRepeat;
    if q' == q {
    } else if x :| x !in q && Joins(q, q', x) {
      EndOrder(q, q', x, t, u);
    } else if q' == q[1..] {
      RestOrder(q, t, u);
    } else {
      var x :| x !in q && Joins(q[1..], q', x);
      assert t in q[1..];
      RestOrder(q, t, u);
      EndOrder(q[1..], q', x, t, u);
    }
  }

  /** A task stays before everyone who joins the queue after it. */
  lemma {:induction false} FirstInQueue(r: seq<State>, i: nat, j: nat, c: Cpu, p: nat, t: Task, u: Task)
    requires Run(r) && i <= j < |r| && t in Queue(r[i], c, p)
    requires u in Queue(r[i], c, p) ==> Precedes(Queue(r[i], c, p), t, u)
    requires forall k {:trigger r[k]} :: i <= k <= j ==> t in Queue(r[k], c, p)
    ensures u in Queue(r[j], c, p) ==> Precedes(Queue(r[j], c, p), t, u)
    decreases j
  {
    hide Run, Precedes, Queue, NoRepeat, QueueStep;
    if i < j {
      FirstInQueue(r, i, j - 1, c, p, t, u);
      assert t in Queue(r[j - 1], c, p) && t in Queue(r[j], c, p);
      NextQueue(r, j - 1, c, p);
      StaysBefore(Queue(r[j - 1], c, p), Queue(r[j], c, p), CurrentOf(r[j], c), t, u);
    }
  }

  /** First in, first out: u, which joined the queue after t, does not leave it while t is there. */
  lemma FirstInFirstOut(r: seq<State>, i: nat, j: nat, c: Cpu, p: nat, t: Task, u: Task)
    requires Run(r) && i <= j && j + 1 < |r| && t in Queue(r[i], c, p)
    requires u in Queue(r[i], c, p) ==> Precedes(Queue(r[i], c, p), t, u)
    requires forall k {:trigger r[k]} :: i <= k <= j ==> t in Queue(r[k], c, p)
    ensures t != u && u in Queue(r[j], c, p) ==> u in Queue(r[j + 1], c, p)
  {
    hide Run, Precedes, Queue, NoRepeat, QueueStep;
    FirstInQueue(r, i, j, c, p, t, u);
    assert t in Queue(r[j], c, p);
    NextQueue(r, j, c, p);
    if u in Queue(r[j], c, p) {
      NotFirst(Queue(r[j], c, p), Queue(r[j + 1], c, p), CurrentOf(r[j + 1], c), t, u);
    }
  }

  /** Who has somebody before it does not leave. */
  lemma NotFirst(q: seq<Task>, q': seq<Task>, current: Option<Task>, t: Task, u: Task)
    requires QueueStep(q, q', current) && NoRepeat(q) && Precedes(q, t, u)
    ensures u in q'
  {
    var i, j :| 0 <= i < j < |q| && q[i] == t && q[j] == u;
    assert q[1..][j - 1] == u;
  }

  /** Whoever leaves a queue was its first task, and is now the current task. */
  lemma LeavesToRun(r: seq<State>, i: nat, c: Cpu, p: nat, t: Task)
    requires Run(r) && i + 1 < |r| && t in Queue(r[i], c, p) && t !in Queue(r[i + 1], c, p)
    ensures CurrentOf(r[i + 1], c) == Some(t)
    ensures forall u :: u in Queue(r[i], c, p) ==> !Precedes(Queue(r[i], c, p), u, t)
  {
    hide Run, Precedes, Queue, NoRepeat;
    NextQueue(r, i, c, p);
    var q, q' := Queue(r[i], c, p), Queue(r[i + 1], c, p);
    forall u | u in q
      ensures !Precedes(q, u, t)
    {
      if Precedes(q, u, t) { NotFirst(q, q', CurrentOf(r[i + 1], c), u, t); }
    }
    assert q == [q[0]] + q[1..];
  }
}
