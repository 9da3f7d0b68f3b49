/**
  Run queues and the wakeup handshake (kernel/sched/main.cc) as a transition system over any
  number of CPUs and tasks.

  A section under rq_lock is one step; so is every other atomic access to a task's
  unblock_ticket, pending_wakeup and on_cpu.  A task that publishes a ticket keeps deferred
  procedure calls off until it has called schedule().  One thing is assumed: when a task
  publishes a ticket, the context switch of its previous sleep is over and no waker that saw it
  off its CPU has yet to swap pending_wakeup.  PublishExact says why.
 */
module Sched {
  import opened Basics

  type Cpu = nat
  type Task = nat

  /** Where a task is: on a run queue, the current task of a CPU, or neither. */
  datatype Place = Off | Queued(cpu: Cpu) | Current(cpu: Cpu)

  /** finish_context_switch on `cpu` for a task that blocked: about to store on_cpu, to swap
      pending_wakeup, to enqueue. */
  datatype Finish = NoFinish | FStore(cpu: Cpu) | FSwap(cpu: Cpu) | FEnqueue(cpu: Cpu)

  /** One task.  atStore, atLoad, atSwap, atEnqueue: how many wakers are about to store
      pending_wakeup, to load on_cpu, to swap pending_wakeup, to enqueue; a waker that is slow
      may meet later sleeps of the task.  armed: it has published a ticket and not yet switched away.  fading: the CPU
      that switched away from it while it was runnable and has yet to clear on_cpu.  issued:
      the tickets that wakers know.  wakes and enqueues count consumed tickets and the
      insertions into run queues made for them. */
  datatype TaskRec = TaskRec(prio: nat, place: Place, runnable: bool, armed: bool, onCpu: bool, pending: bool,
                             ticket: nat, issued: set<nat>, atStore: nat, atLoad: nat, atSwap: nat, atEnqueue: nat,
                             finish: Finish, fading: Option<Cpu>, wakes: nat, enqueues: nat)

  /** One run queue; no current task means the idle task. */
  datatype Rq = Rq(queues: seq<seq<Task>>, load: int, current: Option<Task>)

  datatype State = State(cpus: map<Cpu, Rq>, tasks: map<Task, TaskRec>)

  /** MIN_TASK_PRIORITY is 0, MAX_TASK_PRIORITY is 20. */
  const PRIORITIES: nat := 21

  // ---- steps of one task -----------------------------------------------------------------------

  /** A step that changes the record of one task, which stays where it is. */
  ghost predicate TaskStep(r: TaskRec, r': TaskRec)
  {
    || Publish(r, r') || Draw(r, r') || Block(r, r')
    || Fade(r, r') || FinishStore(r, r') || FinishSwap(r, r')
    || Consume(r, r') || WakeStore(r, r') || WakeLoad(r, r') || WakeSwap(r, r')
  }

  /** sched_get_blocking_ticket, for a ticket that is handed to wakers. */
  function Published(r: TaskRec): TaskRec
  {
    r.(armed := true, ticket := r.ticket + 1, issued := r.issued + {r.ticket + 1})
  }

  ghost predicate Publish(r: TaskRec, r': TaskRec)
  {
    r.place.Current? && !r.armed && r.atSwap == 0 && r.finish == NoFinish && r' == Published(r)
  }

  /** sched_get_blocking_ticket, for a ticket that is not used. */
  ghost predicate Draw(r: TaskRec, r': TaskRec)
  {
    r.place.Current? && !r.armed && r' == r.(ticket := r.ticket + 1)
  }

  /** set_current_state before a sleep. */
  ghost predicate Block(r: TaskRec, r': TaskRec)
  {
    r.place.Current? && r.armed && r' == r.(runnable := false)
  }

  /** finish_context_switch for a task that is runnable. */
  ghost predicate Fade(r: TaskRec, r': TaskRec)
  {
    r.fading.Some? && r' == r.(fading := None, onCpu := false)
  }

  ghost predicate FinishStore(r: TaskRec, r': TaskRec)
  {
    r.finish.FStore? && r' == r.(finish := FSwap(r.finish.cpu), onCpu := false)
  }

  ghost predicate FinishSwap(r: TaskRec, r': TaskRec)
  {
    && r.finish.FSwap?
    && r' == if r.pending then r.(pending := false, finish := FEnqueue(r.finish.cpu)) else r.(finish := NoFinish)
  }

  /** sched_wake with a known ticket: the swap of unblock_ticket succeeds only on the current one. */
  ghost predicate Consume(r: TaskRec, r': TaskRec)
  {
    r.ticket in r.issued && r' == r.(ticket := r.ticket + 1, atStore := r.atStore + 1, wakes := r.wakes + 1)
  }

  ghost predicate WakeStore(r: TaskRec, r': TaskRec)
  {
    r.atStore > 0 && r' == r.(pending := true, atStore := r.atStore - 1, atLoad := r.atLoad + 1)
  }

  ghost predicate WakeLoad(r: TaskRec, r': TaskRec)
  {
    r.atLoad > 0 && r' == r.(atLoad := r.atLoad - 1, atSwap := if r.onCpu then r.atSwap else r.atSwap + 1)
  }

  ghost predicate WakeSwap(r: TaskRec, r': TaskRec)
  {
    r.atSwap > 0 && r' == if r.pending then r.(pending := false, atSwap := r.atSwap - 1, atEnqueue := r.atEnqueue + 1)
                          else r.(atSwap := r.atSwap - 1)
  }

  /** Someone is bound to insert the task into a run queue. */
  predicate Claimed(r: TaskRec)
  {
    r.atEnqueue > 0 || r.finish.FEnqueue?
  }

  ghost predicate Solo(s: State, s': State, t: Task)
  {
    t in s.tasks && t in s'.tasks && TaskStep(s.tasks[t], s'.tasks[t]) && s' == s.(tasks := s.tasks[t := s'.tasks[t]])
  }

  // ---- steps under a run queue lock ------------------------------------------------------------

  /** enqueue_on_this_processor and enqueue_on_remote_processor, by a waker or at the end of
      a context switch. */
  ghost predicate Enqueue(s: State, s': State, t: Task, c: Cpu)
  {
    && t in s.tasks && c in s.cpus
    && var r, rq := s.tasks[t], s.cpus[c];
    && Claimed(r) && r.prio < |rq.queues|
    && s' == State(s.cpus[c := Rq(Push(rq.queues, r.prio, t), rq.load + 1, rq.current)],
                   s.tasks[t := Arrived(r, c)])
  }

  function Arrived(r: TaskRec, c: Cpu): TaskRec
    requires Claimed(r)
  {
    if r.atEnqueue > 0
    then r.(place := Queued(c), runnable := true, enqueues := r.enqueues + 1, atEnqueue := r.atEnqueue - 1)
    else r.(place := Queued(c), runnable := true, enqueues := r.enqueues + 1, finish := NoFinish)
  }

  function Push(qs: seq<seq<Task>>, p: nat, t: Task): seq<seq<Task>>
    requires p < |qs|
  {
    qs[p := qs[p] + [t]]
  }

  function Pop(qs: seq<seq<Task>>, p: nat): seq<seq<Task>>
    requires p < |qs| && qs[p] != []
  {
    qs[p := qs[p][1..]]
  }

  /** pick_next_task takes the first task of the highest queue that is not empty. */
  ghost predicate Picks(qs: seq<seq<Task>>, p: nat)
  {
    p < |qs| && qs[p] != [] && forall i :: p < i < |qs| ==> qs[i] == []
  }

  ghost predicate AllEmpty(qs: seq<seq<Task>>)
  {
    forall i :: 0 <= i < |qs| ==> qs[i] == []
  }

  /** The CPU is not inside finish_context_switch. */
  ghost predicate Settled(s: State, c: Cpu)
  {
    forall t :: t in s.tasks ==>
      s.tasks[t].fading != Some(c) && (s.tasks[t].finish.NoFinish? || s.tasks[t].finish.cpu != c)
  }

  /** The current task of c goes back to its queue. */
  function Preempted(r: TaskRec, c: Cpu): TaskRec
  {
    r.(place := Queued(c), fading := Some(c))
  }

  /** It goes off the CPU, blocked. */
  function Blocked(r: TaskRec, c: Cpu): TaskRec
  {
    r.(place := Off, armed := false, finish := FStore(c))
  }

  /** A task on the queue of c becomes its current task. */
  function Dispatched(r: TaskRec, c: Cpu): TaskRec
  {
    r.(place := Current(c), onCpu := true)
  }

  /** schedule(), first half: the current task goes back to its queue or off the CPU. */
  ghost predicate Leave(s: State, s': State, c: Cpu)
  {
    && c in s.cpus && Settled(s, c)
    && var rq := s.cpus[c];
    match rq.current
    case None => s' == s
    case Some(t) =>
      && t in s.tasks
      && var r := s.tasks[t];
      if r.runnable then
        && !r.armed && r.prio < |rq.queues|
        && s' == State(s.cpus[c := Rq(Push(rq.queues, r.prio, t), rq.load, None)],
                       s.tasks[t := Preempted(r, c)])
      else
        s' == State(s.cpus[c := Rq(rq.queues, rq.load - 1, None)],
                    s.tasks[t := Blocked(r, c)])
  }

  /** schedule(), second half: the next task becomes current, or the idle task does. */
  ghost predicate Take(s: State, s': State, c: Cpu)
  {
    && c in s.cpus
    && var rq := s.cpus[c];
    || (AllEmpty(rq.queues) && s' == s)
    || exists p: nat :: TakeFrom(s, s', c, p)
  }

  ghost predicate TakeFrom(s: State, s': State, c: Cpu, p: nat)
    requires c in s.cpus
  {
    var rq := s.cpus[c];
    && Picks(rq.queues, p)
    && var t := rq.queues[p][0];
    && t in s.tasks
    && s' == State(s.cpus[c := Rq(Pop(rq.queues, p), rq.load, Some(t))],
                   s.tasks[t := Dispatched(s.tasks[t], c)])
  }

  /** schedule(): when the task that leaves is picked again, nothing changes. */
  ghost predicate Schedule(s: State, s': State, c: Cpu)
  {
    exists mid :: Leave(s, mid, c) && (if PicksAgain(s, mid, c) then s' == s else Take(mid, s', c))
  }

  ghost predicate PicksAgain(s: State, mid: State, c: Cpu)
  {
    && c in s.cpus && c in mid.cpus && s.cpus[c].current.Some?
    && exists p: nat :: Picks(mid.cpus[c].queues, p) && mid.cpus[c].queues[p][0] == s.cpus[c].current.value
  }

  ghost predicate Next(s: State, s': State)
  {
    || (exists t :: Solo(s, s', t))
    || (exists t, c :: Enqueue(s, s', t, c))
    || (exists c :: Schedule(s, s', c))
  }

  // ---- the invariant ---------------------------------------------------------------------------

  /** The task is in a sleep: from publishing a ticket to being enqueued again. */
  predicate Sleeps(r: TaskRec)
  {
    r.armed || r.place.Off?
  }

  /** A waker may still consume the current ticket. */
  predicate Live(r: TaskRec)
  {
    r.ticket in r.issued
  }

  /** How many parties are bound to enqueue the task. */
  function Owed(r: TaskRec): nat
  {
    r.atStore + (if r.pending then 1 else 0) + r.atEnqueue + (if r.finish.FEnqueue? then 1 else 0)
  }

  /** The state of one task's handshake. */
  ghost predicate Handshake(r: TaskRec)
  {
    && (forall k :: k in r.issued ==> k <= r.ticket)
    && (Live(r) ==> Sleeps(r))
    && Owed(r) == (if Sleeps(r) && !Live(r) then 1 else 0)
    && r.wakes == r.enqueues + Owed(r)
    && (r.pending && !r.onCpu && !r.finish.FSwap? ==> r.atLoad + r.atSwap > 0)
    && (Claimed(r) ==> r.place.Off? && !r.onCpu)
    && (r.atSwap > 0 ==> !r.armed && (r.place.Off? ==> !r.onCpu))
    && (r.armed ==> r.finish == NoFinish && r.place.Current?)
    && (r.place.Current? ==> r.onCpu && (!r.armed ==> r.runnable) && !r.finish.FStore? && r.fading == None)
    && (r.place.Queued? ==>
      r.runnable && (r.onCpu <==> r.fading.Some?)
      && (r.fading.Some? ==> r.fading.value == r.place.cpu) && !r.finish.FStore?)
    && (r.place.Off? ==> (r.onCpu <==> r.finish.FStore?) && r.fading == None)
  }

  function Total(qs: seq<seq<Task>>): nat
  {
    if qs == [] then 0 else |qs[0]| + Total(qs[1..])
  }

  /** The counter is right and every entry is where it says it is. */
  ghost predicate RqOk(tasks: map<Task, TaskRec>, c: Cpu, rq: Rq)
  {
    && |rq.queues| == PRIORITIES && rq.load == Total(rq.queues) + (if rq.current.Some? then 1 else 0)
    && (forall p :: 0 <= p < |rq.queues| ==> NoRepeat(rq.queues[p]))
    && (forall p, t :: 0 <= p < |rq.queues| && t in rq.queues[p] ==>
      t in tasks && tasks[t].place == Queued(c) && tasks[t].prio == p)
    && (rq.current.Some? ==> rq.current.value in tasks && tasks[rq.current.value].place == Current(c))
  }

  ghost predicate Placed(cpus: map<Cpu, Rq>, t: Task, r: TaskRec)
  {
    match r.place
    case Off => true
    case Queued(c) => c in cpus && r.prio < |cpus[c].queues| && t in cpus[c].queues[r.prio]
    case Current(c) => c in cpus && cpus[c].current == Some(t)
  }

  ghost predicate Inv(s: State)
  {
    && (forall t :: t in s.tasks ==>
      s.tasks[t].prio < PRIORITIES && Handshake(s.tasks[t]) && Placed(s.cpus, t, s.tasks[t]))
    && (forall c :: c in s.cpus ==> RqOk(s.tasks, c, s.cpus[c]))
  }

  // ---- one task --------------------------------------------------------------------------------

  lemma StepHandshake(r: TaskRec, r': TaskRec)
    requires Handshake(r) && TaskStep(r, r')
    ensures Handshake(r') && r'.place == r.place && r'.prio == r.prio
  {
  }

  lemma SoloInv(s: State, s': State, t: Task)
    requires Inv(s) && Solo(s, s', t)
    ensures Inv(s')
  {
    hide Handshake, TaskStep, NoRepeat, Total;
    StepHandshake(s.tasks[t], s'.tasks[t]);
  }

  // ---- one task and one run queue --------------------------------------------------------------

  /** Task t, which is off or at c, and the run queue of c change together; everything else
      stays in place. */
  ghost predicate Together(s: State, t: Task, c: Cpu, r: TaskRec, rq: Rq)
    requires t in s.tasks && c in s.cpus && |s.cpus[c].queues| == |rq.queues| == PRIORITIES
  {
    && (s.tasks[t].place.Off? || s.tasks[t].place.cpu == c)
    && r.prio == s.tasks[t].prio && Handshake(r) && (r.place.Off? || r.place.cpu == c)
    && Placed(s.cpus[c := rq], t, r) && RqOk(s.tasks[t := r], c, rq)
    && (forall p, u :: 0 <= p < PRIORITIES && u != t && u in s.cpus[c].queues[p] ==> u in rq.queues[p])
    && (forall u :: u != t && s.cpus[c].current == Some(u) ==> rq.current == Some(u))
  }

  lemma TogetherInv(s: State, t: Task, c: Cpu, r: TaskRec, rq: Rq)
    requires Inv(s) && t in s.tasks && c in s.cpus && |s.cpus[c].queues| == |rq.queues| == PRIORITIES
      && Together(s, t, c, r, rq)
    ensures Inv(State(s.cpus[c := rq], s.tasks[t := r]))
  {
    hide Handshake, NoRepeat, Total;
    var s' := State(s.cpus[c := rq], s.tasks[t := r]);
    forall u | u in s'.tasks && u != t
      ensures Placed(s'.cpus, u, s'.tasks[u])
    {
      assert Placed(s.cpus, u, s.tasks[u]);
    }
    forall d | d in s'.cpus && d != c
      ensures RqOk(s'.tasks, d, s'.cpus[d])
    {
      assert RqOk(s.tasks, d, s.cpus[d]);
    }
  }

  lemma {:induction false} TotalUpdate(qs: seq<seq<Task>>, p: nat, q: seq<Task>)
    requires p < |qs|
    ensures Total(qs[p := q]) == Total(qs) - |qs[p]| + |q|
  {
    if p > 0 {
      TotalUpdate(qs[1..], p - 1, q);
      assert qs[p := q][1..] == qs[1..][p - 1 := q];
    } else {
      assert qs[p := q][1..] == qs[1..];
    }
  }

  /** A task that is nowhere on the queue goes to its end. */
  lemma PushOk(tasks: map<Task, TaskRec>, c: Cpu, rq: Rq, t: Task, r: TaskRec, current: Option<Task>, load: int)
    requires RqOk(tasks, c, rq) && t in tasks && r.prio < PRIORITIES && r.prio == tasks[t].prio && r.place == Queued(c)
    requires !tasks[t].place.Queued?
    requires current == rq.current || current == None
    requires current.Some? ==> current.value != t
    requires load == Total(rq.queues) + 1 + (if current.Some? then 1 else 0)
    ensures RqOk(tasks[t := r], c, Rq(Push(rq.queues, r.prio, t), load, current))
  {
    hide Total;
    var qs, qs' := rq.queues, Push(rq.queues, r.prio, t);
    TotalUpdate(qs, r.prio, qs[r.prio] + [t]);
    assert t !in qs[r.prio];
    assert qs'[r.prio] == qs[r.prio] + [t];
  }

  lemma PopOk(tasks: map<Task, TaskRec>, c: Cpu, rq: Rq, p: nat, r: TaskRec)
    requires RqOk(tasks, c, rq) && p < PRIORITIES && rq.queues[p] != [] && rq.current == None && r.place == Current(c)
    ensures var t := rq.queues[p][0];
      RqOk(tasks[t := r], c, Rq(Pop(rq.queues, p), rq.load, Some(t)))
  {
    hide Total;
    var qs, qs', t := rq.queues, Pop(rq.queues, p), rq.queues[p][0];
    TotalUpdate(qs, p, qs[p][1..]);
    assert NoRepeat(qs'[p]) by { assert NoRepeat(qs[p]); }
    assert t !in qs'[p] by { assert forall i :: 0 <= i < |qs'[p]| ==> qs'[p][i] == qs[p][i + 1]; }
    forall i, u | 0 <= i < PRIORITIES && u in qs'[i]
      ensures u in tasks && u != t && tasks[u].place == Queued(c) && tasks[u].prio == i
    {
      assert u in qs[i];
      assert t in qs[p];
    }
    forall i | 0 <= i < PRIORITIES
      ensures NoRepeat(qs'[i])
    {
      assert NoRepeat(qs[i]);
    }
    assert |qs[p][1..]| == |qs[p]| - 1;
    assert rq.load == Total(qs') + 1;
  }

  lemma TaskAt(s: State, t: Task)
    requires Inv(s) && t in s.tasks
    ensures s.tasks[t].prio < PRIORITIES && Handshake(s.tasks[t]) && Placed(s.cpus, t, s.tasks[t])
  {
    hide Handshake, Placed, RqOk;
  }

  lemma RqAt(s: State, c: Cpu)
    requires Inv(s) && c in s.cpus
    ensures RqOk(s.tasks, c, s.cpus[c])
  {
    hide Handshake, Placed, RqOk;
  }

  lemma EnqueueInv(s: State, s': State, t: Task, c: Cpu)
    requires Inv(s) && Enqueue(s, s', t, c)
    ensures Inv(s')
  {
    hide Total, NoRepeat, Handshake, Inv;
    TaskAt(s, t);
    RqAt(s, c);
    var r, rq := s.tasks[t], s.cpus[c];
    var r' := Arrived(r, c);
    ArrivedOk(r, c);
    PushOk(s.tasks, c, rq, t, r', rq.current, rq.load + 1);
    var rq' := Rq(Push(rq.queues, r.prio, t), rq.load + 1, rq.current);
    TogetherInv(s, t, c, r', rq');
  }

  lemma ArrivedOk(r: TaskRec, c: Cpu)
    requires Handshake(r) && Claimed(r)
    ensures r.place.Off? && !r.onCpu && Handshake(Arrived(r, c))
  {
  }

  lemma LeftOk(r: TaskRec, c: Cpu)
    requires Handshake(r) && r.place == Current(c)
    ensures r.runnable && !r.armed ==> Handshake(Preempted(r, c))
    ensures !r.runnable ==> Handshake(Blocked(r, c))
  {
  }

  lemma TakenOk(r: TaskRec, c: Cpu)
    requires Handshake(r) && r.place == Queued(c) && r.fading == None
    ensures Handshake(Dispatched(r, c))
  {
  }

  /** The current task of c and its record. */
  lemma CurrentAt(s: State, c: Cpu)
    requires Inv(s) && c in s.cpus && s.cpus[c].current.Some?
    ensures var t := s.cpus[c].current.value;
      t in s.tasks && s.tasks[t].place == Current(c) && Handshake(s.tasks[t])
      && s.tasks[t].prio < PRIORITIES
    ensures RqOk(s.tasks, c, s.cpus[c])
  {
    hide Handshake;
    assert RqOk(s.tasks, c, s.cpus[c]);
  }

  lemma LeaveRunnable(s: State, c: Cpu, t: Task)
    requires Inv(s) && c in s.cpus && s.cpus[c].current == Some(t) && t in s.tasks && s.tasks[t].runnable
      && !s.tasks[t].armed
    requires s.tasks[t].prio < |s.cpus[c].queues|
    ensures var r, rq := s.tasks[t], s.cpus[c];
      Inv(State(s.cpus[c := Rq(Push(rq.queues, r.prio, t), rq.load, None)], s.tasks[t := Preempted(r, c)]))
  {
    hide Total, NoRepeat, Handshake, Inv;
    CurrentAt(s, c);
    var r, rq := s.tasks[t], s.cpus[c];
    var r', rq' := Preempted(r, c), Rq(Push(rq.queues, r.prio, t), rq.load, None);
    LeftOk(r, c);
    PushOk(s.tasks, c, rq, t, r', None, rq.load);
    TogetherInv(s, t, c, r', rq');
  }

  lemma LeaveBlocked(s: State, c: Cpu, t: Task)
    requires Inv(s) && c in s.cpus && s.cpus[c].current == Some(t) && t in s.tasks && !s.tasks[t].runnable
    ensures var r, rq := s.tasks[t], s.cpus[c];
      Inv(State(s.cpus[c := Rq(rq.queues, rq.load - 1, None)], s.tasks[t := Blocked(r, c)]))
  {
    hide Total, NoRepeat, Handshake, Inv;
    CurrentAt(s, c);
    var r, rq := s.tasks[t], s.cpus[c];
    var r', rq' := Blocked(r, c), Rq(rq.queues, rq.load - 1, None);
    LeftOk(r, c);
    TogetherInv(s, t, c, r', rq');
  }

  lemma TakeFromInv(s: State, s': State, c: Cpu, p: nat)
    requires Inv(s) && c in s.cpus && s.cpus[c].current == None && TakeFrom(s, s', c, p)
      && s.tasks[s.cpus[c].queues[p][0]].fading == None
    ensures Inv(s')
  {
    hide Total, NoRepeat, Handshake;
    var rq := s.cpus[c];
    var t := rq.queues[p][0];
    assert RqOk(s.tasks, c, rq);
    assert t in rq.queues[p];
    TakenOk(s.tasks[t], c);
    var r', rq' := Dispatched(s.tasks[t], c), Rq(Pop(rq.queues, p), rq.load, Some(t));
    PopOk(s.tasks, c, rq, p, r');
    assert rq.queues[p] == [t] + rq.queues[p][1..];
    TogetherInv(s, t, c, r', rq');
  }

  lemma ScheduleInv(s: State, s': State, c: Cpu)
    requires Inv(s) && Schedule(s, s', c)
    ensures Inv(s')
  {
    hide Inv, Leave, Take, PicksAgain;
    var mid :| Leave(s, mid, c) && (if PicksAgain(s, mid, c) then s' == s else Take(mid, s', c));
    if !PicksAgain(s, mid, c) {
      LeaveInv(s, mid, c);
      TakeInv(s, mid, s', c);
    }
  }

  lemma LeaveInv(s: State, s': State, c: Cpu)
    requires Inv(s) && Leave(s, s', c)
    ensures Inv(s') && c in s.cpus && c in s'.cpus && s'.cpus[c].current == None
    ensures forall u :: u in s'.tasks && s.cpus[c].current != Some(u) ==> s'.tasks[u].fading != Some(c)
  {
    hide Inv;
    if s.cpus[c].current.Some? {
      var t := s.cpus[c].current.value;
      if s.tasks[t].runnable { LeaveRunnable(s, c, t); } else { LeaveBlocked(s, c, t); }
    }
  }

  lemma TakeInv(s: State, mid: State, s': State, c: Cpu)
    requires Inv(mid) && c in s.cpus && c in mid.cpus && mid.cpus[c].current == None && Take(mid, s', c)
      && !PicksAgain(s, mid, c)
    requires forall u :: u in mid.tasks && s.cpus[c].current != Some(u) ==> mid.tasks[u].fading != Some(c)
    ensures Inv(s')
  {
    hide Inv;
    if p: nat :| TakeFrom(mid, s', c, p) {
      FadingHere(mid, c, p);
      TakeFromInv(mid, s', c, p);
    }
  }

  /** A task on the queue of c can only be fading from c. */
  lemma FadingHere(s: State, c: Cpu, p: nat)
    requires Inv(s) && c in s.cpus && Picks(s.cpus[c].queues, p)
    ensures var t := s.cpus[c].queues[p][0]; t in s.tasks && (s.tasks[t].fading == None || s.tasks[t].fading == Some(c))
  {
    hide Total, NoRepeat;
    assert RqOk(s.tasks, c, s.cpus[c]);
    assert s.cpus[c].queues[p][0] in s.cpus[c].queues[p];
  }

  lemma NextInv(s: State, s': State)
    requires Inv(s) && Next(s, s')
    ensures Inv(s')
  {
    hide Inv, Solo, Enqueue, Schedule;
    if t :| Solo(s, s', t) {
      SoloInv(s, s', t);
    } else if t, c :| Enqueue(s, s', t, c) {
      EnqueueInv(s, s', t, c);
    } else {
      var c :| Schedule(s, s', c);
      ScheduleInv(s, s', c);
    }
  }

  // ---- whole runs ------------------------------------------------------------------------------

  function NewTask(prio: nat): TaskRec
  {
    TaskRec(prio, Off, true, false, false, false, 0, {0}, 0, 0, 0, 0, NoFinish, None, 0, 0)
  }

  /** Every CPU idles; every task is new (its initial ticket is known). */
  ghost predicate Init(s: State)
  {
    && (forall c :: c in s.cpus ==> s.cpus[c] == Rq(seq(PRIORITIES, _ => []), 0, None))
    && (forall t :: t in s.tasks ==> s.tasks[t].prio < PRIORITIES && s.tasks[t] == NewTask(s.tasks[t].prio))
  }

  lemma {:induction false} TotalNone(qs: seq<seq<Task>>)
    requires AllEmpty(qs)
    ensures Total(qs) == 0
  {
    if qs != [] {
      assert qs[0] == [];
      TotalNone(qs[1..]);
    }
  }

  lemma InitInv(s: State)
    requires Init(s)
    ensures Inv(s)
  {
    hide Total;
    forall c | c in s.cpus
      ensures RqOk(s.tasks, c, s.cpus[c])
    {
      TotalNone(s.cpus[c].queues);
    }
  }

  ghost predicate Run(r: seq<State>)
  {
    |r| > 0 && Init(r[0]) && forall i {:trigger r[i]} :: 0 <= i < |r| - 1 ==> Next(r[i], r[i + 1])
  }

  lemma {:induction false} RunInv(r: seq<State>, i: nat)
    requires Run(r) && i < |r|
    ensures Inv(r[i])
    decreases i
  {
    hide Next, Inv;
    if i == 0 {
      InitInv(r[0]);
    } else {
      RunInv(r, i - 1);
      assert Next(r[i - 1], r[i - 1 + 1]);
      NextInv(r[i - 1], r[i]);
    }
  }

  /** rq_load counts the queued tasks and the current task, unless that is the idle task. */
  lemma LoadExact(r: seq<State>, i: nat, c: Cpu)
    requires Run(r) && i < |r| && c in r[i].cpus
    ensures r[i].cpus[c].load == Total(r[i].cpus[c].queues) + (if r[i].cpus[c].current.Some? then 1 else 0)
  {
    hide Total, NoRepeat, Handshake;
    RunInv(r, i);
    assert RqOk(r[i].tasks, c, r[i].cpus[c]);
  }

  /** No task is in two queues, twice in one, current on two CPUs, or both queued and current. */
  lemma OnePlace(r: seq<State>, i: nat, t: Task, c: Cpu, d: Cpu, p: nat, q: nat)
    requires Run(r) && i < |r| && c in r[i].cpus && d in r[i].cpus && p < |r[i].cpus[c].queues|
      && q < |r[i].cpus[d].queues|
    ensures t in r[i].cpus[c].queues[p] && t in r[i].cpus[d].queues[q] ==>
      c == d && p == q && NoRepeat(r[i].cpus[c].queues[p])
    ensures r[i].cpus[c].current == Some(t) && r[i].cpus[d].current == Some(t) ==> c == d
    ensures !(t in r[i].cpus[c].queues[p] && r[i].cpus[d].current == Some(t))
  {
    hide Run, Total, NoRepeat, Handshake, RqOk;
    RunInv(r, i);
    OnePlaceAt(r[i].tasks, t, c, r[i].cpus[c], d, r[i].cpus[d], p, q);
  }

  lemma OnePlaceAt(tasks: map<Task, TaskRec>, t: Task, c: Cpu, rc: Rq, d: Cpu, rd: Rq, p: nat, q: nat)
    requires RqOk(tasks, c, rc) && RqOk(tasks, d, rd) && p < |rc.queues| && q < |rd.queues|
    ensures t in rc.queues[p] && t in rd.queues[q] ==> c == d && p == q && NoRepeat(rc.queues[p])
    ensures rc.current == Some(t) && rd.current == Some(t) ==> c == d
    ensures !(t in rc.queues[p] && rd.current == Some(t))
  {
    hide Total, NoRepeat;
    if t in rc.queues[p] {
      assert tasks[t].place == Queued(c) && tasks[t].prio == p;
      if t in rd.queues[q] {
        assert tasks[t].place == Queued(d) && tasks[t].prio == q;
      }
    }
  }

  /** Each successful sched_wake leads to one insertion into a run queue: what has not been
      inserted is owed by one party, and nothing is owed to a task that is not asleep. */
  lemma OneEnqueuePerWake(r: seq<State>, i: nat, t: Task)
    requires Run(r) && i < |r| && t in r[i].tasks
    ensures var x := r[i].tasks[t];
      x.wakes == x.enqueues + Owed(x) && Owed(x) <= 1 && (Owed(x) == 1 <==> Sleeps(x) && !Live(x))
  {
    hide Total, NoRepeat, Placed, RqOk;
    RunInv(r, i);
    assert Handshake(r[i].tasks[t]);
  }

  /** The party that owes the insertion has not gone: it is a waker on its way, or the context
      switch away from the task, which is still to come or to look at pending_wakeup. */
  lemma WakeupCarried(r: seq<State>, i: nat, t: Task)
    requires Run(r) && i < |r| && t in r[i].tasks && Sleeps(r[i].tasks[t]) && !Live(r[i].tasks[t])
    ensures var x := r[i].tasks[t];
      || x.atStore > 0 || Claimed(x)
      || (x.pending && (x.armed || x.finish.FStore? || x.finish.FSwap? || x.atLoad + x.atSwap > 0))
  {
    hide Total, NoRepeat, Placed, RqOk;
    RunInv(r, i);
    assert Handshake(r[i].tasks[t]);
  }

  /** A task is inserted into a run queue only when it has left its CPU. */
  lemma EnqueueOffCpu(r: seq<State>, i: nat, t: Task, c: Cpu)
    requires Run(r) && i + 1 < |r| && Enqueue(r[i], r[i + 1], t, c)
    ensures r[i].tasks[t].place == Off && !r[i].tasks[t].onCpu
  {
    hide Total, NoRepeat, Placed, RqOk;
    RunInv(r, i);
    assert Handshake(r[i].tasks[t]);
  }

  lemma TicketsGrow(s: State, s': State, t: Task)
    requires Next(s, s') && t in s.tasks
    ensures t in s'.tasks && s'.tasks[t].ticket >= s.tasks[t].ticket && s.tasks[t].issued <= s'.tasks[t].issued
  {
    hide Push, Pop, Settled, AllEmpty, Picks, PicksAgain, Leave, Take;
    if u :| Solo(s, s', u) {
    } else if u, c :| Enqueue(s, s', u, c) {
    } else {
      var c :| Schedule(s, s', c);
      var mid :| Leave(s, mid, c) && (if PicksAgain(s, mid, c) then s' == s else Take(mid, s', c));
      if !PicksAgain(s, mid, c) { ScheduleTickets(s, mid, s', c, t); }
    }
  }

  lemma ScheduleTickets(s: State, mid: State, s': State, c: Cpu, t: Task)
    requires Leave(s, mid, c) && Take(mid, s', c) && t in s.tasks
    ensures t in s'.tasks && s'.tasks[t].ticket == s.tasks[t].ticket && s'.tasks[t].issued == s.tasks[t].issued
  {
    hide Push, Pop, Settled, AllEmpty, Picks;
  }

  lemma {:induction false} TicketsGrowRun(r: seq<State>, i: nat, j: nat, t: Task)
    requires Run(r) && i <= j < |r| && t in r[i].tasks
    ensures t in r[j].tasks && r[j].tasks[t].ticket >= r[i].tasks[t].ticket
    decreases j - i
  {
    hide Next, Init;
    if i < j {
      assert Next(r[i], r[i + 1]);
      TicketsGrow(r[i], r[i + 1], t);
      TicketsGrowRun(r, i + 1, j, t);
    }
  }

  /** A ticket is consumed at most once, and a ticket that has been superseded never is. */
  lemma ConsumedOnce(r: seq<State>, i: nat, j: nat, t: Task)
    requires Run(r) && i < j && j + 1 < |r| && t in r[i].tasks && t in r[i + 1].tasks && t in r[j].tasks
      && t in r[j + 1].tasks
    requires Consume(r[j].tasks[t], r[j + 1].tasks[t])
    ensures r[j].tasks[t].ticket >= r[i].tasks[t].ticket
    ensures Consume(r[i].tasks[t], r[i + 1].tasks[t]) ==> r[j].tasks[t].ticket > r[i].tasks[t].ticket
  {
    hide Run;
    TicketsGrowRun(r, i, j, t);
    TicketsGrowRun(r, i + 1, j, t);
  }

  /** A sleep that is over before the wakeup comes: the waker inserts the task. */
  lemma WakeAfterSleep(r: TaskRec, c: Cpu) returns (a: seq<TaskRec>, b: seq<TaskRec>, done: TaskRec)
    requires Handshake(r) && r.place == Current(c) && !r.armed && r.atSwap == 0 && r.finish == NoFinish
    ensures |a| == 3 && a[0] == r && Publish(a[0], a[1]) && Block(a[1], a[2])
    ensures |b| == 7 && b[0] == Blocked(a[2], c)
    ensures FinishStore(b[0], b[1]) && FinishSwap(b[1], b[2]) && Consume(b[2], b[3])
    ensures WakeStore(b[3], b[4]) && WakeLoad(b[4], b[5]) && WakeSwap(b[5], b[6])
    ensures b[6].atEnqueue == 1 && done == Arrived(b[6], c) && done.enqueues == r.enqueues + 1 && Handshake(done)
  {
    var r2 := Published(r).(runnable := false);
    a := [r, Published(r), r2];
    var b0 := Blocked(r2, c);
    var b2 := b0.(finish := NoFinish, onCpu := false);
    var b3 := b2.(ticket := b2.ticket + 1, wakes := b2.wakes + 1, atStore := 1);
    var b5 := b3.(pending := true, atStore := 0, atSwap := 1);
    b := [b0, b0.(finish := FSwap(c), onCpu := false), b2, b3,
          b3.(pending := true, atStore := 0, atLoad := r.atLoad + 1), b5,
          b5.(pending := false, atSwap := 0, atEnqueue := 1)];
    done := Arrived(b[6], c);
  }

  /** A wakeup that comes before the task has left its CPU: the context switch inserts it. */
  lemma WakeBeforeSleep(r: TaskRec, c: Cpu) returns (a: seq<TaskRec>, b: seq<TaskRec>, done: TaskRec)
    requires Handshake(r) && r.place == Current(c) && !r.armed && r.atSwap == 0 && r.finish == NoFinish
    ensures |a| == 6 && a[0] == r && Publish(a[0], a[1]) && Consume(a[1], a[2]) && WakeStore(a[2], a[3])
    ensures WakeLoad(a[3], a[4]) && Block(a[4], a[5]) && a[4].atSwap == 0 && a[4].pending
    ensures |b| == 3 && b[0] == Blocked(a[5], c)
    ensures FinishStore(b[0], b[1]) && FinishSwap(b[1], b[2])
    ensures b[2].finish.FEnqueue? && done == Arrived(b[2], c) && done.enqueues == r.enqueues + 1 && Handshake(done)
  {
    var r1 := Published(r);
    var r2 := r1.(ticket := r1.ticket + 1, wakes := r1.wakes + 1, atStore := 1);
    var r4 := r2.(atStore := 0, pending := true);
    a := [r, r1, r2, r4.(atLoad := r.atLoad + 1), r4, r4.(runnable := false)];
    var b0 := Blocked(r4.(runnable := false), c);
    b := [b0, b0.(finish := FSwap(c), onCpu := false), b0.(finish := FEnqueue(c), onCpu := false, pending := false)];
    done := Arrived(b[2], c);
  }

  /** sched_get_blocking_ticket makes all earlier tickets worthless. */
  lemma Superseded(r: TaskRec, r': TaskRec, k: nat)
    requires Handshake(r) && (Publish(r, r') || Draw(r, r')) && k in r.issued
    ensures r'.ticket != k && (Live(r') ==> Publish(r, r'))
  {
  }

  /** How many accesses all wakers of a task have still to make at most. */
  function WakersRest(r: TaskRec): nat
  {
    4 * r.atStore + 3 * r.atLoad + 2 * r.atSwap + r.atEnqueue
  }

  /** Each of them brings a waker on: no waker stays with the task for longer than four. */
  lemma WakersAdvance(r: TaskRec, r': TaskRec)
    requires WakeStore(r, r') || WakeLoad(r, r') || WakeSwap(r, r') || (exists c :: Claimed(r) && r' == Arrived(r, c))
    ensures WakersRest(r') < WakersRest(r) || (r.finish.FEnqueue? && r'.finish == NoFinish)
  {
  }

  // ---- when a ticket may be published ------------------------------------------------------------

  /** Whatever a step of the system does to one task. */
  ghost predicate Move(r: TaskRec, r': TaskRec)
  {
    || TaskStep(r, r')
    || (exists c :: Claimed(r) && r' == Arrived(r, c))
    || (exists c :: r.place == Current(c) && r.runnable && !r.armed && r' == Preempted(r, c))
    || (exists c :: r.place == Current(c) && !r.runnable && r' == Blocked(r, c))
    || (exists c :: r.place == Queued(c) && r.fading == None && r' == Dispatched(r, c))
  }

  ghost predicate Moves(q: seq<TaskRec>)
  {
    |q| > 0 && forall i {:trigger q[i]} :: 0 <= i < |q| - 1 ==> Move(q[i], q[i + 1])
  }

  /** Something has gone wrong: the task is to be inserted into a run queue while it is on a CPU
      or in a queue, an insertion was made without a wakeup or twice for one, or a wakeup is
      pending that nobody will look at. */
  predicate Harm(r: TaskRec)
  {
    || (Claimed(r) && (r.onCpu || !r.place.Off?))
    || r.wakes != r.enqueues + Owed(r) || Owed(r) > 1
    || (r.pending && !r.armed && !r.finish.FStore? && !r.finish.FSwap? && r.atLoad + r.atSwap == 0)
  }

  lemma MoveHandshake(r: TaskRec, r': TaskRec)
    requires Handshake(r) && Move(r, r')
    ensures Handshake(r')
  {
    hide Handshake, TaskStep, Arrived;
    if TaskStep(r, r') {
      StepHandshake(r, r');
    } else if c :| Claimed(r) && r' == Arrived(r, c) {
      ArrivedOk(r, c);
    } else if r.place.Current? {
      LeftOk(r, r.place.cpu);
    } else {
      TakenOk(r, r.place.cpu);
    }
  }

  lemma {:induction false} MovesHandshake(q: seq<TaskRec>)
    requires Moves(q) && Handshake(q[0])
    ensures Handshake(q[|q| - 1])
    decreases |q|
  {
    hide Handshake, Move;
    if |q| > 1 {
      var n := |q| - 2;
      assert Moves(q[..n + 1]);
      MovesHandshake(q[..n + 1]);
      assert Move(q[n], q[n + 1]);
      MoveHandshake(q[n], q[n + 1]);
    }
  }

  lemma HandshakeHarmless(r: TaskRec)
    requires Handshake(r)
    ensures !Harm(r)
  {
  }

  /** A running task may publish a ticket exactly when the context switch of its last sleep is
      over and no waker is about to swap pending_wakeup: then nothing goes wrong in whatever
      happens to the task afterwards, and otherwise something can. */
  lemma PublishExact(r: TaskRec)
    requires Handshake(r) && r.place.Current? && !r.armed
    ensures r.atSwap == 0 && r.finish == NoFinish
      <==> forall q :: Moves(q) && q[0] == Published(r) ==> !Harm(q[|q| - 1])
  {
    hide Handshake, Harm, Move;
    if r.atSwap == 0 && r.finish == NoFinish {
      StepHandshake(r, Published(r));
      forall q | Moves(q) && q[0] == Published(r)
        ensures !Harm(q[|q| - 1])
      {
        MovesHandshake(q);
        HandshakeHarmless(q[|q| - 1]);
      }
    } else {
      var q := if r.atSwap > 0 then LateWakerRace(r) else LateFinishRace(r);
      RaceMoves(q);
    }
  }

  lemma RaceMoves(q: seq<TaskRec>)
    requires |q| == 4 && TaskStep(q[0], q[1]) && TaskStep(q[1], q[2]) && TaskStep(q[2], q[3])
    ensures Moves(q)
  {
    hide TaskStep;
  }

  /** A waker has consumed the ticket just published and stored pending_wakeup. */
  function Stored(r: TaskRec): TaskRec
  {
    r.(ticket := r.ticket + 1, wakes := r.wakes + 1, pending := true, atLoad := r.atLoad + 1)
  }

  /** A task that runs again while its last context switch has yet to look at pending_wakeup,
      and that publishes a ticket, can be claimed for insertion while it is running. */
  function LateFinishRace(r: TaskRec): (q: seq<TaskRec>)
    requires Handshake(r) && r.place.Current? && !r.armed && r.finish != NoFinish
    ensures |q| == 4 && q[0] == Published(r) && Consume(q[0], q[1]) && WakeStore(q[1], q[2]) && FinishSwap(q[2], q[3])
    ensures q[3].finish.FEnqueue? && q[3].place.Current? && q[3].onCpu && Harm(q[3])
  {
    var r1 := Published(r);
    var r3 := Stored(r1);
    [r1, r3.(pending := false, atStore := 1, atLoad := r.atLoad), r3,
     r3.(pending := false, finish := FEnqueue(r.finish.cpu))]
  }

  /** So can a task that publishes a ticket while a waker of an earlier sleep, which saw it off
      its CPU, has yet to swap pending_wakeup. */
  function LateWakerRace(r: TaskRec): (q: seq<TaskRec>)
    requires Handshake(r) && r.place.Current? && !r.armed && r.atSwap > 0
    ensures |q| == 4 && q[0] == Published(r) && Consume(q[0], q[1]) && WakeStore(q[1], q[2]) && WakeSwap(q[2], q[3])
    ensures q[3].atEnqueue > 0 && q[3].place.Current? && q[3].onCpu && Harm(q[3])
  {
    var r1 := Published(r);
    var r3 := Stored(r1);
    [r1, r3.(pending := false, atStore := 1, atLoad := r.atLoad), r3, r3.(pending := false, atSwap := r.atSwap - 1,
      atEnqueue := 1)]
  }

  /** Every step of the system is a move of each task, or leaves it alone. */
  lemma NextMove(s: State, s': State, t: Task)
    requires Inv(s) && Next(s, s') && t in s.tasks
    ensures t in s'.tasks && (s'.tasks[t] == s.tasks[t] || Move(s.tasks[t], s'.tasks[t]))
  {
    hide Inv, TaskStep, Push, Schedule, Handshake, Arrived;
    if u :| Solo(s, s', u) {
    } else if u, c :| Enqueue(s, s', u, c) {
    } else {
      var c :| Schedule(s, s', c);
      ScheduleMove(s, s', c, t);
    }
  }

  lemma ScheduleMove(s: State, s': State, c: Cpu, t: Task)
    requires Inv(s) && Schedule(s, s', c) && t in s.tasks
    ensures t in s'.tasks && (s'.tasks[t] == s.tasks[t] || Move(s.tasks[t], s'.tasks[t]))
  {
    hide Inv, TaskStep, Push, Pop, Settled, Handshake, Arrived, PicksAgain, Leave, Take;
    var mid :| Leave(s, mid, c) && (if PicksAgain(s, mid, c) then s' == s else Take(mid, s', c));
    if !PicksAgain(s, mid, c) {
      LeaveInv(s, mid, c);
      LeaveMove(s, mid, c, t);
      TakeMove(s, mid, s', c, t);
    }
  }

  lemma LeaveMove(s: State, mid: State, c: Cpu, t: Task)
    requires Inv(s) && Leave(s, mid, c) && t in s.tasks
    ensures t in mid.tasks
    ensures mid.tasks[t] == s.tasks[t] || (s.cpus[c].current == Some(t) && Move(s.tasks[t], mid.tasks[t]))
  {
    hide Inv, TaskStep, Push, Settled, Handshake, Arrived;
    if s.cpus[c].current == Some(t) { CurrentAt(s, c); }
  }

  lemma TakeMove(s: State, mid: State, s': State, c: Cpu, t: Task)
    requires Inv(mid) && Take(mid, s', c) && t in mid.tasks && c in s.cpus && !PicksAgain(s, mid, c)
    requires forall u :: u in mid.tasks && s.cpus[c].current != Some(u) ==> mid.tasks[u].fading != Some(c)
    ensures t in s'.tasks
    ensures s'.tasks[t] == mid.tasks[t] || (s.cpus[c].current != Some(t) && Move(mid.tasks[t], s'.tasks[t]))
  {
    hide Inv, TaskStep, Pop, Handshake, Arrived, RqOk;
    if p: nat :| TakeFrom(mid, s', c, p) {
      FadingHere(mid, c, p);
      QueuedHere(mid, c, p);
    }
  }

  lemma QueuedHere(s: State, c: Cpu, p: nat)
    requires Inv(s) && c in s.cpus && Picks(s.cpus[c].queues, p)
    ensures var t := s.cpus[c].queues[p][0]; t in s.tasks && s.tasks[t].place == Queued(c)
  {
    hide Total, NoRepeat, Handshake, Inv;
    RqAt(s, c);
    assert s.cpus[c].queues[p][0] in s.cpus[c].queues[p];
  }
}
