/**
  Runs of the scheduler (kernel/sched/main.cc): from every state in which a task is owed an
  insertion into a run queue there is a way to it, and the states from which publishing a ticket
  goes wrong come about.
 */
module SchedRuns {
  import opened Basics
  import opened Sched

  // ---- the way to the insertion ------------------------------------------------------------------

  ghost predicate Path(q: seq<State>)
  {
    |q| > 0 && forall i {:trigger q[i]} :: 0 <= i < |q| - 1 ==> Next(q[i], q[i + 1])
  }

  /** Steps lead from s to s'. */
  ghost predicate Leads(s: State, s': State)
  {
    exists q :: Path(q) && q[0] == s && q[|q| - 1] == s'
  }

  lemma LeadsNone(s: State)
    ensures Leads(s, s)
  {
    assert Path([s]);
  }

  lemma LeadsOne(s: State, s': State)
    requires Next(s, s')
    ensures Leads(s, s')
  {
    hide Next;
    assert Path([s, s']);
  }

  lemma LeadsOn(s: State, mid: State, s': State)
    requires Leads(s, mid) && Leads(mid, s')
    ensures Leads(s, s')
  {
    hide Next;
    var a :| Path(a) && a[0] == s && a[|a| - 1] == mid;
    var b :| Path(b) && b[0] == mid && b[|b| - 1] == s';
    var q := a + b[1..];
    forall i | 0 <= i < |q| - 1
      ensures Next(q[i], q[i + 1])
    {
      if i < |a| - 1 {
        assert Next(a[i], a[i + 1]);
      } else {
        assert Next(b[i - |a| + 1], b[i - |a| + 1 + 1]);
      }
    }
    assert Path(q);
  }

  function With(s: State, t: Task, r: TaskRec): State
  {
    s.(tasks := s.tasks[t := r])
  }

  /** A step of t alone. */
  lemma Alone(s: State, t: Task, r: TaskRec)
    requires Inv(s) && t in s.tasks && TaskStep(s.tasks[t], r)
    ensures Leads(s, With(s, t, r)) && Inv(With(s, t, r))
  {
    hide Inv, TaskStep, Enqueue, Schedule, Leads;
    assert Solo(s, With(s, t, r), t);
    LeadsOne(s, With(s, t, r));
    NextInv(s, With(s, t, r));
  }

  /** t, whose record is r, is in the state to which steps lead from s. */
  ghost predicate To(s: State, s': State, t: Task, r: TaskRec)
  {
    Leads(s, s') && Inv(s') && s'.cpus.Keys == s.cpus.Keys && t in s'.tasks && s'.tasks[t] == r
  }

  lemma ToOn(s: State, mid: State, s': State, t: Task, r: TaskRec, r': TaskRec)
    requires To(s, mid, t, r) && To(mid, s', t, r')
    ensures To(s, s', t, r')
  {
    hide Leads, Inv;
    LeadsOn(s, mid, s');
  }

  /** A claimed task is inserted, on any CPU. */
  lemma Insert(s: State, t: Task, c: Cpu) returns (s': State)
    requires Inv(s) && t in s.tasks && c in s.cpus && Claimed(s.tasks[t])
    ensures To(s, s', t, Arrived(s.tasks[t], c)) && s'.cpus[c].current == s.cpus[c].current
    ensures s'.tasks == s.tasks[t := Arrived(s.tasks[t], c)]
  {
    hide Inv, Leads, Schedule, Solo;
    TaskAt(s, t);
    RqAt(s, c);
    var r, rq := s.tasks[t], s.cpus[c];
    s' := State(s.cpus[c := Rq(Push(rq.queues, r.prio, t), rq.load + 1, rq.current)], s.tasks[t := Arrived(r, c)]);
    assert Enqueue(s, s', t, c);
    LeadsOne(s, s');
    NextInv(s, s');
  }

  lemma PendingOff(r: TaskRec)
    requires Handshake(r) && r.place.Off? && r.pending
    ensures !r.finish.FStore? ==> !r.onCpu && (r.finish.FSwap? || r.atLoad + r.atSwap > 0)
  {
  }

  /** A task that has left its CPU with a wakeup pending is claimed, by the end of the context
      switch or by a waker. */
  lemma Claim(s: State, t: Task) returns (s': State, r: TaskRec)
    requires Inv(s) && t in s.tasks && s.tasks[t].place.Off? && s.tasks[t].pending
    ensures To(s, s', t, r) && Claimed(r) && r.enqueues == s.tasks[t].enqueues
    decreases s.tasks[t].finish.FStore?, s.tasks[t].atSwap == 0
  {
    hide Inv, Leads, Handshake;
    TaskAt(s, t);
    var a := s.tasks[t];
    PendingOff(a);
    if a.finish.FStore? {
      var b := a.(finish := FSwap(a.finish.cpu), onCpu := false);
      Alone(s, t, b);
      s', r := Claim(With(s, t, b), t);
      ToOn(s, With(s, t, b), s', t, b, r);
    } else if a.finish.FSwap? {
      r := a.(pending := false, finish := FEnqueue(a.finish.cpu));
      s' := With(s, t, r);
      Alone(s, t, r);
    } else if a.atSwap > 0 {
      r := a.(pending := false, atSwap := a.atSwap - 1, atEnqueue := a.atEnqueue + 1);
      s' := With(s, t, r);
      Alone(s, t, r);
    } else {
      var b := a.(atLoad := a.atLoad - 1, atSwap := a.atSwap + 1);
      Alone(s, t, b);
      s', r := Claim(With(s, t, b), t);
      ToOn(s, With(s, t, b), s', t, b, r);
    }
  }

  /** d is inside finish_context_switch for this task. */
  predicate Unsettled(r: TaskRec, d: Cpu)
  {
    r.fading == Some(d) || (!r.finish.NoFinish? && r.finish.cpu == d)
  }

  /** How much of finish_context_switch is left. */
  function Rest(r: TaskRec): nat
  {
    (if r.fading.Some? then 1 else 0)
    + match r.finish case NoFinish => 0 case FEnqueue(_) => 1 case FSwap(_) => 2 case FStore(_) => 3
  }

  /** d comes to the end of finish_context_switch for u. */
  lemma SettleTask(s: State, u: Task, d: Cpu, c: Cpu) returns (s': State)
    requires Inv(s) && u in s.tasks && c in s.cpus
    ensures u in s'.tasks && To(s, s', u, s'.tasks[u]) && !Unsettled(s'.tasks[u], d)
    ensures s'.tasks == s.tasks[u := s'.tasks[u]]
    decreases Rest(s.tasks[u])
  {
    hide Inv, Leads;
    var r := s.tasks[u];
    if !Unsettled(r, d) {
      LeadsNone(s);
      return s;
    }
    var mid;
    if r.finish.FEnqueue? && r.fading == None {
      TaskAt(s, u);
      mid := Insert(s, u, c);
    } else {
      var r' := if r.fading.Some? then r.(fading := None, onCpu := false)
                else if r.finish.FStore? then r.(finish := FSwap(r.finish.cpu), onCpu := false)
                else if r.pending then r.(pending := false, finish := FEnqueue(r.finish.cpu))
                else r.(finish := NoFinish);
      Alone(s, u, r');
      mid := With(s, u, r');
    }
    s' := SettleTask(mid, u, d, c);
    ToOn(s, mid, s', u, mid.tasks[u], s'.tasks[u]);
  }

  ghost function Busy(s: State, d: Cpu): set<Task>
  {
    set u | u in s.tasks && Unsettled(s.tasks[u], d)
  }

  /** d comes out of finish_context_switch; a task for which it is not in there is left alone. */
  lemma Settle(s: State, t: Task, d: Cpu, c: Cpu) returns (s': State)
    requires Inv(s) && t in s.tasks && c in s.cpus && !Unsettled(s.tasks[t], d)
    ensures To(s, s', t, s.tasks[t]) && Settled(s', d)
    decreases Busy(s, d)
  {
    hide Inv, Leads, Unsettled;
    if u :| u in s.tasks && Unsettled(s.tasks[u], d) {
      var mid := SettleTask(s, u, d, c);
      assert u in Busy(s, d) && u !in Busy(mid, d);
      s' := Settle(mid, t, d, c);
      LeadsOn(s, mid, s');
    } else {
      s' := s;
      LeadsNone(s);
      SettledAll(s, d);
    }
  }

  lemma SettledAll(s: State, d: Cpu)
    requires forall u :: u in s.tasks ==> !Unsettled(s.tasks[u], d)
    ensures Settled(s, d)
  {
    forall u | u in s.tasks
      ensures s.tasks[u].fading != Some(d) && (s.tasks[u].finish.NoFinish? || s.tasks[u].finish.cpu != d)
    {
      assert !Unsettled(s.tasks[u], d);
    }
  }

  lemma {:induction false} Highest(qs: seq<seq<Task>>) returns (p: nat)
    requires !AllEmpty(qs)
    ensures Picks(qs, p)
  {
    var n := |qs| - 1;
    if qs[n] != [] {
      p := n;
    } else {
      p := Highest(qs[..n]);
    }
  }

  /** A blocked task leaves its CPU. */
  lemma Depart(s: State, t: Task, d: Cpu) returns (s': State)
    requires Inv(s) && t in s.tasks && s.tasks[t].place == Current(d) && !s.tasks[t].runnable && d in s.cpus
      && Settled(s, d)
    ensures To(s, s', t, Blocked(s.tasks[t], d))
  {
    hide Inv, Leads, Settled, Handshake, Total, NoRepeat, Solo, Enqueue;
    TaskAt(s, t);
    var rq := s.cpus[d];
    var mid := State(s.cpus[d := Rq(rq.queues, rq.load - 1, None)], s.tasks[t := Blocked(s.tasks[t], d)]);
    assert Leave(s, mid, d);
    LeaveInv(s, mid, d);
    RqAt(mid, d);
    forall p: nat | Picks(rq.queues, p)
      ensures rq.queues[p][0] != t
    {
      QueuedHere(mid, d, p);
    }
    assert !PicksAgain(s, mid, d);
    if AllEmpty(rq.queues) {
      s' := mid;
    } else {
      var p := Highest(rq.queues);
      var u := rq.queues[p][0];
      assert u in rq.queues[p];
      s' := State(mid.cpus[d := Rq(Pop(rq.queues, p), rq.load - 1, Some(u))],
        mid.tasks[u := Dispatched(mid.tasks[u], d)]);
      assert TakeFrom(mid, s', d, p);
    }
    assert Schedule(s, s', d);
    LeadsOne(s, s');
    NextInv(s, s');
  }

  lemma OwedHow(r: TaskRec)
    requires Handshake(r) && Owed(r) == 1
    ensures Claimed(r) || (r.atStore > 0 && !r.pending) || (r.atStore == 0 && r.pending)
    ensures r.place.Off? || (r.armed && r.place.Current? && !Unsettled(r, r.place.cpu))
  {
  }

  /** The waker stores pending_wakeup. */
  lemma Signal(s: State, t: Task) returns (s': State, r: TaskRec)
    requires Inv(s) && t in s.tasks && Owed(s.tasks[t]) == 1 && !Claimed(s.tasks[t])
    ensures To(s, s', t, r) && r.pending && Owed(r) == 1 && r.enqueues == s.tasks[t].enqueues
  {
    hide Inv, Leads, Handshake;
    TaskAt(s, t);
    r := s.tasks[t];
    OwedHow(r);
    if r.pending {
      s' := s;
      LeadsNone(s);
    } else {
      r := r.(pending := true, atStore := r.atStore - 1, atLoad := r.atLoad + 1);
      s' := With(s, t, r);
      Alone(s, t, r);
    }
  }

  /** The task goes to sleep, if it has not yet done so. */
  lemma FallAsleep(s: State, t: Task, c: Cpu) returns (s': State, r: TaskRec)
    requires Inv(s) && t in s.tasks && c in s.cpus && s.tasks[t].pending && Owed(s.tasks[t]) == 1
    ensures To(s, s', t, r) && r.place.Off? && r.pending && r.enqueues == s.tasks[t].enqueues
  {
    hide Inv, Leads, Handshake, Settled, Unsettled;
    TaskAt(s, t);
    r := s.tasks[t];
    OwedHow(r);
    if r.place.Off? {
      s' := s;
      LeadsNone(s);
    } else {
      var d, b := r.place.cpu, r.(runnable := false);
      var mid := With(s, t, b);
      Alone(s, t, b);
      BlockSettled(r, d);
      var mid' := Settle(mid, t, d, c);
      ToOn(s, mid, mid', t, b, b);
      TaskAt(mid', t);
      s' := Depart(mid', t, d);
      r := Blocked(b, d);
      ToOn(s, mid', s', t, b, r);
    }
  }

  lemma BlockSettled(r: TaskRec, d: Cpu)
    ensures Unsettled(r.(runnable := false), d) <==> Unsettled(r, d)
  {
  }

  /** From every state in which a task is owed an insertion there is a way on to it, on any CPU. */
  lemma WayFrom(s: State, t: Task, c: Cpu) returns (s': State, r: TaskRec)
    requires Inv(s) && t in s.tasks && c in s.cpus && Owed(s.tasks[t]) == 1
    ensures To(s, s', t, r) && r.place == Queued(c) && r.enqueues == s.tasks[t].enqueues + 1
  {
    hide Inv, Leads, Handshake, Owed;
    if Claimed(s.tasks[t]) {
      s' := Insert(s, t, c);
      r := s'.tasks[t];
    } else {
      var a, ra := Signal(s, t);
      var b, rb := FallAsleep(a, t, c);
      ToOn(s, a, b, t, ra, rb);
      var e, re := Claim(b, t);
      ToOn(s, b, e, t, rb, re);
      s' := Insert(e, t, c);
      r := s'.tasks[t];
      ToOn(s, e, s', t, re, r);
    }
  }

  /** Every run in which a wakeup of t has not yet led to its insertion can go on to it. */
  lemma WayOn(run: seq<State>, t: Task, c: Cpu) returns (on: seq<State>)
    requires Run(run) && t in run[|run| - 1].tasks && c in run[|run| - 1].cpus
    requires run[|run| - 1].tasks[t].wakes > run[|run| - 1].tasks[t].enqueues
    ensures Run(on) && run <= on && t in on[|on| - 1].tasks && on[|on| - 1].tasks[t].place == Queued(c)
    ensures on[|on| - 1].tasks[t].enqueues == run[|run| - 1].tasks[t].enqueues + 1
  {
    hide Next, Inv, Handshake, Owed, Init;
    var s := run[|run| - 1];
    RunInv(run, |run| - 1);
    OneEnqueuePerWake(run, |run| - 1, t);
    var s', r := WayFrom(s, t, c);
    var q :| Path(q) && q[0] == s && q[|q| - 1] == s';
    on := run + q[1..];
    forall i | 0 <= i < |on| - 1
      ensures Next(on[i], on[i + 1])
    {
      if i < |run| - 1 {
        assert Next(run[i], run[i + 1]);
      } else {
        assert Next(q[i - |run| + 1], q[i - |run| + 1 + 1]);
      }
    }
  }

  // ---- where publishing goes wrong ---------------------------------------------------------------

  /** Two CPUs and one task. */
  function World(a: Rq, b: Rq, r: TaskRec): State
  {
    State(map[0 := a, 1 := b], map[0 := r])
  }

  function Idling(): Rq
  {
    Rq(seq(PRIORITIES, _ => []), 0, None)
  }

  function Waiting(): Rq
  {
    Rq(Push(Idling().queues, 0, 0), 1, None)
  }

  function Running(): Rq
  {
    Rq(Idling().queues, 1, Some(0))
  }

  lemma RunOn(run: seq<State>, s: State) returns (on: seq<State>)
    requires Run(run) && Next(run[|run| - 1], s)
    ensures Run(on) && on[|on| - 1] == s
  {
    hide Next, Init;
    on := run + [s];
    forall i | 0 <= i < |on| - 1
      ensures Next(on[i], on[i + 1])
    {
      if i < |run| - 1 { assert Next(run[i], run[i + 1]); }
    }
  }

  /** A step of the task alone. */
  lemma RunTask(run: seq<State>, a: Rq, b: Rq, r: TaskRec, r': TaskRec) returns (on: seq<State>)
    requires Run(run) && run[|run| - 1] == World(a, b, r) && TaskStep(r, r')
    ensures Run(on) && on[|on| - 1] == World(a, b, r')
  {
    hide Run, TaskStep, Schedule, Enqueue;
    assert Solo(World(a, b, r), World(a, b, r'), 0) by { assert map[0 := r][0 := r'] == map[0 := r']; }
    on := RunOn(run, World(a, b, r'));
  }

  /** A waker consumes the current ticket and stores pending_wakeup. */
  lemma RunSignal(run: seq<State>, a: Rq, b: Rq, r: TaskRec) returns (on: seq<State>)
    requires Run(run) && run[|run| - 1] == World(a, b, r) && Live(r) && r.atStore == 0
    ensures Run(on) && on[|on| - 1] == World(a, b, Stored(r))
  {
    hide Run, World;
    var r1 := r.(ticket := r.ticket + 1, wakes := r.wakes + 1, atStore := 1);
    on := RunTask(run, a, b, r, r1);
    on := RunTask(on, a, b, r1, Stored(r));
  }

  /** Then it claims the insertion. */
  lemma RunWaker(run: seq<State>, a: Rq, b: Rq, r: TaskRec) returns (on: seq<State>)
    requires Run(run) && run[|run| - 1] == World(a, b, r) && Live(r) && !r.onCpu && !r.pending
      && r.atStore == r.atSwap == 0
    ensures Run(on) && on[|on| - 1] == World(a, b, r.(ticket := r.ticket + 1, wakes := r.wakes + 1,
      atEnqueue := r.atEnqueue + 1))
  {
    hide Run, World;
    on := RunSignal(run, a, b, r);
    var r2 := Stored(r).(atLoad := r.atLoad, atSwap := 1);
    on := RunTask(on, a, b, Stored(r), r2);
    on := RunTask(on, a, b, r2, r2.(pending := false, atSwap := 0, atEnqueue := r.atEnqueue + 1));
  }

  /** CPU c is in the state rq, the other one idles. */
  function At(c: Cpu, rq: Rq, r: TaskRec): State
  {
    if c == 0 then World(rq, Idling(), r) else World(Idling(), rq, r)
  }

  lemma InsertStep(c: Cpu, r: TaskRec)
    requires Claimed(r) && r.prio == 0 && c < 2
    ensures Enqueue(World(Idling(), Idling(), r), At(c, Waiting(), Arrived(r, c)), 0, c)
  {
    hide Arrived;
  }

  lemma TakeStep(c: Cpu, r: TaskRec)
    requires c < 2
    ensures c in At(c, Waiting(), r).cpus && TakeFrom(At(c, Waiting(), r), At(c, Running(), Dispatched(r, c)), c, 0)
  {
    PopWaiting();
  }

  /** The task is inserted on an idle CPU, which then runs it. */
  lemma RunInserted(run: seq<State>, c: Cpu, r: TaskRec) returns (on: seq<State>)
    requires Run(run) && run[|run| - 1] == World(Idling(), Idling(), r) && Claimed(r) && r.prio == 0 && c < 2
    requires r.fading == None && (Arrived(r, c).finish.NoFinish? || r.finish.cpu != c)
    ensures Run(on) && on[|on| - 1] == At(c, Running(), Dispatched(Arrived(r, c), c))
  {
    hide Run, Next, Schedule, Enqueue, TakeFrom, Dispatched;
    var s, r1 := World(Idling(), Idling(), r), Arrived(r, c);
    var s1, s2 := At(c, Waiting(), r1), At(c, Running(), Dispatched(r1, c));
    InsertStep(c, r);
    NextEnqueue(s, s1, 0, c);
    on := RunOn(run, s1);
    TakeStep(c, r1);
    NextTake(s1, s2, c, 0);
    on := RunOn(on, s2);
  }

  lemma NextEnqueue(s: State, s': State, t: Task, c: Cpu)
    requires Enqueue(s, s', t, c)
    ensures Next(s, s')
  {
    hide Enqueue, Solo, Schedule;
  }

  /** An idle CPU takes a task. */
  lemma NextTake(s: State, s': State, c: Cpu, p: nat)
    requires c in s.cpus && s.cpus[c].current == None && Settled(s, c) && TakeFrom(s, s', c, p)
    ensures Next(s, s')
  {
    hide TakeFrom, Enqueue, Solo, Settled;
    assert Leave(s, s, c) && Take(s, s', c);
    assert Schedule(s, s', c);
  }

  lemma PopWaiting()
    ensures Waiting().queues[0] == [0] && Pop(Waiting().queues, 0) == Idling().queues
  {
    assert [] + [0] == [0];
    assert [0][1..] == [];
    var q := Pop(Waiting().queues, 0);
    assert forall i :: 0 <= i < PRIORITIES ==> q[i] == [];
  }

  /** The task on CPU 0 blocks and CPU 0 goes idle. */
  lemma RunBlocks(run: seq<State>, r: TaskRec) returns (on: seq<State>)
    requires Run(run) && run[|run| - 1] == World(Running(), Idling(), r) && !r.runnable && r.finish == NoFinish
      && r.fading == None
    ensures Run(on) && on[|on| - 1] == World(Idling(), Idling(), Blocked(r, 0))
  {
    hide Run;
    var s, s1 := World(Running(), Idling(), r), World(Idling(), Idling(), Blocked(r, 0));
    assert Leave(s, s1, 0);
    assert AllEmpty(s1.cpus[0].queues);
    assert !PicksAgain(s, s1, 0) && Take(s1, s1, 0);
    assert Schedule(s, s1, 0);
    on := RunOn(run, s1);
  }

  /** A run in which the task has gone to sleep on CPU 0, whose context switch is not over. */
  lemma FirstSleep() returns (run: seq<State>, r: TaskRec)
    ensures Run(run) && run[|run| - 1] == World(Idling(), Idling(), r)
    ensures r == TaskRec(0, Off, false, false, true, false, 2, {0, 2}, 0, 0, 0, 0, FStore(0), None, 1, 1)
  {
    hide Run, World;
    var a, n := Idling(), NewTask(0);
    run := FirstState();
    run := RunWaker(run, a, a, n);
    var c := n.(ticket := 1, wakes := 1, atEnqueue := 1);
    run := RunInserted(run, 0, c);
    var d := Dispatched(Arrived(c, 0), 0);
    run := RunTask(run, Running(), a, d, Published(d));
    run := RunTask(run, Running(), a, Published(d), Published(d).(runnable := false));
    run := RunBlocks(run, Published(d).(runnable := false));
    r := Blocked(Published(d).(runnable := false), 0);
    assert {0} + {2} == {0, 2};
  }

  /** A run that ends where LateFinishRace starts: the task runs on CPU 1 while CPU 0 has yet to
      look at pending_wakeup for its last sleep. */
  lemma LateFinishReachable() returns (run: seq<State>, r: TaskRec)
    ensures Run(run) && run[|run| - 1].tasks == map[0 := r]
    ensures Handshake(r) && r.place == Current(1) && !r.armed && r.atSwap == 0 && r.finish == FSwap(0)
  {
    hide Run, World, Handshake;
    var a, e := Idling(), NewTask(0);
    run, e := FirstSleep();
    var f := e.(onCpu := false, finish := FSwap(0));
    run := RunTask(run, a, a, e, f);
    run := RunWaker(run, a, a, f);
    var g := f.(ticket := 3, wakes := 2, atEnqueue := 1);
    run := RunInserted(run, 1, g);
    r := Dispatched(Arrived(g, 1), 1);
    EndState(run, r);
  }

  /** A waker sees the task off its CPU, but the end of the context switch claims it. */
  lemma RunSwitchWins(run: seq<State>, r: TaskRec, r': TaskRec) returns (on: seq<State>)
    requires Run(run) && run[|run| - 1] == World(Idling(), Idling(), r) && Live(r) && r.finish == FStore(0)
    requires r.atStore == r.atLoad == r.atSwap == 0 && !r.pending
    requires r' == r.(ticket := r.ticket + 1, wakes := r.wakes + 1, atSwap := 1, onCpu := false, finish := FEnqueue(0))
    ensures Run(on) && on[|on| - 1] == World(Idling(), Idling(), r')
  {
    hide Run, World;
    var a, e := Idling(), Stored(r);
    on := RunSignal(run, a, a, r);
    var f := e.(onCpu := false, finish := FSwap(0));
    on := RunTask(on, a, a, e, f);
    var g := f.(atLoad := 0, atSwap := 1);
    on := RunTask(on, a, a, f, g);
    on := RunTask(on, a, a, g, r');
  }

  /** A run that ends where LateWakerRace starts: the task runs on CPU 1, the context switch of
      its last sleep is over, and the waker of that sleep has yet to swap pending_wakeup. */
  lemma LateWakerReachable() returns (run: seq<State>, r: TaskRec)
    ensures Run(run) && run[|run| - 1].tasks == map[0 := r]
    ensures Handshake(r) && r.place == Current(1) && !r.armed && r.atSwap == 1 && r.finish == NoFinish
  {
    hide Run, World, Handshake;
    var a, e := Idling(), NewTask(0);
    run, e := FirstSleep();
    var h := e.(ticket := 3, wakes := 2, atSwap := 1, onCpu := false, finish := FEnqueue(0));
    run := RunSwitchWins(run, e, h);
    run := RunInserted(run, 1, h);
    r := Dispatched(Arrived(h, 1), 1);
    EndState(run, r);
  }

  lemma FirstState() returns (run: seq<State>)
    ensures Run(run) && run[|run| - 1] == World(Idling(), Idling(), NewTask(0))
  {
    run := [World(Idling(), Idling(), NewTask(0))];
  }

  lemma EndState(run: seq<State>, r: TaskRec)
    requires Run(run) && run[|run| - 1] == World(Idling(), Running(), r)
    ensures run[|run| - 1].tasks == map[0 := r] && Handshake(r)
  {
    hide Handshake, Next;
    RunInv(run, |run| - 1);
    assert 0 in run[|run| - 1].tasks;
  }
}
