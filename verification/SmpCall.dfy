/**
  Cross-CPU calls (kernel/smp.cc) as a transition system: any number of calls to one target
  CPU, its callback list, the interrupt that announces it and the handler that empties it.
 */
module SmpCall {
  import opened Basics

  type Call = nat

  /** A call: not made; posted on an empty list, so the caller has yet to send the interrupt;
      waiting for completion; returned, so that its record is gone. */
  datatype Pc = Unmade | Sending | Waiting | Returned

  /** runs counts how often the function was called. */
  datatype Rec = Rec(pc: Pc, runs: nat, completed: bool)

  /** The handler on the target CPU: not running, about to adopt the list, with calls still
      to run, or having run a call that it has yet to complete. */
  datatype Handler = Off | Adopting | Serving(todo: seq<Call>) | Completing(call: Call, rest: seq<Call>)

  datatype State = State(list: seq<Call>, ipi: bool, handler: Handler, calls: map<Call, Rec>)

  // ---- the steps -------------------------------------------------------------------------------

  /** smp_call_on_cpu puts the record on the list, under the lock. */
  ghost predicate Post(s: State, s': State, c: Call)
  {
    && c in s.calls && s.calls[c] == Rec(Unmade, 0, false)
    && s' == s.(list := s.list + [c], calls := s.calls[c := Rec(if s.list == [] then Sending else Waiting, 0, false)])
  }

  /** arch_send_smp_call_on_one_IPI. */
  ghost predicate Send(s: State, s': State, c: Call)
  {
    && c in s.calls && s.calls[c].pc == Sending
    && s' == s.(ipi := true, calls := s.calls[c := s.calls[c].(pc := Waiting)])
  }

  /** wait_for_call_on_cpu sees the completion; the record goes out of scope. */
  ghost predicate Return(s: State, s': State, c: Call)
  {
    && c in s.calls && s.calls[c].pc == Waiting && s.calls[c].completed
    && s' == s.(calls := s.calls[c := s.calls[c].(pc := Returned)])
  }

  ghost predicate Deliver(s: State, s': State)
  {
    s.ipi && s.handler == Off && s' == s.(ipi := false, handler := Adopting)
  }

  ghost predicate Adopt(s: State, s': State)
  {
    s.handler == Adopting && s' == s.(list := [], handler := Serving(s.list))
  }

  /** The handler takes the first call off its list and calls the function. */
  ghost predicate Serve(s: State, s': State)
  {
    && s.handler.Serving? && s.handler.todo != [] && s.handler.todo[0] in s.calls
    && var c := s.handler.todo[0];
    s' == s.(handler := Completing(c, s.handler.todo[1..]),
             calls := s.calls[c := s.calls[c].(runs := s.calls[c].runs + 1)])
  }

  /** complete_call_on_cpu: the last access to the record. */
  ghost predicate Complete(s: State, s': State)
  {
    && s.handler.Completing? && s.handler.call in s.calls
    && var c := s.handler.call;
    s' == s.(handler := Serving(s.handler.rest), calls := s.calls[c := s.calls[c].(completed := true)])
  }

  ghost predicate Finish(s: State, s': State)
  {
    s.handler == Serving([]) && s' == s.(handler := Off)
  }

  ghost predicate Next(s: State, s': State)
  {
    || (exists c :: Post(s, s', c)) || (exists c :: Send(s, s', c)) || (exists c :: Return(s, s', c))
    || Deliver(s, s') || Adopt(s, s') || Serve(s, s') || Complete(s, s') || Finish(s, s')
  }

  ghost predicate Init(s: State)
  {
    s.list == [] && !s.ipi && s.handler == Off && forall c :: c in s.calls ==> s.calls[c] == Rec(Unmade, 0, false)
  }

  // ---- the invariant ---------------------------------------------------------------------------

  /** The calls the handler has still to run, then those on the list. */
  function Outstanding(s: State): seq<Call>
  {
    (match s.handler
     case Serving(todo) => todo
     case Completing(_, rest) => rest
     case _ => []) + s.list
  }

  predicate Posted(r: Rec)
  {
    r.pc == Sending || r.pc == Waiting
  }

  /** Run, but not yet complete. */
  predicate Ran(r: Rec)
  {
    Posted(r) && r.runs == 1 && !r.completed
  }

  predicate Current(s: State, c: Call)
  {
    s.handler.Completing? && s.handler.call == c
  }

  /** A call that is (out) still to be run, or (cur) run but not complete, and its record. */
  predicate CallOk(out: bool, cur: bool, r: Rec)
  {
    && !(out && cur)
    && (out ==> Posted(r) && r.runs == 0 && !r.completed)
    && (cur ==> Ran(r))
    && (Posted(r) && !r.completed ==> out || cur)
    && (r.completed ==> r.runs == 1)
    && (r.pc == Unmade ==> r.runs == 0 && !r.completed)
    && (r.pc == Returned ==> r.completed)
  }

  ghost predicate CallsOk(s: State)
  {
    forall c :: c in s.calls ==> CallOk(c in Outstanding(s), Current(s, c), s.calls[c])
  }

  ghost predicate HeadOk(s: State)
  {
    s.list != [] ==> s.ipi || s.handler == Adopting || (s.list[0] in s.calls && s.calls[s.list[0]].pc == Sending)
  }

  ghost predicate Inv(s: State)
  {
    && NoRepeat(Outstanding(s)) && CallsOk(s) && HeadOk(s)
    && (forall c :: c in Outstanding(s) ==> c in s.calls) && (s.handler.Completing? ==> s.handler.call in s.calls)
  }

  /** A step that concerns one call leaves the others as they are. */
  lemma OthersOk(s: State, s': State, c: Call)
    requires CallsOk(s) && c in s.calls && s'.calls.Keys == s.calls.Keys
    requires forall d :: d in s.calls && d != c ==>
      s'.calls[d] == s.calls[d] && (d in Outstanding(s') <==> d in Outstanding(s))
        && (Current(s', d) <==> Current(s, d))
    requires CallOk(c in Outstanding(s'), Current(s', c), s'.calls[c])
    ensures CallsOk(s')
  {
    hide Outstanding, CallOk;
  }

  lemma PostInv(s: State, s': State, c: Call)
    requires Inv(s) && Post(s, s', c)
    ensures Inv(s')
  {
    hide NoRepeat;
    assert Outstanding(s') == Outstanding(s) + [c];
    assert CallOk(c in Outstanding(s), Current(s, c), s.calls[c]);
    NoRepeatEnd(Outstanding(s), c);
    OthersOk(s, s', c);
  }

  lemma SendInv(s: State, s': State, c: Call)
    requires Inv(s) && (Send(s, s', c) || Return(s, s', c))
    ensures Inv(s')
  {
    hide NoRepeat;
    assert Outstanding(s') == Outstanding(s);
    assert CallOk(c in Outstanding(s), Current(s, c), s.calls[c]);
    OthersOk(s, s', c);
    if s.list != [] { assert s.list[0] in Outstanding(s); }
  }

  lemma ServeInv(s: State, s': State)
    requires Inv(s) && Serve(s, s')
    ensures Inv(s')
  {
    hide NoRepeat;
    var c := s.handler.todo[0];
    assert Outstanding(s) == [c] + Outstanding(s');
    assert CallOk(c in Outstanding(s), Current(s, c), s.calls[c]);
    NoRepeatRest(Outstanding(s));
    OthersOk(s, s', c);
    if s.list != [] { assert s.list[0] in Outstanding(s'); }
  }

  lemma CompleteInv(s: State, s': State)
    requires Inv(s) && Complete(s, s')
    ensures Inv(s')
  {
    hide NoRepeat;
    var c := s.handler.call;
    assert Outstanding(s') == Outstanding(s);
    assert CallOk(c in Outstanding(s), Current(s, c), s.calls[c]);
    OthersOk(s, s', c);
    if s.list != [] { assert s.list[0] in Outstanding(s'); }
  }

  /** Steps that move the calls as they are. */
  lemma StillInv(s: State, s': State)
    requires Inv(s) && (Finish(s, s') || Deliver(s, s') || Adopt(s, s'))
    ensures Inv(s')
  {
    hide NoRepeat, CallOk;
    assert Outstanding(s') == Outstanding(s);
    assert forall c :: Current(s', c) <==> Current(s, c);
  }

  lemma NextInv(s: State, s': State)
    requires Inv(s) && Next(s, s')
    ensures Inv(s')
  {
    hide Inv, Post, Send, Return, Deliver, Adopt, Serve, Complete, Finish;
    if c :| Post(s, s', c) {
      PostInv(s, s', c);
    } else if c :| Send(s, s', c) {
      SendInv(s, s', c);
    } else if c :| Return(s, s', c) {
      SendInv(s, s', c);
    } else if Serve(s, s') {
      ServeInv(s, s');
    } else if Complete(s, s') {
      CompleteInv(s, s');
    } else {
      StillInv(s, s');
    }
  }

  // ---- whole runs ------------------------------------------------------------------------------

  ghost predicate Run(r: seq<State>)
  {
    |r| > 0 && Init(r[0]) && forall i {:trigger r[i]} :: 0 <= i < |r| - 1 ==> Next(r[i], r[i + 1])
  }

  lemma {:induction false} RunInv(r: seq<State>, i: nat)
    requires Run(r) && i < |r|
    ensures Inv(r[i])
    decreases i
  {
    hide Next, Inv;
    if i == 0 {
      InitInv(r[0]);
    } else {
      RunInv(r, i - 1);
      assert Next(r[i - 1], r[i - 1 + 1]);
      NextInv(r[i - 1], r[i]);
    }
  }

  lemma InitInv(s: State)
    requires Init(s)
    ensures Inv(s)
  {
    assert Outstanding(s) == [];
  }

  /** No call is run twice, a call that returns has been run once, and a posted call that is
      not complete is still on the list or with the handler. */
  lemma RunsOnce(r: seq<State>, i: nat, c: Call)
    requires Run(r) && i < |r| && c in r[i].calls
    ensures r[i].calls[c].runs <= 1
    ensures r[i].calls[c].pc == Returned ==> r[i].calls[c].runs == 1
    ensures Posted(r[i].calls[c]) && !r[i].calls[c].completed ==>
      c in Outstanding(r[i]) || Current(r[i], c)
  {
    hide NoRepeat, Outstanding;
    RunInv(r, i);
    assert CallOk(c in Outstanding(r[i]), Current(r[i], c), r[i].calls[c]);
  }

  /** A list that is not empty has an interrupt pending or about to be sent, or the handler
      is about to adopt it. */
  lemma Announced(r: seq<State>, i: nat)
    requires Run(r) && i < |r| && r[i].list != []
    ensures r[i].ipi || r[i].handler == Adopting
      || (r[i].list[0] in r[i].calls && r[i].calls[r[i].list[0]].pc == Sending)
  {
    hide NoRepeat, Outstanding;
    RunInv(r, i);
  }

  /** The handler never has to do with a record that is complete or whose caller returned. */
  lemma NeverTouchesDone(r: seq<State>, i: nat, c: Call)
    requires Run(r) && i < |r| && c in r[i].calls && (r[i].calls[c].completed || r[i].calls[c].pc == Returned)
    ensures c !in Outstanding(r[i]) && !Current(r[i], c)
  {
    hide NoRepeat, Outstanding;
    RunInv(r, i);
    assert CallOk(c in Outstanding(r[i]), Current(r[i], c), r[i].calls[c]);
  }

  // ---- no call is stuck ------------------------------------------------------------------------

  /** A continuation from s. */
  ghost predicate Steps(p: seq<State>, s: State)
  {
    |p| > 0 && p[0] == s && forall i {:trigger p[i]} :: 0 <= i < |p| - 1 ==> Next(p[i], p[i + 1])
  }

  lemma StepsPrepend(s: State, s1: State, p: seq<State>)
    requires Next(s, s1) && Steps(p, s1)
    ensures Steps([s] + p, s) && ([s] + p)[|p|] == p[|p| - 1]
  {
    hide Next;
    var q := [s] + p;
    forall i | 0 <= i < |q| - 1
      ensures Next(q[i], q[i + 1])
    {
      if i > 0 { assert q[i] == p[i - 1] && q[i + 1] == p[i]; }
    }
  }

  function IndexIn(q: seq<Call>, c: Call): (i: nat)
    requires c in q
    ensures i < |q| && q[i] == c
  {
    if q[0] == c then 0 else 1 + IndexIn(q[1..], c)
  }

  function Phase(s: State): nat
  {
    match s.handler
    case Off => if s.ipi then 4 else 5
    case Adopting => 3
    case Serving(todo) => if todo == [] then 6 else 0
    case Completing(_, _) => 7
  }

  /** How far call c is from completion. */
  function Distance(s: State, c: Call): nat
  {
    (if c in Outstanding(s) then 10 * (1 + IndexIn(Outstanding(s), c)) else 0) + Phase(s)
  }

  lemma HandlerNext(s: State, s': State)
    requires Deliver(s, s') || Adopt(s, s') || Serve(s, s') || Complete(s, s') || Finish(s, s')
    ensures Next(s, s')
  {
  }

  lemma Nearer(s: State, s': State, c: Call)
    requires Outstanding(s') == Outstanding(s) && Phase(s') < Phase(s)
    ensures Distance(s', c) < Distance(s, c)
  {
    hide Outstanding, Phase, IndexIn;
  }

  /** The next step on the way to the completion of c. */
  lemma Approach(s: State, c: Call) returns (s': State)
    requires Inv(s) && c in s.calls && Posted(s.calls[c]) && !s.calls[c].completed
    ensures Next(s, s') && c in s'.calls
    ensures s'.calls[c].completed || (Posted(s'.calls[c]) && Distance(s', c) < Distance(s, c))
  {
    hide Next, Inv, Distance;
    match s.handler
    case Off =>
      s' := Announce(s, c);
    case Adopting =>
      s' := s.(list := [], handler := Serving(s.list));
      WaitsOnList(s, c);
      HandlerNext(s, s');
      assert Outstanding(s') == Outstanding(s);
      Nearer(s, s', c);
    case Serving(todo) =>
      if todo == [] {
        s' := s.(handler := Off);
        HandlerNext(s, s');
        assert Outstanding(s') == Outstanding(s);
        Nearer(s, s', c);
      } else {
        s' := ServeNext(s, c);
      }
    case Completing(call, rest) =>
      CurrentThere(s);
      s' := s.(handler := Serving(rest), calls := s.calls[call := s.calls[call].(completed := true)]);
      HandlerNext(s, s');
      assert Outstanding(s') == Outstanding(s);
      Nearer(s, s', c);
  }

  lemma CurrentThere(s: State)
    requires Inv(s) && s.handler.Completing?
    ensures s.handler.call in s.calls
  {
  }

  lemma WaitsOnList(s: State, c: Call)
    requires Inv(s) && c in s.calls && Posted(s.calls[c]) && !s.calls[c].completed
      && (s.handler == Off || s.handler == Adopting)
    ensures c in s.list && s.list != [] && HeadOk(s)
  {
    hide NoRepeat;
    assert CallOk(c in Outstanding(s), Current(s, c), s.calls[c]);
    assert Outstanding(s) == s.list;
  }

  /** With the handler off, the interrupt comes or is sent. */
  lemma Announce(s: State, c: Call) returns (s': State)
    requires Inv(s) && c in s.calls && Posted(s.calls[c]) && !s.calls[c].completed && s.handler == Off
    ensures Next(s, s') && c in s'.calls && Posted(s'.calls[c]) && Distance(s', c) < Distance(s, c)
  {
    hide Next, Inv, Distance;
    WaitsOnList(s, c);
    if s.ipi {
      s' := s.(ipi := false, handler := Adopting);
      HandlerNext(s, s');
    } else {
      var h := s.list[0];
      s' := s.(ipi := true, calls := s.calls[h := s.calls[h].(pc := Waiting)]);
      NextSend(s, s', h);
    }
    assert Outstanding(s') == Outstanding(s);
    Nearer(s, s', c);
  }

  lemma ServeNext(s: State, c: Call) returns (s': State)
    requires Inv(s) && c in s.calls && Posted(s.calls[c]) && !s.calls[c].completed && s.handler.Serving?
      && s.handler.todo != []
    ensures Next(s, s') && c in s'.calls && !s'.calls[c].completed && Posted(s'.calls[c])
      && Distance(s', c) < Distance(s, c)
  {
    hide NoRepeat;
    assert CallOk(c in Outstanding(s), Current(s, c), s.calls[c]);
    var h := s.handler.todo[0];
    assert h == Outstanding(s)[0];
    s' := s.(handler := Completing(h, s.handler.todo[1..]),
             calls := s.calls[h := s.calls[h].(runs := s.calls[h].runs + 1)]);
    assert Serve(s, s');
    assert Outstanding(s) == [h] + Outstanding(s');
    assert Outstanding(s)[1..] == Outstanding(s');
    NoRepeatRest(Outstanding(s));
  }

  /** The handler can complete any posted call without anything else being posted. */
  lemma {:induction false} CanComplete(s: State, c: Call) returns (p: seq<State>)
    requires Inv(s) && c in s.calls && Posted(s.calls[c])
    ensures Steps(p, s) && Inv(p[|p| - 1]) && c in p[|p| - 1].calls && Posted(p[|p| - 1].calls[c])
      && p[|p| - 1].calls[c].completed
    decreases if s.calls[c].completed then 0 else 1 + Distance(s, c)
  {
    hide Inv, Next, Distance;
    if s.calls[c].completed {
      p := [s];
    } else {
      var s1 := Approach(s, c);
      NextInv(s, s1);
      StaysPosted(s, s1, c);
      p := CanComplete(s1, c);
      StepsPrepend(s, s1, p);
      p := [s] + p;
    }
  }

  /** A call that is not complete does not return. */
  lemma StaysPosted(s: State, s': State, c: Call)
    requires Inv(s) && Next(s, s') && c in s.calls && Posted(s.calls[c]) && !s.calls[c].completed
    ensures c in s'.calls && Posted(s'.calls[c])
  {
    hide NoRepeat, Outstanding, CallsOk, HeadOk;
  }

  /** From every state of every run, every posted call can still be run and return. */
  lemma CanReturn(r: seq<State>, i: nat, c: Call) returns (p: seq<State>)
    requires Run(r) && i < |r| && c in r[i].calls && Posted(r[i].calls[c])
    ensures Steps(p, r[i]) && c in p[|p| - 1].calls && p[|p| - 1].calls[c].pc == Returned
      && p[|p| - 1].calls[c].runs == 1
  {
    hide Inv, Next, Run;
    RunInv(r, i);
    p := CanComplete(r[i], c);
    var e := p[|p| - 1];
    CompletedRan(e, c);
    if e.calls[c].pc == Sending {
      var e1 := e.(ipi := true, calls := e.calls[c := e.calls[c].(pc := Waiting)]);
      NextSend(e, e1, c);
      StepsAppend(p, r[i], e1);
      p, e := p + [e1], e1;
    }
    var e2 := e.(calls := e.calls[c := e.calls[c].(pc := Returned)]);
    NextReturn(e, e2, c);
    StepsAppend(p, r[i], e2);
    p := p + [e2];
  }

  lemma CompletedRan(s: State, c: Call)
    requires Inv(s) && c in s.calls && s.calls[c].completed
    ensures s.calls[c].runs == 1
  {
    hide Outstanding, NoRepeat;
    assert CallOk(c in Outstanding(s), Current(s, c), s.calls[c]);
  }

  lemma NextSend(s: State, s': State, c: Call)
    requires Send(s, s', c)
    ensures Next(s, s')
  {
  }

  lemma NextReturn(s: State, s': State, c: Call)
    requires Return(s, s', c)
    ensures Next(s, s')
  {
  }

  lemma StepsAppend(p: seq<State>, s: State, s': State)
    requires Steps(p, s) && Next(p[|p| - 1], s')
    ensures Steps(p + [s'], s)
  {
    hide Next;
    var q := p + [s'];
    forall i | 0 <= i < |q| - 1
      ensures Next(q[i], q[i + 1])
    {
      if i < |p| - 1 { assert q[i] == p[i] && q[i + 1] == p[i + 1]; }
    }
  }

  // ---- in the order of posting -------------------------------------------------------------------

  /** The calls that have been run are the same, but for those in `more`. */
  ghost predicate RunsMore(s: State, s': State, more: set<Call>)
  {
    forall c :: c in s.calls ==>
      c in s'.calls && s'.calls[c].runs == s.calls[c].runs + (if c in more then 1 else 0)
      && (s.calls[c].pc != Unmade ==> s'.calls[c].pc != Unmade)
  }

  lemma PostOut(s: State, s': State, c: Call)
    requires Post(s, s', c)
    ensures Outstanding(s') == Outstanding(s) + [c] && RunsMore(s, s', {})
  {
  }

  lemma ServeOut(s: State, s': State)
    requires Serve(s, s')
    ensures var q := Outstanding(s); q != [] && Outstanding(s') == q[1..] && RunsMore(s, s', {q[0]})
  {
    assert Outstanding(s') == Outstanding(s)[1..];
  }

  lemma OtherOut(s: State, s': State)
    requires (exists c :: Send(s, s', c)) || (exists c :: Return(s, s', c)) || Deliver(s, s') || Adopt(s, s')
      || Complete(s, s') || Finish(s, s')
    ensures Outstanding(s') == Outstanding(s) && RunsMore(s, s', {})
  {
    assert Outstanding(s') == Outstanding(s);
  }

  /** What a step does to the outstanding calls: nothing, or one joins at the end, or the first one
      is run. */
  lemma OutStep(s: State, s': State)
    requires Next(s, s')
    ensures var q, q' := Outstanding(s), Outstanding(s');
      || (q' == q && RunsMore(s, s', {}))
      || (exists c :: c in s.calls && s.calls[c].pc == Unmade && q' == q + [c] && RunsMore(s, s', {}))
      || (q != [] && q' == q[1..] && RunsMore(s, s', {q[0]}))
  {
    hide Outstanding, RunsMore, Send, Return, Deliver, Adopt, Serve, Complete, Finish;
    if c :| Post(s, s', c) {
      PostOut(s, s', c);
    } else if Serve(s, s') {
      ServeOut(s, s');
    } else {
      OtherOut(s, s');
    }
  }

  /** c was posted before d: c has been run if d has, and is before d as long as both wait. */
  ghost predicate InOrder(s: State, c: Call, d: Call)
  {
    && c in s.calls && d in s.calls && s.calls[c].pc != Unmade && (s.calls[d].runs > 0 ==> s.calls[c].runs > 0)
    && (c in Outstanding(s) && d in Outstanding(s) ==> Precedes(Outstanding(s), c, d))
  }

  lemma OrderStep(s: State, s': State, c: Call, d: Call)
    requires Inv(s) && Next(s, s') && InOrder(s, c, d) && c != d
    ensures InOrder(s', c, d)
  {
    hide Next, Precedes, Outstanding, NoRepeat;
    OutStep(s, s');
    OutOnce(s);
    NotWaiting(s, c);
    var q, q' := Outstanding(s), Outstanding(s');
    if q' == q && RunsMore(s, s', {}) {
    } else if x :| x in s.calls && s.calls[x].pc == Unmade && q' == q + [x] && RunsMore(s, s', {}) {
      PrecedesJoin(q, [x], c, d);
      PrecedesOne(x, c, d);
    } else {
      ServedOrder(q, c, d);
    }
  }

  lemma ServedOrder(q: seq<Call>, c: Call, d: Call)
    requires NoRepeat(q) && q != [] && c != d && (c in q && d in q ==> Precedes(q, c, d))
    ensures c in q && d in q ==> d != q[0]
    ensures c in q[1..] && d in q[1..] ==> Precedes(q[1..], c, d)
  {
    if c in q && d in q {
      var i, j :| 0 <= i < j < |q| && q[i] == c && q[j] == d;
      if i > 0 { assert q[1..][i - 1] == c && q[1..][j - 1] == d; }
    }
    if c in q[1..] && d in q[1..] { RestOrder(q, c, d); }
  }

  lemma OutOnce(s: State)
    requires Inv(s)
    ensures NoRepeat(Outstanding(s))
  {
  }

  /** A call that was made and is not outstanding has been run. */
  lemma NotWaiting(s: State, c: Call)
    requires Inv(s) && c in s.calls && s.calls[c].pc != Unmade
    ensures c !in Outstanding(s) ==> s.calls[c].runs > 0
  {
    hide NoRepeat, Outstanding;
    assert CallOk(c in Outstanding(s), Current(s, c), s.calls[c]);
  }

  /** Calls are run in the order in which they were posted. */
  lemma {:induction false} FirstPostedFirstRun(r: seq<State>, i: nat, j: nat, c: Call, d: Call)
    requires Run(r) && i <= j < |r| && c in r[i].calls && d in r[i].calls
    requires r[i].calls[c].pc != Unmade && r[i].calls[d].pc == Unmade
    ensures InOrder(r[j], c, d)
    decreases j
  {
    hide Next, Inv, InOrder, Init;
    if i == j {
      RunInv(r, i);
      NotPosted(r[i], c, d);
    } else {
      FirstPostedFirstRun(r, i, j - 1, c, d);
      RunInv(r, j - 1);
      assert Next(r[j - 1], r[j - 1 + 1]);
      OrderStep(r[j - 1], r[j], c, d);
    }
  }

  lemma NotPosted(s: State, c: Call, d: Call)
    requires Inv(s) && c in s.calls && d in s.calls && s.calls[c].pc != Unmade && s.calls[d].pc == Unmade
    ensures InOrder(s, c, d)
  {
    hide NoRepeat, Outstanding, Precedes;
    assert CallOk(d in Outstanding(s), Current(s, d), s.calls[d]);
  }

  // ---- one interrupt for all ---------------------------------------------------------------------

  /** Of the calls on the list only the first can still have to send the interrupt. */
  ghost predicate OthersWait(s: State)
  {
    forall k :: 0 < k < |s.list| ==> s.list[k] in s.calls && s.calls[s.list[k]].pc == Waiting
  }

  lemma OthersWaitStep(s: State, s': State)
    requires Inv(s) && OthersWait(s) && Next(s, s')
    ensures OthersWait(s')
  {
    hide NoRepeat, CallsOk, HeadOk;
    forall k | 0 < k < |s'.list|
      ensures s'.list[k] in s'.calls && s'.calls[s'.list[k]].pc == Waiting
    {
      if k < |s.list| { ListedWaits(s, k); }
    }
  }

  lemma ListedWaits(s: State, k: nat)
    requires Inv(s) && OthersWait(s) && 0 < k < |s.list|
    ensures s.list[k] in s.calls && !s.calls[s.list[k]].completed
  {
    hide NoRepeat;
    var c := s.list[k];
    assert c in Outstanding(s);
    assert CallOk(c in Outstanding(s), Current(s, c), s.calls[c]);
  }

  /** A caller that finds others on the list sends no interrupt. */
  lemma {:induction false} OneInterrupt(r: seq<State>, i: nat)
    requires Run(r) && i < |r|
    ensures OthersWait(r[i])
    decreases i
  {
    hide Next, Inv;
    if i > 0 {
      OneInterrupt(r, i - 1);
      RunInv(r, i - 1);
      assert Next(r[i - 1], r[i - 1 + 1]);
      OthersWaitStep(r[i - 1], r[i]);
    }
  }
}
