/**
  The reader-writer lock (kernel/rwmutex.cc) as a transition system over any number of tasks.

  It is made of a reader count and two mutexes.  A mutex is taken and released in one step
  here; the common mutex may be released by another task than the one that took it, as the
  mutex itself allows.  The step relation covers the plain, timed and interruptible calls:
  taking a mutex may fail.
 */
module RwMutex {
  import opened Basics

  type Task = nat

  /** Where a task is.  R*: read_lock in its order; D*: read_unlock. */
  datatype Pc =
    | Idle | Writing | Reading
    | RLoad | RSwap(val: nat) | RTakeReader
    | RLoadAgain | RSwapAgain(again: nat) | RTakeCommon | RStore | RDone | RFailed
    | DCount | DRelease

  /** common: the common mutex is held.  acquires and releases count how often readers took
      and released it. */
  datatype State = State(count: nat, reader: Option<Task>, common: bool, pc: map<Task, Pc>, acquires: nat,
    releases: nat)

  ghost predicate Step(s: State, s': State, t: Task)
  {
    && t in s.pc && t in s'.pc
    && var pc, pc' := s.pc[t], s'.pc[t];
    var still := s.(pc := s.pc[t := pc']);
    match pc
    case Idle =>
      || (s' == still && pc' == RLoad)
      || (!s.common && s' == still.(common := true) && pc' == Writing)
    case Writing => s' == still.(common := false) && pc' == Idle
    case RLoad => s' == still && pc' == (if s.count == 0 then RTakeReader else RSwap(s.count))
    case RSwap(v) =>
      || (s.count == v && s' == still.(count := v + 1) && pc' == Reading)
      || (s' == still && pc' == (if s.count == 0 then RTakeReader else RSwap(s.count)))
    case RTakeReader =>
      || (s.reader == None && s' == still.(reader := Some(t)) && pc' == RLoadAgain)
      || (s' == still && pc' == Idle)
    case RLoadAgain => s' == still && pc' == (if s.count == 0 then RTakeCommon else RSwapAgain(s.count))
    case RSwapAgain(v) =>
      || (s.count == v && s' == still.(count := v + 1) && pc' == RDone)
      || (s' == still && pc' == (if s.count == 0 then RTakeCommon else RSwapAgain(s.count)))
    case RTakeCommon =>
      || (!s.common && s' == still.(common := true, acquires := s.acquires + 1) && pc' == RStore)
      || (s' == still && pc' == RFailed)
    case RStore => s' == still.(count := 1) && pc' == RDone
    case RDone => s' == still.(reader := None) && pc' == Reading
    case RFailed => s' == still.(reader := None) && pc' == Idle
    case Reading => s' == still && pc' == DCount
    case DCount =>
      s.count > 0 && s' == still.(count := s.count - 1) && pc' == (if s.count - 1 == 0 then DRelease else Idle)
    case DRelease => s' == still.(common := false, releases := s.releases + 1) && pc' == Idle
  }

  ghost predicate Init(s: State)
  {
    s.count == 0 && s.reader == None && !s.common && s.acquires == s.releases == 0
      && forall t :: t in s.pc ==> s.pc[t] == Idle
  }

  // ---- the invariant ---------------------------------------------------------------------------

  /** A reader that counts. */
  predicate Counts(pc: Pc)
  {
    pc.Reading? || pc.RDone? || pc.DCount?
  }

  /** The task alone has the common mutex: as a writer, before it stores the count, or after
      the count came down to zero. */
  predicate Alone(pc: Pc)
  {
    pc.Writing? || pc.RStore? || pc.DRelease?
  }

  predicate HasReaderMutex(pc: Pc)
  {
    pc.RLoadAgain? || pc.RSwapAgain? || pc.RTakeCommon? || pc.RStore? || pc.RDone? || pc.RFailed?
  }

  ghost function Readers(pc: map<Task, Pc>): set<Task>
  {
    set t | t in pc && Counts(pc[t])
  }

  /** The readers have the common mutex, together or through one of them. */
  ghost predicate ReadersHold(s: State)
  {
    s.count > 0 || exists t :: t in s.pc && (s.pc[t].RStore? || s.pc[t].DRelease?)
  }

  ghost predicate Exclusive(s: State)
  {
    && (forall t, u :: t in s.pc && u in s.pc && Alone(s.pc[t]) && Alone(s.pc[u]) ==> t == u)
    && (forall t :: t in s.pc && Alone(s.pc[t]) ==> s.count == 0)
    && (s.common <==> s.count > 0 || exists t :: t in s.pc && Alone(s.pc[t]))
  }

  ghost predicate Inv(s: State)
  {
    && s.count == |Readers(s.pc)|
    && Exclusive(s)
    && (forall t :: t in s.pc ==> (HasReaderMutex(s.pc[t]) <==> s.reader == Some(t)))
    && (s.reader.Some? ==> s.reader.value in s.pc)
    && (forall t :: t in s.pc ==> (s.pc[t].RSwap? ==> s.pc[t].val > 0) && (s.pc[t].RSwapAgain? ==> s.pc[t].again > 0))
    && s.acquires == s.releases + (if ReadersHold(s) then 1 else 0)
  }

  function One(b: bool): int
  {
    if b then 1 else 0
  }

  lemma ReadersChange(pc: map<Task, Pc>, t: Task, p: Pc)
    requires t in pc
    ensures |Readers(pc[t := p])| == |Readers(pc)| + One(Counts(p)) - One(Counts(pc[t]))
  {
    var a, b := Readers(pc), Readers(pc[t := p]);
    assert b == if Counts(p) then a + {t} else a - {t};
    assert t in a <==> Counts(pc[t]);
  }

  lemma ReaderInside(s: State, t: Task)
    requires Inv(s) && t in s.pc && Counts(s.pc[t])
    ensures s.count > 0
  {
    hide Exclusive, ReadersHold;
    assert t in Readers(s.pc);
  }

  /** What a step does to the count and the common mutex, told by the task's places. */
  ghost predicate Effect(s: State, s': State, t: Task)
    requires t in s.pc
  {
    && t in s'.pc && s'.pc == s.pc[t := s'.pc[t]]
    && var pc, pc' := s.pc[t], s'.pc[t];
    && s'.count == s.count + One(Counts(pc')) - One(Counts(pc))
    && (Alone(pc') ==> s'.common && s'.count == 0 && (Alone(pc) || !s.common || s.count == 1))
    && (Alone(pc) ==> (s'.common <==> Alone(pc') || s'.count > 0))
    && (!Alone(pc) && !Alone(pc') ==> s'.common == s.common && (s'.count == 0 <==> s.count == 0))
    && (!Alone(pc) && Alone(pc') && s.common ==> s.count == 1)
  }

  lemma StepEffect(s: State, s': State, t: Task)
    requires Inv(s) && Step(s, s', t)
    ensures Effect(s, s', t)
  {
    hide Readers, ReadersHold, HasReaderMutex;
    if Counts(s.pc[t]) { ReaderInside(s, t); }
  }

  lemma StepCount(s: State, s': State, t: Task)
    requires Inv(s) && t in s.pc && Effect(s, s', t)
    ensures s'.count == |Readers(s'.pc)|
  {
    hide ReadersHold, Readers, Exclusive, Alone;
    ReadersChange(s.pc, t, s'.pc[t]);
  }

  lemma StepExclusive(s: State, s': State, t: Task)
    requires Exclusive(s) && t in s.pc && Effect(s, s', t)
    ensures Exclusive(s')
  {
    hide Counts, Alone;
    if s'.common && s'.count == 0 {
      var u :| u in s'.pc && (if Alone(s'.pc[t]) then u == t else u in s.pc && u != t && Alone(s.pc[u]));
      assert Alone(s'.pc[u]);
    }
  }

  /** What a step does to the reader mutex. */
  ghost predicate ReaderEffect(s: State, s': State, t: Task)
    requires t in s.pc
  {
    && t in s'.pc && s'.pc == s.pc[t := s'.pc[t]]
    && var pc, pc' := s.pc[t], s'.pc[t];
    && (pc'.RSwap? ==> pc'.val > 0) && (pc'.RSwapAgain? ==> pc'.again > 0)
    && (HasReaderMutex(pc) == HasReaderMutex(pc') ==> s'.reader == s.reader)
    && (HasReaderMutex(pc') && !HasReaderMutex(pc) ==> s.reader == None && s'.reader == Some(t))
    && (HasReaderMutex(pc) && !HasReaderMutex(pc') ==> s'.reader == None)
  }

  lemma StepReader(s: State, s': State, t: Task)
    requires Step(s, s', t)
    ensures ReaderEffect(s, s', t)
  {
  }

  lemma StepReaderMutex(s: State, s': State, t: Task)
    requires Inv(s) && t in s.pc && ReaderEffect(s, s', t)
    ensures forall u :: u in s'.pc ==> (HasReaderMutex(s'.pc[u]) <==> s'.reader == Some(u))
    ensures s'.reader.Some? ==> s'.reader.value in s'.pc
    ensures forall u :: u in s'.pc ==>
      (s'.pc[u].RSwap? ==> s'.pc[u].val > 0) && (s'.pc[u].RSwapAgain? ==> s'.pc[u].again > 0)
  {
    hide Readers, ReadersHold, Exclusive, HasReaderMutex;
  }

  /** The readers take the mutex when they come to hold it and release it when they cease to. */
  lemma StepHold(s: State, s': State, t: Task)
    requires Inv(s) && Step(s, s', t) && Exclusive(s')
    ensures s'.acquires == s'.releases + (if ReadersHold(s') then 1 else 0)
  {
    hide Readers, HasReaderMutex, Counts;
    StepEffect(s, s', t);
    var pc, pc' := s.pc[t], s'.pc[t];
    if pc.RTakeCommon? && pc'.RStore? {
      assert ReadersHold(s') && !ReadersHold(s);
    } else if pc.DRelease? {
      assert ReadersHold(s) && !ReadersHold(s');
    } else {
      SameHold(s, s', t);
    }
  }

  lemma SameHold(s: State, s': State, t: Task)
    requires Inv(s) && Step(s, s', t) && Exclusive(s') && Effect(s, s', t)
    requires !(s.pc[t].RTakeCommon? && s'.pc[t].RStore?) && !s.pc[t].DRelease?
    ensures ReadersHold(s') <==> ReadersHold(s)
  {
    hide Readers, HasReaderMutex, Counts, Inv;
    if s.pc[t].RStore? {
      assert ReadersHold(s);
    } else if s'.pc[t].DRelease? {
      assert ReadersHold(s');
    } else {
      HoldFrame(s, s', t);
    }
  }

  lemma HoldFrame(s: State, s': State, t: Task)
    requires t in s.pc && t in s'.pc && s'.pc == s.pc[t := s'.pc[t]] && (s'.count > 0 <==> s.count > 0)
    requires !s.pc[t].RStore? && !s.pc[t].DRelease? && !s'.pc[t].RStore? && !s'.pc[t].DRelease?
    ensures ReadersHold(s') <==> ReadersHold(s)
  {
    if s.count == 0 {
      if u :| u in s.pc && (s.pc[u].RStore? || s.pc[u].DRelease?) {
        assert s'.pc[u] == s.pc[u];
      }
      if u :| u in s'.pc && (s'.pc[u].RStore? || s'.pc[u].DRelease?) {
        assert s'.pc[u] == s.pc[u];
      }
    }
  }

  lemma StepInv(s: State, s': State, t: Task)
    requires Inv(s) && t in s.pc && Step(s, s', t)
    ensures Inv(s')
  {
    hide Step, Effect, ReaderEffect, Readers, ReadersHold, Exclusive, HasReaderMutex;
    StepEffect(s, s', t);
    StepReader(s, s', t);
    StepCount(s, s', t);
    StepExclusive(s, s', t);
    StepReaderMutex(s, s', t);
    StepHold(s, s', t);
  }

  // ---- whole runs ------------------------------------------------------------------------------

  ghost predicate Run(r: seq<State>)
  {
    |r| > 0 && Init(r[0]) && forall i {:trigger r[i]} :: 0 <= i < |r| - 1 ==> Next(r[i], r[i + 1])
  }

  ghost predicate Next(s: State, s': State)
  {
    exists t :: Step(s, s', t)
  }

  lemma StepTask(s: State, s': State, t: Task)
    requires Step(s, s', t)
    ensures t in s.pc
  {
  }

  lemma InitInv(s: State)
    requires Init(s)
    ensures Inv(s)
  {
    assert Readers(s.pc) == {};
  }

  lemma {:induction false} RunInv(r: seq<State>, i: nat)
    requires Run(r) && i < |r|
    ensures Inv(r[i])
    decreases i
  {
    hide Step, Inv;
    if i == 0 {
      InitInv(r[0]);
    } else {
      RunInv(r, i - 1);
      assert Next(r[i - 1], r[i - 1 + 1]);
      var t :| Step(r[i - 1], r[i], t);
      StepTask(r[i - 1], r[i], t);
      StepInv(r[i - 1], r[i], t);
    }
  }

  /** Never a writer together with a reader or another writer. */
  lemma ReadersExcludeWriters(r: seq<State>, i: nat, t: Task, u: Task)
    requires Run(r) && i < |r| && t in r[i].pc && u in r[i].pc && r[i].pc[t].Writing?
    ensures !r[i].pc[u].Reading? && (r[i].pc[u].Writing? ==> u == t)
  {
    hide Readers, ReadersHold, HasReaderMutex;
    RunInv(r, i);
    if Counts(r[i].pc[u]) { ReaderInside(r[i], u); }
  }

  /** The count is the number of readers inside. */
  lemma CountExact(r: seq<State>, i: nat)
    requires Run(r) && i < |r|
    ensures r[i].count == |Readers(r[i].pc)|
  {
    hide Readers, ReadersHold, HasReaderMutex, Exclusive;
    RunInv(r, i);
  }

  /** The readers take the common mutex once and release it once for each time the lock is
      read-held, whichever of them is the last to leave. */
  lemma OneTakePerGroup(r: seq<State>, i: nat)
    requires Run(r) && i < |r|
    ensures r[i].releases <= r[i].acquires <= r[i].releases + 1
    ensures r[i].acquires == r[i].releases + 1 <==> ReadersHold(r[i])
    ensures Readers(r[i].pc) != {} ==> ReadersHold(r[i]) && r[i].common
  {
    hide ReadersHold, HasReaderMutex, Readers;
    RunInv(r, i);
    if Readers(r[i].pc) != {} {
      assert r[i].count > 0;
      HoldsWhileRead(r[i]);
    }
  }

  lemma HoldsWhileRead(s: State)
    requires s.count > 0
    ensures ReadersHold(s)
  {
  }

  // ---- the two mutexes never block each other for good -----------------------------------------

  /** A step in which no attempt to take a mutex fails. */
  ghost predicate Fine(s: State, s': State)
  {
    exists t :: Step(s, s', t) && !(s.pc[t].RTakeReader? && s'.pc[t].Idle?) && !s'.pc[t].RFailed?
  }

  ghost predicate Continues(p: seq<State>, s: State)
  {
    |p| > 0 && p[0] == s && forall i {:trigger p[i]} :: 0 <= i < |p| - 1 ==> Fine(p[i], p[i + 1])
  }

  lemma ContinuesJoin(p: seq<State>, s: State, q: seq<State>)
    requires Continues(p, s) && Continues(q, p[|p| - 1])
    ensures Continues(p + q[1..], s) && (p + q[1..])[|p + q[1..]| - 1] == q[|q| - 1]
  {
    hide Fine;
    var r := p + q[1..];
    forall i | 0 <= i < |r| - 1
      ensures Fine(r[i], r[i + 1])
    {
      if i < |p| - 1 {
        assert r[i] == p[i] && r[i + 1] == p[i + 1];
      } else {
        var k := i - (|p| - 1);
        assert r[i] == q[k] && r[i + 1] == q[k + 1];
        assert Fine(q[k], q[k + 1]);
      }
    }
  }

  /** How far a task is from the end of its call, and of the call that gives back what it takes. */
  function Rank(pc: Pc): nat
  {
    match pc
    case Idle => 0
    case Writing => 1
    case DRelease => 1
    case RFailed => 1
    case DCount => 2
    case Reading => 3
    case RDone => 4
    case RStore => 5
    case RTakeCommon => 6
    case RSwapAgain(_) => 7
    case RLoadAgain => 8
    case RTakeReader => 9
    case RSwap(_) => 10
    case RLoad => 11
  }

  /** Nothing is in t's way: it is inside, or nobody is and nobody else has the reader mutex. */
  ghost predicate Unhindered(s: State, t: Task)
    requires t in s.pc
  {
    || Counts(s.pc[t]) || Alone(s.pc[t])
    || ((forall u :: u in s.pc ==> !Counts(s.pc[u]) && !Alone(s.pc[u])) && (s.reader == None || s.reader == Some(t)))
  }

  /** The step of t that brings it nearer to the end. */
  function Onward(s: State, t: Task): State
    requires t in s.pc
  {
    match s.pc[t]
    case Idle => s
    case Writing => s.(common := false, pc := s.pc[t := Idle])
    case RLoad => s.(pc := s.pc[t := if s.count == 0 then RTakeReader else RSwap(s.count)])
    case RSwap(v) => s.(pc := s.pc[t := if s.count == 0 then RTakeReader else RSwap(s.count)])
    case RTakeReader => s.(reader := Some(t), pc := s.pc[t := RLoadAgain])
    case RLoadAgain => s.(pc := s.pc[t := if s.count == 0 then RTakeCommon else RSwapAgain(s.count)])
    case RSwapAgain(v) => s.(pc := s.pc[t := if s.count == 0 then RTakeCommon else RSwapAgain(s.count)])
    case RTakeCommon => s.(common := true, acquires := s.acquires + 1, pc := s.pc[t := RStore])
    case RStore => s.(count := 1, pc := s.pc[t := RDone])
    case RDone => s.(reader := None, pc := s.pc[t := Reading])
    case RFailed => s.(reader := None, pc := s.pc[t := Idle])
    case Reading => s.(pc := s.pc[t := DCount])
    case DCount => if s.count == 0 then s else s.(count := s.count - 1,
      pc := s.pc[t := if s.count == 1 then DRelease else Idle])
    case DRelease => s.(common := false, releases := s.releases + 1, pc := s.pc[t := Idle])
  }

  lemma OneOnward(s: State, t: Task)
    requires Inv(s) && t in s.pc && !s.pc[t].Idle? && Unhindered(s, t)
    ensures var s' := Onward(s, t);
      && t in s'.pc && Step(s, s', t) && Fine(s, s') && Rank(s'.pc[t]) < Rank(s.pc[t])
      && s'.pc == s.pc[t := s'.pc[t]] && (s'.pc[t].Idle? || Unhindered(s', t))
  {
    hide Inv, Fine;
    ReaderFree(s, t);
    var s' := Onward(s, t);
    if Counts(s.pc[t]) {
      ReaderInside(s, t);
    } else if !Alone(s.pc[t]) {
      NobodyInside(s);
    }
    assert Step(s, s', t);
    FineStep(s, s', t);
  }

  lemma FineStep(s: State, s': State, t: Task)
    requires Step(s, s', t) && !(s.pc[t].RTakeReader? && s'.pc[t].Idle?) && !s'.pc[t].RFailed?
    ensures Fine(s, s')
  {
  }

  lemma ReaderFree(s: State, t: Task)
    requires Inv(s) && t in s.pc
    ensures s.reader == Some(t) ==> !s.pc[t].RTakeReader?
    ensures s.pc[t].RSwapAgain? || s.pc[t].RLoadAgain? || s.pc[t].RTakeCommon? ==> s.reader == Some(t)
  {
    hide Exclusive, ReadersHold, Readers;
  }

  /** With nobody inside, the count is zero and the common mutex is free. */
  lemma NobodyInside(s: State)
    requires Inv(s) && forall u :: u in s.pc ==> !Counts(s.pc[u]) && !Alone(s.pc[u])
    ensures s.count == 0 && !s.common
  {
    hide ReadersHold, HasReaderMutex;
    assert Readers(s.pc) == {};
  }

  /** t alone can end its call and leave the lock. */
  lemma {:induction false} Home(s: State, t: Task) returns (p: seq<State>)
    requires Inv(s) && t in s.pc && (s.pc[t].Idle? || Unhindered(s, t))
    ensures Continues(p, s) && Inv(p[|p| - 1]) && p[|p| - 1].pc == s.pc[t := Idle]
    decreases Rank(s.pc[t])
  {
    hide Inv, Step, Unhindered, Fine, Onward;
    if s.pc[t].Idle? {
      p := [s];
      assert s.pc[t := Idle] == s.pc;
    } else {
      OneOnward(s, t);
      var s1 := Onward(s, t);
      StepInv(s, s1, t);
      var q := Home(s1, t);
      ContinuesJoin([s, s1], s, q);
      p := [s, s1] + q[1..];
      assert s1.pc[t := Idle] == s.pc[t := Idle];
    }
  }

  ghost function Busy(s: State): set<Task>
  {
    set t | t in s.pc && !s.pc[t].Idle?
  }

  /** While anyone is busy, somebody is unhindered. */
  lemma SomebodyCan(s: State) returns (t: Task)
    requires Inv(s) && Busy(s) != {}
    ensures t in Busy(s) && Unhindered(s, t)
  {
    hide Readers, ReadersHold, Exclusive;
    if u :| u in s.pc && (Counts(s.pc[u]) || Alone(s.pc[u])) {
      t := u;
    } else if s.reader.Some? {
      t := s.reader.value;
    } else {
      t :| t in Busy(s);
    }
  }

  lemma {:induction false} CanDrain(s: State) returns (p: seq<State>)
    requires Inv(s)
    ensures Continues(p, s) && Inv(p[|p| - 1]) && Busy(p[|p| - 1]) == {}
    decreases Busy(s)
  {
    hide Inv, Unhindered, Fine;
    if Busy(s) == {} {
      p := [s];
    } else {
      var t := SomebodyCan(s);
      var a := Home(s, t);
      var s1 := a[|a| - 1];
      assert Busy(s1) == Busy(s) - {t};
      var b := CanDrain(s1);
      ContinuesJoin(a, s, b);
      p := a + b[1..];
    }
  }

  /** From every state of every run, all calls can end without a failed attempt, and then the
      lock is as it was in the beginning. */
  lemma NoDeadlock(r: seq<State>, i: nat) returns (p: seq<State>)
    requires Run(r) && i < |r|
    ensures Continues(p, r[i]) && Busy(p[|p| - 1]) == {}
    ensures var e := p[|p| - 1]; e.count == 0 && e.reader == None && !e.common && e.acquires == e.releases
  {
    hide Inv, Fine, Next;
    RunInv(r, i);
    p := CanDrain(r[i]);
    Drained(p[|p| - 1]);
  }

  lemma Drained(s: State)
    requires Inv(s) && Busy(s) == {}
    ensures s.count == 0 && s.reader == None && !s.common && s.acquires == s.releases
  {
    forall t | t in s.pc
      ensures s.pc[t] == Idle
    {
      assert t !in Busy(s);
    }
    assert Readers(s.pc) == {};
  }

  // ---- who gets in -------------------------------------------------------------------------------

  /** A continuation from s in which only t moves. */
  ghost predicate ByItself(p: seq<State>, s: State, t: Task)
  {
    |p| > 0 && p[0] == s && forall i {:trigger p[i]} :: 0 <= i < |p| - 1 ==> Step(p[i], p[i + 1], t)
  }

  /** While the lock is read-held, another reader gets in by itself, beside those inside. */
  lemma ReaderJoins(r: seq<State>, i: nat, t: Task) returns (p: seq<State>)
    requires Run(r) && i < |r| && t in r[i].pc && r[i].pc[t].Idle? && Readers(r[i].pc) != {}
    ensures ByItself(p, r[i], t) && |p| == 4
    ensures p[3] == r[i].(count := r[i].count + 1, pc := r[i].pc[t := Reading])
  {
    hide Run, Readers;
    CountExact(r, i);
    var s := r[i];
    var n := s.count;
    p := [s, s.(pc := s.pc[t := RLoad]), s.(pc := s.pc[t := RSwap(n)]), s.(count := n + 1, pc := s.pc[t := Reading])];
    assert s.pc[t := RLoad][t := RSwap(n)] == s.pc[t := RSwap(n)];
    assert s.pc[t := RSwap(n)][t := Reading] == s.pc[t := Reading];
    assert Step(p[0], p[1], t) && Step(p[1], p[2], t) && Step(p[2], p[3], t);
  }

  /** So does one that already has the reader mutex; it gives that back. */
  lemma LateReaderJoins(r: seq<State>, i: nat, t: Task) returns (p: seq<State>)
    requires Run(r) && i < |r| && t in r[i].pc && r[i].pc[t].RLoadAgain? && Readers(r[i].pc) != {}
    ensures ByItself(p, r[i], t) && |p| == 4
    ensures p[3] == r[i].(count := r[i].count + 1, reader := None, pc := r[i].pc[t := Reading])
  {
    hide Run, Readers;
    CountExact(r, i);
    var s := r[i];
    var n := s.count;
    var s2 := s.(pc := s.pc[t := RSwapAgain(n)]);
    var s3 := s.(count := n + 1, pc := s.pc[t := RDone]);
    p := [s, s2, s3, s.(count := n + 1, reader := None, pc := s.pc[t := Reading])];
    assert s.pc[t := RSwapAgain(n)][t := RDone] == s.pc[t := RDone];
    assert s.pc[t := RDone][t := Reading] == s.pc[t := Reading];
    assert Step(p[0], p[1], t) && Step(p[1], p[2], t) && Step(p[2], p[3], t);
  }

  /** If nobody is inside, a reader gets in by itself and has the common mutex. */
  lemma FirstReader(r: seq<State>, i: nat, t: Task) returns (p: seq<State>)
    requires Run(r) && i < |r| && t in r[i].pc && r[i].pc[t].Idle? && r[i].reader == None
    requires forall u :: u in r[i].pc ==> !Counts(r[i].pc[u]) && !Alone(r[i].pc[u])
    ensures ByItself(p, r[i], t) && |p| == 8
    ensures p[7] == r[i].(count := 1, common := true, acquires := r[i].acquires + 1, pc := r[i].pc[t := Reading])
  {
    hide Run, Readers, Inv, Step;
    RunInv(r, i);
    NobodyInside(r[i]);
    p := FirstSteps(r[i], t);
  }

  lemma FirstSteps(s: State, t: Task) returns (p: seq<State>)
    requires t in s.pc && s.pc[t].Idle? && s.reader == None && s.count == 0 && !s.common
    ensures ByItself(p, s, t) && |p| == 8
    ensures p[7] == s.(count := 1, common := true, acquires := s.acquires + 1, pc := s.pc[t := Reading])
  {
    hide Step;
    var a := s.(pc := s.pc[t := RLoad]);
    var b := s.(pc := s.pc[t := RTakeReader]);
    var c := s.(reader := Some(t), pc := s.pc[t := RLoadAgain]);
    var d := c.(pc := s.pc[t := RTakeCommon]);
    var e := c.(common := true, acquires := s.acquires + 1, pc := s.pc[t := RStore]);
    var f := e.(count := 1, pc := s.pc[t := RDone]);
    p := [s, a, b, c, d, e, f, f.(reader := None, pc := s.pc[t := Reading])];
    OneStep(s, a, t);
    OneStep(a, b, t);
    OneStep(b, c, t);
    OneStep(c, d, t);
    OneStep(d, e, t);
    OneStep(e, f, t);
    OneStep(f, p[7], t);
  }

  /** One of the steps on this way. */
  lemma OneStep(s: State, s': State, t: Task)
    requires t in s.pc && t in s'.pc && s'.pc == s.pc[t := s'.pc[t]]
    requires s' == Onward(s, t) || (s.pc[t].Idle? && s'.pc[t].RLoad? && s' == s.(pc := s'.pc))
    requires !s.pc[t].RSwapAgain? && !s.pc[t].RSwap? && (s.pc[t].RTakeReader? ==> s.reader == None)
    requires (s.pc[t].RTakeCommon? ==> !s.common) && s' != s
    ensures Step(s, s', t)
  {
  }

  /** A writer gets in by itself exactly when nobody is inside: neither readers nor a writer. */
  lemma WriterGetsIn(r: seq<State>, i: nat, t: Task)
    requires Run(r) && i < |r| && t in r[i].pc && r[i].pc[t].Idle?
    ensures (exists s' :: Step(r[i], s', t) && s'.pc[t].Writing?)
      <==> forall u :: u in r[i].pc ==> !Counts(r[i].pc[u]) && !Alone(r[i].pc[u])
  {
    hide Run, Inv;
    RunInv(r, i);
    var s := r[i];
    if forall u :: u in s.pc ==> !Counts(s.pc[u]) && !Alone(s.pc[u]) {
      NobodyInside(s);
      var s' := s.(common := true, pc := s.pc[t := Writing]);
      assert Step(s, s', t) && s'.pc[t].Writing?;
    } else {
      var u :| u in s.pc && (Counts(s.pc[u]) || Alone(s.pc[u]));
      CommonHeld(s, u);
    }
  }

  lemma CommonHeld(s: State, u: Task)
    requires Inv(s) && u in s.pc && (Counts(s.pc[u]) || Alone(s.pc[u]))
    ensures s.common
  {
    hide ReadersHold, HasReaderMutex;
    if Counts(s.pc[u]) { ReaderInside(s, u); }
  }

  // ---- who gives up ------------------------------------------------------------------------------

  /** A read_lock that may fail can come back while a writer is inside, and leaves the lock as it
      was: also the reader mutex, which it had taken. */
  lemma ReaderGivesUp(s: State, t: Task) returns (p: seq<State>)
    requires t in s.pc && s.pc[t].Idle? && s.count == 0 && s.reader == None
    ensures ByItself(p, s, t) && |p| == 7 && p[6] == s
  {
    hide Step;
    var a := s.(pc := s.pc[t := RLoad]);
    var b := s.(pc := s.pc[t := RTakeReader]);
    var c := s.(reader := Some(t), pc := s.pc[t := RLoadAgain]);
    var d := c.(pc := s.pc[t := RTakeCommon]);
    var e := c.(pc := s.pc[t := RFailed]);
    p := [s, a, b, c, d, e, s];
    assert s.pc[t := RFailed][t := Idle] == s.pc;
    OneStep(s, a, t);
    OneStep(a, b, t);
    OneStep(b, c, t);
    OneStep(c, d, t);
    assert Step(d, e, t) by { FailStep(d, e, t); }
    OneStep(e, s, t);
  }

  /** So it can while another reader has the reader mutex. */
  lemma ReaderGivesUpEarly(s: State, t: Task) returns (p: seq<State>)
    requires t in s.pc && s.pc[t].Idle? && s.count == 0
    ensures ByItself(p, s, t) && |p| == 4 && p[3] == s
  {
    hide Step;
    var a := s.(pc := s.pc[t := RLoad]);
    var b := s.(pc := s.pc[t := RTakeReader]);
    p := [s, a, b, s];
    assert s.pc[t := RTakeReader][t := Idle] == s.pc;
    OneStep(s, a, t);
    OneStep(a, b, t);
    assert Step(b, s, t) by { FailStep(b, s, t); }
  }

  lemma FailStep(s: State, s': State, t: Task)
    requires t in s.pc && t in s'.pc && s' == s.(pc := s.pc[t := s'.pc[t]])
    requires (s.pc[t].RTakeCommon? && s'.pc[t].RFailed?) || (s.pc[t].RTakeReader? && s'.pc[t].Idle?)
    ensures Step(s, s', t)
  {
  }
}
