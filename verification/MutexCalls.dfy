/**
  What callers of the kernel mutex (kernel/mutex.cc) may count on, besides having it alone:
  waiters are woken in the order in which they came, a failed trylock found the mutex taken, and a
  bounded wait can be given up.
 */
module MutexCalls {
  import opened Basics
  import opened Mutex

  // ---- first come, first woken -------------------------------------------------------------------

  /** What a step does to the list: nothing, or one task joins at the end, or one leaves. */
  ghost predicate ListStep(q: seq<Task>, q': seq<Task>, t: Task)
  {
    q' == q || (t !in q && q' == q + [t]) || (t in q && q' == Omit(q, t))
  }

  lemma SoloList(s: State, s': State, t: Task)
    requires Inv(s) && Solo(s, s', t)
    ensures ListStep(s.waiters, s'.waiters, t)
  {
    hide Inv, Solo, Omit, Knows;
    SoloCoherent(s, s', t);
    InvPlaced(s, t);
  }

  lemma NextList(r: seq<State>, i: nat) returns (t: Task)
    requires Run(r) && i + 1 < |r|
    ensures ListStep(r[i].waiters, r[i + 1].waiters, t) && NoRepeat(r[i].waiters)
  {
    hide Inv, WakeupOnItsWay, Solo, NoRepeat, ListStep;
    RunSafe(r, i);
    WaiterBitExact(r, i);
    var s, s' := r[i], r[i + 1];
    assert Next(s, s');
    if x :| Solo(s, s', x) {
      t := x;
      SoloList(s, s', t);
    } else {
      t := 0;
      assert s'.waiters == s.waiters;
      Still(s.waiters, t);
    }
  }

  lemma Still(q: seq<Task>, t: Task)
    ensures ListStep(q, q, t)
  {
  }

  /** Whoever joins does so at the end of the list. */
  lemma JoinsLast(r: seq<State>, i: nat, t: Task)
    requires Run(r) && i + 1 < |r| && t !in r[i].waiters && t in r[i + 1].waiters
    ensures r[i + 1].waiters == r[i].waiters + [t]
  {
    hide Run, Omit, NoRepeat;
    var x := NextList(r, i);
    if x in r[i].waiters { OmitElems(r[i].waiters, x); }
  }

  /** Two waiters that are listed before and after a step keep their order. */
  lemma OrderKept(r: seq<State>, i: nat, t: Task, u: Task)
    requires Run(r) && i + 1 < |r|
    requires t in r[i].waiters && u in r[i].waiters && t in r[i + 1].waiters && u in r[i + 1].waiters
    ensures Precedes(r[i].waiters, t, u) <==> Precedes(r[i + 1].waiters, t, u)
  {
    hide Run, Omit, NoRepeat, Precedes;
    var q := r[i].waiters;
    var x := NextList(r, i);
    if x in q {
      OmitElems(q, x);
      if t != x && u != x { OmitOrder(q, x, t, u); }
    } else {
      PrecedesJoin(q, [x], t, u);
      PrecedesOne(x, t, u);
    }
  }

  /** A waiter stays before everyone who came after it, as long as it waits. */
  lemma {:induction false} FirstCome(r: seq<State>, i: nat, j: nat, t: Task, u: Task)
    requires Run(r) && i <= j < |r| && t != u && t in r[i].waiters && u !in r[i].waiters
    requires forall k {:trigger r[k]} :: i <= k <= j ==> t in r[k].waiters
    ensures u in r[j].waiters ==> Precedes(r[j].waiters, t, u)
    decreases j
  {
    hide Run, Precedes;
    if i < j {
      FirstCome(r, i, j - 1, t, u);
      assert t in r[j - 1].waiters && t in r[j].waiters;
      if u in r[j - 1].waiters && u in r[j].waiters {
        OrderKept(r, j - 1, t, u);
      } else if u in r[j].waiters {
        JoinsLast(r, j - 1, u);
        PrecedesJoin(r[j - 1].waiters, [u], t, u);
      }
    }
  }

  /** An unlocker chooses the waiter that all others come after, and takes its ticket. */
  lemma WakesFirst(r: seq<State>, i: nat, x: Task, u: Task)
    requires Run(r) && i + 1 < |r| && x in r[i].local && x in r[i + 1].local && r[i].local[x].pc == URead
    requires r[i + 1].local[x].pc != URead && u in r[i].waiters
    ensures var y := r[i + 1].local[x].target;
      && y in r[i].waiters && y in r[i].local && r[i + 1].local[x].tick == r[i].local[y].mine
      && r[i + 1].waiters == r[i].waiters && (u == y || Precedes(r[i].waiters, y, u))
  {
    hide LockStep, WokenStep, NoRepeat, Inv;
    assert Next(r[i], r[i + 1]);
    OthersStep(r[i], r[i + 1], x);
    var q := r[i].waiters;
    var k :| 0 <= k < |q| && q[k] == u;
    assert q[0] in q;
  }

  /** A task that moves out of URead does so by its own step. */
  lemma OthersStep(s: State, s': State, x: Task)
    requires Next(s, s') && x in s.local && x in s'.local && s.local[x].pc == URead && s'.local[x].pc != URead
    ensures UnlockStep(s, x, s.local[x], s'.word, s'.waiters, s'.local[x])
  {
    hide Omit;
    if t :| Solo(s, s', t) {
    } else if t :| Wake(s, s', t) {
    }
  }

  /** So nobody who came later is woken before a waiter that is still listed. */
  lemma FirstComeFirstWoken(r: seq<State>, i: nat, j: nat, t: Task, u: Task, x: Task)
    requires Run(r) && i <= j && j + 1 < |r| && t != u && t in r[i].waiters && u !in r[i].waiters
    requires forall k {:trigger r[k]} :: i <= k <= j ==> t in r[k].waiters
    requires x in r[j].local && x in r[j + 1].local && r[j].local[x].pc == URead && r[j + 1].local[x].pc != URead
    ensures r[j + 1].local[x].target != u
  {
    hide Run, NoRepeat, Precedes;
    WaiterBitExact(r, j);
    WakesFirst(r, j, x, t);
    FirstCome(r, i, j, t, u);
    if r[j + 1].local[x].target == u { BothWays(r[j].waiters, t, u); }
  }

  lemma BothWays(q: seq<Task>, t: Task, u: Task)
    requires NoRepeat(q) && t != u && Precedes(q, t, u)
    ensures !Precedes(q, u, t)
  {
  }

  // ---- trylock -----------------------------------------------------------------------------------

  /** Where a trylock, or a task that has one behind it, can be. */
  predicate TryPlace(l: Local)
  {
    l.mode == Try ==> l.pc in {Idle, Holds, LFast, LTop, UFast, UTop, USpin, URead, UStore, UWake}
  }

  lemma TryStep(s: State, s': State, t: Task)
    requires Next(s, s') && (forall u :: u in s.local ==> TryPlace(s.local[u])) && t in s'.local
    ensures TryPlace(s'.local[t])
  {
    hide Omit, Cas;
    if u :| Solo(s, s', u) {
      if u != t { assert s'.local[t] == s.local[t]; }
    }
  }

  /** trylock never waits. */
  lemma {:induction false} TryNeverWaits(r: seq<State>, i: nat)
    requires Run(r) && i < |r|
    ensures forall t :: t in r[i].local ==> TryPlace(r[i].local[t])
    decreases i
  {
    hide Next, TryPlace;
    if i == 0 {
      forall t | t in r[0].local ensures TryPlace(r[0].local[t]) { TryIdle(r[0].local[t]); }
    } else {
      TryNeverWaits(r, i - 1);
      assert Next(r[i - 1], r[i - 1 + 1]);
      forall t | t in r[i].local ensures TryPlace(r[i].local[t]) { TryStep(r[i - 1], r[i], t); }
    }
  }

  lemma TryIdle(l: Local)
    requires l.pc == Idle
    ensures TryPlace(l)
  {
  }

  /** The steps that another task, or the task itself, makes while it is in trylock. */
  lemma TrySteps(s: State, s': State, t: Task)
    requires Next(s, s') && t in s.local && s.local[t].mode == Try && s.local[t].pc in {LFast, LTop}
    ensures t in s'.local && s'.local[t].mode == Try
    ensures s'.local[t].pc == LTop ==>
      s'.local[t].seen == s.word || (s.local[t].pc == LTop && s'.local[t].seen == s.local[t].seen)
    ensures s'.local[t].pc == Idle ==> s.local[t].pc == LTop && (s.local[t].seen.lock || s.local[t].seen.owner.By?)
  {
    hide Omit;
    if u :| Solo(s, s', u) {
      if u != t { assert s'.local[t] == s.local[t]; }
    } else if u :| Wake(s, s', u) {
    } else {
      var u, v :| Transfer(s, s', u, v);
    }
  }

  /** Between i and j, t is in one call of trylock. */
  ghost predicate Trying(r: seq<State>, i: nat, j: nat, t: Task)
    requires i <= j < |r|
  {
    && t in r[i].local && r[i].local[t].pc == LFast && r[i].local[t].mode == Try
    && forall k {:trigger r[k]} :: i <= k <= j ==> t in r[k].local && r[k].local[t].pc in {LFast, LTop}
  }

  /** What it goes by is what the word was at some moment of the call. */
  lemma {:induction false} TrySeen(r: seq<State>, i: nat, j: nat, t: Task) returns (k: nat)
    requires Run(r) && i <= j < |r| && Trying(r, i, j, t)
    ensures r[j].local[t].mode == Try
    ensures r[j].local[t].pc == LTop ==> i <= k < j && r[j].local[t].seen == r[k].word
    decreases j
  {
    hide Next, Init;
    k := i;
    if i < j {
      k := TrySeen(r, i, j - 1, t);
      assert Next(r[j - 1], r[j - 1 + 1]);
      assert t in r[j - 1].local && r[j - 1].local[t].pc in {LFast, LTop};
      TrySteps(r[j - 1], r[j], t);
      if r[j].local[t].seen == r[j - 1].word { k := j - 1; }
    }
  }

  /** trylock comes back without the mutex only if that was taken, or its list being edited, at
      some moment of the call. */
  lemma TryFails(r: seq<State>, i: nat, j: nat, t: Task) returns (k: nat)
    requires Run(r) && i <= j && j + 1 < |r| && Trying(r, i, j, t)
    requires t in r[j + 1].local && r[j + 1].local[t].pc == Idle
    ensures i <= k < j && (r[k].word.owner.By? || r[k].word.lock)
  {
    hide Next, Init;
    k := TrySeen(r, i, j, t);
    assert Next(r[j], r[j + 1]);
    assert r[j].local[t].pc in {LFast, LTop};
    TrySteps(r[j], r[j + 1], t);
  }

  /** On a mutex that is taken it does come back, and leaves word and list alone; so may a lock
      call whose time is over. */
  lemma TryOnTaken(s: State, t: Task, mode: Mode) returns (p: seq<State>)
    requires t in s.local && s.local[t].pc == Idle && s.word.owner.By? && !s.word.lock && mode != Forever
    ensures Steps(p, s, t) && |p| == 4
    ensures var e := p[3]; e.word == s.word && e.waiters == s.waiters && t in e.local && e.local[t].pc == Idle
  {
    hide UnlockStep, Steps, After;
    var w, q, l := s.word, s.waiters, s.local[t].(mode := mode, seen := s.word);
    p := Start(s, t);
    p := Extend(p, s, t, w, q, s.local[t].(pc := LFast, mode := mode));
    p := Extend(p, s, t, w, q, l.(pc := LTop));
    p := Extend(p, s, t, w, q, l.(pc := Idle));
  }

  /** Of a mutex whose list is being edited trylock does not wait to see the outcome. */
  lemma TryOnLocked(s: State, t: Task) returns (p: seq<State>)
    requires t in s.local && s.local[t].pc == Idle && s.word.lock
    ensures Steps(p, s, t) && |p| == 4
    ensures var e := p[3]; e.word == s.word && e.waiters == s.waiters && t in e.local && e.local[t].pc == Idle
  {
    hide UnlockStep, Steps, After;
    var w, q, l := s.word, s.waiters, s.local[t].(mode := Try, seen := s.word);
    p := Start(s, t);
    p := Extend(p, s, t, w, q, s.local[t].(pc := LFast, mode := Try));
    p := Extend(p, s, t, w, q, l.(pc := LTop));
    p := Extend(p, s, t, w, q, l.(pc := Idle));
  }

  /** Any call may take a mutex that was just released, past those who wait for it; they stay on
      the list, and WAITER stays set. */
  lemma CanTakePast(s: State, t: Task, mode: Mode) returns (p: seq<State>)
    requires t in s.local && s.local[t].pc == Idle && s.word == LockWord(Nobody, false, true)
    ensures Steps(p, s, t) && |p| == 4
    ensures var e := p[3];
      e.word == LockWord(By(t), false, true) && e.waiters == s.waiters && t in e.local && e.local[t].pc == Holds
  {
    hide UnlockStep, Steps, After;
    var w, q, l := s.word, s.waiters, s.local[t].(mode := mode, seen := s.word);
    p := Start(s, t);
    p := Extend(p, s, t, w, q, s.local[t].(pc := LFast, mode := mode));
    p := Extend(p, s, t, w, q, l.(pc := LTop));
    p := Extend(p, s, t, w.(owner := By(t)), q, l.(pc := Holds));
  }

  /** With nobody waiting, the mutex is released in two steps. */
  lemma CanReleaseAtOnce(s: State, t: Task) returns (p: seq<State>)
    requires t in s.local && s.local[t].pc == Holds && s.word == LockWord(By(t), false, false)
    ensures Steps(p, s, t) && |p| == 3 && p[2].word == FREE && p[2].waiters == s.waiters
    ensures t in p[2].local && p[2].local[t].pc == Idle
  {
    hide LockStep, WokenStep, Steps, After;
    p := Start(s, t);
    p := Extend(p, s, t, s.word, s.waiters, s.local[t].(pc := UFast));
    p := Extend(p, s, t, FREE, s.waiters, s.local[t].(pc := Idle));
  }

  // ---- giving up a bounded wait ------------------------------------------------------------------

  /** A bounded wait on a mutex that stays taken can end: the caller leaves the list, and the others
      keep their places. */
  lemma CanGiveUp(s: State, t: Task, a: seq<Task>, b: seq<Task>) returns (p: seq<State>)
    requires t in s.local && s.local[t].pc == LSleep && s.local[t].mode == Bounded
    requires s.local[t].ticket == s.local[t].mine && s.word.owner.By? && !s.word.lock && s.word.waiter
    requires s.waiters == a + [t] + b && t !in a
    ensures Steps(p, s, t) && |p| == 7
    ensures var e := p[6];
      e.word == s.word.(waiter := a + b != []) && e.waiters == a + b && t in e.local && e.local[t].pc == Idle
  {
    hide UnlockStep, LockStep, Steps, After, Omit;
    var w, q, l := s.word, s.waiters, s.local[t].(ticket := s.local[t].ticket + 1);
    OmitSplit(a, t, b);
    p := Start(s, t);
    p := Extend(p, s, t, w, q, l);
    p := Extend(p, s, t, w, q, l.(pc := LWoke, seen := LockWord(Nobody, false, true)));
    p := Extend(p, s, t, w, q, l.(pc := LRace, seen := w));
    p := Extend(p, s, t, w.(lock := true), q, l.(pc := LRaceLocked, seen := w));
    p := Extend(p, s, t, w.(lock := true), a + b, l.(pc := LGive, seen := w));
    p := Extend(p, s, t, w.(waiter := a + b != []), a + b, l.(pc := Idle, seen := w));
  }
}
