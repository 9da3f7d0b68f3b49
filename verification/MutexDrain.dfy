/**
  Nobody is stuck in the kernel mutex (kernel/mutex.cc): from every state of every run, all
  tasks can get through their calls, one after the other, until the mutex is free again.
 */
module MutexDrain {
  import opened Basics
  import opened Mutex

  /** A continuation from s, of steps of any tasks. */
  ghost predicate Continues(p: seq<State>, s: State)
  {
    |p| > 0 && p[0] == s && forall i {:trigger p[i]} :: 0 <= i < |p| - 1 ==> Next(p[i], p[i + 1])
  }

  lemma ContinuesJoin(p: seq<State>, s: State, q: seq<State>)
    requires Continues(p, s) && Continues(q, p[|p| - 1])
    ensures Continues(p + q[1..], s) && (p + q[1..])[|p + q[1..]| - 1] == q[|q| - 1]
  {
    hide Next;
    var r := p + q[1..];
    forall i | 0 <= i < |r| - 1
      ensures Next(r[i], r[i + 1])
    {
      if i < |p| - 1 {
        assert r[i] == p[i] && r[i + 1] == p[i + 1];
      } else {
        var k := i - (|p| - 1);
        assert r[i] == q[k] && r[i + 1] == q[k + 1];
        assert Next(q[k], q[k + 1]);
      }
    }
  }

  /** Whom a waker is to wake is a task. */
  ghost predicate TargetsThere(s: State)
  {
    forall t :: t in s.local && s.local[t].pc in {UStore, UWake} ==> s.local[t].target in s.local
  }

  lemma NextTargets(s: State, s': State)
    requires TargetsThere(s) && Next(s, s')
    ensures TargetsThere(s')
  {
    hide Omit;
    if t :| Solo(s, s', t) {
      SoloTarget(s, s', t);
    }
  }

  lemma SoloTarget(s: State, s': State, t: Task)
    requires Solo(s, s', t)
    ensures s'.local[t].pc in {UStore, UWake} ==>
      s'.local[t].target in s.local || (s.local[t].pc == UStore && s'.local[t].target == s.local[t].target)
  {
    hide Omit;
  }

  lemma {:induction false} RunTargets(r: seq<State>, i: nat)
    requires Run(r) && i < |r|
    ensures TargetsThere(r[i])
  {
    hide Next;
    if i > 0 {
      RunTargets(r, i - 1);
      assert Next(r[i - 1], r[i - 1 + 1]);
      NextTargets(r[i - 1], r[i]);
    }
  }

  /** What every state of a run satisfies. */
  ghost predicate Safe(s: State)
  {
    Inv(s) && WakeupOnItsWay(s) && TargetsThere(s)
  }

  lemma {:induction false} ContinuesSafe(p: seq<State>, s: State, i: nat)
    requires Continues(p, s) && Safe(s) && i < |p|
    ensures Safe(p[i])
  {
    hide Next, Inv, WakeupOnItsWay, TargetsThere;
    if i > 0 {
      ContinuesSafe(p, s, i - 1);
      assert Next(p[i - 1], p[i - 1 + 1]);
      NextInv(p[i - 1], p[i]);
      NextWakes(p[i - 1], p[i]);
      NextTargets(p[i - 1], p[i]);
    }
  }

  /** How far a task is from being done with the mutex. */
  function Weight(pc: Pc): nat
  {
    match pc
    case Idle => 0
    case UWake => 1
    case LGive => 1
    case UStore => 2
    case URead => 3
    case UFast => 4
    case UTop => 4
    case USpin => 4
    case Holds => 5
    case LLeave => 6
    case LTaken => 7
    case LSleep => 8
    case LWoke => 8
    case LWokeSpin => 8
    case LRace => 8
    case LRaceSpin => 8
    case LPublish => 9
    case LPush => 10
    case LRaceLocked => 10
    case _ => 11
  }

  /** What is left to do, as a set that shrinks. */
  ghost function Load(s: State): set<(Task, nat)>
  {
    set t, k: nat | t in s.local && 0 <= k < Weight(s.local[t].pc) :: (t, k)
  }

  /** t has come nearer to the end, and the others stay where they are. */
  ghost predicate Lighter(s: State, s': State, t: Task)
  {
    && t in s.local && s'.local.Keys == s.local.Keys && Weight(s'.local[t].pc) < Weight(s.local[t].pc)
    && forall u :: u in s.local && u != t ==> s'.local[u].pc == s.local[u].pc
  }

  lemma LighterLoad(s: State, s': State, t: Task)
    requires Lighter(s, s', t)
    ensures Load(s') < Load(s)
  {
    hide Weight;
    forall u, k: nat | u in s'.local && 0 <= k < Weight(s'.local[u].pc)
      ensures (u, k) in Load(s)
    {
      assert u in s.local && k < Weight(s.local[u].pc);
    }
    var k: nat := Weight(s'.local[t].pc);
    assert (t, k) in Load(s) && (t, k) !in Load(s');
  }

  // ---- one step ----------------------------------------------------------------------------------

  lemma SoloOn(s: State, t: Task, w: LockWord, q: seq<Task>, l: Local) returns (p: seq<State>)
    requires t in s.local && Weight(l.pc) < Weight(s.local[t].pc)
    requires LockStep(s.word, s.waiters, t, s.local[t], w, q, l)
      || WokenStep(s.word, s.waiters, t, s.local[t], w, q, l) || UnlockStep(s, t, s.local[t], w, q, l)
    ensures Continues(p, s) && Lighter(s, p[|p| - 1], t)
  {
    hide LockStep, WokenStep, UnlockStep, Weight, Wake, Transfer;
    var s' := After(s, t, w, q, l);
    assert Solo(s, s', t);
    p := [s, s'];
  }

  /** A task with the LOCK bit goes on: to sleep, */
  lemma SleeperOn(s: State, t: Task) returns (p: seq<State>)
    requires t in s.local && s.local[t].pc in {LPush, LPublish}
    ensures Continues(p, s) && Lighter(s, p[|p| - 1], t)
  {
    hide Continues, Lighter, WokenStep, UnlockStep;
    var w, q, l := s.word, s.waiters, s.local[t];
    if l.pc == LPush {
      p := SoloOn(s, t, w, q + [t], l.(pc := LPublish));
    } else {
      p := SoloOn(s, t, l.seen.(lock := false, waiter := true), q, l.(pc := LSleep));
    }
  }

  /** after a sleep, */
  lemma WokenOn(s: State, t: Task) returns (p: seq<State>)
    requires t in s.local && s.local[t].pc in {LTaken, LLeave, LRaceLocked, LGive}
    ensures Continues(p, s) && Lighter(s, p[|p| - 1], t)
  {
    hide Continues, Lighter, Omit, LockStep, UnlockStep;
    var w, q, l := s.word, s.waiters, s.local[t];
    match l.pc
    case LTaken => p := SoloOn(s, t, w, Omit(q, t), l.(pc := LLeave));
    case LLeave => p := SoloOn(s, t, LockWord(By(t), false, q != []), q, l.(pc := Holds));
    case LRaceLocked => p := SoloOn(s, t, w, q, l.(pc := LPublish, ticket := l.ticket + 1, mine := l.ticket + 1));
    case LGive => p := SoloOn(s, t, l.seen.(lock := false, waiter := l.seen.waiter && q != []), q, l.(pc := Idle));
  }

  /** or releasing the mutex. */
  lemma ReaderOn(s: State, t: Task) returns (p: seq<State>)
    requires Inv(s) && t in s.local && s.local[t].pc in {URead, UStore}
    ensures Continues(p, s) && Lighter(s, p[|p| - 1], t)
  {
    hide Inv, Continues, Lighter, LockStep, WokenStep;
    var w, q, l := s.word, s.waiters, s.local[t];
    if l.pc == URead {
      ReadsFront(s, t);
      p := SoloOn(s, t, w, q, l.(pc := UStore, target := q[0], tick := s.local[q[0]].mine));
    } else {
      p := SoloOn(s, t, LockWord(Nobody, false, true), q, l.(pc := UWake));
    }
  }

  lemma BitOn(s: State, t: Task) returns (p: seq<State>)
    requires Inv(s) && t in s.local && Bit(s.local[t].pc)
    ensures Continues(p, s) && Lighter(s, p[|p| - 1], t)
  {
    hide Inv, Continues, Lighter;
    if s.local[t].pc in {LPush, LPublish} {
      p := SleeperOn(s, t);
    } else if s.local[t].pc in {URead, UStore} {
      p := ReaderOn(s, t);
    } else {
      p := WokenOn(s, t);
    }
  }

  lemma ReadsFront(s: State, t: Task)
    requires Inv(s) && t in s.local && s.local[t].pc == URead
    ensures s.waiters != [] && s.waiters[0] in s.local
  {
    hide NoRepeat;
    assert Knows(s.word, s.waiters, t, s.local[t]);
    assert s.waiters[0] in s.waiters;
  }

  /** A waker consumes its ticket. */
  lemma WakeOn(s: State, t: Task) returns (p: seq<State>)
    requires t in s.local && s.local[t].pc == UWake && s.local[t].target in s.local && s.local[t].target != t
    ensures Continues(p, s) && Lighter(s, p[|p| - 1], t)
  {
    hide Solo, Transfer;
    var u, l := s.local[t].target, s.local[t].(pc := Idle);
    var s' := s.(local := if s.local[u].ticket == s.local[t].tick
                          then s.local[t := l][u := s.local[u].(ticket := s.local[u].ticket + 1)]
                          else s.local[t := l]);
    assert Wake(s, s', t);
    p := [s, s'];
  }

  // ---- releasing ---------------------------------------------------------------------------------

  /** Steps of one task only are a continuation, and leave the others alone. */
  lemma {:induction false} StepsContinue(p: seq<State>, s: State, t: Task)
    requires Steps(p, s, t) && t in s.local
    ensures Continues(p, s) && p[|p| - 1].local.Keys == s.local.Keys
    ensures forall u :: u in s.local && u != t ==> p[|p| - 1].local[u].pc == s.local[u].pc
    decreases |p|
  {
    hide Wake, Transfer, LockStep, WokenStep, UnlockStep;
    if |p| > 1 {
      var q := p[..|p| - 1];
      assert Steps(q, s, t) by {
        forall k | 0 <= k < |q| - 1
          ensures Solo(q[k], q[k + 1], t)
        {
          assert Solo(p[k], p[k + 1], t);
        }
      }
      StepsContinue(q, s, t);
      assert Solo(p[|p| - 2], p[|p| - 2 + 1], t);
      assert q[|q| - 1] == p[|p| - 2];
      assert forall k :: 0 <= k < |p| - 1 ==> Solo(p[k], p[k + 1], t);
    }
  }

  /** With a current copy of the word, the mutex is released in one step. */
  lemma FreshRelease(p: seq<State>, s: State, t: Task) returns (p': seq<State>)
    requires Steps(p, s, t) && |p| > 0 && t in s.local && t in p[|p| - 1].local
    requires var e := p[|p| - 1]; e.local[t].pc == UTop && e.local[t].seen == e.word && !e.word.lock
    ensures Steps(p', s, t) && t in p'[|p'| - 1].local && p'[|p'| - 1].local[t].pc in {Idle, URead}
  {
    hide Steps, After, LockStep;
    var e := p[|p| - 1];
    var w, q, l := e.word, e.waiters, e.local[t];
    if w.waiter {
      p' := Extend(p, s, t, LockWord(Nobody, true, true), q, l.(pc := URead));
    } else {
      p' := Extend(p, s, t, FREE, q, l.(pc := Idle));
    }
  }

  /** A task that is releasing the mutex comes to read the list, or is done. */
  lemma ReleaseOn(s: State, t: Task) returns (p: seq<State>)
    requires t in s.local && s.local[t].pc in {UFast, UTop, USpin} && !s.word.lock
    ensures Continues(p, s) && Lighter(s, p[|p| - 1], t)
  {
    hide Steps, After, LockStep, Continues;
    var w, q, l := s.word, s.waiters, s.local[t];
    p := Start(s, t);
    if l.pc == UTop && l.seen.lock {
      p := Extend(p, s, t, w, q, l.(pc := USpin));
      p := Extend(p, s, t, w, q, l.(pc := UTop, seen := w));
    } else if l.pc != UTop || l.seen != w {
      p := Extend(p, s, t, w, q, l.(pc := UTop, seen := w));
    }
    p := FreshRelease(p, s, t);
    StepsContinue(p, s, t);
  }

  // ---- taking ------------------------------------------------------------------------------------

  /** With a current copy of the word, the free mutex is taken in one step. */
  lemma FreshTake(p: seq<State>, s: State, t: Task) returns (p': seq<State>)
    requires Steps(p, s, t) && |p| > 0 && t in s.local && t in p[|p| - 1].local
    requires var e := p[|p| - 1]; e.local[t].pc == LTop && e.local[t].seen == e.word == FREE
    ensures Steps(p', s, t) && t in p'[|p'| - 1].local && p'[|p'| - 1].local[t].pc == Holds
  {
    hide Steps, After, UnlockStep;
    var e := p[|p| - 1];
    p' := Extend(p, s, t, LockWord(By(t), false, false), e.waiters, e.local[t].(pc := Holds));
  }

  /** A task that is not on the list takes the free mutex; a trylock that saw the LOCK bit or
      an owner gives up. */
  lemma TakeOn(s: State, t: Task) returns (p: seq<State>)
    requires t in s.local && s.local[t].pc in {LFast, LTop, LSpin, LEnter} && s.word == FREE
    ensures Continues(p, s) && Lighter(s, p[|p| - 1], t)
    ensures s.local[t].mode != Try ==> p[|p| - 1].local[t].pc == Holds
  {
    hide Steps, After, UnlockStep, Continues;
    var w, q, l := s.word, s.waiters, s.local[t];
    p := Start(s, t);
    if l.pc == LTop && (l.seen.lock || l.seen.owner.By?) {
      if l.mode == Try {
        p := Extend(p, s, t, w, q, l.(pc := Idle));
        StepsContinue(p, s, t);
        return;
      }
      if l.seen.lock {
        p := Extend(p, s, t, w, q, l.(pc := LSpin));
        p := Extend(p, s, t, w, q, l.(pc := LTop, seen := w));
      } else {
        var l2 := l.(pc := LEnter, ticket := l.ticket + 1, mine := l.ticket + 1);
        p := Extend(p, s, t, w, q, l2);
        p := Extend(p, s, t, w, q, l2.(pc := LTop, seen := w));
      }
    } else if l.pc != LTop || l.seen != w {
      p := Extend(p, s, t, w, q, l.(pc := LTop, seen := w));
    }
    p := FreshTake(p, s, t);
    StepsContinue(p, s, t);
  }

  /** A listed waiter takes the mutex that nobody has. */
  lemma WaiterOn(s: State) returns (p: seq<State>, t: Task)
    requires Inv(s) && WakeupOnItsWay(s) && s.word.owner.Nobody? && !s.word.lock && s.waiters != []
    requires forall u :: u in s.local ==> s.local[u].pc != UWake
    ensures Continues(p, s) && Lighter(s, p[|p| - 1], t)
  {
    hide AllKnow, OneHolder, ListExact, NoRepeat, Solo;
    t :| t in s.local && (Awake(s.local[t]) || Pending(s, t));
    assert !Bit(s.local[t].pc);
    p := AwakeTakes(s, t);
    StepsContinue(p, s, t);
    TakenIsLighter(s.local[t], p[|p| - 1].local[t]);
  }

  lemma TakenIsLighter(l: Local, l': Local)
    requires Awake(l) && Token(l'.pc)
    ensures Weight(l'.pc) < Weight(l.pc)
  {
  }

  // ---- all of it ---------------------------------------------------------------------------------

  ghost predicate AllIdle(s: State)
  {
    forall t :: t in s.local ==> s.local[t].pc == Idle
  }

  /** As long as anyone is busy, somebody can come nearer to the end. */
  lemma Progress(s: State) returns (p: seq<State>, t: Task)
    requires Safe(s) && !AllIdle(s)
    ensures Continues(p, s) && Lighter(s, p[|p| - 1], t)
  {
    hide Inv, WakeupOnItsWay, Continues, Lighter, Knows;
    if u :| u in s.local && Bit(s.local[u].pc) {
      t := u;
      p := BitOn(s, t);
    } else if u :| u in s.local && s.local[u].pc == UWake {
      t := u;
      WakerTarget(s, t);
      p := WakeOn(s, t);
    } else {
      NoBit(s);
      if u :| u in s.local && Token(s.local[u].pc) {
        t := u;
        p := HolderOn(s, t);
      } else {
        NoHolder(s);
        if s.waiters != [] {
          p, t := WaiterOn(s);
        } else {
          t :| t in s.local && s.local[t].pc != Idle;
          OutsideList(s, t);
          p := TakeOn(s, t);
        }
      }
    }
  }

  lemma HolderOn(s: State, t: Task) returns (p: seq<State>)
    requires t in s.local && Token(s.local[t].pc) && !Bit(s.local[t].pc) && !s.word.lock
    ensures Continues(p, s) && Lighter(s, p[|p| - 1], t)
  {
    hide Continues, Lighter, LockStep, WokenStep;
    if s.local[t].pc == Holds {
      p := SoloOn(s, t, s.word, s.waiters, s.local[t].(pc := UFast));
    } else {
      p := ReleaseOn(s, t);
    }
  }

  lemma WakerTarget(s: State, t: Task)
    requires Inv(s) && t in s.local && s.local[t].pc == UWake
    ensures s.local[t].target != t
  {
    assert Knows(s.word, s.waiters, t, s.local[t]);
  }

  lemma NoBit(s: State)
    requires Inv(s) && forall u :: u in s.local ==> !Bit(s.local[u].pc)
    ensures !s.word.lock
  {
    hide AllKnow, OneHolder, ListExact;
  }

  lemma NoHolder(s: State)
    requires Inv(s) && !s.word.lock && forall u :: u in s.local ==> !Token(s.local[u].pc)
    ensures s.word.owner.Nobody? && (s.waiters == [] ==> s.word == FREE)
  {
    hide AllKnow, OneBit, ListExact;
  }

  lemma OutsideList(s: State, t: Task)
    requires Inv(s) && s.waiters == [] && t in s.local && s.local[t].pc != Idle && s.local[t].pc != UWake
    requires !Bit(s.local[t].pc) && !Token(s.local[t].pc)
    ensures s.local[t].pc in {LFast, LTop, LSpin, LEnter}
  {
    hide AllKnow, OneHolder, OneBit, NoRepeat;
  }

  lemma {:induction false} CanDrain(s: State) returns (p: seq<State>)
    requires Safe(s)
    ensures Continues(p, s) && Safe(p[|p| - 1]) && AllIdle(p[|p| - 1])
    decreases Load(s)
  {
    hide Safe, Next, Load, Lighter;
    if AllIdle(s) {
      p := [s];
    } else {
      var a, t := Progress(s);
      var s1 := a[|a| - 1];
      ContinuesSafe(a, s, |a| - 1);
      LighterLoad(s, s1, t);
      var b := CanDrain(s1);
      ContinuesJoin(a, s, b);
      p := a + b[1..];
    }
  }

  /** From every state of every run there is a way on in which all tasks finish their calls and
      release the mutex; it is then free, with nobody on its list. */
  lemma NobodyStuck(r: seq<State>, i: nat) returns (p: seq<State>)
    requires Run(r) && i < |r|
    ensures Continues(p, r[i]) && AllIdle(p[|p| - 1]) && p[|p| - 1].word == FREE && p[|p| - 1].waiters == []
  {
    hide Inv, WakeupOnItsWay, Next, TargetsThere;
    RunSafe(r, i);
    RunTargets(r, i);
    p := CanDrain(r[i]);
    IdleFree(p[|p| - 1]);
  }

  lemma IdleFree(s: State)
    requires Inv(s) && AllIdle(s)
    ensures s.word == FREE && s.waiters == []
  {
    hide AllKnow, NoRepeat;
    if s.waiters != [] {
      SomeMember(s.waiters);
    }
  }

  lemma SomeMember(q: seq<Task>)
    requires q != []
    ensures exists t :: t in q
  {
    assert q[0] in q;
  }
}
