/**
  The kernel mutex (kernel/mutex.cc) as a transition system over any number of tasks.

  The mutex is one word (owner, LOCK bit, WAITER bit) and a list of waiters that is edited
  only under the LOCK bit.  A step is one compare-and-swap, load or store of the word, one
  edit of the list, or one change of a blocking ticket; memory is sequentially consistent
  and a weak compare-and-swap may fail for no reason.
 */
module Mutex {
  import opened Basics

  type Task = nat

  datatype Owner = Nobody | By(task: Task)

  /** m_owner_and_flags: MUTEX_PTR, MUTEX_LOCK, MUTEX_WAITER. */
  datatype LockWord = LockWord(owner: Owner, lock: bool, waiter: bool)

  const FREE: LockWord := LockWord(Nobody, false, false)

  /** How long a lock call is ready to wait: trylock; with a timeout or interruptibly; lock. */
  datatype Mode = Try | Bounded | Forever

  /** Where a task is.  L*: taking the mutex, U*: releasing it. */
  datatype Pc =
    | Idle | Holds
    | LFast | LTop | LSpin | LEnter | LPush | LPublish | LSleep
    | LWoke | LWokeSpin | LTaken | LLeave
    | LRace | LRaceSpin | LRaceLocked | LGive
    | UFast | UTop | USpin | URead | UStore | UWake

  /** One task: its place, its copy of the word (state.lockval), its current blocking ticket
      (unblock_ticket), the ticket in its waiter record, and the waiter it is to wake. */
  datatype Local = Local(pc: Pc, mode: Mode, seen: LockWord, ticket: nat, mine: nat, target: Task, tick: nat)

  datatype State = State(word: LockWord, waiters: seq<Task>, local: map<Task, Local>)

  // ---- the steps ---------------------------------------------------------------------------

  /** atomic_cmpxchg_weak. */
  ghost predicate Cas(w: LockWord, expected: LockWord, desired: LockWord, w': LockWord, ok: bool)
  {
    if ok then w == expected && w' == desired else w' == w
  }

  /** Where the loop that tries to take the mutex after waking goes on, having seen w. */
  function WokeNext(w: LockWord): Pc
  {
    if w.lock then LWokeSpin else if w.owner.Nobody? then LWoke else LRace
  }

  /** Where the loop that tries to set the LOCK bit after losing the race goes on. */
  function RaceNext(w: LockWord): Pc
  {
    if w.lock then LRaceSpin else if w.owner.Nobody? then LWoke else LRace
  }

  /** A task that is not in this mutex may draw tickets elsewhere. */
  ghost predicate Elsewhere(l: Local, l': Local)
  {
    l'.ticket >= l.ticket && l' == l.(ticket := l'.ticket)
  }

  /** lock and its variants, up to falling asleep or giving up. */
  ghost predicate LockStep(w: LockWord, q: seq<Task>, t: Task, l: Local, w': LockWord, q': seq<Task>, l': Local)
  {
    match l.pc
    case Idle => w' == w && q' == q && (l' == l.(pc := LFast, mode := l'.mode) || Elsewhere(l, l'))
    case LFast => q' == q && (
      || (Cas(w, FREE, LockWord(By(t), false, false), w', true) && l' == l.(pc := Holds))
      || (Cas(w, FREE, LockWord(By(t), false, false), w', false) && l' == l.(pc := LTop, seen := w)))
    case LTop =>
      if l.seen.lock then
        w' == w && q' == q && l' == l.(pc := if l.mode == Try then Idle else LSpin)
      else if l.seen.owner.Nobody? then
        q' == q && (
          || (Cas(w, l.seen, l.seen.(owner := By(t)), w', true) && l' == l.(pc := Holds))
          || (Cas(w, l.seen, l.seen.(owner := By(t)), w', false) && l' == l.(seen := w)))
      else
        w' == w && q' == q && (
          || (l.mode != Forever && l' == l.(pc := Idle))
          || (l.mode != Try && l' == l.(pc := LEnter, ticket := l.ticket + 1, mine := l.ticket + 1)))
    case LSpin => w' == w && q' == q && l' == l.(seen := w, pc := if w.lock then LSpin else LTop)
    case LEnter => q' == q && (
      || (Cas(w, l.seen, l.seen.(lock := true), w', true) && l' == l.(pc := LPush))
      || (Cas(w, l.seen, l.seen.(lock := true), w', false) && l' == l.(pc := LTop, seen := w)))
    case LPush => w' == w && q' == q + [t] && l' == l.(pc := LPublish)
    case LPublish => w' == l.seen.(lock := false, waiter := true) && q' == q && l' == l.(pc := LSleep)
    case _ => false
  }

  /** lock, from sleep on.  A sleeper goes on once its ticket is consumed; the timer may
      consume the ticket of a bounded wait. */
  ghost predicate WokenStep(w: LockWord, q: seq<Task>, t: Task, l: Local, w': LockWord, q': seq<Task>, l': Local)
  {
    match l.pc
    case LSleep => w' == w && q' == q && (
      || (l.ticket != l.mine && l' == l.(pc := LWoke, seen := LockWord(Nobody, false, true)))
      || (l.mode == Bounded && l.ticket == l.mine && l' == l.(ticket := l.ticket + 1)))
    case LWoke => q' == q && (
      || (Cas(w, l.seen, LockWord(By(t), true, true), w', true) && l' == l.(pc := LTaken))
      || (Cas(w, l.seen, LockWord(By(t), true, true), w', false) && l' == l.(seen := w, pc := WokeNext(w))))
    case LWokeSpin => w' == w && q' == q && l' == l.(seen := w, pc := WokeNext(w))
    case LTaken => w' == w && q' == Omit(q, t) && l' == l.(pc := LLeave)
    case LLeave => w' == LockWord(By(t), false, q != []) && q' == q && l' == l.(pc := Holds)
    case LRace => q' == q && (
      || (Cas(w, l.seen, l.seen.(lock := true), w', true) && l' == l.(pc := LRaceLocked))
      || (Cas(w, l.seen, l.seen.(lock := true), w', false) && l' == l.(seen := w, pc := RaceNext(w))))
    case LRaceSpin => w' == w && q' == q && l' == l.(seen := w, pc := RaceNext(w))
    case LRaceLocked => w' == w && (
      || (q' == q && l' == l.(pc := LPublish, ticket := l.ticket + 1, mine := l.ticket + 1))
      || (l.mode == Bounded && q' == Omit(q, t) && l' == l.(pc := LGive)))
    case LGive => w' == l.seen.(lock := false, waiter := l.seen.waiter && q != []) && q' == q && l' == l.(pc := Idle)
    case _ => false
  }

  /** unlock, up to the wakeup. */
  ghost predicate UnlockStep(s: State, t: Task, l: Local, w': LockWord, q': seq<Task>, l': Local)
  {
    var w, q := s.word, s.waiters;
    match l.pc
    case Holds => w' == w && q' == q && (l' == l.(pc := UFast) || Elsewhere(l, l'))
    case UFast => q' == q && (
      || (Cas(w, LockWord(By(t), false, false), FREE, w', true) && l' == l.(pc := Idle))
      || (Cas(w, LockWord(By(t), false, false), FREE, w', false) && l' == l.(pc := UTop, seen := w)))
    case UTop =>
      if l.seen.lock then
        w' == w && q' == q && l' == l.(pc := USpin)
      else if !l.seen.waiter then
        q' == q && (
          || (Cas(w, l.seen, FREE, w', true) && l' == l.(pc := Idle))
          || (Cas(w, l.seen, FREE, w', false) && l' == l.(seen := w)))
      else
        q' == q && (
          || (Cas(w, l.seen, LockWord(Nobody, true, true), w', true) && l' == l.(pc := URead))
          || (Cas(w, l.seen, LockWord(Nobody, true, true), w', false) && l' == l.(seen := w)))
    case USpin => w' == w && q' == q && l' == l.(seen := w, pc := if w.lock then USpin else UTop)
    case URead =>
      && w' == w && q' == q && q != [] && q[0] in s.local
      && l' == l.(pc := UStore, target := q[0], tick := s.local[q[0]].mine)
    case UStore => w' == LockWord(Nobody, false, true) && q' == q && l' == l.(pc := UWake)
    case _ => false
  }

  /** A step that changes one task only. */
  ghost predicate Solo(s: State, s': State, t: Task)
  {
    && t in s.local && t in s'.local && s'.local == s.local[t := s'.local[t]]
    && var w, q, l, w', q', l' := s.word, s.waiters, s.local[t], s'.word, s'.waiters, s'.local[t];
    LockStep(w, q, t, l, w', q', l') || WokenStep(w, q, t, l, w', q', l') || UnlockStep(s, t, l, w', q', l')
  }

  /** sched_wake: consumes the ticket read from the list if the waiter still has it. */
  ghost predicate Wake(s: State, s': State, t: Task)
  {
    && t in s.local && s.local[t].pc == UWake
    && var u, l := s.local[t].target, s.local[t].(pc := Idle);
    && u in s.local
    && s' == s.(local := if s.local[u].ticket == s.local[t].tick
                         then s.local[t := l][u := s.local[u].(ticket := s.local[u].ticket + 1)]
                         else s.local[t := l])
  }

  /** A holder passes the mutex on; the reader-writer lock releases it in another task. */
  ghost predicate Transfer(s: State, s': State, t: Task, u: Task)
  {
    && t in s.local && u in s.local && s.local[t].pc == Holds && s.local[u].pc == Idle
    && s' == s.(local := s.local[t := s.local[t].(pc := Idle)][u := s.local[u].(pc := Holds)])
  }

  ghost predicate Next(s: State, s': State)
  {
    || (exists t :: Solo(s, s', t))
    || (exists t :: Wake(s, s', t))
    || (exists t, u :: Transfer(s, s', t, u))
  }

  ghost predicate Init(s: State)
  {
    s.word == FREE && s.waiters == [] && forall t :: t in s.local ==>
      s.local[t].pc == Idle && s.local[t].mine <= s.local[t].ticket
  }

  // ---- the invariant -----------------------------------------------------------------------

  /** The task has the mutex. */
  predicate Token(pc: Pc)
  {
    pc in {Holds, UFast, UTop, USpin, LTaken, LLeave}
  }

  /** The task has the LOCK bit. */
  predicate Bit(pc: Pc)
  {
    pc in {LPush, LPublish, LTaken, LLeave, LRaceLocked, LGive, URead, UStore}
  }

  /** The task's waiter record is on the list. */
  predicate OnList(pc: Pc)
  {
    pc in {LPublish, LSleep, LWoke, LWokeSpin, LTaken, LRace, LRaceSpin, LRaceLocked}
  }

  /** What a task at its place knows. */
  ghost predicate Knows(w: LockWord, q: seq<Task>, t: Task, l: Local)
  {
    && l.mine <= l.ticket
    && match l.pc
      case LEnter => l.seen.owner.By? && !l.seen.lock
      case LRace => l.seen.owner.By? && !l.seen.lock
      case LWoke => l.seen.owner.Nobody? && !l.seen.lock
      case LPush => l.seen.owner.By? && w == l.seen.(lock := true) && !l.seen.lock
      case LPublish => l.seen.owner.By? && w == l.seen.(lock := true)
      case LRaceLocked => l.seen.owner.By? && w == l.seen.(lock := true) && l.seen.waiter
      case LGive => l.seen.owner.By? && w == l.seen.(lock := true) && l.seen.waiter && l.mode == Bounded
      case LTaken => w == LockWord(By(t), true, true)
      case LLeave => w == LockWord(By(t), true, true)
      case URead => w == LockWord(Nobody, true, true) && q != []
      case UStore => w == LockWord(Nobody, true, true) && q != [] && l.target != t
      case UWake => l.target != t
      case _ => true
  }

  ghost predicate AllKnow(s: State)
  {
    forall t :: t in s.local ==> Knows(s.word, s.waiters, t, s.local[t])
  }

  /** The owner field is set exactly when some task has the mutex, and then one task has. */
  ghost predicate OneHolder(s: State)
  {
    && (forall t, u :: t in s.local && u in s.local && Token(s.local[t].pc) && Token(s.local[u].pc) ==> t == u)
    && (s.word.owner.By? <==> exists t :: t in s.local && Token(s.local[t].pc))
  }

  /** The LOCK bit is set exactly when some task has it, and then one task has. */
  ghost predicate OneBit(s: State)
  {
    && (forall t, u :: t in s.local && u in s.local && Bit(s.local[t].pc) && Bit(s.local[u].pc) ==> t == u)
    && (s.word.lock <==> exists t :: t in s.local && Bit(s.local[t].pc))
  }

  /** The list holds each waiter once. */
  ghost predicate ListExact(s: State)
  {
    && NoRepeat(s.waiters)
    && (forall t :: t in s.waiters ==> t in s.local && OnList(s.local[t].pc))
    && (forall t :: t in s.local && OnList(s.local[t].pc) ==> t in s.waiters)
  }

  /** With LOCK clear, WAITER tells whether anyone waits. */
  ghost predicate FlagExact(s: State)
  {
    !s.word.lock ==> (s.word.waiter <==> s.waiters != [])
  }

  ghost predicate Inv(s: State)
  {
    AllKnow(s) && OneHolder(s) && OneBit(s) && ListExact(s) && FlagExact(s)
  }

  // ---- one lemma for all solo steps ----------------------------------------------------------

  /** The effect of a step of task t on the word, the list and the task fits together. */
  ghost predicate Coherent(w: LockWord, q: seq<Task>, t: Task, l: Local, w': LockWord, q': seq<Task>, l': Local)
  {
    && Knows(w', q', t, l')
    && ((w' == w && q' == q) || !w.lock || Bit(l.pc))
    && (Bit(l'.pc) ==> w'.lock && (Bit(l.pc) || !w.lock))
    && (!Bit(l'.pc) ==> (w'.lock <==> w.lock && !Bit(l.pc)))
    && (Token(l'.pc) ==> w'.owner.By? && (Token(l.pc) || w.owner.Nobody?))
    && (!Token(l'.pc) ==> (w'.owner.By? <==> w.owner.By? && !Token(l.pc)))
    && q' == (if OnList(l'.pc) && !OnList(l.pc) then q + [t] else if !OnList(l'.pc) && OnList(l.pc) then Omit(q, t)
      else q)
    && (!w'.lock ==> (w'.waiter <==> q' != []))
  }

  ghost predicate Moves(s: State, s': State, t: Task)
  {
    && t in s.local && t in s'.local && s'.local == s.local[t := s'.local[t]]
    && Coherent(s.word, s.waiters, t, s.local[t], s'.word, s'.waiters, s'.local[t])
  }

  lemma MovesKnow(s: State, s': State, t: Task)
    requires Inv(s) && Moves(s, s', t)
    ensures AllKnow(s')
  {
    hide Omit, NoRepeat;
    forall u | u in s'.local && u != t
      ensures Knows(s'.word, s'.waiters, u, s'.local[u])
    {
      assert s'.local[u] == s.local[u];
      if !(s'.word == s.word && s'.waiters == s.waiters) {
        assert !Bit(s.local[u].pc);
      }
    }
  }

  lemma MovesHolder(s: State, s': State, t: Task)
    requires Inv(s) && Moves(s, s', t)
    ensures OneHolder(s')
  {
    hide Omit, NoRepeat, Knows, Bit, OnList;
    if s'.word.owner.By? {
      var u :| u in s'.local
        && if Token(s'.local[t].pc) then u == t else u in s.local && u != t && Token(s.local[u].pc);
      assert Token(s'.local[u].pc);
    }
  }

  lemma MovesBit(s: State, s': State, t: Task)
    requires Inv(s) && Moves(s, s', t)
    ensures OneBit(s')
  {
    hide Omit, NoRepeat, Knows, Token, OnList;
    if s'.word.lock {
      var u :| u in s'.local && (if Bit(s'.local[t].pc) then u == t else u in s.local && u != t && Bit(s.local[u].pc));
      assert Bit(s'.local[u].pc);
    }
  }

  lemma MovesList(s: State, s': State, t: Task)
    requires Inv(s) && Moves(s, s', t)
    ensures ListExact(s') && FlagExact(s')
  {
    hide Omit, Knows, Token, Bit;
    OmitElems(s.waiters, t);
  }

  lemma MovesInv(s: State, s': State, t: Task)
    requires Inv(s) && Moves(s, s', t)
    ensures Inv(s')
  {
    hide Moves, AllKnow, OneHolder, OneBit, ListExact, FlagExact;
    MovesKnow(s, s', t);
    MovesHolder(s, s', t);
    MovesBit(s, s', t);
    MovesList(s, s', t);
  }

  /** What the invariant says about one task. */
  ghost predicate Placed(w: LockWord, q: seq<Task>, t: Task, l: Local)
  {
    && Knows(w, q, t, l)
    && (Token(l.pc) ==> w.owner.By?) && (Bit(l.pc) ==> w.lock) && (OnList(l.pc) <==> t in q)
    && (!w.lock ==> (w.waiter <==> q != []))
  }

  lemma InvPlaced(s: State, t: Task)
    requires Inv(s) && t in s.local
    ensures Placed(s.word, s.waiters, t, s.local[t])
  {
    hide Knows, NoRepeat;
  }

  lemma LockCoherent(w: LockWord, q: seq<Task>, t: Task, l: Local, w': LockWord, q': seq<Task>, l': Local)
    requires Placed(w, q, t, l) && LockStep(w, q, t, l, w', q', l')
    ensures Coherent(w, q, t, l, w', q', l')
  {
    hide Omit;
  }

  lemma WokenCoherent(w: LockWord, q: seq<Task>, t: Task, l: Local, w': LockWord, q': seq<Task>, l': Local)
    requires Placed(w, q, t, l) && WokenStep(w, q, t, l, w', q', l')
    ensures Coherent(w, q, t, l, w', q', l')
  {
    hide Omit;
  }

  lemma UnlockCoherent(s: State, t: Task, l: Local, w': LockWord, q': seq<Task>, l': Local)
    requires Placed(s.word, s.waiters, t, l) && UnlockStep(s, t, l, w', q', l')
    ensures Coherent(s.word, s.waiters, t, l, w', q', l')
  {
    hide Omit;
  }

  lemma SoloCoherent(s: State, s': State, t: Task)
    requires Inv(s) && Solo(s, s', t)
    ensures Moves(s, s', t)
  {
    hide Inv, LockStep, WokenStep, UnlockStep, Placed, Coherent;
    InvPlaced(s, t);
    var w, q, l, w', q', l' := s.word, s.waiters, s.local[t], s'.word, s'.waiters, s'.local[t];
    if LockStep(w, q, t, l, w', q', l') {
      LockCoherent(w, q, t, l, w', q', l');
    } else if WokenStep(w, q, t, l, w', q', l') {
      WokenCoherent(w, q, t, l, w', q', l');
    } else {
      UnlockCoherent(s, t, l, w', q', l');
    }
  }

  lemma WakeInv(s: State, s': State, t: Task)
    requires Inv(s) && Wake(s, s', t)
    ensures Inv(s')
  {
    hide Inv, Moves;
    InvPlaced(s, t);
    var u, s1 := s.local[t].target, s.(local := s.local[t := s.local[t].(pc := Idle)]);
    StillMoves(s, s1, t);
    MovesInv(s, s1, t);
    if s.local[u].ticket == s.local[t].tick {
      InvPlaced(s1, u);
      StillMoves(s1, s', u);
      MovesInv(s1, s', u);
    }
  }

  /** A step that changes neither word nor list nor what the task has. */
  lemma StillMoves(s: State, s': State, t: Task)
    requires Inv(s) && t in s.local && t in s'.local && s' == s.(local := s.local[t := s'.local[t]])
    requires s'.local[t] == s.local[t].(ticket := s.local[t].ticket + 1)
      || (s.local[t].pc == UWake && s'.local[t] == s.local[t].(pc := Idle))
    ensures Moves(s, s', t)
  {
    hide Inv, Omit;
    InvPlaced(s, t);
  }

  lemma TransferHolder(s: State, s': State, t: Task, u: Task)
    requires Inv(s) && Transfer(s, s', t, u)
    ensures OneHolder(s')
  {
    hide AllKnow, OneBit, ListExact, FlagExact;
    assert Token(s'.local[u].pc);
  }

  lemma TransferBit(s: State, s': State, t: Task, u: Task)
    requires Inv(s) && Transfer(s, s', t, u)
    ensures OneBit(s')
  {
    hide AllKnow, OneHolder, ListExact, FlagExact;
    if s.word.lock {
      var v :| v in s.local && Bit(s.local[v].pc);
      assert Bit(s'.local[v].pc);
    }
  }

  lemma TransferInv(s: State, s': State, t: Task, u: Task)
    requires Inv(s) && Transfer(s, s', t, u)
    ensures Inv(s')
  {
    hide NoRepeat, OneHolder, OneBit;
    TransferHolder(s, s', t, u);
    TransferBit(s, s', t, u);
  }

  lemma NextInv(s: State, s': State)
    requires Inv(s) && Next(s, s')
    ensures Inv(s')
  {
    hide Inv, Solo, Wake, Transfer, Moves;
    if t :| Solo(s, s', t) {
      SoloCoherent(s, s', t);
      MovesInv(s, s', t);
    } else if t :| Wake(s, s', t) {
      WakeInv(s, s', t);
    } else {
      var t, u :| Transfer(s, s', t, u);
      TransferInv(s, s', t, u);
    }
  }

  // ---- no lost wakeup ------------------------------------------------------------------------

  /** A waiter that is past its sleep, or whose ticket is consumed so that it will go on. */
  predicate Awake(l: Local)
  {
    l.pc in {LWoke, LWokeSpin, LRace, LRaceSpin} || (l.pc == LSleep && l.ticket != l.mine)
  }

  /** A task that will wake a listed waiter: it is about to read the list, or has read a
      ticket that is still the waiter's current one. */
  ghost predicate Pending(s: State, u: Task)
    requires u in s.local
  {
    var l := s.local[u];
    || l.pc == URead
    || (l.pc in {UStore, UWake} && l.target in s.waiters && l.target in s.local
        && s.local[l.target].mine == l.tick && s.local[l.target].ticket == l.tick)
  }

  /** While nobody owns the mutex, some waiter is up or about to be woken. */
  ghost predicate WakeupOnItsWay(s: State)
  {
    s.word.owner.Nobody? && s.waiters != [] ==> exists u :: u in s.local && (Awake(s.local[u]) || Pending(s, u))
  }

  /** Without an owner, a waiter on the list is asleep or awake. */
  lemma OnListAwake(w: LockWord, q: seq<Task>, t: Task, l: Local)
    requires Knows(w, q, t, l) && w.owner.Nobody? && OnList(l.pc)
    ensures Awake(l) || (l.pc == LSleep && l.ticket == l.mine)
  {
  }

  /** Without an owner, a waiter that moves is awake. */
  lemma StaysAwake(w: LockWord, q: seq<Task>, t: Task, l: Local, w': LockWord, q': seq<Task>, l': Local)
    requires Knows(w, q, t, l) && OnList(l.pc) && w.owner.Nobody? && w'.owner.Nobody?
    requires WokenStep(w, q, t, l, w', q', l') || LockStep(w, q, t, l, w', q', l')
    ensures Awake(l')
  {
    hide Omit;
  }

  /** A release that leaves waiters behind is on its way to wake one. */
  lemma ReleaseReads(s: State, t: Task, l: Local, w': LockWord, q': seq<Task>, l': Local)
    requires UnlockStep(s, t, l, w', q', l') && s.word.owner.By? && w'.owner.Nobody? && w' != FREE
      && Knows(s.word, s.waiters, t, l)
    ensures l'.pc == URead
  {
  }

  /** The waiter u a step of another task leaves alone keeps its promise. */
  lemma WitnessKept(s: State, s': State, t: Task, u: Task)
    requires Inv(s) && Solo(s, s', t) && s.word.owner.Nobody? && s'.word.owner.Nobody? && s'.waiters == s.waiters
    requires u in s.local && u != t && (Awake(s.local[u]) || Pending(s, u))
    ensures WakeupOnItsWay(s')
  {
    hide Inv, LockStep, WokenStep, Omit;
    assert s'.local[u] == s.local[u];
    var x := s.local[u].target;
    if !Awake(s.local[u]) && s.local[u].pc != URead && x == t {
      ListedPlace(s, t);
      StaysAwake(s.word, s.waiters, t, s.local[t], s'.word, s'.waiters, s'.local[t]);
      assert Awake(s'.local[t]);
    } else {
      assert Awake(s'.local[u]) || Pending(s', u);
    }
  }

  lemma ListedPlace(s: State, t: Task)
    requires Inv(s) && t in s.waiters
    ensures t in s.local && OnList(s.local[t].pc) && Knows(s.word, s.waiters, t, s.local[t])
  {
    hide Knows;
  }

  /** The waiter or waker that moves keeps its own promise. */
  lemma MoverKept(s: State, s': State, t: Task)
    requires Inv(s) && Solo(s, s', t) && s.word.owner.Nobody? && s'.word.owner.Nobody? && s'.waiters == s.waiters
    requires Awake(s.local[t]) || Pending(s, t)
    ensures WakeupOnItsWay(s')
  {
    hide Inv, LockStep, WokenStep, Omit;
    InvPlaced(s, t);
    if Awake(s.local[t]) {
      StaysAwake(s.word, s.waiters, t, s.local[t], s'.word, s'.waiters, s'.local[t]);
      assert Awake(s'.local[t]);
    } else {
      ReaderKept(s, s', t);
    }
  }

  lemma ReaderKept(s: State, s': State, t: Task)
    requires Inv(s) && Solo(s, s', t) && s.word.owner.Nobody? && s'.waiters == s.waiters && Pending(s, t)
    ensures WakeupOnItsWay(s')
  {
    hide Inv, Omit, Knows;
    if s.local[t].pc == URead {
      var x := s.waiters[0];
      ListedPlace(s, x);
      OnListAwake(s.word, s.waiters, x, s.local[x]);
      assert x != t && s'.local[x] == s.local[x];
      assert Awake(s'.local[x]) || Pending(s', t);
    } else {
      var x := s.local[t].target;
      ListedPlace(s, x);
      assert x != t && s'.local[x] == s.local[x];
      assert Pending(s', t);
    }
  }

  /** Only unlock clears the owner. */
  lemma ReleaseIsUnlock(w: LockWord, q: seq<Task>, t: Task, l: Local, w': LockWord, q': seq<Task>, l': Local)
    requires Knows(w, q, t, l) && (LockStep(w, q, t, l, w', q', l') || WokenStep(w, q, t, l, w', q', l')) && w.owner.By?
    ensures w'.owner.By?
  {
    hide Omit;
  }

  /** The list changes only under the LOCK bit and only while there is an owner. */
  lemma EditsUnderLock(s: State, s': State, t: Task)
    requires Inv(s) && Solo(s, s', t) && s'.waiters != s.waiters
    ensures t in s.local && Bit(s.local[t].pc) && s.word.owner.By?
  {
    hide Inv, Omit;
    InvPlaced(s, t);
  }

  lemma SoloWakes(s: State, s': State, t: Task)
    requires Inv(s) && Solo(s, s', t) && WakeupOnItsWay(s)
    ensures WakeupOnItsWay(s')
  {
    hide Inv, LockStep, WokenStep, UnlockStep, Knows, Omit;
    InvPlaced(s, t);
    SoloCoherent(s, s', t);
    if s'.word.owner.Nobody? && s'.waiters != [] {
      var w, q, l, w', q', l' := s.word, s.waiters, s.local[t], s'.word, s'.waiters, s'.local[t];
      if w.owner.By? {
        if LockStep(w, q, t, l, w', q', l') || WokenStep(w, q, t, l, w', q', l') {
          ReleaseIsUnlock(w, q, t, l, w', q', l');
        } else {
          ReleaseReads(s, t, l, w', q', l');
          assert Pending(s', t);
        }
      } else {
        if q' != q { EditsUnderLock(s, s', t); }
        var u :| u in s.local && (Awake(s.local[u]) || Pending(s, u));
        if u == t { MoverKept(s, s', t); } else { WitnessKept(s, s', t, u); }
      }
    }
  }

  /** The waiter whose current ticket was read is awake after the wakeup. */
  lemma WakeWakes(s: State, s': State, t: Task)
    requires Inv(s) && Wake(s, s', t) && WakeupOnItsWay(s)
    ensures WakeupOnItsWay(s')
  {
    hide Inv, Knows, Omit;
    InvPlaced(s, t);
    if s.word.owner.Nobody? && s.waiters != [] {
      var u, x := s.local[t].target, t;
      if v :| v in s.local && v != t && (Awake(s.local[v]) || Pending(s, v)) {
        WakeSpares(s, s', t, v);
      } else {
        ListedPlace(s, u);
        WakeRouses(s, s', t);
      }
    }
  }

  lemma WakeRouses(s: State, s': State, t: Task)
    requires Inv(s) && Wake(s, s', t) && s.word.owner.Nobody?
    requires s.local[s.local[t].target].ticket == s.local[t].tick && s.local[t].target in s.waiters
    ensures WakeupOnItsWay(s')
  {
    hide Inv, Omit;
    var u := s.local[t].target;
    InvPlaced(s, t);
    ListedPlace(s, u);
    OnListAwake(s.word, s.waiters, u, s.local[u]);
    assert Awake(s'.local[u]);
  }

  lemma WakeSpares(s: State, s': State, t: Task, v: Task)
    requires Inv(s) && Wake(s, s', t) && s.word.owner.Nobody? && v in s.local && v != t
      && (Awake(s.local[v]) || Pending(s, v))
    ensures WakeupOnItsWay(s')
  {
    hide Inv, Omit, Knows;
    InvPlaced(s, t);
    InvPlaced(s, v);
    var u, x := s.local[t].target, s.local[v].target;
    if Awake(s.local[v]) {
      AwakeBumped(s.word, s.waiters, v, s.local[v]);
      assert Awake(s'.local[v]);
    } else if s.local[v].pc == URead {
      assert Pending(s', v);
    } else {
      ListedPlace(s, x);
      if x == u && s.local[u].ticket == s.local[t].tick {
        WakeRouses(s, s', t);
      } else {
        assert s'.local[x] == s.local[x];
        assert Pending(s', v);
      }
    }
  }

  lemma AwakeBumped(w: LockWord, q: seq<Task>, t: Task, l: Local)
    requires Knows(w, q, t, l) && Awake(l)
    ensures Awake(l.(ticket := l.ticket + 1))
  {
  }

  lemma NextWakes(s: State, s': State)
    requires Inv(s) && Next(s, s') && WakeupOnItsWay(s)
    ensures WakeupOnItsWay(s')
  {
    hide Inv, Solo, Wake, WakeupOnItsWay;
    if t :| Solo(s, s', t) {
      SoloWakes(s, s', t);
    } else if t :| Wake(s, s', t) {
      WakeWakes(s, s', t);
    } else {
      var t, u :| Transfer(s, s', t, u);
      TransferOwned(s, s', t, u);
    }
  }

  lemma TransferOwned(s: State, s': State, t: Task, u: Task)
    requires Inv(s) && Transfer(s, s', t, u)
    ensures WakeupOnItsWay(s')
  {
    hide Inv, Knows;
    InvPlaced(s, t);
  }

  // ---- whole runs ----------------------------------------------------------------------------

  ghost predicate Run(r: seq<State>)
  {
    |r| > 0 && Init(r[0]) && forall i {:trigger r[i]} :: 0 <= i < |r| - 1 ==> Next(r[i], r[i + 1])
  }

  /** Every state of every run keeps the invariant and loses no wakeup. */
  lemma {:induction false} RunSafe(r: seq<State>, i: nat)
    requires Run(r) && i < |r|
    ensures Inv(r[i]) && WakeupOnItsWay(r[i])
    decreases i
  {
    hide Next, WakeupOnItsWay, Inv;
    if i == 0 {
      InitInv(r[0]);
    } else {
      RunSafe(r, i - 1);
      assert Next(r[i - 1], r[i - 1 + 1]);
      NextInv(r[i - 1], r[i]);
      NextWakes(r[i - 1], r[i]);
    }
  }

  lemma InitInv(s: State)
    requires Init(s)
    ensures Inv(s) && WakeupOnItsWay(s)
  {
  }

  /** At most one task has the mutex, and at most one the LOCK bit, at any time. */
  lemma MutualExclusion(r: seq<State>, i: nat, t: Task, u: Task)
    requires Run(r) && i < |r| && t in r[i].local && u in r[i].local
    ensures Token(r[i].local[t].pc) && Token(r[i].local[u].pc) ==> t == u
    ensures Bit(r[i].local[t].pc) && Bit(r[i].local[u].pc) ==> t == u
    ensures Token(r[i].local[t].pc) ==> r[i].word.owner.By?
    ensures Bit(r[i].local[t].pc) ==> r[i].word.lock
  {
    hide AllKnow, ListExact, FlagExact, WakeupOnItsWay;
    RunSafe(r, i);
  }

  /** With LOCK clear, WAITER is set exactly when the list is not empty; and the list holds
      exactly the tasks that wait. */
  lemma WaiterBitExact(r: seq<State>, i: nat)
    requires Run(r) && i < |r|
    ensures !r[i].word.lock ==> (r[i].word.waiter <==> r[i].waiters != [])
    ensures NoRepeat(r[i].waiters) && forall t :: t in r[i].local ==> (t in r[i].waiters <==> OnList(r[i].local[t].pc))
  {
    hide AllKnow, OneHolder, OneBit, WakeupOnItsWay, NoRepeat;
    RunSafe(r, i);
  }

  /** An unlocker that reads the list finds a waiter on it. */
  lemma FrontExists(r: seq<State>, i: nat, t: Task)
    requires Run(r) && i < |r| && t in r[i].local && r[i].local[t].pc == URead
    ensures r[i].waiters != [] && r[i].waiters[0] in r[i].local
  {
    hide OneHolder, OneBit, FlagExact, WakeupOnItsWay, NoRepeat;
    RunSafe(r, i);
    assert Knows(r[i].word, r[i].waiters, t, r[i].local[t]);
  }

  /** Only the task with the LOCK bit edits the list. */
  lemma OnlyLockHolderEdits(r: seq<State>, i: nat)
    requires Run(r) && i + 1 < |r| && r[i + 1].waiters != r[i].waiters
    ensures exists t :: t in r[i].local && Bit(r[i].local[t].pc) && Solo(r[i], r[i + 1], t)
  {
    hide Inv, WakeupOnItsWay, Solo;
    RunSafe(r, i);
    assert Next(r[i], r[i + 1]);
    var t :| Solo(r[i], r[i + 1], t);
    EditsUnderLock(r[i], r[i + 1], t);
  }

  /** u is about to consume the current ticket of a listed waiter. */
  ghost predicate AboutToWake(s: State, u: Task)
    requires u in s.local
  {
    var x := s.local[u].target;
    s.local[u].pc == UWake && x in s.waiters && x in s.local && s.local[u].tick == s.local[x].mine == s.local[x].ticket
  }

  /** No lost wakeup: with no owner and a waiter on the list, a listed waiter is awake, or a
      wakeup is pending: an unlocker is about to read the list, or has read a listed waiter's
      current ticket.  With the LOCK bit clear it is about to consume that ticket. */
  lemma NoLostWakeup(r: seq<State>, i: nat) returns (u: Task)
    requires Run(r) && i < |r| && r[i].word.owner.Nobody? && r[i].waiters != []
    ensures u in r[i].local && ((u in r[i].waiters && Awake(r[i].local[u])) || Pending(r[i], u))
    ensures !r[i].word.lock ==> (u in r[i].waiters && Awake(r[i].local[u])) || AboutToWake(r[i], u)
  {
    hide AllKnow, OneHolder, FlagExact, NoRepeat;
    RunSafe(r, i);
    u :| u in r[i].local && (Awake(r[i].local[u]) || Pending(r[i], u));
    assert !r[i].word.lock ==> !Bit(r[i].local[u].pc);
  }

  /** Mutex::lock does not return without the mutex. */
  lemma LockNeverFails(s: State, s': State, t: Task)
    requires Inv(s) && Solo(s, s', t) && s.local[t].mode == Forever && s'.local[t].pc == Idle && s.local[t].pc != Idle
    ensures Token(s.local[t].pc) && s.local[t].pc in {UFast, UTop}
  {
    hide Inv, Omit;
    InvPlaced(s, t);
  }

  // ---- no deadlock ---------------------------------------------------------------------------

  /** s with task t and the word replaced. */
  function With(s: State, t: Task, w: LockWord, l: Local): State
  {
    State(w, s.waiters, s.local[t := l])
  }

  /** A continuation from s in which only t moves. */
  ghost predicate Steps(p: seq<State>, s: State, t: Task)
  {
    |p| > 0 && p[0] == s && forall k {:trigger p[k]} :: 0 <= k < |p| - 1 ==> Solo(p[k], p[k + 1], t)
  }

  lemma StepsPrepend(s: State, p: seq<State>, s1: State, t: Task)
    requires Solo(s, s1, t) && Steps(p, s1, t)
    ensures Steps([s] + p, s, t)
  {
    hide Solo;
    var q := [s] + p;
    forall k | 0 <= k < |q| - 1
      ensures Solo(q[k], q[k + 1], t)
    {
      if k > 0 { assert q[k] == p[k - 1] && q[k + 1] == p[k]; }
    }
  }

  /** A waiter whose copy of the word is current takes the free mutex at once. */
  lemma FreshTakes(s: State, t: Task) returns (p: seq<State>)
    requires t in s.local && s.word == LockWord(Nobody, false, true) && s.local[t].pc == LWoke
      && s.local[t].seen == s.word
    ensures Steps(p, s, t) && |p| == 2 && t in p[1].local && Token(p[1].local[t].pc)
  {
    hide LockStep, UnlockStep;
    var s1 := With(s, t, LockWord(By(t), true, true), s.local[t].(pc := LTaken));
    p := [s, s1];
    assert Solo(s, s1, t);
  }

  /** Any awake waiter takes the free mutex in at most three steps of its own. */
  lemma AwakeTakes(s: State, t: Task) returns (p: seq<State>)
    requires t in s.local && s.word == LockWord(Nobody, false, true) && Awake(s.local[t])
    ensures Steps(p, s, t) && |p| <= 4 && t in p[|p| - 1].local && Token(p[|p| - 1].local[t].pc)
  {
    hide LockStep, UnlockStep, Steps;
    var l := s.local[t];
    if l.pc == LSleep {
      var s1 := With(s, t, s.word, l.(pc := LWoke, seen := LockWord(Nobody, false, true)));
      assert Solo(s, s1, t);
      p := FreshTakes(s1, t);
      StepsPrepend(s, p, s1, t);
      p := [s] + p;
    } else {
      var s1 := With(s, t, s.word, l.(pc := LWoke, seen := s.word));
      assert Solo(s, s1, t);
      p := FreshTakes(s1, t);
      StepsPrepend(s, p, s1, t);
      p := [s] + p;
    }
  }

  /** From every reachable state with no owner, the LOCK bit clear and a waiter on the list,
      some listed waiter can still get the mutex, by steps of its own after at most one wakeup. */
  lemma NoDeadlock(r: seq<State>, i: nat) returns (s: State, t: Task, p: seq<State>)
    requires Run(r) && i < |r| && r[i].word.owner.Nobody? && !r[i].word.lock && r[i].waiters != []
    ensures s == r[i] || Next(r[i], s)
    ensures t in r[i].waiters && Steps(p, s, t) && |p| <= 4 && t in p[|p| - 1].local && Token(p[|p| - 1].local[t].pc)
  {
    hide Inv, WakeupOnItsWay, Solo, Run, Transfer, Knows, Steps;
    WaiterBitExact(r, i);
    var u := NoLostWakeup(r, i);
    RunSafe(r, i);
    s := r[i];
    if Awake(s.local[u]) {
      t := u;
    } else {
      t := s.local[u].target;
      ListedPlace(s, t);
      OnListAwake(s.word, s.waiters, t, s.local[t]);
      var l := s.local[t];
      s := s.(local := s.local[u := s.local[u].(pc := Idle)][t := l.(ticket := l.ticket + 1)]);
      assert Wake(r[i], s, u);
      AwakeAfter(r[i].word, r[i].waiters, t, l);
    }
    p := AwakeTakes(s, t);
  }

  /** A sleeper whose current ticket is consumed is awake. */
  lemma AwakeAfter(w: LockWord, q: seq<Task>, t: Task, l: Local)
    requires Knows(w, q, t, l) && OnList(l.pc) && w.owner.Nobody?
    ensures Awake(l.(ticket := l.ticket + 1))
  {
  }

  // ---- what a task can always do ---------------------------------------------------------------

  /** s with task t, the word and the list replaced. */
  function After(s: State, t: Task, w: LockWord, q: seq<Task>, l: Local): State
  {
    State(w, q, s.local[t := l])
  }

  /** A step of t from the end of a continuation. */
  lemma Extend(p: seq<State>, s: State, t: Task, w: LockWord, q: seq<Task>, l: Local) returns (p': seq<State>)
    requires Steps(p, s, t) && t in p[|p| - 1].local
    requires var e := p[|p| - 1];
      || LockStep(e.word, e.waiters, t, e.local[t], w, q, l) || WokenStep(e.word, e.waiters, t, e.local[t], w, q, l)
      || UnlockStep(e, t, e.local[t], w, q, l)
    ensures Steps(p', s, t) && |p'| == |p| + 1 && p'[..|p|] == p && p'[|p|] == After(p[|p| - 1], t, w, q, l)
    ensures var e := p'[|p|]; t in e.local && e.word == w && e.waiters == q && e.local[t] == l
    ensures forall u :: u in p[|p| - 1].local && u != t ==>
      u in p'[|p|].local && p'[|p|].local[u] == p[|p| - 1].local[u]
  {
    hide LockStep, UnlockStep, WokenStep;
    var e := p[|p| - 1];
    var e' := After(e, t, w, q, l);
    assert Solo(e, e', t);
    p' := p + [e'];
    forall k | 0 <= k < |p'| - 1
      ensures Solo(p'[k], p'[k + 1], t)
    {
      if k < |p| - 1 { assert Solo(p[k], p[k + 1], t); }
    }
  }

  /** A free mutex can be taken in two steps, by trylock as by lock. */
  lemma CanTake(s: State, t: Task, mode: Mode) returns (p: seq<State>)
    requires t in s.local && s.local[t].pc == Idle && s.word == FREE
    ensures Steps(p, s, t) && |p| == 3 && t in p[1].local && p[1].local[t].mode == mode
    ensures t in p[2].local && p[2].local[t].pc == Holds && p[2].word == LockWord(By(t), false, false)
  {
    hide UnlockStep, Steps, After;
    var l := s.local[t];
    p := Start(s, t);
    p := Extend(p, s, t, FREE, s.waiters, l.(pc := LFast, mode := mode));
    var s1 := p[1];
    p := Extend(p, s, t, LockWord(By(t), false, false), s.waiters, l.(pc := Holds, mode := mode));
    assert p[1] == p[..2][1] == s1;
  }

  lemma Start(s: State, t: Task) returns (p: seq<State>)
    ensures Steps(p, s, t) && p == [s]
  {
    p := [s];
  }

  /** A task that calls lock on a mutex that is taken can go to sleep on its list. */
  lemma CanSleep(s: State, t: Task) returns (p: seq<State>)
    requires t in s.local && s.local[t].pc == Idle && s.word.owner.By? && !s.word.lock
    ensures Steps(p, s, t) && |p| == 7
    ensures var e := p[6];
      e.waiters == s.waiters + [t] && e.word == s.word.(waiter := true) && t in e.local && e.local[t].pc == LSleep
        && e.local[t].ticket == e.local[t].mine
  {
    hide UnlockStep, Steps, After;
    var w, q, l := s.word, s.waiters, s.local[t];
    p := Start(s, t);
    p := Extend(p, s, t, w, q, l.(pc := LFast, mode := Forever));
    p := Extend(p, s, t, w, q, l.(pc := LTop, mode := Forever, seen := w));
    var l2 := l.(pc := LEnter, mode := Forever, seen := w, ticket := l.ticket + 1, mine := l.ticket + 1);
    p := Extend(p, s, t, w, q, l2);
    p := Extend(p, s, t, w.(lock := true), q, l2.(pc := LPush));
    p := Extend(p, s, t, w.(lock := true), q + [t], l2.(pc := LPublish));
    p := Extend(p, s, t, w.(waiter := true), q + [t], l2.(pc := LSleep));
  }

  lemma CanReadList(s: State, t: Task, x: Task) returns (p: seq<State>)
    requires t in s.local && s.local[t].pc == Holds && s.word.owner.By? && !s.word.lock && s.word.waiter
      && x in s.local && x != t
    ensures Steps(p, s, t) && |p| == 4
    ensures var e := p[3];
      && e.word == LockWord(Nobody, true, true) && e.waiters == s.waiters && t in e.local && e.local[t].pc == URead
      && x in e.local && e.local[x] == s.local[x]
  {
    hide LockStep, Steps, After;
    var w, q, l := s.word, s.waiters, s.local[t];
    p := Start(s, t);
    p := Extend(p, s, t, w, q, l.(pc := UFast));
    p := Extend(p, s, t, w, q, l.(pc := UTop, seen := w));
    p := Extend(p, s, t, LockWord(Nobody, true, true), q, l.(pc := URead, seen := w));
  }

  /** A holder can release a mutex with waiters and is then about to wake the first of them. */
  lemma CanRelease(s: State, t: Task) returns (p: seq<State>)
    requires t in s.local && s.local[t].pc == Holds && s.word.owner.By? && !s.word.lock && s.word.waiter
    requires s.waiters != [] && s.waiters[0] in s.local && s.waiters[0] != t
    ensures Steps(p, s, t) && |p| == 6
    ensures var e := p[5];
      && e.word == LockWord(Nobody, false, true) && e.waiters == s.waiters && t in e.local && e.local[t].pc == UWake
      && e.local[t].target == s.waiters[0] && e.local[t].tick == s.local[s.waiters[0]].mine
  {
    hide LockStep, Steps, After;
    var q := s.waiters;
    p := CanReadList(s, t, q[0]);
    var l := p[3].local[t].(pc := UStore, target := q[0], tick := s.local[q[0]].mine);
    p := Extend(p, s, t, LockWord(Nobody, true, true), q, l);
    p := Extend(p, s, t, LockWord(Nobody, false, true), q, l.(pc := UWake));
  }

  // ---- seen from outside, one step takes it and one step releases it ---------------------------

  /** The tasks that have the mutex. */
  ghost function Holders(s: State): set<Task>
  {
    set t | t in s.local && Token(s.local[t].pc)
  }

  /** The step from s to s' is one of a lock that is taken and released at once: it changes
      neither owner nor holder, or one task takes the free lock, or the one holder releases it,
      or the holder passes it on.  The places are those of the deciding compare-and-swap. */
  ghost predicate AtOnce(s: State, s': State)
  {
    || (Holders(s') == Holders(s) && s'.word.owner == s.word.owner)
    || (exists t :: TakesAt(s, s', t))
    || (exists t :: ReleasesAt(s, s', t))
    || (exists t, u :: Transfer(s, s', t, u) && PassesAt(s, s', t, u))
  }

  ghost predicate TakesAt(s: State, s': State, t: Task)
  {
    && Solo(s, s', t) && s.local[t].pc in {LFast, LTop, LWoke}
    && Holders(s) == {} && Holders(s') == {t} && s.word.owner == Nobody && s'.word.owner == By(t)
  }

  ghost predicate ReleasesAt(s: State, s': State, t: Task)
  {
    && Solo(s, s', t) && s.local[t].pc in {UFast, UTop}
    && Holders(s) == {t} && Holders(s') == {} && s.word.owner.By? && s'.word.owner == Nobody
  }

  ghost predicate PassesAt(s: State, s': State, t: Task, u: Task)
  {
    Holders(s) == {t} && Holders(s') == {u} && s'.word.owner == s.word.owner
  }

  lemma InvHolder(s: State)
    requires Inv(s)
    ensures OneHolder(s)
  {
  }

  /** Where a task takes the mutex and where it gives it up, and what becomes of the owner. */
  lemma SoloPlaces(s: State, s': State, t: Task)
    requires Inv(s) && Solo(s, s', t)
    ensures Token(s'.local[t].pc) && !Token(s.local[t].pc) ==>
      s.local[t].pc in {LFast, LTop, LWoke} && s.word.owner == Nobody && s'.word.owner == By(t)
    ensures Token(s.local[t].pc) && !Token(s'.local[t].pc) ==>
      s.local[t].pc in {UFast, UTop} && s.word.owner.By? && s'.word.owner == Nobody
    ensures Token(s.local[t].pc) == Token(s'.local[t].pc) ==> s'.word.owner == s.word.owner
  {
    hide Inv, Omit;
    InvPlaced(s, t);
    if s.local[t].pc in {LTaken, LLeave} { OwnedAt(s, t); }
  }

  /** A task past the swap that takes the mutex after a sleep is its owner. */
  lemma OwnedAt(s: State, t: Task)
    requires Inv(s) && t in s.local && s.local[t].pc in {LTaken, LLeave}
    ensures s.word.owner == By(t)
  {
    assert Knows(s.word, s.waiters, t, s.local[t]);
  }

  lemma SoloAtOnce(s: State, s': State, t: Task)
    requires Inv(s) && Solo(s, s', t)
    ensures AtOnce(s, s')
  {
    hide Inv, Omit, Solo, Knows;
    SoloCoherent(s, s', t);
    SoloPlaces(s, s', t);
    InvPlaced(s, t);
    InvHolder(s);
    var h, h' := Holders(s), Holders(s');
    if t in h && t !in h' {
      assert h == {t} && h' == {};
      assert ReleasesAt(s, s', t);
    } else if t in h' && t !in h {
      assert h == {} && h' == {t};
      assert TakesAt(s, s', t);
    } else {
      assert h' == h;
    }
  }

  /** Every step of every run is a step of a lock that is taken and released at once. */
  lemma TakenAtOnce(r: seq<State>, i: nat)
    requires Run(r) && i + 1 < |r|
    ensures AtOnce(r[i], r[i + 1])
  {
    hide Inv, WakeupOnItsWay, Solo, AtOnce, Token;
    RunSafe(r, i);
    var s, s' := r[i], r[i + 1];
    assert Next(s, s');
    if t :| Solo(s, s', t) {
      SoloAtOnce(s, s', t);
    } else if t :| Wake(s, s', t) {
      WakeAtOnce(s, s', t);
    } else {
      var t, u :| Transfer(s, s', t, u);
      TransferAtOnce(s, s', t, u);
    }
  }

  lemma WakeAtOnce(s: State, s': State, t: Task)
    requires Wake(s, s', t)
    ensures AtOnce(s, s')
  {
    assert Holders(s') == Holders(s);
  }

  lemma TransferAtOnce(s: State, s': State, t: Task, u: Task)
    requires Inv(s) && Transfer(s, s', t, u)
    ensures AtOnce(s, s')
  {
    hide Inv;
    InvHolder(s);
    TransferInv(s, s', t, u);
    InvHolder(s');
    assert Holders(s) == {t} && Holders(s') == {u};
    assert PassesAt(s, s', t, u);
  }
}
