/**
  What uacpi_namespace_do_for_each_child (acpi/uacpi/source/namespace.c) shows: which nodes the
  callbacks are called for, when only nodes of a wanted type are, and what the answers of the
  callbacks do.
 */
module NamespaceShown {
  import opened Basics
  import opened Namespace
  import opened NamespaceWalk

  // ---- which nodes are shown ---------------------------------------------------------------------

  // A node without an object leaves the result of the type test as it is, so what is shown at a
  // node depends on what was visited before it.  The value of the test on entering a node is
  // given here by recursion on the tree alone.

  /** n, entered with value v, is left without going below it: as a temporary node, or because
      the callback said so. */
  predicate Cut(rq: Request, skip: set<Node>, n: Node, v: bool)
    reads n
  {
    Matches(rq, n, v) && ((rq.permanent && n.temporary) || (rq.down && n in skip))
  }

  /** A callback is made for n, where the test has the value v before. */
  predicate Shown(rq: Request, n: Node, up: bool, v: bool)
    reads n
  {
    Matches(rq, n, v) && !(rq.permanent && n.temporary) && if up then rq.up else rq.down
  }

  /** The value on coming back to n, which was entered with v at depth d. */
  ghost function Back(t: Tree, rq: Request, skip: set<Node>, n: Node, d: nat, v: bool): bool
    requires t.Valid() && n in t.nodes && d <= rq.maxDepth
    reads t, t.nodes
    decreases rq.maxDepth - d, 0, 0
  {
    KidsIn(t, n);
    var m := Matches(rq, n, v);
    if Cut(rq, skip, n, v) || d == rq.maxDepth then m else OutAll(t, rq, skip, t.kids[n], d + 1, m)
  }

  /** The value on leaving n. */
  ghost function Out(t: Tree, rq: Request, skip: set<Node>, n: Node, d: nat, v: bool): bool
    requires t.Valid() && n in t.nodes && d <= rq.maxDepth
    reads t, t.nodes
    decreases rq.maxDepth - d, 0, 1
  {
    Matches(rq, n, Back(t, rq, skip, n, d, v))
  }

  /** The value on leaving the siblings q, the first of which is entered with v. */
  ghost function OutAll(t: Tree, rq: Request, skip: set<Node>, q: seq<Node>, d: nat, v: bool): bool
    requires t.Valid() && (forall x :: x in q ==> x in t.nodes) && d <= rq.maxDepth
    reads t, t.nodes
    decreases rq.maxDepth - d, |q|, 2
  {
    if q == [] then v else OutAll(t, rq, skip, q[1..], d, Out(t, rq, skip, q[0], d, v))
  }

  /** The siblings before x. */
  ghost function Earlier(q: seq<Node>, x: Node): (r: seq<Node>)
    ensures forall y :: y in r ==> y in q
  {
    if q == [] || q[0] == x then [] else [q[0]] + Earlier(q[1..], x)
  }

  lemma {:induction false} EarlierAt(q: seq<Node>, i: nat)
    requires i < |q| && forall j, k :: 0 <= j < k < |q| ==> q[j] != q[k]
    ensures Earlier(q, q[i]) == q[..i]
  {
    if i > 0 {
      assert q[i] == q[1..][i - 1];
      EarlierAt(q[1..], i - 1);
      assert [q[0]] + q[1..][..i - 1] == q[..i];
    }
  }

  /** x is at or below n, which is at depth d, and not too deep. */
  ghost predicate Near(t: Tree, rq: Request, n: Node, d: nat, x: Node)
    requires t.Valid() && n in t.nodes && x in t.nodes
    reads t, t.nodes
  {
    Under(t, n, x) && t.depth[x] >= t.depth[n] && d + t.depth[x] - t.depth[n] <= rq.maxDepth
  }

  lemma NearParent(t: Tree, rq: Request, n: Node, d: nat, x: Node)
    requires t.Valid() && n in t.nodes && x in t.nodes && x != n && Near(t, rq, n, d, x)
    ensures t.depth[x] > t.depth[n] && x.parent != null && x.parent in t.nodes && x in t.kids[x.parent]
    ensures t.depth[x.parent] + 1 == t.depth[x] && Near(t, rq, n, d, x.parent)
    ensures forall y :: y in t.kids[x.parent] ==> y in t.nodes
  {
    hide Tree.NodeOk;
    ParentOf(t, x);
    UnderDeeper(t, n, x.parent);
  }

  lemma {:induction false} UnderDeeper(t: Tree, n: Node, x: Node)
    requires t.Valid() && n in t.nodes && x in t.nodes && Under(t, n, x)
    ensures t.depth[x] >= t.depth[n]
  {
  }

  /** The value on entering x, below n that was entered with v at depth d. */
  ghost function In(t: Tree, rq: Request, skip: set<Node>, n: Node, d: nat, v: bool, x: Node): bool
    requires t.Valid() && n in t.nodes && x in t.nodes && Near(t, rq, n, d, x)
    reads t, t.nodes
    decreases t.depth[x]
  {
    if x == n then v
    else
      NearParent(t, rq, n, d, x);
      var p := x.parent;
      var m := Matches(rq, p, In(t, rq, skip, n, d, v, p));
      OutAll(t, rq, skip, Earlier(t.kids[p], x), d + t.depth[x] - t.depth[n], m)
  }

  /** The walk from n comes by x: no node between cuts it off. */
  ghost predicate Reached(t: Tree, rq: Request, skip: set<Node>, n: Node, d: nat, v: bool, x: Node)
    requires t.Valid() && n in t.nodes && x in t.nodes
    reads t, t.nodes
    decreases t.depth[x]
  {
    && Near(t, rq, n, d, x)
    && (x == n ||
        (NearParent(t, rq, n, d, x);
         !Cut(rq, skip, x.parent, In(t, rq, skip, n, d, v, x.parent)) && Reached(t, rq, skip, n, d, v, x.parent)))
  }

  /** Below n one gets only by way of a child of n. */
  lemma {:induction false} UnderByKid(t: Tree, n: Node, x: Node) returns (k: Node)
    requires t.Valid() && n in t.nodes && x in t.nodes && x != n && Under(t, n, x)
    ensures n in t.kids && k in t.kids[n] && k in t.nodes && Under(t, k, x)
    decreases t.depth[x]
  {
    hide Tree.NodeOk;
    KidsIn(t, n);
    ParentOf(t, x);
    if x.parent == n {
      k := x;
    } else {
      k := UnderByKid(t, n, x.parent);
      UnderDeeper(t, k, x.parent);
    }
  }

  /** The value on entering the child k of n. */
  ghost function KidIn(t: Tree, rq: Request, skip: set<Node>, n: Node, d: nat, v: bool, k: Node): bool
    requires t.Valid() && n in t.nodes && d < rq.maxDepth
    reads t, t.nodes
  {
    KidsIn(t, n);
    OutAll(t, rq, skip, Earlier(t.kids[n], k), d + 1, Matches(rq, n, v))
  }

  /** Seen from a child of n, everything below is as seen from n. */
  lemma {:induction false} FromKid(t: Tree, rq: Request, skip: set<Node>, n: Node, d: nat, v: bool, k: Node, x: Node)
    requires t.Valid() && n in t.nodes && k in t.nodes && x in t.nodes && d < rq.maxDepth
    requires n in t.kids && k in t.kids[n] && Near(t, rq, k, d + 1, x)
    ensures Near(t, rq, n, d, x) && x != n && t.depth[k] == t.depth[n] + 1
    ensures In(t, rq, skip, n, d, v, x) == In(t, rq, skip, k, d + 1, KidIn(t, rq, skip, n, d, v, k), x)
    ensures Reached(t, rq, skip, n, d, v, x) <==>
      !Cut(rq, skip, n, v) && Reached(t, rq, skip, k, d + 1, KidIn(t, rq, skip, n, d, v, k), x)
    decreases t.depth[x]
  {
    hide Tree.NodeOk, Cut, OutAll, Earlier;
    KidsIn(t, n);
    UnderKid(t, k, x);
    if x != k {
      NearParent(t, rq, k, d + 1, x);
      FromKid(t, rq, skip, n, d, v, k, x.parent);
    }
  }

  /** The call e belongs to the walk from n, which is entered with v at depth d. */
  ghost predicate Due(t: Tree, rq: Request, skip: set<Node>, n: Node, d: nat, v: bool, e: Event)
    requires t.Valid() && n in t.nodes
    reads t, t.nodes
  {
    && e.node in t.nodes && Reached(t, rq, skip, n, d, v, e.node) && e.depth == d + t.depth[e.node] - t.depth[n]
    && var w := In(t, rq, skip, n, d, v, e.node);
    Shown(rq, e.node, e.up, if e.up then Back(t, rq, skip, e.node, e.depth, w) else w)
  }

  /** The call e belongs to the walk over the siblings q. */
  ghost predicate DueBelow(t: Tree, rq: Request, skip: set<Node>, q: seq<Node>, d: nat, v: bool, e: Event)
    requires t.Valid() && (forall x :: x in q ==> x in t.nodes) && d <= rq.maxDepth
    reads t, t.nodes
  {
    exists i :: 0 <= i < |q| && Due(t, rq, skip, q[i], d, OutAll(t, rq, skip, q[..i], d, v), e)
  }

  lemma DueHere(t: Tree, rq: Request, skip: set<Node>, n: Node, d: nat, v: bool, e: Event)
    requires t.Valid() && n in t.nodes && d <= rq.maxDepth && e.node == n
    ensures Due(t, rq, skip, n, d, v, e) <==>
      e == Event(n, d, e.up) && Shown(rq, n, e.up, if e.up then Back(t, rq, skip, n, d, v) else v)
  {
    hide Tree.NodeOk, Shown, Back;
  }

  lemma DueKid(t: Tree, rq: Request, skip: set<Node>, n: Node, d: nat, v: bool, k: Node, e: Event)
    requires t.Valid() && n in t.nodes && k in t.nodes && d < rq.maxDepth && n in t.kids && k in t.kids[n]
    requires e.node in t.nodes && Under(t, k, e.node)
    ensures Due(t, rq, skip, n, d, v, e) <==>
      !Cut(rq, skip, n, v) && Due(t, rq, skip, k, d + 1, KidIn(t, rq, skip, n, d, v, k), e)
  {
    hide Tree.NodeOk, Shown, Back, KidIn, Cut;
    KidsIn(t, n);
    UnderDeeper(t, k, e.node);
    UnderKid(t, k, e.node);
    if Near(t, rq, k, d + 1, e.node) {
      FromKid(t, rq, skip, n, d, v, k, e.node);
    }
  }

  lemma DueReached(t: Tree, rq: Request, skip: set<Node>, n: Node, d: nat, v: bool, e: Event)
    requires t.Valid() && n in t.nodes && Due(t, rq, skip, n, d, v, e)
    ensures e.node in t.nodes && Near(t, rq, n, d, e.node) && Under(t, n, e.node)
  {
    hide Tree.NodeOk, Shown, Back, In;
  }

  /** The child with index i is entered with the value its elder siblings leave. */
  lemma KidInAt(t: Tree, rq: Request, skip: set<Node>, n: Node, d: nat, v: bool, i: nat)
    requires t.Valid() && n in t.nodes && d < rq.maxDepth && n in t.kids && i < |t.kids[n]|
    ensures (forall x :: x in t.kids[n] ==> x in t.nodes)
    ensures KidIn(t, rq, skip, n, d, v, t.kids[n][i]) == OutAll(t, rq, skip, t.kids[n][..i], d + 1, Matches(rq, n, v))
  {
    hide OutAll;
    KidsIn(t, n);
    assert t.NodeOk(n);
    EarlierAt(t.kids[n], i);
  }

  /** The calls due for n are its own two and those due for its children. */
  lemma DueSplit(t: Tree, rq: Request, skip: set<Node>, n: Node, d: nat, v: bool, e: Event)
    requires t.Valid() && n in t.nodes && d <= rq.maxDepth
    ensures n in t.kids && forall x :: x in t.kids[n] ==> x in t.nodes
    ensures Due(t, rq, skip, n, d, v, e) <==>
      || (e == Event(n, d, e.up) && Shown(rq, n, e.up, if e.up then Back(t, rq, skip, n, d, v) else v))
      || (d < rq.maxDepth && !Cut(rq, skip, n, v) && DueBelow(t, rq, skip, t.kids[n], d + 1, Matches(rq, n, v), e))
  {
    hide Tree.NodeOk, Cut, Shown, Due, OutAll, Back, KidIn;
    KidsIn(t, n);
    if e.node == n { DueHere(t, rq, skip, n, d, v, e); }
    if Due(t, rq, skip, n, d, v, e) && e.node != n {
      DueReached(t, rq, skip, n, d, v, e);
      var k := UnderByKid(t, n, e.node);
      UnderDeeper(t, k, e.node);
      DueKid(t, rq, skip, n, d, v, k, e);
      var i :| 0 <= i < |t.kids[n]| && t.kids[n][i] == k;
      KidInAt(t, rq, skip, n, d, v, i);
    }
    if d < rq.maxDepth && DueBelow(t, rq, skip, t.kids[n], d + 1, Matches(rq, n, v), e) {
      var i :| 0 <= i < |t.kids[n]|
        && Due(t, rq, skip, t.kids[n][i], d + 1, OutAll(t, rq, skip, t.kids[n][..i], d + 1, Matches(rq, n, v)), e);
      var k := t.kids[n][i];
      assert k in t.kids[n];
      KidInAt(t, rq, skip, n, d, v, i);
      DueReached(t, rq, skip, k, d + 1, KidIn(t, rq, skip, n, d, v, k), e);
      DueKid(t, rq, skip, n, d, v, k, e);
      UnderKid(t, k, e.node);
    }
  }

  lemma DueFirst(t: Tree, rq: Request, skip: set<Node>, q: seq<Node>, d: nat, v: bool, e: Event)
    requires t.Valid() && (forall x :: x in q ==> x in t.nodes) && d <= rq.maxDepth && q != []
    ensures DueBelow(t, rq, skip, q, d, v, e) <==>
      Due(t, rq, skip, q[0], d, v, e) || DueBelow(t, rq, skip, q[1..], d, Out(t, rq, skip, q[0], d, v), e)
  {
    hide Tree.Valid, Due, Out;
    var w := Out(t, rq, skip, q[0], d, v);
    forall i | 0 < i < |q|
      ensures OutAll(t, rq, skip, q[..i], d, v) == OutAll(t, rq, skip, q[1..][..i - 1], d, w)
    {
      assert q[..i][1..] == q[1..][..i - 1];
    }
    assert OutAll(t, rq, skip, q[..0], d, v) == v;
    if DueBelow(t, rq, skip, q, d, v, e) && !Due(t, rq, skip, q[0], d, v, e) {
      var i :| 0 <= i < |q| && Due(t, rq, skip, q[i], d, OutAll(t, rq, skip, q[..i], d, v), e);
      assert q[1..][i - 1] == q[i];
    }
    if DueBelow(t, rq, skip, q[1..], d, w, e) {
      var i :| 0 <= i < |q[1..]| && Due(t, rq, skip, q[1..][i], d, OutAll(t, rq, skip, q[1..][..i], d, w), e);
      assert q[1..][i] == q[i + 1];
      assert Due(t, rq, skip, q[i + 1], d, OutAll(t, rq, skip, q[..i + 1], d, v), e);
    }
  }

  /** The nodes in skip are those at which the callback said to go on with the next peer. */
  ghost predicate Agrees(rq: Request, skip: set<Node>, calls: seq<Event>)
  {
    forall k :: 0 <= k < |calls| && !calls[k].up ==> (rq.answer(k) == NextPeer <==> calls[k].node in skip)
  }

  lemma AgreesPrefix(rq: Request, skip: set<Node>, a: seq<Event>, b: seq<Event>)
    requires Agrees(rq, skip, b) && a <= b
    ensures Agrees(rq, skip, a)
  {
    forall k | 0 <= k < |a| && !a[k].up
      ensures rq.answer(k) == NextPeer <==> a[k].node in skip
    {
      assert a[k] == b[k];
    }
  }

  lemma VisitExact(rq: Request, skip: set<Node>, n: Node, d: nat, up: bool, st: Progress)
    requires st.verdict == Going && Visit(rq, n, d, up, st).0.verdict == Going
    requires Agrees(rq, skip, Visit(rq, n, d, up, st).0.calls)
    ensures var (st', a) := Visit(rq, n, d, up, st);
      && New(st, st') == (if Shown(rq, n, up, st.matches) then [Event(n, d, up)] else [])
      && st'.matches == Matches(rq, n, st.matches) && (!up ==> (a == Continue <==> !Cut(rq, skip, n, st.matches)))
  {
    if !up && Shown(rq, n, up, st.matches) {
      var st' := Visit(rq, n, d, up, st).0;
      assert st'.calls[|st.calls|] == Event(n, d, up);
    }
  }

  lemma {:induction false} DownExact(t: Tree, rq: Request, skip: set<Node>, n: Node, d: nat, st: Progress, e: Event)
    requires t.Valid() && n in t.nodes && d <= rq.maxDepth && st.verdict == Going
    requires Down(t, rq, n, d, st).verdict == Going && Agrees(rq, skip, Down(t, rq, n, d, st).calls)
    ensures var r := Down(t, rq, n, d, st);
      && r.matches == Out(t, rq, skip, n, d, st.matches)
      && (e in New(st, r) <==> Due(t, rq, skip, n, d, st.matches, e))
    decreases rq.maxDepth - d, 0, 0
  {
    hide Visit, Forest, Down, Tree.Valid, Tree.NodeOk, Due, DueBelow, Cut, Shown, OutAll, Matches, Agrees;
    KidsIn(t, n);
    var v := st.matches;
    var r := Down(t, rq, n, d, st);
    var (st1, a) := Visit(rq, n, d, false, st);
    DownStops(t, rq, n, d, st);
    DownForest(t, rq, n, d, st);
    AgreesPrefix(rq, skip, st1.calls, r.calls);
    VisitExact(rq, skip, n, d, false, st);
    DueSplit(t, rq, skip, n, d, v, e);
    var st2 := st1;
    if a == Continue && d < rq.maxDepth {
      st2 := Forest(t, rq, t.kids[n], d + 1, st1);
      AgreesPrefix(rq, skip, st2.calls, r.calls);
      ForestExact(t, rq, skip, t.kids[n], d + 1, st1, e);
    } else {
      assert New(st1, st2) == [];
    }
    assert st2.matches == Back(t, rq, skip, n, d, v);
    VisitExact(rq, skip, n, d, true, st2);
    var st3 := Visit(rq, n, d, true, st2).0;
    NewJoin(st, st1, st2);
    NewJoin(st, st2, st3);
    hide New, Back;
    assert e in New(st, st1) <==> e == Event(n, d, false) && Shown(rq, n, false, v);
    assert e in New(st2, st3) <==> e == Event(n, d, true) && Shown(rq, n, true, st2.matches);
  }

  lemma {:induction false} ForestExact(t: Tree, rq: Request, skip: set<Node>, q: seq<Node>, d: nat, st: Progress,
                                       e: Event)
    requires t.Valid() && (forall x :: x in q ==> x in t.nodes) && d <= rq.maxDepth && st.verdict == Going
    requires Forest(t, rq, q, d, st).verdict == Going && Agrees(rq, skip, Forest(t, rq, q, d, st).calls)
    ensures var r := Forest(t, rq, q, d, st);
      && r.matches == OutAll(t, rq, skip, q, d, st.matches)
      && (e in New(st, r) <==> DueBelow(t, rq, skip, q, d, st.matches, e))
    decreases rq.maxDepth - d, |q|, 1
  {
    hide Down, Tree.Valid, Tree.NodeOk, Due, Out, Agrees;
    if q == [] {
      assert New(st, Forest(t, rq, q, d, st)) == [];
    } else {
      var st1 := Down(t, rq, q[0], d, st);
      AgreesPrefix(rq, skip, st1.calls, Forest(t, rq, q, d, st).calls);
      DownExact(t, rq, skip, q[0], d, st, e);
      DueFirst(t, rq, skip, q, d, st.matches, e);
      ForestExact(t, rq, skip, q[1..], d, st1, e);
      NewJoin(st, st1, Forest(t, rq, q[1..], d, st1));
    }
  }

  /** The nodes to which a call went down and was answered with the next peer. */
  ghost function Skipped(rq: Request, calls: seq<Event>): set<Node>
  {
    set k | 0 <= k < |calls| && !calls[k].up && rq.answer(k) == NextPeer :: calls[k].node
  }

  lemma SkippedAgrees(t: Tree, top: Node, rq: Request)
    requires t.Valid() && top in t.nodes && rq.maxDepth > 0
    ensures var calls := Walked(t, top, rq).calls; Agrees(rq, Skipped(rq, calls), calls)
  {
    hide Walked, Tree.Valid, Under;
    var calls := Walked(t, top, rq).calls;
    KidsIn(t, top);
    forall k | 0 <= k < |calls| && !calls[k].up
      ensures rq.answer(k) == NextPeer <==> calls[k].node in Skipped(rq, calls)
    {
      if calls[k].node in Skipped(rq, calls) {
        var m :| 0 <= m < |calls| && !calls[m].up && rq.answer(m) == NextPeer && calls[m].node == calls[k].node;
        VisitsOnce(t, top, rq, calls[k]);
        VisitsOnce(t, top, rq, calls[m]);
        assert calls[k] == calls[m];
      }
    }
  }

  /** Unless a callback ends the walk, the calls are those for the nodes the walk reaches and whose
      test, with the value it has on coming to the node, says that they match. */
  lemma VisitsExactly(t: Tree, top: Node, rq: Request, e: Event)
    requires t.Valid() && top in t.nodes && rq.maxDepth > 0 && Walked(t, top, rq).verdict == Going
    ensures top in t.kids && forall x :: x in t.kids[top] ==> x in t.nodes
    ensures var calls := Walked(t, top, rq).calls;
      e in calls <==> DueBelow(t, rq, Skipped(rq, calls), t.kids[top], 1, false, e)
  {
    hide Forest, Tree.Valid, Tree.NodeOk, DueBelow, OutAll, Agrees, Skipped;
    KidsIn(t, top);
    var r := Walked(t, top, rq);
    SkippedAgrees(t, top, rq);
    ForestExact(t, rq, Skipped(rq, r.calls), t.kids[top], 1, START, e);
    assert New(START, r) == r.calls;
  }

  // ---- when only nodes of a wanted type are shown ------------------------------------------------

  /** n has an object of a type of interest. */
  predicate Wanted(rq: Request, n: Node)
    reads n
  {
    n.kind.Some? && n.kind.value in rq.mask
  }

  /** A node without an object that the walk over the siblings q comes to, down or up, with the
      value true left behind by the nodes before it. */
  ghost predicate StaleAt(t: Tree, rq: Request, skip: set<Node>, q: seq<Node>, d: nat, v: bool, x: Node, up: bool)
    requires t.Valid() && (forall y :: y in q ==> y in t.nodes) && d <= rq.maxDepth
    reads t, t.nodes
  {
    && x in t.nodes && x.kind.None? && !(rq.permanent && x.temporary) && (if up then rq.up else rq.down)
    && exists i :: 0 <= i < |q| && StaleFrom(t, rq, skip, q[i], d, OutAll(t, rq, skip, q[..i], d, v), x, up)
  }

  ghost predicate StaleFrom(t: Tree, rq: Request, skip: set<Node>, n: Node, d: nat, v: bool, x: Node, up: bool)
    requires t.Valid() && n in t.nodes && x in t.nodes
    reads t, t.nodes
  {
    && Reached(t, rq, skip, n, d, v, x)
    && var w := In(t, rq, skip, n, d, v, x);
    if up then Back(t, rq, skip, x, d + t.depth[x] - t.depth[n], w) else w
  }

  /** The walk shows only nodes with an object of a wanted type exactly when it comes to no node
      without an object while the value left behind is true. */
  lemma OnlyWanted(t: Tree, top: Node, rq: Request)
    requires t.Valid() && top in t.nodes && rq.maxDepth > 0 && Walked(t, top, rq).verdict == Going
    ensures top in t.kids && forall x :: x in t.kids[top] ==> x in t.nodes
    ensures var calls := Walked(t, top, rq).calls;
      (forall e :: e in calls ==> Wanted(rq, e.node))
      <==> (forall x, up :: x in t.nodes ==> !StaleAt(t, rq, Skipped(rq, calls), t.kids[top], 1, false, x, up))
  {
    hide Tree.Valid, Tree.NodeOk, DueBelow, OutAll, Walked, StaleAt, Skipped;
    KidsIn(t, top);
    var q, calls := t.kids[top], Walked(t, top, rq).calls;
    var skip := Skipped(rq, calls);
    forall e | e in calls
      ensures e.node in t.nodes && (!Wanted(rq, e.node) ==> StaleAt(t, rq, skip, q, 1, false, e.node, e.up))
    {
      VisitsExactly(t, top, rq, e);
      DueStale(t, rq, skip, q, 1, false, e);
    }
    forall x, up | x in t.nodes && StaleAt(t, rq, skip, q, 1, false, x, up)
      ensures exists e :: e in calls && !Wanted(rq, e.node)
    {
      var e := StaleDue(t, rq, skip, q, 1, false, x, up);
      VisitsExactly(t, top, rq, e);
    }
  }

  lemma DueStale(t: Tree, rq: Request, skip: set<Node>, q: seq<Node>, d: nat, v: bool, e: Event)
    requires t.Valid() && (forall y :: y in q ==> y in t.nodes) && d <= rq.maxDepth && DueBelow(t, rq, skip, q, d, v, e)
    ensures e.node in t.nodes && (!Wanted(rq, e.node) ==> StaleAt(t, rq, skip, q, d, v, e.node, e.up))
  {
    hide Tree.Valid, OutAll, Reached, In, Back;
    var i :| 0 <= i < |q| && Due(t, rq, skip, q[i], d, OutAll(t, rq, skip, q[..i], d, v), e);
    if !Wanted(rq, e.node) {
      assert StaleFrom(t, rq, skip, q[i], d, OutAll(t, rq, skip, q[..i], d, v), e.node, e.up);
    }
  }

  lemma StaleDue(t: Tree, rq: Request, skip: set<Node>, q: seq<Node>, d: nat, v: bool, x: Node, up: bool)
    returns (e: Event)
    requires t.Valid() && (forall y :: y in q ==> y in t.nodes) && d <= rq.maxDepth
    requires StaleAt(t, rq, skip, q, d, v, x, up)
    ensures e.node == x && e.up == up && !Wanted(rq, x) && DueBelow(t, rq, skip, q, d, v, e)
  {
    hide Tree.NodeOk, OutAll, In, Back, Under;
    var i :| 0 <= i < |q| && StaleFrom(t, rq, skip, q[i], d, OutAll(t, rq, skip, q[..i], d, v), x, up);
    e := Event(x, d + t.depth[x] - t.depth[q[i]], up);
    assert Due(t, rq, skip, q[i], d, OutAll(t, rq, skip, q[..i], d, v), e);
  }

  // ---- what the answers do -----------------------------------------------------------------------

  /** The k-th answer, given to the call e, ends the walk. */
  predicate Ends(rq: Request, e: Event, k: nat)
  {
    rq.answer(k) == Break || (!e.up && rq.answer(k) == Unknown)
  }

  /** From the call with index `from` on, an answer that ends the walk is the last one, the verdict
      says which it was, and nothing else ends the walk. */
  ghost predicate EndsLast(rq: Request, from: nat, r: Progress)
  {
    && (forall k :: from <= k < |r.calls| && Ends(rq, r.calls[k], k) ==>
        k + 1 == |r.calls| && r.verdict == if rq.answer(k) == Break then Stopped else Refused)
    && (r.verdict != Going ==> from < |r.calls| && Ends(rq, r.calls[|r.calls| - 1], |r.calls| - 1))
  }

  lemma VisitEnds(rq: Request, n: Node, d: nat, up: bool, st: Progress)
    requires st.verdict == Going
    ensures EndsLast(rq, |st.calls|, Visit(rq, n, d, up, st).0)
  {
  }

  lemma EndsJoin(rq: Request, from: nat, a: Progress, b: Progress)
    requires EndsLast(rq, from, a) && a.verdict == Going && from <= |a.calls| && a.calls <= b.calls
    requires EndsLast(rq, |a.calls|, b)
    ensures EndsLast(rq, from, b)
  {
    forall k | from <= k < |b.calls| && Ends(rq, b.calls[k], k)
      ensures k >= |a.calls|
    {
    }
  }

  lemma {:induction false} DownEnds(t: Tree, rq: Request, n: Node, d: nat, st: Progress)
    requires t.Valid() && n in t.nodes && d <= rq.maxDepth && st.verdict == Going
    ensures EndsLast(rq, |st.calls|, Down(t, rq, n, d, st))
    decreases rq.maxDepth - d, 0, 0
  {
    hide Visit, Forest, Down, Tree.Valid, Tree.NodeOk, EndsLast;
    KidsIn(t, n);
    var from := |st.calls|;
    var (st1, a) := Visit(rq, n, d, false, st);
    VisitEnds(rq, n, d, false, st);
    DownStops(t, rq, n, d, st);
    if st1.verdict == Going {
      DownForest(t, rq, n, d, st);
      var st2 := st1;
      if a == Continue && d < rq.maxDepth {
        ForestEnds(t, rq, t.kids[n], d + 1, st1);
        st2 := Forest(t, rq, t.kids[n], d + 1, st1);
        EndsJoin(rq, from, st1, st2);
      }
      if st2.verdict == Going {
        VisitEnds(rq, n, d, true, st2);
        EndsJoin(rq, from, st2, Visit(rq, n, d, true, st2).0);
      }
    }
  }

  lemma {:induction false} ForestEnds(t: Tree, rq: Request, q: seq<Node>, d: nat, st: Progress)
    requires t.Valid() && (forall x :: x in q ==> x in t.nodes) && d <= rq.maxDepth && st.verdict == Going
    ensures EndsLast(rq, |st.calls|, Forest(t, rq, q, d, st))
    decreases rq.maxDepth - d, |q|, 1
  {
    hide Down, Tree.Valid, Tree.NodeOk;
    if q != [] {
      var st1 := Down(t, rq, q[0], d, st);
      DownEnds(t, rq, q[0], d, st);
      if st1.verdict == Going {
        ForestEnds(t, rq, q[1..], d, st1);
        EndsJoin(rq, |st.calls|, st1, Forest(t, rq, q[1..], d, st1));
      }
    }
  }

  /** Break ends the walk well and, on the way down, an unknown answer ends it with an error: the
      call is the last one.  Nothing else ends it. */
  lemma AnswersEnd(t: Tree, top: Node, rq: Request)
    requires t.Valid() && top in t.nodes && rq.maxDepth > 0
    ensures EndsLast(rq, 0, Walked(t, top, rq))
  {
    hide Forest, Tree.Valid, Tree.NodeOk, EndsLast;
    KidsIn(t, top);
    ForestEnds(t, rq, t.kids[top], 1, START);
  }

  // ---- what comes after an answer does not change what came before -------------------------------

  /** The requests are the same up to the k-th answer. */
  ghost predicate AgreeUpTo(rq: Request, rq': Request, k: nat)
  {
    rq' == rq.(answer := rq'.answer) && forall i :: 0 <= i < k ==> rq.answer(i) == rq'.answer(i)
  }

  /** The results are the same, or both have more than k calls, of which the first k + 1 are. */
  ghost predicate SameStart(r: Progress, r': Progress, k: nat)
  {
    r == r' || (|r.calls| > k && |r'.calls| > k && r.calls[..k + 1] == r'.calls[..k + 1])
  }

  lemma SameVisit(rq: Request, rq': Request, n: Node, d: nat, up: bool, st: Progress, k: nat)
    requires AgreeUpTo(rq, rq', k) && st.verdict == Going && |st.calls| <= k
    ensures var (a, x) := Visit(rq, n, d, up, st);
      var (b, y) := Visit(rq', n, d, up, st);
      SameStart(a, b, k) && (|a.calls| <= k ==> a == b && x == y)
  {
  }

  lemma Longer(r: Progress, r': Progress, s: Progress, s': Progress, k: nat)
    requires SameStart(r, r', k) && |r.calls| > k && r.calls <= s.calls && r'.calls <= s'.calls
    ensures SameStart(s, s', k)
  {
    assert s.calls[..k + 1] == r.calls[..k + 1] && s'.calls[..k + 1] == r'.calls[..k + 1];
  }

  lemma {:induction false} SameDown(t: Tree, rq: Request, rq': Request, n: Node, d: nat, st: Progress, k: nat)
    requires t.Valid() && n in t.nodes && d <= rq.maxDepth && st.verdict == Going
    requires AgreeUpTo(rq, rq', k) && |st.calls| <= k
    ensures SameStart(Down(t, rq, n, d, st), Down(t, rq', n, d, st), k)
    decreases rq.maxDepth - d, 0, 0
  {
    hide Visit, Forest, Down, Tree.Valid, Tree.NodeOk, SameStart;
    KidsIn(t, n);
    var (a, x) := Visit(rq, n, d, false, st);
    var (b, y) := Visit(rq', n, d, false, st);
    SameVisit(rq, rq', n, d, false, st, k);
    FirstPart(t, rq, n, d, st);
    FirstPart(t, rq', n, d, st);
    if |a.calls| > k {
      Longer(a, b, Down(t, rq, n, d, st), Down(t, rq', n, d, st), k);
    } else if a.verdict == Going {
      DownForest(t, rq, n, d, st);
      DownForest(t, rq', n, d, st);
      var a2, b2 := a, a;
      if x == Continue && d < rq.maxDepth {
        SameForest(t, rq, rq', t.kids[n], d + 1, a, k);
        a2, b2 := Forest(t, rq, t.kids[n], d + 1, a), Forest(t, rq', t.kids[n], d + 1, a);
      } else {
        assert SameStart(a2, b2, k) by { SameSelf(a, k); }
      }
      if |a2.calls| > k {
        Longer(a2, b2, Down(t, rq, n, d, st), Down(t, rq', n, d, st), k);
      } else {
        SameShort(a2, b2, k);
        if a2.verdict == Going { SameVisit(rq, rq', n, d, true, a2, k); } else { SameSelf(a2, k); }
      }
    } else {
      SameSelf(a, k);
    }
  }

  /** What a walk below n begins with, or is. */
  lemma FirstPart(t: Tree, rq: Request, n: Node, d: nat, st: Progress)
    requires t.Valid() && n in t.nodes && d <= rq.maxDepth && st.verdict == Going
    ensures var st1 := Visit(rq, n, d, false, st).0;
      st1.calls <= Down(t, rq, n, d, st).calls && (st1.verdict != Going ==> Down(t, rq, n, d, st) == st1)
    ensures n in t.kids && forall x :: x in t.kids[n] ==> x in t.nodes
    ensures var (st1, a) := Visit(rq, n, d, false, st);
      st1.verdict == Going && a == Continue && d < rq.maxDepth ==>
        Forest(t, rq, t.kids[n], d + 1, st1).calls <= Down(t, rq, n, d, st).calls
  {
    hide Visit, Tree.NodeOk;
    KidsIn(t, n);
  }

  lemma SameSelf(r: Progress, k: nat)
    ensures SameStart(r, r, k)
  {
  }

  lemma SameShort(r: Progress, r': Progress, k: nat)
    requires SameStart(r, r', k) && |r.calls| <= k
    ensures r == r'
  {
  }

  lemma {:induction false} SameForest(t: Tree, rq: Request, rq': Request, q: seq<Node>, d: nat, st: Progress, k: nat)
    requires t.Valid() && (forall x :: x in q ==> x in t.nodes) && d <= rq.maxDepth && st.verdict == Going
    requires AgreeUpTo(rq, rq', k) && |st.calls| <= k
    ensures SameStart(Forest(t, rq, q, d, st), Forest(t, rq', q, d, st), k)
    decreases rq.maxDepth - d, |q|, 1
  {
    hide Down, Tree.Valid, Tree.NodeOk, SameStart;
    if q == [] {
      SameSelf(st, k);
    } else {
      var a, b := Down(t, rq, q[0], d, st), Down(t, rq', q[0], d, st);
      SameDown(t, rq, rq', q[0], d, st, k);
      if |a.calls| > k {
        Longer(a, b, Forest(t, rq, q, d, st), Forest(t, rq', q, d, st), k);
      } else {
        SameShort(a, b, k);
        if a.verdict == Going { SameForest(t, rq, rq', q[1..], d, a, k); } else { SameSelf(a, k); }
      }
    }
  }

  /** The first k + 1 calls depend only on the first k answers. */
  lemma NoForesight(t: Tree, top: Node, rq: Request, rq': Request, k: nat)
    requires t.Valid() && top in t.nodes && rq.maxDepth > 0 && AgreeUpTo(rq, rq', k)
    ensures SameStart(Walked(t, top, rq), Walked(t, top, rq'), k)
  {
    hide Forest, Tree.Valid, Tree.NodeOk, SameStart;
    KidsIn(t, top);
    SameForest(t, rq, rq', t.kids[top], 1, START, k);
  }

  /** The request with all answers from the k-th on replaced by Continue. */
  function Quieted(rq: Request, k: nat): Request
  {
    rq.(answer := (i: nat) => if i < k then rq.answer(i) else Continue)
  }

  /** A walk that a callback ends is the beginning of the walk that goes on instead. */
  lemma CutShort(t: Tree, top: Node, rq: Request)
    requires t.Valid() && top in t.nodes && rq.maxDepth > 0 && Walked(t, top, rq).verdict != Going
    ensures var calls := Walked(t, top, rq).calls;
      && calls != []
      && var r := Walked(t, top, Quieted(rq, |calls| - 1)); r.verdict == Going && calls <= r.calls
  {
    hide Walked, Tree.Valid;
    AnswersEnd(t, top, rq);
    var calls := Walked(t, top, rq).calls;
    var k := |calls| - 1;
    var rq' := Quieted(rq, k);
    NoForesight(t, top, rq, rq', k);
    AnswersEnd(t, top, rq');
    var r := Walked(t, top, rq');
    assert calls == calls[..k + 1];
  }

  // ---- the next peer -----------------------------------------------------------------------------

  lemma {:induction false} UnderTrans(t: Tree, a: Node, b: Node, x: Node)
    requires t.Valid() && a in t.nodes && b in t.nodes && x in t.nodes && Under(t, a, b) && Under(t, b, x)
    ensures Under(t, a, x)
    decreases t.depth[x]
  {
    hide Tree.NodeOk;
    if x != b {
      ParentOf(t, x);
      UnderTrans(t, a, b, x.parent);
      UnderDeeper(t, a, b);
    }
  }

  /** Above a node that the walk reaches, nothing was cut. */
  lemma {:induction false} ReachedNotCut(t: Tree, rq: Request, skip: set<Node>, n: Node, d: nat, v: bool, a: Node,
                                         x: Node)
    requires t.Valid() && n in t.nodes && a in t.nodes && x in t.nodes && Under(t, n, a) && Under(t, a, x) && a != x
    requires Reached(t, rq, skip, n, d, v, x)
    ensures Near(t, rq, n, d, a) && !Cut(rq, skip, a, In(t, rq, skip, n, d, v, a))
    decreases t.depth[x]
  {
    hide Tree.NodeOk, Cut, OutAll, Earlier;
    UnderDeeper(t, n, a);
    UnderDeeper(t, a, x);
    ParentOf(t, x);
    UnderDeeper(t, a, x.parent);
    NearParent(t, rq, n, d, x);
    if x.parent != a { ReachedNotCut(t, rq, skip, n, d, v, a, x.parent); }
  }

  /** Below a node that the callback skipped there is no call. */
  lemma SkippedBelow(t: Tree, rq: Request, skip: set<Node>, q: seq<Node>, d: nat, v: bool, depth: nat, e: Event,
                     f: Event)
    requires t.Valid() && Peers(t, q, depth) && (forall x :: x in q ==> x in t.nodes) && d <= rq.maxDepth
    requires DueBelow(t, rq, skip, q, d, v, e) && !e.up && e.node in skip && DueBelow(t, rq, skip, q, d, v, f)
    ensures e.node in t.nodes && f.node in t.nodes && !(f.node != e.node && Under(t, e.node, f.node))
  {
    hide Tree.NodeOk, OutAll, Reached, In, Back, Under;
    var i :| 0 <= i < |q| && Due(t, rq, skip, q[i], d, OutAll(t, rq, skip, q[..i], d, v), e);
    var j :| 0 <= j < |q| && Due(t, rq, skip, q[j], d, OutAll(t, rq, skip, q[..j], d, v), f);
    DueReached(t, rq, skip, q[i], d, OutAll(t, rq, skip, q[..i], d, v), e);
    DueReached(t, rq, skip, q[j], d, OutAll(t, rq, skip, q[..j], d, v), f);
    if f.node != e.node && Under(t, e.node, f.node) {
      UnderTrans(t, q[i], e.node, f.node);
      assert q[i] in q && q[j] in q;
      if i != j { UnderApart(t, q[i], q[j], f.node); }
      ReachedNotCut(t, rq, skip, q[i], d, OutAll(t, rq, skip, q[..i], d, v), e.node, f.node);
    }
  }

  /** The same for a walk that no callback ends. */
  lemma NextPeerGoing(t: Tree, top: Node, rq: Request, k: nat, m: nat)
    requires t.Valid() && top in t.nodes && rq.maxDepth > 0 && Walked(t, top, rq).verdict == Going
    requires var calls := Walked(t, top, rq).calls;
      k < |calls| && m < |calls| && !calls[k].up && rq.answer(k) == NextPeer
    ensures var calls := Walked(t, top, rq).calls;
      && calls[k].node in t.nodes && calls[m].node in t.nodes
      && !(calls[m].node != calls[k].node && Under(t, calls[k].node, calls[m].node))
  {
    hide Walked, Tree.Valid, DueBelow, OutAll, Peers;
    var calls := Walked(t, top, rq).calls;
    VisitsExactly(t, top, rq, calls[k]);
    VisitsExactly(t, top, rq, calls[m]);
    KidsIn(t, top);
    KidsPeers(t, top);
    SkippedBelow(t, rq, Skipped(rq, calls), t.kids[top], 1, false, t.depth[top] + 1, calls[k], calls[m]);
  }

  /** If a call that goes down to a node is answered with NextPeer, no call is for a node below it. */
  lemma NextPeerSkips(t: Tree, top: Node, rq: Request, k: nat, m: nat)
    requires t.Valid() && top in t.nodes && rq.maxDepth > 0
    requires var calls := Walked(t, top, rq).calls;
      k < |calls| && m < |calls| && !calls[k].up && rq.answer(k) == NextPeer
    ensures var calls := Walked(t, top, rq).calls;
      && calls[k].node in t.nodes && calls[m].node in t.nodes
      && !(calls[m].node != calls[k].node && Under(t, calls[k].node, calls[m].node))
  {
    hide Walked, Tree.Valid, Under;
    if Walked(t, top, rq).verdict == Going {
      NextPeerGoing(t, top, rq, k, m);
    } else {
      AnswersEnd(t, top, rq);
      CutShort(t, top, rq);
      var calls := Walked(t, top, rq).calls;
      NextPeerGoing(t, top, Quieted(rq, |calls| - 1), k, m);
    }
  }

  /** The walk as its caller sees it: what each answer does to the calls and the result. */
  method Walk(t: Tree, top: Node, rq: Request) returns (ok: bool, calls: seq<Event>)
    requires t.Valid() && top in t.nodes && rq.maxDepth > 0 && (rq.down || rq.up)
    ensures forall k: nat :: k < |calls| && rq.answer(k) == Break ==> |calls| == k + 1 && ok
    ensures forall k: nat :: k < |calls| && !calls[k].up && rq.answer(k) == Unknown ==> |calls| == k + 1 && !ok
    ensures !ok ==> calls != [] && !calls[|calls| - 1].up && rq.answer(|calls| - 1) == Unknown
    ensures forall k: nat, m: nat :: k < |calls| && m < |calls| && !calls[k].up && rq.answer(k) == NextPeer ==>
      && calls[k].node in t.nodes && calls[m].node in t.nodes
      && !(calls[m].node != calls[k].node && Under(t, calls[k].node, calls[m].node))
  {
    hide Walked, Tree.Valid, Under;
    ok, calls := ForEachChild(t, top, rq);
    AnswersEnd(t, top, rq);
    forall k: nat, m: nat | k < |calls| && m < |calls| && !calls[k].up && rq.answer(k) == NextPeer
      ensures calls[k].node in t.nodes && calls[m].node in t.nodes
      ensures !(calls[m].node != calls[k].node && Under(t, calls[k].node, calls[m].node))
    {
      NextPeerSkips(t, top, rq, k, m);
    }
  }

  // ---- trees in which every node has an object ---------------------------------------------------

  /** Every node has an object. */
  ghost predicate Typed(t: Tree)
    reads t, t.nodes
  {
    forall n :: n in t.nodes ==> n.kind.Some?
  }

  /** Where every node has an object, only nodes of a wanted type are shown, whatever the
      callbacks answer. */
  lemma TypedOnlyWanted(t: Tree, top: Node, rq: Request, e: Event)
    requires t.Valid() && Typed(t) && top in t.nodes && rq.maxDepth > 0 && e in Walked(t, top, rq).calls
    ensures Wanted(rq, e.node)
  {
    hide Tree.Valid, Tree.NodeOk, DueBelow, OutAll, Walked, StaleFrom, Skipped;
    if Walked(t, top, rq).verdict == Going {
      OnlyWanted(t, top, rq);
    } else {
      CutShort(t, top, rq);
      OnlyWanted(t, top, Quieted(rq, |Walked(t, top, rq).calls| - 1));
    }
  }

  // ---- a node without an object that is shown ----------------------------------------------------

  /** Callbacks that never cut the walk short. */
  ghost predicate Patient(rq: Request)
  {
    forall i :: rq.answer(i) == Continue
  }

  lemma PatientGoes(t: Tree, top: Node, rq: Request)
    requires t.Valid() && top in t.nodes && rq.maxDepth > 0 && Patient(rq)
    ensures Walked(t, top, rq).verdict == Going && Skipped(rq, Walked(t, top, rq).calls) == {}
  {
    hide Walked, Tree.Valid;
    AnswersEnd(t, top, rq);
  }

  /** The property fails: a node without an object is shown after a sibling of a wanted type. */
  lemma StaleExample(t: Tree, top: Node, rq: Request, a: Node, b: Node)
    requires t.Valid() && Patient(rq) && top in t.nodes && rq.maxDepth > 0 && rq.down && !rq.permanent
    requires top in t.kids && t.kids[top] == [a, b] && a in t.kids && t.kids[a] == [] && Wanted(rq, a) && b.kind.None?
    ensures Event(b, 1, false) in Walked(t, top, rq).calls && !Wanted(rq, b)
  {
    hide Tree.Valid, Tree.NodeOk, Patient, Walked, Reached, In;
    var q, e, skip := t.kids[top], Event(b, 1, false), Skipped(rq, Walked(t, top, rq).calls);
    PatientGoes(t, top, rq);
    assert a in q && b in q;
    VisitsExactly(t, top, rq, e);
    KidsIn(t, top);
    assert q[..1] == [a] && [a][1..] == [];
    assert Out(t, rq, skip, a, 1, false);
    assert OutAll(t, rq, skip, q[..1], 1, false);
    DueHere(t, rq, skip, b, 1, true, e);
    assert Due(t, rq, skip, q[1], 1, OutAll(t, rq, skip, q[..1], 1, false), e);
  }

  /** Such a namespace is built by two installations under the root. */
  method StaleNamespace(rq: Request, k: nat) returns (t: Tree, b: Node)
    requires Patient(rq) && rq.maxDepth > 0 && rq.down && !rq.permanent && k in rq.mask
    ensures t.Valid() && t.root in t.nodes && !Wanted(rq, b) && Event(b, 1, false) in Walked(t, t.root, rq).calls
  {
    hide Tree.Valid, Walked, Patient;
    var a;
    t, a, b := TwoUnderRoot("AAAA", Some(k), "BBBB", None);
    StaleExample(t, t.root, rq, a, b);
  }
}
