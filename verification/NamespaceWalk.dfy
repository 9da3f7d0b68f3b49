/**
  Walking the namespace (acpi/uacpi/source/namespace.c): uacpi_namespace_do_for_each_child
  moves one pointer along child, next and parent links, with a flag that says whether it is
  on its way up.  It makes the calls of the plain recursive traversal, in the same order.

  The callbacks may answer each call as they please; they do not change the namespace.
 */
module NamespaceWalk {
  import opened Basics
  import opened Namespace

  /** What a callback answers; Unknown is a value that is none of the others. */
  datatype Decision = Continue | NextPeer | Break | Unknown

  /** One call of the descending or the ascending callback. */
  datatype Event = Event(node: Node, depth: nat, up: bool)

  /** down, up: which callbacks there are.  mask: the object types of interest.  answer: what
      is decided in the first call, the second call, and so on. */
  datatype Request = Request(down: bool, up: bool, mask: set<nat>, maxDepth: nat, permanent: bool,
                             answer: nat -> Decision)

  datatype Verdict = Going | Stopped | Refused

  /** matches: the variable of that name, which keeps its value at a node without an object. */
  datatype Progress = Progress(matches: bool, calls: seq<Event>, steps: nat, verdict: Verdict)

  const START: Progress := Progress(false, [], 0, Going)

  predicate Matches(rq: Request, n: Node, was: bool)
    reads n
  {
    if n.kind.Some? then n.kind.value in rq.mask else was
  }

  // ---- the recursive traversal -----------------------------------------------------------------

  /** What happens at one node, and what is decided. */
  function Visit(rq: Request, n: Node, d: nat, up: bool, st: Progress): (r: (Progress, Decision))
    requires st.verdict == Going
    reads n
    ensures r.0.steps == st.steps + 1 && st.calls <= r.0.calls <= st.calls + [Event(n, d, up)]
  {
    var m := Matches(rq, n, st.matches);
    var st1 := st.(matches := m, steps := st.steps + 1);
    if !m then (st1, Continue)
    else if rq.permanent && n.temporary then (st1, NextPeer)
    else if if up then rq.up else rq.down then
      var calls := st.calls + [Event(n, d, up)];
      var a := rq.answer(|st.calls|);
      var verdict := if a == Break then Stopped else if !up && a == Unknown then Refused else Going;
      (st1.(calls := calls, verdict := verdict), a)
    else (st1, Continue)
  }

  /** A node, what is below it, and the node again. */
  ghost function Down(t: Tree, rq: Request, n: Node, d: nat, st: Progress): (r: Progress)
    requires t.Valid() && n in t.nodes && d <= rq.maxDepth && st.verdict == Going
    reads t, t.nodes
    ensures r.steps > st.steps && st.calls <= r.calls
    decreases rq.maxDepth - d, 0, 0
  {
    var (st1, a) := Visit(rq, n, d, false, st);
    if st1.verdict != Going then st1
    else
      var st2 := if a == Continue && d < rq.maxDepth then (KidsIn(t, n); Forest(t, rq, t.kids[n], d + 1, st1)) else st1;
      if st2.verdict != Going then st2 else Visit(rq, n, d, true, st2).0
  }

  ghost function Forest(t: Tree, rq: Request, q: seq<Node>, d: nat, st: Progress): (r: Progress)
    requires t.Valid() && (forall x :: x in q ==> x in t.nodes) && d <= rq.maxDepth && st.verdict == Going
    reads t, t.nodes
    ensures r.steps >= st.steps && st.calls <= r.calls && (q != [] ==> r.steps > st.steps)
    decreases rq.maxDepth - d, |q|, 1
  {
    if q == [] then st
    else
      var st1 := Down(t, rq, q[0], d, st);
      if st1.verdict != Going then st1 else Forest(t, rq, q[1..], d, st1)
  }

  lemma KidsIn(t: Tree, n: Node)
    requires t.Valid() && n in t.nodes
    ensures t.kids.Keys == t.depth.Keys == t.nodes
    ensures forall x :: x in t.kids[n] ==> x in t.nodes && x != t.root && x.parent == n && t.depth[x] == t.depth[n] + 1
  {
    assert t.NodeOk(n);
  }

  // ---- what is left of the traversal, seen from a node -----------------------------------------

  /** The siblings that come after n. */
  ghost function Later(q: seq<Node>, n: Node): (r: seq<Node>)
    ensures forall x :: x in r ==> x in q
  {
    if q == [] then [] else if q[0] == n then q[1..] else Later(q[1..], n)
  }

  lemma {:induction false} LaterAt(q: seq<Node>, i: nat)
    requires i < |q| && forall j, k :: 0 <= j < k < |q| ==> q[j] != q[k]
    ensures Later(q, q[i]) == q[i + 1..]
  {
    if i > 0 {
      assert q[i] == q[1..][i - 1];
      LaterAt(q[1..], i - 1);
    }
  }

  /** The end of the walk that is about to come by n on its way up. */
  ghost function FromUp(t: Tree, rq: Request, n: Node, d: nat, st: Progress): (r: Progress)
    requires t.Valid() && n in t.nodes && 1 <= d <= rq.maxDepth && d <= t.depth[n] && st.verdict == Going
    reads t, t.nodes
    ensures r.steps > st.steps
    decreases d, 1
  {
    var st1 := Visit(rq, n, d, true, st).0;
    if st1.verdict != Going then st1 else After(t, rq, n, d, st1)
  }

  /** The end of the walk that is done with n and what is below it. */
  ghost function After(t: Tree, rq: Request, n: Node, d: nat, st: Progress): (r: Progress)
    requires t.Valid() && n in t.nodes && 1 <= d <= rq.maxDepth && d <= t.depth[n] && st.verdict == Going
    reads t, t.nodes
    ensures r.steps >= st.steps
    decreases d, 0
  {
    ParentOf(t, n);
    var st1 := Forest(t, rq, Later(t.kids[n.parent], n), d, st);
    if st1.verdict != Going || d == 1 then st1 else FromUp(t, rq, n.parent, d - 1, st1)
  }

  /** The end of the walk that is about to come by n on its way down. */
  ghost function FromDown(t: Tree, rq: Request, n: Node, d: nat, st: Progress): (r: Progress)
    requires t.Valid() && n in t.nodes && 1 <= d <= rq.maxDepth && d <= t.depth[n] && st.verdict == Going
    reads t, t.nodes
    ensures r.steps > st.steps
  {
    var st1 := Down(t, rq, n, d, st);
    if st1.verdict != Going then st1 else After(t, rq, n, d, st1)
  }

  lemma ParentOf(t: Tree, n: Node)
    requires t.Valid() && n in t.nodes && t.depth[n] > 0
    ensures n.parent != null && n.parent in t.nodes && t.depth[n.parent] + 1 == t.depth[n] && n in t.kids[n.parent]
    ensures forall x :: x in t.kids[n.parent] ==> x in t.nodes && t.depth[x] == t.depth[n] && x.parent == n.parent
  {
    assert t.NodeOk(n);
    assert t.NodeOk(n.parent);
  }

  /** The next sibling and the siblings after it. */
  lemma NextLink(t: Tree, n: Node)
    requires t.Valid() && n in t.nodes && t.depth[n] > 0 && n.parent != null && n.parent in t.nodes
    ensures var q := Later(t.kids[n.parent], n);
      if q == [] then n.next == null
      else n.next == q[0] && n.next in t.nodes && t.depth[n.next] == t.depth[n] && n.next.parent == n.parent
           && Later(t.kids[n.parent], n.next) == q[1..]
  {
    ParentOf(t, n);
    var q := t.kids[n.parent];
    assert t.NodeOk(n.parent);
    var i :| 0 <= i < |q| && q[i] == n;
    LaterAt(q, i);
    if i + 1 < |q| {
      assert q[i + 1] in q;
      LaterAt(q, i + 1);
    }
  }

  lemma FirstChild(t: Tree, n: Node)
    requires t.Valid() && n in t.nodes
    ensures n.child == null <==> t.kids[n] == []
    ensures n.child != null ==>
      && t.kids[n] != [] && n.child == t.kids[n][0] && n.child in t.nodes && t.depth[n.child] == t.depth[n] + 1
      && n.child.parent == n && Later(t.kids[n], n.child) == t.kids[n][1..]
  {
    assert t.NodeOk(n);
    if t.kids[n] != [] { assert t.kids[n][0] in t.kids[n]; }
  }

  // ---- one turn of the loop --------------------------------------------------------------------

  lemma Descends(t: Tree, rq: Request, n: Node, d: nat, st: Progress)
    requires t.Valid() && n in t.nodes && 1 <= d < rq.maxDepth && d <= t.depth[n] && st.verdict == Going
      && n.child != null
    requires var (st1, a) := Visit(rq, n, d, false, st); st1.verdict == Going && a == Continue
    ensures n.child in t.nodes && t.depth[n.child] == t.depth[n] + 1
    ensures FromDown(t, rq, n, d, st) == FromDown(t, rq, n.child, d + 1, Visit(rq, n, d, false, st).0)
  {
    hide Visit, Later, Tree.Valid, Tree.NodeOk;
    KidsIn(t, n);
    FirstChild(t, n);
    var st1, q := Visit(rq, n, d, false, st).0, t.kids[n];
    var s := Down(t, rq, q[0], d + 1, st1);
    DownForest(t, rq, n, d, st);
    if s.verdict == Going {
      var f := Forest(t, rq, q[1..], d + 1, s);
      assert After(t, rq, n.child, d + 1, s) == if f.verdict != Going then f else FromUp(t, rq, n, d, f);
    }
  }

  lemma DownForest(t: Tree, rq: Request, n: Node, d: nat, st: Progress)
    requires t.Valid() && n in t.nodes && d <= rq.maxDepth && st.verdict == Going
    requires Visit(rq, n, d, false, st).0.verdict == Going
    ensures forall x :: x in t.kids[n] ==> x in t.nodes
    ensures var (st1, a) := Visit(rq, n, d, false, st);
      var st2 := if a == Continue && d < rq.maxDepth then Forest(t, rq, t.kids[n], d + 1, st1) else st1;
      Down(t, rq, n, d, st) == if st2.verdict != Going then st2 else Visit(rq, n, d, true, st2).0
  {
    hide Visit, Forest, Tree.NodeOk;
    KidsIn(t, n);
  }

  lemma Turns(t: Tree, rq: Request, n: Node, d: nat, st: Progress)
    requires t.Valid() && n in t.nodes && 1 <= d <= rq.maxDepth && d <= t.depth[n] && st.verdict == Going
    requires var (st1, a) := Visit(rq, n, d, false, st);
      st1.verdict == Going && (a != Continue || d == rq.maxDepth || n.child == null)
    ensures FromDown(t, rq, n, d, st) == FromUp(t, rq, n, d, Visit(rq, n, d, false, st).0)
  {
    hide Visit, Later, Tree.Valid, Tree.NodeOk;
    KidsIn(t, n);
    FirstChild(t, n);
    DownForest(t, rq, n, d, st);
  }

  lemma GoesOn(t: Tree, rq: Request, n: Node, d: nat, st: Progress)
    requires t.Valid() && n in t.nodes && 1 <= d <= rq.maxDepth && d <= t.depth[n] && st.verdict == Going
    ensures n.parent != null && n.parent in t.nodes && t.depth[n.parent] + 1 == t.depth[n]
    ensures n.next != null ==>
      n.next in t.nodes && t.depth[n.next] == t.depth[n] && After(t, rq, n, d, st) == FromDown(t, rq, n.next, d, st)
    ensures n.next == null && d > 1 ==> After(t, rq, n, d, st) == FromUp(t, rq, n.parent, d - 1, st)
    ensures n.next == null && d == 1 ==> After(t, rq, n, d, st) == st
  {
    hide Visit, Later, Down;
    ParentOf(t, n);
    NextLink(t, n);
  }

  /** The whole traversal below top. */
  ghost function Walked(t: Tree, top: Node, rq: Request): (r: Progress)
    requires t.Valid() && top in t.nodes && rq.maxDepth > 0
    reads t, t.nodes
  {
    KidsIn(t, top);
    Forest(t, rq, t.kids[top], 1, START)
  }

  lemma WalkStarts(t: Tree, top: Node, rq: Request)
    requires t.Valid() && top in t.nodes && rq.maxDepth > 0
    ensures top.child == null ==> Walked(t, top, rq) == START
    ensures top.child != null ==>
      && top.child in t.nodes && t.depth[top.child] == t.depth[top] + 1
      && Walked(t, top, rq) == FromDown(t, rq, top.child, 1, START)
  {
    hide Visit, Later, Down;
    KidsIn(t, top);
    FirstChild(t, top);
  }

  /** The part of a turn that may make a call. */
  method AtNode(rq: Request, node: Node, depth: nat, up: bool, was: bool, calls: seq<Event>, ghost st: Progress)
    returns (matches: bool, calls': seq<Event>, decision: Decision)
    requires st.verdict == Going && st.matches == was && st.calls == calls
    ensures var (st', a) := Visit(rq, node, depth, up, st);
      && a == decision && st'.matches == matches && st'.calls == calls'
      && st'.verdict == if a == Break then Stopped else if !up && a == Unknown then Refused else Going
  {
    matches, calls' := was, calls;
    if node.kind.Some? {
      matches := node.kind.value in rq.mask;
    }
    if !matches {
      decision := Continue;
    } else if rq.permanent && node.temporary {
      decision := NextPeer;
    } else if if up then rq.up else rq.down {
      calls' := calls + [Event(node, depth, up)];
      decision := rq.answer(|calls|);
    } else {
      decision := Continue;
    }
  }

  /** uacpi_namespace_do_for_each_child makes the calls of the recursive traversal. */
  method ForEachChild(t: Tree, top: Node?, rq: Request) returns (ok: bool, calls: seq<Event>)
    requires t.Valid() && (top != null ==> top in t.nodes)
    ensures if (!rq.down && !rq.up) || top == null || rq.maxDepth == 0
      then !ok && calls == []
      else var r := Walked(t, top, rq); calls == r.calls && (ok <==> r.verdict != Refused)
  {
    hide Visit, Forest, Down, After, FromDown, Walked, Tree.Valid;
    calls := [];
    if !rq.down && !rq.up {
      return false, calls;
    }
    if top == null || rq.maxDepth == 0 {
      return false, calls;
    }
    WalkStarts(t, top, rq);
    KidsIn(t, top);
    if top.child == null {
      return true, calls;
    }
    ghost var total := Walked(t, top, rq);
    var node, depth, walkingUp, matches := top.child, 1, false, false;
    ghost var st := START;
    while depth > 0
      invariant depth > 0 ==>
        && node in t.nodes && node in t.depth && top in t.depth && depth <= rq.maxDepth
          && t.depth[node] == t.depth[top] + depth
        && st.verdict == Going && st.matches == matches && st.calls == calls && total.steps > st.steps
        && total == (if walkingUp then FromUp(t, rq, node, depth, st) else FromDown(t, rq, node, depth, st))
      invariant depth == 0 ==> st == total && st.calls == calls && st.verdict == Going
      decreases total.steps - st.steps
    {
      var decision;
      ghost var st1 := Visit(rq, node, depth, walkingUp, st).0;
      Interrupted(t, rq, node, depth, st);
      matches, calls, decision := AtNode(rq, node, depth, walkingUp, matches, calls, st);
      if decision == Break {
        return true, calls;
      }
      if walkingUp {
        GoesOn(t, rq, node, depth, st1);
        if node.next != null {
          node := node.next;
          walkingUp := false;
        } else {
          depth := depth - 1;
          node := node.parent;
        }
      } else if decision == Continue && depth != rq.maxDepth && node.child != null {
        Descends(t, rq, node, depth, st);
        node := node.child;
        depth := depth + 1;
      } else if decision == Continue || decision == NextPeer {
        Turns(t, rq, node, depth, st);
        walkingUp := true;
      } else {
        return false, calls;
      }
      st := st1;
    }
    ok := true;
  }

  /** A visit that ends the walk is the last thing that happens. */
  lemma Interrupted(t: Tree, rq: Request, n: Node, d: nat, st: Progress)
    requires t.Valid() && n in t.nodes && 1 <= d <= rq.maxDepth && d <= t.depth[n] && st.verdict == Going
    ensures Visit(rq, n, d, true, st).0.verdict != Going ==> FromUp(t, rq, n, d, st) == Visit(rq, n, d, true, st).0
    ensures Visit(rq, n, d, false, st).0.verdict != Going ==> FromDown(t, rq, n, d, st) == Visit(rq, n, d, false, st).0
  {
    hide Visit, Later, Forest;
  }

  // ---- every node once -------------------------------------------------------------------------

  /** x is n or somewhere below it. */
  ghost predicate Under(t: Tree, n: Node, x: Node)
    requires t.Valid() && n in t.nodes && x in t.nodes
    reads t, t.nodes
    decreases t.depth[x]
  {
    x == n || (t.depth[x] > t.depth[n] && (ParentOf(t, x); Under(t, n, x.parent)))
  }

  lemma {:induction false} UnderKid(t: Tree, k: Node, x: Node)
    requires t.Valid() && k in t.nodes && x in t.nodes && t.depth[k] > 0 && Under(t, k, x)
    ensures k.parent != null && k.parent in t.nodes && t.depth[x] > t.depth[k.parent] && Under(t, k.parent, x)
    decreases t.depth[x]
  {
    hide Tree.NodeOk;
    ParentOf(t, k);
    if x != k {
      ParentOf(t, x);
      UnderKid(t, k, x.parent);
    }
  }

  /** Nothing is below two nodes of the same depth. */
  lemma {:induction false} UnderApart(t: Tree, k: Node, l: Node, x: Node)
    requires t.Valid() && k in t.nodes && l in t.nodes && x in t.nodes && k != l && t.depth[k] == t.depth[l]
    requires Under(t, k, x)
    ensures !Under(t, l, x)
    decreases t.depth[x]
  {
    hide Tree.NodeOk;
    if x != k {
      ParentOf(t, x);
      UnderApart(t, k, l, x.parent);
    }
  }

  ghost predicate Different(es: seq<Event>)
  {
    forall i, j :: 0 <= i < j < |es| ==> es[i] != es[j]
  }

  lemma DifferentJoin(a: seq<Event>, b: seq<Event>)
    requires Different(a) && Different(b) && forall x, y :: x in a && y in b ==> x != y
    ensures Different(a + b)
  {
    forall i, j | 0 <= i < j < |a + b|
      ensures (a + b)[i] != (a + b)[j]
    {
      if i < |a| <= j {
        assert a[i] in a && b[j - |a|] in b;
      }
    }
  }

  /** The calls made on the way from st to r. */
  function New(st: Progress, r: Progress): seq<Event>
    requires st.calls <= r.calls
  {
    r.calls[|st.calls|..]
  }

  lemma NewJoin(a: Progress, b: Progress, c: Progress)
    requires a.calls <= b.calls <= c.calls
    ensures New(a, c) == New(a, b) + New(b, c)
  {
  }

  /** All calls are for nodes at or below n, with the right depth. */
  ghost predicate CallsUnder(t: Tree, n: Node, d: nat, es: seq<Event>)
    requires t.Valid() && n in t.nodes
    reads t, t.nodes
  {
    forall e :: e in es ==> e.node in t.nodes && Under(t, n, e.node) && e.depth + t.depth[n] == d + t.depth[e.node]
  }

  ghost predicate Peers(t: Tree, q: seq<Node>, depth: nat)
    requires t.Valid()
    reads t, t.nodes
  {
    (forall x :: x in q ==> x in t.nodes && t.depth[x] == depth) && forall i, j :: 0 <= i < j < |q| ==> q[i] != q[j]
  }

  ghost predicate CallsUnderOne(t: Tree, q: seq<Node>, depth: nat, d: nat, es: seq<Event>)
    requires t.Valid() && Peers(t, q, depth)
    reads t, t.nodes
  {
    forall e :: e in es ==>
      e.node in t.nodes && (exists k :: k in q && Under(t, k, e.node)) && e.depth + depth == d + t.depth[e.node]
  }

  lemma KidsPeers(t: Tree, n: Node)
    requires t.Valid() && n in t.nodes
    ensures n in t.kids && Peers(t, t.kids[n], t.depth[n] + 1)
  {
    assert t.NodeOk(n);
  }

  lemma PeersRest(t: Tree, q: seq<Node>, depth: nat)
    requires t.Valid() && Peers(t, q, depth) && q != []
    ensures q[0] in t.nodes && t.depth[q[0]] == depth && Peers(t, q[1..], depth) && q[0] !in q[1..]
    ensures forall x :: x in q <==> x == q[0] || x in q[1..]
  {
    hide Tree.Valid;
    assert q == [q[0]] + q[1..];
    assert forall i :: 0 <= i < |q[1..]| ==> q[1..][i] == q[i + 1];
  }

  lemma VisitNew(rq: Request, n: Node, d: nat, up: bool, st: Progress)
    requires st.verdict == Going
    ensures var es := New(st, Visit(rq, n, d, up, st).0); es == [] || es == [Event(n, d, up)]
  {
  }

  /** The calls for a node around those for what is below it. */
  lemma AroundKids(t: Tree, n: Node, d: nat, a: seq<Event>, b: seq<Event>, c: seq<Event>)
    requires t.Valid() && n in t.nodes && Peers(t, t.kids[n], t.depth[n] + 1)
    requires a == [] || a == [Event(n, d, false)]
    requires c == [] || c == [Event(n, d, true)]
    requires Different(b) && CallsUnderOne(t, t.kids[n], t.depth[n] + 1, d + 1, b)
    ensures Different(a + b + c) && CallsUnder(t, n, d, a + b + c)
  {
    hide Tree.NodeOk, Peers;
    KidsIn(t, n);
    forall e | e in b
      ensures e.node in t.nodes && e.node != n && Under(t, n, e.node) && e.depth + t.depth[n] == d + t.depth[e.node]
    {
      var k :| k in t.kids[n] && Under(t, k, e.node);
      UnderKid(t, k, e.node);
    }
    DifferentJoin(a, b);
    DifferentJoin(a + b, c);
  }

  /** Below one node no call is made twice. */
  lemma {:induction false} DownOnce(t: Tree, rq: Request, n: Node, d: nat, st: Progress)
    requires t.Valid() && n in t.nodes && d <= rq.maxDepth && st.verdict == Going
    ensures var es := New(st, Down(t, rq, n, d, st)); Different(es) && CallsUnder(t, n, d, es)
    decreases rq.maxDepth - d, 0, 0
  {
    hide Visit, Forest, Down, Tree.Valid, Tree.NodeOk, Different, Peers, CallsUnder, CallsUnderOne;
    KidsIn(t, n);
    KidsPeers(t, n);
    var (st1, a) := Visit(rq, n, d, false, st);
    VisitNew(rq, n, d, false, st);
    var st2 := st1;
    NoCalls(t, t.kids[n], t.depth[n] + 1, d + 1);
    if st1.verdict == Going {
      DownForest(t, rq, n, d, st);
      if a == Continue && d < rq.maxDepth {
        ForestOnce(t, rq, t.kids[n], d + 1, st1, t.depth[n] + 1);
        st2 := Forest(t, rq, t.kids[n], d + 1, st1);
      }
    }
    var st3 := st2;
    if st2.verdict == Going {
      VisitNew(rq, n, d, true, st2);
      st3 := Visit(rq, n, d, true, st2).0;
    }
    DownStops(t, rq, n, d, st);
    NewJoin(st, st1, st2);
    NewJoin(st, st2, st3);
    AroundKids(t, n, d, New(st, st1), New(st1, st2), New(st2, st3));
  }

  lemma DownStops(t: Tree, rq: Request, n: Node, d: nat, st: Progress)
    requires t.Valid() && n in t.nodes && d <= rq.maxDepth && st.verdict == Going
    ensures var st1 := Visit(rq, n, d, false, st).0; st1.verdict != Going ==> Down(t, rq, n, d, st) == st1
  {
    hide Visit, Forest, Tree.Valid, Tree.NodeOk;
  }

  lemma NoCalls(t: Tree, q: seq<Node>, depth: nat, d: nat)
    requires t.Valid() && Peers(t, q, depth)
    ensures Different([]) && CallsUnderOne(t, q, depth, d, [])
  {
    hide Tree.Valid, Peers;
  }

  /** The calls for one node and those for its later siblings. */
  lemma BesidePeers(t: Tree, q: seq<Node>, depth: nat, d: nat, a: seq<Event>, b: seq<Event>)
    requires t.Valid() && q != [] && Peers(t, q, depth) && q[0] in t.nodes && Peers(t, q[1..], depth)
    requires Different(a) && CallsUnder(t, q[0], d, a) && Different(b) && CallsUnderOne(t, q[1..], depth, d, b)
    ensures Different(a + b) && CallsUnderOne(t, q, depth, d, a + b)
  {
    hide Tree.NodeOk, Under, Different;
    PeersRest(t, q, depth);
    forall x, y | x in a && y in b
      ensures x != y
    {
      var k :| k in q[1..] && Under(t, k, y.node);
      UnderApart(t, k, q[0], y.node);
    }
    DifferentJoin(a, b);
    forall e | e in a + b
      ensures e.node in t.nodes && (exists k :: k in q && Under(t, k, e.node)) && e.depth + depth == d + t.depth[e.node]
    {
      if e in a {
        assert q[0] in q && Under(t, q[0], e.node);
      } else {
        var k :| k in q[1..] && Under(t, k, e.node);
        assert k in q;
      }
    }
  }

  lemma {:induction false} ForestOnce(t: Tree, rq: Request, q: seq<Node>, d: nat, st: Progress, depth: nat)
    requires t.Valid() && Peers(t, q, depth) && (forall x :: x in q ==> x in t.nodes) && d <= rq.maxDepth
      && st.verdict == Going
    ensures var es := New(st, Forest(t, rq, q, d, st)); Different(es) && CallsUnderOne(t, q, depth, d, es)
    decreases rq.maxDepth - d, |q|, 1
  {
    hide Down, Tree.Valid, Tree.NodeOk, Different, Peers, CallsUnder, CallsUnderOne;
    if q == [] {
      NoCalls(t, q, depth, d);
      assert New(st, Forest(t, rq, q, d, st)) == [];
    } else {
      PeersRest(t, q, depth);
      var st1 := Down(t, rq, q[0], d, st);
      DownOnce(t, rq, q[0], d, st);
      var st2 := st1;
      NoCalls(t, q[1..], depth, d);
      if st1.verdict == Going {
        ForestOnce(t, rq, q[1..], d, st1, depth);
        st2 := Forest(t, rq, q[1..], d, st1);
      } else {
        assert New(st1, st2) == [];
      }
      NewJoin(st, st1, st2);
      BesidePeers(t, q, depth, d, New(st, st1), New(st1, st2));
    }
  }

  /** Whatever the callbacks answer, no call is made twice, and each is for a node below top,
      with the node's depth below top. */
  lemma VisitsOnce(t: Tree, top: Node, rq: Request, e: Event)
    requires t.Valid() && top in t.nodes && rq.maxDepth > 0
    ensures Different(Walked(t, top, rq).calls)
    ensures e in Walked(t, top, rq).calls ==>
      e.node in t.nodes && e.node != top && Under(t, top, e.node) && e.depth + t.depth[top] == t.depth[e.node]
  {
    hide Forest, Tree.NodeOk, Different, Peers;
    KidsPeers(t, top);
    KidsIn(t, top);
    ForestOnce(t, rq, t.kids[top], 1, START, t.depth[top] + 1);
    var r := Walked(t, top, rq);
    assert New(START, r) == r.calls;
    if e in r.calls {
      var k :| k in t.kids[top] && Under(t, k, e.node);
      UnderKid(t, k, e.node);
    }
  }
}
