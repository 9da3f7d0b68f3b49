/**
  Namespace paths (acpi/uacpi/source/namespace.c): printing the absolute path of a node and
  resolving a path to a node undo each other.

  A node has a four-character name and links to its parent, its first child and its next
  sibling.  Strings are sequences without the terminating NUL.
 */
module Namespace {
  import opened Basics

  const NAME_SIZE: nat := 4

  class Node {
    var name: string
    var parent: Node?
    var child: Node?
    var next: Node?
    var temporary: bool
    var dangling: bool
    // The type of the attached object, if there is one.
    var kind: Option<nat>

    /** A node as it is allocated, with an object of the type `kind`. */
    constructor (name: string, kind: Option<nat>)
      ensures this.name == name && this.kind == kind && parent == null && child == null && next == null
      ensures !temporary && !dangling
    {
      this.name, this.kind, parent, child, next := name, kind, null, null, null;
      temporary, dangling := false, false;
    }
  }

  /** The sibling links starting at `first` run through q. */
  ghost predicate Linked(first: Node?, q: seq<Node>)
    reads q`next
  {
    if q == [] then first == null
    else first == q[0] && (forall i :: 0 <= i < |q| - 1 ==> q[i].next == q[i + 1]) && q[|q| - 1].next == null
  }

  /** n has its name, its children, each once, and its place below its parent. */
  ghost predicate InPlace(root: Node, nodes: set<Node>, kids: map<Node, seq<Node>>, depth: map<Node, nat>, n: Node)
    requires n in nodes && kids.Keys == nodes && depth.Keys == nodes
    reads nodes`name, nodes`parent
  {
    && |n.name| == NAME_SIZE
    && (forall i :: 0 <= i < |kids[n]| ==>
      kids[n][i] in nodes && kids[n][i].parent == n && depth[kids[n][i]] == depth[n] + 1)
    && (forall i, j :: 0 <= i < j < |kids[n]| ==> kids[n][i] != kids[n][j])
    && (n != root ==> n.parent != null && n.parent in nodes && n in kids[n.parent])
  }

  lemma PlaceGrown(root: Node, nodes: set<Node>, kids: map<Node, seq<Node>>, depth: map<Node, nat>, p: Node,
                   node: Node, n: Node)
    requires kids.Keys == nodes && depth.Keys == nodes && p in nodes && root in nodes && node !in nodes
      && (n in nodes || n == node)
    requires InPlace(root, nodes, kids, depth, p) && (n in nodes ==> InPlace(root, nodes, kids, depth, n))
    requires |node.name| == NAME_SIZE && node.parent == p
    ensures InPlace(root, nodes + {node}, kids[p := kids[p] + [node]][node := []], depth[node := depth[p] + 1], n)
  {
  }

  /** q without its element i; the element that follows element i, if any. */
  ghost function Dropped(q: seq<Node>, i: nat): seq<Node>
    requires i < |q|
  {
    q[..i] + q[i + 1..]
  }

  ghost function After(q: seq<Node>, i: nat): Node?
    requires i < |q|
  {
    if i + 1 < |q| then q[i + 1] else null
  }

  /** The answers of uacpi_namespace_node_uninstall. */
  datatype Removal = Removed | WasDangling | HasChild | NotLinked

  /** Uninstalling a node that was just installed leaves the children of its parent as they were. */
  lemma DroppedLast(q: seq<Node>, node: Node, i: nat)
    requires node !in q && i <= |q| && (q + [node])[i] == node
    ensures Dropped(q + [node], i) == q
  {
    forall j | 0 <= j < |q|
      ensures q[j] != node
    {
    }
    assert i == |q|;
  }

  /** The children of n are in place after node is gone from the list r was made from. */
  lemma KidsShrunk(nodes: set<Node>, depth: map<Node, nat>, n: Node, node: Node, q: seq<Node>, i: nat)
    requires depth.Keys == nodes && n in nodes && i < |q| && q[i] == node
    requires forall j :: 0 <= j < |q| ==> q[j] in nodes && q[j].parent == n && depth[q[j]] == depth[n] + 1
    requires forall j, k :: 0 <= j < k < |q| ==> q[j] != q[k]
    ensures var r := Dropped(q, i);
      && (forall j :: 0 <= j < |r| ==> r[j] in nodes - {node} && r[j].parent == n && depth[r[j]] == depth[n] + 1)
      && (forall j, k :: 0 <= j < k < |r| ==> r[j] != r[k])
      && (forall x :: x in q && x != node ==> x in r)
  {
    var r := Dropped(q, i);
    forall j | 0 <= j < |r|
      ensures r[j] == q[if j >= i then j + 1 else j] && r[j] != node
    {
    }
    forall x | x in q && x != node
      ensures x in r
    {
      var j :| 0 <= j < |q| && q[j] == x;
      assert r[if j < i then j else j - 1] == x;
    }
  }

  lemma PlaceShrunk(root: Node, nodes: set<Node>, kids: map<Node, seq<Node>>, depth: map<Node, nat>, p: Node,
                    node: Node, i: nat, n: Node)
    requires kids.Keys == nodes && depth.Keys == nodes && p in nodes && node in nodes && root in nodes && node != root
      && node != p
    requires n in nodes && n != node && i < |kids[p]| && kids[p][i] == node && kids[node] == []
    requires InPlace(root, nodes, kids, depth, n) && InPlace(root, nodes, kids, depth, p)
    ensures InPlace(root, nodes - {node}, kids[p := Dropped(kids[p], i)] - {node}, depth - {node}, n)
  {
    hide Dropped;
    KidsShrunk(nodes, depth, p, node, kids[p], i);
    if n != p {
      assert forall j :: 0 <= j < |kids[n]| ==> kids[n][j].parent == n && kids[n][j] != node;
    }
    if n != root {
      assert n in kids[n.parent];
    }
  }

  ghost predicate UniqueAmong(q: seq<Node>)
    reads q`name
  {
    forall i, j :: 0 <= i < j < |q| ==> q[i].name != q[j].name
  }

  lemma UniqueLonger(q: seq<Node>, node: Node)
    ensures UniqueAmong(q + [node]) <==> UniqueAmong(q) && FirstNamed(q, node.name) == null
  {
    var r := q + [node];
    if UniqueAmong(r) {
      assert forall i :: 0 <= i < |q| ==> r[i] == q[i] && r[i].name != r[|q|].name;
    }
  }

  ghost function FirstNamed(q: seq<Node>, name: string): (r: Node?)
    reads q
    ensures r != null ==> r in q && r.name == name
    ensures r == null ==> forall i :: 0 <= i < |q| ==> q[i].name != name
  {
    if q == [] then null else if q[0].name == name then q[0] else FirstNamed(q[1..], name)
  }

  class Tree {
    const root: Node
    ghost var nodes: set<Node>
    ghost var kids: map<Node, seq<Node>>
    ghost var depth: map<Node, nat>

    /** A namespace that holds only its root. */
    constructor (root: Node)
      requires |root.name| == NAME_SIZE && root.parent == null && root.child == null
      ensures Valid() && this.root == root && nodes == {root} && kids == map[root := []]
    {
      this.root := root;
      nodes, kids, depth := {root}, map[root := []], map[root := 0];
    }

    /** The links make a tree. */
    ghost predicate Valid()
      reads this, nodes`name, nodes`parent, nodes`child, nodes`next
    {
      && root in nodes && kids.Keys == nodes && depth.Keys == nodes && root.parent == null && depth[root] == 0
      && (forall n :: n in nodes ==> NodeOk(n))
    }

    ghost predicate NodeOk(n: Node)
      requires n in nodes && kids.Keys == nodes && depth.Keys == nodes
      reads this, nodes`name, nodes`parent, nodes`child, nodes`next
    {
      InPlace(root, nodes, kids, depth, n) && Linked(n.child, kids[n])
    }

    /** Siblings have different names. */
    ghost predicate UniqueNames()
      requires Valid()
      reads this, nodes
    {
      forall n :: n in nodes ==> assert NodeOk(n); UniqueAmong(kids[n])
    }

    /** The first child of n with that name. */
    ghost function Sub(n: Node, name: string): (r: Node?)
      requires Valid() && n in nodes
      reads this, nodes
      ensures r != null ==> r in nodes && r.name == name && r.parent == n
    {
      assert NodeOk(n);
      FirstNamed(kids[n], name)
    }

    lemma SubIs(n: Node, k: Node)
      requires Valid() && UniqueNames() && n in nodes && k in nodes && k != root && k.parent == n
      ensures Sub(n, k.name) == k
    {
      assert NodeOk(n) && NodeOk(k);
      var r := FirstNamed(kids[n], k.name);
      var i :| 0 <= i < |kids[n]| && kids[n][i] == k;
      assert r != null;
      var j :| 0 <= j < |kids[n]| && kids[n][j] == r;
    }

    /** uacpi_namespace_node_find_sub_node. */
    method FindSubNode(parent: Node, name: string) returns (node: Node?)
      requires Valid() && parent in nodes
      ensures node == Sub(parent, name)
    {
      assert NodeOk(parent);
      ghost var q, i := kids[parent], 0;
      node := parent.child;
      while node != null
        invariant 0 <= i <= |q| && node == (if i < |q| then q[i] else null)
        invariant FirstNamed(q, name) == FirstNamed(q[i..], name)
        decreases |q| - i
      {
        assert q[i..][0] == q[i] && q[i..][1..] == q[i + 1..];
        if node.name == name {
          return;
        }
        node := node.next;
        i := i + 1;
      }
      assert q[i..] == [];
    }

    // ---- installing and uninstalling -------------------------------------------------------------

    /** All is in order but the links between the children of p. */
    ghost predicate ValidBut(p: Node)
      reads this, nodes`name, nodes`parent, nodes`child, nodes`next
    {
      && root in nodes && kids.Keys == nodes && depth.Keys == nodes && root.parent == null && depth[root] == 0
        && p in nodes
      && (forall n :: n in nodes ==> InPlace(root, nodes, kids, depth, n))
      && (forall n :: n in nodes && n != p ==> Linked(n.child, kids[n]))
    }

    /** The walk to the last of the siblings q. */
    method LastSibling(first: Node, ghost q: seq<Node>) returns (prev: Node)
      requires Linked(first, q)
      ensures q != [] && prev == q[|q| - 1]
    {
      prev := first;
      ghost var i := 0;
      while prev.next != null
        invariant 0 <= i < |q| && prev == q[i]
        decreases |q| - i
      {
        prev := prev.next;
        i := i + 1;
      }
      LinkedAt(first, q, i);
    }

    lemma LinkedAt(first: Node?, q: seq<Node>, i: nat)
      requires Linked(first, q) && i < |q|
      ensures q[i].next == if i < |q| - 1 then q[i + 1] else null
    {
    }

    /** `prev->next = next`, for a child of p. */
    method Relink(p: Node, prev: Node, next: Node?)
      requires ValidBut(p) && prev in kids[p]
      modifies prev`next
      ensures ValidBut(p) && prev.next == next
    {
      hide Linked;
      assert prev.parent == p;
      prev.next := next;
      forall n | n in nodes && n != p
        ensures Linked(n.child, kids[n])
      {
        assert forall i :: 0 <= i < |kids[n]| ==> kids[n][i].parent == n;
      }
    }

    /** `p->child = child`. */
    method Rechild(p: Node, child: Node?)
      requires ValidBut(p)
      modifies p`child
      ensures ValidBut(p) && p.child == child
    {
      hide Linked, InPlace;
      p.child := child;
    }

    lemma ValidAt(p: Node)
      requires Valid() && p in nodes
      ensures ValidBut(p) && p in kids && Linked(p.child, kids[p])
    {
      hide Linked;
      assert NodeOk(p);
    }

    /** Siblings linked one to the next, and a new one linked to the last of them. */
    lemma LinkedLonger(first: Node?, q: seq<Node>, node: Node)
      requires node.next == null && first == (if q == [] then node else q[0])
      requires forall i {:trigger q[i]} :: 0 <= i < |q| ==> q[i].next == (q + [node])[i + 1]
      ensures Linked(first, q + [node])
    {
      var r := q + [node];
      forall i | 0 <= i < |r| - 1
        ensures r[i].next == r[i + 1]
      {
        assert r[i] == q[i];
      }
    }

    /** The siblings below p are different nodes of the tree, each linked to the next. */
    lemma Siblings(p: Node)
      requires ValidBut(p) && Linked(p.child, kids[p])
      ensures p in kids && (p.child == null <==> kids[p] == []) && forall x :: x in kids[p] ==> x in nodes
      ensures kids[p] != [] ==> p.child == kids[p][0]
      ensures forall j :: 0 <= j < |kids[p]| - 1 ==>
        kids[p][j] != kids[p][|kids[p]| - 1] && kids[p][j].next == kids[p][j + 1]
    {
      assert InPlace(root, nodes, kids, depth, p);
    }

    /** node becomes the last of the siblings below p. */
    method LinkLast(p: Node, node: Node)
      requires ValidBut(p) && Linked(p.child, kids[p]) && node !in nodes && node.next == null
      modifies p`child, nodes`next
      ensures ValidBut(p) && Linked(p.child, kids[p] + [node])
    {
      hide NodeOk, ValidBut, InPlace, Linked;
      Siblings(p);
      ghost var q := kids[p];
      if p.child == null {
        Rechild(p, node);
      } else {
        var prev := LastSibling(p.child, q);
        Relink(p, prev, node);
      }
      LinkedLonger(p.child, q, node);
    }

    /** Count node among the children of p. */
    ghost method Adopt(p: Node, node: Node)
      requires ValidBut(p) && node !in nodes && Linked(p.child, kids[p] + [node])
      requires |node.name| == NAME_SIZE && node.parent == p && node.child == null
      modifies this
      ensures Valid() && nodes == old(nodes) + {node} && kids == old(kids)[p := old(kids)[p] + [node]][node := []]
    {
      hide Linked, InPlace;
      forall n | n in nodes + {node}
        ensures InPlace(root, nodes + {node}, kids[p := kids[p] + [node]][node := []], depth[node := depth[p] + 1], n)
      {
        PlaceGrown(root, nodes, kids, depth, p, node, n);
      }
      NoneLinked();
      nodes, kids, depth := nodes + {node}, kids[p := kids[p] + [node]][node := []], depth[node := depth[p] + 1];
    }

    lemma NoneLinked()
      ensures Linked(null, [])
    {
    }

    /** uacpi_namespace_node_install: a new node becomes the last child of parent. */
    method Install(parent: Node?, node: Node) returns (ok: bool)
      requires Valid() && (parent != null ==> parent in nodes) && node !in nodes
      requires |node.name| == NAME_SIZE && node.child == null && node.next == null
      modifies this, nodes`child, nodes`next, node`parent
      ensures Valid() && (ok <==> !node.dangling)
      ensures !ok ==> nodes == old(nodes) && kids == old(kids)
      ensures ok ==>
        var p := if parent == null then root else parent;
        && nodes == old(nodes) + {node} && node.parent == p
        && kids == old(kids)[p := old(kids)[p] + [node]][node := []]
        && (UniqueNames() <==> old(UniqueNames()) && old(Sub(p, node.name)) == null)
    {
      hide Linked, Valid, ValidBut, UniqueAmong, FirstNamed;
      RootIn();
      var p := if parent == null then root else parent;
      if node.dangling {
        return false;
      }
      ValidAt(p);
      ghost var q, k, was, free := kids[p], kids, UniqueNames(), FirstNamed(kids[p], node.name) == null;
      KeysAre();
      UniqueLonger(q, node);
      ghost var others := forall n :: n in nodes && n != p ==> UniqueAmong(k[n]);
      assert was <==> others && UniqueAmong(q);
      LinkLast(p, node);
      node.parent := p;
      Adopt(p, node);
      KeysAre();
      NoneUnique();
      assert forall n :: n in nodes && n != p && n != node ==> kids[n] == k[n];
      assert UniqueNames() <==> others && UniqueAmong(q + [node]);
      ok := true;
    }

    lemma KeysAre()
      requires Valid()
      ensures kids.Keys == nodes
      ensures forall n, x :: n in nodes && x in kids[n] ==> x in nodes
    {
      forall n, x | n in nodes && x in kids[n]
        ensures x in nodes
      {
        assert NodeOk(n);
      }
    }

    lemma NoneUnique()
      ensures UniqueAmong([])
    {
    }

    /** The search for the sibling before q[i]. */
    method SiblingBefore(first: Node?, node: Node, ghost q: seq<Node>, ghost i: nat) returns (prev: Node?)
      requires Linked(first, q) && 0 < i < |q| && q[i] == node
      ensures prev == q[i - 1]
    {
      prev := first;
      ghost var j := 0;
      while prev != null && prev.next != node
        invariant 0 <= j < i && prev == q[j]
        decreases i - j
      {
        LinkedAt(first, q, j);
        prev := prev.next;
        j := j + 1;
      }
      LinkedAt(first, q, j);
      assert q[j].next == q[j + 1];
      if j + 1 < i {
        LinkedOnce(first, q, j + 1, i);
      }
    }

    lemma {:induction false} LinkedOnce(first: Node?, q: seq<Node>, i: nat, j: nat)
      requires Linked(first, q) && i < j < |q|
      ensures q[i] != q[j]
      decreases |q| - j
    {
      LinkedAt(first, q, i);
      LinkedAt(first, q, j);
      if j + 1 < |q| {
        LinkedOnce(first, q, i + 1, j + 1);
      }
    }

    /** Siblings linked around the one that goes. */
    lemma LinkedShorter(first: Node?, q: seq<Node>, i: nat)
      requires i < |q| && first == (if i > 0 then q[0] else if |q| > 1 then q[1] else null)
      requires forall j :: 0 <= j < |q| ==> q[j].next == if j + 1 == i then After(q, i) else After(q, j)
      ensures Linked(first, Dropped(q, i))
    {
      var r := Dropped(q, i);
      forall j | 0 <= j < |r|
        ensures r[j].next == After(r, j)
      {
        var k := if j < i then j else j + 1;
        assert r[j] == q[k];
      }
      assert r != [] ==> r[0] == first;
    }

    /** Take node out of the links between the children of its parent p. */
    method Unlink(p: Node, node: Node, ghost i: nat)
      requires ValidBut(p) && i < |kids[p]| && kids[p][i] == node && Linked(p.child, kids[p]) && node.parent == p
      modifies p`child, nodes`next
      ensures ValidBut(p) && Linked(p.child, Dropped(kids[p], i))
    {
      hide InPlace;
      ghost var q := kids[p];
      forall j | 0 <= j < |q|
        ensures q[j].next == After(q, j) && (j != i ==> q[j] != node)
      {
        LinkedAt(p.child, q, j);
        if j < i { LinkedOnce(p.child, q, j, i); } else if i < j { LinkedOnce(p.child, q, i, j); }
      }
      if p.child == node {
        assert i == 0;
        Rechild(p, node.next);
      } else {
        var prev := SiblingBefore(p.child, node, q, i);
        KidIn(p, i - 1);
        forall j | 0 <= j < |q|
          ensures j != i - 1 ==> q[j] != prev
        {
          if j < i - 1 { LinkedOnce(p.child, q, j, i - 1); } else if i - 1 < j { LinkedOnce(p.child, q, i - 1, j); }
        }
        Relink(p, prev, node.next);
      }
      LinkedShorter(p.child, q, i);
    }

    lemma KidIn(p: Node, i: nat)
      requires ValidBut(p) && i < |kids[p]|
      ensures kids[p][i] in nodes
    {
    }

    /** No longer count node, which has no children, among the children of p. */
    ghost method Forget(p: Node, node: Node, i: nat)
      requires ValidBut(p) && i < |kids[p]| && kids[p][i] == node && node in nodes && node != root && node != p
        && kids[node] == []
      requires Linked(p.child, Dropped(kids[p], i))
      modifies this
      ensures Valid() && nodes == old(nodes) - {node} && kids == old(kids)[p := Dropped(old(kids)[p], i)] - {node}
    {
      hide Linked, InPlace, Dropped;
      forall n | n in nodes - {node}
        ensures InPlace(root, nodes - {node}, kids[p := Dropped(kids[p], i)] - {node}, depth - {node}, n)
      {
        PlaceShrunk(root, nodes, kids, depth, p, node, i, n);
      }
      nodes, kids, depth := nodes - {node}, kids[p := Dropped(kids[p], i)] - {node}, depth - {node};
    }

    /** uacpi_namespace_node_uninstall.  The node's object is detached even where the node
        turns out not to be linked to a parent. */
    method Uninstall(node: Node) returns (status: Removal, ghost i: nat)
      requires Valid() && node in nodes
      modifies this, nodes`child, nodes`next, node`kind, node`dangling
      ensures Valid()
      ensures status == (if old(node.dangling) then WasDangling else if old(node.child) != null then HasChild
                         else if node == root then NotLinked else Removed)
      ensures node.kind == if status == Removed || status == NotLinked then None else old(node.kind)
      ensures status != Removed ==> nodes == old(nodes) && kids == old(kids) && node.dangling == old(node.dangling)
      ensures status == Removed ==>
        var p := old(node.parent);
        && node.dangling && nodes == old(nodes) - {node} && p in old(kids) && i < |old(kids)[p]|
          && old(kids)[p][i] == node
        && kids == old(kids)[p := Dropped(old(kids)[p], i)] - {node}
    {
      hide Linked, Valid, ValidBut, Dropped;
      i := 0;
      if node.dangling {
        return WasDangling, i;
      }
      if node.child != null {
        return HasChild, i;
      }
      node.kind := None;
      Leaf(node);
      if node == root {
        return NotLinked, i;
      }
      i := IndexAmong(node);
      var p := node.parent;
      ValidAt(p);
      Unlink(p, node, i);
      Forget(p, node, i);
      node.dangling := true;
      status := Removed;
    }

    /** Installing a node and uninstalling it again leaves the namespace as it was. */
    method InstallThenUninstall(parent: Node?, node: Node)
      requires Valid() && (parent != null ==> parent in nodes) && node !in nodes
      requires |node.name| == NAME_SIZE && node.child == null && node.next == null
      modifies this, nodes`child, nodes`next, node
      ensures Valid() && nodes == old(nodes) && kids == old(kids) && node.dangling
    {
      hide Linked, Valid, Dropped, UniqueNames, Sub;
      KeysAre();
      RootIn();
      ghost var was := kids;
      var ok := Install(parent, node);
      if ok {
        ghost var p, now := node.parent, kids;
        var status;
        ghost var i;
        status, i := Uninstall(node);
        assert status == Removed;
        assert now[p] == was[p] + [node];
        DroppedLast(was[p], node, i);
        assert now[p := was[p]] - {node} == was;
      }
    }

    lemma Leaf(node: Node)
      requires Valid() && node in nodes && node.child == null
      ensures node in kids && kids[node] == [] && (node == root ==> node.parent == null)
    {
      assert NodeOk(node);
    }

    lemma IndexAmong(node: Node) returns (i: nat)
      requires Valid() && node in nodes && node != root
      ensures node.parent != null && node.parent in nodes && node.parent in kids && node.parent != node
      ensures i < |kids[node.parent]| && kids[node.parent][i] == node
    {
      ParentIn(node);
      assert NodeOk(node);
      i :| 0 <= i < |kids[node.parent]| && kids[node.parent][i] == node;
    }

    // ---- printing ------------------------------------------------------------------------------

    /** The absolute path: the names from the root down, with dots between them. */
    ghost function PathOf(n: Node): (p: string)
      requires Valid() && n in nodes
      reads this, nodes
      ensures |p| == 1 + NAME_SIZE * depth[n] + (if depth[n] > 1 then depth[n] - 1 else 0)
      ensures p[0] == '\\'
      decreases depth[n]
    {
      assert NodeOk(n);
      if n == root then "\\"
      else
        assert NodeOk(n.parent);
        assert depth[n] == depth[n.parent] + 1;
        RootOnly(n.parent);
        PathOf(n.parent) + (if n.parent == root then "" else ".") + n.name
    }

    /** Only the root has depth 0. */
    lemma RootOnly(n: Node)
      requires Valid() && n in nodes
      ensures depth[n] == 0 <==> n == root
    {
      assert NodeOk(n);
      if n != root { assert NodeOk(n.parent); }
    }

    /** uacpi_namespace_node_depth. */
    method Depth(node: Node) returns (d: nat)
      requires Valid() && node in nodes
      ensures d == depth[node]
    {
      d := 0;
      var n := node;
      while n.parent != null
        invariant n in nodes && d + depth[n] == depth[node]
        decreases depth[n]
      {
        assert NodeOk(n);
        if n == root { assert false; }
        assert NodeOk(n.parent);
        d := d + 1;
        n := n.parent;
      }
      assert NodeOk(n);
      RootOnly(n);
    }

    lemma PathStep(n: Node)
      requires Valid() && n in nodes && n != root
      ensures n.parent != null && n.parent in nodes && depth[n.parent] < depth[n] && |n.name| == NAME_SIZE
      ensures PathOf(n) == PathOf(n.parent) + (if n.parent == root then "" else ".") + n.name
    {
      assert NodeOk(n) && NodeOk(n.parent);
    }

    /** The size of the buffer, given the number of nodes on the way. */
    lemma PathSize(node: Node, nodesOnWay: nat)
      requires Valid() && node in nodes && nodesOnWay == depth[node] + 1
      ensures |PathOf(node)| == 1 + (nodesOnWay - 1) * NAME_SIZE + (if nodesOnWay > 2 then nodesOnWay - 2 else 0)
      ensures PathOf(node)[0] == '\\'
    {
      hide NodeOk;
    }

    /** One turn of the loop: the name of n goes in front. */
    method PrependNode(n: Node, path: array<char>, offset: nat, ghost p: string) returns (offset': nat)
      requires Valid() && n in nodes && n != root && path.Length == |p| + 1
      requires offset == |PathOf(n)| && offset <= |p| && p[..offset] == PathOf(n)
      requires path[offset..] == (p + ['\0'])[offset..]
      modifies path
      ensures Valid() && n.parent != null && n.parent in nodes
      ensures offset' == |PathOf(n.parent)| && offset' < offset && p[..offset'] == PathOf(n.parent)
      ensures path[offset'..] == (p + ['\0'])[offset'..] && path[0] == old(path[0])
    {
      hide Valid, PathOf, Linked;
      PathStep(n);
      offset' := Prepend(path, offset, n.name, n.parent != root);
      SplitTail(p, offset', offset, PathOf(n.parent), if n.parent == root then "" else ".", n.name);
    }

    /** uacpi_namespace_node_generate_absolute_path: the buffer is as long as computed, and
        all of it is filled with the path and the terminator. */
    method GenerateAbsolutePath(node: Node) returns (path: array<char>)
      requires Valid() && node in nodes
      ensures fresh(path) && path[..] == PathOf(node) + ['\0']
    {
      hide Valid, PathOf, Linked;
      ghost var p := PathOf(node);
      var depth := Depth(node);
      depth := depth + 1;
      PathSize(node, depth);
      var bytesNeeded := 1 + (depth - 1) * NAME_SIZE;
      bytesNeeded := bytesNeeded + (if depth > 2 then depth - 2 else 0);
      bytesNeeded := bytesNeeded + 1;
      path := new char[bytesNeeded];
      path[0] := '\\';
      var offset := bytesNeeded - 1;
      path[offset] := '\0';
      var n := node;
      while n != root
        invariant Valid() && n in nodes && fresh(path) && path.Length == |p| + 1
        invariant offset == |PathOf(n)| && offset <= |p| && p[..offset] == PathOf(n)
        invariant path[offset..] == (p + ['\0'])[offset..] && path[0] == '\\'
        decreases offset
      {
        offset := PrependNode(n, path, offset, p);
        n := n.parent;
      }
      RootPath();
      Whole(p, path[..]);
    }

    lemma RootPath()
      requires Valid()
      ensures PathOf(root) == "\\"
    {
    }

    // ---- resolving -----------------------------------------------------------------------------

    /** The node reached from cur by the segments of path from index i on. */
    ghost function Walk(cur: Node, path: string, i: nat): (r: Node?)
      requires Valid() && cur in nodes && i <= |path|
      reads this, nodes
      ensures r != null ==> r in nodes
      decreases |path| - i
    {
      if i == |path| then cur
      else
        var j := Skip(path, i);
        SegForward(path, i);
        var sub := Sub(cur, Seg(path, j, NAME_SIZE));
        if sub == null then null else Walk(sub, path, SegEnd(path, j, NAME_SIZE))
    }

    /** The leading '\\' and '^'; none if they do not make sense. */
    ghost function Lead(cur: Node, path: string, i: nat, caret: bool): (r: Option<(Node, nat)>)
      requires Valid() && cur in nodes && i <= |path|
      reads this, nodes
      ensures r.Some? ==> r.value.0 in nodes && i <= r.value.1 <= |path|
      decreases |path| - i
    {
      if i == |path| then Some((cur, i))
      else if path[i] == '\\' then (if caret then None else Some((root, i + 1)))
      else if path[i] == '^' then
        (if cur == root then None
         else assert NodeOk(cur); Lead(cur.parent, path, i + 1, true))
      else Some((cur, i))
    }

    /** The nearest of n and its ancestors that has a child of that name gives it. */
    ghost function Above(n: Node?, name: string): (r: Node?)
      requires Valid() && (n != null ==> n in nodes)
      reads this, nodes
      ensures r != null ==> r in nodes
      decreases if n == null then 0 else depth[n] + 1
    {
      if n == null then null
      else if Sub(n, name) != null then Sub(n, name)
      else
        assert NodeOk(n);
        if n == root then null
        else
          assert NodeOk(n.parent);
          Above(n.parent, name)
    }

    /** Without a parent, the root. */
    function Start(parent: Node?): Node
      reads this
    {
      if parent == null then root else parent
    }

    /** One segment that is not found, and that may be searched for above. */
    predicate GoesAbove(path: string, above: bool, i: nat, r: Node?)
    {
      r == null && above && i == 0 && SegEnd(path, Skip(path, 0), NAME_SIZE) == |path|
    }

    ghost function Resolved(parent: Node?, path: string, above: bool, permanent: bool): (r: Answer)
      requires Valid() && (parent != null ==> parent in nodes)
      reads this, nodes
    {
      match Lead(Start(parent), path, 0, false)
      case None => Invalid
      case Some((n, i)) =>
        var r := Walk(n, path, i);
        if !GoesAbove(path, above, i, r) then Final(r, permanent)
        else if parent == null then Fault
        else Final(AboveParent(parent, Seg(path, Skip(path, 0), NAME_SIZE)), permanent)
    }

    ghost function AboveParent(parent: Node, name: string): (r: Node?)
      requires Valid() && parent in nodes
      reads this, nodes
      ensures r != null ==> r in nodes
    {
      assert NodeOk(parent);
      Above(parent.parent, name)
    }

    /** The loop over the leading '\\' and '^' of uacpi_namespace_node_resolve. */
    method ResolveLead(parent: Node, path: string) returns (ok: bool, cur: Node, cursor: nat, single: bool)
      requires Valid() && parent in nodes
      ensures match Lead(parent, path, 0, false)
        case None => !ok
        case Some((n, i)) => ok && cur == n && cursor == i
      ensures ok ==> cur in nodes && cursor <= |path| && (single <==> cursor == 0)
    {
      hide Linked, NodeOk;
      cur, cursor, single := parent, 0, true;
      var prev := '\0';
      while true
        invariant cur in nodes && cursor <= |path| && (single <==> cursor == 0)
        invariant Lead(parent, path, 0, false) == Lead(cur, path, cursor, prev == '^')
        decreases |path| - cursor
      {
        if cursor == |path| {
          return true, cur, cursor, single;
        }
        if path[cursor] == '\\' {
          single := false;
          if prev == '^' {
            return false, cur, cursor, single;
          }
          return true, root, cursor + 1, single;
        } else if path[cursor] == '^' {
          single := false;
          if cur == root {
            return false, cur, cursor, single;
          }
          ParentIn(cur);
          cur := cur.parent;
          prev := '^';
          cursor := cursor + 1;
        } else {
          return true, cur, cursor, single;
        }
      }
    }

    lemma ParentIn(n: Node)
      requires Valid() && n in nodes && n != root
      ensures n.parent != null && n.parent in nodes && depth[n.parent] < depth[n]
    {
      assert NodeOk(n);
      assert NodeOk(n.parent);
    }

    /** The search of the ancestors of parent. */
    method SearchAbove(parent: Node, name: string) returns (cur: Node?)
      requires Valid() && parent in nodes
      ensures cur == AboveParent(parent, name)
    {
      hide Valid, NodeOk, Above, Sub;
      ParentLink(parent);
      var p := parent.parent;
      while p != null
        invariant (p != null ==> p in nodes && p in depth) && Above(parent.parent, name) == Above(p, name)
        decreases if p == null then 0 else depth[p] + 1
      {
        AboveStep(p, name);
        ParentLink(p);
        cur := FindSubNode(p, name);
        if cur != null {
          return;
        }
        p := p.parent;
      }
      AboveNone(name);
      cur := null;
    }

    lemma ParentLink(n: Node)
      requires Valid() && n in nodes
      ensures n in depth && (n.parent != null ==> n.parent in nodes && n.parent in depth && depth[n.parent] < depth[n])
    {
      assert NodeOk(n);
      if n != root { ParentIn(n); }
    }

    lemma AboveNone(name: string)
      requires Valid()
      ensures Above(null, name) == null
    {
    }

    lemma AboveStep(n: Node, name: string)
      requires Valid() && n in nodes
      ensures n.parent != null ==> n.parent in nodes
      ensures Above(n, name) == if Sub(n, name) != null then Sub(n, name) else Above(n.parent, name)
    {
      hide Sub;
      assert NodeOk(n);
    }

    /** uacpi_namespace_node_resolve. */
    method Resolve(parent: Node?, path: string, above: bool, permanent: bool) returns (answer: Answer)
      requires Valid() && (parent != null ==> parent in nodes)
      ensures answer == Resolved(parent, path, above, permanent)
    {
      hide Valid, Linked, NodeOk, Lead, Above, Walk, Resolved, Seg, SegEnd, Skip, Sub, AboveParent;
      RootIn();
      var ok, n, cursor, single := ResolveLead(Start(parent), path);
      ResolvedIs(parent, path, above, permanent);
      if !ok {
        return Invalid;
      }
      var cur: Node? := n;
      ghost var from := cursor;
      while cursor < |path|
        invariant cur != null && cur in nodes && from <= cursor <= |path|
        invariant Walk(n, path, from) == Walk(cur, path, cursor)
        invariant cursor < |path| ==> (single <==> cursor == 0)
        invariant cursor > from == 0 ==> SegEnd(path, Skip(path, 0), NAME_SIZE) <= cursor
        decreases |path| - cursor
      {
        WalkStep(cur, path, cursor);
        cursor := Skip(path, cursor);
        var nameseg := Seg(path, cursor, NAME_SIZE);
        cursor := SegEnd(path, cursor, NAME_SIZE);
        if cursor < |path| && single {
          single := false;
        }
        cur := FindSubNode(cur, nameseg);
        if cur == null {
          if above && single {
            if parent == null {
              return Fault;
            }
            cur := SearchAbove(parent, nameseg);
          }
          return Final(cur, permanent);
        }
      }
      WalkStep(cur, path, cursor);
      return Final(cur, permanent);
    }

    lemma RootIn()
      requires Valid()
      ensures root in nodes
    {
    }

    lemma WalkStep(cur: Node, path: string, i: nat)
      requires Valid() && cur in nodes && i <= |path|
      ensures i == |path| ==> Walk(cur, path, i) == cur
      ensures var j := Skip(path, i);
        i < |path| ==>
          && i < SegEnd(path, j, NAME_SIZE) <= |path|
          && var sub := Sub(cur, Seg(path, j, NAME_SIZE));
          && (sub != null ==> sub in nodes)
          && Walk(cur, path, i) == if sub == null then null else Walk(sub, path, SegEnd(path, j, NAME_SIZE))
    {
      hide NodeOk, Sub;
      if i < |path| { SegForward(path, i); }
    }

    lemma ResolvedIs(parent: Node?, path: string, above: bool, permanent: bool)
      requires Valid() && (parent != null ==> parent in nodes)
      ensures match Lead(Start(parent), path, 0, false)
        case None => Resolved(parent, path, above, permanent) == Invalid
        case Some((n, i)) =>
          var r := Walk(n, path, i);
          Resolved(parent, path, above, permanent) ==
            if !GoesAbove(path, above, i, r) then Final(r, permanent)
            else if parent == null then Fault
            else Final(AboveParent(parent, Seg(path, Skip(path, 0), NAME_SIZE)), permanent)
    {
      hide NodeOk, Walk, Lead, AboveParent, GoesAbove;
    }

    /** There is no answer exactly when a single name that the root does not have is to be searched
        for above a parent that was not given. */
    lemma FaultExact(parent: Node?, path: string, above: bool, permanent: bool)
      requires Valid() && (parent != null ==> parent in nodes) && root in nodes
      ensures Resolved(parent, path, above, permanent) == Fault <==>
        && parent == null && above && path != "" && path[0] != '\\' && path[0] != '^'
        && SegEnd(path, Skip(path, 0), NAME_SIZE) == |path| && Sub(root, Seg(path, Skip(path, 0), NAME_SIZE)) == null
    {
      hide NodeOk, Walk, Sub, Seg, SegEnd, Resolved, AboveParent;
      ResolvedIs(parent, path, above, permanent);
      if parent == null && path != "" && path[0] != '\\' && path[0] != '^' {
        WalkStep(root, path, 0);
        var sub := Sub(root, Seg(path, Skip(path, 0), NAME_SIZE));
        if sub != null { WalkStep(sub, path, SegEnd(path, Skip(path, 0), NAME_SIZE)); }
      } else if path == "" {
        WalkStep(Start(parent), path, 0);
      }
    }

    /** What is answered for the node that was reached, if any. */
    function Final(r: Node?, permanent: bool): Answer
      reads r
    {
      if r == null then NotFound else if r.temporary && permanent then Denied else Found(r)
    }

    // ---- printing and resolving undo each other ------------------------------------------------

    /** Names hold no dot and no terminator, as names in the namespace do. */
    ghost predicate PlainNames()
      reads this, nodes
    {
      forall n :: n in nodes ==> '.' !in n.name && '\0' !in n.name
    }

    /** A walk along a path that begins with the path of n comes by n. */
    lemma {:induction false} WalkTo(n: Node, path: string)
      requires Valid() && UniqueNames() && PlainNames() && n in nodes && PathOf(n) <= path
      requires n == root || |PathOf(n)| == |path| || path[|PathOf(n)|] == '.'
      ensures Walk(root, path, 1) == Walk(n, path, |PathOf(n)|)
      decreases depth[n]
    {
      hide Walk, NodeOk, Sub, Seg, SegEnd;
      if n != root {
        PathStep(n);
        var par := n.parent;
        var i := |PathOf(par)|;
        assert PathOf(par) <= PathOf(n);
        assert path[i] == PathOf(n)[i];
        WalkTo(par, path);
        WalkStep(par, path, i);
        var j := Skip(path, i);
        assert j == if par == root then i else i + 1;
        assert path[j..j + NAME_SIZE] == PathOf(n)[j..j + NAME_SIZE] == n.name;
        SegPlain(path, j, n.name);
        SubIs(par, n);
      }
    }

    /** The path printed for a node resolves to that node, from anywhere in the namespace. */
    lemma RoundTrip(n: Node, parent: Node?, above: bool, permanent: bool)
      requires Valid() && UniqueNames() && PlainNames() && n in nodes && (parent != null ==> parent in nodes)
      ensures Resolved(parent, PathOf(n), above, permanent) == Final(n, permanent)
      ensures '\0' !in PathOf(n)
    {
      hide Walk, NodeOk, Sub, Seg, SegEnd, PathOf;
      var p := PathOf(n);
      WalkTo(n, p);
      WalkStep(n, p, |p|);
      ResolvedIs(parent, p, above, permanent);
      NoTerminator(n);
    }

    lemma {:induction false} NoTerminator(n: Node)
      requires Valid() && PlainNames() && n in nodes
      ensures '\0' !in PathOf(n)
      decreases depth[n]
    {
      hide NodeOk;
      if n == root {
        assert PathOf(n) == "\\";
      } else {
        PathStep(n);
        NoTerminator(n.parent);
      }
    }

    /** Siblings of the same name have the same path, so only one of them can be found by it. */
    lemma SamePath(n: Node, m: Node)
      requires Valid() && n in nodes && m in nodes && n != root && m != root && n.parent == m.parent && n.name == m.name
      ensures PathOf(n) == PathOf(m)
    {
      PathStep(n);
      PathStep(m);
    }

    /** Every path that is printed leads back to its node if and only if siblings have different
        names. */
    lemma RoundTripExact()
      requires Valid() && PlainNames()
      ensures UniqueNames() <==> forall n :: n in nodes ==> Resolved(root, PathOf(n), false, false) == Found(n)
    {
      hide Walk, NodeOk, Sub, PathOf, Resolved, UniqueNames;
      if UniqueNames() {
        forall n | n in nodes
          ensures Resolved(root, PathOf(n), false, false) == Found(n)
        {
          RoundTrip(n, root, false, false);
        }
      } else {
        var a, b := Namesakes();
        SamePath(a, b);
        assert Resolved(root, PathOf(a), false, false) == Resolved(root, PathOf(b), false, false);
      }
    }

    lemma Namesakes() returns (a: Node, b: Node)
      requires Valid() && !UniqueNames()
      ensures a in nodes && b in nodes && a != b && a != root && b != root && a.parent == b.parent && a.name == b.name
    {
      KeysAre();
      var n :| n in nodes && !UniqueAmong(kids[n]);
      assert NodeOk(n);
      var i, j :| 0 <= i < j < |kids[n]| && kids[n][i].name == kids[n][j].name;
      a, b := kids[n][i], kids[n][j];
    }

    /** The property fails: the path of a node that has the name of an elder sibling leads there. */
    lemma NamesakeLost(a: Node, b: Node)
      requires Valid() && PlainNames() && root in nodes && root in kids && kids[root] == [a, b] && a.name == b.name
      ensures a in nodes && b in nodes && a != b && Resolved(root, PathOf(b), false, false) == Found(a)
    {
      hide Walk, Lead, Seg, SegEnd, Resolved, Linked;
      assert NodeOk(root);
      assert a in kids[root] && b in kids[root] && kids[root][0] != kids[root][1];
      PathStep(b);
      RootPath();
      var p := PathOf(b);
      assert p == "\\" + b.name;
      assert p[1..1 + NAME_SIZE] == b.name;
      assert p[1] == b.name[0] && b.name[0] in b.name;
      SegPlain(p, 1, b.name);
      WalkStep(root, p, 1);
      WalkStep(a, p, |p|);
      ResolvedIs(root, p, false, false);
      assert Lead(root, p, 0, false) == Some((root, 1)) by { LeadRoot(root, p); }
    }

    lemma LeadRoot(cur: Node, path: string)
      requires Valid() && cur in nodes && path != "" && path[0] == '\\'
      ensures Lead(cur, path, 0, false) == Some((root, 1))
    {
    }

    /** Different nodes have different paths. */
    lemma PathsDiffer(n: Node, m: Node)
      requires Valid() && UniqueNames() && PlainNames() && n in nodes && m in nodes && PathOf(n) == PathOf(m)
      ensures n == m
    {
      hide Walk, NodeOk, Sub, PathOf, Resolved;
      RoundTrip(n, root, false, false);
      RoundTrip(m, root, false, false);
    }
  }

  /** A namespace with two nodes under the root, installed one after the other. */
  method TwoUnderRoot(first: string, kind: Option<nat>, second: string, kind': Option<nat>)
    returns (t: Tree, a: Node, b: Node)
    requires |first| == |second| == NAME_SIZE
    ensures fresh(t) && t.Valid() && t.nodes == {t.root, a, b} && t.root in t.kids && t.kids[t.root] == [a, b]
    ensures a in t.kids && t.kids[a] == [] && t.root.name == "ROOT"
    ensures a.name == first && a.kind == kind && b.name == second && b.kind == kind'
  {
    hide Tree.Valid, Tree.UniqueNames, Tree.Sub;
    var top := new Node("ROOT", None);
    a := new Node(first, kind);
    b := new Node(second, kind');
    t := new Tree(top);
    var ok := t.Install(null, a);
    ok := t.Install(null, b);
    t.RootIn();
  }

  /** Such a namespace is built by two installations under the root. */
  method NamesakeNamespace(name: string) returns (t: Tree, a: Node, b: Node)
    requires |name| == NAME_SIZE && '.' !in name && '\0' !in name
    ensures t.Valid() && a in t.nodes && b in t.nodes && a != b
    ensures t.root in t.nodes && t.Resolved(t.root, t.PathOf(b), false, false) == Found(a)
  {
    hide Tree.Valid, Tree.Resolved, Tree.PathOf;
    t, a, b := TwoUnderRoot(name, None, name, None);
    t.NamesakeLost(a, b);
  }

  /** A name without dots is read back as it stands. */
  lemma {:induction false} SegPlain(path: string, i: nat, name: string)
    requires i + |name| <= |path| && path[i..i + |name|] == name && '.' !in name
    ensures Seg(path, i, |name|) == name && SegEnd(path, i, |name|) == i + |name|
    decreases |name|
  {
    if name != "" {
      assert path[i] == name[0] && path[i] in name;
      assert path[i + 1..i + 1 + |name[1..]|] == name[1..];
      SegPlain(path, i + 1, name[1..]);
      assert name == [name[0]] + name[1..];
    }
  }

  /** Fault: a null pointer is followed, so that there is no answer. */
  datatype Answer = Found(node: Node) | NotFound | Invalid | Denied | Fault

  /** Past the dot in front of a segment. */
  function Skip(path: string, i: nat): (j: nat)
    ensures i <= j <= i + 1 && (i < |path| ==> j <= |path|) && (i == |path| ==> j == i)
  {
    if i < |path| && path[i] == '.' then i + 1 else i
  }

  /** segment_to_name: k characters from index i on, '_' in place of missing ones. */
  function Seg(path: string, i: nat, k: nat): (name: string)
    ensures |name| == k
    decreases k
  {
    if k == 0 then ""
    else if i >= |path| || path[i] == '.' then "_" + Seg(path, i, k - 1)
    else [path[i]] + Seg(path, i + 1, k - 1)
  }

  /** Where the segment ends. */
  function SegEnd(path: string, i: nat, k: nat): (j: nat)
    ensures i <= j && (i <= |path| ==> j <= |path|)
    decreases k
  {
    if k == 0 || i >= |path| || path[i] == '.' then i else SegEnd(path, i + 1, k - 1)
  }

  lemma SegForward(path: string, i: nat)
    requires i < |path|
    ensures i < SegEnd(path, Skip(path, i), NAME_SIZE)
  {
  }

  lemma Whole(p: string, s: string)
    requires |p| > 0 && |s| == |p| + 1 && s[0] == p[0] && s[1..] == (p + ['\0'])[1..]
    ensures s == p + ['\0']
  {
    assert s == [s[0]] + s[1..];
  }

  /** A prefix that ends in sep and name, and what follows it. */
  lemma SplitTail(p: string, from: nat, to: nat, a: string, sep: string, name: string)
    requires to <= |p| && p[..to] == a + sep + name && from == |a|
    ensures p[..from] == a && (p + ['\0'])[from..] == sep + name + (p + ['\0'])[to..]
  {
    var q := p + ['\0'];
    assert q == p[..to] + q[to..];
    assert p[..from] == (a + sep + name)[..from];
  }

  /** One turn of the loop: a name and, but for the first one, a dot go in front. */
  method Prepend(path: array<char>, offset: nat, name: string, dot: bool) returns (offset': nat)
    requires |name| == NAME_SIZE && NAME_SIZE + (if dot then 1 else 0) < offset <= path.Length
    modifies path
    ensures offset' == offset - NAME_SIZE - (if dot then 1 else 0)
    ensures path[offset'..] == (if dot then "." else "") + name + old(path[offset..]) && path[0] == old(path[0])
  {
    offset' := offset - NAME_SIZE;
    forall k | 0 <= k < NAME_SIZE {
      path[offset' + k] := name[k];
    }
    if dot {
      offset' := offset' - 1;
      path[offset'] := '.';
    }
  }
}
