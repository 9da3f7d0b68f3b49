/**
  VMA trees (include/dsl/vmatree.h, dsl/vmamodify.cc): an AVL tree of address
  ranges threaded on a doubly linked list, where every node also carries the size
  of the gap before it and the biggest such gap in its subtree.
 */
module VmaTree {
  import opened Words
  import opened VmaShape
  import opened VmaMem
  import opened VmaList
  import opened VmaSplice

  datatype Dir = LEFT | RIGHT

  function NodeHeight(node: VMANode?): int
    reads node
  {
    if node == null then 0 else node.height
  }

  function NodeMaxGap(node: VMANode?): Word
    reads node
  {
    if node == null then 0 else node.biggestGap
  }

  function NodeBalance(node: VMANode): int
    reads node, node.left, node.right
  {
    NodeHeight(node.right) - NodeHeight(node.left)
  }

  // Single field assignments, each stated as an update of the memory of the nodes s.

  method SetLeft(n: VMANode, v: VMANode?, ghost s: set<VMANode>)
    requires n in s
    modifies n`left
    ensures Snap(s) == old(Snap(s))[n := old(Snap(s))[n].(left := v)]
  {
    hide Cells, Entries;
    n.left := v;
  }

  method SetRight(n: VMANode, v: VMANode?, ghost s: set<VMANode>)
    requires n in s
    modifies n`right
    ensures Snap(s) == old(Snap(s))[n := old(Snap(s))[n].(right := v)]
  {
    hide Cells, Entries;
    n.right := v;
  }

  method SetParent(n: VMANode, v: VMANode?, ghost s: set<VMANode>)
    requires n in s
    modifies n`parent
    ensures Snap(s) == old(Snap(s))[n := old(Snap(s))[n].(parent := v)]
  {
    hide Cells, Entries;
    n.parent := v;
  }

  method SetGap(n: VMANode?, v: Word, ghost s: set<VMANode>)
    requires n == null || n in s
    modifies s`prevGap
    ensures Snap(s) == if n == null then old(Snap(s)) else old(Snap(s))[n := old(Snap(s))[n].(prevGap := v)]
    ensures Ents(s) == WithGap(old(Ents(s)), n, v)
  {
    hide Cells, Entries;
    if n != null { n.prevGap := v; }
  }

  method SetNext(n: VMANode?, v: VMANode?, ghost s: set<VMANode>)
    requires n == null || n in s
    modifies s`next
    ensures Ents(s) == WithNext(old(Ents(s)), n, v)
  {
    hide Cells, Entries;
    if n != null { n.next := v; }
  }

  method SetPrev(n: VMANode?, v: VMANode?, ghost s: set<VMANode>)
    requires n == null || n in s
    modifies s`prev
    ensures Ents(s) == WithPrev(old(Ents(s)), n, v)
  {
    hide Cells, Entries;
    if n != null { n.prev := v; }
  }

  /** Recompute a node's height and biggest gap from its children. */
  method Propagate(node: VMANode, ghost s: set<VMANode>)
    requires node in s && Closed(Snap(s), node)
    modifies node`height, node`biggestGap
    ensures Snap(s) == Propagated(old(Snap(s)), node)
  {
    hide Cells, Entries;
    ghost var m := Snap(s);
    assert node.left != null ==>
      m[node.left].height == node.left.height && m[node.left].biggestGap == node.left.biggestGap;
    var h := 1 + MaxInt(NodeHeight(node.left), NodeHeight(node.right));
    var g := Max(node.prevGap, Max(NodeMaxGap(node.left), NodeMaxGap(node.right)));
    assert Propagated(m, node) == m[node := m[node].(height := h, biggestGap := g)];
    node.height := h;
    node.biggestGap := g;
  }

  /** Rotate the subtree at node; returns its new root. */
  method Rotate(node: VMANode, dir: Dir, ghost s: set<VMANode>) returns (z: VMANode)
    requires Rotatable(Snap(s), node, dir == LEFT)
    modifies s`left, s`right, s`parent, s`height, s`biggestGap
    ensures z == old(if dir == LEFT then node.right else node.left)
    ensures Snap(s) == Rotated(old(Snap(s)), node, dir == LEFT)
  {
    hide Cells, Entries;
    ghost var m := Snap(s);
    if dir == LEFT {
      z := node.right;
      var tmp := z.left;
      SetRight(node, tmp, s);
      if tmp != null { SetParent(tmp, node, s); }
      SetLeft(z, node, s);
      SetParent(node, z, s);
      assert Snap(s) == TurnedLeft(m, node);
    } else {
      z := node.left;
      var tmp := z.right;
      SetLeft(node, tmp, s);
      if tmp != null { SetParent(tmp, node, s); }
      SetRight(z, node, s);
      SetParent(node, z, s);
      assert Snap(s) == TurnedRight(m, node);
    }
    Propagate(node, s);
    Propagate(z, s);
  }

  /** The stored heights give the true balance, and the children are where the shape
      says they are. */
  lemma HeapBalance(s: set<VMANode>, t: Tree)
    requires Loose(Snap(s), t)
    ensures NodeBalance(t.key) == Balance(t)
    ensures t.key.left == RootOf(t.left) && t.key.right == RootOf(t.right)
    ensures t.left.Bin? ==> Loose(Snap(s), t.left)
    ensures t.right.Bin? ==> Loose(Snap(s), t.right)
  {
    LooseHeights(Snap(s), t);
  }

  lemma SnapAt(s: set<VMANode>, n: VMANode)
    requires n in s
    ensures n in Snap(s) && Snap(s)[n].left == n.left && Snap(s)[n].right == n.right && Snap(s)[n].parent == n.parent
    ensures Snap(s).Keys == s
  {
  }

  lemma EntAt(s: set<VMANode>, n: VMANode)
    requires n in s
    ensures n in Ents(s) && Ents(s)[n].first == n.first && Ents(s)[n].last == n.last
    ensures Ents(s).Keys == s
  {
  }

  /** Reading a node's links through a memory that differs from m in one gap only. */
  lemma HeapCell(s: set<VMANode>, m: Mem, x: VMANode?, g: Word, n: VMANode)
    requires (x == null || x in m) && Snap(s) == Regapped(m, x, g) && n in m
    ensures n in s && n.left == m[n].left && n.right == m[n].right && n.parent == m[n].parent
    ensures s == m.Keys
  {
    assert Snap(s).Keys == s;
  }

  class VMATree {
    var root: VMANode?
    // The list head: its next and prev, null when they point back to the head.
    var listNext: VMANode?
    var listPrev: VMANode?
    // The tree as a value, its nodes in address order, and the same nodes as a set.
    ghost var shape: Tree
    ghost var nodes: seq<VMANode>
    ghost var repr: set<VMANode>

    /** The memory of the nodes holds the AVL tree `shape` with exact data, and the list
        runs through the same nodes in address order with every gap recorded. */
    ghost predicate Valid()
      reads this, repr
    {
      && Distinct(shape) && Avl(shape) && Keys(shape) == nodes && Elems(shape) == repr
      && Sound(Snap(repr), shape, root, null)
      && ListOk(Ents(repr), nodes, listNext, listPrev)
    }

    /** VMATree::init. */
    constructor ()
      ensures Valid() && nodes == [] && repr == {}
    {
      root, listNext, listPrev := null, null, null;
      shape, nodes, repr := Nil, [], {};
    }

    /** VMATree::next; null asks for the first node. */
    function Next(node: VMANode?): VMANode?
      reads this, node
    {
      if node == null then listNext else node.next
    }

    /** VMATree::prev; null asks for the last node. */
    function Prev(node: VMANode?): VMANode?
      reads this, node
    {
      if node == null then listPrev else node.prev
    }

    // ---- insertion ----------------------------------------------------------------

    /** No node of the tree meets the range of n. */
    ghost predicate Clear(n: VMANode)
      reads this, n, repr
    {
      n.first <= n.last && forall x :: x in repr ==> n.last < x.first || x.last < n.first
    }

    /** The descent of insert(): the leaf position where node belongs. */
    method FindSlot(node: VMANode) returns (parent: VMANode?, dir: Dir, ghost p: Where)
      requires Valid() && Clear(node)
      ensures Plug(p, Nil) == shape
      ensures parent == ParentAt(p) && (dir == RIGHT <==> p.InRight?)
      ensures AllBelow(Ents(repr), Before(p), node.first) && AllAbove(Ents(repr), After(p), node.last)
    {
      hide Cells, Entries;
      ghost var m, e, s := Snap(repr), Ents(repr), shape;
      hide Keys, Elems;
      var x := root;
      parent, dir, p := null, LEFT, Top;
      ghost var t := s;
      while x != null
        invariant m == Snap(repr) && e == Ents(repr)
        invariant forall x :: x in e ==> node.last < e[x].first || e[x].last < node.first
        invariant Plug(p, t) == s && x == RootOf(t) && Sound(m, t, x, ParentAt(p))
        invariant parent == ParentAt(p) && (dir == RIGHT <==> p.InRight?)
        invariant AllBelow(e, Before(p), node.first) && AllAbove(e, After(p), node.last)
        decreases t
      {
        SlotStep(e, nodes, p, t, node.first, node.last);
        if node.first < x.first {
          dir, parent, p, t, x := LEFT, x, InLeft(p, x, t.right), t.left, x.left;
        } else {
          dir, parent, p, t, x := RIGHT, x, InRight(t.left, x, p), t.right, x.right;
        }
      }
    }

    /** Set the gap before node and the gap before its successor. */
    method SetGaps(pred: VMANode?, node: VMANode, succ: VMANode?, ghost s: set<VMANode>)
      requires node in s && (pred == null || pred in s) && (succ == null || succ in s)
      requires pred != node && succ != node
      modifies s`prevGap
      ensures Ents(s) == Adjusted(old(Ents(s)), pred, node, succ)
      ensures GapChange(old(Snap(s)), Snap(s), node, succ)
    {
      hide Cells, Entries, Wrap, WithGap, GapChange;
      ghost var e, m := Ents(s), Snap(s);
      var gap := if pred != null then Wrap(node.first - pred.last - 1) else node.first;
      assert gap == GapOf(e, pred, node);
      SetGap(node, gap, s);
      var gap2 := if succ != null then Wrap(succ.first - node.last - 1) else 0;
      assert succ != null ==> gap2 == GapOf(Ents(s), node, succ);
      if succ != null {
        SetGap(succ, gap2, s);
      }
      GapsChanged(m, node, gap, succ, gap2);
    }

    lemma GapsChanged(m: Mem, node: VMANode, g1: Word, succ: VMANode?, g2: Word)
      requires node in m && (succ == null || succ in m)
      ensures var m1 := m[node := m[node].(prevGap := g1)];
        GapChange(m, if succ == null then m1 else m1[succ := m1[succ].(prevGap := g2)], node, succ)
    {
    }

    /** `pred->list.push_front (node)`, or the list head's when pred is null. */
    method ListInsert(pred: VMANode?, node: VMANode, succ: VMANode?, ghost s: set<VMANode>)
      requires node in s && (pred == null || pred in s) && (succ == null || succ in s) && succ == Next(pred)
      modifies this`listNext, this`listPrev, s`next, s`prev
      ensures Ents(s) ==
        WithNext(WithPrev(WithNext(WithPrev(old(Ents(s)), node, pred), node, succ), succ, node), pred, node)
      ensures listNext == if pred == null then node else old(listNext)
      ensures listPrev == if succ == null then node else old(listPrev)
    {
      hide Cells, Entries, WithNext, WithPrev, Ents;
      SetPrev(node, pred, s);
      SetNext(node, succ, s);
      SetPrev(succ, node, s);
      SetNext(pred, node, s);
      if succ == null { listPrev := node; }
      if pred == null { listNext := node; }
    }

    /** The list side of insert(). */
    method InsertInList(pred: VMANode?, node: VMANode, succ: VMANode?, ghost s: set<VMANode>)
      requires node in s && (pred == null || pred in s) && (succ == null || succ in s) && succ == Next(pred)
      requires pred != node && succ != node
      modifies this`listNext, this`listPrev, s`prevGap, s`next, s`prev
      ensures Ents(s) == Inserted(old(Ents(s)), pred, node, succ)
      ensures listNext == if pred == null then node else old(listNext)
      ensures listPrev == if succ == null then node else old(listPrev)
      ensures GapChange(old(Snap(s)), Snap(s), node, succ)
    {
      hide Cells, Entries, WithNext, WithPrev, Ents, Adjusted, GapChange;
      SetGaps(pred, node, succ, s);
      ListInsert(pred, node, succ, s);
    }

    /** Make node a leaf at position p. */
    method LinkLeaf(node: VMANode, parent: VMANode?, dir: Dir, ghost p: Where, ghost m: Mem, ghost s: set<VMANode>)
      requires Sound(m, Plug(p, Nil), root, null) && Distinct(Plug(p, Nil)) && node !in Elems(Plug(p, Nil))
      requires GapChange(m, Snap(s), node, SuccAt(p)) && node in s
      requires parent == ParentAt(p) && (dir == RIGHT <==> p.InRight?)
      modifies this`root, node`left, node`right, node`height, node`parent, s`left, s`right
      ensures Ready(Snap(s), p, Bin(Nil, node, Nil), root)
    {
      hide Cells, Entries;
      node.left, node.right, node.height, node.parent := null, null, 1, parent;
      LeafReady(m, Snap(s), p, node, root);
      SoundSplit(m, p, Nil, root);
      hide Ready, GapChange;
      Hook(parent, dir, node, s);
    }

    /** The tree side of insert(). */
    method GrowLeaf(node: VMANode, parent: VMANode?, dir: Dir, ghost p: Where, ghost t: Tree, ghost m: Mem,
                    ghost s: set<VMANode>)
      requires t == Plug(p, Nil) && Sound(m, t, root, null) && Distinct(t) && node !in Elems(t)
      requires GapChange(m, Snap(s), node, SuccAt(p)) && node in s
      requires parent == ParentAt(p) && (dir == RIGHT <==> p.InRight?)
      modifies this`root, s`left, s`right, s`parent, s`height, s`biggestGap
      ensures Sound(Snap(s), FixUp(p, Bin(Nil, node, Nil)), root, null)
    {
      hide Cells, Entries, Ready, GapChange, Sound, Distinct, Elems, FixUp, Plug, Snap;
      LinkLeaf(node, parent, dir, p, m, s);
      Fixup(node, p, Bin(Nil, node, Nil), s);
    }

    /** The memory and the list, seen together with a node that is not in the tree yet. */
    lemma Widen(node: VMANode, p: Where)
      requires Valid() && node !in repr
      requires AllBelow(Ents(repr), Before(p), node.first) && AllAbove(Ents(repr), After(p), node.last)
      ensures node !in nodes && Sound(Snap(repr + {node}), shape, root, null)
      ensures ListOk(Ents(repr + {node}), nodes, listNext, listPrev)
      ensures AllBelow(Ents(repr + {node}), Before(p), node.first) && AllAbove(Ents(repr + {node}), After(p), node.last)
    {
      hide Cells, Entries, Before, After, Sound, Avl, Distinct, Keys, Elems, Chained, Ascending, GapsExact;
      SoundFrame(Snap(repr), Snap(repr + {node}), shape, root, null);
      ListFrame(Ents(repr), Ents(repr + {node}), nodes, listNext, listPrev);
      ElemsKeys(shape);
    }

    /** The list neighbours of an empty position: the parent and the parent's neighbour
        on the other side. */
    method Neighbours(parent: VMANode?, dir: Dir, ghost p: Where, ghost s: set<VMANode>, ghost q: seq<VMANode>)
      returns (pred: VMANode?, succ: VMANode?)
      requires parent == ParentAt(p) && (dir == RIGHT <==> p.InRight?)
      requires ListOk(Ents(s), q, listNext, listPrev) && q == Before(p) + After(p)
      ensures pred == At(q, |Before(p)| - 1) && succ == At(q, |Before(p)|) && succ == Next(pred)
    {
      hide Cells, Entries;
      ChainAt(Ents(s), q, listNext, listPrev, |Before(p)|);
      PositionNeighbours(Ents(s), q, listNext, listPrev, p);
      hide Before, After, ListOk;
      if dir == RIGHT {
        pred, succ := parent, Next(parent);
      } else {
        pred, succ := Prev(parent), parent;
      }
    }

    /** insert(), once the position is found. */
    method InsertAtPosition(node: VMANode, parent: VMANode?, dir: Dir, ghost p: Where, ghost s: set<VMANode>)
      requires Valid() && node !in repr && s == repr + {node} && node.first <= node.last
      requires Plug(p, Nil) == shape && parent == ParentAt(p) && (dir == RIGHT <==> p.InRight?)
      requires AllBelow(Ents(repr), Before(p), node.first) && AllAbove(Ents(repr), After(p), node.last)
      modifies this, s`left, s`right, s`parent, s`height, s`prevGap, s`biggestGap, s`next, s`prev
      ensures Valid() && repr == s
      ensures |Before(p)| <= |old(nodes)| && nodes == InsertAt(old(nodes), |Before(p)|, node)
    {
      hide Cells, Entries, Before, After, Elems, Keys, Distinct, Avl, FixUp, Plug, Sound, ListOk, Slot, AllBelow,
        AllAbove, Wrap;
      hide GapChange, Inserted, Ents, Snap, At, SuccAt, ParentAt, InsertAt;
      ghost var m, e, i := Snap(s), Ents(s), |Before(p)|;
      EntAt(s, node);
      Widen(node, p);
      InsertPlan(e, nodes, listNext, listPrev, shape, p, node);
      var pred, succ := Neighbours(parent, dir, p, s, nodes);
      ghost var e' := Inserted(e, pred, node, succ);
      InsertInList(pred, node, succ, s);
      GrowLeaf(node, parent, dir, p, shape, m, s);
      assert Ents(s) == e';
      Commit(FixUp(p, Bin(Nil, node, Nil)), InsertAt(nodes, i, node), s);
    }

    /** Name the tree and the list that the memory now holds. */
    ghost method Commit(t: Tree, q: seq<VMANode>, s: set<VMANode>)
      requires Distinct(t) && Avl(t) && Keys(t) == q && Elems(t) == s
      requires Sound(Snap(s), t, root, null) && ListOk(Ents(s), q, listNext, listPrev)
      modifies this`shape, this`nodes, this`repr
      ensures Valid() && shape == t && nodes == q && repr == s
    {
      hide Cells, Entries, Distinct, Avl, Keys, Elems, Sound, ListOk, Snap, Ents;
      shape, nodes, repr := t, q, s;
    }

    /** VMATree::insert. */
    method Insert(node: VMANode) returns (ghost i: nat)
      requires Valid() && node !in repr && Clear(node)
      modifies this
      modifies (repr + {node})`left, (repr + {node})`right, (repr + {node})`parent, (repr + {node})`height
      modifies (repr + {node})`prevGap, (repr + {node})`biggestGap, (repr + {node})`next, (repr + {node})`prev
      ensures Valid() && repr == old(repr) + {node}
      ensures i <= |old(nodes)| && nodes == InsertAt(old(nodes), i, node)
    {
      hide Cells, Entries, Before, After, Elems, Keys, Distinct, Avl, Plug, Sound, ListOk, AllBelow, AllAbove;
      var parent, dir;
      ghost var p;
      parent, dir, p := FindSlot(node);
      i := |Before(p)|;
      InsertAtPosition(node, parent, dir, p, repr + {node});
    }

    // ---- removal ---------------------------------------------------------------------

    /** Set the gap that removal leaves before the successor. */
    method SetGapAfterRemoval(pred: VMANode?, succ: VMANode?, ghost s: set<VMANode>) returns (ghost g: Word)
      requires (pred == null || pred in s) && (succ == null || succ in s)
      modifies s`prevGap
      ensures Ents(s) == if succ == null then old(Ents(s))
                         else WithGap(old(Ents(s)), succ, GapOf(old(Ents(s)), pred, succ))
      ensures Snap(s) == Regapped(old(Snap(s)), succ, g)
    {
      hide Cells, Entries, Wrap, WithGap;
      g := 0;
      if succ != null {
        var gap := if pred != null then Wrap(succ.first - pred.last - 1) else succ.first;
        assert gap == GapOf(Ents(s), pred, succ);
        g := gap;
        SetGap(succ, gap, s);
      }
    }

    /** The list side of remove(): the successor's gap, then `node->list.remove ()`. */
    method RemoveFromList(pred: VMANode?, succ: VMANode?, ghost s: set<VMANode>) returns (ghost g: Word)
      requires (pred == null || pred in s) && (succ == null || succ in s)
      modifies this`listNext, this`listPrev, s`prevGap, s`next, s`prev
      ensures Ents(s) == Removed(old(Ents(s)), pred, succ)
      ensures listNext == if pred == null then succ else old(listNext)
      ensures listPrev == if succ == null then pred else old(listPrev)
      ensures Snap(s) == Regapped(old(Snap(s)), succ, g)
    {
      hide Cells, Entries, WithNext, WithPrev, WithGap, GapOf, Ents, Snap, Regapped;
      g := SetGapAfterRemoval(pred, succ, s);
      SetPrev(succ, pred, s);
      SetNext(pred, succ, s);
      if succ == null { listPrev := pred; }
      if pred == null { listNext := succ; }
    }

    /** `parent->child[me] = c; if (c) c->parent = parent`. */
    method Promote(parent: VMANode?, me: Dir, c: VMANode?, ghost p: Where, ghost s: set<VMANode>)
      requires parent == ParentAt(p) && (parent != null ==> parent in s && (me == LEFT <==> p.InLeft?))
      requires c == null || c in s
      modifies this`root, s`left, s`right, s`parent
      ensures Snap(s) == Promoted(old(Snap(s)), p, c)
      ensures root == NewRoot(p, c, old(root))
    {
      hide Cells, Entries;
      Hook(parent, me, c, s);
      if c != null {
        SetParent(c, parent, s);
      }
    }

    /** Remove a node without a right child. */
    method RemoveNoRight(node: VMANode, parent: VMANode?, me: Dir, ghost p: Where, ghost t: Tree, ghost m: Mem,
                         ghost g: Word, ghost s: set<VMANode>)
      requires Sound(m, Plug(p, t), root, null) && Distinct(Plug(p, t))
      requires t.Bin? && t.key == node && t.right.Nil?
      requires (SuccAt(p) == null || SuccAt(p) in m) && Snap(s) == Regapped(m, SuccAt(p), g)
      requires parent == ParentAt(p) && (parent != null ==> (me == LEFT <==> p.InLeft?))
      modifies this`root, s`left, s`right, s`parent, s`height, s`biggestGap
      ensures Sound(Snap(s), Without(p, t), root, null)
    {
      hide Cells, Entries, Sound, Plug, Distinct, Ready, Done, FixUp, SuccAt;
      NoRightChild(m, p, t, root, g);
      NodeThere(m, p, t, root);
      HeapCell(s, m, SuccAt(p), g, node);
      var z := node.left;
      Promote(parent, me, z, p, s);
      if z == null {
        FixupAbove(parent, p, Nil, s);
      } else {
        Fixup(z, p, t.left, s);
      }
    }

    /** Remove a node with only a right child. */
    method RemoveNoLeft(node: VMANode, succ: VMANode, parent: VMANode?, me: Dir, ghost p: Where, ghost t: Tree,
                        ghost m: Mem, ghost g: Word, ghost s: set<VMANode>)
      requires Sound(m, Plug(p, t), root, null) && Distinct(Plug(p, t)) && Avl(Plug(p, t))
      requires t.Bin? && t.key == node && t.left.Nil? && t.right.Bin?
      requires succ == Leftmost(t.right).key && succ in m && Snap(s) == Regapped(m, succ, g)
      requires parent == ParentAt(p) && (parent != null ==> (me == LEFT <==> p.InLeft?))
      modifies this`root, s`left, s`right, s`parent, s`height, s`biggestGap
      ensures Sound(Snap(s), Without(p, t), root, null)
    {
      hide Cells, Entries, Sound, Plug, Distinct, Avl, Ready, Done, FixUp;
      OnlyRightChild(m, p, t, root, g);
      NodeThere(m, p, t, root);
      LeafLeftmost(t.right);
      HeapCell(s, m, succ, g, node);
      var z := node.right;
      Promote(parent, me, z, p, s);
      Fixup(succ, p, t.right, s);
    }

    lemma LeafLeftmost(t: Tree)
      requires t.Bin? && |Keys(t)| == 1
      ensures Leftmost(t).key == t.key
    {
    }

    /** Replace a node that has two children by its successor. */
    method RemoveTwo(node: VMANode, succ: VMANode, parent: VMANode?, me: Dir, ghost p: Where, ghost t: Tree,
                     ghost m: Mem, ghost g: Word, ghost s: set<VMANode>)
      requires Sound(m, Plug(p, t), root, null) && Distinct(Plug(p, t)) && Avl(Plug(p, t))
      requires t.Bin? && t.key == node && t.left.Bin? && t.right.Bin?
      requires succ == Leftmost(t.right).key && succ in m && Snap(s) == Regapped(m, succ, g)
      requires parent == ParentAt(p) && (parent != null ==> (me == LEFT <==> p.InLeft?))
      modifies this`root, s`left, s`right, s`parent, s`height, s`biggestGap
      ensures Sound(Snap(s), Without(p, t), root, null)
    {
      hide Cells, Entries, Sound, Plug, Distinct, Avl, Ready, Done, FixUp, TakenOver, Rewired;
      NodeThere(m, p, t, root);
      HeapCell(s, m, succ, g, node);
      HeapCell(s, m, succ, g, succ);
      SuccessorParent(m, p, t, root);
      SuccessorFix(p, t);
      var y := succ.parent;
      if y == node {
        SuccessorIsChild(m, p, t, root, g);
      } else {
        SuccessorIsDeeper(m, p, t, root, g);
      }
      TakeOver(node, succ, parent, me, p, s);
      if y == node {
        Fixup(succ, p, Bin(t.left, succ, t.right.right), s);
      } else {
        SnapAt(s, node);
        SnapAt(s, succ);
        Rewire(node, succ, y, s);
        FixupAbove(y, DownLeft(InRight(t.left, succ, p), t.right), Leftmost(t.right).right, s);
      }
    }

    /** The successor gets the parent, the place and the left child of node. */
    method TakeOver(node: VMANode, z: VMANode, parent: VMANode?, me: Dir, ghost p: Where, ghost s: set<VMANode>)
      requires node in s && z in s && node.left != null && node.left in s && node.left != z
      requires parent == ParentAt(p) && (parent != null ==> parent in s && (me == LEFT <==> p.InLeft?))
      modifies this`root, s`left, s`right, s`parent
      ensures Snap(s) == TakenOver(old(Snap(s)), p, node, z)
      ensures root == NewRoot(p, z, old(root))
    {
      hide Cells, Entries;
      ghost var m := Snap(s);
      SetParent(z, parent, s);
      SetLeft(z, node.left, s);
      SetParent(z.left, z, s);
      assert Snap(s) == Inherited(m, parent, node, z);
      Hook(parent, me, z, s);
    }

    /** The successor's old parent y and the successor exchange subtrees with node. */
    method Rewire(node: VMANode, z: VMANode, y: VMANode, ghost s: set<VMANode>)
      requires node in s && z in s && y in s && y != node && z != node && y != z
      requires (z.right == null || z.right in s) && node.right != null && node.right in s && z.right != node
      modifies s`left, s`right, s`parent
      ensures Snap(s) == Rewired(old(Snap(s)), node, z, y)
    {
      hide Cells, Entries;
      ghost var m := Snap(s);
      var c, r := z.right, node.right;
      assert c == m[z].right && r == m[node].right;
      SetLeft(y, c, s);
      if c != null {
        SetParent(c, y, s);
      }
      SetRight(z, r, s);
      SetParent(r, z, s);
    }

    /** The list side before removal of the node at index i. */
    lemma RemovePlan(i: nat)
      requires Valid() && i < |nodes| && nodes[i] in repr
      ensures Prev(nodes[i]) == At(nodes, i - 1) && Next(nodes[i]) == At(nodes, i + 1)
      ensures Here(Ents(repr), At(nodes, i - 1)) && Here(Ents(repr), At(nodes, i + 1)) && Ents(repr).Keys == repr
      ensures var pred, succ := At(nodes, i - 1), At(nodes, i + 1);
        ListOk(Removed(Ents(repr), pred, succ), RemoveAt(nodes, i),
               if pred == null then succ else listNext, if succ == null then pred else listPrev)
    {
      hide Cells, Entries, Distinct, Avl, Sound, Keys, Elems, Removed, Wrap;
      EntAt(repr, nodes[i]);
      ChainAt(Ents(repr), nodes, listNext, listPrev, i);
      ChainAt(Ents(repr), nodes, listNext, listPrev, i + 1);
      RemovedOk(Ents(repr), nodes, listNext, listPrev, i);
      assert forall j :: 0 <= j < |nodes| ==> nodes[j] in Ents(repr);
    }

    /** The tree side of remove(). */
    method RemoveFromTree(node: VMANode, succ: VMANode?, ghost p: Where, ghost t: Tree, ghost m: Mem, ghost g: Word,
                          ghost s: set<VMANode>)
      requires Sound(m, Plug(p, t), root, null) && Distinct(Plug(p, t)) && Avl(Plug(p, t)) && t.Bin? && t.key == node
      requires succ == if t.right.Nil? then SuccAt(p) else Leftmost(t.right).key
      requires (succ == null || succ in m) && Snap(s) == Regapped(m, succ, g)
      modifies this`root, s`left, s`right, s`parent, s`height, s`biggestGap
      ensures Sound(Snap(s), Without(p, t), root, null)
    {
      hide Cells, Entries, Distinct, Avl, Plug, Sound, Leftmost, SuccAt, Without;
      NodeThere(m, p, t, root);
      WhichChild(m, p, t, root);
      HeapCell(s, m, succ, g, node);
      var parent := node.parent;
      if parent != null { HeapCell(s, m, succ, g, parent); }
      var me := if parent != null && parent.left != node then RIGHT else LEFT;
      if node.right == null {
        RemoveNoRight(node, parent, me, p, t, m, g, s);
      } else if node.left == null {
        RemoveNoLeft(node, succ, parent, me, p, t, m, g, s);
      } else {
        RemoveTwo(node, succ, parent, me, p, t, m, g, s);
      }
    }

    lemma WhichChild(m: Mem, p: Where, t: Tree, root: VMANode?)
      requires Sound(m, Plug(p, t), root, null) && Distinct(Plug(p, t)) && t.Bin?
      ensures ParentAt(p) != null ==> ParentAt(p) in m && (m[ParentAt(p)].left == t.key <==> p.InLeft?)
    {
      AtNode(m, p, t, root);
      IsLeftChildSpec(m, p, t, root);
      SpineThere(m, p, t.key, root);
    }

    /** VMATree::remove. */
    method Remove(node: VMANode) returns (ghost i: nat)
      requires Valid() && node in repr
      modifies this, repr`left, repr`right, repr`parent, repr`height, repr`prevGap, repr`biggestGap, repr`next,
        repr`prev
      ensures Valid() && repr == old(repr) - {node}
      ensures i < |old(nodes)| && old(nodes)[i] == node && nodes == RemoveAt(old(nodes), i)
    {
      hide Cells, Entries, Elems, Keys, Distinct, Avl, Plug, Sound, ListOk, Before, After, Leftmost, Removed, SuccAt,
        Without, Snap, Ents, Regapped;
      ghost var p, t;
      p, t, i := FindIn(shape, nodes, node);
      ghost var s, m := repr, Snap(repr);
      SnapAt(s, node);
      RemovePlan(i);
      WithoutAll(p, t, nodes, i);
      var pred, succ := Prev(node), Next(node);
      ghost var e := Removed(Ents(s), pred, succ);
      ghost var g := RemoveFromList(pred, succ, s);
      RemoveFromTree(node, succ, p, t, m, g, s);
      assert Ents(s) == e;
      Shrink(s, node, Without(p, t), RemoveAt(nodes, i));
      Commit(Without(p, t), RemoveAt(nodes, i), s - {node});
    }

    /** Forget a node that is no longer in the tree or the list. */
    lemma Shrink(s: set<VMANode>, node: VMANode, t: Tree, q: seq<VMANode>)
      requires Sound(Snap(s), t, root, null) && ListOk(Ents(s), q, listNext, listPrev)
      requires Keys(t) == q && Elems(t) == s - {node}
      ensures Sound(Snap(s - {node}), t, root, null) && ListOk(Ents(s - {node}), q, listNext, listPrev)
    {
      hide Cells, Entries, Sound, Keys, Elems, ListOk;
      SoundFrame(Snap(s), Snap(s - {node}), t, root, null);
      ElemsKeys(t);
      ListFrame(Ents(s), Ents(s - {node}), q, listNext, listPrev);
    }

    lemma NodeThere(m: Mem, p: Where, t: Tree, root: VMANode?)
      requires Sound(m, Plug(p, t), root, null) && Distinct(Plug(p, t)) && t.Bin?
      ensures t.key in m && (ParentAt(p) == null || ParentAt(p) in m) && Closed(m, t.key)
      ensures t.left.Bin? && t.right.Bin? ==> t.left.key != Leftmost(t.right).key
      ensures m[t.key].left == RootOf(t.left) && m[t.key].right == RootOf(t.right) && m[t.key].parent == ParentAt(p)
    {
      AtNode(m, p, t, root);
      LooseHeights(m, t);
      SpineThere(m, p, t.key, root);
      if t.left.Bin? && t.right.Bin? {
        LeftmostElem(t.right);
        RootElem(t.left);
      }
    }

    /** Start the fixup at the parent of a finished subtree t, if there is one. */
    method FixupAbove(parent: VMANode?, ghost p: Where, ghost t: Tree, ghost s: set<VMANode>)
      requires Done(Snap(s), p, t, root) && parent == ParentAt(p) && Rebalance(t) == t
      modifies this`root, s`left, s`right, s`parent, s`height, s`biggestGap
      ensures Sound(Snap(s), FixUp(p, t), root, null)
    {
      hide Cells, Entries;
      if parent == null {
        return;
      }
      Climb(Snap(s), p, t, root);
      Fixup(parent, p.up, Enclosing(p, t), s);
    }

    // ---- resizing ----------------------------------------------------------------------

    /** The tree after node i changed its range without passing a neighbour: all is valid
        except the two gaps next to it. */
    ghost predicate Resized(i: nat)
      reads this, repr
    {
      && i < |nodes|
      && Distinct(shape) && Avl(shape) && Keys(shape) == nodes && Elems(shape) == repr
      && Sound(Snap(repr), shape, root, null)
      && ListOkBut(Ents(repr), nodes, listNext, listPrev, i)
    }

    /** VMATree::adjust. */
    method Adjust(node: VMANode, ghost i: nat)
      requires Resized(i) && node == nodes[i]
      modifies this`shape, this`nodes, this`repr, repr`prevGap, repr`height, repr`biggestGap
      ensures Valid() && nodes == old(nodes) && repr == old(repr) && shape == old(shape)
    {
      hide Cells, Entries, Elems, Keys, Distinct, Avl, Plug, Sound, ListOk, ListOkBut, Before, After, Leftmost,
        SuccAt, Adjusted, GapChange;
      ghost var s, m := repr, Snap(repr);
      InRepr(i);
      ghost var p, t, j := FindIn(shape, nodes, node);
      AdjustPlan(i, j);
      var pred, succ := Prev(node), Next(node);
      ghost var e := Adjusted(Ents(s), pred, node, succ);
      SetGaps(pred, node, succ, s);
      assert Ents(s) == e;
      hide Ents, Snap;
      AdjustTree(node, succ, p, t, m, s);
      assert Ents(s) == e;
      Commit(shape, nodes, s);
    }

    lemma InRepr(i: nat)
      requires i < |nodes| && nodes == Keys(shape) && repr == Elems(shape)
      ensures nodes[i] in repr
    {
      ElemsKeys(shape);
    }

    lemma AdjustPlan(i: nat, j: nat)
      requires Resized(i) && j < |nodes| && nodes[j] == nodes[i] && nodes[i] in repr
      ensures i == j && Prev(nodes[i]) == At(nodes, i - 1) && Next(nodes[i]) == At(nodes, i + 1)
      ensures Here(Ents(repr), At(nodes, i - 1)) && Here(Ents(repr), At(nodes, i + 1)) && Ents(repr).Keys == repr
      ensures nodes[i] != At(nodes, i - 1) && nodes[i] != At(nodes, i + 1)
      ensures ListOk(Adjusted(Ents(repr), At(nodes, i - 1), nodes[i], At(nodes, i + 1)), nodes, listNext, listPrev)
    {
      hide Cells, Entries, Distinct, Avl, Sound, Keys, Elems, Adjusted;
      EntAt(repr, nodes[i]);
      AdjustedOk(Ents(repr), nodes, listNext, listPrev, i);
    }

    /** The tree side of adjust(): one pass upward from the deeper of the two nodes. */
    method AdjustTree(node: VMANode, succ: VMANode?, ghost p: Where, ghost t: Tree, ghost m: Mem, ghost s: set<VMANode>)
      requires Sound(m, Plug(p, t), root, null) && Distinct(Plug(p, t)) && t.Bin? && t.key == node
      requires succ == if t.right.Nil? then SuccAt(p) else Leftmost(t.right).key
      requires GapChange(m, Snap(s), node, succ)
      modifies s`height, s`biggestGap
      ensures Sound(Snap(s), Plug(p, t), root, null)
    {
      hide Cells, Entries, Sound, Plug, Distinct, Ready, SuccAt, Leftmost;
      if t.right.Nil? {
        SuccessorAbove(m, Snap(s), p, t, root);
      } else {
        SuccessorBelow(m, Snap(s), p, t, root);
      }
      HeightOf(m, s, node, succ, node);
      if succ != null { HeightOf(m, s, node, succ, succ); }
      if succ != null && succ.height < node.height {
        Settle(succ, DownLeft(InRight(t.left, t.key, p), t.right), Leftmost(t.right), s);
      } else {
        Settle(node, p, t, s);
      }
    }

    lemma HeightOf(m: Mem, s: set<VMANode>, a: VMANode, b: VMANode?, n: VMANode)
      requires GapChange(m, Snap(s), a, b) && n in m
      ensures n in s && n.height == m[n].height
    {
      assert Snap(s)[n].height == m[n].height;
    }

    /** Propagate from a node up to the root. */
    method Settle(start: VMANode, ghost p0: Where, ghost t0: Tree, ghost s: set<VMANode>)
      requires Ready(Snap(s), p0, t0, root) && start == t0.key
      modifies s`height, s`biggestGap
      ensures Sound(Snap(s), Plug(p0, t0), root, null)
    {
      hide Cells, Entries;
      ghost var p, t := p0, t0;
      var node: VMANode? := start;
      while node != null
        invariant node != null ==> Ready(Snap(s), p, t, root) && node == t.key && Plug(p, t) == Plug(p0, t0)
        invariant node == null ==> Sound(Snap(s), Plug(p0, t0), root, null)
        decreases if node == null then 0 else 1 + Depth(p)
      {
        node := SettleTurn(node, p, t, s);
        if node != null {
          Climb(Snap(s), p, t, root);
          p, t := p.up, Enclosing(p, t);
        }
      }
    }

    method SettleTurn(node: VMANode, ghost p: Where, ghost t: Tree, ghost s: set<VMANode>) returns (parent: VMANode?)
      requires Ready(Snap(s), p, t, root) && node == t.key
      modifies s`height, s`biggestGap
      ensures parent == ParentAt(p) && Done(Snap(s), p, t, root)
    {
      hide Cells, Entries;
      BalancedTurn(Snap(s), p, t, root);
      parent := node.parent;
      Propagate(node, s);
    }

    /** Rotate the child on side `dir` of node in that same direction. */
    method RotateChild(node: VMANode, dir: Dir, ghost s: set<VMANode>)
      requires ChildTurnable(Snap(s), node, dir == LEFT)
      modifies s`left, s`right, s`parent, s`height, s`biggestGap
      ensures Snap(s) == ChildTurned(old(Snap(s)), node, dir == LEFT)
    {
      hide Cells, Entries;
      var z := if dir == LEFT then node.left else node.right;
      z := Rotate(z, dir, s);
      SetParent(z, node, s);
      if dir == LEFT { SetLeft(node, z, s); } else { SetRight(node, z, s); }
    }

    /** `if (parent) parent->child[me] = z; else root = z`. */
    method Hook(parent: VMANode?, me: Dir, z: VMANode?, ghost s: set<VMANode>)
      requires parent == null || parent in s
      modifies this`root, s`left, s`right
      ensures Snap(s) == Hooked(old(Snap(s)), parent, me == LEFT, z)
      ensures root == if parent == null then z else old(root)
    {
      hide Cells, Entries;
      if parent != null {
        if me == LEFT { SetLeft(parent, z, s); } else { SetRight(parent, z, s); }
      } else {
        root := z;
      }
    }

    /** Rotate node and put the result in its place. */
    method RotateTop(node: VMANode, dir: Dir, ghost s: set<VMANode>)
      requires Rotatable(Snap(s), node, dir == LEFT) && (node.parent != null ==> node.parent in s)
      modifies this`root, s`left, s`right, s`parent, s`height, s`biggestGap
      ensures Snap(s) == TopTurned(old(Snap(s)), node, dir == LEFT)
      ensures root == if old(node.parent) == null then old(OtherEnd(Snap(s), node, dir == LEFT)) else old(root)
    {
      hide Cells, Entries, Rotated, TurnedLeft, TurnedRight;
      ghost var m := Snap(s);
      RotatedTouches(m, node, dir == LEFT, s);
      var parent := node.parent;
      var me := if parent != null && parent.left != node then RIGHT else LEFT;
      assert parent != null ==> (me == LEFT <==> IsLeftChild(m, node));
      var z := Rotate(node, dir, s);
      SetParent(z, parent, s);
      Hook(parent, me, z, s);
    }

    method TurnChild(node: VMANode, dir: Dir, ghost p: Where, ghost c: Tree, ghost o: Tree, ghost s: set<VMANode>)
      requires CanRotate(c, dir == LEFT) && Ready(Snap(s), p, BinAt(c, node, o, dir == LEFT), root)
      modifies s`left, s`right, s`parent, s`height, s`biggestGap
      ensures Ready(Snap(s), p, BinAt(RotateShape(c, dir == LEFT), node, o, dir == LEFT), root)
    {
      hide Cells, Entries, Ready;
      ChildTurnedReady(Snap(s), p, c, node, o, dir == LEFT, root);
      RotateChild(node, dir, s);
    }

    method TurnTop(node: VMANode, dir: Dir, ghost p: Where, ghost t: Tree, ghost s: set<VMANode>)
      requires Ready(Snap(s), p, t, root) && node == t.key && CanRotate(t, dir == LEFT)
      modifies this`root, s`left, s`right, s`parent, s`height, s`biggestGap
      ensures Done(Snap(s), p, RotateShape(t, dir == LEFT), root)
    {
      hide Cells, Entries;
      TopTurnedDone(Snap(s), p, t, dir == LEFT, root);
      LooseRotatable(Snap(s), t, dir == LEFT);
      hide Done;
      RotateTop(node, dir, s);
    }

    /** One turn of the loop in fixup. */
    method FixupTurn(node: VMANode, ghost p: Where, ghost t: Tree, ghost s: set<VMANode>) returns (parent: VMANode?)
      requires Ready(Snap(s), p, t, root) && node == t.key
      modifies this`root, s`left, s`right, s`parent, s`height, s`biggestGap
      ensures parent == ParentAt(p)
      ensures Done(Snap(s), p, Rebalance(t), root)
    {
      hide Cells, Entries;
      parent := node.parent;
      HeapBalance(s, t);
      var balance := NodeBalance(node);
      if -1 <= balance <= 1 {
        BalancedTurn(Snap(s), p, t, root);
        Propagate(node, s);
      } else if balance < 0 {
        FixupLeftHeavy(node, p, t, s);
      } else {
        FixupRightHeavy(node, p, t, s);
      }
    }

    /** The rotating branch of a turn, with the left child too high. */
    method FixupLeftHeavy(node: VMANode, ghost p: Where, ghost t: Tree, ghost s: set<VMANode>)
      requires Ready(Snap(s), p, t, root) && node == t.key && Balance(t) < -1
      modifies this`root, s`left, s`right, s`parent, s`height, s`biggestGap
      ensures Done(Snap(s), p, Rebalance(t), root)
    {
      hide Cells, Entries;
      HeapBalance(s, t);
      HeapBalance(s, t.left);
      hide Ready, Done, Snap;
      if NodeBalance(node.left) > 0 {
        TurnChild(node, LEFT, p, t.left, t.right, s);
        TurnTop(node, RIGHT, p, Bin(RotateLeft(t.left), node, t.right), s);
      } else {
        TurnTop(node, RIGHT, p, t, s);
      }
    }

    method FixupRightHeavy(node: VMANode, ghost p: Where, ghost t: Tree, ghost s: set<VMANode>)
      requires Ready(Snap(s), p, t, root) && node == t.key && Balance(t) > 1
      modifies this`root, s`left, s`right, s`parent, s`height, s`biggestGap
      ensures Done(Snap(s), p, Rebalance(t), root)
    {
      hide Cells, Entries;
      HeapBalance(s, t);
      HeapBalance(s, t.right);
      hide Ready, Done, Snap;
      if NodeBalance(node.right) < 0 {
        TurnChild(node, RIGHT, p, t.right, t.left, s);
        TurnTop(node, LEFT, p, Bin(t.left, node, RotateRight(t.right)), s);
      } else {
        TurnTop(node, LEFT, p, t, s);
      }
    }

    /** VMATree::fixup: from a node whose data, and whose ancestors' data, may be stale
        up to the root. */
    method Fixup(start: VMANode?, ghost p0: Where, ghost t0: Tree, ghost s: set<VMANode>)
      requires start == RootOf(t0)
      requires if start == null then p0.Top? && root == null else Ready(Snap(s), p0, t0, root)
      modifies this`root, s`left, s`right, s`parent, s`height, s`biggestGap
      ensures Sound(Snap(s), FixUp(p0, t0), root, null)
    {
      hide Cells, Entries;
      ghost var p, t := p0, t0;
      var node := start;
      while node != null
        invariant node != null ==> Ready(Snap(s), p, t, root) && node == t.key
        invariant node != null ==> FixUp(p, t) == FixUp(p0, t0)
        invariant node == null ==> Sound(Snap(s), FixUp(p0, t0), root, null)
        decreases if node == null then 0 else 1 + Depth(p)
      {
        node := FixupTurn(node, p, t, s);
        if node != null {
          Climb(Snap(s), p, Rebalance(t), root);
        }
        if !p.Top? {
          p, t := p.up, Enclosing(p, Rebalance(t));
        }
      }
    }
  }
}
