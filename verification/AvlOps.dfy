/**
  The operations of the plain AVL tree (dsl/avlfixup.cc, include/dsl/avltree.h), in place on
  nodes that are linked by pointers.  Each ends in the tree that `AvlTree` computes.
 */
module AvlOps {
  import opened Basics
  import opened AvlTree
  import opened AvlHeap

  datatype Dir = LEFT | RIGHT

  function NodeHeight(node: AVLNode?): int
    reads node
  {
    if node == null then 0 else node.height
  }

  function NodeNewHeight(node: AVLNode): int
    reads node, node.left, node.right
  {
    1 + Larger(NodeHeight(node.left), NodeHeight(node.right))
  }

  function NodeBalance(node: AVLNode): int
    reads node, node.left, node.right
  {
    NodeHeight(node.right) - NodeHeight(node.left)
  }

  // Single field assignments, as updates of the memory of the nodes s.

  method SetLeft(n: AVLNode, v: AVLNode?, ghost s: set<AVLNode>)
    requires n in s
    modifies n`left
    ensures Snap(s) == old(Snap(s))[n := old(Snap(s))[n].(left := v)]
  {
    hide Cells;
    n.left := v;
  }

  method SetRight(n: AVLNode, v: AVLNode?, ghost s: set<AVLNode>)
    requires n in s
    modifies n`right
    ensures Snap(s) == old(Snap(s))[n := old(Snap(s))[n].(right := v)]
  {
    hide Cells;
    n.right := v;
  }

  method SetParent(n: AVLNode, v: AVLNode?, ghost s: set<AVLNode>)
    requires n in s
    modifies n`parent
    ensures Snap(s) == old(Snap(s))[n := old(Snap(s))[n].(parent := v)]
  {
    hide Cells;
    n.parent := v;
  }

  method SetHeight(n: AVLNode, h: int, ghost s: set<AVLNode>)
    requires n in s
    modifies n`height
    ensures Snap(s) == old(Snap(s))[n := old(Snap(s))[n].(height := h)]
  {
    hide Cells;
    n.height := h;
  }

  /** `node->height = new_height (node)`. */
  method Raise(node: AVLNode, ghost s: set<AVLNode>)
    requires Closed(Snap(s), node)
    modifies node`height
    ensures Snap(s) == Raised(old(Snap(s)), node)
  {
    hide Cells;
    ghost var m := Snap(s);
    SnapAt(s, node);
    if node.left != null { SnapAt(s, node.left); }
    if node.right != null { SnapAt(s, node.right); }
    var h := NodeNewHeight(node);
    assert h == 1 + Larger(HeightIn(m, m[node].left), HeightIn(m, m[node].right));
    SetHeight(node, h, s);
  }

  lemma SnapAt(s: set<AVLNode>, n: AVLNode)
    requires n in Snap(s)
    ensures n in s && Snap(s)[n] == Cell(n.left, n.right, n.parent, n.height)
  {
  }

  lemma SnapKeys(s: set<AVLNode>)
    ensures Snap(s).Keys == s
  {
  }

  /** rotate. */
  method Rotate(node: AVLNode, dir: Dir, ghost s: set<AVLNode>) returns (z: AVLNode)
    requires Rotatable(Snap(s), node, dir == LEFT)
    modifies s`left, s`right, s`parent, s`height
    ensures z == old(if dir == LEFT then node.right else node.left)
    ensures Snap(s) == Turned(old(Snap(s)), node, dir == LEFT)
  {
    hide Cells;
    ghost var m := Snap(s);
    SnapKeys(s);
    if dir == LEFT {
      z := node.right;
      var tmp := z.left;
      if tmp != null { SetParent(tmp, node, s); }
      SetRight(node, tmp, s);
      Raise(node, s);
      SetParent(node, z, s);
      SetLeft(z, node, s);
      Raise(z, s);
    } else {
      z := node.left;
      var tmp := z.right;
      if tmp != null { SetParent(tmp, node, s); }
      SetLeft(node, tmp, s);
      Raise(node, s);
      SetParent(node, z, s);
      SetRight(z, node, s);
      Raise(z, s);
    }
  }

  /** A node and its children, as the tree at position p has them. */
  lemma HeapNode(s: set<AVLNode>, p: Path, t: Tree, root: AVLNode?)
    requires t.Bin? && Ok(Snap(s), Plug(p, t), root)
    ensures t.key in s && t.key.left == RootOf(t.left) && t.key.right == RootOf(t.right) && t.key.parent == ParentAt(p)
    ensures t.key.height == t.height && NodeHeight(t.key.left) == H(t.left) && NodeHeight(t.key.right) == H(t.right)
    ensures (t.left.Bin? ==> t.left.key in s) && (t.right.Bin? ==> t.right.key in s)
    ensures ParentAt(p) != null ==> ParentAt(p) in s && (ParentAt(p).left == t.key <==> p.InLeft?)
  {
    hide Cells, Keys, NoRepeat, Plug, Before, After, PathHeld;
    var m := Snap(s);
    OkAt(m, p, t, root);
    SnapAt(s, t.key);
    HeldRoot(m, t.left, t.key);
    HeldRoot(m, t.right, t.key);
    if t.left.Bin? { SnapAt(s, t.left.key); }
    if t.right.Bin? { SnapAt(s, t.right.key); }
    if !p.Top? {
      WhichChild(m, p, t, root);
      SnapAt(s, p.key);
    }
  }

  class AVLTree {
    var root: AVLNode?
    // The tree as a value, and its nodes.
    ghost var shape: Tree
    ghost var repr: set<AVLNode>

    /** The memory of the nodes draws the tree `shape`, stored heights included. */
    ghost predicate Valid()
      reads this, repr
    {
      Ok(Snap(repr), shape, root) && repr == Nodes(shape)
    }

    /** AVLTree::init. */
    constructor ()
      ensures Valid() && shape == Nil && repr == {}
    {
      root, shape, repr := null, Nil, {};
    }

    /** `if (parent) parent->child[me] = z; else m_root = z`. */
    method Hook(parent: AVLNode?, me: Dir, z: AVLNode?, ghost s: set<AVLNode>)
      requires parent == null || parent in s
      modifies this`root, s`left, s`right
      ensures Snap(s) == Hooked(old(Snap(s)), parent, me == LEFT, z)
      ensures root == if parent == null then z else old(root)
    {
      hide Cells;
      if parent != null {
        if me == LEFT { SetLeft(parent, z, s); } else { SetRight(parent, z, s); }
      } else {
        root := z;
      }
    }

    /** Rotate the node at position p and put the result in its place. */
    method RotateAt(node: AVLNode, dir: Dir, parent: AVLNode?, me: Dir, ghost p: Path, ghost t: Tree,
                    ghost s: set<AVLNode>)
      requires CanTurn(t, dir == LEFT) && Ok(Snap(s), Plug(p, t), root) && node == t.key
      requires parent == ParentAt(p) && (parent != null ==> (me == LEFT <==> p.InLeft?))
      modifies this`root, s`left, s`right, s`parent, s`height
      ensures Ok(Snap(s), Plug(p, Turn(t, dir == LEFT)), root)
    {
      hide Cells, Turned, Rotatable, Plug, Ok;
      ghost var m, r := Snap(s), root;
      TurnedAt(m, p, t, r, dir == LEFT);
      TurnsTo(m, p, t, r, dir == LEFT);
      SnapKeys(s);
      var z := Rotate(node, dir, s);
      SetParent(z, parent, s);
      Hook(parent, me, z, s);
    }

    lemma TurnsTo(m: Mem, p: Path, t: Tree, root: AVLNode?, left: bool)
      requires CanTurn(t, left) && Ok(m, Plug(p, t), root)
      ensures t.key in m && m[t.key].left == RootOf(t.left) && m[t.key].right == RootOf(t.right)
      ensures Turn(t, left).key == if left then t.right.key else t.left.key
    {
      hide Keys, NoRepeat, Plug, Before, After, PathHeld;
      OkAt(m, p, t, root);
    }

    /** The rotating part of a turn of the loop, with the left child too high. */
    method LevelLeft(node: AVLNode, parent: AVLNode?, me: Dir, ghost p: Path, ghost t: Tree, ghost s: set<AVLNode>)
      requires t.Bin? && Ok(Snap(s), Plug(p, t), root) && node == t.key && H(t.right) + 1 < H(t.left)
      requires parent == ParentAt(p) && (parent != null ==> (me == LEFT <==> p.InLeft?))
      modifies this`root, s`left, s`right, s`parent, s`height
      ensures Ok(Snap(s), Plug(p, Leveled(t)), root)
    {
      hide Cells, Ok;
      ghost var q, u := InLeft(p, t.key, t.right, t.height), t;
      HeapNode(s, p, t, root);
      HeapNode(s, q, t.left, root);
      var z := node.left;
      if NodeBalance(z) > 0 {
        RotateAt(z, LEFT, node, LEFT, q, t.left, s);
        u := t.(left := RotateLeft(t.left));
      }
      RotateAt(node, RIGHT, parent, me, p, u, s);
    }

    method LevelRight(node: AVLNode, parent: AVLNode?, me: Dir, ghost p: Path, ghost t: Tree, ghost s: set<AVLNode>)
      requires t.Bin? && Ok(Snap(s), Plug(p, t), root) && node == t.key && H(t.left) + 1 < H(t.right)
      requires parent == ParentAt(p) && (parent != null ==> (me == LEFT <==> p.InLeft?))
      modifies this`root, s`left, s`right, s`parent, s`height
      ensures Ok(Snap(s), Plug(p, Leveled(t)), root)
    {
      hide Cells, Ok;
      ghost var q, u := InRight(t.left, t.key, p, t.height), t;
      HeapNode(s, p, t, root);
      HeapNode(s, q, t.right, root);
      var z := node.right;
      if NodeBalance(z) < 0 {
        RotateAt(z, RIGHT, node, RIGHT, q, t.right, s);
        u := t.(right := RotateRight(t.right));
      }
      RotateAt(node, LEFT, parent, me, p, u, s);
    }

    /** One turn of the loop of fixup: whether it leaves, or else what comes next. */
    method Turnover(node: AVLNode, ghost p: Path, ghost t: Tree, ghost s: set<AVLNode>)
        returns (leave: bool, parent: AVLNode?)
      requires t.Bin? && Ok(Snap(s), Plug(p, t), root) && node == t.key
      modifies this`root, s`left, s`right, s`parent, s`height
      ensures leave <==> Stops(t)
      ensures leave ==> Ok(Snap(s), Plug(p, t), root)
      ensures !leave ==> parent == ParentAt(p) && Ok(Snap(s), Plug(p, Leveled(t)), root)
    {
      hide Cells, Plug, Ok;
      HeapNode(s, p, t, root);
      leave, parent := false, node.parent;
      var balance := NodeBalance(node);
      if -1 <= balance <= 1 {
        var h := NodeNewHeight(node);
        if h == node.height {
          return true, parent;
        }
        RaisedAt(Snap(s), p, t, root, NewHeight(t.left, t.right));
        SetHeight(node, h, s);
        return;
      }
      var me := if parent != null && parent.left != node then RIGHT else LEFT;
      if balance < 0 {
        LevelLeft(node, parent, me, p, t, s);
      } else {
        LevelRight(node, parent, me, p, t, s);
      }
    }

    /** AVLTree::fixup, from the parent of position p upwards, where u now is. */
    method Fixup(start: AVLNode?, ghost p0: Path, ghost u0: Tree, ghost s: set<AVLNode>)
      requires Ok(Snap(s), Plug(p0, u0), root) && start == ParentAt(p0)
      modifies this`root, s`left, s`right, s`parent, s`height
      ensures Ok(Snap(s), Up(p0, u0), root)
    {
      hide Cells, Ok, Leveled, Stops;
      var node := start;
      ghost var p, u := p0, u0;
      while node != null
        invariant node == ParentAt(p) && Ok(Snap(s), Plug(p, u), root) && Up(p, u) == Up(p0, u0)
        decreases p
      {
        ghost var t := Enclosing(p, u);
        var leave, parent := Turnover(node, p.up, t, s);
        if leave {
          return;
        }
        node := parent;
        p, u := p.up, Leveled(t);
      }
    }

    // ---- insertion ---------------------------------------------------------------------------------

    /** Make node a leaf at position p. */
    method LinkLeaf(parent: AVLNode?, dir: Dir, node: AVLNode, ghost p: Path, ghost s: set<AVLNode>)
      requires Ok(Snap(repr), Plug(p, Nil), root) && repr == Nodes(Plug(p, Nil)) && node !in repr && s == repr + {node}
      requires parent == ParentAt(p) && (parent != null ==> (dir == LEFT <==> p.InLeft?))
      modifies this`root, s`left, s`right, s`parent, s`height
      ensures Ok(Snap(s), Plug(p, Bin(Nil, node, Nil, 1)), root)
    {
      hide Cells, Ok, Keys, Before, After, Plug;
      ghost var m, r := Snap(repr), root;
      OkAt(m, p, Nil, r);
      NodesAround(p, Nil);
      SnapKeys(repr);
      node.left, node.right, node.parent, node.height := null, null, parent, 1;
      ghost var m1 := Snap(s);
      assert forall x :: x in repr ==> x in m1 && m1[x] == m[x];
      Hook(parent, dir, node, s);
      LeafAt(m, Snap(s), p, r, node);
    }

    /** AVLTree::insert_at: node becomes a child of parent, at the empty position p. */
    method InsertAt(parent: AVLNode?, dir: Dir, node: AVLNode, ghost p: Path)
      requires Valid() && node !in repr && Plug(p, Nil) == shape
      requires parent == ParentAt(p) && (parent != null ==> (dir == LEFT <==> p.InLeft?))
      modifies this, repr, node
      ensures Valid() && repr == old(repr) + {node}
      ensures shape == AvlTree.InsertAt(p, node) && Keys(shape) == Before(p) + [node] + After(p)
      ensures old(Exact(shape)) ==> Exact(shape)
    {
      hide Cells, Ok, Keys, Before, After, Plug, Up, Exact, Snap;
      ghost var s, leaf := repr + {node}, Bin(Nil, node, Nil, 1);
      if Exact(shape) { InsertExact(p, node); }
      InsertKeys(p, node);
      NodesInserted(p, node);
      LinkLeaf(parent, dir, node, p, s);
      if parent == null {
        RootPlace(p, leaf);
      } else {
        Fixup(parent, p, leaf, s);
      }
      shape, repr := AvlTree.InsertAt(p, node), s;
    }

    /** The descent of TypedAVLTree::insert. */
    method FindSlot(node: AVLNode, less: (AVLNode, AVLNode) -> bool) returns (parent: AVLNode?, dir: Dir, ghost p: Path)
      requires Valid() && Ordering(less, repr + {node}) && Sorted(less, Keys(shape))
      ensures Plug(p, Nil) == shape && parent == ParentAt(p) && (parent != null ==> (dir == LEFT <==> p.InLeft?))
      ensures (forall x :: x in Before(p) ==> !less(node, x)) && (forall x :: x in After(p) ==> less(node, x))
    {
      hide Cells, Ok, Keys, Before, After, Plug, Sorted;
      var x := root;
      ghost var t := shape;
      parent, dir, p := null, LEFT, Top;
      TopPlug(shape);
      assert root == RootOf(shape) by { RootIs(Snap(repr), shape, root); }
      while x != null
        invariant Plug(p, t) == shape && Ok(Snap(repr), Plug(p, t), root) && x == RootOf(t)
        invariant parent == ParentAt(p) && (parent != null ==> (dir == LEFT <==> p.InLeft?))
        invariant (forall x :: x in Before(p) ==> !less(node, x)) && (forall x :: x in After(p) ==> less(node, x))
        decreases t
      {
        HeapNode(repr, p, t, root);
        SlotStep(less, repr, node, p, t);
        if less(node, x) {
          PlugInLeft(p, x, t.right, t.height, t.left);
          dir, parent, p, t, x := LEFT, x, InLeft(p, x, t.right, t.height), t.left, x.left;
        } else {
          PlugInRight(t.left, x, p, t.height, t.right);
          dir, parent, p, t, x := RIGHT, x, InRight(t.left, x, p, t.height), t.right, x.right;
        }
      }
    }

    /** TypedAVLTree::insert: after all nodes that it does not precede. */
    method Insert(node: AVLNode, less: (AVLNode, AVLNode) -> bool) returns (ghost p: Path)
      requires Valid() && node !in repr && Ordering(less, repr + {node}) && Sorted(less, Keys(shape))
      modifies this, repr, node
      ensures Valid() && repr == old(repr) + {node} && Sorted(less, Keys(shape))
      ensures Keys(shape) == Before(p) + [node] + After(p) && old(Keys(shape)) == Before(p) + After(p)
      ensures (forall x :: x in Before(p) ==> !less(node, x)) && (forall x :: x in After(p) ==> less(node, x))
      ensures old(Exact(shape)) ==> Exact(shape)
    {
      hide Cells, Ok, Keys, Before, After, Plug, Sorted, Exact;
      var parent, dir;
      parent, dir, p := FindSlot(node, less);
      InsertKeys(p, node);
      NodesAround(p, Nil);
      SortedInsert(less, repr + {node}, Before(p), node, After(p));
      InsertAt(parent, dir, node, p);
    }

    // ---- removal -----------------------------------------------------------------------------------

    /** At most one child: it takes the place of node. */
    method RemoveEasy(node: AVLNode, parent: AVLNode?, me: Dir, ghost p: Path, ghost t: Tree, ghost s: set<AVLNode>)
      requires t.Bin? && (t.left.Nil? || t.right.Nil?) && Ok(Snap(s), Plug(p, t), root) && node == t.key
      requires parent == ParentAt(p) && (parent != null ==> (me == LEFT <==> p.InLeft?))
      modifies this`root, s`left, s`right, s`parent, s`height
      ensures Ok(Snap(s), AvlTree.Remove(p, t), root)
    {
      hide Cells, Ok, Plug, Up;
      HeapNode(s, p, t, root);
      ghost var c := if t.left.Nil? then t.right else t.left;
      PromotedAt(Snap(s), p, t, c, root);
      var z := node.left;
      if z == null {
        z := node.right;
      }
      if z != null {
        SetParent(z, parent, s);
      }
      Hook(parent, me, z, s);
      if parent != null {
        Fixup(parent, p, c, s);
      } else {
        RootPlace(p, c);
      }
    }

    /** The right child has no left child and takes the place of node. */
    method RemoveNear(node: AVLNode, z: AVLNode, parent: AVLNode?, me: Dir, ghost p: Path, ghost t: Tree,
                      ghost s: set<AVLNode>)
      requires t.Bin? && t.left.Bin? && t.right.Bin? && t.right.left.Nil? && Ok(Snap(s), Plug(p, t), root)
        && node == t.key && z == t.right.key
      requires parent == ParentAt(p) && (parent != null ==> (me == LEFT <==> p.InLeft?))
      modifies this`root, s`left, s`right, s`parent, s`height
      ensures Ok(Snap(s), AvlTree.Remove(p, t), root)
    {
      hide Cells, Ok, Plug, Snap, Up, Succeeded;
      HeapNode(s, p, t, root);
      SucceededAt(Snap(s), p, t, root);
      Succeed(node, z, parent, me, p, s);
      ghost var q := InLeft(p, z, t.right.right, t.right.height);
      PlugInLeft(p, z, t.right.right, t.right.height, t.left);
      Fixup(z, q, t.left, s);
    }

    method Succeed(node: AVLNode, z: AVLNode, parent: AVLNode?, me: Dir, ghost p: Path, ghost s: set<AVLNode>)
      requires var m, x := Snap(s), node;
        && x in m && z in m && x != z && m[x].left != null && m[x].left in m && m[x].left != z
          && (ParentAt(p) == null || ParentAt(p) in m)
      requires parent == ParentAt(p) && (parent != null ==> (me == LEFT <==> p.InLeft?))
      modifies this`root, s`left, s`right, s`parent
      ensures Snap(s) == Succeeded(old(Snap(s)), p, node, z) && root == NewRoot(p, z, old(root))
    {
      hide Cells;
      SnapKeys(s);
      SetParent(z, parent, s);
      SetLeft(z, node.left, s);
      SetParent(z.left, z, s);
      Hook(parent, me, z, s);
    }

    /** The leftmost node below the right child, which has a left child. */
    method FindSuccessor(node: AVLNode, ghost p: Path, ghost t: Tree) returns (z: AVLNode)
      requires Ok(Snap(repr), Plug(p, t), root) && t.Bin? && node == t.key && t.left.Bin?
      ensures z == Leftmost(t).key
    {
      hide Cells, Ok;
      ghost var q, u := InLeft(p, t.key, t.right, t.height), t.left;
      HeapNode(repr, p, t, root);
      z := node.left;
      HeapNode(repr, q, u, root);
      while z.left != null
        invariant u.Bin? && z == u.key && Ok(Snap(repr), Plug(q, u), root) && Leftmost(u) == Leftmost(t)
        invariant z.left == RootOf(u.left)
        decreases u
      {
        q, u := InLeft(q, u.key, u.right, u.height), u.left;
        z := z.left;
        HeapNode(repr, q, u, root);
      }
    }

    /** The successor z, which is further down, is cut out and takes the place of node. */
    method RemoveDeep(node: AVLNode, z: AVLNode, parent: AVLNode?, me: Dir, ghost p: Path, ghost t: Tree,
                      ghost s: set<AVLNode>)
      requires t.Bin? && t.left.Bin? && t.right.Bin? && t.right.left.Bin? && Ok(Snap(s), Plug(p, t), root)
        && node == t.key
      requires z == Leftmost(t.right).key && parent == ParentAt(p) && (parent != null ==> (me == LEFT <==> p.InLeft?))
      modifies this`root, s`left, s`right, s`parent, s`height
      ensures Ok(Snap(s), AvlTree.Remove(p, t), root)
    {
      hide Cells, Ok, Plug, Up, Down, Leftmost, Cut, Replaced;
      ghost var m, r := Snap(s), root;
      ReplacedAt(m, p, t, r);
      DeepPath(m, p, t, r);
      SnapAt(s, z);
      var y := z.parent;
      Replace(node, z, y, parent, me, p, s);
      Fixup(y, Down(InRight(t.left, z, p, Leftmost(t.right).height), t.right), Leftmost(t.right).right, s);
    }

    /** The pointer assignments of that case. */
    method Replace(node: AVLNode, z: AVLNode, y: AVLNode, parent: AVLNode?, me: Dir, ghost p: Path,
                   ghost s: set<AVLNode>)
      requires var m, x := Snap(s), node;
        && x in m && z in m && y in m && x != z && y != x && y != z && (m[z].right == null || m[z].right in m)
        && m[x].left != null && m[x].left in m && m[x].right != null && m[x].right in m
          && (ParentAt(p) == null || ParentAt(p) in m)
        && m[z].right != x && m[z].right != z && m[x].left != x && m[x].right != x && m[x].left != z && m[x].right != z
        && ParentAt(p) != x && ParentAt(p) != z
      requires parent == ParentAt(p) && (parent != null ==> (me == LEFT <==> p.InLeft?))
      modifies this`root, s`left, s`right, s`parent
      ensures Snap(s) == Replaced(old(Snap(s)), p, node, z, y) && root == NewRoot(p, z, old(root))
    {
      hide Cells, Installed;
      SnapKeys(s);
      CutOut(z, y, s);
      InstallAt(node, z, parent, me, p, s);
    }

    method CutOut(z: AVLNode, y: AVLNode, ghost s: set<AVLNode>)
      requires z in Snap(s) && y in Snap(s) && y != z && (Snap(s)[z].right == null || Snap(s)[z].right in Snap(s))
      modifies s`left, s`parent
      ensures Snap(s) == Unlinked(old(Snap(s)), z, y)
    {
      hide Cells;
      SnapKeys(s);
      SetLeft(y, z.right, s);
      if y.left != null {
        SetParent(y.left, y, s);
      }
    }

    method InstallAt(node: AVLNode, z: AVLNode, parent: AVLNode?, me: Dir, ghost p: Path, ghost s: set<AVLNode>)
      requires var m, x := Snap(s), node;
        && x in m && z in m && x != z && m[x].left != null && m[x].left in m && m[x].right != null && m[x].right in m
        && (ParentAt(p) == null || ParentAt(p) in m) && ParentAt(p) != x && m[x].left != x
      requires parent == ParentAt(p) && (parent != null ==> (me == LEFT <==> p.InLeft?))
      modifies this`root, s`left, s`right, s`parent
      ensures Snap(s) == Installed(old(Snap(s)), p, node, z) && root == NewRoot(p, z, old(root))
    {
      hide Cells;
      SnapKeys(s);
      SetParent(z, parent, s);
      Hook(parent, me, z, s);
      SetLeft(z, node.left, s);
      SetParent(z.left, z, s);
      SetRight(z, node.right, s);
      SetParent(z.right, z, s);
    }

    /** AVLTree::remove; p is the position of the node, t the tree there. */
    method Remove(node: AVLNode) returns (ghost p: Path, ghost t: Tree)
      requires Valid() && node in repr
      modifies this, repr
      ensures t.Bin? && t.key == node && Plug(p, t) == old(shape)
      ensures Valid() && repr == old(repr) - {node}
      ensures shape == AvlTree.Remove(p, t) && Keys(shape) == Before(p) + Keys(t.left) + Keys(t.right) + After(p)
      ensures old(Exact(shape)) ==> (Exact(shape) <==> !Spoils(p, t))
    {
      hide Cells, Ok, Keys, Before, After, Plug, Up, Exact, Snap, AvlTree.Remove, Spoils, Leftmost;
      p, t := Locate(Top, shape, node);
      TopPlug(shape);
      ghost var s, t' := repr, AvlTree.Remove(p, t);
      if Exact(shape) { RemoveExact(p, t); }
      RemoveKeys(p, t);
      NodesRemoved(Snap(s), p, t, root);
      HeapNode(s, p, t, root);
      var parent := node.parent;
      var me := if parent != null && parent.left != node then RIGHT else LEFT;
      if node.left == null || node.right == null {
        RemoveEasy(node, parent, me, p, t, s);
      } else {
        var z := node.right;
        ghost var q := InRight(t.left, t.key, p, t.height);
        PlugInRight(t.left, t.key, p, t.height, t.right);
        HeapNode(s, q, t.right, root);
        if z.left == null {
          RemoveNear(node, z, parent, me, p, t, s);
        } else {
          z := FindSuccessor(z, q, t.right);
          RemoveDeep(node, z, parent, me, p, t, s);
        }
      }
      Forgotten(s, node, t', root);
      shape, repr := t', s - {node};
    }
  }

  ghost function Nodes(t: Tree): set<AVLNode>
  {
    set x | x in Keys(t)
  }

  lemma NodesAround(p: Path, t: Tree)
    ensures forall x :: x in Nodes(Plug(p, t)) <==> x in Before(p) || x in Keys(t) || x in After(p)
  {
    hide Keys, Before, After, Plug;
    PlugParts(p, t);
  }

  lemma NodesInserted(p: Path, node: AVLNode)
    ensures Nodes(AvlTree.InsertAt(p, node)) == Nodes(Plug(p, Nil)) + {node}
  {
    hide Keys, Before, After, Plug;
    InsertKeys(p, node);
  }

  /** At the root, the loop has nothing to do. */
  lemma RootPlace(p: Path, u: Tree)
    requires ParentAt(p) == null
    ensures Plug(p, u) == u && Up(p, u) == u
  {
  }

  /** The node above a position, as a tree. */
  ghost function Enclosing(p: Path, u: Tree): Tree
    requires !p.Top?
  {
    match p
    case InLeft(_, k, r, h) => Bin(u, k, r, h)
    case InRight(l, k, _, h) => Bin(l, k, u, h)
  }

  lemma PlugInLeft(p: Path, k: AVLNode, r: Tree, h: nat, l: Tree)
    ensures Plug(InLeft(p, k, r, h), l) == Plug(p, Bin(l, k, r, h))
    ensures Up(InLeft(p, k, r, h), l) == Fixup(p, Bin(l, k, r, h))
  {
  }

  lemma PlugInRight(l: Tree, k: AVLNode, p: Path, h: nat, r: Tree)
    ensures Plug(InRight(l, k, p, h), r) == Plug(p, Bin(l, k, r, h))
  {
  }

  /** Where the loop starts when the successor was further down. */
  lemma DeepPath(m: Mem, p: Path, t: Tree, root: AVLNode?)
    requires t.Bin? && t.left.Bin? && t.right.Bin? && t.right.left.Bin? && Ok(m, Plug(p, t), root)
    ensures var z := Leftmost(t.right);
      var q := Down(InRight(t.left, z.key, p, z.height), t.right);
      && z.key in m && ParentAt(q) == m[z.key].parent
      && Plug(q, z.right) == Plug(p, Bin(t.left, z.key, Cut(t.right), z.height))
      && AvlTree.Remove(p, t) == Up(q, z.right)
  {
    hide NoRepeat, Keys, Before, After, PathHeld, Cut, Down, Leftmost, Up;
    OkAt(m, p, t, root);
    assert NoRepeat(Keys(t.right)) by { NoRepeatBin(t); }
    var z := Leftmost(t.right);
    var q := InRight(t.left, z.key, p, z.height);
    LeftmostHeld(m, q, t.right, t.key);
    CutPlug(q, t.right);
  }

  lemma NodesRemoved(m: Mem, p: Path, t: Tree, root: AVLNode?)
    requires t.Bin? && Ok(m, Plug(p, t), root)
    ensures Nodes(AvlTree.Remove(p, t)) == Nodes(Plug(p, t)) - {t.key}
  {
    hide NoRepeat, Before, After, Plug, AvlTree.Remove;
    RemoveKeys(p, t);
    PlugKeys(p, t);
    OkAt(m, p, t, root);
    NoRepeatBin(t);
    assert t.key in Keys(t);
    OneLess(Before(p), Keys(t.left), t.key, Keys(t.right), After(p));
  }

  lemma OneLess(a: seq<AVLNode>, l: seq<AVLNode>, k: AVLNode, r: seq<AVLNode>, b: seq<AVLNode>)
    requires k !in a && k !in l && k !in r && k !in b
    ensures (set x | x in a + l + r + b) == (set x | x in a + (l + [k] + r) + b) - {k}
  {
  }

  /** The removed node is no part of the tree. */
  lemma Forgotten(s: set<AVLNode>, node: AVLNode, t: Tree, root: AVLNode?)
    requires Ok(Snap(s), t, root) && Nodes(t) == s - {node}
    ensures Ok(Snap(s - {node}), t, root)
  {
    hide Cells, NoRepeat, Keys;
    HeldFrame(Snap(s), Snap(s - {node}), t, null);
  }

  lemma RootIs(m: Mem, t: Tree, root: AVLNode?)
    requires Ok(m, t, root)
    ensures root == RootOf(t)
  {
  }

  lemma TopPlug(t: Tree)
    ensures Plug(Top, t) == t && Before(Top) == [] && After(Top) == []
  {
  }

  /** Where in t, which is at q, node x is. */
  lemma {:induction false} Locate(q: Path, t: Tree, x: AVLNode) returns (p: Path, u: Tree)
    requires x in Keys(t)
    ensures u.Bin? && u.key == x && Plug(p, u) == Plug(q, t)
    decreases t
  {
    if t.key == x {
      p, u := q, t;
    } else if x in Keys(t.left) {
      p, u := Locate(InLeft(q, t.key, t.right, t.height), t.left, x);
    } else {
      p, u := Locate(InRight(t.left, t.key, q, t.height), t.right, x);
    }
  }

  // ---- the order of a comparator -------------------------------------------------------------------

  /** On the nodes s, the comparator is a strict weak order, as for std::less. */
  ghost predicate Ordering(less: (AVLNode, AVLNode) -> bool, s: set<AVLNode>)
  {
    && (forall x, y :: x in s && y in s && less(x, y) ==> !less(y, x))
    && (forall x, y, z :: x in s && y in s && z in s && !less(x, y) && !less(y, z) ==> !less(x, z))
  }

  ghost predicate Sorted(less: (AVLNode, AVLNode) -> bool, q: seq<AVLNode>)
  {
    forall i, j :: 0 <= i < j < |q| ==> !less(q[j], q[i])
  }

  lemma SortedJoin(less: (AVLNode, AVLNode) -> bool, a: seq<AVLNode>, b: seq<AVLNode>)
    ensures Sorted(less, a + b) <==>
      Sorted(less, a) && Sorted(less, b) && forall x, y :: x in a && y in b ==> !less(y, x)
  {
    var q := a + b;
    if Sorted(less, q) {
      forall i, j | 0 <= i < j < |b|
        ensures !less(b[j], b[i])
      {
        assert q[|a| + i] == b[i] && q[|a| + j] == b[j];
      }
      forall i, j | 0 <= i < j < |a|
        ensures !less(a[j], a[i])
      {
        assert q[i] == a[i] && q[j] == a[j];
      }
      forall i, j | 0 <= i < |a| && 0 <= j < |b|
        ensures !less(b[j], a[i])
      {
        assert q[i] == a[i] && q[|a| + j] == b[j];
      }
    }
    if Sorted(less, a) && Sorted(less, b) && forall x, y :: x in a && y in b ==> !less(y, x) {
      forall i, j | 0 <= i < j < |q|
        ensures !less(q[j], q[i])
      {
        if i < |a| <= j { assert q[i] in a && q[j] == b[j - |a|] && q[j] in b; }
      }
    }
  }

  lemma SortedInsert(less: (AVLNode, AVLNode) -> bool, s: set<AVLNode>, a: seq<AVLNode>, node: AVLNode, b: seq<AVLNode>)
    requires Sorted(less, a + b) && Ordering(less, s) && node in s && (forall x :: x in a || x in b ==> x in s)
    requires (forall x :: x in a ==> !less(node, x)) && (forall x :: x in b ==> less(node, x))
    ensures Sorted(less, a + [node] + b)
  {
    hide Sorted;
    SortedJoin(less, a, b);
    assert Sorted(less, [node]) by { SortedOne(less, node); }
    SortedJoin(less, a, [node]);
    SortedJoin(less, a + [node], b);
  }

  lemma SortedOne(less: (AVLNode, AVLNode) -> bool, node: AVLNode)
    ensures Sorted(less, [node])
  {
  }

  /** Left of t.key nothing comes after it, right of it nothing before it. */
  lemma SidesOf(less: (AVLNode, AVLNode) -> bool, s: set<AVLNode>, p: Path, t: Tree)
    requires t.Bin? && s == Nodes(Plug(p, t)) && Sorted(less, Keys(Plug(p, t)))
    ensures t.key in s && (forall x :: x in Keys(t.left) ==> x in s && !less(t.key, x))
    ensures forall x :: x in Keys(t.right) ==> x in s && !less(x, t.key)
  {
    hide Sorted, Plug, Before, After;
    PlugKeys(p, t);
    NodesAround(p, t);
    SortedJoin(less, Before(p) + Keys(t), After(p));
    SortedJoin(less, Before(p), Keys(t));
    SortedJoin(less, Keys(t.left) + [t.key], Keys(t.right));
    SortedJoin(less, Keys(t.left), [t.key]);
    assert t.key in Keys(t.left) + [t.key] && t.key in [t.key] && t.key in Keys(t);
    assert forall x :: x in Keys(t.left) || x in Keys(t.right) ==> x in Keys(t);
  }

  /** What does not come before y, which does not come before z, does not come before z. */
  lemma NotBefore(less: (AVLNode, AVLNode) -> bool, s: set<AVLNode>, x: AVLNode, y: AVLNode, z: AVLNode)
    requires Ordering(less, s) && x in s && y in s && z in s && !less(x, y) && !less(y, z)
    ensures !less(x, z)
  {
  }

  /** One step of the descent keeps node between what is before and what is after the place. */
  lemma SlotStep(less: (AVLNode, AVLNode) -> bool, s: set<AVLNode>, node: AVLNode, p: Path, t: Tree)
    requires t.Bin? && s == Nodes(Plug(p, t)) && Ordering(less, s + {node}) && Sorted(less, Keys(Plug(p, t)))
    requires (forall x :: x in Before(p) ==> !less(node, x)) && (forall x :: x in After(p) ==> less(node, x))
    ensures less(node, t.key) ==>
      var q := InLeft(p, t.key, t.right, t.height);
      (forall x :: x in Before(q) ==> !less(node, x)) && (forall x :: x in After(q) ==> less(node, x))
    ensures !less(node, t.key) ==>
      var q := InRight(t.left, t.key, p, t.height);
      (forall x :: x in Before(q) ==> !less(node, x)) && (forall x :: x in After(q) ==> less(node, x))
  {
    hide Sorted, Plug, Keys, Ordering, Nodes;
    SidesOf(less, s, p, t);
    if less(node, t.key) {
      forall x | x in Keys(t.right)
        ensures less(node, x)
      {
        if !less(node, x) { NotBefore(less, s + {node}, node, x, t.key); }
      }
    } else {
      forall x | x in Keys(t.left)
        ensures !less(node, x)
      {
        NotBefore(less, s + {node}, node, t.key, x);
      }
    }
  }
}
