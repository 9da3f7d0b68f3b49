/**
  The plain AVL tree on the heap (dsl/avlfixup.cc, include/dsl/avltree.h).

  Nodes are linked to their children and to their parent and store a height; `Held` says that
  the memory of the nodes draws a given tree, stored heights included.  What a change of single
  fields does to that tree is shown here; the methods are in `AvlOps`.
 */
module AvlHeap {
  import opened AvlTree
  import opened Basics

  /** The fields of one node, as a value. */
  datatype Cell = Cell(left: AVLNode?, right: AVLNode?, parent: AVLNode?, height: int)

  type Mem = map<AVLNode, Cell>

  /** What the heap holds for a set of nodes. */
  ghost function Snap(s: set<AVLNode>): (m: Mem)
    reads s`left, s`right, s`parent, s`height
  {
    Cells(s)
  }

  ghost function Cells(s: set<AVLNode>): (m: Mem)
    reads s`left, s`right, s`parent, s`height
    ensures m.Keys == s
    ensures forall n {:trigger m[n]} :: n in s ==> m[n] == Cell(n.left, n.right, n.parent, n.height)
  {
    if s == {} then map[]
    else
      var n :| n in s;
      Cells(s - {n})[n := Cell(n.left, n.right, n.parent, n.height)]
  }

  // ---- how a memory matches a tree ---------------------------------------------------------------

  ghost function RootOf(t: Tree): AVLNode?
  {
    if t.Nil? then null else t.key
  }

  ghost function ParentAt(p: Path): AVLNode?
  {
    match p
    case Top => null
    case InLeft(_, k, _, _) => k
    case InRight(_, k, _, _) => k
  }

  /** The root of a tree that has `hole` at position p. */
  ghost function TopOf(p: Path, hole: AVLNode?): AVLNode?
  {
    match p
    case Top => hole
    case InLeft(up, k, _, _) => TopOf(up, k)
    case InRight(_, k, up, _) => TopOf(up, k)
  }

  /** The memory draws t below the given parent. */
  ghost predicate Held(m: Mem, t: Tree, parent: AVLNode?)
  {
    match t
    case Nil => true
    case Bin(l, k, r, h) => k in m && m[k] == Cell(RootOf(l), RootOf(r), parent, h) && Held(m, l, k) && Held(m, r, k)
  }

  /** The memory draws the path p, with `hole` at its foot. */
  ghost predicate PathHeld(m: Mem, p: Path, hole: AVLNode?)
  {
    match p
    case Top => true
    case InLeft(up, k, r, h) =>
      k in m && m[k] == Cell(hole, RootOf(r), ParentAt(up), h) && Held(m, r, k) && PathHeld(m, up, k)
    case InRight(l, k, up, h) =>
      k in m && m[k] == Cell(RootOf(l), hole, ParentAt(up), h) && Held(m, l, k)
      && PathHeld(m, up, k)
  }

  lemma NoRepeatJoin(a: seq<AVLNode>, b: seq<AVLNode>)
    ensures NoRepeat(a + b) <==> NoRepeat(a) && NoRepeat(b) && forall x :: x in a ==> x !in b
  {
    var q := a + b;
    assert forall i :: 0 <= i < |a| ==> q[i] == a[i];
    assert forall j :: 0 <= j < |b| ==> q[|a| + j] == b[j];
    if NoRepeat(q) {
      forall i, j | 0 <= i < j < |b|
        ensures b[i] != b[j]
      {
        assert q[|a| + i] != q[|a| + j];
      }
      forall i, j | 0 <= i < |a| && 0 <= j < |b|
        ensures a[i] != b[j]
      {
        assert q[i] != q[|a| + j];
      }
    }
    if NoRepeat(a) && NoRepeat(b) && forall x :: x in a ==> x !in b {
      forall i, j | 0 <= i < j < |q|
        ensures q[i] != q[j]
      {
        if i < |a| <= j { assert a[i] in a && b[j - |a|] in b; }
      }
    }
  }

  /** The nodes of a tree are all different, and so are those of its parts. */
  lemma NoRepeatBin(t: Tree)
    requires t.Bin? && NoRepeat(Keys(t))
    ensures NoRepeat(Keys(t.left)) && NoRepeat(Keys(t.right)) && t.key !in Keys(t.left) && t.key !in Keys(t.right)
    ensures forall x :: x in Keys(t.left) ==> x !in Keys(t.right)
    ensures forall x :: x in Keys(t) <==> x in Keys(t.left) || x == t.key || x in Keys(t.right)
  {
    hide NoRepeat;
    NoRepeatJoin(Keys(t.left) + [t.key], Keys(t.right));
    NoRepeatJoin(Keys(t.left), [t.key]);
  }

  ghost predicate Agree(m: Mem, m': Mem, q: seq<AVLNode>)
  {
    forall x :: x in q && x in m ==> x in m' && m'[x] == m[x]
  }

  lemma {:induction false} HeldFrame(m: Mem, m': Mem, t: Tree, parent: AVLNode?)
    requires Held(m, t, parent) && Agree(m, m', Keys(t))
    ensures Held(m', t, parent)
    decreases t
  {
    if t.Bin? {
      HeldFrame(m, m', t.left, t.key);
      HeldFrame(m, m', t.right, t.key);
    }
  }

  /** A tree that was moved below another parent. */
  lemma HeldMoved(m: Mem, m': Mem, t: Tree, was: AVLNode?, parent: AVLNode?)
    requires Held(m, t, was) && NoRepeat(Keys(t))
    requires forall x :: x in Keys(t) && x in m ==>
      x in m' && m'[x] == if x == RootOf(t) then m[x].(parent := parent) else m[x]
    ensures Held(m', t, parent)
  {
    if t.Bin? {
      NoRepeatBin(t);
      HeldFrame(m, m', t.left, t.key);
      HeldFrame(m, m', t.right, t.key);
    }
  }

  lemma {:induction false} PathFrame(m: Mem, m': Mem, p: Path, hole: AVLNode?)
    requires PathHeld(m, p, hole) && Agree(m, m', Before(p)) && Agree(m, m', After(p))
    ensures PathHeld(m', p, hole)
    decreases p
  {
    hide Keys;
    match p
    case Top =>
    case InLeft(up, k, r, _) =>
      HeldFrame(m, m', r, k);
      PathFrame(m, m', up, k);
    case InRight(l, k, up, _) =>
      HeldFrame(m, m', l, k);
      PathFrame(m, m', up, k);
  }

  lemma {:induction false} HeldPlug(m: Mem, p: Path, t: Tree)
    ensures Held(m, Plug(p, t), null) <==> PathHeld(m, p, RootOf(t)) && Held(m, t, ParentAt(p))
    ensures RootOf(Plug(p, t)) == TopOf(p, RootOf(t))
    decreases p
  {
    match p
    case Top =>
    case InLeft(up, k, r, h) => HeldPlug(m, up, Bin(t, k, r, h));
    case InRight(l, k, up, h) => HeldPlug(m, up, Bin(l, k, t, h));
  }

  // ---- the updates -------------------------------------------------------------------------------

  ghost function HeightIn(m: Mem, n: AVLNode?): int
    requires n == null || n in m
  {
    if n == null then 0 else m[n].height
  }

  ghost predicate Closed(m: Mem, k: AVLNode)
  {
    k in m && (m[k].left == null || m[k].left in m) && (m[k].right == null || m[k].right in m)
  }

  function Larger(a: int, b: int): int
  {
    if a > b then a else b
  }

  /** `k->height = new_height (k)`. */
  ghost function Raised(m: Mem, k: AVLNode): Mem
    requires Closed(m, k)
  {
    m[k := m[k].(height := 1 + Larger(HeightIn(m, m[k].left), HeightIn(m, m[k].right)))]
  }

  ghost function Reparented(m: Mem, n: AVLNode?, p: AVLNode?): Mem
    requires n == null || n in m
  {
    if n == null then m else m[n := m[n].(parent := p)]
  }

  /** The nodes rotate() looks at are there and different. */
  ghost predicate Rotatable(m: Mem, x: AVLNode, left: bool)
  {
    && Closed(m, x)
    && var z := if left then m[x].right else m[x].left;
    && z != null && z != x && Closed(m, z)
    && m[x].left != x && m[x].right != x && m[z].left != x && m[z].right != x && m[z].left != z && m[z].right != z
  }

  /** All of rotate(). */
  ghost function Turned(m: Mem, x: AVLNode, left: bool): (m': Mem)
    requires Rotatable(m, x, left)
    ensures m'.Keys == m.Keys
  {
    var z := if left then m[x].right else m[x].left;
    var tmp := if left then m[z].left else m[z].right;
    var m1 := Reparented(m, tmp, x);
    var m2 := m1[x := if left then m1[x].(right := tmp) else m1[x].(left := tmp)];
    var m3 := Raised(m2, x);
    var m4 := m3[x := m3[x].(parent := z)];
    var m5 := m4[z := if left then m4[z].(left := x) else m4[z].(right := x)];
    Raised(m5, z)
  }

  /** rotate(), field by field. */
  lemma TurnedCells(m: Mem, x: AVLNode, left: bool)
    requires Rotatable(m, x, left)
    ensures var z := if left then m[x].right else m[x].left;
      var tmp := if left then m[z].left else m[z].right;
      var far := if left then m[z].right else m[z].left;
      var m' := Turned(m, x, left);
      var h := 1 + if left then Larger(HeightIn(m, m[x].left), HeightIn(m, tmp))
        else Larger(HeightIn(m, tmp), HeightIn(m, m[x].right));
      && m'[x] == (if left then Cell(m[x].left, tmp, z, h) else Cell(tmp, m[x].right, z, h))
      && m'[z] == (if left then Cell(x, far, m[z].parent, 1 + Larger(h, HeightIn(m, far)))
                   else Cell(far, x, m[z].parent, 1 + Larger(HeightIn(m, far), h)))
      && (tmp != null ==> m'[tmp] == m[tmp].(parent := x))
      && (forall y :: y in m && y != x && y != z && y != tmp ==> m'[y] == m[y])
  {
  }

  lemma HeldRoot(m: Mem, t: Tree, parent: AVLNode?)
    requires Held(m, t, parent)
    ensures RootOf(t) == null || (RootOf(t) in m && RootOf(t) in Keys(t))
    ensures HeightIn(m, RootOf(t)) == H(t)
  {
  }

  predicate CanTurn(t: Tree, left: bool)
  {
    t.Bin? && if left then t.right.Bin? else t.left.Bin?
  }

  function Turn(t: Tree, left: bool): Tree
    requires CanTurn(t, left)
  {
    if left then RotateLeft(t) else RotateRight(t)
  }

  /** Three trees whose nodes, and x and z, are all different. */
  ghost predicate Parts(a: Tree, b: Tree, c: Tree, x: AVLNode, z: AVLNode)
  {
    && x != z && NoRepeat(Keys(b))
    && (forall y :: y in Keys(a) ==> y != x && y != z && y !in Keys(b))
    && (forall y :: y in Keys(b) ==> y != x && y != z)
    && (forall y :: y in Keys(c) ==> y != x && y != z && y !in Keys(b))
  }

  lemma PartsOf(t: Tree, left: bool)
    requires CanTurn(t, left) && NoRepeat(Keys(t))
    ensures left ==> Parts(t.left, t.right.left, t.right.right, t.key, t.right.key)
    ensures !left ==> Parts(t.left.left, t.left.right, t.right, t.key, t.left.key)
    ensures t.key in Keys(t) && (if left then t.right.key in Keys(t) else t.left.key in Keys(t))
    ensures forall y :: y in Keys(if left then t.right.left else t.left.right) ==> y in Keys(t)
  {
    hide NoRepeat;
    NoRepeatBin(t);
    if left {
      NoRepeatBin(t.right);
    } else {
      NoRepeatBin(t.left);
    }
  }

  /** A rotation leaves the outer parts alone and moves the middle one below x. */
  lemma PartsKept(m: Mem, m': Mem, a: Tree, pa: AVLNode, b: Tree, c: Tree, pc: AVLNode, x: AVLNode, z: AVLNode)
    requires Parts(a, b, c, x, z) && Held(m, a, pa) && Held(m, b, z) && Held(m, c, pc)
    requires RootOf(b) != null ==> RootOf(b) in m && RootOf(b) in m' && m'[RootOf(b)] == m[RootOf(b)].(parent := x)
    requires forall y :: y in m && y != x && y != z && y != RootOf(b) ==> y in m' && m'[y] == m[y]
    ensures Held(m', a, pa) && Held(m', b, x) && Held(m', c, pc)
  {
    hide Keys, NoRepeat;
    HeldRoot(m, b, z);
    HeldFrame(m, m', a, pa);
    HeldFrame(m, m', c, pc);
    HeldMoved(m, m', b, z, x);
  }

  /** rotate() on memory is the rotation of the tree; only the new root's parent is stale. */
  lemma TurnedLeft(m: Mem, t: Tree, parent: AVLNode?)
    requires CanTurn(t, true) && Held(m, t, parent) && NoRepeat(Keys(t))
    ensures Rotatable(m, t.key, true)
    ensures var m' := Turned(m, t.key, true);
      Held(m', RotateLeft(t), t.key) && forall y :: y in m && y !in Keys(t) ==> m'[y] == m[y]
  {
    hide Keys, NoRepeat, Turned;
    var x, z, a, b, c := t.key, t.right.key, t.left, t.right.left, t.right.right;
    PartsOf(t, true);
    HeldRoot(m, a, x);
    HeldRoot(m, b, z);
    HeldRoot(m, c, z);
    TurnedCells(m, x, true);
    PartsKept(m, Turned(m, x, true), a, x, b, c, z, x, z);
  }

  lemma TurnedRight(m: Mem, t: Tree, parent: AVLNode?)
    requires CanTurn(t, false) && Held(m, t, parent) && NoRepeat(Keys(t))
    ensures Rotatable(m, t.key, false)
    ensures var m' := Turned(m, t.key, false);
      Held(m', RotateRight(t), t.key) && forall y :: y in m && y !in Keys(t) ==> m'[y] == m[y]
  {
    hide Keys, NoRepeat, Turned;
    var x, z, a, b, c := t.key, t.left.key, t.left.left, t.left.right, t.right;
    PartsOf(t, false);
    HeldRoot(m, a, z);
    HeldRoot(m, b, z);
    HeldRoot(m, c, x);
    TurnedCells(m, x, false);
    PartsKept(m, Turned(m, x, false), a, z, b, c, x, x, z);
  }

  lemma TurnKeep(t: Tree, left: bool)
    requires CanTurn(t, left)
    ensures Keys(Turn(t, left)) == Keys(t)
  {
    if left {
      TurnKeys(t.left, t.key, t.right.left, t.right.key, t.right.right);
    } else {
      TurnKeys(t.left.left, t.left.key, t.left.right, t.key, t.right);
    }
  }

  lemma TurnedHeld(m: Mem, t: Tree, parent: AVLNode?, left: bool)
    requires CanTurn(t, left) && Held(m, t, parent) && NoRepeat(Keys(t))
    ensures Rotatable(m, t.key, left)
    ensures var m' := Turned(m, t.key, left);
      Held(m', Turn(t, left), t.key) && forall y :: y in m && y !in Keys(t) ==> m'[y] == m[y]
  {
    hide Held, Keys, Turned, NoRepeat;
    if left { TurnedLeft(m, t, parent); } else { TurnedRight(m, t, parent); }
  }

  // ---- positions -----------------------------------------------------------------------------------

  /** The nodes at a position and those around it are different. */
  lemma PlugParts(p: Path, t: Tree)
    ensures NoRepeat(Keys(Plug(p, t))) <==>
      && NoRepeat(Keys(t)) && NoRepeat(Before(p) + After(p))
      && forall x :: x in Keys(t) ==> x !in Before(p) && x !in After(p)
    ensures forall x :: x in Keys(Plug(p, t)) <==> x in Before(p) || x in Keys(t) || x in After(p)
  {
    hide NoRepeat, Keys, Before, After, Plug;
    PlugKeys(p, t);
    var a, k, b := Before(p), Keys(t), After(p);
    NoRepeatJoin(a + k, b);
    NoRepeatJoin(a, k);
    NoRepeatJoin(a, b);
  }

  /** A parent occurs once on the path. */
  lemma ParentOnce(p: Path)
    requires !p.Top? && NoRepeat(Before(p) + After(p))
    ensures p.key in Before(p) || p.key in After(p)
    ensures p.key !in Keys(Sibling(p)) && p.key !in Before(p.up) && p.key !in After(p.up)
    ensures forall x :: x in Keys(Sibling(p)) || x in Before(p.up) || x in After(p.up) ==>
      x in Before(p) || x in After(p)
  {
    hide NoRepeat, Keys;
    NoRepeatJoin(Before(p), After(p));
    if p.InLeft? {
      NoRepeatJoin([p.key] + Keys(p.right), After(p.up));
      NoRepeatJoin([p.key], Keys(p.right));
    } else {
      NoRepeatJoin(Before(p.up) + Keys(p.left), [p.key]);
    }
  }

  ghost function Hooked(m: Mem, parent: AVLNode?, left: bool, z: AVLNode?): Mem
    requires parent == null || parent in m
  {
    if parent == null then m else m[parent := if left then m[parent].(left := z) else m[parent].(right := z)]
  }

  /** Another subtree is hooked in at the foot of the path. */
  lemma PathHooked(m: Mem, m': Mem, p: Path, was: AVLNode?, z: AVLNode?)
    requires PathHeld(m, p, was) && NoRepeat(Before(p) + After(p))
    requires forall x :: (x in Before(p) || x in After(p)) && x in m ==>
      x in m' && m'[x] == if x != ParentAt(p) then m[x] else if p.InLeft? then m[x].(left := z) else m[x].(right := z)
    ensures PathHeld(m', p, z)
  {
    hide NoRepeat, Keys;
    if !p.Top? {
      ParentOnce(p);
      hide Before, After;
      PathFrame(m, m', p.up, p.key);
      HeldFrame(m, m', Sibling(p), p.key);
    }
  }

  lemma PathThere(m: Mem, p: Path, hole: AVLNode?)
    requires PathHeld(m, p, hole)
    ensures ParentAt(p) == null || ParentAt(p) in m
  {
  }

  ghost predicate Ok(m: Mem, t: Tree, root: AVLNode?)
  {
    Held(m, t, null) && NoRepeat(Keys(t)) && root == RootOf(t)
  }

  /** What is held at a position. */
  lemma OkAt(m: Mem, p: Path, t: Tree, root: AVLNode?)
    requires Ok(m, Plug(p, t), root)
    ensures PathHeld(m, p, RootOf(t)) && Held(m, t, ParentAt(p)) && root == TopOf(p, RootOf(t))
    ensures NoRepeat(Keys(t)) && NoRepeat(Before(p) + After(p))
    ensures forall x :: x in Keys(t) ==> x !in Before(p) && x !in After(p)
    ensures ParentAt(p) == null || (ParentAt(p) in m && ParentAt(p) !in Keys(t)
      && (ParentAt(p) in Before(p) || ParentAt(p) in After(p)))
  {
    hide NoRepeat, Keys, Before, After, Plug;
    HeldPlug(m, p, t);
    PlugParts(p, t);
    PathThere(m, p, RootOf(t));
    if !p.Top? { ParentOnce(p); }
  }

  lemma OkFrom(m: Mem, p: Path, t: Tree, root: AVLNode?)
    requires PathHeld(m, p, RootOf(t)) && Held(m, t, ParentAt(p)) && root == TopOf(p, RootOf(t))
    requires NoRepeat(Keys(t)) && NoRepeat(Before(p) + After(p)) && forall x :: x in Keys(t) ==>
      x !in Before(p) && x !in After(p)
    ensures Ok(m, Plug(p, t), root)
  {
    hide NoRepeat, Keys, Before, After, Plug;
    HeldPlug(m, p, t);
    PlugParts(p, t);
  }

  /** The root after something else is hooked in at p. */
  ghost function NewRoot(p: Path, z: AVLNode?, root: AVLNode?): AVLNode?
  {
    if p.Top? then z else root
  }

  lemma TopOfChanged(p: Path, was: AVLNode?, z: AVLNode?)
    ensures TopOf(p, z) == NewRoot(p, z, TopOf(p, was))
  {
  }

  /** A rotation at p, with its result hooked in. */
  lemma TurnedAt(m: Mem, p: Path, t: Tree, root: AVLNode?, left: bool)
    requires CanTurn(t, left) && Ok(m, Plug(p, t), root)
    ensures Rotatable(m, t.key, left) && (ParentAt(p) == null || ParentAt(p) in m)
    ensures var z := Turn(t, left).key;
      && z in m
      && Ok(Hooked(Reparented(Turned(m, t.key, left), z, ParentAt(p)), ParentAt(p), p.InLeft?, z),
        Plug(p, Turn(t, left)), NewRoot(p, z, root))
  {
    hide NoRepeat, Keys, Before, After, Plug, Turned, Turn, Rotatable, Held, PathHeld, TopOf;
    OkAt(m, p, t, root);
    TurnedHeld(m, t, ParentAt(p), left);
    TurnKeep(t, left);
    TurnKey(m, t, ParentAt(p), left);
    var u := Turn(t, left);
    var m1 := Turned(m, t.key, left);
    var m2 := Hooked(Reparented(m1, u.key, ParentAt(p)), ParentAt(p), p.InLeft?, u.key);
    HeldMoved(m1, m2, u, t.key, ParentAt(p));
    PathHooked(m, m2, p, t.key, u.key);
    TopOfChanged(p, t.key, u.key);
    OkFrom(m2, p, u, NewRoot(p, u.key, root));
  }

  lemma TurnKey(m: Mem, t: Tree, parent: AVLNode?, left: bool)
    requires CanTurn(t, left) && Held(m, t, parent)
    ensures Turn(t, left).Bin? && Turn(t, left).key in m && Turn(t, left).key in Keys(t)
    ensures Turn(t, left).key == if left then t.right.key else t.left.key
  {
    BinKeys(t);
    if left { BinKeys(t.right); } else { BinKeys(t.left); }
  }

  /** `node->height = h`. */
  lemma RaisedAt(m: Mem, p: Path, t: Tree, root: AVLNode?, h: nat)
    requires t.Bin? && Ok(m, Plug(p, t), root)
    ensures t.key in m && Ok(m[t.key := m[t.key].(height := h)], Plug(p, t.(height := h)), root)
  {
    hide NoRepeat, Before, After, Plug, PathHeld, TopOf;
    OkAt(m, p, t, root);
    NoRepeatBin(t);
    var m' := m[t.key := m[t.key].(height := h)];
    HeldFrame(m, m', t.left, t.key);
    HeldFrame(m, m', t.right, t.key);
    PathFrame(m, m', p, t.key);
    OkFrom(m', p, t.(height := h), root);
  }

  /** Which child of its parent a node is. */
  lemma WhichChild(m: Mem, p: Path, t: Tree, root: AVLNode?)
    requires t.Bin? && Ok(m, Plug(p, t), root) && !p.Top?
    ensures p.key in m && (m[p.key].left == t.key <==> p.InLeft?)
  {
    hide NoRepeat, Plug, TopOf;
    OkAt(m, p, t, root);
    if p.InRight? {
      HeldRoot(m, p.left, p.key);
      assert t.key in Keys(t);
      assert Before(p) == Before(p.up) + Keys(p.left) + [p.key];
    }
  }

  /** A new leaf at p. */
  lemma LeafAt(m: Mem, m': Mem, p: Path, root: AVLNode?, node: AVLNode)
    requires Ok(m, Plug(p, Nil), root) && node !in Before(p) && node !in After(p)
    requires node in m' && m'[node] == Cell(null, null, ParentAt(p), 1)
    requires forall x :: (x in Before(p) || x in After(p)) && x in m ==>
      x in m' && m'[x] == if x != ParentAt(p) then m[x] else if p.InLeft? then m[x].(left := node)
        else m[x].(right := node)
    ensures Ok(m', Plug(p, Bin(Nil, node, Nil, 1)), NewRoot(p, node, root))
  {
    hide NoRepeat, Before, After, Plug, PathHeld, TopOf;
    OkAt(m, p, Nil, root);
    PathHooked(m, m', p, null, node);
    TopOfChanged(p, null, node);
    assert Keys(Bin(Nil, node, Nil, 1)) == [node];
    assert NoRepeat([node]) by { OneNode(node); }
    OkFrom(m', p, Bin(Nil, node, Nil, 1), NewRoot(p, node, root));
  }

  lemma OneNode(node: AVLNode)
    ensures NoRepeat([node])
  {
  }

  // ---- removal -------------------------------------------------------------------------------------

  /** A subtree c of t takes the place of t. */
  lemma PromotedAt(m: Mem, p: Path, t: Tree, c: Tree, root: AVLNode?)
    requires t.Bin? && Ok(m, Plug(p, t), root) && (c == t.left || c == t.right)
    ensures RootOf(c) == null || RootOf(c) in m
    ensures ParentAt(p) == null || ParentAt(p) in m
    ensures Ok(Hooked(Reparented(m, RootOf(c), ParentAt(p)), ParentAt(p), p.InLeft?, RootOf(c)), Plug(p, c),
      NewRoot(p, RootOf(c), root))
  {
    hide NoRepeat, Before, After, Plug, PathHeld, TopOf;
    OkAt(m, p, t, root);
    NoRepeatBin(t);
    HeldRoot(m, c, t.key);
    var m' := Hooked(Reparented(m, RootOf(c), ParentAt(p)), ParentAt(p), p.InLeft?, RootOf(c));
    HeldMoved(m, m', c, t.key, ParentAt(p));
    PathHooked(m, m', p, t.key, RootOf(c));
    TopOfChanged(p, t.key, RootOf(c));
    OkFrom(m', p, c, NewRoot(p, RootOf(c), root));
  }

  /** The right child z, which has no left child, takes the place of its parent x. */
  ghost function Succeeded(m: Mem, p: Path, x: AVLNode, z: AVLNode): Mem
    requires x in m && z in m && x != z && m[x].left != null && m[x].left in m && m[x].left != z
      && (ParentAt(p) == null || ParentAt(p) in m)
  {
    var m1 := m[z := m[z].(parent := ParentAt(p))];
    var m2 := m1[z := m1[z].(left := m1[x].left)];
    Hooked(Reparented(m2, m2[z].left, z), ParentAt(p), p.InLeft?, z)
  }

  lemma SucceededAt(m: Mem, p: Path, t: Tree, root: AVLNode?)
    requires t.Bin? && t.left.Bin? && t.right.Bin? && t.right.left.Nil? && Ok(m, Plug(p, t), root)
    ensures var x, z := t.key, t.right.key;
      && x in m && z in m && x != z && m[x].left == t.left.key && t.left.key in m && t.left.key != z
      && (ParentAt(p) == null || ParentAt(p) in m)
      && Ok(Succeeded(m, p, x, z), Plug(p, Bin(t.left, z, t.right.right, t.right.height)), NewRoot(p, z, root))
  {
    hide NoRepeat, Before, After, Plug, PathHeld, TopOf;
    OkAt(m, p, t, root);
    NoRepeatBin(t);
    NoRepeatBin(t.right);
    var x, z, l, r := t.key, t.right.key, t.left, t.right.right;
    HeldRoot(m, l, x);
    var m' := Succeeded(m, p, x, z);
    HeldMoved(m, m', l, x, z);
    HeldFrame(m, m', r, z);
    PathHooked(m, m', p, x, z);
    TopOfChanged(p, x, z);
    var u := Bin(l, z, r, t.right.height);
    assert Keys(u) == Keys(l) + [z] + Keys(r);
    assert NoRepeat(Keys(u)) by { NoRepeatJoin(Keys(l) + [z], Keys(r)); NoRepeatJoin(Keys(l), [z]); OneNode(z); }
    OkFrom(m', p, u, NewRoot(p, z, root));
  }

  /** r without its leftmost node. */
  function Cut(r: Tree): Tree
    requires r.Bin?
    decreases r
  {
    if r.left.Nil? then r.right else r.(left := Cut(r.left))
  }

  lemma {:induction false} CutPlug(q: Path, r: Tree)
    requires r.Bin?
    ensures Plug(Down(q, r), Leftmost(r).right) == Plug(q, Cut(r))
    decreases r
  {
    if r.left.Bin? { CutPlug(InLeft(q, r.key, r.right, r.height), r.left); }
  }

  lemma {:induction false} CutKeys(r: Tree)
    requires r.Bin?
    ensures Keys(r) == [Leftmost(r).key] + Keys(Cut(r))
    decreases r
  {
    hide Cut;
    BinKeys(r);
    if r.left.Bin? {
      CutKeys(r.left);
      CutLeft(r);
      var z, c := [Leftmost(r.left).key], Keys(Cut(r.left));
      assert (z + c) + [r.key] + Keys(r.right) == z + (c + [r.key] + Keys(r.right));
    } else {
      CutLeft(r);
    }
  }

  lemma CutLeft(r: Tree)
    requires r.Bin?
    ensures r.left.Bin? ==>
      Leftmost(r) == Leftmost(r.left) && Keys(Cut(r)) == Keys(Cut(r.left)) + [r.key] + Keys(r.right)
    ensures r.left.Nil? ==> Leftmost(r) == r && Cut(r) == r.right
  {
  }

  /** The nodes of r without its leftmost node. */
  lemma CutNodes(r: Tree)
    requires r.Bin? && NoRepeat(Keys(r))
    ensures NoRepeat(Keys(Cut(r))) && Leftmost(r).key !in Keys(Cut(r)) && Leftmost(r).key in Keys(r)
    ensures forall x :: x in Keys(Cut(r)) ==> x in Keys(r)
  {
    hide NoRepeat, Cut, Leftmost;
    CutKeys(r);
    NoRepeatJoin([Leftmost(r).key], Keys(Cut(r)));
  }

  /** The leftmost node z of r, its parent y and its right child, in memory. */
  lemma {:induction false} LeftmostHeld(m: Mem, q: Path, r: Tree, parent: AVLNode?)
    requires r.Bin? && r.left.Bin? && Held(m, r, parent) && NoRepeat(Keys(r))
    ensures var z := Leftmost(r);
      && z.key in m && m[z.key].left == null && m[z.key].right == RootOf(z.right) && m[z.key].height == z.height
      && var y := m[z.key].parent;
      && y != null && y in m && y in Keys(Cut(r)) && y == ParentAt(Down(q, r)) && y != RootOf(z.right)
        && r.key != RootOf(z.right)
      && (RootOf(z.right) == null || (RootOf(z.right) in m && RootOf(z.right) in Keys(Cut(r))))
    decreases r
  {
    hide NoRepeat;
    NoRepeatBin(r);
    if r.left.left.Nil? {
      HeldRoot(m, r.left.right, r.left.key);
      NoRepeatBin(r.left);
    } else {
      LeftmostHeld(m, InLeft(q, r.key, r.right, r.height), r.left, r.key);
      CutNodes(r.left);
    }
  }

  /** The left child, which has no left child itself, is cut out. */
  lemma CutHeldNear(m: Mem, m': Mem, r: Tree, parent: AVLNode?)
    requires r.Bin? && r.left.Bin? && r.left.left.Nil? && Held(m, r, parent) && NoRepeat(Keys(r))
    requires var c := RootOf(r.left.right);
      forall x :: (x == r.key || x in Keys(r.left.right) || x in Keys(r.right)) && x in m ==>
        x in m' && m'[x] == if x == r.key then m[x].(left := c) else if x == c then m[x].(parent := r.key) else m[x]
    ensures Held(m', Bin(r.left.right, r.key, r.right, r.height), parent)
  {
    hide NoRepeat;
    NoRepeatBin(r);
    NoRepeatBin(r.left);
    HeldMoved(m, m', r.left.right, r.left.key, r.key);
    HeldFrame(m, m', r.right, r.key);
  }

  /** The leftmost node z is cut out: its right child goes to its parent. */
  lemma {:induction false} CutHeld(m: Mem, m': Mem, r: Tree, parent: AVLNode?, y: AVLNode)
    requires r.Bin? && r.left.Bin? && Held(m, r, parent) && NoRepeat(Keys(r)) && Leftmost(r).key in m
      && y == m[Leftmost(r).key].parent
    requires var c := RootOf(Leftmost(r).right);
      forall x :: x in Keys(Cut(r)) && x in m ==>
        x in m' && m'[x] == if x == y then m[x].(left := c) else if x == c then m[x].(parent := y) else m[x]
    ensures Held(m', Cut(r), parent)
    decreases r
  {
    hide NoRepeat;
    NoRepeatBin(r);
    LeftmostHeld(m, Top, r, parent);
    assert Keys(Cut(r)) == Keys(Cut(r.left)) + [r.key] + Keys(r.right);
    CutNodes(r.left);
    if r.left.left.Nil? {
      CutHeldNear(m, m', r, parent);
    } else {
      LeftmostHeld(m, Top, r.left, r.key);
      CutHeld(m, m', r.left, r.key, y);
      HeldFrame(m, m', r.right, r.key);
    }
  }

  /** z is cut out from below y: its right child takes its place. */
  ghost function Unlinked(m: Mem, z: AVLNode, y: AVLNode): Mem
    requires z in m && y in m && (m[z].right == null || m[z].right in m)
  {
    Reparented(m[y := m[y].(left := m[z].right)], m[z].right, y)
  }

  /** z is cut out from below y, and takes the place of x with the subtrees of x. */
  ghost function Replaced(m: Mem, p: Path, x: AVLNode, z: AVLNode, y: AVLNode): Mem
    requires x in m && z in m && y in m && x != z && y != x && y != z && (m[z].right == null || m[z].right in m)
    requires m[x].left != null && m[x].left in m && m[x].right != null && m[x].right in m
      && (ParentAt(p) == null || ParentAt(p) in m)
    requires m[z].right != x && m[z].right != z && m[x].left != x && m[x].right != x && m[x].left != z
      && m[x].right != z && ParentAt(p) != x && ParentAt(p) != z
  {
    Installed(Unlinked(m, z, y), p, x, z)
  }

  /** z gets the place and the subtrees of x. */
  ghost function Installed(m: Mem, p: Path, x: AVLNode, z: AVLNode): Mem
    requires x in m && z in m && x != z && m[x].left != null && m[x].left in m && m[x].right != null && m[x].right in m
    requires (ParentAt(p) == null || ParentAt(p) in m) && ParentAt(p) != x && m[x].left != x
  {
    var m2 := Hooked(m[z := m[z].(parent := ParentAt(p))], ParentAt(p), p.InLeft?, z);
    var m3 := Reparented(m2[z := m2[z].(left := m2[x].left)], m2[x].left, z);
    Reparented(m3[z := m3[z].(right := m3[x].right)], m3[x].right, z)
  }

  /** The nodes that Replaced() looks at are there and different. */
  lemma ReplaceNodes(m: Mem, p: Path, t: Tree, root: AVLNode?)
    requires t.Bin? && t.left.Bin? && t.right.Bin? && t.right.left.Bin? && Ok(m, Plug(p, t), root)
    ensures var x, z := t.key, Leftmost(t.right).key;
      && x in m && z in m && x != z && m[x].left == t.left.key && m[x].right == t.right.key
        && m[x].parent == ParentAt(p)
      && t.left.key in m && t.right.key in m && t.left.key != x && t.right.key != x && t.left.key != z
        && t.right.key != z
      && (ParentAt(p) == null || ParentAt(p) in m) && ParentAt(p) != x && ParentAt(p) != z
      && m[z].right == RootOf(Leftmost(t.right).right) && (m[z].right == null || m[z].right in m) && m[z].right != x
        && m[z].right != z
      && var y, c := m[z].parent, m[z].right;
      && y != null && y in m && y != x && y != z && y != c && y != t.left.key && y != ParentAt(p)
      && c != t.left.key && c != t.right.key && (c == null || ParentAt(p) != c)
      && t.left.key != t.right.key && ParentAt(p) != t.left.key && ParentAt(p) != t.right.key
  {
    hide NoRepeat, Before, After, Plug, PathHeld, TopOf, Cut, Leftmost;
    OkAt(m, p, t, root);
    NoRepeatBin(t);
    NoRepeatBin(t.right);
    LeftmostHeld(m, Top, t.right, t.key);
    CutNodes(t.right);
    HeldRoot(m, t.left, t.key);
    assert t.right.key in Keys(Cut(t.right)) by { CutLeft(t.right); }
  }

  /** Replaced(), node by node. */
  lemma ReplacedCells(m: Mem, p: Path, x: AVLNode, z: AVLNode, y: AVLNode)
    requires x in m && z in m && y in m && x != z && y != x && y != z && (m[z].right == null || m[z].right in m)
    requires m[x].left != null && m[x].left in m && m[x].right != null && m[x].right in m
      && (ParentAt(p) == null || ParentAt(p) in m)
    requires m[z].right != x && m[z].right != z && m[x].left != x && m[x].right != x && m[x].left != z
      && m[x].right != z && ParentAt(p) != x && ParentAt(p) != z
    requires var c, l, r := m[z].right, m[x].left, m[x].right;
      y != c && y != l && y != ParentAt(p) && c != l && c != r && l != r && (c == null || ParentAt(p) != c)
        && ParentAt(p) != l && ParentAt(p) != r
    ensures var m', c, l, r := Replaced(m, p, x, z, y), m[z].right, m[x].left, m[x].right;
      && m'.Keys == m.Keys && m'[z] == Cell(l, r, ParentAt(p), m[z].height)
      && m'[l] == m[l].(parent := z)
      && m'[y] == (if y == r then m[y].(left := c, parent := z) else m[y].(left := c))
      && (r != y ==> m'[r] == m[r].(parent := z))
      && (c != null ==> m'[c] == m[c].(parent := y))
      && (ParentAt(p) != null ==>
        m'[ParentAt(p)] == if p.InLeft? then m[ParentAt(p)].(left := z) else m[ParentAt(p)].(right := z))
      && forall w :: w in m && w != z && w != y && w != c && w != l && w != r && w != ParentAt(p) ==> m'[w] == m[w]
  {
  }

  /** The parts of the tree around the removed node, in the memory Replaced() leaves. */
  lemma ReplacedParts(m: Mem, m': Mem, t: Tree, z: Tree, y: AVLNode)
    requires t.Bin? && t.left.Bin? && t.right.Bin? && t.right.left.Bin? && Held(m, t.left, t.key)
      && Held(m, t.right, t.key)
    requires NoRepeat(Keys(t.left)) && NoRepeat(Keys(t.right)) && z == Leftmost(t.right) && z.key in m
      && y == m[z.key].parent
    requires t.left.key in m' && t.left.key in m && m'[t.left.key] == m[t.left.key].(parent := z.key)
    requires forall w :: w in Keys(t.left) && w in m && w != t.left.key ==> w in m' && m'[w] == m[w]
    requires var c, r := RootOf(z.right), t.right.key;
      forall w :: w in Keys(Cut(t.right)) && w in m ==>
        && w in m'
        && var v := if w == y then m[w].(left := c) else if w == c then m[w].(parent := y) else m[w];
        m'[w] == if w == r then v.(parent := z.key) else v
    ensures Held(m', t.left, z.key) && Held(m', Cut(t.right), z.key)
  {
    hide NoRepeat, Keys, Cut, Leftmost;
    HeldMoved(m, m', t.left, t.key, z.key);
    LeftmostHeld(m, Top, t.right, t.key);
    CutNodes(t.right);
    var r := t.right.key;
    CutRoot(t.right);
    var m1 := m'[r := m'[r].(parent := t.key)];
    assert m[r].parent == t.key;
    CutHeld(m, m1, t.right, t.key, y);
    HeldMoved(m1, m', Cut(t.right), t.key, z.key);
  }

  lemma CutRoot(r: Tree)
    requires r.Bin? && r.left.Bin?
    ensures RootOf(Cut(r)) == r.key && r.key in Keys(Cut(r))
  {
  }

  /** The tree after the successor, further down, has replaced x. */
  lemma ReplacedAt(m: Mem, p: Path, t: Tree, root: AVLNode?)
    requires t.Bin? && t.left.Bin? && t.right.Bin? && t.right.left.Bin? && Ok(m, Plug(p, t), root)
    ensures var x, z := t.key, Leftmost(t.right);
      && x in m && z.key in m && x != z.key && m[x].left == t.left.key && m[x].right == t.right.key
      && t.left.key in m && t.right.key in m && t.left.key != x && t.right.key != x && t.left.key != z.key
        && t.right.key != z.key
      && (ParentAt(p) == null || ParentAt(p) in m) && ParentAt(p) != x && ParentAt(p) != z.key
      && (m[z.key].right == null || m[z.key].right in m) && m[z.key].right != x && m[z.key].right != z.key
      && var y := m[z.key].parent;
      && y != null && y in m && y != x && y != z.key
      && Ok(Replaced(m, p, x, z.key, y), Plug(p, Bin(t.left, z.key, Cut(t.right), z.height)), NewRoot(p, z.key, root))
  {
    hide NoRepeat, Keys, Before, After, Plug, PathHeld, TopOf, Cut, Leftmost, Replaced;
    ReplaceNodes(m, p, t, root);
    ReplacedAround(m, p, t, root);
    OkAt(m, p, t, root);
    var x, z := t.key, Leftmost(t.right);
    var m' := Replaced(m, p, x, z.key, m[z.key].parent);
    TopOfChanged(p, x, z.key);
    var u := Bin(t.left, z.key, Cut(t.right), z.height);
    ReplacedNodes(t);
    OkFrom(m', p, u, NewRoot(p, z.key, root));
  }

  lemma ReplacedNodes(t: Tree)
    requires t.Bin? && t.right.Bin? && NoRepeat(Keys(t))
    ensures var z := Leftmost(t.right);
      var u := Bin(t.left, z.key, Cut(t.right), z.height);
      NoRepeat(Keys(u)) && forall w :: w in Keys(u) ==> w in Keys(t)
  {
    hide NoRepeat, Cut, Leftmost;
    NoRepeatBin(t);
    CutNodes(t.right);
    var z := Leftmost(t.right);
    NoRepeatJoin(Keys(t.left) + [z.key], Keys(Cut(t.right)));
    NoRepeatJoin(Keys(t.left), [z.key]);
    OneNode(z.key);
  }

  lemma ReplacedAround(m: Mem, p: Path, t: Tree, root: AVLNode?)
    requires t.Bin? && t.left.Bin? && t.right.Bin? && t.right.left.Bin? && Ok(m, Plug(p, t), root)
    ensures var x, z := t.key, Leftmost(t.right);
      && x in m && z.key in m && x != z.key && m[x].left == t.left.key && m[x].right == t.right.key
      && t.left.key in m && t.right.key in m && t.left.key != x && t.right.key != x && t.left.key != z.key
        && t.right.key != z.key
      && (ParentAt(p) == null || ParentAt(p) in m) && ParentAt(p) != x && ParentAt(p) != z.key
      && (m[z.key].right == null || m[z.key].right in m) && m[z.key].right != x && m[z.key].right != z.key
      && var y := m[z.key].parent;
      && y != null && y in m && y != x && y != z.key
      && var m' := Replaced(m, p, x, z.key, y);
      && z.key in m' && m'[z.key] == Cell(t.left.key, t.right.key, ParentAt(p), z.height)
        && RootOf(Cut(t.right)) == t.right.key
      && Held(m', t.left, z.key) && Held(m', Cut(t.right), z.key) && PathHeld(m', p, z.key)
  {
    hide NoRepeat, Before, After, Plug, PathHeld, TopOf, Cut, Leftmost, Replaced;
    ReplaceNodes(m, p, t, root);
    OkAt(m, p, t, root);
    NoRepeatBin(t);
    var x, z := t.key, Leftmost(t.right);
    LeftmostHeld(m, Top, t.right, x);
    CutNodes(t.right);
    CutRoot(t.right);
    HeldRoot(m, t.left, x);
    var y := m[z.key].parent;
    ReplacedCells(m, p, x, z.key, y);
    var m' := Replaced(m, p, x, z.key, y);
    ReplacedParts(m, m', t, z, y);
    PathHooked(m, m', p, x, z.key);
  }
}
