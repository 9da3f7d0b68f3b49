/**
  The nodes of a VMA tree, and what it means for the memory they occupy to hold a
  given tree.

  `Snap` reads the linkage of a set of nodes out of the heap as a value.  All
  reasoning about pointer surgery is done on such values: each primitive update of
  the source has its counterpart on memories, and the lemmas say what shape the
  memory holds afterwards.
 */
module VmaMem {
  import opened Words
  import opened VmaShape

  class VMANode {
    var first: Word
    var last: Word
    var left: VMANode?
    var right: VMANode?
    var parent: VMANode?
    var height: int
    var prevGap: Word
    var biggestGap: Word
    // The list entry.  Null stands for the list head embedded in the tree.
    var next: VMANode?
    var prev: VMANode?

    constructor (first: Word, last: Word)
      ensures this.first == first && this.last == last
    {
      this.first, this.last := first, last;
    }
  }

  type Tree = Shape<VMANode>
  type Where = Path<VMANode>

  /** The tree linkage of one node, as a value. */
  datatype Cell = Cell(left: VMANode?, right: VMANode?, parent: VMANode?,
                       height: int, prevGap: Word, biggestGap: Word)

  type Mem = map<VMANode, Cell>

  /** What the heap holds for a set of nodes. */
  ghost function Snap(s: set<VMANode>): (m: Mem)
    reads s`left, s`right, s`parent, s`height, s`prevGap, s`biggestGap
  {
    Cells(s)
  }

  ghost function Cells(s: set<VMANode>): (m: Mem)
    reads s`left, s`right, s`parent, s`height, s`prevGap, s`biggestGap
    ensures m.Keys == s
    ensures forall n {:trigger m[n]} :: n in s ==>
      m[n] == Cell(n.left, n.right, n.parent, n.height, n.prevGap, n.biggestGap)
  {
    if s == {} then map[]
    else
      var n :| n in s;
      Cells(s - {n})[n := Cell(n.left, n.right, n.parent, n.height, n.prevGap, n.biggestGap)]
  }

  // ---- how a memory matches a shape ------------------------------------------

  ghost function HeightAt(m: Mem, n: VMANode?): int
    requires n == null || n in m
  {
    if n == null then 0 else m[n].height
  }

  ghost function GapAt(m: Mem, n: VMANode?): Word
    requires n == null || n in m
  {
    if n == null then 0 else m[n].biggestGap
  }

  ghost function RootOf(t: Tree): VMANode?
  {
    if t.Nil? then null else t.key
  }

  ghost predicate Closed(m: Mem, k: VMANode)
  {
    k in m && (m[k].left == null || m[k].left in m) && (m[k].right == null || m[k].right in m)
  }

  /** k's height and biggest gap follow from its children's. */
  ghost predicate Fresh(m: Mem, k: VMANode)
    requires Closed(m, k)
  {
    var c := m[k];
    && c.height == 1 + MaxInt(HeightAt(m, c.left), HeightAt(m, c.right))
    && c.biggestGap == Max(c.prevGap, Max(GapAt(m, c.left), GapAt(m, c.right)))
  }

  function MaxInt(a: int, b: int): int { if a > b then a else b }

  /** The memory below n, whose parent is p, draws the shape t, and its heights and
      biggest gaps are exact. */
  ghost predicate Sound(m: Mem, t: Tree, n: VMANode?, p: VMANode?)
    decreases t
  {
    match t
    case Nil => n == null
    case Bin(l, k, r) =>
      && n == k && k in m && m[k].parent == p
      && Sound(m, l, m[k].left, k) && Sound(m, r, m[k].right, k)
      && Closed(m, k) && Fresh(m, k)
  }

  ghost function ParentAt(p: Where): VMANode?
  {
    match p
    case Top => null
    case InLeft(_, k, _) => k
    case InRight(_, k, _) => k
  }

  /** The memory around the position p draws the path, with `hole` at the position
      and `root` at the top; the siblings are sound, the parents' data may be stale. */
  ghost predicate PathSound(m: Mem, p: Where, hole: VMANode?, root: VMANode?)
    decreases p
  {
    match p
    case Top => root == hole
    case InLeft(up, k, r) =>
      && k in m && m[k].left == hole && Sound(m, r, m[k].right, k)
      && m[k].parent == ParentAt(up) && PathSound(m, up, k, root)
    case InRight(l, k, up) =>
      && k in m && m[k].right == hole && Sound(m, l, m[k].left, k)
      && m[k].parent == ParentAt(up) && PathSound(m, up, k, root)
  }

  ghost predicate Agree(m: Mem, m': Mem, s: set<VMANode>)
  {
    forall x :: x in s && x in m ==> x in m' && m'[x] == m[x]
  }

  lemma {:induction false} SoundFrame(m: Mem, m': Mem, t: Tree, n: VMANode?, p: VMANode?)
    requires Sound(m, t, n, p) && Agree(m, m', Elems(t))
    ensures Sound(m', t, n, p)
    decreases t
  {
    match t
    case Nil =>
    case Bin(l, k, r) =>
      SoundFrame(m, m', l, m[k].left, k);
      SoundFrame(m, m', r, m[k].right, k);
      SoundRoot(m, l, m[k].left, k);
      SoundRoot(m, r, m[k].right, k);
  }

  lemma SoundRoot(m: Mem, t: Tree, n: VMANode?, p: VMANode?)
    requires Sound(m, t, n, p)
    ensures n == RootOf(t) && (n != null ==> n in m && n in Elems(t))
    ensures HeightAt(m, n) == Ht(t)
  {
    SoundHeight(m, t, n, p);
  }

  lemma {:induction false} SoundHeight(m: Mem, t: Tree, n: VMANode?, p: VMANode?)
    requires Sound(m, t, n, p)
    ensures (n == null || n in m) && HeightAt(m, n) == Ht(t)
    decreases t
  {
    match t
    case Nil =>
    case Bin(l, k, r) =>
      SoundHeight(m, l, m[k].left, k);
      SoundHeight(m, r, m[k].right, k);
  }

  lemma {:induction false} PathFrame(m: Mem, m': Mem, p: Where, hole: VMANode?, root: VMANode?)
    requires PathSound(m, p, hole, root) && Agree(m, m', Sides(p))
    requires forall k :: k in Spine(p) && k in m ==>
      k in m' && m'[k].left == m[k].left && m'[k].right == m[k].right && m'[k].parent == m[k].parent
    ensures PathSound(m', p, hole, root)
    decreases p
  {
    match p
    case Top =>
    case InLeft(up, k, r) =>
      SoundFrame(m, m', r, m[k].right, k);
      PathFrame(m, m', up, k, root);
    case InRight(l, k, up) =>
      SoundFrame(m, m', l, m[k].left, k);
      PathFrame(m, m', up, k, root);
  }

  // ---- the primitive updates -------------------------------------------------

  ghost function Reparented(m: Mem, n: VMANode?, p: VMANode?): Mem
    requires n == null || n in m
  {
    if n == null then m else m[n := m[n].(parent := p)]
  }

  ghost function Propagated(m: Mem, k: VMANode): Mem
    requires Closed(m, k)
  {
    var c := m[k];
    m[k := c.(height := 1 + MaxInt(HeightAt(m, c.left), HeightAt(m, c.right)),
              biggestGap := Max(c.prevGap, Max(GapAt(m, c.left), GapAt(m, c.right))))]
  }

  lemma ReparentedSound(m: Mem, t: Tree, n: VMANode?, was: VMANode?, p: VMANode?)
    requires Sound(m, t, n, was) && Distinct(t)
    ensures n == null || n in m
    ensures Sound(Reparented(m, n, p), t, n, p)
  {
    match t
    case Nil =>
    case Bin(l, k, r) =>
      var m' := Reparented(m, n, p);
      SoundFrame(m, m', l, m[k].left, k);
      SoundFrame(m, m', r, m[k].right, k);
      SoundRoot(m, l, m[k].left, k);
      SoundRoot(m, r, m[k].right, k);
  }

  lemma PropagatedSound(m: Mem, l: Tree, k: VMANode, r: Tree)
    requires k in m && k !in Elems(l) && k !in Elems(r)
    requires Sound(m, l, m[k].left, k) && Sound(m, r, m[k].right, k)
    ensures Closed(m, k)
    ensures Sound(Propagated(m, k), Bin(l, k, r), k, m[k].parent)
  {
    SoundRoot(m, l, m[k].left, k);
    SoundRoot(m, r, m[k].right, k);
    var m' := Propagated(m, k);
    SoundFrame(m, m', l, m[k].left, k);
    SoundFrame(m, m', r, m[k].right, k);
  }

  // ---- rotation ----------------------------------------------------------------

  /** The pointer surgery of rotate() to the left around x. */
  ghost function TurnedLeft(m: Mem, x: VMANode): Mem
    requires x in m && m[x].right != null && m[x].right in m
    requires var tmp := m[m[x].right].left; tmp == null || tmp in m
  {
    var z := m[x].right;
    var tmp := m[z].left;
    var m1 := Reparented(m[x := m[x].(right := tmp)], tmp, x);
    var m2 := m1[z := m1[z].(left := x)];
    m2[x := m2[x].(parent := z)]
  }

  lemma TurnedLeftSound(m: Mem, a: Tree, x: VMANode, b: Tree, z: VMANode, c: Tree)
    requires Distinct(Bin(a, x, Bin(b, z, c)))
    requires x in m && Sound(m, a, m[x].left, x) && Sound(m, Bin(b, z, c), m[x].right, x)
    ensures m[x].right == z && (m[z].left == null || m[z].left in m)
    ensures var m' := TurnedLeft(m, x);
      && x in m' && z in m' && m'[z].left == x && m'[x].parent == z
      && Sound(m', a, m'[x].left, x) && Sound(m', b, m'[x].right, x) && Sound(m', c, m'[z].right, z)
  {
    hide Elems, Distinct, Ht;
    DistinctParts(a, x, b, z, c);
    SoundRoot(m, b, m[z].left, z);
    var m' := TurnedLeft(m, x);
    SoundFrame(m, m', a, m[x].left, x);
    SoundFrame(m, m', c, m[z].right, z);
    var mb := Reparented(m, m[z].left, x);
    ReparentedSound(m, b, m[z].left, z, x);
    SoundFrame(mb, m', b, m[z].left, x);
  }

  ghost function TurnedRight(m: Mem, x: VMANode): Mem
    requires x in m && m[x].left != null && m[x].left in m
    requires var tmp := m[m[x].left].right; tmp == null || tmp in m
  {
    var z := m[x].left;
    var tmp := m[z].right;
    var m1 := Reparented(m[x := m[x].(left := tmp)], tmp, x);
    var m2 := m1[z := m1[z].(right := x)];
    m2[x := m2[x].(parent := z)]
  }

  lemma TurnedRightSound(m: Mem, a: Tree, z: VMANode, b: Tree, x: VMANode, c: Tree)
    requires Distinct(Bin(Bin(a, z, b), x, c))
    requires x in m && Sound(m, Bin(a, z, b), m[x].left, x) && Sound(m, c, m[x].right, x)
    ensures m[x].left == z && (m[z].right == null || m[z].right in m)
    ensures var m' := TurnedRight(m, x);
      && x in m' && z in m' && m'[z].right == x && m'[x].parent == z
      && Sound(m', a, m'[z].left, z) && Sound(m', b, m'[x].left, x) && Sound(m', c, m'[x].right, x)
  {
    hide Elems, Distinct, Ht;
    RegroupElems(a, z, b, x, c);
    DistinctParts(a, z, b, x, c);
    SoundRoot(m, b, m[z].right, z);
    var m' := TurnedRight(m, x);
    SoundFrame(m, m', a, m[z].left, z);
    SoundFrame(m, m', c, m[x].right, x);
    var mb := Reparented(m, m[z].right, x);
    ReparentedSound(m, b, m[z].right, z, x);
    SoundFrame(mb, m', b, m[z].right, x);
  }

  /** The subtree t at n is sound except for the root's own height and gap data and
      its parent pointer. */
  ghost predicate Loose(m: Mem, t: Tree)
  {
    t.Bin? && t.key in m && Sound(m, t.left, m[t.key].left, t.key) && Sound(m, t.right, m[t.key].right, t.key)
  }

  predicate CanRotate(t: Tree, left: bool)
  {
    t.Bin? && if left then t.right.Bin? else t.left.Bin?
  }

  function RotateShape(t: Tree, left: bool): Tree
    requires CanRotate(t, left)
  {
    if left then RotateLeft(t) else RotateRight(t)
  }

  /** The nodes rotate() looks at are there. */
  ghost predicate Rotatable(m: Mem, x: VMANode, left: bool)
  {
    && Closed(m, x)
    && var z := if left then m[x].right else m[x].left;
    && z != null && z != x && Closed(m, z)
    && m[x].left != x && m[x].right != x && m[z].left != x && m[z].right != x
    && m[z].left != z && m[z].right != z
  }

  ghost function OtherEnd(m: Mem, x: VMANode, left: bool): VMANode?
    requires x in m
  {
    if left then m[x].right else m[x].left
  }

  /** All of rotate(): the surgery, then both nodes' data, bottom up. */
  ghost function Rotated(m: Mem, x: VMANode, left: bool): Mem
    requires Rotatable(m, x, left)
  {
    var m1 := if left then TurnedLeft(m, x) else TurnedRight(m, x);
    var m2 := Propagated(m1, x);
    Propagated(m2, OtherEnd(m, x, left))
  }

  lemma LooseHeights(m: Mem, t: Tree)
    requires Loose(m, t)
    ensures Closed(m, t.key)
    ensures m[t.key].left == RootOf(t.left) && HeightAt(m, m[t.key].left) == Ht(t.left)
    ensures m[t.key].right == RootOf(t.right) && HeightAt(m, m[t.key].right) == Ht(t.right)
  {
    SoundRoot(m, t.left, m[t.key].left, t.key);
    SoundRoot(m, t.right, m[t.key].right, t.key);
  }

  lemma LooseRotatable(m: Mem, t: Tree, left: bool)
    requires Loose(m, t) && Distinct(t) && CanRotate(t, left)
    ensures Rotatable(m, t.key, left)
    ensures RotateShape(t, left).key == OtherEnd(m, t.key, left)
  {
    var z := if left then t.right else t.left;
    LooseHeights(m, t);
    LooseHeights(m, z);
    RootElem(t.left); RootElem(t.right); RootElem(z.left); RootElem(z.right);
    assert Distinct(z) && t.key !in Elems(z);
    assert Elems(z.left) <= Elems(z) && Elems(z.right) <= Elems(z);
  }

  lemma RootElem(t: Tree)
    ensures t.Bin? ==> t.key in Elems(t)
  {
  }

  lemma RotatedSound(m: Mem, t: Tree, left: bool)
    requires CanRotate(t, left) && Loose(m, t) && Distinct(t)
    ensures Rotatable(m, t.key, left)
    ensures var s := RotateShape(t, left); var m' := Rotated(m, t.key, left);
      s.key in m' && Sound(m', s, s.key, m'[s.key].parent)
  {
    LooseRotatable(m, t, left);
    if left {
      RotatedLeftSound(m, t.left, t.key, t.right.left, t.right.key, t.right.right);
    } else {
      RotatedRightSound(m, t.left.left, t.left.key, t.left.right, t.key, t.right);
    }
  }

  lemma RotatedLeftSound(m: Mem, a: Tree, x: VMANode, b: Tree, z: VMANode, c: Tree)
    requires Distinct(Bin(a, x, Bin(b, z, c))) && Rotatable(m, x, true)
    requires x in m && Sound(m, a, m[x].left, x) && Sound(m, Bin(b, z, c), m[x].right, x)
    ensures var m' := Rotated(m, x, true);
      z in m' && Sound(m', Bin(Bin(a, x, b), z, c), z, m'[z].parent)
  {
    RegroupElems(a, x, b, z, c);
    DistinctParts(a, x, b, z, c);
    TurnedLeftSound(m, a, x, b, z, c);
    var m1 := TurnedLeft(m, x);
    PropagatedSound(m1, a, x, b);
    var m2 := Propagated(m1, x);
    SoundFrame(m1, m2, c, m1[z].right, z);
    PropagatedSound(m2, Bin(a, x, b), z, c);
  }

  lemma RotatedRightSound(m: Mem, a: Tree, z: VMANode, b: Tree, x: VMANode, c: Tree)
    requires Distinct(Bin(Bin(a, z, b), x, c)) && Rotatable(m, x, false)
    requires x in m && Sound(m, Bin(a, z, b), m[x].left, x) && Sound(m, c, m[x].right, x)
    ensures var m' := Rotated(m, x, false);
      z in m' && Sound(m', Bin(a, z, Bin(b, x, c)), z, m'[z].parent)
  {
    RegroupElems(a, z, b, x, c);
    DistinctParts(a, z, b, x, c);
    TurnedRightSound(m, a, z, b, x, c);
    var m1 := TurnedRight(m, x);
    PropagatedSound(m1, b, x, c);
    var m2 := Propagated(m1, x);
    SoundFrame(m1, m2, a, m1[z].left, z);
    PropagatedSound(m2, a, z, Bin(b, x, c));
  }

  /** rotate() writes only to the node, the child that takes its place and that
      child's inner child, all of which lie in any set s that holds them. */
  lemma RotatedTouches(m: Mem, x: VMANode, left: bool, s: set<VMANode>)
    requires Rotatable(m, x, left) && x in s
    requires var z := OtherEnd(m, x, left);
      z in s && (m[z].left == null || m[z].left in s)
      && (m[z].right == null || m[z].right in s)
    ensures var m' := Rotated(m, x, left);
      m'.Keys == m.Keys && forall n :: n in m && n !in s ==> m'[n] == m[n]
  {
    var m1 := if left then TurnedLeft(m, x) else TurnedRight(m, x);
    assert m1.Keys == m.Keys;
  }

  lemma RotatedFrame(m: Mem, t: Tree, left: bool)
    requires CanRotate(t, left) && Loose(m, t) && Distinct(t)
    ensures Rotatable(m, t.key, left)
    ensures var m' := Rotated(m, t.key, left);
      m'.Keys == m.Keys && forall n :: n in m && n !in Elems(t) ==> m'[n] == m[n]
  {
    var z := if left then t.right else t.left;
    LooseRotatable(m, t, left);
    LooseHeights(m, z);
    RootElem(z.left); RootElem(z.right);
    assert Elems(z) <= Elems(t) && Elems(z.left) <= Elems(z) && Elems(z.right) <= Elems(z);
    RotatedTouches(m, t.key, left, Elems(t));
  }

  lemma RotateShapeElems(c: Tree, left: bool)
    requires CanRotate(c, left)
    ensures Elems(RotateShape(c, left)) == Elems(c) && Keys(RotateShape(c, left)) == Keys(c)
    ensures Distinct(c) ==> Distinct(RotateShape(c, left))
  {
    if left { RotateLeftKeys(c); } else { RotateRightKeys(c); }
  }

  // ---- one turn of the fixup loop ------------------------------------------------

  ghost predicate Apart(p: Where, t: Tree)
  {
    Distinct(t) && PathDistinct(p) && Elems(t) !! Around(p)
  }

  /** The state at the top of the loop: t sits at p and only the data of its root and
      of the nodes above it may be stale. */
  ghost predicate Ready(m: Mem, p: Where, t: Tree, root: VMANode?)
  {
    && Apart(p, t) && Loose(m, t)
    && m[t.key].parent == ParentAt(p) && PathSound(m, p, t.key, root)
  }

  /** The state at the end of a turn: t is sound, the nodes above it may be stale. */
  ghost predicate Done(m: Mem, p: Where, t: Tree, root: VMANode?)
  {
    Apart(p, t) && Sound(m, t, RootOf(t), ParentAt(p)) && PathSound(m, p, RootOf(t), root)
  }

  lemma BalancedTurn(m: Mem, p: Where, t: Tree, root: VMANode?)
    requires Ready(m, p, t, root)
    ensures Closed(m, t.key)
    ensures Done(Propagated(m, t.key), p, t, root)
  {
    PropagatedSound(m, t.left, t.key, t.right);
    PathFrame(m, Propagated(m, t.key), p, t.key, root);
  }

  /** `z->parent = k; k->child[..] = z`. */
  ghost function Hung(m: Mem, k: VMANode, z: VMANode, left: bool): Mem
    requires k in m && z in m
  {
    var m1 := Reparented(m, z, k);
    if left then m1[k := m1[k].(left := z)] else m1[k := m1[k].(right := z)]
  }

  function BinAt(s: Tree, k: VMANode, o: Tree, left: bool): Tree
  {
    if left then Bin(s, k, o) else Bin(o, k, s)
  }

  lemma BinAtElems(c: Tree, s: Tree, k: VMANode, o: Tree, left: bool)
    requires Elems(c) == Elems(s) && (Distinct(c) ==> Distinct(s))
    ensures Elems(BinAt(c, k, o, left)) == Elems(BinAt(s, k, o, left))
    ensures Distinct(BinAt(c, k, o, left)) ==> Distinct(BinAt(s, k, o, left))
  {
  }

  lemma HungSound(m: Mem, s: Tree, k: VMANode, o: Tree, left: bool)
    requires s.Bin? && k in m && s.key in m && Distinct(s)
    requires k !in Elems(s) && k !in Elems(o) && Elems(s) !! Elems(o)
    requires Sound(m, s, s.key, m[s.key].parent)
    requires Sound(m, o, OtherEnd(m, k, left), k)
    ensures Loose(Hung(m, k, s.key, left), BinAt(s, k, o, left))
  {
    var on := OtherEnd(m, k, left);
    var m1 := Reparented(m, s.key, k);
    var m2 := Hung(m, k, s.key, left);
    assert s.key in Elems(s);
    ReparentedSound(m, s, s.key, m[s.key].parent, k);
    SoundFrame(m1, m2, s, s.key, k);
    SoundFrame(m, m2, o, on, k);
  }

  /** The first half of a double rotation: the child of k on one side is rotated
      towards that side and the result hung back below k. */
  ghost predicate ChildTurnable(m: Mem, k: VMANode, left: bool)
  {
    k in m &&
    var c := OtherEnd(m, k, !left);
    c != null && c != k && Rotatable(m, c, left) && OtherEnd(m, c, left) != k
  }

  ghost function ChildTurned(m: Mem, k: VMANode, left: bool): Mem
    requires ChildTurnable(m, k, left)
  {
    var c := OtherEnd(m, k, !left);
    var m1 := Rotated(m, c, left);
    var z := OtherEnd(m, c, left);
    if k in m1 && z in m1 then Hung(m1, k, z, left) else m1
  }

  lemma LooseChild(m: Mem, c: Tree, k: VMANode, o: Tree, left: bool)
    requires c.Bin? && Loose(m, BinAt(c, k, o, left))
    ensures k in m && Loose(m, c) && OtherEnd(m, k, !left) == c.key && Sound(m, o, OtherEnd(m, k, left), k)
  {
  }

  lemma ChildTurnedLoose(m: Mem, c: Tree, k: VMANode, o: Tree, left: bool)
    requires CanRotate(c, left) && Distinct(BinAt(c, k, o, left)) && Loose(m, BinAt(c, k, o, left))
    ensures ChildTurnable(m, k, left)
    ensures var m' := ChildTurned(m, k, left);
      && Loose(m', BinAt(RotateShape(c, left), k, o, left))
      && m'.Keys == m.Keys && m'[k].parent == m[k].parent
      && forall n :: n in m && n !in Elems(BinAt(c, k, o, left)) ==> m'[n] == m[n]
  {
    hide Rotated, TurnedLeft, TurnedRight, Ht, Sound;
    var s := RotateShape(c, left);
    LooseChild(m, c, k, o, left);
    LooseRotatable(m, c, left);
    RotateShapeElems(c, left);
    RootElem(c); RootElem(s);
    RotatedFrame(m, c, left);
    RotatedSound(m, c, left);
    var m1 := Rotated(m, c.key, left);
    SoundFrame(m, m1, o, OtherEnd(m, k, left), k);
    HungSound(m1, s, k, o, left);
  }

  lemma ChildTurnedReady(m: Mem, p: Where, c: Tree, k: VMANode, o: Tree, left: bool, root: VMANode?)
    requires CanRotate(c, left) && Ready(m, p, BinAt(c, k, o, left), root)
    ensures ChildTurnable(m, k, left)
    ensures Ready(ChildTurned(m, k, left), p, BinAt(RotateShape(c, left), k, o, left), root)
    ensures ChildTurned(m, k, left).Keys == m.Keys
  {
    ChildTurnedLoose(m, c, k, o, left);
    var m' := ChildTurned(m, k, left);
    RotateShapeElems(c, left);
    BinAtElems(c, RotateShape(c, left), k, o, left);
    assert Agree(m, m', Around(p));
    PathFrame(m, m', p, k, root);
  }

  /** `if (parent) parent->child[me] = z`. */
  ghost function Hooked(m: Mem, parent: VMANode?, me: bool, z: VMANode?): Mem
  {
    if parent == null || parent !in m then m
    else if me then m[parent := m[parent].(left := z)]
    else m[parent := m[parent].(right := z)]
  }

  lemma HookedSound(m: Mem, p: Where, hole: VMANode?, root: VMANode?, z: VMANode?)
    requires PathSound(m, p, hole, root) && PathDistinct(p)
    ensures var m' := Hooked(m, ParentAt(p), p.InLeft?, z);
      PathSound(m', p, z, if p.Top? then z else root) && m'.Keys == m.Keys
  {
    hide Elems, Distinct, Sound;
    var m' := Hooked(m, ParentAt(p), p.InLeft?, z);
    match p
    case Top =>
    case InLeft(up, k, r) =>
      SoundFrame(m, m', r, m[k].right, k);
      PathFrame(m, m', up, k, root);
    case InRight(l, k, up) =>
      SoundFrame(m, m', l, m[k].left, k);
      PathFrame(m, m', up, k, root);
  }

  /** Rotating x and putting the result in its place below its parent. */
  ghost function TopTurned(m: Mem, x: VMANode, left: bool): Mem
    requires Rotatable(m, x, left)
  {
    var parent := m[x].parent;
    var z := OtherEnd(m, x, left);
    var m1 := Rotated(m, x, left);
    if z in m1 then Hooked(Reparented(m1, z, parent), parent, IsLeftChild(m, x), z) else m1
  }

  /** The source's test for which child of its parent a node is. */
  ghost predicate IsLeftChild(m: Mem, x: VMANode)
    requires x in m
  {
    var parent := m[x].parent;
    parent != null && parent in m && m[parent].left == x
  }

  lemma IsLeftChildSpec(m: Mem, p: Where, t: Tree, root: VMANode?)
    requires Ready(m, p, t, root)
    ensures IsLeftChild(m, t.key) <==> p.InLeft?
  {
    match p
    case Top =>
    case InLeft(up, k, r) =>
    case InRight(l, k, up) =>
      SoundRoot(m, l, m[k].left, k);
      RootElem(t);
  }

  lemma TopTurnedDone(m: Mem, p: Where, t: Tree, left: bool, root: VMANode?)
    requires Ready(m, p, t, root) && CanRotate(t, left)
    ensures Rotatable(m, t.key, left)
    ensures var s := RotateShape(t, left); var m' := TopTurned(m, t.key, left);
      Done(m', p, s, if p.Top? then s.key else root) && m'.Keys == m.Keys
  {
    var s := RotateShape(t, left);
    LooseRotatable(m, t, left);
    RotateShapeElems(t, left);
    RootElem(s);
    IsLeftChildSpec(m, p, t, root);
    RotatedFrame(m, t, left);
    RotatedSound(m, t, left);
    var m1 := Rotated(m, t.key, left);
    assert Agree(m, m1, Around(p));
    PathFrame(m, m1, p, t.key, root);
    TopHung(m1, p, s, t.key, root);
  }

  lemma TopHung(m: Mem, p: Where, s: Tree, was: VMANode, root: VMANode?)
    requires s.Bin? && s.key in m && Apart(p, s)
    requires Sound(m, s, s.key, m[s.key].parent) && PathSound(m, p, was, root)
    ensures var m' := Hooked(Reparented(m, s.key, ParentAt(p)), ParentAt(p), p.InLeft?, s.key);
      Done(m', p, s, if p.Top? then s.key else root) && m'.Keys == m.Keys
  {
    var m1 := Reparented(m, s.key, ParentAt(p));
    ReparentedSound(m, s, s.key, m[s.key].parent, ParentAt(p));
    RootElem(s);
    assert Agree(m, m1, Around(p));
    PathFrame(m, m1, p, was, root);
    HookedSound(m1, p, was, root, s.key);
    SoundFrame(m1, Hooked(m1, ParentAt(p), p.InLeft?, s.key), s, s.key, ParentAt(p));
  }

  /** A finished subtree and its parent make up the start of the next turn. */
  lemma Climb(m: Mem, p: Where, t: Tree, root: VMANode?)
    requires Done(m, p, t, root) && !p.Top?
    ensures Ready(m, p.up, Enclosing(p, t), root)
  {
  }

  // ---- taking a sound tree apart at a position and putting it together -----------

  lemma {:induction false} SoundSplit(m: Mem, p: Where, t: Tree, root: VMANode?)
    requires Sound(m, Plug(p, t), root, null)
    ensures PathSound(m, p, RootOf(t), root) && Sound(m, t, RootOf(t), ParentAt(p))
    decreases p
  {
    match p
    case Top =>
    case InLeft(up, k, r) => SoundSplit(m, up, Bin(t, k, r), root);
    case InRight(l, k, up) => SoundSplit(m, up, Bin(l, k, t), root);
  }

  lemma {:induction false} SoundElems(m: Mem, t: Tree, n: VMANode?, p: VMANode?)
    requires Sound(m, t, n, p)
    ensures Elems(t) <= m.Keys
    decreases t
  {
    match t
    case Nil =>
    case Bin(l, k, r) =>
      SoundElems(m, l, m[k].left, k);
      SoundElems(m, r, m[k].right, k);
  }

  /** m' is m with changes to prevGap of two nodes only. */
  ghost predicate GapChange(m: Mem, m': Mem, node: VMANode?, succ: VMANode?)
  {
    m'.Keys == m.Keys &&
    forall x {:trigger m'[x]} :: x in m ==>
      if x == node || x == succ then m'[x] == m[x].(prevGap := m'[x].prevGap) else m'[x] == m[x]
  }

  /** The same, with no promise about `node` itself. */
  ghost predicate GapChangeBut(m: Mem, m': Mem, node: VMANode?, succ: VMANode?)
  {
    m'.Keys == m.Keys &&
    forall x {:trigger m'[x]} :: x in m && x != node ==>
      if x == succ then m'[x] == m[x].(prevGap := m'[x].prevGap) else m'[x] == m[x]
  }

  lemma {:induction false} SpineNotSides(p: Where)
    requires PathDistinct(p)
    ensures Spine(p) !! Sides(p)
  {
    match p
    case Top =>
    case InLeft(up, _, _) => SpineNotSides(up);
    case InRight(_, _, up) => SpineNotSides(up);
  }

  ghost function SuccAt(p: Where): VMANode?
  {
    if After(p) == [] then null else After(p)[0]
  }

  /** Changing the gaps of a node at p and of its successor leaves the path sound: the
      successor is an ancestor, whose data may be stale. */
  lemma PathGapChange(m: Mem, m': Mem, p: Where, hole: VMANode?, root: VMANode?, node: VMANode?)
    requires PathSound(m, p, hole, root) && PathDistinct(p) && GapChangeBut(m, m', node, SuccAt(p))
    requires node == null || node !in Around(p)
    ensures PathSound(m', p, hole, root)
  {
    SuccessorOnSpine(p);
    SpineNotSides(p);
    assert Agree(m, m', Sides(p));
    PathFrame(m, m', p, hole, root);
  }

  /** A new leaf hooked in at p, after its gap and its successor's gap were set: fixup
      can start. */
  lemma LeafReady(m: Mem, m1: Mem, p: Where, node: VMANode, root: VMANode?)
    requires Sound(m, Plug(p, Nil), root, null) && Distinct(Plug(p, Nil)) && node !in Elems(Plug(p, Nil))
    requires GapChangeBut(m, m1, node, SuccAt(p))
    requires node in m1 && m1[node].left == null && m1[node].right == null && m1[node].parent == ParentAt(p)
    ensures Ready(Hooked(m1, ParentAt(p), p.InLeft?, node), p, Bin(Nil, node, Nil), if p.Top? then node else root)
  {
    PlugDistinct(p, Nil);
    SoundSplit(m, p, Nil, root);
    PathGapChange(m, m1, p, null, root, node);
    HookedSound(m1, p, null, root, node);
  }
}
