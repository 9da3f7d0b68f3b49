/**
  The pointer surgery of VMATree::remove, on memories: splicing out a node with at
  most one child, and putting the successor in the place of a node with two.
 */
module VmaSplice {
  import opened Words
  import opened VmaShape
  import opened VmaMem

  /** The successor's new gap. */
  ghost function Regapped(m: Mem, x: VMANode?, g: Word): Mem
    requires x == null || x in m
  {
    if x == null then m else m[x := m[x].(prevGap := g)]
  }

  /** c takes the place of the node at p: `parent->child[me] = c; c->parent = parent`. */
  ghost function Promoted(m: Mem, p: Where, c: VMANode?): Mem
    requires c == null || c in m
  {
    var m1 := Hooked(m, ParentAt(p), p.InLeft?, c);
    if c == null || c !in m1 then m1 else Reparented(m1, c, ParentAt(p))
  }

  ghost function NewRoot(p: Where, c: VMANode?, root: VMANode?): VMANode?
  {
    if p.Top? then c else root
  }

  /** Promoting a child whose own data may be stale leaves fixup something to start at. */
  lemma PromotedReady(m: Mem, p: Where, k: VMANode, c: Tree, root: VMANode?)
    requires c.Bin? && PathSound(m, p, k, root) && Loose(m, c) && Apart(p, c)
    ensures Ready(Promoted(m, p, c.key), p, c, NewRoot(p, c.key, root))
  {
    hide Sound, Elems;
    var m1 := Hooked(m, ParentAt(p), p.InLeft?, c.key);
    HookedSound(m, p, k, root, c.key);
    var m2 := Promoted(m, p, c.key);
    RootElem(c);
    ChildElems(c);
    ParentAround(p);
    SoundFrame(m, m2, c.left, m[c.key].left, c.key);
    SoundFrame(m, m2, c.right, m[c.key].right, c.key);
    PathFrame(m1, m2, p, c.key, NewRoot(p, c.key, root));
  }

  lemma PromotedNothing(m: Mem, p: Where, k: VMANode, root: VMANode?)
    requires PathSound(m, p, k, root) && PathDistinct(p)
    ensures Done(Promoted(m, p, null), p, Nil, NewRoot(p, null, root))
  {
    HookedSound(m, p, k, root, null);
  }

  lemma ChildElems(c: Tree)
    requires c.Bin?
    ensures Elems(c.left) <= Elems(c) && Elems(c.right) <= Elems(c)
    ensures Distinct(c) ==> c.key !in Elems(c.left) && c.key !in Elems(c.right) && Elems(c.left) !! Elems(c.right)
    ensures Distinct(c) ==> Distinct(c.left) && Distinct(c.right)
  {
  }

  lemma ParentAround(p: Where)
    ensures ParentAt(p) == null || ParentAt(p) in Around(p)
  {
  }

  // ---- at most one child -------------------------------------------------------------

  /** What a sound tree says about the node at p. */
  lemma AtNode(m: Mem, p: Where, t: Tree, root: VMANode?)
    requires Sound(m, Plug(p, t), root, null) && Distinct(Plug(p, t)) && t.Bin?
    ensures Apart(p, t) && PathSound(m, p, t.key, root) && Loose(m, t) && m[t.key].parent == ParentAt(p)
    ensures Apart(p, t.left) && Apart(p, t.right) && t.key !in Around(p)
  {
    hide Plug;
    PlugDistinct(p, t);
    SoundSplit(m, p, t, root);
    ChildElems(t);
    RootElem(t);
  }

  /** No right child: the successor is an ancestor, and the left child moves up. */
  lemma NoRightChild(m: Mem, p: Where, t: Tree, root: VMANode?, g: Word)
    requires Sound(m, Plug(p, t), root, null) && Distinct(Plug(p, t)) && t.Bin? && t.right.Nil?
    ensures SuccAt(p) == null || SuccAt(p) in m
    ensures t.key in m && RootOf(t.left) == m[t.key].left && (RootOf(t.left) == null || RootOf(t.left) in m)
    ensures var m1 := Promoted(Regapped(m, SuccAt(p), g), p, RootOf(t.left));
      if t.left.Bin? then Ready(m1, p, t.left, NewRoot(p, RootOf(t.left), root))
      else Done(m1, p, Nil, NewRoot(p, null, root))
  {
    hide Plug, Sound;
    AtNode(m, p, t, root);
    LooseHeights(m, t);
    SuccessorOnSpine(p);
    SpineThere(m, p, t.key, root);
    var m0 := Regapped(m, SuccAt(p), g);
    PathGapChange(m, m0, p, t.key, root, null);
    if t.left.Bin? {
      SoundFrame(m, m0, t.left, m[t.key].left, t.key);
      SoundLoose(m0, t.left, t.key);
      PromotedReady(m0, p, t.key, t.left, root);
    } else {
      PromotedNothing(m0, p, t.key, root);
    }
  }

  lemma SoundLoose(m: Mem, t: Tree, p: VMANode?)
    requires t.Bin? && Sound(m, t, t.key, p)
    ensures Loose(m, t)
  {
  }

  lemma {:induction false} SpineThere(m: Mem, p: Where, hole: VMANode?, root: VMANode?)
    requires PathSound(m, p, hole, root)
    ensures Spine(p) <= m.Keys
    decreases p
  {
    match p
    case Top =>
    case InLeft(up, k, r) => SpineThere(m, up, k, root);
    case InRight(l, k, up) => SpineThere(m, up, k, root);
  }

  /** Only a right child: balance makes it a leaf, so it is the successor itself. */
  lemma OnlyRightChild(m: Mem, p: Where, t: Tree, root: VMANode?, g: Word)
    requires Sound(m, Plug(p, t), root, null) && Distinct(Plug(p, t)) && Avl(Plug(p, t))
    requires t.Bin? && t.left.Nil? && t.right.Bin?
    ensures Keys(t.right) == [t.right.key] && t.key in m && t.right.key == m[t.key].right && t.right.key in m
    ensures Ready(Promoted(Regapped(m, t.right.key, g), p, t.right.key), p, t.right, NewRoot(p, t.right.key, root))
  {
    hide Plug, Sound;
    AtNode(m, p, t, root);
    LooseHeights(m, t);
    PlugAvl(p, t);
    var z := t.right;
    assert Ht(z) <= 1 && z.left.Nil? && z.right.Nil?;
    SoundLoose(m, z, t.key);
    RootElem(z);
    var m0 := Regapped(m, z.key, g);
    PathGapChange(m, m0, p, t.key, root, z.key);
    LeafLoose(m, m0, z);
    PromotedReady(m0, p, t.key, z, root);
  }

  lemma LeafLoose(m: Mem, m0: Mem, z: Tree)
    requires z.Bin? && z.left.Nil? && z.right.Nil? && Loose(m, z)
    requires z.key in m0 && m0[z.key].left == m[z.key].left && m0[z.key].right == m[z.key].right
    ensures Loose(m0, z)
  {
  }

  // ---- two children ------------------------------------------------------------------

  /** The successor z takes over the left subtree and the parent pointer of k. */
  ghost function Inherited(m: Mem, parent: VMANode?, k: VMANode, z: VMANode): Mem
    requires k in m && z in m && (m[k].left == null || m[k].left in m)
  {
    var m1 := Reparented(m, z, parent);
    var m2 := m1[z := m1[z].(left := m1[k].left)];
    Reparented(m2, m2[z].left, z)
  }

  lemma InheritedSound(m: Mem, parent: VMANode?, l: Tree, k: VMANode, z: VMANode)
    requires k in m && z in m && k != z && k !in Elems(l) && z !in Elems(l) && Distinct(l)
    requires Sound(m, l, m[k].left, k)
    ensures m[k].left == null || m[k].left in m
    ensures var m' := Inherited(m, parent, k, z);
      && m'.Keys == m.Keys && Sound(m', l, m'[z].left, z)
      && m'[z].parent == parent && m'[z].right == m[z].right
      && (forall x {:trigger m'[x]} :: x in m && x != z && x !in Elems(l) ==> m'[x] == m[x])
  {
    hide Sound, Elems;
    SoundRoot(m, l, m[k].left, k);
    var m1 := Reparented(m, z, parent);
    var m2 := m1[z := m1[z].(left := m1[k].left)];
    SoundFrame(m, m2, l, m[k].left, k);
    ReparentedSound(m2, l, m[k].left, k, z);
  }

  /** ... and then k's place below the parent. */
  ghost function TakenOver(m: Mem, p: Where, k: VMANode, z: VMANode): Mem
    requires k in m && z in m && (m[k].left == null || m[k].left in m)
  {
    Hooked(Inherited(m, ParentAt(p), k, z), ParentAt(p), p.InLeft?, z)
  }

  ghost predicate Outside(p: Where, l: Tree, k: VMANode, z: VMANode)
  {
    && Apart(p, l) && k != z && k !in Around(p) && z !in Around(p) && k !in Elems(l) && z !in Elems(l)
  }

  lemma TakenOverSound(m: Mem, p: Where, l: Tree, k: VMANode, z: VMANode, root: VMANode?)
    requires k in m && z in m && PathSound(m, p, k, root) && Sound(m, l, m[k].left, k) && Outside(p, l, k, z)
    ensures m[k].left == null || m[k].left in m
    ensures var m' := TakenOver(m, p, k, z);
      && m'.Keys == m.Keys
      && PathSound(m', p, z, NewRoot(p, z, root)) && Sound(m', l, m'[z].left, z)
      && m'[z].parent == ParentAt(p) && m'[z].right == m[z].right
      && (forall x {:trigger m'[x]} :: x in m && x != z && x !in Around(p) && x !in Elems(l) ==> m'[x] == m[x])
  {
    hide Sound, Elems, Around, Inherited;
    InheritedSound(m, ParentAt(p), l, k, z);
    ParentAround(p);
    var m3 := Inherited(m, ParentAt(p), k, z);
    AroundAgree(m, m3, p);
    PathFrame(m, m3, p, k, root);
    HookedSound(m3, p, k, root, z);
    SoundFrame(m3, TakenOver(m, p, k, z), l, m3[z].left, z);
  }

  lemma AroundAgree(m: Mem, m': Mem, p: Where)
    requires Agree(m, m', Around(p))
    ensures Agree(m, m', Sides(p))
    ensures forall k {:trigger m'[k]} :: k in Spine(p) && k in m ==> k in m' && m'[k] == m[k]
  {
  }

  lemma PromotedDone(m: Mem, p: Where, k: VMANode, c: Tree, root: VMANode?)
    requires PathSound(m, p, k, root) && Sound(m, c, RootOf(c), k) && Apart(p, c)
    ensures RootOf(c) == null || RootOf(c) in m
    ensures Done(Promoted(m, p, RootOf(c)), p, c, NewRoot(p, RootOf(c), root))
  {
    hide Sound, Elems, Around;
    SoundRoot(m, c, RootOf(c), k);
    if c.Nil? {
      PromotedNothing(m, p, k, root);
    } else {
      var m1 := Hooked(m, ParentAt(p), p.InLeft?, c.key);
      ParentAround(p);
      HookedSound(m, p, k, root, c.key);
      SoundFrame(m, m1, c, c.key, k);
      ReparentedSound(m1, c, c.key, k, ParentAt(p));
      var m2 := Reparented(m1, c.key, ParentAt(p));
      AroundAgree(m1, m2, p);
      PathFrame(m1, m2, p, c.key, NewRoot(p, c.key, root));
    }
  }

  /** What sits at the top of u once its leftmost node was replaced by h. */
  ghost function TopOf(u: Tree, h: VMANode?): VMANode?
    requires u.Bin?
  {
    if u.left.Nil? then h else u.key
  }

  lemma {:induction false} PathOuter(m: Mem, base: Where, u: Tree, h: VMANode?, root: VMANode?)
    requires u.Bin? && PathSound(m, DownLeft(base, u), h, root)
    ensures PathSound(m, base, TopOf(u, h), root)
    decreases u
  {
    if u.left.Bin? {
      PathOuter(m, InLeft(base, u.key, u.right), u.left, h, root);
    }
  }

  /** A left spine hung below another path: only its top node's parent pointer changes. */
  lemma {:induction false} SpineMoved(m: Mem, m': Mem, bk: Where, bz: Where, u: Tree, h: VMANode?, root: VMANode?,
                                      root': VMANode?)
    requires u.Bin? && Distinct(u) && PathSound(m, DownLeft(bk, u), h, root)
    requires forall x {:trigger m'[x]} :: x in Elems(u) && x != Leftmost(u).key && x != u.key && x in m ==>
      x in m' && m'[x] == m[x]
    requires u.left.Bin? ==> u.key in m && u.key in m' && m'[u.key] == m[u.key].(parent := ParentAt(bz))
    requires m.Keys <= m'.Keys
    requires PathSound(m', bz, TopOf(u, h), root')
    ensures PathSound(m', DownLeft(bz, u), h, root')
    decreases u
  {
    if u.left.Bin? {
      var k1, z1 := InLeft(bk, u.key, u.right), InLeft(bz, u.key, u.right);
      PathOuter(m, k1, u.left, h, root);
      if u.left.left.Bin? {
        PathOuter(m, InLeft(k1, u.left.key, u.left.right), u.left.left, h, root);
      }
      LeftmostElem(u.left);
      ChildElems(u);
      RootElem(u.left);
      SoundFrame(m, m', u.right, m[u.key].right, u.key);
      SpineMoved(m, m', k1, z1, u.left, h, root, root');
    }
  }

  lemma {:induction false} LeftmostElem(t: Tree)
    requires t.Bin?
    ensures Leftmost(t).key in Elems(t) && Elems(Leftmost(t).right) <= Elems(t)
    ensures Distinct(t) ==> Distinct(Leftmost(t)) && (t.left.Bin? ==>
      Leftmost(t).key != t.key && t.key !in Elems(Leftmost(t).right))
  {
    if t.left.Bin? {
      LeftmostElem(t.left);
    }
  }

  /** The parts of a node with two children do not overlap. */
  lemma TwoChildren(m: Mem, p: Where, t: Tree, root: VMANode?)
    requires Sound(m, Plug(p, t), root, null) && Distinct(Plug(p, t)) && t.Bin? && t.right.Bin?
    ensures var z := Leftmost(t.right);
      && t.key in m && z.key in m && z.key in Elems(t.right) && Elems(z.right) <= Elems(t.right)
      && PathSound(m, p, t.key, root) && m[t.key].parent == ParentAt(p)
      && Sound(m, t.left, m[t.key].left, t.key) && Sound(m, t.right, m[t.key].right, t.key)
      && Outside(p, t.left, t.key, z.key) && Elems(t.right) !! Around(p) && Elems(t.right) !! Elems(t.left)
      && t.key !in Elems(t.right) && Distinct(t.right) && m[t.key].right == t.right.key
  {
    hide Plug, Sound, Leftmost;
    AtNode(m, p, t, root);
    ChildElems(t);
    LeftmostElem(t.right);
    SoundElems(m, t.right, m[t.key].right, t.key);
    LooseHeights(m, t);
  }

  /** The successor is the right child itself: it takes over and keeps its right subtree. */
  lemma SuccessorIsChild(m: Mem, p: Where, t: Tree, root: VMANode?, g: Word)
    requires Sound(m, Plug(p, t), root, null) && Distinct(Plug(p, t))
    requires t.Bin? && t.right.Bin? && t.right.left.Nil?
    ensures var z := t.right.key;
      && t.key in m && z in m && var m0 := Regapped(m, z, g);
      && (m0[t.key].left == null || m0[t.key].left in m0)
      && Ready(TakenOver(m0, p, t.key, z), p, Bin(t.left, z, t.right.right), NewRoot(p, z, root))
  {
    hide Plug, Sound, TakenOver, Around;
    TwoChildren(m, p, t, root);
    var k, l, z, zr := t.key, t.left, t.right.key, t.right.right;
    ChildElems(t.right);
    SoundChild(m, t.right, k);
    var m0 := Regapped(m, z, g);
    PathGapChange(m, m0, p, k, root, z);
    SoundFrame(m, m0, l, m[k].left, k);
    SoundFrame(m, m0, zr, m[z].right, z);
    TakenOverSound(m0, p, l, k, z, root);
    SoundFrame(m0, TakenOver(m0, p, k, z), zr, m0[z].right, z);
    assert Elems(Bin(l, z, zr)) == Elems(l) + {z} + Elems(zr);
  }

  lemma SoundChild(m: Mem, t: Tree, p: VMANode)
    requires t.Bin? && Sound(m, t, t.key, p)
    ensures t.key in m && m[t.key].parent == p
    ensures Sound(m, t.left, m[t.key].left, t.key) && Sound(m, t.right, m[t.key].right, t.key)
  {
  }

  /** The successor lies deeper: its old parent y adopts its right subtree, and it
      adopts k's right subtree. */
  ghost function Rewired(m: Mem, k: VMANode, z: VMANode, y: VMANode): Mem
    requires k in m && z in m && y in m
    requires (m[z].right == null || m[z].right in m) && (m[k].right == null || m[k].right in m)
  {
    var m1 := m[y := m[y].(left := m[z].right)];
    var m2 := Reparented(m1, m[z].right, y);
    var m3 := m2[z := m2[z].(right := m2[k].right)];
    Reparented(m3, m3[z].right, z)
  }

  lemma {:induction false} DownLeftKey(base: Where, base': Where, r: Tree)
    requires r.Bin? && r.left.Bin?
    ensures var d, d' := DownLeft(base, r), DownLeft(base', r);
      d.InLeft? && d'.InLeft? && d.key == d'.key && d.key in Elems(r) && (Distinct(r) ==> d.key != Leftmost(r).key)
    decreases r
  {
    if r.left.left.Bin? {
      DownLeftKey(InLeft(base, r.key, r.right), InLeft(base', r.key, r.right), r.left);
    }
    LeftmostElem(r.left);
  }

  /** The successor's old position once its right subtree has moved up into it, with k
      still in its own place. */
  lemma Detached(m: Mem, p: Where, t: Tree, root: VMANode?, g: Word)
    requires Sound(m, Plug(p, t), root, null) && Distinct(Plug(p, t))
    requires t.Bin? && t.right.Bin? && t.right.left.Bin?
    ensures var z := Leftmost(t.right); var d := DownLeft(InRight(t.left, t.key, p), t.right);
      && z.key in m && d.InLeft? && m[z.key].parent == d.key && d.key in m && m[z.key].right == RootOf(z.right)
      && (RootOf(z.right) == null || RootOf(z.right) in m) && d.key !in Elems(z.right)
      && var m0 := Regapped(m, z.key, g);
      Done(Promoted(m0, d, RootOf(z.right)), d, z.right, root)
  {
    hide Sound, Plug, Leftmost, DownLeft, Distinct;
    var base := InRight(t.left, t.key, p);
    var z, d := Leftmost(t.right), DownLeft(base, t.right);
    DownLeftPlug(base, t.right);
    DownLeftKey(base, base, t.right);
    PlugStep(p, t);
    AtNode(m, d, z, root);
    SoundLooseRight(m, z);
    RootElem(z);
    var m0 := Regapped(m, z.key, g);
    PathGapChange(m, m0, d, z.key, root, z.key);
    RightApart(d, z);
    SoundFrame(m, m0, z.right, RootOf(z.right), z.key);
    PromotedDone(m0, d, z.key, z.right, root);
    SpineThere(m, d, z.key, root);
  }

  lemma PlugStep(p: Where, t: Tree)
    requires t.Bin?
    ensures Plug(InRight(t.left, t.key, p), t.right) == Plug(p, t)
  {
  }

  lemma SoundLooseRight(m: Mem, z: Tree)
    requires Loose(m, z)
    ensures m[z.key].right == RootOf(z.right) && Sound(m, z.right, RootOf(z.right), z.key)
    ensures RootOf(z.right) == null || RootOf(z.right) in m
  {
    LooseHeights(m, z);
  }

  lemma RightApart(d: Where, z: Tree)
    requires z.Bin? && Apart(d, z)
    ensures Apart(d, z.right) && z.key !in Elems(z.right)
  {
  }

  /** Rewiring, compared node by node with the detached successor: only the top of the
      right subtree has another parent. */
  lemma RewiredAt(m0: Mem, f: Mem, d: Where, k: VMANode, z: VMANode, rt: VMANode, h: VMANode?, s: set<VMANode>)
    requires m0.Keys == f.Keys && s <= m0.Keys && k in m0 && k !in s && z in s && rt in s && rt != z
    requires d.InLeft? && d.key in s && d.key != z && (h == null || (h in s && h != z && h != rt && h != d.key))
    requires f[k] == m0[k] && m0[k].right == rt && f[z].right == h
    requires forall x {:trigger f[x]} :: x in s && x != z ==> f[x] == m0[x]
    ensures var m2, f' := Promoted(m0, d, h), Rewired(f, k, z, d.key);
      && m2.Keys == m0.Keys && f'.Keys == m0.Keys
      && (forall x {:trigger f'[x]} :: x in s && x != z && x != rt ==> f'[x] == m2[x])
      && f'[rt] == m2[rt].(parent := z)
      && f'[z] == f[z].(right := rt)
      && (forall x {:trigger f'[x]} :: x in f && x !in s ==> f'[x] == f[x])
  {
  }

  /** The right spine, with z in the place of k, after the rewiring. */
  lemma RewiredPath(m: Mem, p: Where, t: Tree, root: VMANode?, g: Word, f: Mem)
    requires Sound(m, Plug(p, t), root, null) && Distinct(Plug(p, t))
    requires t.Bin? && t.right.Bin? && t.right.left.Bin?
    requires var z := Leftmost(t.right).key;
      && t.key in m && z in m && f.Keys == m.Keys && var m0 := Regapped(m, z, g);
      && f[t.key] == m0[t.key] && f[z].right == m0[z].right && f[z].parent == ParentAt(p)
      && (forall x {:trigger f[x]} :: x in Elems(t.right) && x != z && x in m ==> f[x] == m0[x])
      && PathSound(f, p, z, NewRoot(p, z, root)) && Sound(f, t.left, f[z].left, z)
    ensures var zt := Leftmost(t.right); var d := DownLeft(InRight(t.left, zt.key, p), t.right);
      && d.InLeft? && d.key in f && d.key == m[zt.key].parent
      && (f[zt.key].right == null || f[zt.key].right in f) && (f[t.key].right == null || f[t.key].right in f)
      && Done(Rewired(f, t.key, zt.key, d.key), d, zt.right, NewRoot(p, zt.key, root))
  {
    hide Sound, Plug, Leftmost, DownLeft, Distinct, Elems, Around, PathSound, Promoted, Rewired;
    var k, l, r := t.key, t.left, t.right;
    var zt := Leftmost(r);
    var z, h := zt.key, RootOf(zt.right);
    var bk, bz := InRight(l, k, p), InRight(l, z, p);
    var dk, d := DownLeft(bk, r), DownLeft(bz, r);
    var root' := NewRoot(p, z, root);
    TwoChildren(m, p, t, root);
    Detached(m, p, t, root, g);
    DownLeftKey(bk, bz, r);
    SoundElems(m, r, r.key, k);
    SpineFacts(r);
    var m0 := Regapped(m, z, g);
    RewiredAt(m0, f, dk, k, z, r.key, h, Elems(r));
    var m2, f' := Promoted(m0, dk, h), Rewired(f, k, z, dk.key);
    // the path above the right subtree
    SoundFrame(f, f', l, f[z].left, z);
    AroundAgree(f, f', p);
    PathFrame(f, f', p, z, root');
    RightBelow(f', l, z, p, r.key, root');
    // the left spine of the right subtree
    SpineMoved(m2, f', bk, bz, r, h, root, root');
    // the subtree that moved up
    SoundFrame(m2, f', zt.right, h, dk.key);
    SuccessorDistinct(p, t);
    PlugDistinct(d, zt.right);
  }

  lemma SpineFacts(r: Tree)
    requires r.Bin? && r.left.Bin? && Distinct(r)
    ensures var z := Leftmost(r);
      && r.key in Elems(r) && z.key in Elems(r) && z.key != r.key && r.key !in Elems(z.right)
      && z.key !in Elems(z.right) && Elems(z.right) <= Elems(r)
      && (RootOf(z.right) == null || RootOf(z.right) in Elems(z.right))
  {
    LeftmostElem(r);
    RootElem(Leftmost(r).right);
  }

  lemma RightBelow(m: Mem, l: Tree, z: VMANode, p: Where, hole: VMANode?, root: VMANode?)
    requires z in m && m[z].right == hole && Sound(m, l, m[z].left, z)
    requires m[z].parent == ParentAt(p) && PathSound(m, p, z, root)
    ensures PathSound(m, InRight(l, z, p), hole, root)
  {
  }

  lemma SuccessorIsDeeper(m: Mem, p: Where, t: Tree, root: VMANode?, g: Word)
    requires Sound(m, Plug(p, t), root, null) && Distinct(Plug(p, t))
    requires t.Bin? && t.right.Bin? && t.right.left.Bin?
    ensures var zt := Leftmost(t.right); var z, k := zt.key, t.key;
      var d := DownLeft(InRight(t.left, z, p), t.right);
      && k in m && z in m && var m0 := Regapped(m, z, g);
      && (m0[k].left == null || m0[k].left in m0) && var f := TakenOver(m0, p, k, z);
      && f.Keys == m.Keys && d.InLeft? && d.key in f && d.key == m[z].parent && d.key != z
      && (f[z].right == null || f[z].right in f) && f[z].right != k && f[k].right == t.right.key && t.right.key in f
      && Done(Rewired(f, k, z, d.key), d, zt.right, NewRoot(p, z, root))
  {
    hide Sound, Plug, Leftmost, DownLeft, Distinct, Elems, Around, PathSound, Rewired, TakenOver;
    TwoChildren(m, p, t, root);
    SpineFacts(t.right);
    DownLeftKey(InRight(t.left, t.key, p), InRight(t.left, Leftmost(t.right).key, p), t.right);
    Detached(m, p, t, root, g);
    SoundElems(m, t.right, t.right.key, t.key);
    var z, k := Leftmost(t.right).key, t.key;
    var m0 := Regapped(m, z, g);
    PathGapChange(m, m0, p, k, root, z);
    SoundFrame(m, m0, t.left, m[k].left, k);
    TakenOverSound(m0, p, t.left, k, z, root);
    RewiredPath(m, p, t, root, g, TakenOver(m0, p, k, z));
  }

  /** The successor's parent is the removed node exactly when it is its right child. */
  lemma SuccessorParent(m: Mem, p: Where, t: Tree, root: VMANode?)
    requires Sound(m, Plug(p, t), root, null) && Distinct(Plug(p, t)) && t.Bin? && t.right.Bin?
    ensures var z := Leftmost(t.right).key;
      z in m && z != t.key && (m[z].parent == t.key <==> t.right.left.Nil?)
  {
    hide Sound, Plug, Distinct, Leftmost, Around, Elems;
    TwoChildren(m, p, t, root);
    if t.right.left.Nil? {
      LeftmostTop(t.right);
      SoundChild(m, t.right, t.key);
    } else {
      Detached(m, p, t, root, 0);
      DownLeftKey(InRight(t.left, t.key, p), InRight(t.left, t.key, p), t.right);
    }
  }

  lemma LeftmostTop(t: Tree)
    requires t.Bin? && t.left.Nil?
    ensures Leftmost(t) == t
  {
  }

  // ---- resizing: the deeper of a node and its successor ---------------------------------

  lemma PathGaps(m: Mem, m': Mem, p: Where, hole: VMANode?, root: VMANode?, a: VMANode?, b: VMANode?)
    requires PathSound(m, p, hole, root) && GapChange(m, m', a, b)
    requires (a == null || a !in Sides(p)) && (b == null || b !in Sides(p))
    ensures PathSound(m', p, hole, root)
  {
    assert Agree(m, m', Sides(p));
    PathFrame(m, m', p, hole, root);
  }

  lemma {:induction false} SpineHigher(m: Mem, p: Where, t: Tree, root: VMANode?)
    requires Sound(m, Plug(p, t), root, null)
    ensures forall k :: k in Spine(p) ==> k in m && m[k].height > Ht(t)
    decreases p
  {
    match p
    case Top =>
    case InLeft(up, k, r) =>
      SpineHigher(m, up, Bin(t, k, r), root);
      SoundSplit(m, up, Bin(t, k, r), root);
      SoundRoot(m, Bin(t, k, r), k, ParentAt(up));
    case InRight(l, k, up) =>
      SpineHigher(m, up, Bin(l, k, t), root);
      SoundSplit(m, up, Bin(l, k, t), root);
      SoundRoot(m, Bin(l, k, t), k, ParentAt(up));
  }

  /** The successor is an ancestor: it is stored higher, and propagation starts at the node. */
  lemma SuccessorAbove(m: Mem, m': Mem, p: Where, t: Tree, root: VMANode?)
    requires Sound(m, Plug(p, t), root, null) && Distinct(Plug(p, t)) && t.Bin? && t.right.Nil?
    requires GapChange(m, m', t.key, SuccAt(p))
    ensures t.key in m && (SuccAt(p) != null ==> SuccAt(p) in m && m[SuccAt(p)].height > m[t.key].height)
    ensures Ready(m', p, t, root)
  {
    hide Sound, Plug, Distinct;
    AtNode(m, p, t, root);
    SuccessorOnSpine(p);
    SpineHigher(m, p, t, root);
    SoundSplit(m, p, t, root);
    SoundRoot(m, t, t.key, ParentAt(p));
    SpineNotSides(p);
    PathGaps(m, m', p, t.key, root, t.key, SuccAt(p));
    LooseGaps(m, m', p, t, SuccAt(p));
  }

  lemma LooseGaps(m: Mem, m': Mem, p: Where, t: Tree, b: VMANode?)
    requires Loose(m, t) && Distinct(t) && GapChange(m, m', t.key, b)
    requires b == null || (b !in Elems(t.left) && b !in Elems(t.right))
    ensures Loose(m', t) && m'[t.key].parent == m[t.key].parent
  {
    hide Sound;
    ChildElems(t);
    SoundFrame(m, m', t.left, m[t.key].left, t.key);
    SoundFrame(m, m', t.right, m[t.key].right, t.key);
  }

  /** The successor is below: it is stored lower, and propagation starts at it. */
  lemma SuccessorBelow(m: Mem, m': Mem, p: Where, t: Tree, root: VMANode?)
    requires Sound(m, Plug(p, t), root, null) && Distinct(Plug(p, t)) && t.Bin? && t.right.Bin?
    requires GapChange(m, m', t.key, Leftmost(t.right).key)
    ensures var z := Leftmost(t.right); var d := DownLeft(InRight(t.left, t.key, p), t.right);
      && t.key in m && z.key in m && m[z.key].height < m[t.key].height
      && Ready(m', d, z, root) && Plug(d, z) == Plug(p, t)
  {
    hide Sound, Plug, Distinct, Leftmost, DownLeft;
    var base := InRight(t.left, t.key, p);
    var z, d := Leftmost(t.right), DownLeft(base, t.right);
    PlugStep(p, t);
    DownLeftPlug(base, t.right);
    AtNode(m, d, z, root);
    SpineHigher(m, d, z, root);
    OnSpine(base, t.right);
    SoundSplit(m, d, z, root);
    SoundRoot(m, z, z.key, ParentAt(d));
    SpineNotSides(d);
    PathGaps(m, m', d, z.key, root, t.key, z.key);
    SuccessorGaps(m, m', z, t.key);
  }

  lemma SuccessorGaps(m: Mem, m': Mem, t: Tree, a: VMANode)
    requires Loose(m, t) && Distinct(t) && GapChange(m, m', a, t.key) && a !in Elems(t)
    ensures Loose(m', t) && m'[t.key].parent == m[t.key].parent
  {
    hide Sound;
    ChildElems(t);
    SoundFrame(m, m', t.left, m[t.key].left, t.key);
    SoundFrame(m, m', t.right, m[t.key].right, t.key);
  }

  lemma {:induction false} OnSpine(base: Where, t: Tree)
    requires t.Bin?
    ensures Spine(base) <= Spine(DownLeft(base, t))
    decreases t
  {
    if t.left.Bin? {
      OnSpine(InLeft(base, t.key, t.right), t.left);
    }
  }
}
