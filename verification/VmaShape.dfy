/**
  The pointer structure of an AVL tree, seen as a value.

  A `Shape` is the tree hanging below a node.  A `Path` is everything around one
  position of a tree: the chain of parents, innermost first, each with the
  sibling subtree on its other side.  A walk along parent pointers moves a
  (path, shape) pair.  `Rebalance` is one turn of the loop in VMATree::fixup and
  `FixUp` is the whole loop.  The theorems at the end say what it achieves.
 */
module VmaShape {
  import opened Basics

  datatype Shape<N> = Nil | Bin(left: Shape<N>, key: N, right: Shape<N>)

  datatype Path<N> =
    | Top
    | InLeft(up: Path<N>, key: N, right: Shape<N>)   // the position is the left child of key
    | InRight(left: Shape<N>, key: N, up: Path<N>)   // the position is the right child of key

  function Higher(a: nat, b: nat): nat { if a > b then a else b }

  function Ht<N>(t: Shape<N>): (h: nat)
  {
    match t
    case Nil => 0
    case Bin(l, _, r) => 1 + Higher(Ht(l), Ht(r))
  }

  function Balance<N>(t: Shape<N>): int
    requires t.Bin?
  {
    Ht(t.right) - Ht(t.left)
  }

  ghost predicate Avl<N>(t: Shape<N>)
  {
    match t
    case Nil => true
    case Bin(l, _, r) => Avl(l) && Avl(r) && -1 <= Ht(r) - Ht(l) <= 1
  }

  /** In-order sequence. */
  ghost function Keys<N>(t: Shape<N>): seq<N>
  {
    match t
    case Nil => []
    case Bin(l, k, r) => Keys(l) + [k] + Keys(r)
  }

  ghost function Elems<N>(t: Shape<N>): set<N>
  {
    match t
    case Nil => {}
    case Bin(l, k, r) => Elems(l) + {k} + Elems(r)
  }

  ghost predicate Distinct<N>(t: Shape<N>)
  {
    match t
    case Nil => true
    case Bin(l, k, r) =>
      && Distinct(l) && Distinct(r)
      && k !in Elems(l) && k !in Elems(r) && Elems(l) !! Elems(r)
  }

  /** What Distinct says about two adjacent nodes and their three subtrees. */
  lemma DistinctParts<N>(a: Shape<N>, k: N, b: Shape<N>, m: N, c: Shape<N>)
    requires Distinct(Bin(a, k, Bin(b, m, c)))
    ensures Distinct(a) && Distinct(b) && Distinct(c)
    ensures k != m && k !in Elems(a) && k !in Elems(b) && k !in Elems(c)
    ensures m !in Elems(a) && m !in Elems(b) && m !in Elems(c)
    ensures Elems(a) !! Elems(b) && Elems(a) !! Elems(c) && Elems(b) !! Elems(c)
    ensures Elems(Bin(a, k, b)) == Elems(a) + {k} + Elems(b)
    ensures Elems(Bin(b, m, c)) == Elems(b) + {m} + Elems(c)
    ensures Elems(Bin(a, k, Bin(b, m, c))) == Elems(a) + {k} + Elems(b) + {m} + Elems(c)
  {
    assert Elems(Bin(b, m, c)) == Elems(b) + {m} + Elems(c);
  }

  // ---- paths --------------------------------------------------------------

  /** The whole tree: t put back at the position described by p. */
  ghost function Plug<N>(p: Path<N>, t: Shape<N>): Shape<N>
    decreases p
  {
    match p
    case Top => t
    case InLeft(up, k, r) => Plug(up, Bin(t, k, r))
    case InRight(l, k, up) => Plug(up, Bin(l, k, t))
  }

  ghost function Before<N>(p: Path<N>): seq<N>
  {
    match p
    case Top => []
    case InLeft(up, _, _) => Before(up)
    case InRight(l, k, up) => Before(up) + Keys(l) + [k]
  }

  ghost function After<N>(p: Path<N>): seq<N>
  {
    match p
    case Top => []
    case InLeft(up, k, r) => [k] + Keys(r) + After(up)
    case InRight(_, _, up) => After(up)
  }

  /** The parents on the path. */
  ghost function Spine<N>(p: Path<N>): set<N>
  {
    match p
    case Top => {}
    case InLeft(up, k, _) => {k} + Spine(up)
    case InRight(_, k, up) => {k} + Spine(up)
  }

  /** The nodes of the sibling subtrees along the path. */
  ghost function Sides<N>(p: Path<N>): set<N>
  {
    match p
    case Top => {}
    case InLeft(up, _, r) => Elems(r) + Sides(up)
    case InRight(l, _, up) => Elems(l) + Sides(up)
  }

  ghost function Around<N>(p: Path<N>): set<N>
  {
    Spine(p) + Sides(p)
  }

  ghost predicate PathDistinct<N>(p: Path<N>)
  {
    match p
    case Top => true
    case InLeft(up, k, r) =>
      && PathDistinct(up) && Distinct(r)
      && k !in Elems(r) && k !in Around(up) && Elems(r) !! Around(up)
    case InRight(l, k, up) =>
      && PathDistinct(up) && Distinct(l)
      && k !in Elems(l) && k !in Around(up) && Elems(l) !! Around(up)
  }

  ghost function Depth<N>(p: Path<N>): nat
  {
    match p
    case Top => 0
    case InLeft(up, _, _) => 1 + Depth(up)
    case InRight(_, _, up) => 1 + Depth(up)
  }

  /** The subtree of the parent, with t at the position, and where that subtree sits. */
  ghost function Enclosing<N>(p: Path<N>, t: Shape<N>): Shape<N>
    requires !p.Top?
  {
    if p.InLeft? then Bin(t, p.key, p.right) else Bin(p.left, p.key, t)
  }

  lemma SplitRight<T>(a: seq<T>, b: seq<T>, k: T, c: seq<T>, d: seq<T>)
    ensures a + (b + [k] + c) + d == a + b + ([k] + c + d)
  {
  }

  lemma SplitLeft<T>(a: seq<T>, b: seq<T>, k: T, c: seq<T>, d: seq<T>)
    ensures a + (b + [k] + c) + d == (a + b + [k]) + c + d
  {
  }

  lemma {:induction false} PlugKeys<N>(p: Path<N>, t: Shape<N>)
    ensures Keys(Plug(p, t)) == Before(p) + Keys(t) + After(p)
    decreases p
  {
    match p
    case Top =>
    case InLeft(up, k, r) =>
      PlugKeys(up, Bin(t, k, r));
      SplitRight(Before(up), Keys(t), k, Keys(r), After(up));
    case InRight(l, k, up) =>
      PlugKeys(up, Bin(l, k, t));
      SplitLeft(Before(up), Keys(l), k, Keys(t), After(up));
  }

  lemma {:induction false} PlugDistinct<N>(p: Path<N>, t: Shape<N>)
    ensures Elems(Plug(p, t)) == Elems(t) + Around(p)
    ensures Distinct(Plug(p, t)) <==> Distinct(t) && PathDistinct(p) && Elems(t) !! Around(p)
    decreases p
  {
    match p
    case Top =>
    case InLeft(up, k, r) => PlugDistinct(up, Bin(t, k, r));
    case InRight(l, k, up) => PlugDistinct(up, Bin(l, k, t));
  }

  lemma {:induction false} ElemsKeys<N>(t: Shape<N>)
    ensures Elems(t) == set x | x in Keys(t)
  {
    match t
    case Nil =>
    case Bin(l, _, r) => ElemsKeys(l); ElemsKeys(r);
  }

  lemma NoRepeatJoin<T>(a: seq<T>, sa: set<T>, k: T, b: seq<T>, sb: set<T>)
    requires NoRepeat(a) && NoRepeat(b) && k !in a && k !in b && sa !! sb
    requires sa == (set x | x in a) && sb == (set x | x in b)
    ensures NoRepeat(a + [k] + b)
  {
    var s := a + [k] + b;
    forall i, j | 0 <= i < j < |s|
      ensures s[i] != s[j]
    {
      if i < |a| { assert s[i] == a[i] && a[i] in sa; }
      if j > |a| { assert s[j] == b[j - |a| - 1] && b[j - |a| - 1] in sb; }
      if i > |a| { assert s[i] == b[i - |a| - 1]; }
    }
  }

  lemma {:induction false} DistinctKeys<N>(t: Shape<N>)
    requires Distinct(t)
    ensures NoRepeat(Keys(t))
  {
    match t
    case Nil =>
    case Bin(l, k, r) =>
      DistinctKeys(l); DistinctKeys(r);
      ElemsKeys(l); ElemsKeys(r);
      NoRepeatJoin(Keys(l), Elems(l), k, Keys(r), Elems(r));
  }

  /** The in-order successor of a position is always an ancestor of it. */
  lemma {:induction false} SuccessorOnSpine<N>(p: Path<N>)
    ensures After(p) != [] ==> After(p)[0] in Spine(p)
  {
    match p
    case Top =>
    case InLeft(_, _, _) =>
    case InRight(_, _, up) => SuccessorOnSpine(up);
  }

  /** Where a node sits. */
  lemma {:induction false} Locate<N>(t: Shape<N>, k: N, around: Path<N>) returns (p: Path<N>, s: Shape<N>)
    requires k in Elems(t)
    ensures s.Bin? && s.key == k && Plug(p, s) == Plug(around, t)
    decreases t
  {
    if t.key == k {
      return around, t;
    } else if k in Elems(t.left) {
      p, s := Locate(t.left, k, InLeft(around, t.key, t.right));
    } else {
      p, s := Locate(t.right, k, InRight(t.left, t.key, around));
    }
  }

  // ---- rebalancing --------------------------------------------------------

  function RotateLeft<N>(t: Shape<N>): Shape<N>
    requires t.Bin? && t.right.Bin?
  {
    Bin(Bin(t.left, t.key, t.right.left), t.right.key, t.right.right)
  }

  function RotateRight<N>(t: Shape<N>): Shape<N>
    requires t.Bin? && t.left.Bin?
  {
    Bin(t.left.left, t.left.key, Bin(t.left.right, t.key, t.right))
  }

  /** One turn of the fixup loop: rotate the child first when it leans the other way. */
  function Rebalance<N>(t: Shape<N>): Shape<N>
  {
    if t.Nil? || -1 <= Balance(t) <= 1 then t
    else if Balance(t) < 0 then
      RotateRight(if Balance(t.left) > 0 then t.(left := RotateLeft(t.left)) else t)
    else
      RotateLeft(if Balance(t.right) < 0 then t.(right := RotateRight(t.right)) else t)
  }

  /** The whole fixup loop started at shape t in position p. */
  function FixUp<N>(p: Path<N>, t: Shape<N>): Shape<N>
    decreases p
  {
    match p
    case Top => Rebalance(t)
    case InLeft(up, k, r) => FixUp(up, Bin(Rebalance(t), k, r))
    case InRight(l, k, up) => FixUp(up, Bin(l, k, Rebalance(t)))
  }

  /** p is a position of an AVL tree that held a subtree of height h. */
  ghost predicate PathAvl<N>(p: Path<N>, h: nat)
    decreases p
  {
    match p
    case Top => true
    case InLeft(up, _, r) =>
      Avl(r) && -1 <= Ht(r) - h <= 1 && PathAvl(up, 1 + Higher(h, Ht(r)))
    case InRight(l, _, up) =>
      Avl(l) && -1 <= Ht(l) - h <= 1 && PathAvl(up, 1 + Higher(h, Ht(l)))
  }

  lemma {:induction false} PlugAvl<N>(p: Path<N>, t: Shape<N>)
    ensures Avl(Plug(p, t)) <==> Avl(t) && PathAvl(p, Ht(t))
    decreases p
  {
    hide Avl, Ht;
    match p
    case Top =>
    case InLeft(up, k, r) =>
      AvlBin(t, k, r);
      PlugAvl(up, Bin(t, k, r));
    case InRight(l, k, up) =>
      AvlBin(l, k, t);
      PlugAvl(up, Bin(l, k, t));
  }

  lemma AvlBin<N>(l: Shape<N>, k: N, r: Shape<N>)
    ensures Avl(Bin(l, k, r)) <==> Avl(l) && Avl(r) && -1 <= Ht(r) - Ht(l) <= 1
    ensures Ht(Bin(l, k, r)) == 1 + Higher(Ht(l), Ht(r))
  {
  }

  lemma RebalanceKeys<N>(t: Shape<N>)
    ensures Keys(Rebalance(t)) == Keys(t)
    ensures Elems(Rebalance(t)) == Elems(t)
    ensures Distinct(t) ==> Distinct(Rebalance(t))
  {
    if t.Nil? || -1 <= Balance(t) <= 1 {
    } else if Balance(t) < 0 {
      if Balance(t.left) > 0 {
        RotateLeftKeys(t.left);
        RotateRightKeys(t.(left := RotateLeft(t.left)));
      } else {
        RotateRightKeys(t);
      }
    } else if Balance(t.right) < 0 {
      RotateRightKeys(t.right);
      RotateLeftKeys(t.(right := RotateRight(t.right)));
    } else {
      RotateLeftKeys(t);
    }
  }

  lemma RegroupKeys<N>(a: Shape<N>, k: N, b: Shape<N>, m: N, c: Shape<N>)
    ensures Keys(Bin(Bin(a, k, b), m, c)) == Keys(Bin(a, k, Bin(b, m, c)))
  {
    assert Keys(Bin(Bin(a, k, b), m, c)) == (Keys(a) + [k] + Keys(b)) + [m] + Keys(c);
    SplitLeft(Keys(a) + [k], Keys(b), m, Keys(c), []);
    SplitRight([], Keys(a), k, Keys(b) + [m] + Keys(c), []);
  }

  lemma RegroupElems<N>(a: Shape<N>, k: N, b: Shape<N>, m: N, c: Shape<N>)
    ensures Elems(Bin(Bin(a, k, b), m, c)) == Elems(Bin(a, k, Bin(b, m, c)))
    ensures Distinct(Bin(Bin(a, k, b), m, c)) <==> Distinct(Bin(a, k, Bin(b, m, c)))
  {
    assert Elems(Bin(a, k, b)) == Elems(a) + {k} + Elems(b);
    assert Elems(Bin(b, m, c)) == Elems(b) + {m} + Elems(c);
  }

  lemma RotateLeftKeys<N>(t: Shape<N>)
    requires t.Bin? && t.right.Bin?
    ensures Keys(RotateLeft(t)) == Keys(t) && Elems(RotateLeft(t)) == Elems(t)
    ensures Distinct(t) <==> Distinct(RotateLeft(t))
  {
    RegroupKeys(t.left, t.key, t.right.left, t.right.key, t.right.right);
    RegroupElems(t.left, t.key, t.right.left, t.right.key, t.right.right);
  }

  lemma RotateRightKeys<N>(t: Shape<N>)
    requires t.Bin? && t.left.Bin?
    ensures Keys(RotateRight(t)) == Keys(t) && Elems(RotateRight(t)) == Elems(t)
    ensures Distinct(t) <==> Distinct(RotateRight(t))
  {
    RegroupKeys(t.left.left, t.left.key, t.left.right, t.key, t.right);
    RegroupElems(t.left.left, t.left.key, t.left.right, t.key, t.right);
  }

  /** One turn repairs a node whose subtrees are AVL trees at most two levels apart,
      and makes it lower by at most one level. */
  lemma RebalanceAvl<N>(t: Shape<N>)
    requires t.Bin? && Avl(t.left) && Avl(t.right) && -2 <= Balance(t) <= 2
    ensures Avl(Rebalance(t))
    ensures Ht(t) - 1 <= Ht(Rebalance(t)) <= Ht(t)
    ensures -1 <= Balance(t) <= 1 ==> Rebalance(t) == t
  {
    if Balance(t) == 2 {
      RebalanceRightHeavy(t.left, t.key, t.right);
    } else if Balance(t) == -2 {
      RebalanceLeftHeavy(t.left, t.key, t.right);
    }
  }

  lemma RebalanceRightHeavy<N>(l: Shape<N>, k: N, z: Shape<N>)
    requires Avl(l) && Avl(z) && Ht(z) == Ht(l) + 2
    ensures var t := Bin(l, k, z); Avl(Rebalance(t)) && Ht(t) - 1 <= Ht(Rebalance(t)) <= Ht(t)
  {
    var t := Bin(l, k, z);
    if Balance(z) < 0 {
      var y := z.left;
      assert Rebalance(t) == Bin(Bin(l, k, y.left), y.key, Bin(y.right, z.key, z.right));
    } else {
      assert Rebalance(t) == Bin(Bin(l, k, z.left), z.key, z.right);
    }
  }

  lemma RebalanceLeftHeavy<N>(z: Shape<N>, k: N, r: Shape<N>)
    requires Avl(z) && Avl(r) && Ht(z) == Ht(r) + 2
    ensures var t := Bin(z, k, r); Avl(Rebalance(t)) && Ht(t) - 1 <= Ht(Rebalance(t)) <= Ht(t)
  {
    var t := Bin(z, k, r);
    if Balance(z) > 0 {
      var y := z.right;
      assert Rebalance(t) == Bin(Bin(z.left, z.key, y.left), y.key, Bin(y.right, k, r));
    } else {
      assert Rebalance(t) == Bin(z.left, z.key, Bin(z.right, k, r));
    }
  }

  /** The fixup loop keeps the sequence of nodes. */
  lemma {:induction false} FixUpKeys<N>(p: Path<N>, t: Shape<N>)
    ensures Keys(FixUp(p, t)) == Before(p) + Keys(t) + After(p)
    ensures Elems(FixUp(p, t)) == Elems(t) + Around(p)
    ensures Distinct(t) && PathDistinct(p) && Elems(t) !! Around(p) ==> Distinct(FixUp(p, t))
    decreases p
  {
    RebalanceKeys(t);
    match p
    case Top =>
    case InLeft(up, k, r) =>
      var s := Bin(Rebalance(t), k, r);
      FixUpKeys(up, s);
      SplitRight(Before(up), Keys(t), k, Keys(r), After(up));
    case InRight(l, k, up) =>
      var s := Bin(l, k, Rebalance(t));
      FixUpKeys(up, s);
      SplitLeft(Before(up), Keys(l), k, Keys(t), After(up));
  }

  /** A level whose child changed height by at most one comes out of its turn as
      an AVL tree, and has itself changed height by at most one. */
  lemma LevelChange<N>(h: nat, side: nat, u: Shape<N>)
    requires u.Bin? && Avl(u.left) && Avl(u.right)
    requires -1 <= side - h <= 1
    requires (Ht(u.left) == side && h - 1 <= Ht(u.right) <= h + 1)
      || (Ht(u.right) == side && h - 1 <= Ht(u.left) <= h + 1)
    ensures Avl(Rebalance(u))
    ensures var was := 1 + Higher(h, side); was - 1 <= Ht(Rebalance(u)) <= was + 1
  {
    RebalanceAvl(u);
  }

  /** A tree whose subtree at one position was replaced by one that its turn of the
      loop makes an AVL tree of height one more, one less or the same is an AVL tree
      again after the whole loop. */
  lemma {:induction false} FixUpAvl<N>(p: Path<N>, t: Shape<N>, h: nat)
    requires PathAvl(p, h)
    requires Avl(Rebalance(t)) && h - 1 <= Ht(Rebalance(t)) <= h + 1
    ensures Avl(FixUp(p, t))
    decreases p
  {
    hide Avl, Ht, Rebalance;
    match p
    case Top =>
    case InLeft(up, k, r) =>
      var u := Bin(Rebalance(t), k, r);
      LevelChange(h, Ht(r), u);
      FixUpAvl(up, u, 1 + Higher(h, Ht(r)));
    case InRight(l, k, up) =>
      var u := Bin(l, k, Rebalance(t));
      LevelChange(h, Ht(l), u);
      FixUpAvl(up, u, 1 + Higher(h, Ht(l)));
  }

  /** A leaf can be grown at any empty position of an AVL tree. */
  lemma GrowAvl<N>(p: Path<N>, k: N)
    requires Avl(Plug(p, Nil))
    ensures Avl(FixUp(p, Bin(Nil, k, Nil)))
  {
    PlugAvl(p, Nil);
    FixUpAvl(p, Bin(Nil, k, Nil), 0);
  }

  lemma GrowKeys<N>(p: Path<N>, k: N)
    requires Distinct(Plug(p, Nil)) && k !in Elems(Plug(p, Nil))
    ensures var t := FixUp(p, Bin(Nil, k, Nil));
      && Keys(t) == Before(p) + [k] + After(p) && Distinct(t)
      && Elems(t) == Elems(Plug(p, Nil)) + {k}
    ensures Keys(Plug(p, Nil)) == Before(p) + After(p)
  {
    hide FixUp, Plug, Before, After, Keys, Elems, Distinct, PathDistinct, Around;
    LeafFacts(k);
    PlugDistinct(p, Nil);
    PlugKeys(p, Nil);
    FixUpKeys(p, Bin(Nil, k, Nil));
  }

  lemma LeafFacts<N>(k: N)
    ensures Keys<N>(Nil) == [] && Elems<N>(Nil) == {} && Distinct<N>(Nil)
    ensures Keys(Bin(Nil, k, Nil)) == [k] && Elems(Bin(Nil, k, Nil)) == {k} && Distinct(Bin(Nil, k, Nil))
  {
  }

  // ---- the leftmost node of a subtree ---------------------------------------

  /** The path from t, which sits at base, down to its leftmost node. */
  ghost function DownLeft<N>(base: Path<N>, t: Shape<N>): Path<N>
    decreases t
  {
    if t.Nil? || t.left.Nil? then base else DownLeft(InLeft(base, t.key, t.right), t.left)
  }

  ghost function Leftmost<N>(t: Shape<N>): Shape<N>
    requires t.Bin?
    ensures Leftmost(t).Bin? && Leftmost(t).left.Nil?
  {
    if t.left.Nil? then t else Leftmost(t.left)
  }

  lemma {:induction false} DownLeftPlug<N>(base: Path<N>, t: Shape<N>)
    requires t.Bin?
    ensures Plug(DownLeft(base, t), Leftmost(t)) == Plug(base, t)
    ensures Before(DownLeft(base, t)) == Before(base)
    ensures Keys(Leftmost(t)) + After(DownLeft(base, t)) == Keys(t) + After(base)
    ensures |Keys(t)| > 0 && Leftmost(t).key == Keys(t)[0]
    decreases t
  {
    if t.left.Bin? {
      DownLeftPlug(InLeft(base, t.key, t.right), t.left);
      SplitRight([], Keys(t.left), t.key, Keys(t.right), After(base));
    }
  }

  // ---- taking a node out --------------------------------------------------------

  /** The tree after remove() of the node at p: with at most one child it is spliced
      out, otherwise its successor takes its place and the successor's old position
      gets the successor's right child. */
  ghost function Without<N>(p: Path<N>, t: Shape<N>): Shape<N>
    requires t.Bin?
  {
    if t.right.Nil? then FixUp(p, t.left)
    else if t.left.Nil? then FixUp(p, t.right)
    else var z := Leftmost(t.right);
      FixUp(DownLeft(InRight(t.left, z.key, p), t.right), z.right)
  }

  lemma {:induction false} DistinctFromKeys<N>(t: Shape<N>)
    requires NoRepeat(Keys(t))
    ensures Distinct(t)
  {
    match t
    case Nil =>
    case Bin(l, k, r) =>
      var q := Keys(t);
      assert forall i :: 0 <= i < |Keys(l)| ==> Keys(l)[i] == q[i];
      assert q[|Keys(l)|] == k;
      assert forall i :: 0 <= i < |Keys(r)| ==> Keys(r)[i] == q[|Keys(l)| + 1 + i];
      DistinctFromKeys(l);
      DistinctFromKeys(r);
      ElemsKeys(l);
      ElemsKeys(r);
  }

  /** Replacing a node's key keeps heights. */
  lemma RekeyAvl<N>(p: Path<N>, l: Shape<N>, k: N, z: N, r: Shape<N>)
    requires Avl(Plug(p, Bin(l, k, r)))
    ensures Avl(Plug(p, Bin(l, z, r)))
  {
    hide Plug, PathAvl;
    PlugAvl(p, Bin(l, k, r));
    PlugAvl(p, Bin(l, z, r));
    assert Ht(Bin(l, k, r)) == Ht(Bin(l, z, r));
  }

  lemma WithoutAvl<N>(p: Path<N>, t: Shape<N>)
    requires t.Bin? && Avl(Plug(p, t))
    ensures Avl(Without(p, t))
  {
    PlugAvl(p, t);
    if t.right.Nil? {
      FixUpAvl(p, t.left, Ht(t));
    } else if t.left.Nil? {
      FixUpAvl(p, t.right, Ht(t));
    } else {
      var z := Leftmost(t.right);
      var base := InRight(t.left, z.key, p);
      RekeyAvl(p, t.left, t.key, z.key, t.right);
      DownLeftPlug(base, t.right);
      PlugAvl(DownLeft(base, t.right), z);
      FixUpAvl(DownLeft(base, t.right), z.right, Ht(z));
    }
  }

  lemma WithoutKeys<N>(p: Path<N>, t: Shape<N>)
    requires t.Bin?
    ensures Keys(Without(p, t)) == (Before(p) + Keys(t.left)) + (Keys(t.right) + After(p))
    ensures Keys(Plug(p, t)) == (Before(p) + Keys(t.left)) + [t.key] + (Keys(t.right) + After(p))
  {
    hide FixUp, Plug, DownLeft, Leftmost, Before, After, Keys;
    PlugKeys(p, t);
    KeysBin(t);
    AroundKey(Before(p), Keys(t.left), t.key, Keys(t.right), After(p));
    if t.right.Nil? {
      FixUpKeys(p, t.left);
      NoKeys(t.right);
    } else if t.left.Nil? {
      FixUpKeys(p, t.right);
      NoKeys(t.left);
      Regroup(Before(p), [], Keys(t.right), After(p));
    } else {
      SuccessorKeys(p, t.left, t.right);
    }
  }

  lemma KeysBin<N>(t: Shape<N>)
    requires t.Bin?
    ensures Keys(t) == Keys(t.left) + [t.key] + Keys(t.right)
  {
  }

  lemma NoKeys<N>(t: Shape<N>)
    requires t.Nil?
    ensures Keys(t) == []
  {
  }

  lemma SuccessorKeys<N>(p: Path<N>, l: Shape<N>, r: Shape<N>)
    requires r.Bin?
    ensures var z := Leftmost(r);
      Keys(FixUp(DownLeft(InRight(l, z.key, p), r), z.right)) == (Before(p) + Keys(l)) + (Keys(r) + After(p))
  {
    hide FixUp, DownLeft, Leftmost;
    var z := Leftmost(r);
    var base := InRight(l, z.key, p);
    var d := DownLeft(base, r);
    DownLeftPlug(base, r);
    FixUpKeys(d, z.right);
    assert Keys(z) == [z.key] + Keys(z.right);
    hide Keys;
    Regroup(Before(p) + Keys(l), [z.key], Keys(z.right), After(d));
  }

  lemma Regroup<T>(a: seq<T>, b: seq<T>, c: seq<T>, d: seq<T>)
    ensures (a + b) + c + d == a + ((b + c) + d)
  {
  }

  lemma AroundKey<T>(a: seq<T>, b: seq<T>, k: T, c: seq<T>, d: seq<T>)
    ensures a + (b + [k] + c) + d == (a + b) + [k] + (c + d)
  {
  }

  lemma NoRepeatDrop<T>(a: seq<T>, k: T, b: seq<T>)
    requires NoRepeat(a + [k] + b)
    ensures NoRepeat(a + b)
  {
    var s, r := a + [k] + b, a + b;
    forall i, j | 0 <= i < j < |r|
      ensures r[i] != r[j]
    {
      assert r[i] == s[if i < |a| then i else i + 1];
      assert r[j] == s[if j < |a| then j else j + 1];
    }
  }

  /** With the successor's key in the removed node's place, nothing occurs twice. */
  lemma SuccessorDistinct<N>(p: Path<N>, t: Shape<N>)
    requires t.Bin? && t.right.Bin? && Distinct(Plug(p, t))
    ensures var z := Leftmost(t.right);
      Distinct(Plug(DownLeft(InRight(t.left, z.key, p), t.right), z.right))
  {
    hide Plug, DownLeft, Leftmost, FixUp, Distinct, NoRepeat, Without;
    var z := Leftmost(t.right);
    var d := DownLeft(InRight(t.left, z.key, p), t.right);
    DistinctKeys(Plug(p, t));
    WithoutKeys(p, t);
    SuccessorKeys(p, t.left, t.right);
    FixUpKeys(d, z.right);
    PlugKeys(d, z.right);
    NoRepeatDrop(Before(p) + Keys(t.left), t.key, Keys(t.right) + After(p));
    DistinctFromKeys(Plug(d, z.right));
  }

  /** Where the fixup loop may start after the successor took the node's place: its old
      right subtree is balanced already. */
  lemma SuccessorFix<N>(p: Path<N>, t: Shape<N>)
    requires t.Bin? && t.left.Bin? && t.right.Bin? && Avl(Plug(p, t))
    ensures Rebalance(Leftmost(t.right).right) == Leftmost(t.right).right
    ensures t.right.left.Nil? ==> Without(p, t) == FixUp(p, Bin(t.left, t.right.key, t.right.right))
  {
    PlugAvl(p, t);
    LeftmostAvl(t.right);
  }

  lemma {:induction false} LeftmostAvl<N>(t: Shape<N>)
    requires t.Bin? && Avl(t)
    ensures Avl(Leftmost(t))
  {
    if t.left.Bin? {
      LeftmostAvl(t.left);
    }
  }
}
