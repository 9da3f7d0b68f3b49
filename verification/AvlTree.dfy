/**
  The plain AVL tree (dsl/avlfixup.cc, include/dsl/avltree.h) as a value: a tree whose nodes
  store a height, and a fixup loop that trusts the stored heights and leaves early when a
  height does not change.

  Insertion keeps the tree balanced and its heights exact.  Removal keeps the order, but
  the node that takes the place of the removed one keeps its own stored height; RemoveExact
  says exactly when the tree is still in order afterwards.
 */
module AvlTree {
  class AVLNode {
    var left: AVLNode?
    var right: AVLNode?
    var parent: AVLNode?
    var height: int
  }

  /** A tree is a value that names its nodes; their order is that of the tree. */
  type Key = AVLNode

  datatype Tree = Nil | Bin(left: Tree, key: Key, right: Tree, height: nat)

  /** The way from the root to a position. */
  datatype Path =
    | Top
    | InLeft(up: Path, key: Key, right: Tree, height: nat)
    | InRight(left: Tree, key: Key, up: Path, height: nat)

  /** node_height. */
  function H(t: Tree): nat
  {
    if t.Nil? then 0 else t.height
  }

  function Higher(a: nat, b: nat): nat
  {
    if a > b then a else b
  }

  /** new_height. */
  function NewHeight(l: Tree, r: Tree): nat
  {
    1 + Higher(H(l), H(r))
  }

  function Plug(p: Path, t: Tree): Tree
    decreases p
  {
    match p
    case Top => t
    case InLeft(up, k, r, h) => Plug(up, Bin(t, k, r, h))
    case InRight(l, k, up, h) => Plug(up, Bin(l, k, t, h))
  }

  /** Stored heights are right and every node is balanced. */
  ghost predicate Exact(t: Tree)
  {
    match t
    case Nil => true
    case Bin(l, _, r, h) => Exact(l) && Exact(r) && h == NewHeight(l, r) && -1 <= H(r) - H(l) <= 1
  }

  /** p is a position of an exact tree that held a subtree of height h. */
  ghost predicate PathExact(p: Path, h: nat)
    decreases p
  {
    match p
    case Top => true
    case InLeft(up, _, r, ph) => Exact(r) && -1 <= H(r) - h <= 1 && ph == 1 + Higher(h, H(r)) && PathExact(up, ph)
    case InRight(l, _, up, ph) => Exact(l) && -1 <= H(l) - h <= 1 && ph == 1 + Higher(h, H(l)) && PathExact(up, ph)
  }

  function TrueHeight(t: Tree): nat
  {
    match t
    case Nil => 0
    case Bin(l, _, r, _) => 1 + Higher(TrueHeight(l), TrueHeight(r))
  }

  /** The stored height of an exact tree is its height. */
  lemma {:induction false} ExactHeight(t: Tree)
    requires Exact(t)
    ensures H(t) == TrueHeight(t)
    decreases t
  {
    match t
    case Nil =>
    case Bin(l, _, r, _) =>
      ExactHeight(l);
      ExactHeight(r);
  }

  // ---- the fixup loop --------------------------------------------------------------------------

  function RotateLeft(t: Tree): Tree
    requires t.Bin? && t.right.Bin?
  {
    var z := t.right;
    var n := Bin(t.left, t.key, z.left, NewHeight(t.left, z.left));
    Bin(n, z.key, z.right, NewHeight(n, z.right))
  }

  function RotateRight(t: Tree): Tree
    requires t.Bin? && t.left.Bin?
  {
    var z := t.left;
    var n := Bin(z.right, t.key, t.right, NewHeight(z.right, t.right));
    Bin(z.left, z.key, n, NewHeight(z.left, n))
  }

  predicate Balanced(t: Tree)
    requires t.Bin?
  {
    -1 <= H(t.right) - H(t.left) <= 1
  }

  /** The loop leaves at t: it is balanced and its height does not change. */
  predicate Stops(t: Tree)
    requires t.Bin?
  {
    Balanced(t) && NewHeight(t.left, t.right) == t.height
  }

  /** What one turn of the loop makes of t. */
  function Leveled(t: Tree): Tree
    requires t.Bin?
  {
    if Balanced(t) then t.(height := NewHeight(t.left, t.right))
    else if H(t.right) < H(t.left) then
      RotateRight(if H(t.left.right) > H(t.left.left) then t.(left := RotateLeft(t.left)) else t)
    else
      RotateLeft(if H(t.right.right) < H(t.right.left) then t.(right := RotateRight(t.right)) else t)
  }

  /** AVLTree::fixup, started at t in position p. */
  function Fixup(p: Path, t: Tree): Tree
    requires t.Bin?
    decreases p, 1
  {
    if Stops(t) then Plug(p, t) else Up(p, Leveled(t))
  }

  /** The loop goes on above position p, where t is now. */
  function Up(p: Path, t: Tree): Tree
    decreases p, 0
  {
    match p
    case Top => t
    case InLeft(up, k, r, h) => Fixup(up, Bin(t, k, r, h))
    case InRight(l, k, up, h) => Fixup(up, Bin(l, k, t, h))
  }

  /** AVLTree::insert_at. */
  function InsertAt(p: Path, k: Key): Tree
  {
    Up(p, Bin(Nil, k, Nil, 1))
  }

  function Down(p: Path, t: Tree): Path
    requires t.Bin?
    decreases t
  {
    if t.left.Nil? then p else Down(InLeft(p, t.key, t.right, t.height), t.left)
  }

  function Leftmost(t: Tree): (z: Tree)
    requires t.Bin?
    ensures z.Bin? && z.left.Nil?
    decreases t
  {
    if t.left.Nil? then t else Leftmost(t.left)
  }

  /** AVLTree::remove of the root of t, which is in position p.  The successor z moves to
      its place with the height z had. */
  function Remove(p: Path, t: Tree): Tree
    requires t.Bin?
  {
    if t.left.Nil? then Up(p, t.right)
    else if t.right.Nil? then Up(p, t.left)
    else
      var z := Leftmost(t.right);
      if t.right.left.Nil? then Fixup(p, Bin(t.left, z.key, z.right, z.height))
      else Up(Down(InRight(t.left, z.key, p, z.height), t.right), z.right)
  }

  // ---- order -----------------------------------------------------------------------------------

  ghost function Keys(t: Tree): seq<Key>
  {
    match t
    case Nil => []
    case Bin(l, k, r, _) => Keys(l) + [k] + Keys(r)
  }

  ghost function Before(p: Path): seq<Key>
  {
    match p
    case Top => []
    case InLeft(up, _, _, _) => Before(up)
    case InRight(l, k, up, _) => Before(up) + Keys(l) + [k]
  }

  ghost function After(p: Path): seq<Key>
  {
    match p
    case Top => []
    case InLeft(up, k, r, _) => [k] + Keys(r) + After(up)
    case InRight(_, _, up, _) => After(up)
  }

  lemma Assoc(a: seq<Key>, b: seq<Key>, c: seq<Key>, d: seq<Key>)
    ensures a + (b + c) + d == (a + b) + c + d && a + (b + c) + d == a + b + (c + d)
  {
  }

  lemma LeveledKeys(t: Tree)
    requires t.Bin?
    ensures Keys(Leveled(t)) == Keys(t)
  {
    if !Balanced(t) {
      if H(t.right) < H(t.left) {
        if H(t.left.right) > H(t.left.left) {
          TurnKeys(t.left.left, t.left.key, t.left.right.left, t.left.right.key, t.left.right.right);
          var u := t.(left := RotateLeft(t.left));
          TurnKeys(u.left.left, u.left.key, u.left.right, u.key, u.right);
        } else {
          TurnKeys(t.left.left, t.left.key, t.left.right, t.key, t.right);
        }
      } else {
        if H(t.right.right) < H(t.right.left) {
          TurnKeys(t.right.left.left, t.right.left.key, t.right.left.right, t.right.key, t.right.right);
          var u := t.(right := RotateRight(t.right));
          TurnKeys(u.left, u.key, u.right.left, u.right.key, u.right.right);
        } else {
          TurnKeys(t.left, t.key, t.right.left, t.right.key, t.right.right);
        }
      }
    }
  }

  lemma TurnKeys(a: Tree, x: Key, b: Tree, z: Key, c: Tree)
    ensures (Keys(a) + [x] + Keys(b)) + [z] + Keys(c) == Keys(a) + [x] + (Keys(b) + [z] + Keys(c))
  {
    hide Keys;
    Regroup(Keys(a) + [x], Keys(b), [z], Keys(c));
  }

  lemma Regroup(a: seq<Key>, b: seq<Key>, c: seq<Key>, d: seq<Key>)
    ensures (a + b) + c + d == a + (b + c + d) && (a + b + c) + d == a + (b + c + d)
  {
  }

  lemma {:induction false} PlugKeys(p: Path, t: Tree)
    ensures Keys(Plug(p, t)) == Before(p) + Keys(t) + After(p)
    decreases p
  {
    match p
    case Top =>
    case InLeft(up, k, r, h) =>
      PlugKeys(up, Bin(t, k, r, h));
      Assoc(Before(up), Keys(t), [k] + Keys(r), After(up));
      Assoc([], Keys(t), [k], Keys(r));
    case InRight(l, k, up, h) =>
      PlugKeys(up, Bin(l, k, t, h));
      Assoc(Before(up), Keys(l) + [k], Keys(t), After(up));
      Assoc(Before(up), Keys(l), [k], []);
  }

  lemma {:induction false} UpKeys(p: Path, t: Tree)
    ensures Keys(Up(p, t)) == Before(p) + Keys(t) + After(p)
    decreases p, 0
  {
    hide Leveled, Stops;
    match p
    case Top =>
    case InLeft(up, k, r, h) =>
      FixupKeys(up, Bin(t, k, r, h));
      Assoc(Before(up), Keys(t), [k] + Keys(r), After(up));
      Assoc([], Keys(t), [k], Keys(r));
    case InRight(l, k, up, h) =>
      FixupKeys(up, Bin(l, k, t, h));
      Assoc(Before(up), Keys(l) + [k], Keys(t), After(up));
      Assoc(Before(up), Keys(l), [k], []);
  }

  lemma {:induction false} FixupKeys(p: Path, t: Tree)
    requires t.Bin?
    ensures Keys(Fixup(p, t)) == Before(p) + Keys(t) + After(p)
    decreases p, 1
  {
    hide Leveled, Stops, Before, After, Keys;
    if Stops(t) {
      PlugKeys(p, t);
    } else {
      LeveledKeys(t);
      UpKeys(p, Leveled(t));
    }
  }

  /** insert_at puts the key where the position is. */
  lemma InsertKeys(p: Path, k: Key)
    ensures Keys(InsertAt(p, k)) == Before(p) + [k] + After(p)
    ensures Keys(Plug(p, Nil)) == Before(p) + After(p)
  {
    hide Up, Plug, Before, After;
    UpKeys(p, Bin(Nil, k, Nil, 1));
    assert Keys(Bin(Nil, k, Nil, 1)) == [k];
    PlugKeys(p, Nil);
  }

  lemma {:induction false} DownKeys(p: Path, t: Tree)
    requires t.Bin?
    ensures Before(Down(p, t)) == Before(p)
    ensures [Leftmost(t).key] + Keys(Leftmost(t).right) + After(Down(p, t)) == Keys(t) + After(p)
    decreases t
  {
    hide Keys, Before, After;
    BinKeys(t);
    if t.left.Bin? {
      DownKeys(InLeft(p, t.key, t.right, t.height), t.left);
      LeftOf(p, t.key, t.right, t.height);
      Regroup(Keys(t.left), [t.key], Keys(t.right), After(p));
    }
  }

  lemma BinKeys(t: Tree)
    requires t.Bin?
    ensures Keys(t) == Keys(t.left) + [t.key] + Keys(t.right)
    ensures t.left.Nil? ==> Keys(t) == [t.key] + Keys(t.right)
  {
  }

  lemma LeftOf(p: Path, k: Key, r: Tree, h: nat)
    ensures After(InLeft(p, k, r, h)) == [k] + Keys(r) + After(p) && Before(InLeft(p, k, r, h)) == Before(p)
  {
  }

  /** remove takes out that one key and keeps the order of the others. */
  lemma RemoveKeys(p: Path, t: Tree)
    requires t.Bin?
    ensures Keys(Remove(p, t)) == Before(p) + Keys(t.left) + Keys(t.right) + After(p)
  {
    hide Up, Fixup, Plug, Down, Leftmost, Before, After;
    if t.left.Nil? {
      UpKeys(p, t.right);
    } else if t.right.Nil? {
      UpKeys(p, t.left);
    } else {
      var z := Leftmost(t.right);
      if t.right.left.Nil? {
        SuccessorKeys(t.left, t.right);
        FixupKeys(p, Bin(t.left, z.key, z.right, z.height));
        Assoc(Before(p), Keys(t.left), Keys(t.right), After(p));
      } else {
        var q := InRight(t.left, z.key, p, z.height);
        UpKeys(Down(q, t.right), z.right);
        DownKeys(q, t.right);
        RightOf(t.left, z.key, p, z.height);
        DeepKeys(Before(p), Keys(t.left), z.key, Keys(z.right), After(Down(q, t.right)), Keys(t.right), After(p));
      }
    }
  }

  lemma SuccessorKeys(l: Tree, r: Tree)
    requires r.Bin? && r.left.Nil?
    ensures Leftmost(r) == r && Keys(r) == [r.key] + Keys(r.right)
    ensures forall h: nat :: Keys(Bin(l, r.key, r.right, h)) == Keys(l) + Keys(r)
  {
    assert Keys(r) == [r.key] + Keys(r.right);
    assert Keys(l) + [r.key] + Keys(r.right) == Keys(l) + ([r.key] + Keys(r.right));
  }

  lemma RightOf(l: Tree, k: Key, p: Path, h: nat)
    ensures Before(InRight(l, k, p, h)) == Before(p) + Keys(l) + [k] && After(InRight(l, k, p, h)) == After(p)
  {
  }

  lemma DeepKeys(a: seq<Key>, l: seq<Key>, z: Key, zr: seq<Key>, rest: seq<Key>, r: seq<Key>, b: seq<Key>)
    requires [z] + zr + rest == r + b
    ensures (a + l + [z]) + zr + rest == a + l + r + b
  {
    assert (a + l + [z]) + zr + rest == a + l + ([z] + zr + rest);
    assert a + l + (r + b) == a + l + r + b;
  }

  // ---- balance and heights ---------------------------------------------------------------------

  lemma ExactBin(l: Tree, k: Key, r: Tree, h: nat)
    ensures Exact(Bin(l, k, r, h)) <==> Exact(l) && Exact(r) && h == NewHeight(l, r) && -1 <= H(r) - H(l) <= 1
  {
  }

  /** A tree out of balance by two is put right, no higher and at most one lower. */
  lemma TurnExact(t: Tree)
    requires t.Bin? && Exact(t.left) && Exact(t.right) && !Balanced(t) && -2 <= H(t.right) - H(t.left) <= 2
    ensures Exact(Leveled(t)) && NewHeight(t.left, t.right) - 1 <= H(Leveled(t)) <= NewHeight(t.left, t.right)
  {
    if H(t.right) < H(t.left) {
      LeftHeavy(t.left, t.key, t.right, t.height);
    } else {
      RightHeavy(t.left, t.key, t.right, t.height);
    }
  }

  lemma LeftHeavy(l: Tree, k: Key, r: Tree, h: nat)
    requires Exact(l) && Exact(r) && H(l) == H(r) + 2
    ensures var u := Leveled(Bin(l, k, r, h)); Exact(u) && H(l) <= H(u) <= H(l) + 1
  {
  }

  lemma RightHeavy(l: Tree, k: Key, r: Tree, h: nat)
    requires Exact(l) && Exact(r) && H(r) == H(l) + 2
    ensures var u := Leveled(Bin(l, k, r, h)); Exact(u) && H(r) <= H(u) <= H(r) + 1
  {
  }

  /** One turn of the loop on a node with exact children. */
  lemma LeveledExact(t: Tree)
    requires t.Bin? && Exact(t.left) && Exact(t.right) && -2 <= H(t.right) - H(t.left) <= 2
    ensures Stops(t) ==> Exact(t)
    ensures Exact(Leveled(t)) && NewHeight(t.left, t.right) - 1 <= H(Leveled(t)) <= NewHeight(t.left, t.right)
    ensures Balanced(t) ==> H(Leveled(t)) == NewHeight(t.left, t.right)
  {
    if !Balanced(t) { TurnExact(t); }
  }

  lemma {:induction false} PlugExact(p: Path, t: Tree)
    ensures Exact(Plug(p, t)) <==> Exact(t) && PathExact(p, H(t))
    decreases p
  {
    hide Exact;
    match p
    case Top =>
    case InLeft(up, k, r, h) =>
      ExactBin(t, k, r, h);
      PlugExact(up, Bin(t, k, r, h));
    case InRight(l, k, up, h) =>
      ExactBin(l, k, t, h);
      PlugExact(up, Bin(l, k, t, h));
  }

  /** The loop puts a tree right when the subtree at p changed its height by at most one. */
  lemma {:induction false} UpExact(p: Path, t: Tree, h: nat)
    requires PathExact(p, h) && Exact(t) && -1 <= H(t) - h <= 1
    ensures Exact(Up(p, t))
    decreases p, 0
  {
    hide Exact, Leveled, Stops;
    match p
    case Top =>
    case InLeft(up, k, r, ph) => FixupExact(up, Bin(t, k, r, ph), ph);
    case InRight(l, k, up, ph) => FixupExact(up, Bin(l, k, t, ph), ph);
  }

  lemma {:induction false} FixupExact(p: Path, t: Tree, h: nat)
    requires t.Bin? && PathExact(p, h) && Exact(t.left) && Exact(t.right) && -2 <= H(t.right) - H(t.left) <= 2
    requires Stops(t) ==> t.height == h
    requires h - 1 <= NewHeight(t.left, t.right) <= h + 1 && (!Balanced(t) ==> h <= NewHeight(t.left, t.right))
    ensures Exact(Fixup(p, t))
    decreases p, 1
  {
    hide Exact, Leveled, PathExact;
    LeveledExact(t);
    if Stops(t) {
      PlugExact(p, t);
    } else {
      UpExact(p, Leveled(t), h);
    }
  }

  /** insert_at keeps the tree balanced and its heights exact. */
  lemma InsertExact(p: Path, k: Key)
    requires Exact(Plug(p, Nil))
    ensures Exact(InsertAt(p, k))
  {
    hide Plug, Up;
    PlugExact(p, Nil);
    UpExact(p, Bin(Nil, k, Nil, 1), 0);
  }

  // ---- removal ---------------------------------------------------------------------------------

  /** The loop on a part p of the path only: what is at its top in the end, and whether the
      loop left inside the part. */
  function Climb(p: Path, t: Tree): (Tree, bool)
    decreases p
  {
    match p
    case Top => (t, false)
    case InLeft(up, k, r, h) =>
      var u := Bin(t, k, r, h);
      if Stops(u) then (Plug(up, u), true) else Climb(up, Leveled(u))
    case InRight(l, k, up, h) =>
      var u := Bin(l, k, t, h);
      if Stops(u) then (Plug(up, u), true) else Climb(up, Leveled(u))
  }

  /** Path p continued upwards by q. */
  function Onto(p: Path, q: Path): Path
  {
    match p
    case Top => q
    case InLeft(up, k, r, h) => InLeft(Onto(up, q), k, r, h)
    case InRight(l, k, up, h) => InRight(l, k, Onto(up, q), h)
  }

  lemma {:induction false} PlugOnto(p: Path, q: Path, t: Tree)
    ensures Plug(Onto(p, q), t) == Plug(q, Plug(p, t))
    decreases p
  {
    match p
    case Top =>
    case InLeft(up, k, r, h) => PlugOnto(up, q, Bin(t, k, r, h));
    case InRight(l, k, up, h) => PlugOnto(up, q, Bin(l, k, t, h));
  }

  lemma {:induction false} UpOnto(p: Path, q: Path, t: Tree)
    ensures var (u, left) := Climb(p, t);
      Up(Onto(p, q), t) == if left then Plug(q, u) else Up(q, u)
    decreases p
  {
    hide Leveled, Stops;
    match p
    case Top =>
    case InLeft(up, k, r, h) =>
      var u := Bin(t, k, r, h);
      if Stops(u) { PlugOnto(up, q, u); } else { UpOnto(up, q, Leveled(u)); }
    case InRight(l, k, up, h) =>
      var u := Bin(l, k, t, h);
      if Stops(u) { PlugOnto(up, q, u); } else { UpOnto(up, q, Leveled(u)); }
  }

  lemma {:induction false} DownOnto(p: Path, q: Path, t: Tree)
    requires t.Bin?
    ensures Down(Onto(p, q), t) == Onto(Down(p, t), q)
    decreases t
  {
    if t.left.Bin? { DownOnto(InLeft(p, t.key, t.right, t.height), q, t.left); }
  }

  lemma {:induction false} DownPlug(p: Path, t: Tree)
    requires t.Bin?
    ensures Plug(Down(p, t), Leftmost(t)) == Plug(p, t)
    decreases t
  {
    if t.left.Bin? { DownPlug(InLeft(p, t.key, t.right, t.height), t.left); }
  }

  lemma {:induction false} LeftmostLower(t: Tree)
    requires t.Bin? && Exact(t)
    ensures H(Leftmost(t)) <= H(t) && (t.left.Bin? ==> H(Leftmost(t)) < H(t))
    decreases t
  {
    if t.left.Bin? { LeftmostLower(t.left); }
  }

  /** The height at the top of p when there is height h at its foot. */
  function TopHeight(p: Path, h: nat): nat
  {
    match p
    case Top => h
    case InLeft(up, _, _, ph) => TopHeight(up, ph)
    case InRight(_, _, up, ph) => TopHeight(up, ph)
  }

  lemma {:induction false} PlugHeight(p: Path, t: Tree)
    ensures H(Plug(p, t)) == TopHeight(p, H(t))
    decreases p
  {
    match p
    case Top =>
    case InLeft(up, k, r, h) => PlugHeight(up, Bin(t, k, r, h));
    case InRight(l, k, up, h) => PlugHeight(up, Bin(l, k, t, h));
  }

  /** When a subtree became at most one lower, so has the part above it. */
  lemma {:induction false} ClimbExact(p: Path, t: Tree, h: nat)
    requires PathExact(p, h) && Exact(t) && h - 1 <= H(t) <= h
    ensures var u := Climb(p, t).0; Exact(u) && TopHeight(p, h) - 1 <= H(u) <= TopHeight(p, h)
    decreases p, 0
  {
    hide Exact, Leveled;
    match p
    case Top =>
    case InLeft(up, k, r, ph) => ClimbStep(up, Bin(t, k, r, ph), ph);
    case InRight(l, k, up, ph) => ClimbStep(up, Bin(l, k, t, ph), ph);
  }

  lemma {:induction false} ClimbStep(up: Path, u: Tree, h: nat)
    requires u.Bin? && PathExact(up, h) && Exact(u.left) && Exact(u.right) && u.height == h
      && -2 <= H(u.right) - H(u.left) <= 2
    requires h - 1 <= NewHeight(u.left, u.right) <= h && (!Balanced(u) ==> h <= NewHeight(u.left, u.right))
    ensures var v := if Stops(u) then Plug(up, u) else Climb(up, Leveled(u)).0;
      Exact(v) && TopHeight(up, h) - 1 <= H(v) <= TopHeight(up, h)
    decreases up, 1
  {
    hide Exact, Leveled, PathExact, Climb;
    LeveledExact(u);
    if Stops(u) {
      PlugExact(up, u);
      PlugHeight(up, u);
    } else {
      ClimbExact(up, Leveled(u), h);
    }
  }

  /** The right subtree without its leftmost node, and whether the loop left inside it. */
  function RestOf(r: Tree): (Tree, bool)
    requires r.Bin?
  {
    Climb(Down(Top, r), Leftmost(r).right)
  }

  lemma RestExact(r: Tree)
    requires r.Bin? && Exact(r)
    ensures var r' := RestOf(r).0; Exact(r') && H(r) - 1 <= H(r') <= H(r)
  {
    hide Exact, Climb, Down, PathExact;
    var p, z := Down(Top, r), Leftmost(r);
    DownPlug(Top, r);
    PlugExact(p, z);
    PlugHeight(p, z);
    ExactBin(z.left, z.key, z.right, z.height);
    ClimbExact(p, z.right, H(z));
  }

  /** Taking out the leftmost node of r makes r lower: all the way down the left side, the left
      child is the higher one, or the right child is and is itself out of level. */
  predicate Lowers(r: Tree)
    requires r.Bin?
    decreases r
  {
    || r.left.Nil?
    || (Lowers(r.left)
        && (H(r.right) < H(r.left) || (H(r.left) < H(r.right) && H(r.right.left) != H(r.right.right))))
  }

  /** The loop leaves inside r: the left child does not become lower, or it does and the right
      child has the height it had. */
  predicate LeavesInside(r: Tree)
    requires r.Bin?
  {
    r.left.Bin? && (!Lowers(r.left) || H(r.left) == H(r.right))
  }

  lemma {:induction false} ClimbOnto(p: Path, q: Path, t: Tree)
    ensures var (u, left) := Climb(p, t);
      Climb(Onto(p, q), t) == if left then (Plug(q, u), true) else Climb(q, u)
    decreases p
  {
    hide Leveled, Stops;
    match p
    case Top =>
    case InLeft(up, k, r, h) =>
      var u := Bin(t, k, r, h);
      if Stops(u) { PlugOnto(up, q, u); } else { ClimbOnto(up, q, Leveled(u)); }
    case InRight(l, k, up, h) =>
      var u := Bin(l, k, t, h);
      if Stops(u) { PlugOnto(up, q, u); } else { ClimbOnto(up, q, Leveled(u)); }
  }

  /** What becomes of r is decided by what becomes of its left child. */
  lemma RestStep(r: Tree)
    requires r.Bin? && r.left.Bin?
    ensures var (l, left) := RestOf(r.left);
      var u := Bin(l, r.key, r.right, r.height);
      RestOf(r) == if left then (u, true) else if Stops(u) then (u, true) else (Leveled(u), false)
  {
    hide Leveled, Stops, Climb;
    var q := InLeft(Top, r.key, r.right, r.height);
    assert Leftmost(r) == Leftmost(r.left) && Down(Top, r) == Down(q, r.left) && Onto(Top, q) == q;
    DownOnto(Top, q, r.left);
    ClimbOnto(Down(Top, r.left), q, Leftmost(r.left).right);
    var (l, left) := RestOf(r.left);
    OneUp(l, r.key, r.right, r.height);
  }

  lemma OneUp(l: Tree, k: Key, r: Tree, h: nat)
    ensures var q, u := InLeft(Top, k, r, h), Bin(l, k, r, h);
      Plug(q, l) == u && Climb(q, l) == if Stops(u) then (u, true) else (Leveled(u), false)
  {
    hide Leveled, Stops;
  }

  /** Heights before the removal tell whether the loop leaves inside the right subtree. */
  lemma {:induction false} RestLeaves(r: Tree)
    requires r.Bin? && Exact(r)
    ensures RestOf(r).1 <==> LeavesInside(r)
    ensures !RestOf(r).1 ==> (H(RestOf(r).0) < H(r) <==> Lowers(r))
    ensures RestOf(r).1 ==> H(RestOf(r).0) == H(r) && !Lowers(r)
    decreases r
  {
    hide RestOf;
    if r.left.Nil? {
      RestLeaf(r);
    } else {
      RestLeaves(r.left);
      RestStep(r);
      RestExact(r.left);
      var l := RestOf(r.left).0;
      if !RestOf(r.left).1 { LevelLower(l, r); }
    }
  }

  lemma RestLeaf(r: Tree)
    requires r.Bin? && r.left.Nil? && Exact(r)
    ensures RestOf(r) == (r.right, false) && H(r.right) < H(r)
  {
  }

  /** One turn of the loop above a left child that has become l. */
  lemma LevelLower(l: Tree, r: Tree)
    requires r.Bin? && r.left.Bin? && Exact(r) && Exact(l) && H(r.left) - 1 <= H(l) <= H(r.left)
    ensures var u := Bin(l, r.key, r.right, r.height);
      && (Stops(u) <==> H(l) == H(r.left) || H(r.left) == H(r.right))
      && (!Stops(u) ==>
           (H(Leveled(u)) < H(r) <==>
             H(r.right) < H(r.left) || (H(r.left) < H(r.right) && H(r.right.left) != H(r.right.right))))
  {
    hide Exact, Leveled;
    ExactBin(r.left, r.key, r.right, r.height);
    LeveledExact(Bin(l, r.key, r.right, r.height));
    if H(r.right) == H(l) + 2 {
      RightHeavyHeight(l, r.key, r.right, r.height);
    }
  }

  lemma RightHeavyHeight(l: Tree, k: Key, r: Tree, h: nat)
    requires Exact(l) && Exact(r) && H(r) == H(l) + 2
    ensures H(Leveled(Bin(l, k, r, h))) == if H(r.left) == H(r.right) then H(r) + 1 else H(r)
  {
  }

  function Sibling(p: Path): Tree
    requires !p.Top?
  {
    if p.InLeft? then p.right else p.left
  }

  /** When remove leaves wrong heights or an unbalanced node behind: the successor is the
      right child, the node was heavy to the right, and its sibling is not as high as it
      was; or the successor is deeper and the loop leaves before it gets to its new place,
      which the heights down the left side of the right subtree tell. */
  ghost predicate Spoils(p: Path, t: Tree)
    requires t.Bin?
  {
    && t.left.Bin? && t.right.Bin?
    && if t.right.left.Nil? then H(t.left) == H(t.right.right) && !p.Top? && H(Sibling(p)) != H(t)
      else LeavesInside(t.right)
  }

  lemma PathShift(p: Path, h: nat)
    requires PathExact(p, h + 1)
    ensures PathExact(p, h) <==> p.Top? || H(Sibling(p)) == h + 1
  {
  }

  /** The successor is the right child. */
  lemma NearExact(p: Path, t: Tree)
    requires t.Bin? && Exact(t) && PathExact(p, H(t)) && t.left.Bin? && t.right.Bin? && t.right.left.Nil?
    ensures Exact(Remove(p, t)) <==> !Spoils(p, t)
  {
    hide Up, Plug, PathExact, Leveled;
    var z := t.right;
    var u := Bin(t.left, z.key, z.right, z.height);
    ExactBin(t.left, t.key, t.right, t.height);
    ExactBin(z.left, z.key, z.right, z.height);
    ExactBin(t.left, z.key, z.right, z.height);
    assert Leftmost(t.right) == z;
    if H(t.left) == H(z.right) {
      PlugExact(p, u);
      PathShift(p, H(u));
    } else {
      FixupExact(p, u, H(t));
    }
  }

  /** The successor is further down. */
  lemma DeepExact(p: Path, t: Tree)
    requires t.Bin? && Exact(t) && PathExact(p, H(t)) && t.left.Bin? && t.right.Bin? && t.right.left.Bin?
    ensures Exact(Remove(p, t)) <==> !Spoils(p, t)
  {
    hide Exact, Up, Plug, PathExact, Leveled, Climb, Down, Leftmost, RestOf;
    var z := Leftmost(t.right);
    var q := InRight(t.left, z.key, p, z.height);
    var (r', left) := RestOf(t.right);
    ExactBin(t.left, t.key, t.right, t.height);
    DeepRemove(p, t);
    RestExact(t.right);
    RestLeaves(t.right);
    LeftmostLower(t.right);
    var u := Bin(t.left, z.key, r', z.height);
    ExactBin(t.left, z.key, r', z.height);
    if left {
      PlugExact(p, u);
    } else {
      FixupExact(p, u, H(t));
    }
  }

  lemma DeepRemove(p: Path, t: Tree)
    requires t.Bin? && t.left.Bin? && t.right.Bin? && t.right.left.Bin?
    ensures var z := Leftmost(t.right);
      var (r', left) := RestOf(t.right);
      var u := Bin(t.left, z.key, r', z.height);
      Remove(p, t) == if left then Plug(p, u) else Fixup(p, u)
  {
    hide Exact, Leveled, Climb, Down, Leftmost, Fixup;
    var z := Leftmost(t.right);
    var q := InRight(t.left, z.key, p, z.height);
    DownOnto(Top, q, t.right);
    UpOnto(Down(Top, t.right), q, z.right);
  }

  /** remove leaves the tree balanced and its heights exact if and only if it does not meet
      one of the two spoiling situations. */
  lemma RemoveExact(p: Path, t: Tree)
    requires t.Bin? && Exact(Plug(p, t))
    ensures Exact(Remove(p, t)) <==> !Spoils(p, t)
  {
    hide Up, Plug, PathExact, Leveled;
    PlugExact(p, t);
    if t.left.Nil? {
      UpExact(p, t.right, H(t));
    } else if t.right.Nil? {
      UpExact(p, t.left, H(t));
    } else if t.right.left.Nil? {
      NearExact(p, t);
    } else {
      DeepExact(p, t);
    }
  }

  /** Both situations occur: from each of these trees, removing node d leaves a wrong height. */
  lemma RemoveSpoilsExamples(b: Key, d: Key, e: Key, f: Key, g: Key, i: Key, k: Key, l: Key)
    ensures var leaf := (x: Key) => Bin(Nil, x, Nil, 1);
      var near := Bin(leaf(b), d, Bin(Nil, f, leaf(g), 2), 3);
      var p := InLeft(Top, i, Bin(Nil, k, leaf(l), 2), 4);
      Exact(Plug(p, near)) && !Exact(Remove(p, near))
    ensures var leaf := (x: Key) => Bin(Nil, x, Nil, 1);
      var deep := Bin(leaf(b), d, Bin(leaf(e), f, leaf(g), 2), 3);
      Exact(Plug(Top, deep)) && !Exact(Remove(Top, deep))
  {
    var near := Bin(Bin(Nil, b, Nil, 1), d, Bin(Nil, f, Bin(Nil, g, Nil, 1), 2), 3);
    var p := InLeft(Top, i, Bin(Nil, k, Bin(Nil, l, Nil, 1), 2), 4);
    assert Exact(near.left) && Exact(near.right.right) && Exact(near.right);
    assert Exact(p.right.right) && Exact(p.right);
    PlugExact(p, near);
    RemoveExact(p, near);
    var deep := Bin(Bin(Nil, b, Nil, 1), d, Bin(Bin(Nil, e, Nil, 1), f, Bin(Nil, g, Nil, 1), 2), 3);
    assert Exact(deep.left) && Exact(deep.right.left) && Exact(deep.right.right) && Exact(deep.right);
    PlugExact(Top, deep);
    assert Leftmost(deep.right) == deep.right.left && Down(Top, deep.right) == InLeft(Top, f, deep.right.right, 2);
    assert LeavesInside(deep.right);
    RemoveExact(Top, deep);
  }
}
