/**
  Searches for free ranges in VMA trees (dsl/vmafind.cc): find_free_bottomup and
  find_free_topdown walk the tree along child and parent pointers, skip every subtree
  whose recorded biggest gap is too small, and still give the least (greatest) answer.
 */
module VmaFree {
  import opened Basics
  import opened Words
  import opened VmaShape
  import opened VmaMem
  import opened VmaList
  import opened VmaTree
  import opened VmaGaps
  import opened VmaFind

  // ---- moving through the tree along child and parent pointers ---------------------------

  /** t is the subtree of s at position p, and the memory agrees all around it. */
  ghost predicate Cursor(m: Mem, s: Tree, root: VMANode?, p: Where, t: Tree)
  {
    && t.Bin? && Plug(p, t) == s && Apart(p, t) && t.key in m
    && Sound(m, t, t.key, ParentAt(p)) && PathSound(m, p, t.key, root)
  }

  lemma CursorStart(m: Mem, s: Tree, root: VMANode?)
    requires s.Bin? && Sound(m, s, root, null) && Distinct(s)
    ensures Cursor(m, s, root, Top, s) && root == s.key
  {
  }

  lemma CursorCell(m: Mem, s: Tree, root: VMANode?, p: Where, t: Tree)
    requires Cursor(m, s, root, p, t)
    ensures m[t.key].left == RootOf(t.left) && m[t.key].right == RootOf(t.right) && m[t.key].parent == ParentAt(p)
  {
    SoundRoot(m, t.left, m[t.key].left, t.key);
    SoundRoot(m, t.right, m[t.key].right, t.key);
  }

  lemma CursorLeft(m: Mem, s: Tree, root: VMANode?, p: Where, t: Tree)
    requires Cursor(m, s, root, p, t) && t.left.Bin?
    ensures Cursor(m, s, root, InLeft(p, t.key, t.right), t.left)
  {
    hide Cells, Entries, Elems;
    SoundRoot(m, t.left, m[t.key].left, t.key);
    ElemsBin(t);
  }

  lemma ElemsBin(t: Tree)
    requires t.Bin?
    ensures Elems(t) == Elems(t.left) + {t.key} + Elems(t.right)
  {
  }

  lemma CursorRight(m: Mem, s: Tree, root: VMANode?, p: Where, t: Tree)
    requires Cursor(m, s, root, p, t) && t.right.Bin?
    ensures Cursor(m, s, root, InRight(t.left, t.key, p), t.right)
  {
    hide Cells, Entries, Elems;
    SoundRoot(m, t.right, m[t.key].right, t.key);
    ElemsBin(t);
  }

  lemma CursorUp(m: Mem, s: Tree, root: VMANode?, p: Where, t: Tree)
    requires Cursor(m, s, root, p, t) && !p.Top? && Sound(m, s, root, null) && Distinct(s)
    ensures Cursor(m, s, root, p.up, Enclosing(p, t))
    ensures m[p.key].right == t.key <==> p.InRight?
    ensures m[p.key].left == t.key <==> p.InLeft?
  {
    var u := Enclosing(p, t);
    assert Plug(p.up, u) == s;
    SoundSplit(m, p.up, u, root);
    PlugDistinct(p.up, u);
    SoundRoot(m, u.left, m[p.key].left, p.key);
    SoundRoot(m, u.right, m[p.key].right, p.key);
    RootElem(u.left);
    RootElem(u.right);
  }

  /** The index of the cursor's node in address order. */
  ghost function Pos(p: Where, t: Tree): nat
    requires t.Bin?
  {
    |Before(p)| + |Keys(t.left)|
  }

  lemma PosFacts(q: seq<VMANode>, p: Where, t: Tree)
    requires t.Bin? && q == Keys(Plug(p, t))
    ensures Pos(p, t) < |q| && q[Pos(p, t)] == t.key
    ensures |Before(p)| + |Keys(t)| <= |q| && |Keys(t)| == |Keys(t.left)| + 1 + |Keys(t.right)|
    ensures |Before(InLeft(p, t.key, t.right))| == |Before(p)|
    ensures |Before(InRight(t.left, t.key, p))| == Pos(p, t) + 1
    ensures !p.Top? ==> |Keys(Enclosing(p, t))| > |Keys(t)|
    ensures p.InRight? ==> |Before(p.up)| + |Keys(Enclosing(p, t))| == |Before(p)| + |Keys(t)|
    ensures p.InLeft? ==> Pos(p.up, Enclosing(p, t)) == |Before(p)| + |Keys(t)|
    ensures p.InLeft? ==> |Before(p.up)| == |Before(p)|
    ensures p.InRight? ==> Pos(p.up, Enclosing(p, t)) + 1 == |Before(p)|
  {
    PlugKeys(p, t);
    assert Keys(t) == Keys(t.left) + [t.key] + Keys(t.right);
    assert q[|Before(p)| + |Keys(t.left)|] == Keys(t)[|Keys(t.left)|];
  }

  // ---- pruning -----------------------------------------------------------------------------

  /** A subtree's recorded maximum bounds the gap before each of its nodes. */
  lemma {:induction false} GapBound(m: Mem, t: Tree, n: VMANode?, p: VMANode?)
    requires Sound(m, t, n, p)
    ensures n == null || n in m
    ensures forall x :: x in Elems(t) ==> x in m && m[x].prevGap <= GapAt(m, n)
    decreases t
  {
    match t
    case Nil =>
    case Bin(l, k, r) =>
      GapBound(m, l, m[k].left, k);
      GapBound(m, r, m[k].right, k);
  }

  ghost predicate SameGaps(m: Mem, e: Ent)
  {
    forall x {:trigger m[x]} {:trigger e[x]} :: x in m && x in e ==> m[x].prevGap == e[x].prevGap
  }

  /** If the recorded maximum is below `size`, so is every gap in the subtree. */
  lemma SubtreeSmall(m: Mem, e: Ent, q: seq<VMANode>, hn: VMANode?, hp: VMANode?, p: Where, t: Tree, size: int)
    requires ListOk(e, q, hn, hp) && q == Keys(Plug(p, t)) && t.Bin? && Sound(m, t, t.key, ParentAt(p))
      && SameGaps(m, e)
    requires t.key in m && m[t.key].biggestGap < size
    ensures |Before(p)| + |Keys(t)| <= |q|
    ensures var rs := Ranges(e, q);
      forall k :: |Before(p)| <= k < |Before(p)| + |Keys(t)| ==> Hi(rs, k) - Lo(rs, k) < size
  {
    hide Cells, Entries, Sound, Before, After, Plug, ListOk;
    PlugKeys(p, t);
    ElemsKeys(t);
    GapBound(m, t, t.key, ParentAt(p));
    ListListed(e, q, hn, hp);
    var rs := Ranges(e, q);
    forall k | |Before(p)| <= k < |Before(p)| + |Keys(t)|
      ensures Hi(rs, k) - Lo(rs, k) < size
    {
      assert q[k] == Keys(t)[k - |Before(p)|];
      assert q[k] in Elems(t);
      RecordedGap(e, q, hn, hp, k);
    }
  }

  lemma ListListed(e: Ent, q: seq<VMANode>, hn: VMANode?, hp: VMANode?)
    requires ListOk(e, q, hn, hp)
    ensures Listed(e, q)
  {
  }

  // ---- what a search keeps track of --------------------------------------------------------

  /** The tree as a value. */
  datatype View = View(m: Mem, e: Ent, q: seq<VMANode>, s: Tree, root: VMANode?, hn: VMANode?, hp: VMANode?)

  ghost function ViewOf(tree: VMATree): View
    reads tree, tree.repr
  {
    View(Snap(tree.repr), Ents(tree.repr), tree.nodes, tree.shape, tree.root, tree.listNext, tree.listPrev)
  }

  ghost predicate Good(v: View)
  {
    && Distinct(v.s) && Sound(v.m, v.s, v.root, null) && v.q == Keys(v.s)
    && ListOk(v.e, v.q, v.hn, v.hp) && SameGaps(v.m, v.e)
  }

  ghost function Held(v: View): seq<Range>
    requires Good(v)
  {
    Ranges(v.e, v.q)
  }

  lemma ViewGood(tree: VMATree)
    requires tree.Valid()
    ensures Good(ViewOf(tree)) && Held(ViewOf(tree)) == Contents(tree)
  {
    hide Cells, Entries, Avl, Keys, Elems, Distinct, Sound, ListOk;
  }

  /** Where a search stands with respect to its current node: about to enter the subtree,
      to look at the gap before the node, to take the other subtree, or to leave. */
  datatype Stage = Enter | Look | Side | Up

  // ---- bottom up ---------------------------------------------------------------------------

  /** How many gaps a bottom-up search has passed. */
  ghost function Passed(at: Stage, p: Where, t: Tree): nat
    requires t.Bin?
  {
    match at
    case Enter => |Before(p)|
    case Look => Pos(p, t)
    case Side => Pos(p, t) + 1
    case Up => |Before(p)| + |Keys(t)|
  }

  ghost predicate Rising(v: View, req: Request, at: Stage, p: Where, t: Tree)
  {
    && Good(v) && Cursor(v.m, v.s, v.root, p, t) && Passed(at, p, t) <= |v.q|
    && FitsFrom(Held(v), req, Passed(at, p, t))
  }

  ghost function Rank(at: Stage): nat
  {
    match at
    case Enter => 2
    case Look => 1
    case Side => 3
    case Up => 2
  }

  ghost function Extent(at: Stage, p: Where, t: Tree): nat
  {
    if at == Up then Depth(p) else |Keys(t)|
  }

  /** The search moves on: more gaps passed, or a later stage, or a smaller extent. */
  ghost predicate Onward(at: Stage, p: Where, t: Tree, at': Stage, p': Where, t': Tree)
    requires t.Bin? && t'.Bin?
  {
    || Passed(at, p, t) < Passed(at', p', t')
    || (Passed(at, p, t) == Passed(at', p', t') && Rank(at') < Rank(at))
    || (Passed(at, p, t) == Passed(at', p', t') && Rank(at') == Rank(at) && Extent(at', p', t') < Extent(at, p, t))
  }

  lemma RisePrune(v: View, req: Request, p: Where, t: Tree)
    requires Rising(v, req, Enter, p, t) && v.m[t.key].biggestGap < req.size
    ensures Rising(v, req, Up, p, t) && Onward(Enter, p, t, Up, p, t)
  {
    hide Cells, Entries, Sound, PathSound, Before, Plug, ListOk, Distinct, FitsFrom, Apart;
    PosFacts(v.q, p, t);
    SubtreeSmall(v.m, v.e, v.q, v.hn, v.hp, p, t, req.size);
    SkipSmallUp(Held(v), req, |Before(p)|, |Before(p)| + |Keys(t)|);
  }

  lemma RiseLeft(v: View, req: Request, p: Where, t: Tree)
    requires Rising(v, req, Enter, p, t) && t.left.Bin?
    ensures Rising(v, req, Enter, InLeft(p, t.key, t.right), t.left)
    ensures Onward(Enter, p, t, Enter, InLeft(p, t.key, t.right), t.left)
  {
    hide Cells, Entries, Sound, PathSound, Before, Plug, ListOk, Distinct, FitsFrom, Apart, Cursor;
    CursorPlug(v.m, v.s, v.root, p, t);
    PosFacts(v.q, p, t);
    CursorLeft(v.m, v.s, v.root, p, t);
  }

  lemma CursorPlug(m: Mem, s: Tree, root: VMANode?, p: Where, t: Tree)
    requires Cursor(m, s, root, p, t)
    ensures t.Bin? && Plug(p, t) == s && t.key in m
  {
  }

  /** The left subtree is skipped when it lies below min. */
  lemma RiseLook(v: View, req: Request, p: Where, t: Tree)
    requires Rising(v, req, Enter, p, t) && t.key in v.e && (t.left.Nil? || v.e[t.key].first <= req.min)
    ensures Rising(v, req, Look, p, t) && Onward(Enter, p, t, Look, p, t)
  {
    hide Cells, Entries, Sound, PathSound, Before, Plug, ListOk, Distinct, Apart, Cursor;
    CursorPlug(v.m, v.s, v.root, p, t);
    PosFacts(v.q, p, t);
    if t.left.Bin? {
      RangesSorted(v.e, v.q, v.hn, v.hp);
      var rs, i := Held(v), Pos(p, t);
      assert rs[i].first == v.e[t.key].first;
      assert Lo(rs, i) <= rs[i].first by { if i > 0 { assert rs[i - 1].last < rs[i].first; } }
    }
  }

  lemma RiseSide(v: View, req: Request, p: Where, t: Tree)
    requires Rising(v, req, Look, p, t) && NoFitIn(Held(v), req, Pos(p, t))
    ensures Rising(v, req, Side, p, t) && Onward(Look, p, t, Side, p, t)
  {
    hide Cells, Entries, Sound, PathSound, Before, Plug, ListOk, Distinct, Apart, Cursor, FitsFrom, NoFitIn;
    CursorPlug(v.m, v.s, v.root, p, t);
    PosFacts(v.q, p, t);
    SkipUp(Held(v), req, Pos(p, t));
  }

  lemma RiseRight(v: View, req: Request, p: Where, t: Tree)
    requires Rising(v, req, Side, p, t) && t.right.Bin?
    ensures Rising(v, req, Enter, InRight(t.left, t.key, p), t.right)
    ensures Onward(Side, p, t, Enter, InRight(t.left, t.key, p), t.right)
  {
    hide Cells, Entries, Sound, PathSound, Before, Plug, ListOk, Distinct, Apart, Cursor, FitsFrom;
    CursorPlug(v.m, v.s, v.root, p, t);
    PosFacts(v.q, p, t);
    CursorRight(v.m, v.s, v.root, p, t);
  }

  lemma RiseDone(v: View, req: Request, p: Where, t: Tree)
    requires Rising(v, req, Side, p, t) && t.right.Nil?
    ensures Rising(v, req, Up, p, t) && Onward(Side, p, t, Up, p, t)
  {
    hide Cells, Entries, Sound, PathSound, Before, Plug, ListOk, Distinct, Apart, Cursor, FitsFrom;
    CursorPlug(v.m, v.s, v.root, p, t);
    PosFacts(v.q, p, t);
  }

  lemma RiseUp(v: View, req: Request, p: Where, t: Tree)
    requires Rising(v, req, Up, p, t) && !p.Top?
    ensures Rising(v, req, if p.InRight? then Up else Look, p.up, Enclosing(p, t))
    ensures Onward(Up, p, t, if p.InRight? then Up else Look, p.up, Enclosing(p, t))
    ensures p.key in v.m && (v.m[p.key].right == t.key <==> p.InRight?)
  {
    hide Cells, Entries, Sound, PathSound, Before, Plug, ListOk, Distinct, Apart, Cursor, FitsFrom;
    CursorPlug(v.m, v.s, v.root, p, t);
    PosFacts(v.q, p, t);
    CursorUp(v.m, v.s, v.root, p, t);
    CursorPlug(v.m, v.s, v.root, p.up, Enclosing(p, t));
    PosFacts(v.q, p.up, Enclosing(p, t));
  }

  lemma RiseEnd(v: View, req: Request, t: Tree)
    requires Rising(v, req, Up, Top, t)
    ensures FitsFrom(Held(v), req, |v.q|)
  {
    hide Cells, Entries, Sound, PathSound, Before, Plug, ListOk, Distinct, Apart, Cursor, FitsFrom;
    CursorPlug(v.m, v.s, v.root, Top, t);
    PosFacts(v.q, Top, t);
    TopIsAll(Top, t);
  }

  lemma TopIsAll(p: Where, t: Tree)
    requires p.Top?
    ensures Plug(p, t) == t && Before(p) == []
  {
  }

  // ---- the code of both searches -----------------------------------------------------------

  /** The part of the gap before `current` that lies in [min, max], and the first aligned
      address in it. */
  method GapBefore(tree: VMATree, current: VMANode, req: Request, ghost v: View, ghost i: nat)
    returns (start: Word, end: Word, alloc: Word)
    requires v == ViewOf(tree) && Good(v) && i < |v.q| && v.q[i] == current
    ensures start == GapStart(Held(v), req, i) && end == GapEnd(Held(v), req, i) && alloc == AlignUp(start, req.align)
  {
    hide Cells, Entries, Sound, ListOk, Distinct, AlignUp, Ranges, Snap, Ents, Sorted;
    PrevRange(tree, current, v, i);
    var tmp := tree.Prev(current);
    start := 0;
    if tmp != null {
      start := tmp.last + 1;
    }
    end := current.first;
    start := Max(start, req.min);
    if req.max != WORD_MAX {
      end := Min(end, req.max + 1);
    }
    alloc := AlignUp(start, req.align);
  }

  lemma PrevRange(tree: VMATree, current: VMANode, v: View, i: nat)
    requires v == ViewOf(tree) && Good(v) && i < |v.q| && v.q[i] == current
    ensures current.first == Hi(Held(v), i)
    ensures current.prev == null ==> Lo(Held(v), i) == 0
    ensures current.prev != null ==> current.prev.last + 1 == Lo(Held(v), i) && current.prev.last < current.first
  {
    hide Cells, Entries, Sound, Distinct, Keys, GapsExact, NoRepeat;
    var rs := Held(v);
    assert rs[i] == Range(v.e[current].first, v.e[current].last);
    assert v.e[v.q[i]].prev == At(v.q, i - 1);
    if i > 0 {
      assert v.e[v.q[i - 1]].last < v.e[v.q[i]].first;
    }
  }

  datatype Verdict = Found(address: Word) | Nothing | Exhausted

  /** No later gap can serve once a gap reaches max. */
  lemma AboveMax(rs: seq<Range>, req: Request, k: nat)
    requires Sorted(rs) && k < |rs| && req.size > 0 && FitsFrom(rs, req, k) && NoFitIn(rs, req, k)
      && GapEnd(rs, req, k) >= req.max
    ensures NoFit(rs, req)
  {
    forall a: Word | Fits(rs, req, a)
      ensures false
    {
    }
  }

  /** What the gap before the current node settles. */
  method LookUp(tree: VMATree, current: VMANode, req: Request, ghost v: View, ghost p: Where, ghost t: Tree)
    returns (verdict: Verdict)
    requires v == ViewOf(tree) && Rising(v, req, Look, p, t) && t.key == current && req.size > 0
      && IsAlignment(req.align)
    ensures verdict.Found? ==>
      Fits(Held(v), req, verdict.address) && forall a: Word :: Fits(Held(v), req, a) ==> verdict.address <= a
    ensures verdict.Nothing? ==> NoFit(Held(v), req)
    ensures verdict.Exhausted? ==> NoFitIn(Held(v), req, Pos(p, t))
  {
    hide Cells, Entries, Sound, PathSound, Before, Plug, ListOk, Distinct, Apart, Cursor, FitsFrom, NoFitIn, Fits,
      AlignUp, GapEnd, GapStart, NoFit, Pos, Snap, Ents;
    CursorPlug(v.m, v.s, v.root, p, t);
    PosFacts(v.q, p, t);
    ghost var rs, i := Held(v), Pos(p, t);
    RangesSorted(v.e, v.q, v.hn, v.hp);
    var start, end, alloc := GapBefore(tree, current, req, v, i);
    ExamineGap(rs, req, i, start, alloc);
    if alloc < start || end <= alloc {
      return Exhausted;
    }
    if end - alloc >= req.size {
      FirstIsLeast(rs, req, i, start, alloc);
      return Found(alloc);
    }
    if end >= req.max {
      AboveMax(rs, req, i);
      return Nothing;
    }
    return Exhausted;
  }

  /** The walk of find_free_bottomup. */
  method ScanUp(tree: VMATree, req: Request) returns (verdict: Verdict)
    requires tree.Valid() && tree.root != null && req.size > 0 && IsAlignment(req.align)
    ensures var rs := Contents(tree);
      match verdict
      case Found(b) => Fits(rs, req, b) && forall a: Word :: Fits(rs, req, a) ==> b <= a
      case Nothing => NoFit(rs, req)
      case Exhausted => FitsFrom(rs, req, |rs|)
  {
    hide Cells, Entries, Sound, PathSound, Before, Plug, ListOk, Distinct, Apart, FitsFrom, NoFitIn, Fits, NoFit, Pos,
      Avl, Elems, Keys, Passed, Ranges, Rising, Good, Depth;
    ViewGood(tree);
    ghost var v := ViewOf(tree);
    ghost var p, t := Top, tree.shape;
    ghost var n := |v.q|;
    var current, at := tree.root, Enter;
    RiseStart(v, req);
    while true
      invariant v == ViewOf(tree) && Good(v) && n == |v.q|
      invariant t.Bin? && current == t.key && Rising(v, req, at, p, t)
      decreases n - Passed(at, p, t), Rank(at), Extent(at, p, t)
    {
      RiseHere(v, req, at, p, t);
      ReadNode(tree, v, t.key);
      match at
      case Enter =>
        if current.biggestGap < req.size {
          RisePrune(v, req, p, t);
          at := Up;
        } else if current.left != null && current.first > req.min {
          RiseLeft(v, req, p, t);
          p, t, current := InLeft(p, t.key, t.right), t.left, current.left;
        } else {
          RiseLook(v, req, p, t);
          at := Look;
        }
      case Look =>
        verdict := LookUp(tree, current, req, v, p, t);
        if !verdict.Exhausted? {
          return;
        }
        RiseSide(v, req, p, t);
        at := Side;
      case Side =>
        if current.right != null {
          RiseRight(v, req, p, t);
          p, t, current, at := InRight(t.left, t.key, p), t.right, current.right, Enter;
        } else {
          RiseDone(v, req, p, t);
          at := Up;
        }
      case Up =>
        var tmp := current;
        if current.parent == null {
          RiseEnd(v, req, t);
          return Exhausted;
        }
        RiseUp(v, req, p, t);
        ReadNode(tree, v, p.key);
        current := current.parent;
        p, t := p.up, Enclosing(p, t);
        at := if current.right == tmp then Up else Look;
    }
  }

  lemma RiseHere(v: View, req: Request, at: Stage, p: Where, t: Tree)
    requires Rising(v, req, at, p, t)
    ensures t.Bin? && t.key in v.m && t.key in v.e && Passed(at, p, t) <= |v.q|
    ensures v.m[t.key].left == RootOf(t.left) && v.m[t.key].right == RootOf(t.right) && v.m[t.key].parent == ParentAt(p)
    ensures Look == at ==> Pos(p, t) <= |v.q|
  {
    hide Cells, Entries, Sound, PathSound, Before, Plug, ListOk, Distinct, Apart, Cursor, FitsFrom;
    CursorPlug(v.m, v.s, v.root, p, t);
    PosFacts(v.q, p, t);
    CursorCell(v.m, v.s, v.root, p, t);
    ListListed(v.e, v.q, v.hn, v.hp);
    assert v.q[Pos(p, t)] in v.e;
  }

  /** The view shows the fields of a node. */
  lemma ReadNode(tree: VMATree, v: View, n: VMANode)
    requires v == ViewOf(tree) && n in v.m
    ensures v.m[n].left == n.left && v.m[n].right == n.right && v.m[n].parent == n.parent
    ensures v.m[n].biggestGap == n.biggestGap
    ensures n in v.e && v.e[n].first == n.first && v.e[n].last == n.last
  {
  }

  lemma RiseStart(v: View, req: Request)
    requires Good(v) && v.root != null
    ensures v.s.Bin? && Rising(v, req, Enter, Top, v.s) && v.root == v.s.key
  {
    hide Cells, Entries, Sound, ListOk, Distinct, Fits, Apart;
    SoundRoot(v.m, v.s, v.root, null);
    CursorStart(v.m, v.s, v.root);
  }

  /** The address one past the last range, or TWO64 when that range reaches the top. */
  lemma LastRange(tree: VMATree, v: View)
    requires v == ViewOf(tree) && Good(v)
    ensures tree.listPrev == null ==> |v.q| == 0 && Lo(Held(v), |v.q|) == 0
    ensures tree.listPrev != null ==> Lo(Held(v), |v.q|) == tree.listPrev.last + 1
  {
    hide Cells, Entries, Sound, Distinct, Keys, GapsExact, NoRepeat, Chained;
    if |v.q| > 0 {
      assert Held(v)[|v.q| - 1] == Range(v.e[v.q[|v.q| - 1]].first, v.e[v.q[|v.q| - 1]].last);
    }
  }

  /** Requests that the entry checks turn away have no answer, but for max < size. */
  lemma NoRoom(rs: seq<Range>, req: Request)
    requires req.size > 0 && (req.max < req.min || req.max - req.min + 1 < req.size)
    ensures NoFit(rs, req)
  {
  }

  /** Above all ranges the room ends at max. */
  lemma LastGap(rs: seq<Range>, req: Request, start: Word, alloc: Word, end: Word)
    requires Sorted(rs) && req.size > 0 && IsAlignment(req.align)
    requires start == GapStart(rs, req, |rs|) && alloc == AlignUp(start, req.align) && end == Wrap(alloc + req.size - 1)
    ensures alloc < start || end < alloc || end > req.max ==> NoFitIn(rs, req, |rs|)
    ensures alloc >= start && end >= alloc && end <= req.max ==>
      Fits(rs, req, alloc) && GapEnd(rs, req, |rs|) - alloc >= req.size
    ensures GapEnd(rs, req, |rs|) == req.max + 1
  {
    hide Cells, Entries, AlignUp, Fits, NoFitIn, GapStart, Sorted;
    ExamineGap(rs, req, |rs|, start, alloc);
  }

  lemma NothingAboveAll(rs: seq<Range>, req: Request)
    requires FitsFrom(rs, req, |rs|) && NoFitIn(rs, req, |rs|)
    ensures NoFit(rs, req)
  {
  }

  lemma EmptyFits(tree: VMATree, req: Request)
    requires tree.Valid() && tree.root == null
    ensures Contents(tree) == [] && FitsFrom(Contents(tree), req, 0)
  {
    hide Cells, Entries, ListOk, Avl, Distinct, Fits;
    SoundRoot(Snap(tree.repr), tree.shape, tree.root, null);
  }

  /** Whether the gap above all ranges has room for the request. */
  method LastGapRoom(tree: VMATree, req: Request) returns (room: bool, start: Word, alloc: Word)
    requires tree.Valid() && req.size > 0 && IsAlignment(req.align)
    ensures var rs := Contents(tree);
      && (!room ==> NoFitIn(rs, req, |rs|))
      && (room ==>
        Fits(rs, req, alloc) && start == GapStart(rs, req, |rs|) && alloc == AlignUp(start, req.align) && start <= alloc
                   && GapEnd(rs, req, |rs|) - alloc >= req.size)
  {
    hide Cells, Entries, Sound, Plug, ListOk, Distinct, Fits, Avl, Elems, Keys, Ranges, Good, AlignUp, Wrap, Sorted;
    ghost var rs, v := Contents(tree), ViewOf(tree);
    ViewGood(tree);
    RangesSorted(v.e, v.q, v.hn, v.hp);
    LastRange(tree, v);
    room, start, alloc := false, 0, 0;
    var current := tree.Prev(null);
    if current != null {
      if current.last == WORD_MAX {
        return;
      }
      start := current.last + 1;
    }
    start := Max(start, req.min);
    alloc := AlignUp(start, req.align);
    var end := Wrap(alloc + req.size - 1);
    LastGap(rs, req, start, alloc, end);
    room := start <= alloc && alloc <= end <= req.max;
  }

  /** VMATree::find_free_bottomup: the least address at which the request fits.  It fails
      when there is none, and also on every request of more than max addresses. */
  method FindFreeBottomUp(tree: VMATree, size: Word, align: Word, min: Word, max: Word) returns (ok: bool, out: Word)
    requires tree.Valid() && IsAlignment(align)
    ensures var req := Request(size, align, min, max);
      ok <==> 0 < size <= max && !NoFit(Contents(tree), req)
    ensures var req := Request(size, align, min, max);
      ok ==> Fits(Contents(tree), req, out) && forall a: Word :: Fits(Contents(tree), req, a) ==> out <= a
  {
    hide Cells, Entries, Sound, Plug, ListOk, Distinct, FitsFrom, NoFitIn, Fits, Avl, Elems, Keys, Ranges, Good,
      AlignUp, Wrap, Sorted;
    var req := Request(size, align, min, max);
    ghost var rs := Contents(tree);
    ViewGood(tree);
    ghost var v := ViewOf(tree);
    RangesSorted(v.e, v.q, v.hn, v.hp);
    if size == 0 {
      return false, 0;
    }
    if max < min || max < size {
      if max < min { NoRoom(rs, req); }
      return false, 0;
    }
    if (max != WORD_MAX || min != 0) && max - min + 1 < size {
      NoRoom(rs, req);
      return false, 0;
    }
    if tree.root != null {
      var verdict := ScanUp(tree, req);
      match verdict
      case Found(address) => return true, address;
      case Nothing => return false, 0;
      case Exhausted =>
    }
    assert FitsFrom(rs, req, |rs|) by { if tree.root == null { EmptyFits(tree, req); } }
    ghost var start;
    ok, start, out := LastGapRoom(tree, req);
    if ok {
      FirstIsLeast(rs, req, |rs|, start, out);
    } else {
      NothingAboveAll(rs, req);
    }
  }

  // ---- top down ----------------------------------------------------------------------------

  /** Every answer lies in one of the first r gaps. */
  ghost predicate FitsBelow(rs: seq<Range>, req: Request, r: nat)
    requires r <= |rs|
  {
    if r == 0 then NoFit(rs, req) else FitsUpTo(rs, req, r - 1)
  }

  /** How many gaps a top-down search still has before it. */
  ghost function Ahead(at: Stage, p: Where, t: Tree): nat
    requires t.Bin?
  {
    match at
    case Enter => |Before(p)| + |Keys(t)|
    case Look => Pos(p, t) + 1
    case Side => Pos(p, t)
    case Up => |Before(p)|
  }

  ghost predicate Falling(v: View, req: Request, at: Stage, p: Where, t: Tree)
  {
    && Good(v) && Cursor(v.m, v.s, v.root, p, t) && Ahead(at, p, t) <= |v.q|
    && FitsBelow(Held(v), req, Ahead(at, p, t))
  }

  ghost predicate Downward(at: Stage, p: Where, t: Tree, at': Stage, p': Where, t': Tree)
    requires t.Bin? && t'.Bin?
  {
    || Ahead(at', p', t') < Ahead(at, p, t)
    || (Ahead(at, p, t) == Ahead(at', p', t') && Rank(at') < Rank(at))
    || (Ahead(at, p, t) == Ahead(at', p', t') && Rank(at') == Rank(at) && Extent(at', p', t') < Extent(at, p, t))
  }

  lemma FallPrune(v: View, req: Request, p: Where, t: Tree)
    requires Falling(v, req, Enter, p, t) && v.m[t.key].biggestGap < req.size
    ensures Falling(v, req, Up, p, t) && Downward(Enter, p, t, Up, p, t)
  {
    hide Cells, Entries, Sound, PathSound, Before, Plug, ListOk, Distinct, FitsUpTo, NoFit, Apart;
    PosFacts(v.q, p, t);
    SubtreeSmall(v.m, v.e, v.q, v.hn, v.hp, p, t, req.size);
    SkipSmallDown(Held(v), req, |Before(p)|, |Before(p)| + |Keys(t)| - 1);
  }

  lemma FallRight(v: View, req: Request, p: Where, t: Tree)
    requires Falling(v, req, Enter, p, t) && t.right.Bin?
    ensures Falling(v, req, Enter, InRight(t.left, t.key, p), t.right)
    ensures Downward(Enter, p, t, Enter, InRight(t.left, t.key, p), t.right)
  {
    hide Cells, Entries, Sound, PathSound, Before, Plug, ListOk, Distinct, FitsBelow, Apart, Cursor;
    CursorPlug(v.m, v.s, v.root, p, t);
    PosFacts(v.q, p, t);
    CursorRight(v.m, v.s, v.root, p, t);
  }

  /** The right subtree is skipped when it lies above max. */
  lemma FallLook(v: View, req: Request, p: Where, t: Tree)
    requires Falling(v, req, Enter, p, t) && req.size > 0 && t.key in v.e
      && (t.right.Nil? || v.e[t.key].last >= req.max)
    ensures Falling(v, req, Look, p, t) && Downward(Enter, p, t, Look, p, t)
  {
    hide Cells, Entries, Sound, PathSound, Before, Plug, ListOk, Distinct, Apart, Cursor, NoFit;
    CursorPlug(v.m, v.s, v.root, p, t);
    PosFacts(v.q, p, t);
    if t.right.Bin? {
      var rs, i := Held(v), Pos(p, t);
      assert rs[i].last == v.e[t.key].last;
    }
  }

  lemma FallSide(v: View, req: Request, p: Where, t: Tree)
    requires Falling(v, req, Look, p, t) && NoFitIn(Held(v), req, Pos(p, t))
    ensures Falling(v, req, Side, p, t) && Downward(Look, p, t, Side, p, t)
  {
    hide Cells, Entries, Sound, PathSound, Before, Plug, ListOk, Distinct, Apart, Cursor, FitsUpTo, NoFitIn, NoFit;
    CursorPlug(v.m, v.s, v.root, p, t);
    PosFacts(v.q, p, t);
    if Pos(p, t) > 0 {
      SkipDown(Held(v), req, Pos(p, t));
    } else {
      NothingBelow(Held(v), req, 0);
    }
  }

  lemma NothingBelow(rs: seq<Range>, req: Request, k: nat)
    requires k <= |rs| && FitsUpTo(rs, req, k) && NoFitIn(rs, req, k) && Lo(rs, k) <= req.min
    ensures NoFit(rs, req)
  {
  }

  lemma FallLeft(v: View, req: Request, p: Where, t: Tree)
    requires Falling(v, req, Side, p, t) && t.left.Bin?
    ensures Falling(v, req, Enter, InLeft(p, t.key, t.right), t.left)
    ensures Downward(Side, p, t, Enter, InLeft(p, t.key, t.right), t.left)
  {
    hide Cells, Entries, Sound, PathSound, Before, Plug, ListOk, Distinct, Apart, Cursor, FitsBelow;
    CursorPlug(v.m, v.s, v.root, p, t);
    PosFacts(v.q, p, t);
    CursorLeft(v.m, v.s, v.root, p, t);
  }

  lemma FallDone(v: View, req: Request, p: Where, t: Tree)
    requires Falling(v, req, Side, p, t) && t.left.Nil?
    ensures Falling(v, req, Up, p, t) && Downward(Side, p, t, Up, p, t)
  {
    hide Cells, Entries, Sound, PathSound, Before, Plug, ListOk, Distinct, Apart, Cursor, FitsBelow;
    CursorPlug(v.m, v.s, v.root, p, t);
    PosFacts(v.q, p, t);
  }

  lemma FallUp(v: View, req: Request, p: Where, t: Tree)
    requires Falling(v, req, Up, p, t) && !p.Top?
    ensures Falling(v, req, if p.InLeft? then Up else Look, p.up, Enclosing(p, t))
    ensures Downward(Up, p, t, if p.InLeft? then Up else Look, p.up, Enclosing(p, t))
    ensures p.key in v.m && (v.m[p.key].left == t.key <==> p.InLeft?)
  {
    hide Cells, Entries, Sound, PathSound, Before, Plug, ListOk, Distinct, Apart, Cursor, FitsBelow;
    CursorPlug(v.m, v.s, v.root, p, t);
    PosFacts(v.q, p, t);
    CursorUp(v.m, v.s, v.root, p, t);
    CursorPlug(v.m, v.s, v.root, p.up, Enclosing(p, t));
    PosFacts(v.q, p.up, Enclosing(p, t));
  }

  lemma FallEnd(v: View, req: Request, t: Tree)
    requires Falling(v, req, Up, Top, t)
    ensures NoFit(Held(v), req)
  {
    hide Cells, Entries, Sound, PathSound, Plug, ListOk, Distinct, Apart, Cursor, NoFit;
    CursorPlug(v.m, v.s, v.root, Top, t);
    TopIsAll(Top, t);
  }

  lemma FallHere(v: View, req: Request, at: Stage, p: Where, t: Tree)
    requires Falling(v, req, at, p, t)
    ensures t.Bin? && t.key in v.m && t.key in v.e && Pos(p, t) <= |v.q|
    ensures v.m[t.key].left == RootOf(t.left) && v.m[t.key].right == RootOf(t.right) && v.m[t.key].parent == ParentAt(p)
  {
    hide Cells, Entries, Sound, PathSound, Before, Plug, ListOk, Distinct, Apart, Cursor, FitsBelow;
    CursorPlug(v.m, v.s, v.root, p, t);
    PosFacts(v.q, p, t);
    CursorCell(v.m, v.s, v.root, p, t);
    ListListed(v.e, v.q, v.hn, v.hp);
    assert v.q[Pos(p, t)] in v.e;
  }

  lemma FallStart(v: View, req: Request)
    requires Good(v) && v.root != null && FitsUpTo(Held(v), req, |v.q|) && NoFitIn(Held(v), req, |v.q|)
    ensures v.s.Bin? && Falling(v, req, Enter, Top, v.s) && v.root == v.s.key
  {
    hide Cells, Entries, Sound, ListOk, Distinct, FitsUpTo, NoFitIn, Apart;
    SoundRoot(v.m, v.s, v.root, null);
    CursorStart(v.m, v.s, v.root);
    TopIsAll(Top, v.s);
    PosFacts(v.q, Top, v.s);
    SkipDown(Held(v), req, |v.q|);
  }

  /** What the gap before the current node settles, top down. */
  method LookDown(tree: VMATree, current: VMANode, req: Request, ghost v: View, ghost p: Where, ghost t: Tree)
    returns (verdict: Verdict)
    requires v == ViewOf(tree) && Falling(v, req, Look, p, t) && t.key == current && req.size > 0
      && IsAlignment(req.align)
    ensures verdict.Found? ==>
      Fits(Held(v), req, verdict.address) && forall a: Word :: Fits(Held(v), req, a) ==> a <= verdict.address
    ensures verdict.Nothing? ==> NoFit(Held(v), req)
    ensures verdict.Exhausted? ==> NoFitIn(Held(v), req, Pos(p, t))
  {
    hide Cells, Entries, Sound, PathSound, Before, Plug, ListOk, Distinct, Apart, Cursor, FitsUpTo, NoFitIn, Fits,
      AlignUp, AlignDown, GapEnd, NoFit, Pos, Snap, Ents;
    CursorPlug(v.m, v.s, v.root, p, t);
    PosFacts(v.q, p, t);
    ghost var rs, i := Held(v), Pos(p, t);
    RangesSorted(v.e, v.q, v.hn, v.hp);
    var start, end, alloc := GapBefore(tree, current, req, v, i);
    ExamineGap(rs, req, i, start, alloc);
    if alloc < start || end <= alloc {
      return Exhausted;
    }
    if end - alloc >= req.size {
      var out := AlignDown(end - req.size, req.align);
      LastIsGreatest(rs, req, i, start, alloc, out);
      return Found(out);
    }
    if start <= req.min {
      NothingBelow(rs, req, i);
      return Nothing;
    }
    return Exhausted;
  }

  /** The walk of find_free_topdown. */
  method ScanDown(tree: VMATree, req: Request) returns (verdict: Verdict)
    requires tree.Valid() && tree.root != null && req.size > 0 && IsAlignment(req.align)
    requires FitsUpTo(Contents(tree), req, |Contents(tree)|) && NoFitIn(Contents(tree), req, |Contents(tree)|)
    ensures var rs := Contents(tree);
      match verdict
      case Found(b) => Fits(rs, req, b) && forall a: Word :: Fits(rs, req, a) ==> a <= b
      case Nothing => NoFit(rs, req)
      case Exhausted => NoFit(rs, req)
  {
    hide Cells, Entries, Sound, PathSound, Before, Plug, ListOk, Distinct, Apart, FitsUpTo, NoFitIn, Fits, NoFit, Pos,
      Avl, Elems, Keys, Ahead, Ranges, Falling, Good, Depth;
    ViewGood(tree);
    ghost var v := ViewOf(tree);
    ghost var p, t := Top, tree.shape;
    var current, at := tree.root, Enter;
    FallStart(v, req);
    while true
      invariant v == ViewOf(tree) && Good(v)
      invariant t.Bin? && current == t.key && Falling(v, req, at, p, t)
      decreases Ahead(at, p, t), Rank(at), Extent(at, p, t)
    {
      FallHere(v, req, at, p, t);
      ReadNode(tree, v, t.key);
      match at
      case Enter =>
        if current.biggestGap < req.size {
          FallPrune(v, req, p, t);
          at := Up;
        } else if current.right != null && current.last < req.max {
          FallRight(v, req, p, t);
          p, t, current := InRight(t.left, t.key, p), t.right, current.right;
        } else {
          FallLook(v, req, p, t);
          at := Look;
        }
      case Look =>
        verdict := LookDown(tree, current, req, v, p, t);
        if !verdict.Exhausted? {
          return;
        }
        FallSide(v, req, p, t);
        at := Side;
      case Side =>
        if current.left != null {
          FallLeft(v, req, p, t);
          p, t, current, at := InLeft(p, t.key, t.right), t.left, current.left, Enter;
        } else {
          FallDone(v, req, p, t);
          at := Up;
        }
      case Up =>
        var tmp := current;
        if current.parent == null {
          FallEnd(v, req, t);
          return Exhausted;
        }
        FallUp(v, req, p, t);
        ReadNode(tree, v, p.key);
        current := current.parent;
        p, t := p.up, Enclosing(p, t);
        at := if current.left == tmp then Up else Look;
    }
  }

  lemma AllFitsUpTo(rs: seq<Range>, req: Request)
    ensures req.max + 1 <= TWO64 && FitsUpTo(rs, req, |rs|)
  {
  }

  lemma NothingInNone(rs: seq<Range>, req: Request)
    requires rs == [] && NoFitIn(rs, req, 0)
    ensures NoFit(rs, req)
  {
  }

  /** VMATree::find_free_topdown: the greatest address at which the request fits; it fails
      on the same requests as the bottom-up search. */
  method FindFreeTopDown(tree: VMATree, size: Word, align: Word, min: Word, max: Word) returns (ok: bool, out: Word)
    requires tree.Valid() && IsAlignment(align)
    ensures var req := Request(size, align, min, max);
      ok <==> 0 < size <= max && !NoFit(Contents(tree), req)
    ensures var req := Request(size, align, min, max);
      ok ==> Fits(Contents(tree), req, out) && forall a: Word :: Fits(Contents(tree), req, a) ==> a <= out
  {
    hide Cells, Entries, Sound, Plug, ListOk, Distinct, FitsUpTo, NoFitIn, Fits, Avl, Elems, Keys, Ranges, Good,
      AlignUp, AlignDown, Sorted;
    var req := Request(size, align, min, max);
    ghost var rs := Contents(tree);
    ViewGood(tree);
    ghost var v := ViewOf(tree);
    RangesSorted(v.e, v.q, v.hn, v.hp);
    if size == 0 {
      return false, 0;
    }
    if max < min || max < size {
      if max < min { NoRoom(rs, req); }
      return false, 0;
    }
    if (max != WORD_MAX || min != 0) && max - min + 1 < size {
      NoRoom(rs, req);
      return false, 0;
    }
    AllFitsUpTo(rs, req);
    var room, start, alloc := LastGapRoom(tree, req);
    if room {
      out := AlignDown(Wrap(max + 1 - size), align);
      LastIsGreatest(rs, req, |rs|, start, alloc, out);
      return true, out;
    }
    if tree.root == null {
      EmptyFits(tree, req);
      NothingInNone(rs, req);
      return false, 0;
    }
    var verdict := ScanDown(tree, req);
    if verdict.Found? {
      return true, verdict.address;
    }
    return false, 0;
  }
}
