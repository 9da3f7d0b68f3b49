/**
  Lookups in VMA trees (dsl/vmafind.cc): by address, and for free ranges.
 */
module VmaFind {
  import opened Basics
  import opened Words
  import opened VmaShape
  import opened VmaMem
  import opened VmaList
  import opened VmaTree
  import opened VmaGaps

  /** The ranges of the listed nodes, in order. */
  ghost function Ranges(e: Ent, q: seq<VMANode>): (rs: seq<Range>)
    requires Listed(e, q)
    ensures |rs| == |q| && forall i {:trigger rs[i]} :: 0 <= i < |q| ==> rs[i] == Range(e[q[i]].first, e[q[i]].last)
  {
    seq(|q|, i requires 0 <= i < |q| && Listed(e, q) => Range(e[q[i]].first, e[q[i]].last))
  }

  lemma RangesSorted(e: Ent, q: seq<VMANode>, hn: VMANode?, hp: VMANode?)
    requires ListOk(e, q, hn, hp)
    ensures Sorted(Ranges(e, q))
  {
    var rs := Ranges(e, q);
    forall i | 0 <= i < |rs|
      ensures rs[i].first <= rs[i].last
    {
      assert e[q[i]].first <= e[q[i]].last;
    }
    forall i, j | 0 <= i < j < |rs|
      ensures rs[i].last < rs[j].first
    {
      assert e[q[i]].last < e[q[j]].first;
    }
  }

  /** A recorded gap is the size of the gap. */
  lemma RecordedGap(e: Ent, q: seq<VMANode>, hn: VMANode?, hp: VMANode?, i: nat)
    requires ListOk(e, q, hn, hp) && i < |q|
    ensures var rs := Ranges(e, q); e[q[i]].prevGap == Hi(rs, i) - Lo(rs, i)
  {
    assert e[q[i]].prevGap == if i == 0 then e[q[i]].first else e[q[i]].first - e[q[i - 1]].last - 1;
  }

  /** What the tree holds, as ranges. */
  ghost function Contents(tree: VMATree): (rs: seq<Range>)
    requires tree.Valid()
    reads tree, tree.repr
  {
    Ranges(Ents(tree.repr), tree.nodes)
  }

  lemma ListAscending(e: Ent, q: seq<VMANode>, hn: VMANode?, hp: VMANode?)
    requires ListOk(e, q, hn, hp)
    ensures Listed(e, q) && Ascending(e, q)
  {
  }

  // ---- lookups by address -------------------------------------------------------------

  /** VMATree::find: the node that contains addr. */
  method Find(tree: VMATree, addr: Word) returns (found: VMANode?)
    requires tree.Valid()
    ensures found != null ==> found in tree.repr && found.first <= addr <= found.last
    ensures found == null ==> forall n :: n in tree.repr ==> !(n.first <= addr <= n.last)
  {
    hide Cells, Entries, Keys, Elems, Avl, Distinct, ListOk, PredAt;
    ghost var m, e, q := Snap(tree.repr), Ents(tree.repr), tree.nodes;
    ListAscending(e, q, tree.listNext, tree.listPrev);
    ghost var p, t := Top, tree.shape;
    ghost var s := t;
    found := tree.root;
    while found != null && !(found.first <= addr <= found.last)
      invariant m == Snap(tree.repr) && e == Ents(tree.repr)
      invariant Plug(p, t) == s && found == RootOf(t) && Sound(m, t, found, ParentAt(p))
      invariant AllBelow(e, Before(p), addr) && AllAbove(e, After(p), addr)
      decreases t
    {
      if addr < found.first {
        DescendLeft(e, q, p, t, addr);
        p, t, found := InLeft(p, found, t.right), t.left, found.left;
      } else {
        DescendRight(e, q, p, t, addr);
        p, t, found := InRight(t.left, found, p), t.right, found.right;
      }
    }
    if found == null {
      NowhereElse(e, q, s, p, addr);
    }
  }

  /** At an empty position every node lies before or after. */
  lemma NowhereElse(e: Ent, q: seq<VMANode>, s: Tree, p: Where, addr: int)
    requires q == Keys(s) && s == Plug(p, Nil) && AllBelow(e, Before(p), addr) && AllAbove(e, After(p), addr)
    ensures forall n :: n in Elems(s) ==> n in e && (addr < e[n].first || e[n].last < addr)
  {
    hide Cells, Entries, Before, After, Plug;
    PlugKeys(p, Nil);
    ElemsKeys(s);
    assert q == Before(p) + After(p);
    forall n | n in Elems(s)
      ensures n in e && (addr < e[n].first || e[n].last < addr)
    {
      assert n in q;
    }
  }

  /** VMATree::find_above: the lowest node that ends at or above addr. */
  method FindAbove(tree: VMATree, addr: Word) returns (found: VMANode?, ghost i: nat)
    requires tree.Valid()
    ensures i <= |tree.nodes| && found == At(tree.nodes, i)
    ensures forall j :: 0 <= j < |tree.nodes| ==> (tree.nodes[j].last < addr <==> j < i)
    ensures found == null ==> forall n :: n in tree.repr ==> n.last < addr
    ensures found != null ==>
      && found in tree.repr && addr <= found.last
      && forall n :: n in tree.repr && addr <= n.last ==> found.first <= n.first
  {
    hide Cells, Entries, Keys, Elems, Avl, Distinct, ListOk, PredAt;
    ghost var m, e, q := Snap(tree.repr), Ents(tree.repr), tree.nodes;
    ListAscending(e, q, tree.listNext, tree.listPrev);
    ghost var p, t := Top, tree.shape;
    ghost var s := t;
    var current := tree.root;
    found := null;
    while current != null
      invariant m == Snap(tree.repr) && e == Ents(tree.repr)
      invariant Plug(p, t) == s && current == RootOf(t) && Sound(m, t, current, ParentAt(p))
      invariant AllBelow(e, Before(p), addr)
      invariant found == SuccAt(p) && (found != null ==> found in e && addr <= e[found].last)
      decreases t
    {
      if addr > current.last {
        DescendRight(e, q, p, t, addr);
        p, t, current := InRight(t.left, current, p), t.right, current.right;
      } else {
        found := current;
        p, t, current := InLeft(p, current, t.right), t.left, current.left;
      }
    }
    i := |Before(p)|;
    SplitAbove(e, q, tree.listNext, tree.listPrev, p, addr);
    AboveIsFirst(e, q, tree.repr, s, i, addr);
  }

  /** In ascending order the first node that ends at or above addr starts lowest. */
  lemma AboveIsFirst(e: Ent, q: seq<VMANode>, nodes: set<VMANode>, s: Tree, i: nat, addr: int)
    requires Listed(e, q) && Ascending(e, q) && q == Keys(s) && nodes == Elems(s) && e.Keys == nodes && i <= |q|
    requires forall j {:trigger e[q[j]]} :: 0 <= j < |q| ==> (e[q[j]].last < addr <==> j < i)
    ensures i == |q| ==> forall n :: n in nodes ==> e[n].last < addr
    ensures i < |q| ==>
      && q[i] in nodes && addr <= e[q[i]].last
      && forall n :: n in nodes && addr <= e[n].last ==> e[q[i]].first <= e[n].first
  {
    hide Keys, Elems;
    ElemsKeys(s);
    forall n | n in nodes
      ensures if i == |q| then e[n].last < addr else addr <= e[n].last ==> e[q[i]].first <= e[n].first
    {
      var j :| 0 <= j < |q| && q[j] == n;
      if i < j { assert e[q[i]].first <= e[q[i]].last < e[q[j]].first; }
    }
    if i < |q| { assert q[i] in q; }
  }

  lemma SplitAbove(e: Ent, q: seq<VMANode>, hn: VMANode?, hp: VMANode?, p: Where, addr: int)
    requires ListOk(e, q, hn, hp) && q == Keys(Plug(p, Nil)) && AllBelow(e, Before(p), addr)
    requires SuccAt(p) != null ==> SuccAt(p) in e && addr <= e[SuccAt(p)].last
    ensures |Before(p)| <= |q| && SuccAt(p) == At(q, |Before(p)|)
    ensures forall j {:trigger e[q[j]]} :: 0 <= j < |q| ==> q[j] in e && (e[q[j]].last < addr <==> j < |Before(p)|)
  {
    hide Cells, Entries, Before, After, Plug, Chained, GapsExact, NoRepeat;
    PlugKeys(p, Nil);
    var i := |Before(p)|;
    assert q == Before(p) + After(p);
    forall j | 0 <= j < |q|
      ensures q[j] in e && (e[q[j]].last < addr <==> j < i)
    {
      if j < i {
        assert q[j] == Before(p)[j];
      } else {
        assert q[i] == After(p)[0];
        assert e[q[j]].first <= e[q[j]].last;
        if i < j { assert e[q[i]].last < e[q[j]].first; }
      }
    }
  }

  ghost function PredAt(p: Where): VMANode?
  {
    At(Before(p), |Before(p)| - 1)
  }

  lemma PredMoves(p: Where, l: Tree, k: VMANode?, r: Tree)
    ensures PredAt(Top) == null
    ensures k != null ==> PredAt(InRight(l, k, p)) == k && PredAt(InLeft(p, k, r)) == PredAt(p)
  {
  }

  /** VMATree::find_below: the highest node that starts below addr. */
  method FindBelow(tree: VMATree, addr: Word) returns (found: VMANode?, ghost i: nat)
    requires tree.Valid()
    ensures i <= |tree.nodes| && found == At(tree.nodes, i - 1)
    ensures forall j :: 0 <= j < |tree.nodes| ==> (tree.nodes[j].first < addr <==> j < i)
    ensures found == null ==> forall n :: n in tree.repr ==> addr <= n.first
    ensures found != null ==>
      found in tree.repr && found.first < addr && forall n :: n in tree.repr && n.first < addr ==> n.last <= found.last
  {
    hide Cells, Entries, Keys, Elems, Avl, Distinct, ListOk, PredAt;
    ghost var m, e, q := Snap(tree.repr), Ents(tree.repr), tree.nodes;
    ListAscending(e, q, tree.listNext, tree.listPrev);
    ghost var p, t := Top, tree.shape;
    ghost var s := t;
    var current := tree.root;
    found := null;
    PredMoves(p, Nil, tree.root, Nil);
    while current != null
      invariant m == Snap(tree.repr) && e == Ents(tree.repr)
      invariant Plug(p, t) == s && current == RootOf(t) && Sound(m, t, current, ParentAt(p))
      invariant AllAbove(e, After(p), addr - 1)
      invariant found == PredAt(p) && (found != null ==> found in e && e[found].first < addr)
      decreases t
    {
      PredMoves(p, t.left, current, t.right);
      if addr <= current.first {
        DescendLeft(e, q, p, t, addr - 1);
        p, t, current := InLeft(p, current, t.right), t.left, current.left;
      } else {
        found := current;
        p, t, current := InRight(t.left, current, p), t.right, current.right;
      }
    }
    i := |Before(p)|;
    SplitBelow(e, q, tree.listNext, tree.listPrev, p, addr);
    BelowIsLast(e, q, tree.repr, s, i, addr);
  }

  /** In ascending order the last node that starts below addr ends highest. */
  lemma BelowIsLast(e: Ent, q: seq<VMANode>, nodes: set<VMANode>, s: Tree, i: nat, addr: int)
    requires Listed(e, q) && Ascending(e, q) && q == Keys(s) && nodes == Elems(s) && e.Keys == nodes && i <= |q|
    requires forall j {:trigger e[q[j]]} :: 0 <= j < |q| ==> (e[q[j]].first < addr <==> j < i)
    ensures i == 0 ==> forall n :: n in nodes ==> addr <= e[n].first
    ensures i > 0 ==>
      && q[i - 1] in nodes && e[q[i - 1]].first < addr
      && forall n :: n in nodes && e[n].first < addr ==> e[n].last <= e[q[i - 1]].last
  {
    hide Keys, Elems;
    ElemsKeys(s);
    forall n | n in nodes
      ensures if i == 0 then addr <= e[n].first else e[n].first < addr ==> e[n].last <= e[q[i - 1]].last
    {
      var j :| 0 <= j < |q| && q[j] == n;
      if j < i - 1 { assert e[q[j]].last < e[q[i - 1]].first <= e[q[i - 1]].last; }
    }
    if i > 0 { assert q[i - 1] in q; }
  }

  lemma SplitBelow(e: Ent, q: seq<VMANode>, hn: VMANode?, hp: VMANode?, p: Where, addr: int)
    requires ListOk(e, q, hn, hp) && q == Keys(Plug(p, Nil)) && AllAbove(e, After(p), addr - 1)
    requires PredAt(p) != null ==> PredAt(p) in e && e[PredAt(p)].first < addr
    ensures |Before(p)| <= |q| && PredAt(p) == At(q, |Before(p)| - 1)
    ensures forall j {:trigger e[q[j]]} :: 0 <= j < |q| ==> q[j] in e && (e[q[j]].first < addr <==> j < |Before(p)|)
  {
    hide Cells, Entries, Before, After, Plug, Chained, GapsExact, NoRepeat;
    PlugKeys(p, Nil);
    var i := |Before(p)|;
    assert q == Before(p) + After(p);
    forall j | 0 <= j < |q|
      ensures q[j] in e && (e[q[j]].first < addr <==> j < i)
    {
      if j >= i {
        assert q[j] == After(p)[j - i];
      } else {
        assert q[i - 1] == Before(p)[i - 1];
        assert e[q[j]].first <= e[q[j]].last;
        if j < i - 1 { assert e[q[j]].last < e[q[i - 1]].first; }
      }
    }
  }
}
