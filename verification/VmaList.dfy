/**
  The list threaded through a VMA tree: ranges in address order, and the gap before
  each of them.

  As in VmaMem, `Ents` reads the list side of a set of nodes out of the heap as a
  value, and the list operations of the source are updates of such values.
 */
module VmaList {
  import opened Basics
  import opened Words
  import opened VmaShape
  import opened VmaMem

  datatype Entry = Entry(first: Word, last: Word, prevGap: Word, next: VMANode?, prev: VMANode?)

  type Ent = map<VMANode, Entry>

  ghost function Ents(s: set<VMANode>): Ent
    reads s`first, s`last, s`prevGap, s`next, s`prev
  {
    Entries(s)
  }

  ghost function Entries(s: set<VMANode>): (e: Ent)
    reads s`first, s`last, s`prevGap, s`next, s`prev
    ensures e.Keys == s
    ensures forall n {:trigger e[n]} :: n in s ==> e[n] == Entry(n.first, n.last, n.prevGap, n.next, n.prev)
  {
    if s == {} then map[]
    else
      var n :| n in s;
      Entries(s - {n})[n := Entry(n.first, n.last, n.prevGap, n.next, n.prev)]
  }

  function At(q: seq<VMANode>, i: int): VMANode?
  {
    if 0 <= i < |q| then q[i] else null
  }

  ghost predicate Listed(e: Ent, q: seq<VMANode>)
  {
    forall i :: 0 <= i < |q| ==> q[i] in e
  }

  /** `next` and `prev` chain up in the order q; null stands for the list head. */
  ghost predicate Chained(e: Ent, q: seq<VMANode>)
    requires Listed(e, q)
  {
    && (forall i {:trigger e[q[i]].next} :: 0 <= i < |q| ==> e[q[i]].next == At(q, i + 1))
    && (forall i {:trigger e[q[i]].prev} :: 0 <= i < |q| ==> e[q[i]].prev == At(q, i - 1))
  }

  /** Ranges are non-empty, disjoint and ascending. */
  ghost predicate Ascending(e: Ent, q: seq<VMANode>)
    requires Listed(e, q)
  {
    && (forall i {:trigger e[q[i]].last} :: 0 <= i < |q| ==> e[q[i]].first <= e[q[i]].last)
    && (forall i, j {:trigger e[q[i]].last, e[q[j]].first} :: 0 <= i < j < |q| ==> e[q[i]].last < e[q[j]].first)
  }

  /** Every node records the number of addresses between it and its predecessor. */
  ghost predicate GapsExact(e: Ent, q: seq<VMANode>)
    requires Listed(e, q)
  {
    forall i {:trigger e[q[i]].prevGap} :: 0 <= i < |q| ==>
      e[q[i]].prevGap == if i == 0 then e[q[i]].first else e[q[i]].first - e[q[i - 1]].last - 1
  }

  /** All of the list side: q threaded between the two pointers of the head. */
  ghost predicate ListOk(e: Ent, q: seq<VMANode>, headNext: VMANode?, headPrev: VMANode?)
  {
    && Listed(e, q) && NoRepeat(q) && Chained(e, q) && Ascending(e, q) && GapsExact(e, q)
    && headNext == At(q, 0) && headPrev == At(q, |q| - 1)
  }

  ghost predicate AllBelow(e: Ent, q: seq<VMANode>, a: int)
  {
    forall i :: 0 <= i < |q| ==> q[i] in e && e[q[i]].last < a
  }

  ghost predicate AllAbove(e: Ent, q: seq<VMANode>, a: int)
  {
    forall i :: 0 <= i < |q| ==> q[i] in e && a < e[q[i]].first
  }

  ghost function InsertAt<T>(q: seq<T>, i: nat, x: T): seq<T>
    requires i <= |q|
  {
    q[..i] + [x] + q[i..]
  }

  ghost function RemoveAt<T>(q: seq<T>, i: nat): seq<T>
    requires i < |q|
  {
    q[..i] + q[i + 1..]
  }

  // ---- insertion -------------------------------------------------------------------

  /** The number of addresses between two neighbours, as the source computes it. */
  ghost function GapOf(e: Ent, pred: VMANode?, n: VMANode): Word
    requires n in e && (pred == null || pred in e)
  {
    if pred != null then Wrap(e[n].first - e[pred].last - 1) else e[n].first
  }

  lemma GapOfExact(e: Ent, pred: VMANode?, n: VMANode)
    requires n in e && (pred == null || (pred in e && e[pred].last < e[n].first))
    ensures GapOf(e, pred, n) == if pred == null then e[n].first else e[n].first - e[pred].last - 1
  {
  }

  ghost predicate Here(e: Ent, n: VMANode?)
  {
    n == null || n in e
  }

  ghost function WithGap(e: Ent, n: VMANode?, g: Word): Ent
    requires Here(e, n)
  {
    if n == null then e else e[n := e[n].(prevGap := g)]
  }

  ghost function WithNext(e: Ent, n: VMANode?, v: VMANode?): Ent
    requires Here(e, n)
  {
    if n == null then e else e[n := e[n].(next := v)]
  }

  ghost function WithPrev(e: Ent, n: VMANode?, v: VMANode?): Ent
    requires Here(e, n)
  {
    if n == null then e else e[n := e[n].(prev := v)]
  }

  /** Setting the gap before node and the gap before its successor: all that adjust()
      writes on the list side. */
  ghost function Adjusted(e: Ent, pred: VMANode?, node: VMANode, succ: VMANode?): Ent
    requires node in e && Here(e, pred) && Here(e, succ)
  {
    var e1 := WithGap(e, node, GapOf(e, pred, node));
    if succ == null then e1 else WithGap(e1, succ, GapOf(e1, node, succ))
  }

  lemma AdjustedFields(e: Ent, pred: VMANode?, node: VMANode, succ: VMANode?)
    requires node in e && Here(e, pred) && Here(e, succ) && succ != node
    ensures var e' := Adjusted(e, pred, node, succ);
      && e'.Keys == e.Keys
      && (forall x {:trigger e'[x]} :: x in e ==> e'[x] == e[x].(prevGap := e'[x].prevGap))
      && e'[node].prevGap == GapOf(e, pred, node) && (succ != null ==> e'[succ].prevGap == GapOf(e, node, succ))
      && (forall x {:trigger e'[x]} :: x in e && x != node && x != succ ==> e'[x].prevGap == e[x].prevGap)
  {
  }

  /** What insert() writes on the list side: both gaps, then push_front after pred. */
  ghost function Inserted(e: Ent, pred: VMANode?, node: VMANode, succ: VMANode?): Ent
    requires node in e && Here(e, pred) && Here(e, succ)
  {
    var e' := Adjusted(e, pred, node, succ);
    WithNext(WithPrev(WithNext(WithPrev(e', node, pred), node, succ), succ, node), pred, node)
  }

  lemma InsertIndex<T>(q: seq<T>, i: nat, x: T, j: nat)
    requires i <= |q| && j <= |q|
    ensures |InsertAt(q, i, x)| == |q| + 1
    ensures InsertAt(q, i, x)[j] == if j < i then q[j] else if j == i then x else q[j - 1]
  {
  }

  lemma InsertedListed(e: Ent, q: seq<VMANode>, i: nat, node: VMANode)
    requires Listed(e, q) && node in e && i <= |q|
    requires NoRepeat(q) && node !in q
    ensures Listed(e, InsertAt(q, i, node)) && NoRepeat(InsertAt(q, i, node))
  {
    var r := InsertAt(q, i, node);
    forall j | 0 <= j < |r|
      ensures r[j] in e
    {
      InsertIndex(q, i, node, j);
    }
    forall j, k | 0 <= j < k < |r|
      ensures r[j] != r[k]
    {
      InsertIndex(q, i, node, j);
      InsertIndex(q, i, node, k);
    }
  }

  lemma InsertedAscending(e: Ent, q: seq<VMANode>, i: nat, node: VMANode)
    requires Listed(e, q) && Ascending(e, q) && node in e && i <= |q|
    requires e[node].first <= e[node].last
    requires AllBelow(e, q[..i], e[node].first) && AllAbove(e, q[i..], e[node].last)
    requires Listed(e, InsertAt(q, i, node))
    ensures Ascending(e, InsertAt(q, i, node))
  {
    var r := InsertAt(q, i, node);
    forall j | 0 <= j < i
      ensures e[q[j]].last < e[node].first
    {
      assert q[..i][j] == q[j];
    }
    forall j | i <= j < |q|
      ensures e[node].last < e[q[j]].first
    {
      assert q[i..][j - i] == q[j];
    }
    forall j | 0 <= j < |r|
      ensures e[r[j]].first <= e[r[j]].last
    {
      InsertIndex(q, i, node, j);
    }
    forall j, k | 0 <= j < k < |r|
      ensures e[r[j]].last < e[r[k]].first
    {
      InsertIndex(q, i, node, j);
      InsertIndex(q, i, node, k);
    }
  }

  /** The neighbours of a slot that lies strictly between them. */
  ghost predicate Slot(e: Ent, q: seq<VMANode>, i: nat, node: VMANode)
  {
    && i <= |q| && node in e && node !in q && e[node].first <= e[node].last
    && AllBelow(e, q[..i], e[node].first) && AllAbove(e, q[i..], e[node].last)
  }

  lemma SlotNeighbours(e: Ent, q: seq<VMANode>, i: nat, node: VMANode)
    requires Listed(e, q) && NoRepeat(q) && Slot(e, q, i, node)
    ensures var pred, succ := At(q, i - 1), At(q, i);
      && pred != node && succ != node && (pred == null || pred != succ)
      && (pred != null ==> pred in e && e[pred].last < e[node].first)
      && (succ != null ==> succ in e && e[node].last < e[succ].first)
      && GapOf(e, pred, node) == (if pred == null then e[node].first else e[node].first - e[pred].last - 1)
      && (succ != null ==> GapOf(e, node, succ) == e[succ].first - e[node].last - 1)
  {
    if i > 0 { assert q[..i][i - 1] == q[i - 1]; }
    if i < |q| { assert q[i..][0] == q[i]; }
  }

  lemma InsertedFields(e: Ent, pred: VMANode?, node: VMANode, succ: VMANode?)
    requires node in e && Here(e, pred) && Here(e, succ)
    requires pred != node && succ != node && (pred == null || pred != succ)
    ensures var e' := Inserted(e, pred, node, succ);
      && e'.Keys == e.Keys
      && (forall x {:trigger e'[x]} :: x in e ==> e'[x].first == e[x].first && e'[x].last == e[x].last)
      && e'[node].prevGap == GapOf(e, pred, node) && (succ != null ==> e'[succ].prevGap == GapOf(e, node, succ))
      && (forall x {:trigger e'[x]} :: x in e && x != node && x != succ ==> e'[x].prevGap == e[x].prevGap)
  {
  }

  lemma InsertedChained(e: Ent, q: seq<VMANode>, i: nat, node: VMANode)
    requires Listed(e, q) && NoRepeat(q) && Chained(e, q) && Slot(e, q, i, node)
    requires Listed(e, InsertAt(q, i, node))
    ensures var e' := Inserted(e, At(q, i - 1), node, At(q, i));
      Listed(e', InsertAt(q, i, node)) && Chained(e', InsertAt(q, i, node))
  {
    SlotNeighbours(e, q, i, node);
    var e' := Inserted(e, At(q, i - 1), node, At(q, i));
    var r := InsertAt(q, i, node);
    assert e'.Keys == e.Keys;
    forall j | 0 <= j < |r|
      ensures e'[r[j]].next == At(r, j + 1) && e'[r[j]].prev == At(r, j - 1)
    {
      InsertIndex(q, i, node, j);
      if j > 0 { InsertIndex(q, i, node, j - 1); }
      if j + 1 < |r| { InsertIndex(q, i, node, j + 1); }
    }
  }

  lemma InsertedGaps(e: Ent, q: seq<VMANode>, i: nat, node: VMANode)
    requires Listed(e, q) && NoRepeat(q) && GapsExact(e, q) && Slot(e, q, i, node)
    requires Listed(e, InsertAt(q, i, node))
    ensures var e' := Inserted(e, At(q, i - 1), node, At(q, i));
      Listed(e', InsertAt(q, i, node)) && GapsExact(e', InsertAt(q, i, node))
  {
    SlotNeighbours(e, q, i, node);
    InsertedFields(e, At(q, i - 1), node, At(q, i));
    hide Inserted, InsertAt, Wrap, GapOf;
    var e' := Inserted(e, At(q, i - 1), node, At(q, i));
    var r := InsertAt(q, i, node);
    InsertIndex(q, i, node, i);
    forall j | 0 <= j < |r|
      ensures e'[r[j]].prevGap == if j == 0 then e'[r[j]].first else e'[r[j]].first - e'[r[j - 1]].last - 1
    {
      InsertIndex(q, i, node, j);
      if j > 0 { InsertIndex(q, i, node, j - 1); }
      if j < i { assert e'[r[j]].prevGap == e[q[j]].prevGap; }
      if j > i + 1 { assert e'[r[j]].prevGap == e[q[j - 1]].prevGap; }
    }
  }

  lemma InsertedOk(e: Ent, q: seq<VMANode>, hn: VMANode?, hp: VMANode?, i: nat, node: VMANode)
    requires ListOk(e, q, hn, hp) && Slot(e, q, i, node)
    ensures var pred, succ := At(q, i - 1), At(q, i);
      ListOk(Inserted(e, pred, node, succ), InsertAt(q, i, node),
             if pred == null then node else hn, if succ == null then node else hp)
  {
    hide Inserted, Wrap, GapOf, Chained, GapsExact, Ascending, NoRepeat;
    SlotNeighbours(e, q, i, node);
    InsertedListed(e, q, i, node);
    InsertedChained(e, q, i, node);
    InsertedGaps(e, q, i, node);
    InsertedAscending(e, q, i, node);
    InsertedFields(e, At(q, i - 1), node, At(q, i));
    SameRanges(e, Inserted(e, At(q, i - 1), node, At(q, i)), InsertAt(q, i, node));
  }

  lemma SameRanges(e: Ent, e': Ent, q: seq<VMANode>)
    requires Listed(e, q) && Listed(e', q) && Ascending(e, q)
    requires forall x {:trigger e'[x]} :: x in e && x in e' ==> e'[x].first == e[x].first && e'[x].last == e[x].last
    ensures Ascending(e', q)
  {
  }

  // ---- removal ---------------------------------------------------------------------

  /** What remove() writes on the list side: the successor's gap, then the unlinking. */
  ghost function Removed(e: Ent, pred: VMANode?, succ: VMANode?): Ent
    requires Here(e, pred) && Here(e, succ)
  {
    var e1 := if succ == null then e else WithGap(e, succ, GapOf(e, pred, succ));
    WithNext(WithPrev(e1, succ, pred), pred, succ)
  }

  lemma RemoveLength<T>(q: seq<T>, i: nat)
    requires i < |q|
    ensures |RemoveAt(q, i)| == |q| - 1
  {
  }

  lemma RemoveIndex<T>(q: seq<T>, i: nat, j: nat)
    requires i < |q| && j < |q| - 1
    ensures |RemoveAt(q, i)| == |q| - 1
    ensures RemoveAt(q, i)[j] == q[if j < i then j else j + 1]
  {
  }

  lemma RemovedListed(e: Ent, q: seq<VMANode>, i: nat)
    requires Listed(e, q) && NoRepeat(q) && i < |q|
    ensures Listed(e, RemoveAt(q, i)) && NoRepeat(RemoveAt(q, i))
    ensures q[i] !in RemoveAt(q, i)
  {
    var r := RemoveAt(q, i);
    forall j | 0 <= j < |r|
      ensures r[j] in e && r[j] != q[i]
    {
      RemoveIndex(q, i, j);
    }
    forall j, k | 0 <= j < k < |r|
      ensures r[j] != r[k]
    {
      RemoveIndex(q, i, j);
      RemoveIndex(q, i, k);
    }
  }

  lemma RemovedFields(e: Ent, pred: VMANode?, succ: VMANode?)
    requires Here(e, pred) && Here(e, succ) && (pred == null || pred != succ)
    ensures var e' := Removed(e, pred, succ);
      && e'.Keys == e.Keys
      && (forall x {:trigger e'[x]} :: x in e ==> e'[x].first == e[x].first && e'[x].last == e[x].last)
      && (succ != null ==> e'[succ].prevGap == GapOf(e, pred, succ))
      && (forall x {:trigger e'[x]} :: x in e && x != succ ==> e'[x].prevGap == e[x].prevGap)
      && (forall x {:trigger e'[x]} :: x in e ==> e'[x].next == if x == pred then succ else e[x].next)
      && (forall x {:trigger e'[x]} :: x in e ==> e'[x].prev == if x == succ then pred else e[x].prev)
  {
  }

  lemma RemoveNeighbours(e: Ent, q: seq<VMANode>, i: nat)
    requires Listed(e, q) && NoRepeat(q) && Ascending(e, q) && i < |q|
    ensures var pred, succ := At(q, i - 1), At(q, i + 1);
      && Here(e, pred) && Here(e, succ) && (pred == null || pred != succ)
      && (succ != null && pred == null ==> GapOf(e, pred, succ) == e[succ].first)
      && (succ != null && pred != null ==> GapOf(e, pred, succ) == e[succ].first - e[pred].last - 1)
  {
    if 0 < i && i + 1 < |q| {
      assert e[q[i - 1]].last < e[q[i + 1]].first;
    }
  }

  lemma RemovedChained(e: Ent, q: seq<VMANode>, i: nat)
    requires Listed(e, q) && NoRepeat(q) && Chained(e, q) && i < |q|
    requires Listed(e, RemoveAt(q, i))
    ensures var e' := Removed(e, At(q, i - 1), At(q, i + 1));
      Listed(e', RemoveAt(q, i)) && Chained(e', RemoveAt(q, i))
  {
    hide Wrap, GapOf;
    var e' := Removed(e, At(q, i - 1), At(q, i + 1));
    var r := RemoveAt(q, i);
    assert e'.Keys == e.Keys;
    forall j | 0 <= j < |r|
      ensures e'[r[j]].next == At(r, j + 1) && e'[r[j]].prev == At(r, j - 1)
    {
      RemoveIndex(q, i, j);
      if j > 0 { RemoveIndex(q, i, j - 1); }
      if j + 1 < |r| { RemoveIndex(q, i, j + 1); }
    }
  }

  lemma RemovedGapAt(e: Ent, q: seq<VMANode>, i: nat, j: nat)
    requires Listed(e, q) && NoRepeat(q) && Ascending(e, q) && GapsExact(e, q) && i < |q| && j < |q| - 1
    ensures Here(e, At(q, i - 1)) && Here(e, At(q, i + 1))
    ensures var e', r := Removed(e, At(q, i - 1), At(q, i + 1)), RemoveAt(q, i);
      && j < |r| && r[j] in e' && (j > 0 ==> r[j - 1] in e')
      && e'[r[j]].prevGap == if j == 0 then e'[r[j]].first else e'[r[j]].first - e'[r[j - 1]].last - 1
  {
    hide Removed, RemoveAt, Wrap, GapOf, Ascending, NoRepeat, GapsExact;
    RemoveNeighbours(e, q, i);
    RemovedFields(e, At(q, i - 1), At(q, i + 1));
    RemoveLength(q, i);
    RemoveIndex(q, i, j);
    if j > 0 { RemoveIndex(q, i, j - 1); }
    if j < i {
      Differ(q, j, i + 1);
      GapAtIndex(e, q, j);
    } else if j > i {
      Differ(q, i + 1, j + 1);
      GapAtIndex(e, q, j + 1);
    }
  }

  lemma GapAtIndex(e: Ent, q: seq<VMANode>, j: nat)
    requires Listed(e, q) && GapsExact(e, q) && j < |q|
    ensures e[q[j]].prevGap == if j == 0 then e[q[j]].first else e[q[j]].first - e[q[j - 1]].last - 1
  {
  }

  lemma Differ(q: seq<VMANode>, i: nat, j: nat)
    requires NoRepeat(q) && i < j
    ensures At(q, j) != null ==> i < |q| && q[i] != At(q, j)
  {
  }

  lemma RemovedGaps(e: Ent, q: seq<VMANode>, i: nat)
    requires Listed(e, q) && NoRepeat(q) && Ascending(e, q) && GapsExact(e, q) && i < |q|
    requires Listed(e, RemoveAt(q, i))
    ensures var e' := Removed(e, At(q, i - 1), At(q, i + 1));
      Listed(e', RemoveAt(q, i)) && GapsExact(e', RemoveAt(q, i))
  {
    hide Removed, RemoveAt, Ascending, NoRepeat;
    RemoveLength(q, i);
    RemoveNeighbours(e, q, i);
    RemovedFields(e, At(q, i - 1), At(q, i + 1));
    var e', r := Removed(e, At(q, i - 1), At(q, i + 1)), RemoveAt(q, i);
    forall j | 0 <= j < |r|
      ensures e'[r[j]].prevGap == if j == 0 then e'[r[j]].first else e'[r[j]].first - e'[r[j - 1]].last - 1
    {
      RemovedGapAt(e, q, i, j);
    }
  }

  lemma RemovedAscending(e: Ent, q: seq<VMANode>, i: nat)
    requires Listed(e, q) && Ascending(e, q) && i < |q| && Listed(e, RemoveAt(q, i))
    ensures Ascending(e, RemoveAt(q, i))
  {
    var r := RemoveAt(q, i);
    forall j | 0 <= j < |r|
      ensures e[r[j]].first <= e[r[j]].last
    {
      RemoveIndex(q, i, j);
    }
    forall j, k | 0 <= j < k < |r|
      ensures e[r[j]].last < e[r[k]].first
    {
      RemoveIndex(q, i, j);
      RemoveIndex(q, i, k);
    }
  }

  lemma RemovedOk(e: Ent, q: seq<VMANode>, hn: VMANode?, hp: VMANode?, i: nat)
    requires ListOk(e, q, hn, hp) && i < |q|
    ensures var pred, succ := At(q, i - 1), At(q, i + 1);
      ListOk(Removed(e, pred, succ), RemoveAt(q, i), if pred == null then succ else hn,
             if succ == null then pred else hp)
  {
    hide Removed, Wrap, GapOf, Chained, GapsExact, Ascending, NoRepeat;
    RemoveNeighbours(e, q, i);
    RemovedListed(e, q, i);
    RemovedChained(e, q, i);
    RemovedGaps(e, q, i);
    RemovedAscending(e, q, i);
    RemovedFields(e, At(q, i - 1), At(q, i + 1));
    SameRanges(e, Removed(e, At(q, i - 1), At(q, i + 1)), RemoveAt(q, i));
  }

  // ---- resizing ----------------------------------------------------------------------

  /** Gaps are exact except possibly before the nodes i and i + 1. */
  ghost predicate GapsExactBut(e: Ent, q: seq<VMANode>, i: nat)
    requires Listed(e, q)
  {
    forall j {:trigger e[q[j]].prevGap} :: 0 <= j < |q| && j != i && j != i + 1 ==>
      e[q[j]].prevGap == if j == 0 then e[q[j]].first else e[q[j]].first - e[q[j - 1]].last - 1
  }

  /** The list side after node i was resized within its neighbours: only the gaps before
      it and before its successor may be out of date. */
  ghost predicate ListOkBut(e: Ent, q: seq<VMANode>, headNext: VMANode?, headPrev: VMANode?, i: nat)
  {
    && Listed(e, q) && NoRepeat(q) && Chained(e, q) && Ascending(e, q) && GapsExactBut(e, q, i)
    && headNext == At(q, 0) && headPrev == At(q, |q| - 1)
  }

  lemma AdjustedOk(e: Ent, q: seq<VMANode>, hn: VMANode?, hp: VMANode?, i: nat)
    requires i < |q| && ListOkBut(e, q, hn, hp, i)
    ensures ListOk(Adjusted(e, At(q, i - 1), q[i], At(q, i + 1)), q, hn, hp)
    ensures e[q[i]].prev == At(q, i - 1) && e[q[i]].next == At(q, i + 1)
    ensures Here(e, At(q, i - 1)) && Here(e, At(q, i + 1)) && q[i] != At(q, i - 1) && q[i] != At(q, i + 1)
  {
    hide Adjusted, Wrap, GapOf, GapsExact, GapsExactBut;
    AdjustedGaps(e, q, i);
    AdjustedFields(e, At(q, i - 1), q[i], At(q, i + 1));
    var e' := Adjusted(e, At(q, i - 1), q[i], At(q, i + 1));
    SameRanges(e, e', q);
    SameChain(e, e', q);
  }

  lemma SameChain(e: Ent, e': Ent, q: seq<VMANode>)
    requires Listed(e, q) && Listed(e', q) && Chained(e, q)
    requires forall x {:trigger e'[x]} :: x in e && x in e' ==> e'[x].next == e[x].next && e'[x].prev == e[x].prev
    ensures Chained(e', q)
  {
  }

  /** The exact gap before node j. */
  ghost function TrueGap(e: Ent, q: seq<VMANode>, j: nat): int
    requires Listed(e, q) && j < |q|
  {
    if j == 0 then e[q[j]].first else e[q[j]].first - e[q[j - 1]].last - 1
  }

  lemma AdjustedGaps(e: Ent, q: seq<VMANode>, i: nat)
    requires Listed(e, q) && NoRepeat(q) && Ascending(e, q) && i < |q| && GapsExactBut(e, q, i)
    ensures var e' := Adjusted(e, At(q, i - 1), q[i], At(q, i + 1));
      Listed(e', q) && GapsExact(e', q)
  {
    hide Adjusted, Wrap, GapsExact, GapsExactBut, Ascending;
    var e' := Adjusted(e, At(q, i - 1), q[i], At(q, i + 1));
    AdjustedFields(e, At(q, i - 1), q[i], At(q, i + 1));
    forall j | 0 <= j < |q|
      ensures e'[q[j]].prevGap == TrueGap(e, q, j)
    {
      AdjustedGapAt(e, q, i, j);
    }
    SameGaps(e, e', q);
  }

  lemma AdjustedGapAt(e: Ent, q: seq<VMANode>, i: nat, j: nat)
    requires Listed(e, q) && NoRepeat(q) && Ascending(e, q) && i < |q| && GapsExactBut(e, q, i) && j < |q|
    ensures Adjusted(e, At(q, i - 1), q[i], At(q, i + 1))[q[j]].prevGap == TrueGap(e, q, j)
  {
    hide Adjusted, Wrap, GapOf;
    AdjustedFields(e, At(q, i - 1), q[i], At(q, i + 1));
    if j == i || j == i + 1 {
      if j > 0 { assert e[q[j - 1]].last < e[q[j]].first; }
      GapOfExact(e, At(q, j - 1), q[j]);
    } else {
      assert q[j] != q[i] && q[j] != At(q, i + 1);
    }
  }

  lemma SameGaps(e: Ent, e': Ent, q: seq<VMANode>)
    requires Listed(e, q) && Listed(e', q)
    requires forall x {:trigger e'[x]} :: x in e && x in e' ==> e'[x].first == e[x].first && e'[x].last == e[x].last
    requires forall j {:trigger q[j]} :: 0 <= j < |q| ==> e'[q[j]].prevGap == TrueGap(e, q, j)
    ensures GapsExact(e', q)
  {
  }

  // ---- order along a path of the tree ----------------------------------------------------

  lemma AscendingParts(e: Ent, a: seq<VMANode>, k: VMANode, b: seq<VMANode>, q: seq<VMANode>)
    requires Listed(e, q) && Ascending(e, q) && q == a + [k] + b
    ensures k in e && e[k].first <= e[k].last && AllBelow(e, a, e[k].first) && AllAbove(e, b, e[k].last)
  {
    assert q[|a|] == k;
    assert forall i :: 0 <= i < |a| ==> a[i] == q[i];
    assert forall i :: 0 <= i < |b| ==> b[i] == q[|a| + 1 + i];
  }

  /** Everything left of a position's node lies below it, everything right above. */
  lemma AscendingAt(e: Ent, q: seq<VMANode>, p: Where, t: Tree)
    requires Listed(e, q) && Ascending(e, q) && t.Bin? && q == Keys(Plug(p, t))
    ensures t.key in e && e[t.key].first <= e[t.key].last
    ensures AllBelow(e, Before(p) + Keys(t.left), e[t.key].first)
    ensures AllAbove(e, Keys(t.right) + After(p), e[t.key].last)
  {
    hide Before, After, Plug, Keys, Ascending, AllBelow, AllAbove;
    PlugKeys(p, t);
    KeysBin(t);
    var a, b := Before(p) + Keys(t.left), Keys(t.right) + After(p);
    AroundKey(Before(p), Keys(t.left), t.key, Keys(t.right), After(p));
    AscendingParts(e, a, t.key, b, q);
  }

  lemma AllBelowMono(e: Ent, q: seq<VMANode>, k: VMANode, a: int)
    requires k in e && AllBelow(e, q, e[k].first) && e[k].first <= e[k].last < a
    ensures AllBelow(e, q + [k], a)
  {
  }

  lemma AllAboveMono(e: Ent, q: seq<VMANode>, k: VMANode, a: int)
    requires k in e && AllAbove(e, q, e[k].last) && a < e[k].first <= e[k].last
    ensures AllAbove(e, [k] + q, a)
  {
  }

  /** Going left leaves only nodes above behind on the right. */
  lemma DescendLeft(e: Ent, q: seq<VMANode>, p: Where, t: Tree, a: int)
    requires Listed(e, q) && Ascending(e, q) && t.Bin? && q == Keys(Plug(p, t))
    requires t.key in e && a < e[t.key].first
    ensures AllAbove(e, After(InLeft(p, t.key, t.right)), a)
  {
    AscendingAt(e, q, p, t);
    AllAboveMono(e, Keys(t.right) + After(p), t.key, a);
    assert After(InLeft(p, t.key, t.right)) == [t.key] + (Keys(t.right) + After(p));
  }

  lemma DescendRight(e: Ent, q: seq<VMANode>, p: Where, t: Tree, a: int)
    requires Listed(e, q) && Ascending(e, q) && t.Bin? && q == Keys(Plug(p, t))
    requires t.key in e && e[t.key].last < a
    ensures AllBelow(e, Before(InRight(t.left, t.key, p)), a)
  {
    AscendingAt(e, q, p, t);
    AllBelowMono(e, Before(p) + Keys(t.left), t.key, a);
  }

  /** One step of insert()'s descent keeps the nodes passed on each side of the range. */
  lemma SlotStep(e: Ent, q: seq<VMANode>, p: Where, t: Tree, first: int, last: int)
    requires Listed(e, q) && Ascending(e, q) && t.Bin? && q == Keys(Plug(p, t))
    requires first <= last && forall x :: x in e ==> last < e[x].first || e[x].last < first
    ensures t.key in e
    ensures first < e[t.key].first ==> AllAbove(e, After(InLeft(p, t.key, t.right)), last)
    ensures first >= e[t.key].first ==> AllBelow(e, Before(InRight(t.left, t.key, p)), first)
  {
    AscendingAt(e, q, p, t);
    if first < e[t.key].first {
      DescendLeft(e, q, p, t, last);
    } else {
      DescendRight(e, q, p, t, first);
    }
  }

  /** The entries of the listed nodes are the same. */
  ghost predicate SameEntries(e: Ent, e': Ent, q: seq<VMANode>)
  {
    forall i {:trigger q[i]} :: 0 <= i < |q| ==> q[i] in e && q[i] in e' && e'[q[i]] == e[q[i]]
  }

  lemma ChainedFrame(e: Ent, e': Ent, q: seq<VMANode>)
    requires SameEntries(e, e', q) && Listed(e, q) && Listed(e', q) && Chained(e, q)
    ensures Chained(e', q)
  {
    forall i | 0 <= i < |q|
      ensures e'[q[i]].next == At(q, i + 1) && e'[q[i]].prev == At(q, i - 1)
    {
      assert e[q[i]].next == At(q, i + 1) && e[q[i]].prev == At(q, i - 1);
    }
  }

  lemma AscendingFrame(e: Ent, e': Ent, q: seq<VMANode>)
    requires SameEntries(e, e', q) && Listed(e, q) && Listed(e', q) && Ascending(e, q)
    ensures Ascending(e', q)
  {
    forall i, j | 0 <= i < j < |q|
      ensures e'[q[i]].last < e'[q[j]].first
    {
      assert e[q[i]].last < e[q[j]].first;
    }
    forall i | 0 <= i < |q|
      ensures e'[q[i]].first <= e'[q[i]].last
    {
      assert e[q[i]].first <= e[q[i]].last;
    }
  }

  lemma GapsFrame(e: Ent, e': Ent, q: seq<VMANode>)
    requires SameEntries(e, e', q) && Listed(e, q) && Listed(e', q) && GapsExact(e, q)
    ensures GapsExact(e', q)
  {
    forall i | 0 <= i < |q|
      ensures e'[q[i]].prevGap == if i == 0 then e'[q[i]].first else e'[q[i]].first - e'[q[i - 1]].last - 1
    {
      assert e[q[i]].prevGap == if i == 0 then e[q[i]].first else e[q[i]].first - e[q[i - 1]].last - 1;
      if i > 0 { assert e'[q[i - 1]] == e[q[i - 1]]; }
    }
  }

  lemma ListFrame(e: Ent, e': Ent, q: seq<VMANode>, hn: VMANode?, hp: VMANode?)
    requires ListOk(e, q, hn, hp)
    requires forall x {:trigger e'[x]} {:trigger x in e'} :: x in q && x in e ==> x in e' && e'[x] == e[x]
    ensures ListOk(e', q, hn, hp)
  {
    hide Chained, Ascending, GapsExact, NoRepeat;
    assert SameEntries(e, e', q);
    ChainedFrame(e, e', q);
    AscendingFrame(e, e', q);
    GapsFrame(e, e', q);
  }

  lemma ChainAt(e: Ent, q: seq<VMANode>, hn: VMANode?, hp: VMANode?, i: nat)
    requires ListOk(e, q, hn, hp) && i <= |q|
    ensures i > 0 ==> q[i - 1] in e && e[q[i - 1]].next == At(q, i)
    ensures i == 0 ==> hn == At(q, i)
    ensures i < |q| ==> q[i] in e && e[q[i]].prev == At(q, i - 1)
    ensures i == |q| ==> hp == At(q, i - 1)
  {
    if i > 0 { assert e[q[i - 1]].next == At(q, i); }
    if i < |q| { assert e[q[i]].prev == At(q, i - 1); }
  }

  /** The list neighbours of an empty position p: its parent and the parent's neighbour
      on the other side. */
  lemma PositionNeighbours(e: Ent, q: seq<VMANode>, hn: VMANode?, hp: VMANode?, p: Where)
    requires ListOk(e, q, hn, hp) && q == Before(p) + After(p)
    ensures var i := |Before(p)|;
      && SuccAt(p) == At(q, i)
      && (p.InRight? ==> p.key in e && p.key == At(q, i - 1) && e[p.key].next == At(q, i))
      && (p.InLeft? ==> p.key in e && p.key == At(q, i) && e[p.key].prev == At(q, i - 1))
      && (p.Top? ==> q == [] && hp == null && hn == null)
  {
    hide Before, After, Chained, Ascending, GapsExact, NoRepeat, SuccAt;
    PositionKeys(q, p);
    ChainAt(e, q, hn, hp, |Before(p)|);
  }

  lemma PositionKeys(q: seq<VMANode>, p: Where)
    requires q == Before(p) + After(p)
    ensures var i := |Before(p)|;
      && SuccAt(p) == At(q, i) && i <= |q|
      && (p.InRight? ==> i > 0 && p.key == q[i - 1])
      && (p.InLeft? ==> i < |q| && p.key == q[i])
      && (p.Top? ==> q == [])
  {
  }

  /** The position found by the descent is a slot of the list. */
  lemma PositionSlot(e: Ent, q: seq<VMANode>, p: Where, node: VMANode)
    requires q == Before(p) + After(p) && node in e && node !in q && e[node].first <= e[node].last
    requires AllBelow(e, Before(p), e[node].first) && AllAbove(e, After(p), e[node].last)
    ensures Slot(e, q, |Before(p)|, node)
  {
    assert q[..|Before(p)|] == Before(p) && q[|Before(p)|..] == After(p);
  }

  /** All of insert() on values: growing a leaf at p, running the fixup loop and writing
      the list entries keeps tree and list in step. */
  lemma InsertPlan(e: Ent, q: seq<VMANode>, hn: VMANode?, hp: VMANode?, t: Tree, p: Where, node: VMANode)
    requires ListOk(e, q, hn, hp) && q == Keys(t) && t == Plug(p, Nil) && Distinct(t) && Avl(t)
    requires node in e && node !in q && node !in Elems(t) && e[node].first <= e[node].last
    requires AllBelow(e, Before(p), e[node].first) && AllAbove(e, After(p), e[node].last)
    ensures q == Before(p) + After(p) && |Before(p)| <= |q| && Slot(e, q, |Before(p)|, node)
    ensures var i := |Before(p)|; var pred, succ := At(q, i - 1), At(q, i);
      && Here(e, pred) && Here(e, succ) && pred != node && succ != node && (pred == null || pred != succ)
      && ListOk(Inserted(e, pred, node, succ), InsertAt(q, i, node),
                if pred == null then node else hn, if succ == null then node else hp)
      && SuccAt(p) == succ && succ == (if pred == null then hn else e[pred].next)
    ensures var t' := FixUp(p, Bin(Nil, node, Nil));
      Keys(t') == InsertAt(q, |Before(p)|, node) && Elems(t') == Elems(t) + {node} && Distinct(t') && Avl(t')
  {
    hide FixUp, Plug, Keys, Elems, Avl, Distinct, ListOk, Inserted, AllBelow, AllAbove;
    GrowKeys(p, node);
    GrowAvl(p, node);
    PositionSlot(e, q, p, node);
    PositionNeighbours(e, q, hn, hp, p);
    SlotFacts(e, q, hn, hp, |Before(p)|, node);
    InsertedOk(e, q, hn, hp, |Before(p)|, node);
    assert q[..|Before(p)|] == Before(p) && q[|Before(p)|..] == After(p);
  }

  lemma SlotFacts(e: Ent, q: seq<VMANode>, hn: VMANode?, hp: VMANode?, i: nat, node: VMANode)
    requires ListOk(e, q, hn, hp) && Slot(e, q, i, node)
    ensures var pred, succ := At(q, i - 1), At(q, i);
      && Here(e, pred) && Here(e, succ) && pred != node && succ != node && (pred == null || pred != succ)
      && succ == (if pred == null then hn else e[pred].next)
  {
    SlotNeighbours(e, q, i, node);
    if i > 0 { assert e[q[i - 1]].next == At(q, i); }
  }

  /** All of remove() on values. */
  lemma WithoutAll(p: Where, t: Tree, q: seq<VMANode>, i: nat)
    requires t.Bin? && Distinct(Plug(p, t)) && Avl(Plug(p, t)) && q == Keys(Plug(p, t))
      && i == |Before(p) + Keys(t.left)|
    ensures i < |q| && q[i] == t.key
    ensures var u := Without(p, t);
      Keys(u) == RemoveAt(q, i) && Elems(u) == Elems(Plug(p, t)) - {t.key} && Distinct(u) && Avl(u)
  {
    hide Plug, Without, Distinct, Avl, Before, After, Keys, Elems, NoRepeat;
    WithoutAvl(p, t);
    WithoutKeys(p, t);
    var a, b := Before(p) + Keys(t.left), Keys(t.right) + After(p);
    assert RemoveAt(q, i) == a + b;
    DistinctKeys(Plug(p, t));
    NoRepeatDrop(a, t.key, b);
    DistinctFromKeys(Without(p, t));
    ElemsKeys(Without(p, t));
    ElemsKeys(Plug(p, t));
    DropSet(a, t.key, b);
  }

  lemma DropSet(a: seq<VMANode>, k: VMANode, b: seq<VMANode>)
    requires NoRepeat(a + [k] + b)
    ensures (set x | x in a + b) == (set x | x in a + [k] + b) - {k}
  {
    var q := a + [k] + b;
    assert q[|a|] == k;
    forall x | x in a + b
      ensures x in q && x != k
    {
      var j :| 0 <= j < |a + b| && (a + b)[j] == x;
      assert q[if j < |a| then j else j + 1] == x;
    }
  }

  /** The in-order successor of the node at p. */
  lemma SuccessorIn(p: Where, t: Tree, q: seq<VMANode>, i: nat)
    requires t.Bin? && q == Keys(Plug(p, t)) && i == |Before(p) + Keys(t.left)|
    ensures i < |q| && q[i] == t.key
    ensures At(q, i + 1) == if t.right.Nil? then SuccAt(p) else Leftmost(t.right).key
  {
    hide Plug, Without, Before, After, Leftmost, DownLeft;
    WithoutKeys(p, t);
    var a, b := Before(p) + Keys(t.left), Keys(t.right) + After(p);
    assert q == a + [t.key] + b;
    if t.right.Bin? {
      DownLeftPlug(Top, t.right);
      assert |Keys(t.right)| > 0;
      assert q[i + 1] == b[0] == Keys(t.right)[0];
    } else {
      assert b == After(p);
      if After(p) != [] { assert q[i + 1] == b[0]; }
    }
  }

  /** Where a node sits, in the tree and in the list. */
  lemma FindIn(s: Tree, q: seq<VMANode>, node: VMANode) returns (p: Where, t: Tree, i: nat)
    requires node in Elems(s) && q == Keys(s)
    ensures t.Bin? && t.key == node && Plug(p, t) == s
    ensures i == |Before(p) + Keys(t.left)| && i < |q| && q[i] == node
    ensures At(q, i + 1) == if t.right.Nil? then SuccAt(p) else Leftmost(t.right).key
  {
    hide Before, Keys, SuccAt, Leftmost;
    p, t := Locate(s, node, Top);
    i := |Before(p) + Keys(t.left)|;
    SuccessorIn(p, t, q, i);
  }
}
