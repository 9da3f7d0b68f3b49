/**
  The kernel's virtual address space (mm/vmap.cc).

  Areas are taken from a VMA tree with one guard page on either side of each new area.
  Every operation keeps the areas page-aligned and at least one page apart, so every tree
  insertion meets a range that is clear.  Page tables are not part of this model: whether
  memory for them (and for the area descriptor) could be had is a parameter.
 */
module Vmap {
  import opened Basics
  import opened Words
  import opened VmaShape
  import opened VmaMem
  import opened VmaList
  import opened VmaTree
  import opened VmaGaps
  import opened VmaFind
  import opened VmaFree

  /** Areas are page-aligned, never at address 0, and at least one page apart. */
  ghost predicate Spaced(rs: seq<Range>)
  {
    && (forall i {:trigger rs[i]} :: 0 <= i < |rs| ==> PageRange(rs[i]))
    && (forall i, j {:trigger rs[i], rs[j]} :: 0 <= i < j < |rs| ==> rs[i].last + PAGE_SIZE < rs[j].first)
  }

  ghost predicate PageRange(r: Range)
  {
    PAGE_SIZE <= r.first <= r.last && r.first % PAGE_SIZE == 0 && (r.last + 1) % PAGE_SIZE == 0
  }

  /** An area of `size` bytes can be put at a: it lies in [low, high], and it and the page on
      either side are in the address space and free. */
  ghost predicate Placeable(rs: seq<Range>, size: Word, low: Word, high: Word, a: Word)
  {
    && a % PAGE_SIZE == 0 && low <= a && a + size - 1 <= high
    && PAGE_SIZE <= a && a + size + PAGE_SIZE <= TWO64
    && Free(rs, a - PAGE_SIZE, size + 2 * PAGE_SIZE)
  }

  /** The bounds of the search, widened by the guard pages. */
  function GuardLow(low: Word): (r: Word)
  {
    if low > PAGE_SIZE then low - PAGE_SIZE else 0
  }

  function GuardHigh(high: Word): (r: Word)
  {
    if high < WORD_MAX - PAGE_SIZE then high + PAGE_SIZE else WORD_MAX
  }

  lemma PageIsAlignment()
    ensures IsAlignment(PAGE_SIZE)
  {
    assert Pow2(2) == 4;
    assert Pow2(4) == 16;
    assert Pow2(6) == 64;
    assert Pow2(8) == 256;
    assert Pow2(10) == 1024;
    assert Pow2(12) == PAGE_SIZE;
  }

  /** A hole fits the widened search exactly when the area inside it can be placed. */
  lemma HoleFits(rs: seq<Range>, size: Word, low: Word, high: Word, hole: Word)
    requires size > 0 && size + 2 * PAGE_SIZE < TWO64
    ensures Fits(rs, Request(size + 2 * PAGE_SIZE, PAGE_SIZE, GuardLow(low), GuardHigh(high)), hole)
      <==> hole + PAGE_SIZE < TWO64 && Placeable(rs, size, low, high, hole + PAGE_SIZE)
  {
    hide Cells, Entries, Free;
  }

  /** Placing an area keeps the spacing. */
  lemma SpacedInsert(rs: seq<Range>, i: nat, r: Range)
    requires Spaced(rs) && i <= |rs| && PageRange(r) && Sorted(InsertAt(rs, i, r))
    requires Free(rs, r.first - PAGE_SIZE, r.last - r.first + 1 + 2 * PAGE_SIZE)
    ensures Spaced(InsertAt(rs, i, r))
  {
    hide Cells, Entries, PageRange;
    var q := InsertAt(rs, i, r);
    forall j | 0 <= j < |q|
      ensures PageRange(q[j])
    {
      assert j < i ==> q[j] == rs[j];
      assert j > i ==> q[j] == rs[j - 1];
    }
    forall j, k | 0 <= j < k < |q|
      ensures q[j].last + PAGE_SIZE < q[k].first
    {
      assert q[j].last < q[k].first;
      if k == i {
        assert q[j] == rs[j];
      } else if j == i {
        assert q[k] == rs[k - 1];
      } else {
        assert q[j] == rs[if j < i then j else j - 1];
        assert q[k] == rs[if k < i then k else k - 1];
      }
    }
  }

  lemma SpacedRemove(rs: seq<Range>, i: nat)
    requires Spaced(rs) && i < |rs|
    ensures Spaced(RemoveAt(rs, i))
  {
    hide Cells, Entries, PageRange;
    var q := RemoveAt(rs, i);
    forall j | 0 <= j < |q|
      ensures q[j] == rs[if j < i then j else j + 1]
    {
    }
  }

  /** Ranges follow the node list when a node is added or taken out. */
  lemma RangesInsert(e: Ent, q: seq<VMANode>, e': Ent, i: nat, n: VMANode)
    requires Listed(e, q) && i <= |q| && n in e'
    requires forall j :: 0 <= j < |q| ==> q[j] in e' && e'[q[j]].first == e[q[j]].first && e'[q[j]].last == e[q[j]].last
    ensures Listed(e', InsertAt(q, i, n))
    ensures Ranges(e', InsertAt(q, i, n)) == InsertAt(Ranges(e, q), i, Range(e'[n].first, e'[n].last))
  {
    var q' := InsertAt(q, i, n);
    forall j | 0 <= j < |q'|
      ensures q'[j] == if j < i then q[j] else if j == i then n else q[j - 1]
    {
    }
  }

  lemma RangesRemove(e: Ent, q: seq<VMANode>, e': Ent, i: nat)
    requires Listed(e, q) && i < |q| && Listed(e', RemoveAt(q, i))
    requires forall x :: x in e' ==> x in e && e'[x].first == e[x].first && e'[x].last == e[x].last
    ensures Ranges(e', RemoveAt(q, i)) == RemoveAt(Ranges(e, q), i)
  {
    var q' := RemoveAt(q, i);
    forall j | 0 <= j < |q'|
      ensures q'[j] == q[if j < i then j else j + 1]
    {
    }
  }

  /** What is free of the contents is clear of the nodes. */
  lemma FreeIsClear(tree: VMATree, node: VMANode, a: int, size: int)
    requires tree.Valid() && Free(Contents(tree), a, size)
    requires node.first <= node.last && a <= node.first && node.last < a + size
    ensures tree.Clear(node)
  {
    hide Cells, Entries, Avl, Distinct, Sound, Keys, Elems, Chained, Ascending, GapsExact;
    ElemsKeys(tree.shape);
    var rs := Contents(tree);
    forall x | x in tree.repr
      ensures node.last < x.first || x.last < node.first
    {
      var j :| 0 <= j < |tree.nodes| && tree.nodes[j] == x;
      assert rs[j] == Range(x.first, x.last);
    }
  }

  lemma ListedContents(tree: VMATree)
    requires tree.Valid()
    ensures Listed(Ents(tree.repr), tree.nodes) && Sorted(Contents(tree)) && |Contents(tree)| == |tree.nodes|
    ensures forall j :: 0 <= j < |tree.nodes| ==>
      tree.nodes[j] in tree.repr && Contents(tree)[j] == Range(tree.nodes[j].first, tree.nodes[j].last)
    ensures forall x :: x in tree.repr ==> x in tree.nodes
  {
    hide Cells, Entries, Avl, Distinct, Sound, Keys, Elems, Chained, Ascending, GapsExact;
    ElemsKeys(tree.shape);
    RangesSorted(Ents(tree.repr), tree.nodes, tree.listNext, tree.listPrev);
  }

  class KernelSpace {
    const tree: VMATree

    ghost predicate Valid()
      reads tree, tree.repr
    {
      tree.Valid() && Spaced(Contents(tree))
    }

    ghost function Areas(): (rs: seq<Range>)
      requires Valid()
      reads tree, tree.repr
    {
      Contents(tree)
    }

    constructor ()
      ensures Valid() && Areas() == [] && fresh(tree)
    {
      tree := new VMATree();
    }

    /** find_free_with_guard_pages: the least place for an area, if the widened range is not
        smaller than the hole. */
    method FindFreeWithGuardPages(size: Word, low: Word, high: Word) returns (ok: bool, out: Word)
      requires Valid() && size > 0
      ensures ok <==>
        size + 2 * PAGE_SIZE <= GuardHigh(high) && exists a: Word :: Placeable(Areas(), size, low, high, a)
      ensures ok ==>
        && Placeable(Areas(), size, low, high, out)
        && forall a: Word :: Placeable(Areas(), size, low, high, a) ==> out <= a
    {
      hide Cells, Entries, VMATree.Valid, Placeable, Fits, Spaced, GuardHigh, GuardLow, Contents;
      var hole := Wrap(size + PAGE_SIZE + PAGE_SIZE);
      if hole < size {
        return false, 0;
      }
      PageIsAlignment();
      WrapOnce(size + 2 * PAGE_SIZE);
      ghost var rs := Contents(tree);
      assert rs == Areas();
      ghost var req := Request(hole, PAGE_SIZE, GuardLow(low), GuardHigh(high));
      forall a: Word
        ensures Fits(rs, req, a) <==> a + PAGE_SIZE < TWO64 && Placeable(rs, size, low, high, a + PAGE_SIZE)
      {
        HoleFits(rs, size, low, high, a);
      }
      forall a: Word | Placeable(rs, size, low, high, a)
        ensures PAGE_SIZE <= a && Fits(rs, req, a - PAGE_SIZE)
      {
        PlaceableAbovePage(rs, size, low, high, a);
        HoleFits(rs, size, low, high, a - PAGE_SIZE);
      }
      var addr;
      ok, addr := FindFreeBottomUp(tree, hole, PAGE_SIZE, GuardLow(low), GuardHigh(high));
      if ok {
        out := addr + PAGE_SIZE;
        assert Placeable(Areas(), size, low, high, out);
        assert size + 2 * PAGE_SIZE <= GuardHigh(high);
        assert exists a: Word :: Placeable(Areas(), size, low, high, a);
      } else {
        out := 0;
        assert size + 2 * PAGE_SIZE <= GuardHigh(high) ==> forall a: Word :: !Placeable(Areas(), size, low, high, a);
        assert !(size + 2 * PAGE_SIZE <= GuardHigh(high) && exists a: Word :: Placeable(Areas(), size, low, high, a));
      }
    }

    /** One locked section: find a place, note it in the area, insert the area. */
    method Reserve(size: Word, low: Word, high: Word) returns (vma: VMANode?, ghost i: nat)
      requires Valid() && size > 0 && size % PAGE_SIZE == 0
      modifies tree, tree.repr
      ensures Valid()
      ensures vma == null ==> Areas() == old(Areas()) && tree.repr == old(tree.repr)
      ensures vma != null <==>
        size + 2 * PAGE_SIZE <= GuardHigh(high) && exists a: Word :: Placeable(old(Areas()), size, low, high, a)
      ensures vma != null ==> fresh(vma) && tree.repr == old(tree.repr) + {vma} && vma.last == vma.first + size - 1
      ensures vma != null ==> i <= |old(Areas())| && Areas() == InsertAt(old(Areas()), i, Range(vma.first, vma.last))
      ensures vma != null ==> Placeable(old(Areas()), size, low, high, vma.first)
      ensures vma != null ==> forall a: Word :: Placeable(old(Areas()), size, low, high, a) ==> vma.first <= a
    {
      hide Cells, Entries, VMATree.Valid, Placeable, Spaced, GuardHigh, GuardLow, Contents, VMATree.Clear, Ranges,
        InsertAt;
      var ok, addr := FindFreeWithGuardPages(size, low, high);
      vma, i := null, 0;
      if !ok {
        return;
      }
      ghost var rs := Areas();
      PlaceableRange(rs, size, low, high, addr);
      vma := new VMANode(addr, addr + size - 1);
      FreeIsClear(tree, vma, addr - PAGE_SIZE, size + 2 * PAGE_SIZE);
      ListedContents(tree);
      i := InsertArea(vma);
      SpacedInsert(rs, i, Range(vma.first, vma.last));
    }

    method InsertArea(vma: VMANode) returns (ghost i: nat)
      requires tree.Valid() && vma !in tree.repr && tree.Clear(vma)
      modifies tree
      modifies (tree.repr + {vma})`left, (tree.repr + {vma})`right, (tree.repr + {vma})`parent,
        (tree.repr + {vma})`height
      modifies (tree.repr + {vma})`prevGap, (tree.repr + {vma})`biggestGap, (tree.repr + {vma})`next,
        (tree.repr + {vma})`prev
      ensures tree.Valid() && tree.repr == old(tree.repr) + {vma}
      ensures i <= |old(Contents(tree))|
      ensures Contents(tree) == InsertAt(old(Contents(tree)), i, Range(vma.first, vma.last))
      ensures Sorted(Contents(tree))
    {
      hide Cells, Entries, VMATree.Valid, VMATree.Clear, Ranges, InsertAt;
      ListedContents(tree);
      ghost var e, q := Ents(tree.repr), tree.nodes;
      i := tree.Insert(vma);
      RangesInsert(e, q, Ents(tree.repr), i, vma);
      ListedContents(tree);
    }

    /** One locked section: take an area out of the tree. */
    method Release(vma: VMANode) returns (ghost i: nat)
      requires Valid() && vma in tree.repr
      modifies tree, tree.repr
      ensures Valid() && tree.repr == old(tree.repr) - {vma}
      ensures i < |old(Areas())| && old(Areas())[i] == Range(old(vma.first), old(vma.last))
      ensures Areas() == RemoveAt(old(Areas()), i)
    {
      hide Cells, Entries, VMATree.Valid, Ranges, RemoveAt, Spaced, Sorted;
      ListedContents(tree);
      ghost var e, q, rs := Ents(tree.repr), tree.nodes, Areas();
      i := tree.Remove(vma);
      ListedContents(tree);
      ghost var e' := Ents(tree.repr);
      assert forall x :: x in e' ==> x in e && e'[x].first == e[x].first && e'[x].last == e[x].last;
      RangesRemove(e, q, e', i);
      SpacedRemove(rs, i);
    }

    /** vmap_io_range: maps `size` bytes at `phys`; 0 on failure.  `descriptor` and `tables`
        say whether memory for the area and for its page tables could be had. */
    method MapIoRange(phys: Word, size: Word, low: Word, high: Word, descriptor: bool, tables: bool)
      returns (ptr: Word, ghost i: nat)
      requires Valid()
      modifies tree, tree.repr
      ensures Valid() && fresh(tree.repr - old(tree.repr))
      ensures ptr == 0 ==> Areas() == old(Areas())
      ensures ptr != 0 ==> i < |Areas()| && i <= |old(Areas())| && Areas() == InsertAt(old(Areas()), i, Areas()[i])
      ensures ptr != 0 ==> low <= Areas()[i].first && Areas()[i].last <= high
      ensures ptr != 0 ==>
        var bytes := Areas()[i].last - Areas()[i].first + 1;
        forall a: Word :: Placeable(old(Areas()), bytes, low, high, a) ==> Areas()[i].first <= a
      ensures ptr != 0 ==> Areas()[i].first <= ptr <= Areas()[i].last && ptr % PAGE_SIZE == phys % PAGE_SIZE
      ensures ptr != 0 ==> ptr + size - 1 <= Areas()[i].last < ptr + size - 1 + PAGE_SIZE
      ensures ptr != 0 <==> descriptor && tables && Mappable(old(Areas()), size + phys % PAGE_SIZE, low, high)
    {
      hide Cells, Entries, VMATree.Valid, Placeable, Spaced, GuardHigh, Contents, InsertAt, AlignUp, PageRange, Sorted;
      ptr, i := 0, 0;
      var offset := phys % PAGE_SIZE;
      if Wrap(size + offset) < size {
        return;
      }
      WrapOnce(size + offset);
      var bytes := AlignUp(size + offset, PAGE_SIZE);
      PageRound(size + offset);
      if bytes == 0 || !descriptor {
        return;
      }
      var vma;
      vma, i := Reserve(bytes, low, high);
      if vma == null {
        return;
      }
      ghost var rs := old(Areas());
      PlaceableRange(rs, bytes, low, high, vma.first);
      PlacedWell(rs, bytes, low, high, vma.first, offset);
      if !tables {
        ghost var r := Range(vma.first, vma.last);
        ListedContents(tree);
        ghost var k := Release(vma);
        RemoveInserted(rs, i, r, k);
        return;
      }
      InsertedThere(rs, i, Range(vma.first, vma.last));
      ptr := vma.first + offset;
    }

    /** vunmap and kfree_large: the area that contains ptr goes, if there is one. */
    method Unmap(ptr: Word) returns (found: bool, ghost i: nat)
      requires Valid()
      modifies tree, tree.repr
      ensures Valid()
      ensures found ==> i < |old(Areas())| && Within(old(Areas())[i], ptr) && Areas() == RemoveAt(old(Areas()), i)
      ensures !found ==> Areas() == old(Areas()) && forall j :: 0 <= j < |Areas()| ==> !Within(Areas()[j], ptr)
    {
      hide Cells, Entries, VMATree.Valid, Spaced, Contents, RemoveAt, Sorted;
      i := 0;
      ListedContents(tree);
      var vma := Find(tree, ptr);
      if vma == null {
        return false, 0;
      }
      i := Release(vma);
      found := true;
    }

    /** A mapping that succeeds and is then undone through any address of the window it returned
        leaves the areas as they were. */
    method MapThenUnmap(phys: Word, size: Word, low: Word, high: Word, offset: Word) returns (mapped: bool)
      requires Valid() && (offset == 0 || offset < size)
      modifies tree, tree.repr
      ensures Valid() && Areas() == old(Areas())
      ensures mapped <==> Mappable(old(Areas()), size + phys % PAGE_SIZE, low, high)
    {
      hide Cells, Entries, VMATree.Valid, Placeable, Spaced, Contents, InsertAt, RemoveAt, Sorted, Mappable;
      var ptr, i := MapIoRange(phys, size, low, high, true, true);
      mapped := ptr != 0;
      if mapped {
        ghost var q := Areas();
        ListedContents(tree);
        var found, k := Unmap(ptr + offset);
        assert Within(q[i], ptr + offset);
        UnmapUndoesMap(old(Areas()), i, q[i], k, ptr + offset);
      }
    }
  }

  predicate Within(r: Range, a: Word)
  {
    r.first <= a <= r.last
  }

  /** A request for n bytes, rounded up to pages, has a place. */
  ghost predicate Mappable(rs: seq<Range>, n: nat, low: Word, high: Word)
  {
    && n < TWO64 && AlignUp(n, PAGE_SIZE) > 0
    && AlignUp(n, PAGE_SIZE) + 2 * PAGE_SIZE <= GuardHigh(high)
    && exists a: Word :: Placeable(rs, AlignUp(n, PAGE_SIZE), low, high, a)
  }

  lemma PageRound(n: Word)
    ensures var r := AlignUp(n, PAGE_SIZE); r % PAGE_SIZE == 0 && (r == 0 || n <= r < n + PAGE_SIZE)
  {
    PageIsAlignment();
    AlignUpValue(n, PAGE_SIZE);
  }

  lemma PlacedWell(rs: seq<Range>, size: Word, low: Word, high: Word, a: Word, offset: nat)
    requires Placeable(rs, size, low, high, a) && offset < PAGE_SIZE
    ensures low <= a && a + size - 1 <= high && a + offset < TWO64 && (a + offset) % PAGE_SIZE == offset
  {
  }

  lemma InsertedThere(rs: seq<Range>, i: nat, r: Range)
    requires i <= |rs|
    ensures |InsertAt(rs, i, r)| == |rs| + 1 && InsertAt(rs, i, r)[i] == r
  {
  }

  /** Taking out the area that was put in leaves what was there before. */
  lemma RemoveInserted(rs: seq<Range>, i: nat, r: Range, k: nat)
    requires i <= |rs| && Sorted(InsertAt(rs, i, r)) && k < |InsertAt(rs, i, r)| && InsertAt(rs, i, r)[k] == r
    ensures RemoveAt(InsertAt(rs, i, r), k) == rs
  {
    UnmapUndoesMap(rs, i, r, k, r.first);
  }

  /** Whatever address of a new area is unmapped, the areas are as they were before. */
  lemma UnmapUndoesMap(rs: seq<Range>, i: nat, r: Range, k: nat, ptr: Word)
    requires i <= |rs| && Sorted(InsertAt(rs, i, r)) && k < |InsertAt(rs, i, r)|
    requires Within(r, ptr) && Within(InsertAt(rs, i, r)[k], ptr)
    ensures RemoveAt(InsertAt(rs, i, r), k) == rs
  {
    var q := InsertAt(rs, i, r);
    assert q[i] == r;
    assert k == i;
    assert q[..i] == rs[..i] && q[i + 1..] == rs[i..];
  }

  lemma PlaceableRange(rs: seq<Range>, size: Word, low: Word, high: Word, a: Word)
    requires Placeable(rs, size, low, high, a) && size > 0 && size % PAGE_SIZE == 0
    ensures PAGE_SIZE <= a && a + size - 1 < TWO64 && PageRange(Range(a, a + size - 1))
    ensures Free(rs, a - PAGE_SIZE, size + 2 * PAGE_SIZE)
  {
  }

  lemma PlaceableAbovePage(rs: seq<Range>, size: Word, low: Word, high: Word, a: Word)
    requires Placeable(rs, size, low, high, a)
    ensures PAGE_SIZE <= a
  {
  }
}
