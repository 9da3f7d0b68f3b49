/**
  The slab allocator (mm/slab.cc): slab_alloc, slab_free, slab_create.

  `live` is the set of objects handed out and not yet freed, `chains` the free chain of
  every page; both are there for the specification only.  Pages that have free and live
  slots are on the partial list, a page with no live slot is on the full list, pages
  without a free slot are on no list.
 */
module Slab {
  import opened Basics
  import opened SlabHeap
  import Words

  // ---- the books -------------------------------------------------------------------------------

  /** The free slots of the pages of a list. */
  ghost function SumFree(pages: map<Addr, PageInfo>, q: seq<Addr>): nat
    requires forall p :: p in q ==> p in pages
  {
    if q == [] then 0 else pages[q[0]].nfree + SumFree(pages, q[1..])
  }

  /** Each page is on the list its free slots call for, once. */
  ghost predicate Listed(g: Geometry, pages: map<Addr, PageInfo>, partial: seq<Addr>, full: seq<Addr>)
  {
    && NoRepeat(partial) && |full| <= 1
    && (forall p :: p in partial <==> p in pages && 0 < pages[p].nfree < g.objs)
    && (forall p :: p in full <==> p in pages && pages[p].nfree == g.objs)
    && (forall p :: p in pages ==> pages[p].nfree <= g.objs)
  }

  /** The allocator has the same pages, one more, one less. */
  ghost predicate SamePages(was: map<Addr, PageInfo>, now: map<Addr, PageInfo>)
  {
    now.Keys == was.Keys
  }

  ghost predicate Grown(was: map<Addr, PageInfo>, now: map<Addr, PageInfo>, p: Addr)
  {
    p !in was && now.Keys == was.Keys + {p}
  }

  ghost predicate Shrunk(was: map<Addr, PageInfo>, now: map<Addr, PageInfo>, p: Addr)
  {
    p in was && now.Keys == was.Keys - {p}
  }

  /** The words of the objects are the same. */
  ghost predicate Kept(g: Geometry, objects: set<Addr>, mem: map<Addr, Addr>, mem': map<Addr, Addr>)
  {
    forall a, w :: a in objects && w in mem && a <= w < a + g.size ==> w in mem' && mem'[w] == mem[w]
  }

  /** A list without its first page. */
  function Rest(q: seq<Addr>): seq<Addr>
  {
    if q == [] then [] else q[1..]
  }

  datatype Counters = Counters(nrFull: nat, nrPartial: nat, nrEmpty: nat, nfree: nat)

  /** The counters agree with the lists, and every slot is free or live. */
  ghost predicate Counted(g: Geometry, pages: map<Addr, PageInfo>, partial: seq<Addr>, full: seq<Addr>, n: Counters,
                          live: nat)
    requires forall p :: p in partial ==> p in pages
  {
    && n.nrPartial == |partial| && n.nrFull == |full|
    && n.nrEmpty + |partial| + |full| == |pages.Keys|
    && n.nfree == SumFree(pages, partial) + (if full == [] then 0 else g.objs)
    && n.nfree + live == Times(g.objs, |pages.Keys|)
  }

  ghost predicate Books(g: Geometry, pages: map<Addr, PageInfo>, partial: seq<Addr>, full: seq<Addr>, n: Counters,
                        live: nat)
  {
    && Listed(g, pages, partial, full) && Counted(g, pages, partial, full, n, live)
  }

  lemma {:induction false} SumFrame(pages: map<Addr, PageInfo>, pages': map<Addr, PageInfo>, q: seq<Addr>)
    requires forall p :: p in q ==> p in pages && p in pages' && pages'[p] == pages[p]
    ensures SumFree(pages', q) == SumFree(pages, q)
  {
    if q != [] {
      SumFrame(pages, pages', q[1..]);
    }
  }

  lemma {:induction false} SumWithout(pages: map<Addr, PageInfo>, q: seq<Addr>, p: Addr)
    requires NoRepeat(q) && p in q && (forall x :: x in q ==> x in pages)
      && (forall x :: x in Omit(q, p) ==> x in pages)
    ensures SumFree(pages, q) == pages[p].nfree + SumFree(pages, Omit(q, p))
  {
    if q[0] != p {
      OmitElems(q[1..], p);
      SumWithout(pages, q[1..], p);
      assert ([q[0]] + Omit(q[1..], p))[1..] == Omit(q[1..], p);
    }
  }

  /** Changing the count of one page of the list. */
  lemma SumChange(pages: map<Addr, PageInfo>, q: seq<Addr>, p: Addr, info: PageInfo)
    requires NoRepeat(q) && p in q && forall x :: x in q ==> x in pages
    ensures SumFree(pages[p := info], q) == SumFree(pages, q) - pages[p].nfree + info.nfree
  {
    hide NoRepeat, Omit;
    OmitElems(q, p);
    SumWithout(pages, q, p);
    SumWithout(pages[p := info], q, p);
    SumFrame(pages, pages[p := info], Omit(q, p));
  }

  // ---- what the operations do to the books -----------------------------------------------------

  lemma ListedTake(g: Geometry, pages: map<Addr, PageInfo>, partial: seq<Addr>, full: seq<Addr>, obj: Addr)
    requires Listed(g, pages, partial, full) && partial != []
    ensures var p := partial[0];
      && p in pages && 0 < pages[p].nfree && (forall x :: x in partial ==> x in pages) && NoRepeat(partial)
      && var k := pages[p].nfree - 1;
      Listed(g, pages[p := PageInfo(k, obj)], if k == 0 then partial[1..] else partial, full)
  {
    hide NoRepeat;
    assert partial[0] in partial;
    NoRepeatRest(partial);
  }

  /** A slot of the first partial page is taken. */
  lemma TakePartial(g: Geometry, pages: map<Addr, PageInfo>, partial: seq<Addr>, full: seq<Addr>, n: Counters,
                    live: nat, obj: Addr)
    requires Books(g, pages, partial, full, n, live) && partial != []
    ensures var p := partial[0];
      && p in pages && 0 < pages[p].nfree && n.nfree > 0
      && var k := pages[p].nfree - 1;
      var pages' := pages[p := PageInfo(k, obj)];
      if k == 0
      then Books(g, pages', partial[1..], full,
                 n.(nrPartial := n.nrPartial - 1, nrEmpty := n.nrEmpty + 1, nfree := n.nfree - 1), live + 1)
      else Books(g, pages', partial, full, n.(nfree := n.nfree - 1), live + 1)
  {
    hide NoRepeat, Times, Listed;
    ListedTake(g, pages, partial, full, obj);
    var p := partial[0];
    assert p in partial;
    var k := pages[p].nfree - 1;
    var pages' := pages[p := PageInfo(k, obj)];
    NoRepeatRest(partial);
    SumFrame(pages, pages', partial[1..]);
    SumChange(pages, partial, p, PageInfo(k, obj));
    assert pages'.Keys == pages.Keys;
  }

  /** A slot of the page without live slots is taken; there is no partial page. */
  lemma TakeFull(g: Geometry, pages: map<Addr, PageInfo>, full: seq<Addr>, n: Counters, live: nat, obj: Addr)
    requires g.objs >= 2 && Books(g, pages, [], full, n, live) && full != []
    ensures var p := full[0];
      && p in pages && pages[p].nfree == g.objs && n.nfree > 0
      && Books(g, pages[p := PageInfo(g.objs - 1, obj)], [p], full[1..],
               n.(nrFull := n.nrFull - 1, nrPartial := n.nrPartial + 1, nfree := n.nfree - 1), live + 1)
  {
    hide Times;
    var p := full[0];
    assert p in full;
    var pages' := pages[p := PageInfo(g.objs - 1, obj)];
    assert pages'.Keys == pages.Keys;
    assert full == [p];
    assert SumFree(pages', [p]) == g.objs - 1 by { assert [p][1..] == []; }
  }

  lemma ListedNew(g: Geometry, pages: map<Addr, PageInfo>, p: Addr, obj: Addr)
    requires g.objs >= 2 && Listed(g, pages, [], []) && p !in pages
    ensures Listed(g, pages[p := PageInfo(g.objs - 1, obj)], [p], [])
  {
    var pages' := pages[p := PageInfo(g.objs - 1, obj)];
    forall x | x in pages
      ensures pages[x].nfree == 0
    {
      assert x !in [];
    }
  }

  /** A slot of the first partial page, or else of the page without live slots, is taken. */
  lemma TakeBooks(g: Geometry, pages: map<Addr, PageInfo>, partial: seq<Addr>, full: seq<Addr>, n: Counters,
                  live: nat, p: Addr, obj: Addr)
    requires g.objs >= 2 && Books(g, pages, partial, full, n, live) && (partial != [] || full != [])
    requires p == if partial != [] then partial[0] else full[0]
    ensures p in pages && 0 < pages[p].nfree && n.nfree > 0
    ensures n.nrPartial == |partial| && n.nrFull == |full|
    ensures SamePages(pages, pages[p := PageInfo(pages[p].nfree - 1, obj)])
    ensures var k := pages[p].nfree - 1;
      var rest, kept := if partial != [] then partial[1..] else [], if partial != [] then full else full[1..];
      Books(g, pages[p := PageInfo(k, obj)], if k == 0 then rest else [p] + rest, kept,
            Counters(|kept|, if k == 0 then |rest| else |rest| + 1,
                     if k == 0 then n.nrEmpty + 1 else n.nrEmpty, n.nfree - 1), live + 1)
  {
    hide Books, Times;
    BooksCounts(g, pages, partial, full, n, live);
    if partial != [] {
      TakePartial(g, pages, partial, full, n, live, obj);
      assert [p] + partial[1..] == partial;
    } else {
      TakeFull(g, pages, full, n, live, obj);
      assert [p] + [] == [p];
    }
  }

  /** A fresh page comes in, its first slot live; nothing was free before. */
  lemma NewPage(g: Geometry, pages: map<Addr, PageInfo>, n: Counters, live: nat, p: Addr, obj: Addr)
    requires g.objs >= 2 && Books(g, pages, [], [], n, live) && p !in pages
    ensures n.nfree == 0 && Grown(pages, pages[p := PageInfo(g.objs - 1, obj)], p)
    ensures Books(g, pages[p := PageInfo(g.objs - 1, obj)], [p], [],
                  n.(nrPartial := n.nrPartial + 1, nfree := n.nfree + (g.objs - 1)), live + 1)
  {
    hide Times, Listed;
    var pages' := pages[p := PageInfo(g.objs - 1, obj)];
    ListedNew(g, pages, p, obj);
    assert pages'.Keys == pages.Keys + {p};
    TimesStep(g.objs, |pages.Keys|);
    assert SumFree(pages', [p]) == g.objs - 1 by { assert [p][1..] == []; }
  }

  ghost function Members(q: seq<Addr>): set<Addr>
  {
    set x | x in q
  }

  lemma {:induction false} ListSize(q: seq<Addr>)
    requires NoRepeat(q)
    ensures |Members(q)| == |q|
  {
    if q == [] {
      assert Members(q) == {};
    } else {
      NoRepeatRest(q);
      ListSize(q[1..]);
      assert Members(q) == Members(q[1..]) + {q[0]};
    }
  }

  /** A page on no list leaves the lists shorter than the set of pages. */
  lemma ListRoom(pages: set<Addr>, partial: seq<Addr>, full: seq<Addr>, p: Addr)
    requires NoRepeat(partial) && |full| <= 1 && p in pages && p !in partial && p !in full
    requires (forall x :: x in partial ==> x in pages && x !in full) && (forall x :: x in full ==> x in pages)
    ensures |partial| + |full| < |pages|
  {
    var a, b := Members(partial), Members(full);
    ListSize(partial);
    ListSize(full);
    assert a !! b && a + b <= pages - {p};
    assert |a + b| == |a| + |b|;
    Subset(a + b, pages - {p});
  }

  lemma {:induction false} Subset(a: set<Addr>, b: set<Addr>)
    requires a <= b
    ensures |a| <= |b|
  {
    if a != {} {
      var x :| x in a;
      Subset(a - {x}, b - {x});
    }
  }

  /** The first slot of a page without free slots comes back. */
  lemma GiveFirst(g: Geometry, pages: map<Addr, PageInfo>, partial: seq<Addr>, full: seq<Addr>, n: Counters,
                  live: nat, p: Addr, obj: Addr)
    requires g.objs >= 2 && Books(g, pages, partial, full, n, live) && p in pages && pages[p].nfree == 0 && live > 0
    ensures n.nrEmpty > 0
    ensures Books(g, pages[p := PageInfo(1, obj)], [p] + partial, full,
                  n.(nrEmpty := n.nrEmpty - 1, nrPartial := n.nrPartial + 1, nfree := n.nfree + 1), live - 1)
  {
    hide Times, NoRepeat;
    var pages' := pages[p := PageInfo(1, obj)];
    ListRoom(pages.Keys, partial, full, p);
    assert pages'.Keys == pages.Keys;
    NoRepeatFront(partial, p);
    SumFrame(pages, pages', partial);
    assert ([p] + partial)[1..] == partial;
  }

  /** A slot of a partial page comes back and leaves it partial. */
  lemma GiveMiddle(g: Geometry, pages: map<Addr, PageInfo>, partial: seq<Addr>, full: seq<Addr>, n: Counters,
                   live: nat, p: Addr, obj: Addr)
    requires Books(g, pages, partial, full, n, live) && p in pages && 0 < pages[p].nfree
      && pages[p].nfree + 1 < g.objs && live > 0
    ensures Books(g, pages[p := PageInfo(pages[p].nfree + 1, obj)], partial, full, n.(nfree := n.nfree + 1), live - 1)
  {
    hide Times, NoRepeat;
    var info := PageInfo(pages[p].nfree + 1, obj);
    SumChange(pages, partial, p, info);
    assert pages[p := info].Keys == pages.Keys;
  }

  /** A slot comes back and leaves its page partial. */
  lemma GiveBooks(g: Geometry, pages: map<Addr, PageInfo>, partial: seq<Addr>, full: seq<Addr>, n: Counters,
                  live: nat, p: Addr, obj: Addr)
    requires g.objs >= 2 && Books(g, pages, partial, full, n, live) && p in pages && live > 0
    requires pages[p].nfree == 0 || pages[p].nfree + 1 < g.objs
    ensures pages[p].nfree == 0 ==> n.nrEmpty > 0
    ensures SamePages(pages, pages[p := PageInfo(pages[p].nfree + 1, obj)])
    ensures var k := pages[p].nfree + 1;
      Books(g, pages[p := PageInfo(k, obj)], if k == 1 then [p] + partial else partial, full,
            Counters(n.nrFull, if k == 1 then n.nrPartial + 1 else n.nrPartial,
                     if k == 1 then n.nrEmpty - 1 else n.nrEmpty, n.nfree + 1), live - 1)
  {
    hide Books;
    if pages[p].nfree == 0 {
      GiveFirst(g, pages, partial, full, n, live, p, obj);
    } else {
      GiveMiddle(g, pages, partial, full, n, live, p, obj);
    }
  }

  /** The last live slot of a page comes back, and the page is kept. */
  lemma GiveLastKeep(g: Geometry, pages: map<Addr, PageInfo>, partial: seq<Addr>, n: Counters, live: nat, p: Addr,
                     obj: Addr)
    requires g.objs >= 2 && Books(g, pages, partial, [], n, live) && p in pages && pages[p].nfree + 1 == g.objs
      && live > 0
    ensures n.nrPartial > 0 && SamePages(pages, pages[p := PageInfo(g.objs, obj)])
    ensures Books(g, pages[p := PageInfo(g.objs, obj)], Omit(partial, p), [p],
                  n.(nrPartial := n.nrPartial - 1, nrFull := n.nrFull + 1, nfree := n.nfree + 1), live - 1)
  {
    hide Times, NoRepeat, Omit;
    var pages' := pages[p := PageInfo(g.objs, obj)];
    OmitElems(partial, p);
    SumWithout(pages, partial, p);
    SumFrame(pages, pages', Omit(partial, p));
    assert pages'.Keys == pages.Keys;
  }

  lemma ListedDrop(g: Geometry, pages: map<Addr, PageInfo>, partial: seq<Addr>, full: seq<Addr>, p: Addr)
    requires Listed(g, pages, partial, full) && p in pages && 0 < pages[p].nfree < g.objs
    ensures Listed(g, pages - {p}, Omit(partial, p), full)
    ensures NoRepeat(partial) && p in partial && forall x :: x in partial ==> x in pages
    ensures forall x :: x in Omit(partial, p) ==> x in pages && x != p
  {
    hide NoRepeat, Omit;
    OmitElems(partial, p);
  }

  /** The last live slot of a page comes back, and the page goes: another one is kept. */
  lemma GiveLastDrop(g: Geometry, pages: map<Addr, PageInfo>, partial: seq<Addr>, full: seq<Addr>, n: Counters,
                     live: nat, p: Addr)
    requires g.objs >= 2 && Books(g, pages, partial, full, n, live) && p in pages && pages[p].nfree + 1 == g.objs
      && live > 0 && full != []
    ensures n.nrPartial > 0 && n.nfree + 1 >= g.objs
    ensures Books(g, pages - {p}, Omit(partial, p), full,
                  n.(nrPartial := n.nrPartial - 1, nfree := n.nfree + 1 - g.objs), live - 1)
  {
    hide Times, NoRepeat, Omit, Listed, SumFree;
    var pages' := pages - {p};
    ListedDrop(g, pages, partial, full, p);
    OmitElems(partial, p);
    SumWithout(pages, partial, p);
    SumFrame(pages, pages', Omit(partial, p));
    assert pages.Keys == pages'.Keys + {p};
    TimesStep(g.objs, |pages'.Keys|);
  }

  // ---- the allocator ---------------------------------------------------------------------------

  class SlabAllocator {
    const g: Geometry
    var nrFull: nat
    var nrPartial: nat
    var nrEmpty: nat
    var nfree: nat
    var pageFull: seq<Addr>
    var pagePartial: seq<Addr>
    // The slab part of struct Page, by page address, and the words in memory.
    var pages: map<Addr, PageInfo>
    var mem: map<Addr, Addr>
    ghost var live: set<Addr>
    ghost var chains: map<Addr, seq<Addr>>

    ghost predicate Valid()
      reads this
    {
      && Heap(g, pages, mem, chains, live)
      && Books(g, pages, pagePartial, pageFull, Counters(nrFull, nrPartial, nrEmpty, nfree), |live|)
    }

    /** init_new_allocator. */
    constructor (g: Geometry)
      requires Proper(g)
      ensures Valid() && live == {} && pages == map[] && this.g == g
    {
      this.g := g;
      nrFull, nrPartial, nrEmpty, nfree := 0, 0, 0, 0;
      pageFull, pagePartial := [], [];
      pages, mem := map[], map[];
      live, chains := {}, map[];
    }

    /** The loop of slab_alloc that threads a fresh page. */
    method Thread(p: Addr) returns (pobj: Addr, mem': map<Addr, Addr>, ghost c: seq<Addr>)
      requires Proper(g) && p % PAGE_SIZE == 0
      ensures RestOfPage(g, p, c) && Chain(mem', pobj, c)
      ensures forall x :: x in mem && PageOf(x) != p ==> x in mem' && mem'[x] == mem[x]
    {
      hide PageOf, Chain;
      pobj, mem', c := 0, mem, [];
      var head, i := 0, 1;
      while i < g.objs
        invariant 1 <= i <= g.objs && |c| == i - 1
        invariant forall k :: 0 <= k < |c| ==> c[k] == Slot(g, p, k + 1)
        invariant forall k :: 0 <= k < |c| - 1 ==> c[k] in mem' && mem'[c[k]] == c[k + 1]
        invariant c != [] ==> pobj == c[0] && head == c[|c| - 1]
        invariant forall x :: x in mem && PageOf(x) != p ==> x in mem' && mem'[x] == mem[x]
      {
        var obj := Slot(g, p, i);
        if i == 1 {
          pobj := obj;
        } else {
          HeadSlot(g, p, c, i - 1);
          mem' := mem'[head := obj];
        }
        head := obj;
        c := c + [obj];
        i := i + 1;
      }
      HeadSlot(g, p, c, i - 1);
      mem' := mem'[head := 0];
      LinkedChain(mem', c);
    }

    /** slab_alloc.  `page` is what alloc_page would give, 0 if it has none. */
    method Alloc(page: Addr) returns (ptr: Addr)
      requires Valid() && (page > 0 ==> page % PAGE_SIZE == 0 && page !in pages)
      modifies this
      ensures Valid()
      ensures ptr == 0 <==> old(nfree) == 0 && page == 0
      ensures ptr == 0 ==> live == old(live) && pages == old(pages)
      ensures ptr > 0 ==>
        ptr !in old(live) && live == old(live) + {ptr} && PageOf(ptr) in pages && IsSlot(g, PageOf(ptr), ptr)
      ensures if old(nfree) == 0 && page > 0 then Grown(old(pages), pages, page) else SamePages(old(pages), pages)
      ensures Kept(g, old(live), old(mem), mem)
      ensures ptr > 0 ==> ptr == Choice(old(pages), old(pagePartial), old(pageFull), page)
      ensures ptr > 0 && PageOf(ptr) in old(pages) ==> pages[PageOf(ptr)].nfree == old(pages)[PageOf(ptr)].nfree - 1
      ensures ptr > 0 ==> Filed(old(pagePartial), old(pageFull), PageOf(ptr), pages[PageOf(ptr)].nfree)
      ensures ptr == 0 ==> pagePartial == old(pagePartial) && pageFull == old(pageFull)
    {
      hide Grown, SamePages, Shrunk, Heap, Books, Proper, IsSlot, PageOf, NoRepeat, Times;
      BooksCounts(g, pages, pagePartial, pageFull, Counters(nrFull, nrPartial, nrEmpty, nfree), |live|);
      if nrPartial > 0 || nrFull > 0 {
        ptr := AllocFromList();
      } else if page > 0 {
        ptr := AllocFromPage(page);
      } else {
        ptr := 0;
        Unchanged(pages);
        assert Kept(g, live, mem, mem);
      }
    }

    /** The page a slot was taken from is first on the partial list, unless it has no free slot
        left; the other pages stay as they are. */
    ghost predicate Filed(partial: seq<Addr>, full: seq<Addr>, p: Addr, nfree: nat)
      reads this
    {
      && pagePartial == (if nfree == 0 then [] else [p]) + Rest(partial)
      && pageFull == if partial == [] then Rest(full) else full
    }

    /** The part of slab_alloc that finds a page on a list. */
    method AllocFromList() returns (ptr: Addr)
      requires Valid() && (nrPartial > 0 || nrFull > 0)
      modifies this
      ensures Valid() && old(nfree) > 0
      ensures ptr > 0 && ptr !in old(live) && live == old(live) + {ptr} && PageOf(ptr) in pages
        && IsSlot(g, PageOf(ptr), ptr)
      ensures SamePages(old(pages), pages) && mem == old(mem)
      ensures ptr == Choice(old(pages), old(pagePartial), old(pageFull), 0)
      ensures PageOf(ptr) in old(pages) && pages[PageOf(ptr)].nfree == old(pages)[PageOf(ptr)].nfree - 1
      ensures Filed(old(pagePartial), old(pageFull), PageOf(ptr), pages[PageOf(ptr)].nfree)
    {
      hide Grown, SamePages, Shrunk, Heap, Books, Proper, IsSlot, PageOf, NoRepeat, Times;
      ghost var n, partial, full := Counters(nrFull, nrPartial, nrEmpty, nfree), pagePartial, pageFull;
      ghost var l := live;
      var was := pages;
      BooksCounts(g, was, partial, full, n, |l|);
      HeapProper(g, was, mem, chains, l);
      var p := PopPage();
      ptr := HandOut(p);
      TakeBooks(g, was, partial, full, n, |l|, p, pages[p].pobj);
      FileTaken(p, was[p].nfree - 1);
    }

    /** The first slot of the chain of p is handed out. */
    method HandOut(p: Addr) returns (ptr: Addr)
      requires Heap(g, pages, mem, chains, live) && p in pages && pages[p].nfree > 0
      modifies this`pages, this`chains, this`live
      ensures ptr > 0 && ptr !in old(live) && PageOf(ptr) == p && IsSlot(g, p, ptr) && ptr == old(pages)[p].pobj
      ensures p in pages && pages == old(pages)[p := PageInfo(old(pages)[p].nfree - 1, pages[p].pobj)]
      ensures Heap(g, pages, mem, chains, live) && live == old(live) + {ptr} && |live| == |old(live)| + 1
    {
      hide Heap, IsSlot, PageOf;
      HeapTake(g, pages, mem, chains, live, p);
      ptr := pages[p].pobj;
      pages := pages[p := PageInfo(pages[p].nfree - 1, mem[ptr])];
      chains, live := chains[p := chains[p][1..]], live + {ptr};
    }

    method PopPage() returns (p: Addr)
      requires nrPartial == |pagePartial| && nrFull == |pageFull| && (nrPartial > 0 || nrFull > 0)
      modifies this`pagePartial, this`pageFull, this`nrPartial, this`nrFull
      ensures p == if old(pagePartial) != [] then old(pagePartial)[0] else old(pageFull)[0]
      ensures pagePartial == (if old(pagePartial) != [] then old(pagePartial)[1..] else [])
      ensures pageFull == (if old(pagePartial) != [] then old(pageFull) else old(pageFull)[1..])
      ensures nrPartial == |pagePartial| && nrFull == |pageFull|
    {
      if nrPartial > 0 {
        p := pagePartial[0];
        pagePartial := pagePartial[1..];
        nrPartial := nrPartial - 1;
      } else {
        p := pageFull[0];
        pageFull := pageFull[1..];
        nrFull := nrFull - 1;
      }
    }

    /** A page that had a slot taken and has k free slots left goes where it belongs. */
    method FileTaken(p: Addr, k: nat)
      requires nfree > 0 && nrPartial == |pagePartial|
      modifies this`pagePartial, this`nrPartial, this`nrEmpty, this`nfree
      ensures pagePartial == (if k == 0 then old(pagePartial) else [p] + old(pagePartial)) && nrPartial == |pagePartial|
      ensures nrEmpty == (if k == 0 then old(nrEmpty) + 1 else old(nrEmpty)) && nfree == old(nfree) - 1
    {
      if k == 0 {
        nrEmpty := nrEmpty + 1;
      } else {
        nrPartial := nrPartial + 1;
        pagePartial := [p] + pagePartial;
      }
      nfree := nfree - 1;
    }

    /** The part of slab_alloc that takes a fresh page into use. */
    method AllocFromPage(page: Addr) returns (ptr: Addr)
      requires Valid() && nrPartial == 0 && nrFull == 0 && page > 0 && page % PAGE_SIZE == 0 && page !in pages
      modifies this
      ensures Valid() && old(nfree) == 0
      ensures ptr == page && ptr !in old(live) && live == old(live) + {ptr} && PageOf(ptr) in pages
        && IsSlot(g, PageOf(ptr), ptr)
      ensures Grown(old(pages), pages, page) && Kept(g, old(live), old(mem), mem)
      ensures pagePartial == [page] && pageFull == [] == old(pageFull) && old(pagePartial) == []
      ensures page in pages && PageOf(page) == page && pages[page].nfree > 0
    {
      hide Grown, SamePages, Shrunk, Heap, Books, Proper, IsSlot, PageOf, NoRepeat, Times, RestOfPage, Chain, Kept;
      ghost var n := Counters(nrFull, nrPartial, nrEmpty, nfree);
      BooksCounts(g, pages, pagePartial, pageFull, n, |live|);
      HeapProper(g, pages, mem, chains, live);
      var pobj, mem';
      ghost var c;
      pobj, mem', c := Thread(page);
      HeapNew(g, pages, mem, chains, live, page, pobj, mem', c);
      KeptElsewhere(g, pages, mem, chains, live, page, mem');
      NewPage(g, pages, n, |live|, page, pobj);
      assert |live + {page}| == |live| + 1 && [page] + pagePartial == [page];
      pages, mem := pages[page := PageInfo(g.objs - 1, pobj)], mem';
      chains, live := chains[page := c], live + {page};
      nfree := nfree + (g.objs - 1);
      nrPartial := nrPartial + 1;
      pagePartial := [page] + pagePartial;
      ptr := page;
    }

    /** slab_free.  The page goes back to the page allocator if it holds no live object and
        another such page is kept; `released` is then its address. */
    method Free(ptr: Addr) returns (released: Addr)
      requires Valid() && ptr in live
      modifies this
      ensures Valid() && live == old(live) - {ptr}
      ensures released == 0 ==> SamePages(old(pages), pages)
      ensures released > 0 ==> released == PageOf(ptr) && Shrunk(old(pages), pages, released) && pageFull != []
      ensures released > 0 ==> forall a :: a in live ==> PageOf(a) != released
      ensures Kept(g, live, old(mem), mem) && PageOf(ptr) in old(pages)
      ensures released == 0 ==>
        PageOf(ptr) in pages && pages[PageOf(ptr)] == PageInfo(old(pages)[PageOf(ptr)].nfree + 1, ptr)
      ensures released > 0 <==> old(pages)[PageOf(ptr)].nfree + 1 == g.objs && old(pageFull) != []
      ensures var p, k := PageOf(ptr), old(pages)[PageOf(ptr)].nfree + 1;
        if k == g.objs then pagePartial == Omit(old(pagePartial), p) && pageFull == FirstOr(old(pageFull), p)
        else pagePartial == (if k == 1 then [p] else []) + old(pagePartial) && pageFull == old(pageFull)
    {
      hide Grown, SamePages, Shrunk, Heap, Books, Proper, IsSlot, PageOf, NoRepeat, Times, Omit, Kept;
      ghost var n, partial, full := Counters(nrFull, nrPartial, nrEmpty, nfree), pagePartial, pageFull;
      ghost var l := live;
      var was, p := pages, PageOf(ptr);
      BooksCounts(g, was, partial, full, n, |l|);
      TakeBack(ptr);
      if was[p].nfree == 0 || was[p].nfree + 1 < g.objs {
        GiveBooks(g, was, partial, full, n, |l|, p, ptr);
        FileReturned(p, was[p].nfree + 1);
        released := 0;
      } else if nrFull < 1 {
        GiveLastKeep(g, was, partial, n, |l|, p, ptr);
        assert full == [];
        KeepPage(p);
        released := 0;
      } else {
        GiveLastDrop(g, was, partial, full, n, |l|, p);
        HeapDrop(g, pages, mem, chains, live, p);
        DropChanged(was, p, pages[p]);
        DropPage(p);
        released := p;
      }
    }

    /** An object whose page had no free slot is the next one handed out after it was freed, and
        everything is as before. */
    method FreeThenAlloc(ptr: Addr) returns (again: Addr)
      requires Valid() && ptr in live && PageOf(ptr) in pages && pages[PageOf(ptr)].nfree == 0
      modifies this
      ensures Valid() && again == ptr && live == old(live) && Kept(g, live - {ptr}, old(mem), mem)
      ensures pagePartial == old(pagePartial) && pageFull == old(pageFull)
    {
      hide Grown, SamePages, Shrunk, Heap, Books, Proper, IsSlot, PageOf, NoRepeat, Times, Omit;
      HeapProper(g, pages, mem, chains, live);
      ghost var p := PageOf(ptr);
      var released := Free(ptr);
      BooksCounts(g, pages, pagePartial, pageFull, Counters(nrFull, nrPartial, nrEmpty, nfree), |live|);
      again := Alloc(0);
    }

    /** The object goes to the front of the chain of its page. */
    method TakeBack(ptr: Addr)
      requires Heap(g, pages, mem, chains, live) && ptr in live
      modifies this`nfree, this`mem, this`pages, this`chains, this`live
      ensures g.objs >= 2 && PageOf(ptr) > 0 && PageOf(ptr) in old(pages) && old(pages)[PageOf(ptr)].nfree < g.objs
      ensures pages == old(pages)[PageOf(ptr) := PageInfo(old(pages)[PageOf(ptr)].nfree + 1, ptr)]
      ensures Heap(g, pages, mem, chains, live) && nfree == old(nfree) + 1
      ensures live == old(live) - {ptr} && |live| == |old(live)| - 1 && Kept(g, live, old(mem), mem)
    {
      hide Heap, Proper, IsSlot, PageOf, Kept;
      var p := PageOf(ptr);
      HeapProper(g, pages, mem, chains, live);
      HeapGive(g, pages, mem, chains, live, ptr);
      HeapPage(g, pages, mem, chains, live, p);
      KeptOthers(g, pages, mem, chains, live, ptr, pages[p].pobj);
      nfree := nfree + 1;
      mem := mem[ptr := pages[p].pobj];
      pages := pages[p := PageInfo(pages[p].nfree + 1, ptr)];
      chains, live := chains[p := [ptr] + chains[p]], live - {ptr};
    }

    /** The page was without free slots and is partial now, or it stays on the partial list. */
    method FileReturned(p: Addr, k: nat)
      requires k == 1 ==> nrEmpty > 0
      modifies this`pagePartial, this`nrPartial, this`nrEmpty
      ensures pagePartial == (if k == 1 then [p] + old(pagePartial) else old(pagePartial))
      ensures nrPartial == (if k == 1 then old(nrPartial) + 1 else old(nrPartial))
      ensures nrEmpty == (if k == 1 then old(nrEmpty) - 1 else old(nrEmpty))
    {
      if k == 1 {
        nrEmpty := nrEmpty - 1;
        nrPartial := nrPartial + 1;
        pagePartial := [p] + pagePartial;
      }
    }

    method KeepPage(p: Addr)
      requires nrPartial > 0 && pageFull == []
      modifies this`pagePartial, this`pageFull, this`nrPartial, this`nrFull
      ensures pagePartial == Omit(old(pagePartial), p) && pageFull == [p]
      ensures nrPartial == old(nrPartial) - 1 && nrFull == old(nrFull) + 1
    {
      pagePartial := Omit(pagePartial, p);
      nrPartial := nrPartial - 1;
      nrFull := nrFull + 1;
      pageFull := [p] + pageFull;
    }

    method DropPage(p: Addr)
      requires nrPartial > 0 && nfree >= g.objs
      modifies this`pagePartial, this`nrPartial, this`nfree, this`pages, this`chains
      ensures pagePartial == Omit(old(pagePartial), p) && nrPartial == old(nrPartial) - 1
        && nfree == old(nfree) - g.objs
      ensures pages == old(pages) - {p} && chains == old(chains) - {p}
    {
      pagePartial := Omit(pagePartial, p);
      nrPartial := nrPartial - 1;
      nfree := nfree - g.objs;
      pages, chains := pages - {p}, chains - {p};
    }

    /** A caller writes whatever words it likes to an object it has; a word is eight bytes. */
    method Store(ptr: Addr, words: map<Addr, Addr>)
      requires Valid() && ptr in live && forall a :: a in words ==> ptr <= a && a + 8 <= ptr + g.size
      modifies this`mem
      ensures Valid() && mem == old(mem) + words
    {
      HeapStore(g, pages, mem, chains, live, ptr, words);
      mem := mem + words;
    }
  }

  /** The slot that is handed out: the first one of the first partial page, else of a free page,
      else of the fresh page. */
  function Choice(pages: map<Addr, PageInfo>, partial: seq<Addr>, full: seq<Addr>, page: Addr): Addr
  {
    var p := if partial != [] then partial[0] else if full != [] then full[0] else page;
    if p in pages then pages[p].pobj else p
  }

  /** A full page is kept already, or p becomes it. */
  function FirstOr(full: seq<Addr>, p: Addr): seq<Addr>
  {
    if full == [] then [p] else full
  }

  /** Writing the link into one object leaves the others. */
  lemma KeptOthers(g: Geometry, pages: map<Addr, PageInfo>, mem: map<Addr, Addr>, chains: map<Addr, seq<Addr>>,
                   live: set<Addr>, ptr: Addr, value: Addr)
    requires Heap(g, pages, mem, chains, live) && ptr in live
    ensures Kept(g, live - {ptr}, mem, mem[ptr := value])
  {
    hide Heap, PageOf;
    forall a | a in live && a != ptr
      ensures !(a <= ptr < a + g.size)
    {
      LiveApart(g, pages, mem, chains, live, a, ptr);
      HeapProper(g, pages, mem, chains, live);
    }
  }

  /** Threading a fresh page leaves the objects in other pages. */
  lemma KeptElsewhere(g: Geometry, pages: map<Addr, PageInfo>, mem: map<Addr, Addr>, chains: map<Addr, seq<Addr>>,
                      live: set<Addr>, p: Addr, mem': map<Addr, Addr>)
    requires Heap(g, pages, mem, chains, live) && p !in pages
    requires forall x :: x in mem && PageOf(x) != p ==> x in mem' && mem'[x] == mem[x]
    ensures Kept(g, live, mem, mem')
  {
    hide PageOf, IsSlot, PageOk;
    forall a, w | a in live && w in mem && a <= w < a + g.size
      ensures PageOf(w) != p
    {
      SlotInside(g, PageOf(a), a);
      PageStart(PageOf(a), w - PageOf(a));
    }
  }

  lemma Unchanged(pages: map<Addr, PageInfo>)
    ensures SamePages(pages, pages)
  {
  }

  lemma DropChanged(pages: map<Addr, PageInfo>, p: Addr, info: PageInfo)
    requires p in pages
    ensures pages[p := info] - {p} == pages - {p} && Shrunk(pages, pages - {p}, p)
  {
  }

  lemma HeapProper(g: Geometry, pages: map<Addr, PageInfo>, mem: map<Addr, Addr>, chains: map<Addr, seq<Addr>>,
                   live: set<Addr>)
    requires Heap(g, pages, mem, chains, live)
    ensures Proper(g) && g.objs >= 2
  {
  }

  lemma HeapPage(g: Geometry, pages: map<Addr, PageInfo>, mem: map<Addr, Addr>, chains: map<Addr, seq<Addr>>,
                 live: set<Addr>, p: Addr)
    requires Heap(g, pages, mem, chains, live) && p in pages
    ensures p > 0
  {
  }

  /** Words of live objects are no part of any chain. */
  lemma HeapStore(g: Geometry, pages: map<Addr, PageInfo>, mem: map<Addr, Addr>, chains: map<Addr, seq<Addr>>,
                  live: set<Addr>, ptr: Addr, words: map<Addr, Addr>)
    requires Heap(g, pages, mem, chains, live) && ptr in live
    requires forall a :: a in words ==> ptr <= a && a + 8 <= ptr + g.size
    ensures Heap(g, pages, mem + words, chains, live)
  {
    hide IsSlot, PageOf, NoRepeat, Chain, LiveIn;
    forall p | p in pages
      ensures PageOk(g, p, pages[p], chains[p], mem + words, live)
    {
      assert PageOk(g, p, pages[p], chains[p], mem, live);
      forall a | a in chains[p]
        ensures a !in words
      {
        SlotsApart(g, p, a, PageOf(ptr), ptr);
      }
      ChainFrame(mem, mem + words, pages[p].pobj, chains[p]);
    }
  }

  /** What the counters say about the lists. */
  lemma BooksCounts(g: Geometry, pages: map<Addr, PageInfo>, partial: seq<Addr>, full: seq<Addr>, n: Counters,
                    live: nat)
    requires Books(g, pages, partial, full, n, live)
    ensures n.nrPartial == |partial| && n.nrFull == |full|
    ensures partial != [] ==> partial[0] in pages && pages[partial[0]].nfree > 0
    ensures full != [] ==> full[0] in pages && pages[full[0]].nfree == g.objs
    ensures n.nfree == 0 && g.objs > 0 ==> partial == [] && full == []
    ensures partial == [] && full == [] ==> n.nfree == 0
  {
    hide Times, NoRepeat;
    if partial != [] { assert partial[0] in partial; }
    if full != [] { assert full[0] in full; }
  }

  lemma HeadSlot(g: Geometry, p: Addr, c: seq<Addr>, i: nat)
    requires Proper(g) && p % PAGE_SIZE == 0 && 0 < i < g.objs && |c| == i
      && forall k :: 0 <= k < |c| ==> c[k] == Slot(g, p, k + 1)
    ensures PageOf(c[i - 1]) == p && forall k :: 0 <= k < i - 1 ==> c[k] != c[i - 1]
  {
    hide Slot;
    assert c[i - 1] == Slot(g, p, i);
    assert IsSlot(g, p, c[i - 1]);
    SlotInside(g, p, c[i - 1]);
    forall k | 0 <= k < i - 1
      ensures c[k] != c[i - 1]
    {
      SlotOrder(g, p, k + 1, i);
    }
  }

  // ---- what holds of every object handed out ---------------------------------------------------

  /** Live objects never overlap and each lies in a page of the allocator. */
  lemma LiveApart(g: Geometry, pages: map<Addr, PageInfo>, mem: map<Addr, Addr>, chains: map<Addr, seq<Addr>>,
                  live: set<Addr>, a: Addr, b: Addr)
    requires Heap(g, pages, mem, chains, live) && a in live && b in live && a != b
    ensures a + g.size <= b || b + g.size <= a
    ensures PageOf(a) in pages && PageOf(a) <= a && a + g.size <= PageOf(a) + PAGE_SIZE
  {
    hide IsSlot, PageOf, PageOk;
    SlotInside(g, PageOf(a), a);
    SlotsApart(g, PageOf(a), a, PageOf(b), b);
  }

  /** Live objects are aligned as the allocator was asked for. */
  lemma LiveAligned(g: Geometry, pages: map<Addr, PageInfo>, mem: map<Addr, Addr>, chains: map<Addr, seq<Addr>>,
                    live: set<Addr>, a: Addr, align: nat)
    requires Heap(g, pages, mem, chains, live) && a in live && align > 0 && PAGE_SIZE % align == 0
      && g.size % align == 0
    ensures a % align == 0
  {
    hide IsSlot, PageOf, PageOk;
    SlotAligned(g, PageOf(a), a, align);
  }

  // ---- creating an allocator -------------------------------------------------------------------

  /** a & (a - 1) is zero only for powers of two. */
  lemma {:induction false} PowerOfTwo(a: nat)
    requires a > 0 && Words.And(a, a - 1) == 0
    ensures exists k: nat :: a == Words.Pow2(k)
  {
    if a % 2 == 1 {
      AndSelf(a / 2);
      assert a == Words.Pow2(0);
    } else {
      PowerOfTwo(a / 2);
      var k: nat :| a / 2 == Words.Pow2(k);
      assert a == Words.Pow2(k + 1);
    }
  }

  lemma {:induction false} AndSelf(a: nat)
    ensures Words.And(a, a) == a
  {
    if a > 0 { AndSelf(a / 2); }
  }

  /** The alignments slab_create rounds to divide a page. */
  lemma PowerDivides(al: Words.Word, k: nat)
    requires al == Words.Pow2(k) && 8 <= al <= PAGE_SIZE / 2
    ensures k < 64 && PAGE_SIZE % al == 0 && (PAGE_SIZE / 2) % al == 0
  {
    hide Words.Pow2;
    PowersApart(k);
  }

  lemma PowersApart(k: nat)
    ensures var p := Words.Pow2(k); p < 8 || p in {8, 16, 32, 64, 128, 256, 512, 1024, 2048} || p > 2048
    ensures Words.Pow2(k) <= 2048 ==> k < 64
  {
    if k >= 12 {
      PowGrows(12, k);
      assert Words.Pow2(8) == 256;
      assert Words.Pow2(12) == 4096;
    } else {
      SmallPower(k);
    }
  }

  lemma SmallPower(k: nat)
    requires k < 12
    ensures Words.Pow2(k) in {1, 2, 4, 8, 16, 32, 64, 128, 256, 512, 1024, 2048}
  {
    assert Words.Pow2(2) == 4;
    assert Words.Pow2(4) == 16;
    assert Words.Pow2(6) == 64;
    assert Words.Pow2(8) == 256;
    assert Words.Pow2(10) == 1024;
  }

  lemma {:induction false} PowGrows(i: nat, j: nat)
    requires i <= j
    ensures Words.Pow2(i) <= Words.Pow2(j)
    decreases j
  {
    if i < j { PowGrows(i, j - 1); }
  }

  /** The object size rounded up to the alignment still fits a page twice. */
  lemma Rounded(size: Words.Word, al: Words.Word, k: nat)
    requires 0 < size <= PAGE_SIZE / 2 && al == Words.Pow2(k) && 8 <= al <= PAGE_SIZE / 2
    ensures var r := Words.AlignUp(size, al);
      size <= r < size + al && r <= PAGE_SIZE / 2 && r % al == 0
  {
    hide Words.Pow2, Words.AlignUp, Words.And;
    PowerDivides(al, k);
    Words.AlignUpLeast(size, al, PAGE_SIZE / 2);
    Words.AlignUpValue(size, al);
    Words.AlignUpAligned(size, al);
  }

  lemma {:induction false} PowerAnd(k: nat)
    ensures Words.And(Words.Pow2(k), Words.Pow2(k) - 1) == 0
  {
    hide Words.And;
    if k > 0 {
      PowerAnd(k - 1);
      OddBelow(Words.Pow2(k - 1));
    } else {
      AndNothing(1);
    }
  }

  lemma AndNothing(x: nat)
    ensures Words.And(x, 0) == 0
  {
  }

  lemma OddBelow(h: nat)
    requires h > 0
    ensures Words.And(2 * h, 2 * h - 1) == 2 * Words.And(h, h - 1)
  {
    assert (2 * h) / 2 == h && (2 * h - 1) / 2 == h - 1 && (2 * h) % 2 == 0;
  }

  ghost predicate ZeroOrPower(a: nat)
  {
    a == 0 || exists k: nat :: a == Words.Pow2(k)
  }

  lemma PowerIff(a: nat)
    requires a > 0
    ensures Words.And(a, a - 1) == 0 <==> ZeroOrPower(a)
  {
    hide Words.And;
    if Words.And(a, a - 1) == 0 { PowerOfTwo(a); }
    if k: nat :| a == Words.Pow2(k) { PowerAnd(k); }
  }

  lemma AndZero(y: nat)
    ensures Words.And(0, y) == 0
  {
  }

  /** The test slab_create makes. */
  lemma PowerTest(align: Words.Word)
    ensures Words.And(align, Words.Wrap(align - 1)) == 0 <==> ZeroOrPower(align)
  {
    hide Words.And;
    if align > 0 {
      assert Words.Wrap(align - 1) == align - 1;
      PowerIff(align);
    } else {
      AndZero(Words.Wrap(-1));
    }
  }

  /** slab_create: the geometry of the new allocator and the alignment of its objects. */
  method Create(size: Words.Word, align: Words.Word) returns (ok: bool, g: Geometry, al: nat)
    ensures ok <==> ZeroOrPower(align) && 0 < size <= PAGE_SIZE / 2 && align <= PAGE_SIZE / 2
    ensures ok ==>
      Proper(g) && al == (if align < 8 then 8 else align) && size <= g.size && g.size % al == 0 && PAGE_SIZE % al == 0
    ensures ok ==> forall m: nat :: size <= m && m % al == 0 ==> g.size <= m
    ensures ok ==> PAGE_SIZE < g.objs * g.size + g.size
  {
    hide Words.And, Words.AlignUp, Words.Pow2, Words.Wrap;
    g, al := Geometry(0, 0), 0;
    PowerTest(align);
    if Words.And(align, Words.Wrap(align - 1)) != 0 {
      return false, g, al;
    }
    if size > PAGE_SIZE / 2 || align > PAGE_SIZE / 2 {
      return false, g, al;
    }
    if size == 0 {
      return false, g, al;
    }
    al := if 8 > align then 8 else align;
    ghost var k := AtLeastEight(align);
    Rounded(size, al, k);
    LeastMultiple(size, al);
    PowerDivides(al, k);
    var realSize := Words.AlignUp(size, al);
    g := Geometry(realSize, PAGE_SIZE / realSize);
    Packed(realSize);
    ok := true;
  }

  /** Rounding up gives the least multiple. */
  lemma LeastMultiple(size: Words.Word, al: Words.Word)
    requires 0 < al && size <= Words.AlignUp(size, al) < size + al && Words.AlignUp(size, al) % al == 0
    ensures forall m: nat :: size <= m && m % al == 0 ==> Words.AlignUp(size, al) <= m
  {
    hide Words.AlignUp;
    var r := Words.AlignUp(size, al);
    forall m: nat | size <= m && m % al == 0
      ensures r <= m
    {
      var x, y := r / al, m / al;
      assert r == al * x && m == al * y;
      if y < x {
        Words.MulMono(al, y + 1, x);
      } else {
        Words.MulMono(al, x, y);
      }
    }
  }

  lemma AtLeastEight(align: nat) returns (k: nat)
    requires ZeroOrPower(align)
    ensures (if 8 > align then 8 else align) == Words.Pow2(k)
  {
    if align < 8 {
      assert Words.Pow2(3) == 8;
      k := 3;
    } else {
      k :| align == Words.Pow2(k);
    }
  }

  lemma Packed(size: nat)
    requires 0 < size <= PAGE_SIZE / 2
    ensures var n := PAGE_SIZE / size; n >= 2 && n * size <= PAGE_SIZE < n * size + size
  {
    var n, r := PAGE_SIZE / size, PAGE_SIZE % size;
    assert PAGE_SIZE == size * n + r;
  }
}
