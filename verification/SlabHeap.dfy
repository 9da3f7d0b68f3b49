/**
  The memory behind a slab allocator (mm/slab.cc): pages cut into slots, and in every page a
  chain through its free slots that is kept in the slots themselves.
 */
module SlabHeap {
  import opened Basics
  import Words

  /** Addresses; 0 is the null pointer. */
  type Addr = nat

  /** real_obj_size and objs_per_page. */
  datatype Geometry = Geometry(size: nat, objs: nat)

  /** A slot holds a pointer, and a page two slots. */
  ghost predicate Proper(g: Geometry)
  {
    8 <= g.size && 2 <= g.objs && g.objs * g.size <= PAGE_SIZE
  }

  datatype PageInfo = PageInfo(nfree: nat, pobj: Addr)

  /** virt_to_page. */
  function PageOf(a: Addr): Addr
  {
    a - a % PAGE_SIZE
  }

  function Slot(g: Geometry, p: Addr, i: nat): Addr
  {
    p + i * g.size
  }

  ghost predicate IsSlot(g: Geometry, p: Addr, a: Addr)
  {
    exists i: nat :: i < g.objs && a == Slot(g, p, i)
  }

  // ---- slots -----------------------------------------------------------------------------------

  lemma Steps(i: nat, j: nat, size: nat)
    requires i < j
    ensures 0 <= i * size && i * size + size <= j * size
  {
    Words.MulMono(size, i + 1, j);
    Words.MulMono(size, 0, i);
    assert size * (i + 1) == i * size + size;
  }

  lemma SlotInside(g: Geometry, p: Addr, a: Addr)
    requires Proper(g) && p % PAGE_SIZE == 0 && IsSlot(g, p, a)
    ensures p <= a && a + g.size <= p + PAGE_SIZE && PageOf(a) == p
  {
    hide PageOf;
    var i: nat :| i < g.objs && a == Slot(g, p, i);
    Steps(i, g.objs, g.size);
    PageStart(p, i * g.size);
  }

  lemma PageStart(p: Addr, k: nat)
    requires p % PAGE_SIZE == 0 && k < PAGE_SIZE
    ensures PageOf(p + k) == p
  {
  }

  /** Two slots never overlap. */
  lemma SlotsApart(g: Geometry, p: Addr, a: Addr, q: Addr, b: Addr)
    requires Proper(g) && p % PAGE_SIZE == 0 && q % PAGE_SIZE == 0 && IsSlot(g, p, a) && IsSlot(g, q, b) && a != b
    ensures a + g.size <= b || b + g.size <= a
  {
    SlotInside(g, p, a);
    SlotInside(g, q, b);
    if p == q {
      var i: nat :| i < g.objs && a == Slot(g, p, i);
      var j: nat :| j < g.objs && b == Slot(g, p, j);
      SlotOrder(g, p, i, j);
    } else {
      PagesApart(p, q);
    }
  }

  lemma SlotOrder(g: Geometry, p: Addr, i: nat, j: nat)
    ensures i < j ==> Slot(g, p, i) + g.size <= Slot(g, p, j)
    ensures j < i ==> Slot(g, p, j) + g.size <= Slot(g, p, i)
  {
    if i < j { Steps(i, j, g.size); }
    if j < i { Steps(j, i, g.size); }
  }

  lemma PagesApart(p: Addr, q: Addr)
    requires p % PAGE_SIZE == 0 && q % PAGE_SIZE == 0 && p != q
    ensures p + PAGE_SIZE <= q || q + PAGE_SIZE <= p
  {
  }

  /** A slot is aligned if the page and the object size are. */
  lemma SlotAligned(g: Geometry, p: Addr, a: Addr, align: nat)
    requires align > 0 && PAGE_SIZE % align == 0 && g.size % align == 0 && p % PAGE_SIZE == 0 && IsSlot(g, p, a)
    ensures a % align == 0
  {
    var i: nat :| i < g.objs && a == Slot(g, p, i);
    Multiple(PAGE_SIZE, p / PAGE_SIZE, align);
    Multiple(g.size, i, align);
    assert p == p / PAGE_SIZE * PAGE_SIZE;
    SumMultiple(p, i * g.size, align);
  }

  lemma {:induction false} Multiple(x: nat, n: nat, align: nat)
    requires align > 0 && x % align == 0
    ensures (n * x) % align == 0
  {
    if n > 0 {
      Multiple(x, n - 1, align);
      assert n * x == (n - 1) * x + x;
      SumMultiple((n - 1) * x, x, align);
    }
  }

  lemma SumMultiple(a: nat, b: nat, align: nat)
    requires align > 0 && a % align == 0 && b % align == 0
    ensures (a + b) % align == 0
  {
    var x, y := a / align, b / align;
    assert a == x * align && b == y * align;
    assert a + b == (x + y) * align;
    Words.ModUnique(a + b, align, x + y, 0);
  }

  // ---- free chains -----------------------------------------------------------------------------

  /** From `head`, the words in memory lead through the addresses of c to null. */
  ghost predicate Chain(mem: map<Addr, Addr>, head: Addr, c: seq<Addr>)
    decreases |c|
  {
    if c == [] then head == 0 else head == c[0] && head in mem && Chain(mem, mem[head], c[1..])
  }

  lemma {:induction false} ChainFrame(mem: map<Addr, Addr>, mem': map<Addr, Addr>, head: Addr, c: seq<Addr>)
    requires Chain(mem, head, c) && forall a :: a in c && a in mem ==> a in mem' && mem'[a] == mem[a]
    ensures Chain(mem', head, c)
    decreases |c|
  {
    if c != [] {
      ChainFrame(mem, mem', mem[head], c[1..]);
    }
  }

  ghost function LiveIn(live: set<Addr>, p: Addr): set<Addr>
  {
    set a | a in live && PageOf(a) == p
  }

  /** The chain of a page runs through its slots that are not live, once each, and the
      counter is its length. */
  ghost predicate PageOk(g: Geometry, p: Addr, info: PageInfo, c: seq<Addr>, mem: map<Addr, Addr>, live: set<Addr>)
  {
    && Chain(mem, info.pobj, c) && NoRepeat(c) && |c| == info.nfree
    && (forall a :: a in c ==> IsSlot(g, p, a) && a !in live)
    && (forall a :: IsSlot(g, p, a) && a !in live ==> a in c)
    && info.nfree + |LiveIn(live, p)| == g.objs
  }

  /** All pages are in order, and live objects are slots of them. */
  ghost predicate Heap(g: Geometry, pages: map<Addr, PageInfo>, mem: map<Addr, Addr>, chains: map<Addr, seq<Addr>>,
                       live: set<Addr>)
  {
    && Proper(g) && pages.Keys == chains.Keys
    && (forall p :: p in pages ==> p > 0 && p % PAGE_SIZE == 0 && PageOk(g, p, pages[p], chains[p], mem, live))
    && (forall a :: a in live ==> PageOf(a) in pages && IsSlot(g, PageOf(a), a))
  }

  lemma LiveInAdd(live: set<Addr>, a: Addr, p: Addr)
    requires a !in live
    ensures |LiveIn(live + {a}, p)| == |LiveIn(live, p)| + (if PageOf(a) == p then 1 else 0)
  {
    var was, now := LiveIn(live, p), LiveIn(live + {a}, p);
    assert now == if PageOf(a) == p then was + {a} else was;
  }

  lemma LiveInSub(live: set<Addr>, a: Addr, p: Addr)
    requires a in live
    ensures |LiveIn(live - {a}, p)| == |LiveIn(live, p)| - (if PageOf(a) == p then 1 else 0)
  {
    LiveInAdd(live - {a}, a, p);
    assert live - {a} + {a} == live;
  }

  /** Other pages do not notice what happens to a slot of this one. */
  lemma OtherPage(g: Geometry, p: Addr, info: PageInfo, c: seq<Addr>, mem: map<Addr, Addr>, live: set<Addr>,
                  a: Addr, mem': map<Addr, Addr>, live': set<Addr>)
    requires Proper(g) && p % PAGE_SIZE == 0 && PageOf(a) != p && PageOk(g, p, info, c, mem, live)
    requires live' == live + {a} || live' == live - {a}
    requires forall x :: x in mem && PageOf(x) == p ==> x in mem' && mem'[x] == mem[x]
    ensures PageOk(g, p, info, c, mem', live')
  {
    hide Chain, NoRepeat, IsSlot, PageOf;
    forall x | x in c
      ensures PageOf(x) == p
    {
      SlotInside(g, p, x);
    }
    ChainFrame(mem, mem', info.pobj, c);
    assert LiveIn(live', p) == LiveIn(live, p);
    forall x | IsSlot(g, p, x)
      ensures x != a
    {
      SlotInside(g, p, x);
    }
  }

  /** The first free slot of page p becomes live. */
  lemma TakeSlot(g: Geometry, p: Addr, info: PageInfo, c: seq<Addr>, mem: map<Addr, Addr>, live: set<Addr>)
    requires Proper(g) && p > 0 && p % PAGE_SIZE == 0 && PageOk(g, p, info, c, mem, live) && info.nfree > 0
    ensures var a := info.pobj;
      && a > 0 && a in mem && a !in live && IsSlot(g, p, a) && PageOf(a) == p && c != []
      && PageOk(g, p, PageInfo(info.nfree - 1, mem[a]), c[1..], mem, live + {a})
  {
    hide IsSlot, PageOf, LiveIn;
    var a := info.pobj;
    assert a == c[0] && a in c;
    SlotInside(g, p, a);
    LiveInAdd(live, a, p);
    forall x | IsSlot(g, p, x) && x !in live + {a}
      ensures x in c[1..]
    {
      assert c == [c[0]] + c[1..];
    }
    assert forall i :: 0 <= i < |c[1..]| ==> c[1..][i] == c[i + 1] != c[0];
  }

  /** A live slot of page p becomes the first free one. */
  lemma GiveSlot(g: Geometry, p: Addr, info: PageInfo, c: seq<Addr>, mem: map<Addr, Addr>, live: set<Addr>, a: Addr)
    requires Proper(g) && p > 0 && p % PAGE_SIZE == 0 && PageOk(g, p, info, c, mem, live) && a in live
      && IsSlot(g, p, a)
    ensures info.nfree < g.objs && PageOk(g, p, PageInfo(info.nfree + 1, a), [a] + c, mem[a := info.pobj], live - {a})
  {
    hide IsSlot, PageOf, LiveIn;
    SlotInside(g, p, a);
    LiveInSub(live, a, p);
    ChainFrame(mem, mem[a := info.pobj], info.pobj, c);
    assert ([a] + c)[1..] == c;
  }

  // ---- the whole heap --------------------------------------------------------------------------

  lemma HeapTake(g: Geometry, pages: map<Addr, PageInfo>, mem: map<Addr, Addr>, chains: map<Addr, seq<Addr>>,
                 live: set<Addr>, p: Addr)
    requires Heap(g, pages, mem, chains, live) && p in pages && pages[p].nfree > 0
    ensures var a := pages[p].pobj;
      && a > 0 && a in mem && a !in live && IsSlot(g, p, a) && PageOf(a) == p && p in chains && chains[p] != []
      && Heap(g, pages[p := PageInfo(pages[p].nfree - 1, mem[a])], mem, chains[p := chains[p][1..]], live + {a})
  {
    hide PageOk, IsSlot, PageOf;
    assert PageOk(g, p, pages[p], chains[p], mem, live);
    TakeSlot(g, p, pages[p], chains[p], mem, live);
    var a := pages[p].pobj;
    forall q | q in pages && q != p
      ensures PageOk(g, q, pages[q], chains[q], mem, live + {a})
    {
      OtherPage(g, q, pages[q], chains[q], mem, live, a, mem, live + {a});
    }
  }

  lemma HeapGive(g: Geometry, pages: map<Addr, PageInfo>, mem: map<Addr, Addr>, chains: map<Addr, seq<Addr>>,
                 live: set<Addr>, a: Addr)
    requires Heap(g, pages, mem, chains, live) && a in live
    ensures var p := PageOf(a);
      && p in pages && p in chains && pages[p].nfree < g.objs
      && Heap(g, pages[p := PageInfo(pages[p].nfree + 1, a)], mem[a := pages[p].pobj], chains[p := [a] + chains[p]],
        live - {a})
  {
    hide PageOk, IsSlot, PageOf;
    var p := PageOf(a);
    GiveSlot(g, p, pages[p], chains[p], mem, live, a);
    var mem' := mem[a := pages[p].pobj];
    forall q | q in pages && q != p
      ensures PageOk(g, q, pages[q], chains[q], mem', live - {a})
    {
      OtherPage(g, q, pages[q], chains[q], mem, live, a, mem', live - {a});
    }
  }

  /** A page all of whose slots are free holds no live object. */
  lemma HeapDrop(g: Geometry, pages: map<Addr, PageInfo>, mem: map<Addr, Addr>, chains: map<Addr, seq<Addr>>,
                 live: set<Addr>, p: Addr)
    requires Heap(g, pages, mem, chains, live) && p in pages && pages[p].nfree == g.objs
    ensures Heap(g, pages - {p}, mem, chains - {p}, live) && forall a :: a in live ==> PageOf(a) != p
  {
    hide IsSlot, PageOf, Chain, NoRepeat;
    assert PageOk(g, p, pages[p], chains[p], mem, live);
    assert LiveIn(live, p) == {};
    forall a | a in live
      ensures PageOf(a) != p
    {
      assert PageOf(a) == p ==> a in LiveIn(live, p);
    }
  }

  /** The slots of page p from the second on. */
  ghost predicate RestOfPage(g: Geometry, p: Addr, c: seq<Addr>)
  {
    |c| + 1 == g.objs && forall i :: 0 <= i < |c| ==> c[i] == Slot(g, p, i + 1)
  }

  lemma RestExact(g: Geometry, p: Addr, c: seq<Addr>)
    requires Proper(g) && RestOfPage(g, p, c)
    ensures NoRepeat(c) && IsSlot(g, p, p) && p !in c
    ensures forall a :: a in c ==> IsSlot(g, p, a)
    ensures forall a :: IsSlot(g, p, a) && a != p ==> a in c
  {
    hide Slot;
    FirstSlot(g, p);
    forall i, j | 0 <= i < j < |c|
      ensures c[i] != c[j]
    {
      SlotOrder(g, p, i + 1, j + 1);
    }
    forall i | 0 <= i < |c|
      ensures c[i] != p && IsSlot(g, p, c[i])
    {
      SlotOrder(g, p, 0, i + 1);
    }
    forall a | IsSlot(g, p, a) && a != p
      ensures a in c
    {
      var i: nat :| i < g.objs && a == Slot(g, p, i);
      if i > 0 { assert c[i - 1] == a; }
    }
  }

  lemma FirstSlot(g: Geometry, p: Addr)
    requires Proper(g)
    ensures Slot(g, p, 0) == p && IsSlot(g, p, p)
  {
    assert Slot(g, p, 0) == p;
  }

  lemma HeapNew(g: Geometry, pages: map<Addr, PageInfo>, mem: map<Addr, Addr>, chains: map<Addr, seq<Addr>>,
                live: set<Addr>, p: Addr, pobj: Addr, mem': map<Addr, Addr>, c: seq<Addr>)
    requires Heap(g, pages, mem, chains, live) && p !in pages && p > 0 && p % PAGE_SIZE == 0
    requires RestOfPage(g, p, c) && Chain(mem', pobj, c) && forall x :: x in mem && PageOf(x) != p ==>
      x in mem' && mem'[x] == mem[x]
    ensures p !in live && PageOf(p) == p && IsSlot(g, p, p)
    ensures Heap(g, pages[p := PageInfo(g.objs - 1, pobj)], mem', chains[p := c], live + {p})
  {
    hide PageOk, IsSlot, PageOf, RestOfPage, Chain;
    PageStart(p, 0);
    FirstSlot(g, p);
    NewPageOk(g, p, pobj, mem', c, live);
    forall q | q in pages
      ensures PageOk(g, q, pages[q], chains[q], mem', live + {p})
    {
      OtherPage(g, q, pages[q], chains[q], mem, live, p, mem', live + {p});
    }
  }

  lemma NewPageOk(g: Geometry, p: Addr, pobj: Addr, mem: map<Addr, Addr>, c: seq<Addr>, live: set<Addr>)
    requires Proper(g) && p % PAGE_SIZE == 0 && RestOfPage(g, p, c) && Chain(mem, pobj, c)
    requires forall a :: a in live ==> PageOf(a) != p
    ensures PageOk(g, p, PageInfo(g.objs - 1, pobj), c, mem, live + {p})
  {
    hide IsSlot, PageOf, Chain, NoRepeat;
    RestExact(g, p, c);
    PageStart(p, 0);
    assert LiveIn(live + {p}, p) == {p};
    forall a | a in c
      ensures a !in live
    {
      SlotInside(g, p, a);
    }
  }

  /** Words that lead from each slot to the next, and from the last to null, make a chain. */
  lemma {:induction false} LinkedChain(mem: map<Addr, Addr>, c: seq<Addr>)
    requires c != [] && (forall k :: 0 <= k < |c| ==> c[k] in mem) && mem[c[|c| - 1]] == 0
    requires forall k :: 0 <= k < |c| - 1 ==> mem[c[k]] == c[k + 1]
    ensures Chain(mem, c[0], c)
    decreases |c|
  {
    if |c| > 1 {
      var d := c[1..];
      assert forall k :: 0 <= k < |d| ==> d[k] == c[k + 1];
      LinkedChain(mem, d);
    } else {
      assert c[1..] == [];
    }
  }
}
