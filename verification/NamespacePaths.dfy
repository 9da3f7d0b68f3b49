/**
  Relative paths (acpi/uacpi/source/namespace.c): what uacpi_namespace_node_resolve answers for a
  path from a node downwards, for carets, for short names and with the search above the parent.
 */
module NamespacePaths {
  import opened Basics
  import opened Namespace

  /** The k-th node on the way from n to the root; n itself for 0. */
  ghost function Ancestor(t: Tree, n: Node, k: nat): (a: Node)
    requires t.Valid() && n in t.nodes && k <= t.depth[n]
    reads t, t.nodes
    ensures a in t.nodes && t.depth[a] == t.depth[n] - k
  {
    if k == 0 then n
    else
      t.RootOnly(n);
      t.ParentIn(n);
      ParentDepth(t, n);
      Ancestor(t, n.parent, k - 1)
  }

  lemma ParentDepth(t: Tree, n: Node)
    requires t.Valid() && n in t.nodes && n != t.root
    ensures n.parent != null && n.parent in t.nodes && t.depth[n] == t.depth[n.parent] + 1
  {
    assert t.NodeOk(n) && t.NodeOk(n.parent);
  }

  /** n is below p. */
  ghost predicate Below(t: Tree, p: Node, n: Node)
    requires t.Valid() && p in t.nodes && n in t.nodes
    reads t, t.nodes
  {
    exists k: nat :: 0 < k <= t.depth[n] && Ancestor(t, n, k) == p
  }

  /** c is a child of p with that name. */
  ghost predicate Child(t: Tree, p: Node, name: string, c: Node)
    reads t, c
  {
    c in t.nodes && c != t.root && c.parent == p && c.name == name
  }

  ghost predicate NoChild(t: Tree, p: Node, name: string)
    reads t, t.nodes
  {
    forall c :: c in t.nodes ==> !Child(t, p, name, c)
  }

  lemma ChildSub(t: Tree, p: Node, name: string, c: Node)
    requires t.Valid() && t.UniqueNames() && p in t.nodes && Child(t, p, name, c)
    ensures t.Sub(p, name) == c
  {
    hide Tree.Valid, Tree.UniqueNames, Tree.Sub;
    t.SubIs(p, c);
  }

  lemma NoChildSub(t: Tree, p: Node, name: string)
    requires t.Valid() && p in t.nodes && NoChild(t, p, name)
    ensures t.Sub(p, name) == null
  {
    hide Tree.Valid, Tree.Sub, Child;
    if t.Sub(p, name) != null { SubChild(t, p, name); }
  }

  lemma SubChild(t: Tree, p: Node, name: string)
    requires t.Valid() && p in t.nodes && t.Sub(p, name) != null
    ensures Child(t, p, name, t.Sub(p, name))
  {
  }

  // ---- paths downwards ---------------------------------------------------------------------------

  /** The names from below p, k levels up from n, down to n. */
  ghost function Rel(t: Tree, n: Node, k: nat): (r: string)
    requires t.Valid() && n in t.nodes && 0 < k <= t.depth[n]
    reads t, t.nodes
    ensures |r| >= NAME_SIZE
    decreases k
  {
    t.RootOnly(n);
    t.PathStep(n);
    ParentDepth(t, n);
    if k == 1 then n.name else Rel(t, n.parent, k - 1) + "." + n.name
  }

  /** It is what the printed path of n has after that of p. */
  lemma {:induction false} RelIsTail(t: Tree, n: Node, k: nat)
    requires t.Valid() && n in t.nodes && 0 < k <= t.depth[n]
    ensures var p := Ancestor(t, n, k);
      t.PathOf(n) == t.PathOf(p) + (if p == t.root then "" else ".") + Rel(t, n, k)
    decreases k
  {
    hide Tree.NodeOk, Tree.PathOf;
    t.RootOnly(n);
    t.PathStep(n);
    ParentDepth(t, n);
    if k > 1 {
      t.RootOnly(n.parent);
      RelIsTail(t, n.parent, k - 1);
      var p := Ancestor(t, n, k);
      var a, b := t.PathOf(p) + (if p == t.root then "" else "."), Rel(t, n.parent, k - 1);
      assert a + b + "." + n.name == a + (b + "." + n.name);
    } else {
      assert Ancestor(t, n, 1) == Ancestor(t, n.parent, 0);
    }
  }

  /** The walk along the names from p downwards comes to n. */
  lemma {:induction false} WalkDown(t: Tree, n: Node, k: nat, path: string, i: nat)
    requires t.Valid() && t.UniqueNames() && t.PlainNames() && n in t.nodes && 0 < k <= t.depth[n]
    requires i + |Rel(t, n, k)| <= |path| && path[i..i + |Rel(t, n, k)|] == Rel(t, n, k)
    ensures t.Walk(Ancestor(t, n, k), path, i) == t.Walk(n, path, i + |Rel(t, n, k)|)
    decreases k
  {
    hide Tree.NodeOk, Tree.Walk, Tree.Sub, Seg, SegEnd;
    t.RootOnly(n);
    t.PathStep(n);
    ParentDepth(t, n);
    var par := n.parent;
    var r := Rel(t, n, k);
    if k == 1 {
      assert Ancestor(t, n, 1) == Ancestor(t, par, 0);
      OneName(t, par, n, path, i, i);
    } else {
      var r1 := Rel(t, par, k - 1);
      var m := i + |r1|;
      Parts(path, i, r1, n.name);
      hide Rel;
      WalkDown(t, par, k - 1, path, i);
      OneName(t, par, n, path, m, m + 1);
    }
  }

  lemma Parts(path: string, i: nat, a: string, name: string)
    requires i + |a| + 1 + |name| <= |path| && path[i..i + |a| + 1 + |name|] == a + "." + name
    ensures var m := i + |a|;
      path[i..m] == a && path[m] == '.' && path[m + 1..m + 1 + |name|] == name
  {
    var r, m := a + "." + name, i + |a|;
    assert path[i..m] == r[..|a|] && path[m] == r[|a|] && path[m + 1..m + 1 + |name|] == r[|a| + 1..];
  }

  /** One name of a child, with or without a dot in front. */
  lemma OneName(t: Tree, par: Node, n: Node, path: string, i: nat, j: nat)
    requires t.Valid() && t.UniqueNames() && t.PlainNames() && n in t.nodes && n != t.root && n.parent == par
    requires par in t.nodes && |n.name| == NAME_SIZE && j + NAME_SIZE <= |path| && path[j..j + NAME_SIZE] == n.name
    requires if j == i then true else j == i + 1 && path[i] == '.'
    ensures t.Walk(par, path, i) == t.Walk(n, path, j + NAME_SIZE)
  {
    hide Tree.NodeOk, Tree.Walk, Tree.Sub, Seg, SegEnd;
    assert path[j] == n.name[0] && n.name[0] in n.name;
    t.WalkStep(par, path, i);
    SegPlain(path, j, n.name);
    t.SubIs(par, n);
  }

  /** The path does not begin with a root or parent mark. */
  predicate Plain(path: string)
  {
    path != "" && path[0] != '\\' && path[0] != '^'
  }

  /** The part of a node's path that comes after the path of a node above it leads from there to
      the node. */
  lemma RelativePath(t: Tree, p: Node, n: Node, above: bool, permanent: bool) returns (rel: string)
    requires t.Valid() && t.UniqueNames() && t.PlainNames() && p in t.nodes && n in t.nodes && Below(t, p, n)
    ensures t.PathOf(n) == t.PathOf(p) + (if p == t.root then "" else ".") + rel
    ensures Plain(rel) ==> t.Resolved(p, rel, above, permanent) == t.Final(n, permanent)
  {
    hide Tree.NodeOk, Tree.Walk, Tree.Resolved, Tree.PathOf, Rel, Seg, SegEnd;
    var k: nat :| 0 < k <= t.depth[n] && Ancestor(t, n, k) == p;
    rel := Rel(t, n, k);
    RelIsTail(t, n, k);
    assert rel[0..|rel|] == rel;
    WalkDown(t, n, k, rel, 0);
    t.WalkStep(n, rel, |rel|);
    t.ResolvedIs(p, rel, above, permanent);
    if Plain(rel) { LeadHere(t, p, rel, 0, false); }
  }

  lemma LeadHere(t: Tree, cur: Node, path: string, i: nat, caret: bool)
    requires t.Valid() && cur in t.nodes && i <= |path| && (i < |path| ==> path[i] != '\\' && path[i] != '^')
    ensures t.Lead(cur, path, i, caret) == Some((cur, i))
  {
  }

  // ---- carets ------------------------------------------------------------------------------------

  function Carets(k: nat): (s: string)
    ensures |s| == k && forall i :: 0 <= i < k ==> s[i] == '^'
  {
    seq(k, _ => '^')
  }

  /** Each caret leads one node up; past the root the path is invalid. */
  lemma {:induction false} LeadUp(t: Tree, cur: Node, path: string, i: nat, k: nat, caret: bool)
    requires t.Valid() && cur in t.nodes && i + k <= |path| && forall j :: i <= j < i + k ==> path[j] == '^'
    ensures k <= t.depth[cur] && k > 0 ==>
      t.Lead(cur, path, i, caret) == t.Lead(Ancestor(t, cur, k), path, i + k, true)
    ensures k > t.depth[cur] ==> t.Lead(cur, path, i, caret) == None
    decreases k
  {
    hide Tree.NodeOk;
    t.RootOnly(cur);
    if k > 0 && cur != t.root {
      t.ParentIn(cur);
      ParentDepth(t, cur);
      LeadUp(t, cur.parent, path, i + 1, k - 1, true);
      if k == 1 { assert Ancestor(t, cur, 1) == Ancestor(t, cur.parent, 0); }
    }
  }

  /** A path of k carets leads to the k-th node above, and is invalid past the root. */
  lemma CaretsUp(t: Tree, p: Node, k: nat, above: bool, permanent: bool)
    requires t.Valid() && p in t.nodes
    ensures t.Resolved(p, Carets(k), above, permanent) ==
      if k <= t.depth[p] then t.Final(Ancestor(t, p, k), permanent) else Invalid
  {
    hide Tree.NodeOk, Tree.Walk, Tree.Resolved, Carets, Seg, SegEnd;
    var path := Carets(k);
    LeadUp(t, p, path, 0, k, false);
    t.ResolvedIs(p, path, above, permanent);
    if k <= t.depth[p] {
      var a := Ancestor(t, p, k);
      LeadHere(t, a, path, k, k > 0);
      t.WalkStep(a, path, k);
    }
  }

  /** Carets and then names: from the k-th node above p down to n. */
  lemma CaretsThenNames(t: Tree, p: Node, k: nat, n: Node, m: nat, above: bool, permanent: bool)
    requires t.Valid() && t.UniqueNames() && t.PlainNames() && p in t.nodes && n in t.nodes
    requires 0 < k <= t.depth[p] && 0 < m <= t.depth[n] && Ancestor(t, p, k) == Ancestor(t, n, m)
    requires Plain(Rel(t, n, m))
    ensures t.Resolved(p, Carets(k) + Rel(t, n, m), above, permanent) == t.Final(n, permanent)
  {
    hide Tree.NodeOk, Tree.Walk, Tree.Resolved, Carets, Rel, Ancestor, Seg, SegEnd;
    var rel := Rel(t, n, m);
    var path, a := Carets(k) + rel, Ancestor(t, p, k);
    LeadUp(t, p, path, 0, k, false);
    assert path[k] == rel[0];
    LeadHere(t, a, path, k, true);
    t.ResolvedIs(p, path, above, permanent);
    assert path[k..k + |rel|] == rel;
    WalkDown(t, n, m, path, k);
    t.WalkStep(n, path, |path|);
  }

  /** A root mark after a caret is invalid. */
  lemma CaretsThenRoot(t: Tree, p: Node, k: nat, rest: string, above: bool, permanent: bool)
    requires t.Valid() && p in t.nodes && k > 0
    ensures t.Resolved(p, Carets(k) + "\\" + rest, above, permanent) == Invalid
  {
    hide Tree.NodeOk, Tree.Walk, Tree.Resolved, Carets, Seg, SegEnd;
    var path := Carets(k) + "\\" + rest;
    assert path[k] == '\\';
    LeadUp(t, p, path, 0, k, false);
    t.ResolvedIs(p, path, above, permanent);
  }

  // ---- one name ----------------------------------------------------------------------------------

  /** A name with '_' in place of what it lacks. */
  function Padded(name: string): (r: string)
    requires |name| <= NAME_SIZE
    ensures |r| == NAME_SIZE
  {
    name + seq(NAME_SIZE - |name|, _ => '_')
  }

  /** One name, of up to four characters. */
  predicate OneSegment(name: string)
  {
    Plain(name) && |name| <= NAME_SIZE && '.' !in name
  }

  lemma {:induction false} SegShort(path: string, i: nat, k: nat)
    requires i <= |path| <= i + k && '.' !in path[i..]
    ensures Seg(path, i, k) == path[i..] + seq(k - (|path| - i), _ => '_') && SegEnd(path, i, k) == |path|
    decreases k
  {
    if k > 0 {
      if i < |path| {
        assert path[i] == path[i..][0] && path[i] in path[i..];
        assert path[i + 1..] == path[i..][1..];
        SegShort(path, i + 1, k - 1);
        assert path[i..] == [path[i]] + path[i + 1..];
      } else {
        SegBeyond(path, i, k);
        assert path[i..] == "";
      }
    } else {
      assert path[i..] == "";
    }
  }

  lemma {:induction false} SegBeyond(path: string, i: nat, k: nat)
    requires i >= |path|
    ensures Seg(path, i, k) == seq(k, _ => '_')
  {
    if k > 0 { SegBeyond(path, i, k - 1); }
  }

  /** What a single name comes to. */
  lemma NameIs(t: Tree, p: Node, name: string, above: bool, permanent: bool)
    requires t.Valid() && p in t.nodes && OneSegment(name)
    ensures var c := t.Sub(p, Padded(name));
      t.Resolved(p, name, above, permanent) ==
        t.Final(if above && c == null then t.AboveParent(p, Padded(name)) else c, permanent)
  {
    hide Tree.NodeOk, Tree.Walk, Tree.Resolved, Tree.Sub, Tree.AboveParent, Seg, SegEnd;
    LeadHere(t, p, name, 0, false);
    t.ResolvedIs(p, name, above, permanent);
    assert name[0] in name;
    assert name[0..] == name;
    SegShort(name, 0, NAME_SIZE);
    t.WalkStep(p, name, 0);
    var c := t.Sub(p, Padded(name));
    if c != null { t.WalkStep(c, name, |name|); }
  }

  /** A name is that of a child, with '_' in place of missing characters; without a search above
      there is no other answer. */
  lemma ShortName(t: Tree, p: Node, name: string, permanent: bool)
    requires t.Valid() && t.UniqueNames() && p in t.nodes && OneSegment(name)
    ensures forall c :: c in t.nodes && Child(t, p, Padded(name), c) ==>
      t.Resolved(p, name, false, permanent) == t.Final(c, permanent)
    ensures NoChild(t, p, Padded(name)) ==> t.Resolved(p, name, false, permanent) == NotFound
  {
    hide Tree.Valid, Tree.UniqueNames, Tree.Resolved, Tree.Sub, Tree.AboveParent, Child, NoChild;
    NameIs(t, p, name, false, permanent);
    forall c | c in t.nodes && Child(t, p, Padded(name), c)
      ensures t.Resolved(p, name, false, permanent) == t.Final(c, permanent)
    {
      ChildSub(t, p, Padded(name), c);
    }
    if NoChild(t, p, Padded(name)) { NoChildSub(t, p, Padded(name)); }
  }

  // ---- the search above --------------------------------------------------------------------------

  /** The search comes to the k-th node above n, which is the first to have such a child. */
  lemma {:induction false} AboveFound(t: Tree, n: Node, name: string, k: nat, c: Node)
    requires t.Valid() && t.UniqueNames() && n in t.nodes && k <= t.depth[n] && Child(t, Ancestor(t, n, k), name, c)
    requires forall j: nat :: j < k ==> NoChild(t, Ancestor(t, n, j), name)
    ensures t.Above(n, name) == c
    decreases k
  {
    hide Tree.NodeOk, Tree.UniqueNames, Tree.Sub, Tree.Above, Child, NoChild;
    t.AboveStep(n, name);
    if k == 0 {
      ChildSub(t, n, name, c);
    } else {
      assert Ancestor(t, n, 0) == n;
      NoChildSub(t, n, name);
      t.RootOnly(n);
      ParentDepth(t, n);
      UpOne(t, n, k, name);
      AboveFound(t, n.parent, name, k - 1, c);
    }
  }

  lemma UpOne(t: Tree, n: Node, k: nat, name: string)
    requires t.Valid() && n in t.nodes && n != t.root && k <= t.depth[n] && n.parent in t.nodes
    requires t.depth[n] == t.depth[n.parent] + 1 && forall j: nat :: j < k ==> NoChild(t, Ancestor(t, n, j), name)
    ensures k > 0 ==> Ancestor(t, n.parent, k - 1) == Ancestor(t, n, k)
    ensures forall j: nat :: j < k - 1 ==> NoChild(t, Ancestor(t, n.parent, j), name)
  {
    hide Tree.Valid, NoChild;
    forall j: nat | j < k - 1
      ensures NoChild(t, Ancestor(t, n.parent, j), name)
    {
      assert NoChild(t, Ancestor(t, n, j + 1), name);
    }
  }

  /** No node from n upwards has such a child. */
  lemma {:induction false} AboveNothing(t: Tree, n: Node, name: string)
    requires t.Valid() && n in t.nodes && forall j: nat :: j <= t.depth[n] ==> NoChild(t, Ancestor(t, n, j), name)
    ensures t.Above(n, name) == null
    decreases t.depth[n]
  {
    hide Tree.NodeOk, Tree.Sub, Tree.Above, NoChild;
    t.AboveStep(n, name);
    assert Ancestor(t, n, 0) == n;
    NoChildSub(t, n, name);
    if n == t.root {
      t.AboveNone(name);
    } else {
      t.RootOnly(n);
      ParentDepth(t, n);
      UpAll(t, n, name);
      AboveNothing(t, n.parent, name);
    }
  }

  lemma UpAll(t: Tree, n: Node, name: string)
    requires t.Valid() && n in t.nodes && n != t.root && n.parent in t.nodes && t.depth[n] == t.depth[n.parent] + 1
    requires forall j: nat :: j <= t.depth[n] ==> NoChild(t, Ancestor(t, n, j), name)
    ensures forall j: nat :: j <= t.depth[n.parent] ==> NoChild(t, Ancestor(t, n.parent, j), name)
  {
    hide Tree.NodeOk, NoChild;
    forall j: nat | j <= t.depth[n.parent]
      ensures NoChild(t, Ancestor(t, n.parent, j), name)
    {
      assert NoChild(t, Ancestor(t, n, j + 1), name);
    }
  }

  /** Searching for a name from p upwards. */
  lemma NameAboveIs(t: Tree, p: Node, name: string, permanent: bool)
    requires t.Valid() && p in t.nodes && OneSegment(name)
    ensures t.Resolved(p, name, true, permanent) == t.Final(t.Above(p, Padded(name)), permanent)
  {
    hide Tree.NodeOk, Tree.Resolved, Tree.Sub, Tree.Above;
    NameIs(t, p, name, true, permanent);
    t.AboveStep(p, Padded(name));
  }

  /** With the search above, a single name gives the child of p, or of the nearest node above p
      that has one. */
  lemma NearestAbove(t: Tree, p: Node, name: string, k: nat, c: Node, permanent: bool)
    requires t.Valid() && t.UniqueNames() && p in t.nodes && OneSegment(name) && k <= t.depth[p]
    requires Child(t, Ancestor(t, p, k), Padded(name), c)
    requires forall j: nat :: j < k ==> NoChild(t, Ancestor(t, p, j), Padded(name))
    ensures t.Resolved(p, name, true, permanent) == t.Final(c, permanent)
  {
    hide Tree.Valid, Tree.UniqueNames, Tree.Resolved, Tree.Above, NoChild;
    NameAboveIs(t, p, name, permanent);
    AboveFound(t, p, Padded(name), k, c);
  }

  /** If none of them has one, it is not found. */
  lemma NowhereAbove(t: Tree, p: Node, name: string, permanent: bool)
    requires t.Valid() && p in t.nodes && OneSegment(name)
    requires forall j: nat :: j <= t.depth[p] ==> NoChild(t, Ancestor(t, p, j), Padded(name))
    ensures t.Resolved(p, name, true, permanent) == NotFound
  {
    hide Tree.Valid, Tree.Resolved, Tree.Above, NoChild;
    NameAboveIs(t, p, name, permanent);
    AboveNothing(t, p, Padded(name));
  }

  /** Paths of more than one name are never searched for above. */
  lemma OnlyOneNameAbove(t: Tree, p: Node, path: string, permanent: bool)
    requires t.Valid() && p in t.nodes && SegEnd(path, Skip(path, 0), NAME_SIZE) < |path|
    ensures t.Resolved(p, path, true, permanent) == t.Resolved(p, path, false, permanent)
  {
    hide Tree.NodeOk, Tree.Resolved, Tree.Walk, Tree.Lead, SegEnd;
    t.ResolvedIs(p, path, true, permanent);
    t.ResolvedIs(p, path, false, permanent);
  }

  /** No parent means the root. */
  lemma NoParent(t: Tree, path: string, permanent: bool)
    requires t.Valid() && t.root in t.nodes
    ensures t.Resolved(null, path, false, permanent) == t.Resolved(t.root, path, false, permanent)
  {
    hide Tree.NodeOk, Tree.Resolved, Tree.Walk, Tree.Lead;
    t.ResolvedIs(null, path, false, permanent);
    t.ResolvedIs(t.root, path, false, permanent);
  }

  /** If only permanent nodes will do, a temporary one is denied, and all other answers are the
      same. */
  lemma PermanentOnly(t: Tree, parent: Node?, path: string, above: bool)
    requires t.Valid() && (parent != null ==> parent in t.nodes)
    ensures var any := t.Resolved(parent, path, above, false);
      && any != Denied && (any.Found? ==> any.node in t.nodes)
      && t.Resolved(parent, path, above, true) == if any.Found? && any.node.temporary then Denied else any
  {
    hide Tree.NodeOk, Tree.Walk, Tree.Lead, Tree.AboveParent, Tree.Resolved, SegEnd, Seg;
    t.ResolvedIs(parent, path, above, false);
    t.ResolvedIs(parent, path, above, true);
  }
}
