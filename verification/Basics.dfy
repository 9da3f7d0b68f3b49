/**
  Lists without repetition, optional values, products and the page size.
 */
module Basics {
  datatype Option<T> = None | Some(value: T)

  const PAGE_SIZE: nat := 4096

  ghost predicate NoRepeat<T>(q: seq<T>)
  {
    forall i, j :: 0 <= i < j < |q| ==> q[i] != q[j]
  }

  /** q with x taken out. */
  function Omit(q: seq<nat>, x: nat): seq<nat>
  {
    if q == [] then [] else if q[0] == x then q[1..] else [q[0]] + Omit(q[1..], x)
  }

  lemma {:induction false} OmitElems(q: seq<nat>, x: nat)
    requires NoRepeat(q)
    ensures NoRepeat(Omit(q, x)) && (forall y :: y in Omit(q, x) <==> y in q && y != x)
    ensures x in q ==> |Omit(q, x)| == |q| - 1
  {
    if q != [] {
      OmitElems(q[1..], x);
      assert q == [q[0]] + q[1..];
      assert q[0] !in q[1..];
    }
  }

  /** Just x goes, and the others stay in their order. */
  lemma {:induction false} OmitSplit(a: seq<nat>, x: nat, b: seq<nat>)
    requires x !in a
    ensures Omit(a + [x] + b, x) == a + b
  {
    var q := a + [x] + b;
    if a == [] {
      assert q[1..] == b == a + b;
    } else {
      assert q[0] == a[0] && q[1..] == a[1..] + [x] + b;
      OmitSplit(a[1..], x, b);
      assert [a[0]] + (a[1..] + b) == a + b;
    }
  }

  /** t is before u in q. */
  ghost predicate Precedes(q: seq<nat>, t: nat, u: nat)
  {
    exists i, j :: 0 <= i < j < |q| && q[i] == t && q[j] == u
  }

  lemma PrecedesJoin(a: seq<nat>, b: seq<nat>, t: nat, u: nat)
    ensures Precedes(a + b, t, u) <==> Precedes(a, t, u) || Precedes(b, t, u) || (t in a && u in b)
  {
    var q := a + b;
    if i, j :| 0 <= i < j < |a| && a[i] == t && a[j] == u {
      assert q[i] == t && q[j] == u;
    }
    if i, j :| 0 <= i < j < |b| && b[i] == t && b[j] == u {
      assert q[|a| + i] == t && q[|a| + j] == u;
    }
    if t in a && u in b {
      var i, j :| 0 <= i < |a| && 0 <= j < |b| && a[i] == t && b[j] == u;
      assert q[i] == t && q[|a| + j] == u;
    }
    if i, j :| 0 <= i < j < |q| && q[i] == t && q[j] == u {
      if j < |a| {
        assert a[i] == t && a[j] == u;
      } else if i >= |a| {
        assert b[i - |a|] == t && b[j - |a|] == u;
      } else {
        assert a[i] == t && b[j - |a|] == u;
      }
    }
  }

  /** Taking out x leaves the order of the others. */
  lemma OmitOrder(q: seq<nat>, x: nat, t: nat, u: nat)
    requires x in q && NoRepeat(q) && t != x && u != x
    ensures Precedes(Omit(q, x), t, u) <==> Precedes(q, t, u)
  {
    hide Omit, Precedes;
    var k :| 0 <= k < |q| && q[k] == x;
    var a, b := q[..k], q[k + 1..];
    assert q == a + [x] + b;
    OmitSplit(a, x, b);
    PrecedesJoin(a, b, t, u);
    PrecedesJoin(a + [x], b, t, u);
    PrecedesJoin(a, [x], t, u);
    assert !Precedes([x], t, u) by { PrecedesOne(x, t, u); }
  }

  lemma PrecedesOne(x: nat, t: nat, u: nat)
    ensures !Precedes([x], t, u)
  {
  }

  lemma NoRepeatFront(q: seq<nat>, x: nat)
    requires NoRepeat(q) && x !in q
    ensures NoRepeat([x] + q)
  {
  }

  lemma NoRepeatEnd(q: seq<nat>, x: nat)
    requires NoRepeat(q) && x !in q
    ensures NoRepeat(q + [x])
  {
  }

  lemma NoRepeatRest(q: seq<nat>)
    requires NoRepeat(q) && q != []
    ensures NoRepeat(q[1..]) && q[0] !in q[1..] && forall x :: x in q[1..] <==> x in q && x != q[0]
  {
    assert q == [q[0]] + q[1..];
  }

  /** Without its first element, a list keeps its order. */
  lemma RestOrder(q: seq<nat>, t: nat, u: nat)
    requires NoRepeat(q) && q != [] && t in q[1..] && (u in q ==> Precedes(q, t, u))
    ensures u in q ==> u in q[1..]
    ensures u in q[1..] ==> Precedes(q[1..], t, u)
  {
    hide Precedes;
    var h := q[0];
    assert q == [h] + q[1..];
    PrecedesJoin([h], q[1..], t, u);
    PrecedesOne(h, t, u);
    NoRepeatRest(q);
    if u == h { PrecedesIn(q[1..], t, u); }
  }

  lemma PrecedesIn(q: seq<nat>, t: nat, u: nat)
    requires u !in q
    ensures !Precedes(q, t, u)
  {
  }

  /** A product that proofs need not look into. */
  function Times(n: nat, m: nat): nat
  {
    n * m
  }

  lemma TimesStep(n: nat, m: nat)
    ensures Times(0, m) == 0 && Times(n, m + 1) == Times(n, m) + n
    ensures n > 0 ==> Times(n, m) == Times(n - 1, m) + m
  {
  }
}
