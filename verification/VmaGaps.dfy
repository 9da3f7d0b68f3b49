/**
  Free address ranges between the ranges of a VMA tree.

  A request asks for `size` addresses starting at a multiple of `align`, all of them in
  [min, max].  `Fits` says what an answer is; gap i lies before range i, and the last
  gap after all ranges.  The lemmas let a search pass over gaps one by one.
 */
module VmaGaps {
  import opened Words

  datatype Range = Range(first: Word, last: Word)

  datatype Request = Request(size: Word, align: Word, min: Word, max: Word)

  ghost predicate Sorted(rs: seq<Range>)
  {
    && (forall i {:trigger rs[i]} :: 0 <= i < |rs| ==> rs[i].first <= rs[i].last)
    && (forall i, j {:trigger rs[i], rs[j]} :: 0 <= i < j < |rs| ==> rs[i].last < rs[j].first)
  }

  /** First address of gap i. */
  ghost function Lo(rs: seq<Range>, i: nat): nat
    requires i <= |rs|
  {
    if i == 0 then 0 else rs[i - 1].last + 1
  }

  /** One past the last address of gap i. */
  ghost function Hi(rs: seq<Range>, i: nat): nat
    requires i <= |rs|
  {
    if i < |rs| then rs[i].first else TWO64
  }

  ghost predicate Free(rs: seq<Range>, a: int, size: int)
  {
    forall i {:trigger rs[i]} :: 0 <= i < |rs| ==> a + size - 1 < rs[i].first || rs[i].last < a
  }

  /** a is an acceptable answer: the whole range [a, a + size) is inside [min, max], a is
      aligned, and no existing range is met. */
  ghost predicate Fits(rs: seq<Range>, q: Request, a: Word)
  {
    q.min <= a && a + q.size - 1 <= q.max && Aligned(a, q.align) && Free(rs, a, q.size)
  }

  ghost predicate NoFit(rs: seq<Range>, q: Request)
  {
    forall a: Word :: !Fits(rs, q, a)
  }

  /** Every answer lies in gap k or a later one. */
  ghost predicate FitsFrom(rs: seq<Range>, q: Request, k: nat)
    requires k <= |rs|
  {
    forall a: Word :: Fits(rs, q, a) ==> Lo(rs, k) <= a
  }

  /** Every answer lies in gap k or an earlier one. */
  ghost predicate FitsUpTo(rs: seq<Range>, q: Request, k: nat)
    requires k <= |rs|
  {
    forall a: Word :: Fits(rs, q, a) ==> a + q.size <= Hi(rs, k)
  }

  ghost predicate NoFitIn(rs: seq<Range>, q: Request, k: nat)
    requires k <= |rs|
  {
    forall a: Word :: Fits(rs, q, a) ==> !(Lo(rs, k) <= a && a + q.size <= Hi(rs, k))
  }

  lemma SkipUp(rs: seq<Range>, q: Request, k: nat)
    requires k < |rs| && FitsFrom(rs, q, k) && NoFitIn(rs, q, k)
    ensures FitsFrom(rs, q, k + 1)
  {
    forall a: Word | Fits(rs, q, a)
      ensures Lo(rs, k + 1) <= a
    {
      assert a + q.size - 1 < rs[k].first || rs[k].last < a;
    }
  }

  lemma SkipDown(rs: seq<Range>, q: Request, k: nat)
    requires 0 < k <= |rs| && FitsUpTo(rs, q, k) && NoFitIn(rs, q, k)
    ensures FitsUpTo(rs, q, k - 1)
  {
    forall a: Word | Fits(rs, q, a)
      ensures a + q.size <= Hi(rs, k - 1)
    {
      var r := rs[k - 1];
      assert a + q.size - 1 < r.first || r.last < a;
    }
  }

  /** A gap smaller than the request holds no answer. */
  lemma SmallGap(rs: seq<Range>, q: Request, k: nat)
    requires k <= |rs| && Hi(rs, k) - Lo(rs, k) < q.size
    ensures NoFitIn(rs, q, k)
  {
  }

  lemma {:induction false} SkipSmallUp(rs: seq<Range>, q: Request, i: nat, j: nat)
    requires i <= j <= |rs| && FitsFrom(rs, q, i)
    requires forall k :: i <= k < j ==> Hi(rs, k) - Lo(rs, k) < q.size
    ensures FitsFrom(rs, q, j)
    decreases j - i
  {
    if i < j {
      SmallGap(rs, q, i);
      SkipUp(rs, q, i);
      SkipSmallUp(rs, q, i + 1, j);
    }
  }

  lemma {:induction false} SkipSmallDown(rs: seq<Range>, q: Request, i: nat, j: nat)
    requires i <= j < |rs| && FitsUpTo(rs, q, j)
    requires forall k :: i <= k <= j ==> Hi(rs, k) - Lo(rs, k) < q.size
    ensures if i == 0 then NoFit(rs, q) else FitsUpTo(rs, q, i - 1)
    decreases j - i
  {
    SmallGap(rs, q, j);
    if j > 0 {
      SkipDown(rs, q, j);
      if i < j {
        SkipSmallDown(rs, q, i, j - 1);
      }
    }
  }

  // ---- examining one gap ----------------------------------------------------------------

  /** The part of gap k that lies in [min, max], and the first aligned address in it, as
      the source computes them. */
  ghost function GapStart(rs: seq<Range>, q: Request, k: nat): int
    requires k <= |rs|
  {
    if Lo(rs, k) > q.min then Lo(rs, k) else q.min
  }

  ghost function GapEnd(rs: seq<Range>, q: Request, k: nat): int
    requires k <= |rs|
  {
    if q.max != WORD_MAX && q.max + 1 < Hi(rs, k) then q.max + 1 else Hi(rs, k)
  }

  /** Any answer in a gap is at or above the first aligned address and leaves room. */
  lemma FitInGap(rs: seq<Range>, q: Request, k: nat, start: Word, alloc: Word, a: Word)
    requires k <= |rs| && IsAlignment(q.align) && q.size > 0
    requires start == GapStart(rs, q, k) && alloc == AlignUp(start, q.align)
    requires Fits(rs, q, a) && Lo(rs, k) <= a
    ensures start <= alloc <= a
    ensures a + q.size <= Hi(rs, k) ==> a + q.size <= GapEnd(rs, q, k)
  {
    hide AlignUp;
    AlignUpLeast(start, q.align, a);
  }

  /** A whole range inside a gap is free. */
  lemma {:induction false} InsideGap(rs: seq<Range>, k: nat, a: int, size: int)
    requires Sorted(rs) && k <= |rs| && size > 0 && Lo(rs, k) <= a && a + size <= Hi(rs, k)
    ensures Free(rs, a, size)
  {
    forall i | 0 <= i < |rs|
      ensures a + size - 1 < rs[i].first || rs[i].last < a
    {
      if i < k {
        assert rs[i].last <= rs[k - 1].last;
      } else {
        assert rs[k].first <= rs[i].first;
      }
    }
  }

  /** The outcome of the test `alloc_start` and `gap_end` undergo. */
  lemma ExamineGap(rs: seq<Range>, q: Request, k: nat, start: Word, alloc: Word)
    requires Sorted(rs) && k <= |rs| && IsAlignment(q.align) && q.size > 0
    requires start == GapStart(rs, q, k) && alloc == AlignUp(start, q.align)
    ensures alloc < start || GapEnd(rs, q, k) <= alloc || GapEnd(rs, q, k) - alloc < q.size ==> NoFitIn(rs, q, k)
    ensures start <= alloc && GapEnd(rs, q, k) - alloc >= q.size ==> Fits(rs, q, alloc)
  {
    hide AlignUp;
    var end := GapEnd(rs, q, k);
    AlignUpAligned(start, q.align);
    if alloc < start || end <= alloc || end - alloc < q.size {
      forall a: Word | Fits(rs, q, a) && Lo(rs, k) <= a
        ensures a + q.size > Hi(rs, k)
      {
        FitInGap(rs, q, k, start, alloc, a);
      }
    }
    if start <= alloc && end - alloc >= q.size {
      InsideGap(rs, k, alloc, q.size);
    }
  }

  /** Bottom up, the first gap that has room gives the least answer. */
  lemma FirstIsLeast(rs: seq<Range>, q: Request, k: nat, start: Word, alloc: Word)
    requires k <= |rs| && IsAlignment(q.align) && q.size > 0 && FitsFrom(rs, q, k)
    requires start == GapStart(rs, q, k) && alloc == AlignUp(start, q.align)
    ensures forall a: Word :: Fits(rs, q, a) ==> start <= alloc <= a
  {
    hide AlignUp;
    forall a: Word | Fits(rs, q, a)
      ensures start <= alloc <= a
    {
      FitInGap(rs, q, k, start, alloc, a);
    }
  }

  /** Top down, the last gap that has room gives the greatest answer. */
  lemma LastIsGreatest(rs: seq<Range>, q: Request, k: nat, start: Word, alloc: Word, out: Word)
    requires Sorted(rs) && k <= |rs| && IsAlignment(q.align) && q.size > 0 && FitsUpTo(rs, q, k)
    requires start == GapStart(rs, q, k) && alloc == AlignUp(start, q.align)
    requires start <= alloc && GapEnd(rs, q, k) - alloc >= q.size
    requires out == AlignDown(GapEnd(rs, q, k) - q.size, q.align)
    ensures Fits(rs, q, out) && forall a: Word :: Fits(rs, q, a) ==> a <= out
  {
    hide AlignUp, AlignDown;
    var end := GapEnd(rs, q, k);
    AlignUpAligned(start, q.align);
    AlignDownSpec(end - q.size, q.align);
    assert alloc <= out;
    InsideGap(rs, k, out, q.size);
    forall a: Word | Fits(rs, q, a)
      ensures a <= out
    {
      assert a + q.size <= end;
    }
  }

  /** The searches turn away every request with max < size.  That costs an answer exactly
      when the request asks for all of [0, max] and nothing is there. */
  lemma RefusedFit(rs: seq<Range>, q: Request)
    requires q.size > 0 && q.max < q.size
    ensures !NoFit(rs, q) <==> q.min == 0 && q.size == q.max + 1 && Free(rs, 0, q.size)
  {
    assert Aligned(0, q.align);
    if q.min == 0 && q.size == q.max + 1 && Free(rs, 0, q.size) {
      assert Fits(rs, q, 0);
    }
  }

  /** In an empty tree, 4096 addresses in [0, 4095] would fit at 0. */
  lemma RefusedFitExample()
    ensures var q := Request(4096, 1, 0, 4095);
      q.max < q.size && Fits([], q, 0)
  {
    assert Aligned(0, 1);
  }
}
