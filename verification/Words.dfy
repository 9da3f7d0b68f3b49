/**
  64-bit machine words and power-of-two alignment (include/dsl/align.h).

  Words are natural numbers below 2^64.  Every operation of the source that can
  wrap is written with an explicit `Wrap`.  Bitwise AND is defined on the binary
  digits, so the mask arithmetic of `align_up` and `align_down` is modelled as
  written and its arithmetic meaning is proved.
 */
module Words {

  const TWO64: nat := 0x1_0000_0000_0000_0000
  const WORD_MAX: Word := 0xFFFF_FFFF_FFFF_FFFF

  type Word = x: nat | x < 0x1_0000_0000_0000_0000

  function Wrap(x: int): (r: Word)
  {
    x % TWO64
  }

  function Max(a: Word, b: Word): (r: Word) { if a > b then a else b }

  function Min(a: Word, b: Word): (r: Word) { if a < b then a else b }

  function Pow2(n: nat): (r: nat)
    ensures r >= 1
  {
    if n == 0 then 1 else 2 * Pow2(n - 1)
  }

  /** Bitwise AND, digit by digit. */
  function And(x: nat, y: nat): (r: nat)
    ensures r <= x && r <= y
  {
    if x == 0 || y == 0 then 0
    else 2 * And(x / 2, y / 2) + (x % 2) * (y % 2)
  }

  /** The alignments the source accepts: zero, or a power of two. */
  ghost predicate IsAlignment(align: Word)
  {
    align == 0 || exists k: nat :: k < 64 && align == Pow2(k)
  }

  predicate Aligned(a: nat, align: Word)
  {
    align == 0 || a % align == 0
  }

  function AlignUp(value: Word, align: Word): (r: Word)
  {
    var a := if align != 0 then align - 1 else 0;
    And(Wrap(value + a), WORD_MAX - a)
  }

  function AlignDown(value: Word, align: Word): (r: Word)
  {
    var a := if align != 0 then align - 1 else 0;
    And(value, WORD_MAX - a)
  }

  // ---- proofs -------------------------------------------------------------

  lemma {:induction false} AndOnes(v: nat, n: nat)
    requires v < Pow2(n)
    ensures And(v, Pow2(n) - 1) == v
  {
    if n > 0 && v > 0 {
      AndOnes(v / 2, n - 1);
    }
  }

  lemma HalveMod(v: nat, m: nat)
    requires m >= 1
    ensures v % (2 * m) == 2 * ((v / 2) % m) + v % 2
  {
    var h := v / 2;
    var q, r := h / m, h % m;
    assert v == (2 * m) * q + (2 * r + v % 2) by {
      assert h == m * q + r;
    }
    assert 0 <= 2 * r + v % 2 < 2 * m;
    ModUnique(v, 2 * m, q, 2 * r + v % 2);
  }

  lemma MulMono(m: nat, a: int, b: int)
    requires a <= b
    ensures m * a <= m * b
  {
  }

  /** Quotient and remainder are determined by the division equation. */
  lemma ModUnique(v: nat, m: nat, q: int, r: int)
    requires m >= 1 && v == m * q + r && 0 <= r < m
    ensures v % m == r && v / m == q
  {
    QuotientUnique(m, q, r, v / m, v % m);
  }

  lemma QuotientUnique(m: nat, q: int, r: int, q': int, r': int)
    requires m >= 1 && m * q + r == m * q' + r' && 0 <= r < m && 0 <= r' < m
    ensures q == q' && r == r'
  {
    if q' > q {
      MulMono(m, q + 1, q');
    } else if q' < q {
      MulMono(m, q' + 1, q);
    }
  }

  lemma AndEven(v: nat, y: nat)
    ensures And(v, 2 * y) == 2 * And(v / 2, y)
  {
    if v > 0 && y > 0 {
      assert (2 * y) / 2 == y && (2 * y) % 2 == 0;
    }
  }

  /** Clearing one bit more of a number with one bit more. */
  lemma ClearStep(v: nat, a: nat, b: nat)
    requires 1 <= b <= a && And(v / 2, a - b) == v / 2 - (v / 2) % b
    ensures And(v, 2 * a - 2 * b) == v - v % (2 * b)
  {
    hide And;
    HalveMod(v, b);
    AndEven(v, a - b);
    assert 2 * (a - b) == 2 * a - 2 * b;
    var r := (v / 2) % b;
    assert v == 2 * (v / 2) + v % 2;
  }

  /** Clearing the low k bits of an n-bit number rounds it down to a multiple of 2^k. */
  lemma {:induction false} ClearLow(v: nat, k: nat, n: nat)
    requires k <= n && v < Pow2(n)
    ensures Pow2(k) <= Pow2(n)
    ensures And(v, Pow2(n) - Pow2(k)) == v - v % Pow2(k)
  {
    if k == 0 {
      AndOnes(v, n);
    } else {
      hide And;
      ClearLow(v / 2, k - 1, n - 1);
      ClearStep(v, Pow2(n - 1), Pow2(k - 1));
    }
  }

  lemma Pow2Is64()
    ensures Pow2(64) == TWO64
  {
    assert Pow2(8) == 256;
    assert Pow2(16) == 65536;
    assert Pow2(32) == 0x1_0000_0000 by {
      assert Pow2(24) == 0x100_0000;
    }
    assert Pow2(40) == 0x100_0000_0000;
    assert Pow2(48) == 0x1_0000_0000_0000;
    assert Pow2(56) == 0x100_0000_0000_0000;
  }

  /** The mask used by align_up and align_down rounds down to the alignment. */
  lemma MaskRoundsDown(v: Word, align: Word)
    requires IsAlignment(align)
    ensures align == 0 ==> And(v, WORD_MAX) == v
    ensures align != 0 ==> And(v, WORD_MAX - (align - 1)) == v - v % align
  {
    Pow2Is64();
    if align == 0 {
      AndOnes(v, 64);
    } else {
      var k: nat :| k < 64 && align == Pow2(k);
      ClearLow(v, k, 64);
    }
  }

  lemma AlignmentDivides64(align: Word)
    requires IsAlignment(align) && align != 0
    ensures TWO64 % align == 0
  {
    Pow2Is64();
    var k: nat :| k < 64 && align == Pow2(k);
    Pow2Divides(k, 64);
  }

  lemma {:induction false} Pow2Divides(k: nat, n: nat)
    requires k <= n
    ensures Pow2(n) % Pow2(k) == 0
  {
    if k == 0 {
    } else {
      Pow2Divides(k - 1, n - 1);
      HalveMod(Pow2(n), Pow2(k - 1));
    }
  }

  /** The rounding-up formula lands on the least multiple at or above v. */
  lemma RoundUp(v: nat, m: nat)
    requires m >= 1
    ensures var r := (v + (m - 1)) - (v + (m - 1)) % m; v <= r < v + m && r % m == 0
  {
    var s := v + (m - 1);
    var q := s / m;
    assert s == m * q + s % m;
    ModUnique(m * q, m, q, 0);
  }

  /** Every multiple at or above v is at or above v rounded up. */
  lemma MultipleAbove(v: nat, m: nat, x: nat)
    requires m >= 1 && v <= x && x % m == 0
    ensures (v + (m - 1)) - (v + (m - 1)) % m <= x
  {
    var s := v + (m - 1);
    var q, j := s / m, x / m;
    assert x == m * j && s == m * q + s % m;
    if q > j {
      MulMono(m, j + 1, q);
    } else {
      MulMono(m, q, j);
    }
  }

  /** Every multiple at or below v is at or below v rounded down. */
  lemma MultipleBelow(v: nat, m: nat, x: nat)
    requires m >= 1 && x <= v && x % m == 0
    ensures x <= v - v % m && (v - v % m) % m == 0
  {
    var q, j := v / m, x / m;
    assert x == m * j && v == m * q + v % m;
    ModUnique(m * q, m, q, 0);
    if j > q {
      MulMono(m, q + 1, j);
    } else {
      MulMono(m, j, q);
    }
  }

  lemma WrapOnce(x: nat)
    requires x < 2 * TWO64
    ensures Wrap(x) == if x < TWO64 then x else x - TWO64
  {
  }

  /** What align_up computes: a plain rounding up, or zero when that overflows. */
  lemma AlignUpValue(value: Word, align: Word)
    requires IsAlignment(align) && align != 0
    ensures value + (align - 1) < TWO64 ==>
      AlignUp(value, align) == (value + (align - 1)) - (value + (align - 1)) % align
    ensures value + (align - 1) >= TWO64 ==> AlignUp(value, align) == 0
  {
    hide And, Pow2, IsAlignment;
    var s: nat := value + (align - 1);
    WrapOnce(s);
    MaskRoundsDown(Wrap(s), align);
    assert AlignUp(value, align) == Wrap(s) - Wrap(s) % align;
    if s >= TWO64 {
      ModUnique(s - TWO64, align, 0, s - TWO64);
    }
  }

  /** Whenever value + align - 1 overflows there is no aligned word above value. */
  lemma NothingAlignedAbove(value: Word, align: Word, x: Word)
    requires IsAlignment(align) && align != 0
    requires value + (align - 1) >= TWO64 && value <= x
    ensures !Aligned(x, align)
  {
    hide And, Pow2, Wrap, IsAlignment;
    AlignmentDivides64(align);
    if Aligned(x, align) {
      var q, j := TWO64 / align, x / align;
      assert TWO64 == align * q && x == align * j;
      if q > j {
        MulMono(align, j + 1, q);
      } else {
        MulMono(align, q, j);
      }
    }
  }

  lemma AlignUpAligned(value: Word, align: Word)
    requires IsAlignment(align)
    ensures AlignUp(value, align) >= value ==> Aligned(AlignUp(value, align), align)
  {
    hide AlignUp, And, Pow2, Wrap, IsAlignment;
    if align != 0 {
      AlignUpValue(value, align);
      RoundUp(value, align);
    }
  }

  /** Alignment 0 asks for nothing. */
  lemma AlignUpZero(value: Word)
    ensures AlignUp(value, 0) == value
  {
    hide And, Pow2;
    MaskRoundsDown(value, 0);
  }

  lemma AlignUpLeast(value: Word, align: Word, x: Word)
    requires IsAlignment(align) && value <= x && Aligned(x, align)
    ensures value <= AlignUp(value, align) <= x
  {
    hide AlignUp, And, Pow2, Wrap, IsAlignment;
    if align == 0 {
      AlignUpZero(value);
    } else {
      if value + (align - 1) >= TWO64 {
        NothingAlignedAbove(value, align, x);
      }
      AlignUpValue(value, align);
      RoundUp(value, align);
      MultipleAbove(value, align, x);
    }
  }

  /** align_up yields the least aligned address at or above `value`; it comes out
      below `value` exactly when no such address exists in 64 bits. */
  lemma AlignUpSpec(value: Word, align: Word)
    requires IsAlignment(align)
    ensures AlignUp(value, align) >= value ==>
      Aligned(AlignUp(value, align), align)
      && forall x: Word :: value <= x && Aligned(x, align) ==> AlignUp(value, align) <= x
    ensures AlignUp(value, align) < value <==> forall x: Word :: value <= x ==> !Aligned(x, align)
  {
    hide AlignUp, And, Pow2, Wrap, IsAlignment;
    AlignUpAligned(value, align);
    forall x: Word | value <= x && Aligned(x, align)
      ensures value <= AlignUp(value, align) <= x
    {
      AlignUpLeast(value, align, x);
    }
  }

  /** align_down yields the greatest aligned address at or below `value`. */
  lemma AlignDownSpec(value: Word, align: Word)
    requires IsAlignment(align)
    ensures AlignDown(value, align) <= value && Aligned(AlignDown(value, align), align)
    ensures forall x: Word :: x <= value && Aligned(x, align) ==> x <= AlignDown(value, align)
  {
    hide And, Pow2, Wrap, IsAlignment;
    MaskRoundsDown(value, align);
    if align != 0 {
      MultipleBelow(value, align, 0);
      forall x: Word | x <= value && Aligned(x, align)
        ensures x <= AlignDown(value, align)
      {
        MultipleBelow(value, align, x);
      }
    }
  }
}
