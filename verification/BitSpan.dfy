/**
  Bit-exact copies between byte buffers (acpi/uacpi/source/io.c): bit_copy, which moves a
  span of bits from any bit offset to any other, eight bits a turn.
 */
module BitSpan {
  import opened Bits

  /** Bit i of a buffer. */
  predicate BitAt(a: seq<Byte>, i: nat)
    requires i < 8 * |a|
  {
    Bit(a[i / 8], i % 8)
  }

  /** d is d0 with the `done` bits from `to` on replaced by the bits of src from `from` on;
      past the `avail` bits of the source, zeroes come in. */
  ghost predicate Copied(d0: seq<Byte>, d: seq<Byte>, to: nat, done: nat, src: seq<Byte>, from: nat, avail: nat)
    requires to + done <= 8 * |d0| && from + avail <= 8 * |src|
  {
    && |d| == |d0|
    && forall i {:trigger BitAt(d, i)} :: 0 <= i < 8 * |d| ==>
      (BitAt(d, i) <==> if to <= i < to + done then i - to < avail && BitAt(src, from + i - to) else BitAt(d0, i))
  }

  // ---- one turn of the loop ------------------------------------------------------------------

  /** The next (up to) eight bits of the source. */
  function Fetch(src: seq<Byte>, p: nat, shift: nat, count: nat): Byte
    requires shift < 8 && 8 * p + shift + count <= 8 * |src| && count > 0
  {
    var bits := Shr(src[p], shift);
    var more := if shift > 0 && count > 8 - shift then Or(bits, Shl(src[p + 1], 8 - shift)) else bits;
    if count < 8 then And(more, Mask(count)) else more
  }

  lemma FetchBit(src: seq<Byte>, p: nat, shift: nat, count: nat, j: nat)
    requires shift < 8 && 8 * p + shift + count <= 8 * |src| && count > 0 && j < 8
    ensures Bit(Fetch(src, p, shift, count), j) <==> j < count && BitAt(src, 8 * p + shift + j)
  {
    hide Bit, Shr, Shl, Mask, And, Or;
    var bits := Shr(src[p], shift);
    ShrBit(src[p], shift, j);
    var more := bits;
    if shift > 0 && count > 8 - shift {
      more := Or(bits, Shl(src[p + 1], 8 - shift));
      ShlBit(src[p + 1], 8 - shift, j);
      OrBit(bits, Shl(src[p + 1], 8 - shift), j);
    }
    if count < 8 {
      MaskBit(count, j);
      AndBit(more, Mask(count), j);
    }
    if j < count {
      BitPosition(p, shift + j);
    }
  }

  lemma BitPosition(p: nat, k: nat)
    requires k < 16
    ensures if k < 8 then (8 * p + k) / 8 == p && (8 * p + k) % 8 == k
            else (8 * p + k) / 8 == p + 1 && (8 * p + k) % 8 == k - 8
  {
  }

  /** b with the bits chosen by mask taken from bits. */
  function Blend(b: Byte, bits: Byte, mask: Byte): Byte
  {
    Or(And(b, Not(mask)), And(bits, mask))
  }

  lemma BlendBit(b: Byte, bits: Byte, mask: Byte, j: nat)
    requires j < 8
    ensures Bit(Blend(b, bits, mask), j) <==> if Bit(mask, j) then Bit(bits, j) else Bit(b, j)
  {
    hide Bit, And, Or, Not;
    NotBit(mask, j);
    AndBit(b, Not(mask), j);
    AndBit(bits, mask, j);
    OrBit(And(b, Not(mask)), And(bits, mask), j);
  }

  function Least(a: nat, b: nat): nat
  {
    if a < b then a else b
  }

  /** The destination after a turn: n bits at bit offset `shift` of byte p. */
  function Stored(d: seq<Byte>, p: nat, shift: nat, n: nat, bits: Byte): seq<Byte>
    requires shift < 8 && n <= 8 && 8 * p + shift + n <= 8 * |d| && n > 0
  {
    var low := d[p := Blend(d[p], Shl(bits, shift), Shl(Mask(n), shift))];
    if shift > 0 && n > 8 - shift then
      low[p + 1 := Blend(d[p + 1], Shr(bits, 8 - shift), Shr(Mask(n), 8 - shift))]
    else low
  }

  lemma StoredBit(d: seq<Byte>, p: nat, shift: nat, n: nat, bits: Byte, i: nat)
    requires shift < 8 && n <= 8 && 8 * p + shift + n <= 8 * |d| && n > 0 && i < 8 * |d|
    ensures BitAt(Stored(d, p, shift, n, bits), i)
      <==> if 8 * p + shift <= i < 8 * p + shift + n then Bit(bits, i - 8 * p - shift) else BitAt(d, i)
  {
    hide Bit, Shr, Shl, Mask, Blend;
    var j := i % 8;
    if i / 8 == p {
      BlendBit(d[p], Shl(bits, shift), Shl(Mask(n), shift), j);
      ShlBit(Mask(n), shift, j);
      ShlBit(bits, shift, j);
      if j >= shift { MaskBit(n, j - shift); }
    } else if i / 8 == p + 1 && shift > 0 && n > 8 - shift {
      BlendBit(d[p + 1], Shr(bits, 8 - shift), Shr(Mask(n), 8 - shift), j);
      ShrBit(Mask(n), 8 - shift, j);
      ShrBit(bits, 8 - shift, j);
      if j + 8 - shift < 8 { MaskBit(n, j + 8 - shift); }
    }
  }

  /** One turn copies up to eight more bits. */
  lemma Turn(d0: seq<Byte>, d: seq<Byte>, to: nat, length: nat, done: nat, src: seq<Byte>, from: nat, avail: nat,
             bits: Byte)
    requires to + length <= 8 * |d0| && from + avail <= 8 * |src| && done < length && done % 8 == 0
    requires Copied(d0, d, to, done, src, from, avail)
    requires forall j :: 0 <= j < 8 ==> (Bit(bits, j) <==> done + j < avail && BitAt(src, from + done + j))
    ensures var n := Least(8, length - done);
      Copied(d0, Stored(d, (to + done) / 8, (to + done) % 8, n, bits), to, done + n, src, from, avail)
  {
    hide Bit, BitAt, Stored;
    var n := Least(8, length - done);
    var p, shift := (to + done) / 8, (to + done) % 8;
    var d' := Stored(d, p, shift, n, bits);
    assert |d'| == |d| by { StoredSize(d, p, shift, n, bits); }
    forall i | 0 <= i < 8 * |d'|
      ensures BitAt(d', i) <==> if to <= i < to + done + n then i - to < avail && BitAt(src, from + i - to)
        else BitAt(d0, i)
    {
      StoredBit(d, p, shift, n, bits, i);
      assert 8 * p + shift == to + done;
      if to + done <= i < to + done + n {
        var j := i - to - done;
        assert from + done + j == from + i - to;
      }
    }
  }

  lemma StoredSize(d: seq<Byte>, p: nat, shift: nat, n: nat, bits: Byte)
    requires shift < 8 && n <= 8 && 8 * p + shift + n <= 8 * |d| && n > 0
    ensures |Stored(d, p, shift, n, bits)| == |d|
  {
  }

  /** The bits of the next turn are those of the source, or zeroes. */
  lemma FetchAll(src: seq<Byte>, from: nat, avail: nat, done: nat, p: nat, shift: nat, count: nat, bits: Byte)
    requires from + avail <= 8 * |src| && shift < 8
    requires count == (if done < avail then avail - done else 0) && (count > 0 ==> 8 * p + shift == from + done)
    requires bits == if count > 0 then Fetch(src, p, shift, count) else 0
    ensures forall j :: 0 <= j < 8 ==> (Bit(bits, j) <==> done + j < avail && BitAt(src, from + done + j))
  {
    hide Bit, BitAt, Fetch;
    forall j | 0 <= j < 8
      ensures Bit(bits, j) <==> done + j < avail && BitAt(src, from + done + j)
    {
      if count > 0 {
        FetchBit(src, p, shift, count, j);
      } else {
        ZeroBit(j);
      }
    }
  }

  lemma ZeroBit(j: nat)
    requires j < 8
    ensures !Bit(0, j)
  {
  }

  /** bit_copy. */
  method BitCopy(dst: array<Byte>, to: nat, length: nat, src: seq<Byte>, from: nat, avail: nat)
    requires to + length <= 8 * dst.Length && from + avail <= 8 * |src|
    modifies dst
    ensures Copied(old(dst[..]), dst[..], to, length, src, from, avail)
  {
    hide Bit, BitAt, Fetch, Shl, Shr, Mask, Blend, Copied;
    ghost var d0 := dst[..];
    ghost var done: nat := 0;
    var dp: nat, dstCount: nat, dstShift := to / 8, length, to % 8;
    var sp: nat, srcCount: nat, srcShift := from / 8, avail, from % 8;
    CopiedNone(d0, to, src, from, avail);
    while dstCount > 0
      invariant done + dstCount == length && Copied(d0, dst[..], to, done, src, from, avail)
      invariant dstCount > 0 ==> done % 8 == 0 && 8 * dp + dstShift == to + done
      invariant dstCount > 0 ==>
        srcCount == (if done < avail then avail - done else 0) && (srcCount > 0 ==> 8 * sp + srcShift == from + done)
    {
      var bits: Byte := 0;
      if srcCount > 0 {
        bits := Fetch(src, sp, srcShift, srcCount);
      }
      FetchAll(src, from, avail, done, sp, srcShift, srcCount, bits);
      Turn(d0, dst[..], to, length, done, src, from, avail, bits);
      srcCount, sp := if srcCount < 8 then 0 else srcCount - 8, sp + 1;
      StoreTurn(dst, dp, dstShift, dstCount, bits);
      done := done + Least(8, dstCount);
      dstCount := if dstCount > 8 then dstCount - 8 else 0;
      dp := dp + 1;
    }
  }

  lemma CopiedNone(d: seq<Byte>, to: nat, src: seq<Byte>, from: nat, avail: nat)
    requires to <= 8 * |d| && from + avail <= 8 * |src|
    ensures Copied(d, d, to, 0, src, from, avail)
  {
  }

  /** The two stores of a turn. */
  method StoreTurn(dst: array<Byte>, p: nat, shift: nat, count: nat, bits: Byte)
    requires shift < 8 && count > 0 && 8 * p + shift + count <= 8 * dst.Length
    modifies dst
    ensures dst[..] == Stored(old(dst[..]), p, shift, Least(8, count), bits)
  {
    hide Shl, Shr, Mask, Blend;
    var mask := Mask(if count < 8 then count else 8);
    dst[p] := Blend(dst[p], Shl(bits, shift), Shl(mask, shift));
    if shift > 0 && count > 8 - shift {
      dst[p + 1] := Blend(dst[p + 1], Shr(bits, 8 - shift), Shr(mask, 8 - shift));
    }
  }
}
