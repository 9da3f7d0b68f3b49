/**
  Buffer fields (acpi/uacpi/source/io.c): a field is a span of bits of a buffer.  Fields at
  a byte boundary take a path that moves whole bytes; both paths meet the same bit-exact
  specification.
 */
module BufferField {
  import opened Bits
  import opened BitSpan

  datatype Field = Field(backing: array<Byte>, bitIndex: nat, bitLength: nat)

  /** Fields are not empty and lie inside their buffer; the interpreter checks both when it
      makes one. */
  predicate Sound(f: Field)
  {
    f.bitLength > 0 && f.bitIndex + f.bitLength <= 8 * f.backing.Length
  }

  /** uacpi_round_up_bits_to_bytes. */
  function BytesFor(bits: nat): (n: nat)
    ensures 8 * n >= bits > 8 * (n - 1)
  {
    (bits + 7) / 8
  }

  // ---- what the byte-wise paths compute --------------------------------------------------------

  /** A read of whole bytes with the tail cut off. */
  function Cut(b: Byte, bits: nat): Byte
  {
    if bits % 8 == 0 then b else And(b, Mask(bits % 8))
  }

  lemma CutBit(b: Byte, bits: nat, j: nat)
    requires j < 8
    ensures Bit(Cut(b, bits), j) <==> Bit(b, j) && (bits % 8 == 0 || j < bits % 8)
  {
    hide Bit, And, Mask;
    if bits % 8 != 0 {
      AndBit(b, Mask(bits % 8), j);
      MaskBit(bits % 8, j);
    }
  }

  lemma FastRead(d0: seq<Byte>, d: seq<Byte>, b: seq<Byte>, p: nat, bits: nat)
    requires 8 * p + bits <= 8 * |b| && bits > 0 && BytesFor(bits) <= |d0| == |d|
    requires forall k :: 0 <= k < |d| ==>
      d[k] == if k >= BytesFor(bits) then d0[k] else if k == BytesFor(bits) - 1 then Cut(b[p + k], bits) else b[p + k]
    ensures Copied(d0, d, 0, 8 * BytesFor(bits), b, 8 * p, bits)
  {
    hide Bit, Cut;
    var n := BytesFor(bits);
    forall i | 0 <= i < 8 * |d|
      ensures BitAt(d, i) <==> if i < 8 * n then i < bits && BitAt(b, 8 * p + i) else BitAt(d0, i)
    {
      var k, j := i / 8, i % 8;
      if k < n {
        assert (8 * p + i) / 8 == p + k && (8 * p + i) % 8 == j;
        if k == n - 1 { CutBit(b[p + k], bits, j); }
      }
    }
  }

  /** The last byte of a write: the low bits are new, the others kept. */
  function Tail(value: Byte, last: Byte, bits: nat): Byte
  {
    if bits % 8 == 0 then value
    else Or(Shr(Shl(value, 8 - bits % 8), 8 - bits % 8), Shl(Shr(last, bits % 8), bits % 8))
  }

  lemma TailBit(value: Byte, last: Byte, bits: nat, j: nat)
    requires j < 8
    ensures Bit(Tail(value, last, bits), j) <==> if bits % 8 == 0 || j < bits % 8 then Bit(value, j) else Bit(last, j)
  {
    hide Bit, Or, Shl, Shr;
    var r := bits % 8;
    if r != 0 {
      OrBit(Shr(Shl(value, 8 - r), 8 - r), Shl(Shr(last, r), r), j);
      ShrBit(Shl(value, 8 - r), 8 - r, j);
      if j + 8 - r < 8 { ShlBit(value, 8 - r, j + 8 - r); }
      ShlBit(Shr(last, r), r, j);
      if j >= r { ShrBit(last, r, j - r); }
    }
  }

  /** Byte k of a source that is continued with zeroes. */
  function Padded(src: seq<Byte>, k: nat): Byte
  {
    if k < |src| then src[k] else 0
  }

  lemma PaddedBit(src: seq<Byte>, i: nat)
    ensures Bit(Padded(src, i / 8), i % 8) <==> i < 8 * |src| && BitAt(src, i)
  {
    hide Bit;
    ZeroBit(i % 8);
  }

  lemma FastWrite(b0: seq<Byte>, b: seq<Byte>, src: seq<Byte>, p: nat, bits: nat)
    requires 8 * p + bits <= 8 * |b0| && bits > 0 && |b| == |b0|
    requires var n := BytesFor(bits);
      forall k :: 0 <= k < |b| ==>
        b[k] == if k < p || p + n <= k then b0[k]
                else if k == p + n - 1 then Tail(Padded(src, k - p), b0[k], bits) else Padded(src, k - p)
    ensures Copied(b0, b, 8 * p, bits, src, 0, 8 * |src|)
  {
    hide Bit, Tail, Padded;
    var n := BytesFor(bits);
    forall i | 0 <= i < 8 * |b|
      ensures BitAt(b, i) <==> if 8 * p <= i < 8 * p + bits then i - 8 * p < 8 * |src| && BitAt(src, i - 8 * p)
        else BitAt(b0, i)
    {
      var k, j := i / 8, i % 8;
      if p <= k < p + n {
        assert (i - 8 * p) / 8 == k - p && (i - 8 * p) % 8 == j;
        PaddedBit(src, i - 8 * p);
        if k == p + n - 1 { TailBit(Padded(src, k - p), b0[k], bits, j); }
      }
    }
  }

  // ---- the accessors ---------------------------------------------------------------------------

  /** uacpi_read_buffer_field. */
  method Read(f: Field, dst: array<Byte>)
    requires Sound(f) && dst != f.backing && BytesFor(f.bitLength) <= dst.Length
    modifies dst
    ensures Copied(old(dst[..]), dst[..], 0, 8 * BytesFor(f.bitLength), f.backing[..], f.bitIndex, f.bitLength)
  {
    hide Copied, And, Mask;
    var count := BytesFor(f.bitLength);
    if f.bitIndex % 8 == 0 {
      ghost var d0 := dst[..];
      var p := f.bitIndex / 8;
      forall k | 0 <= k < count {
        dst[k] := f.backing[p + k];
      }
      if f.bitLength % 8 != 0 {
        dst[count - 1] := And(dst[count - 1], Mask(f.bitLength % 8));
      }
      FastRead(d0, dst[..], f.backing[..], p, f.bitLength);
    } else {
      BitCopy(dst, 0, 8 * count, f.backing[..], f.bitIndex, f.bitLength);
    }
  }

  /** uacpi_write_buffer_field. */
  method Write(f: Field, src: seq<Byte>)
    requires Sound(f)
    modifies f.backing
    ensures Copied(old(f.backing[..]), f.backing[..], f.bitIndex, f.bitLength, src, 0, 8 * |src|)
  {
    hide Copied, Or, Shl, Shr;
    if f.bitIndex % 8 == 0 {
      ghost var b0 := f.backing[..];
      var p, count, tail := f.bitIndex / 8, BytesFor(f.bitLength), f.bitLength % 8;
      var dst := f.backing;
      var lastByte := dst[p + count - 1];
      forall k | 0 <= k < count {
        dst[p + k] := Padded(src, k);
      }
      if tail != 0 {
        var lastShift := 8 - tail;
        dst[p + count - 1] := Shl(dst[p + count - 1], lastShift);
        dst[p + count - 1] := Shr(dst[p + count - 1], lastShift);
        dst[p + count - 1] := Or(dst[p + count - 1], Shl(Shr(lastByte, tail), tail));
      }
      FastWrite(b0, dst[..], src, p, f.bitLength);
    } else {
      BitCopy(f.backing, f.bitIndex, f.bitLength, src, 0, 8 * |src|);
    }
  }

  // ---- what reads and writes promise each other ------------------------------------------------

  /** The specification leaves one outcome, so the byte-wise and the bit-wise path agree. */
  lemma OneOutcome(d0: seq<Byte>, d: seq<Byte>, d': seq<Byte>, to: nat, length: nat, src: seq<Byte>, from: nat,
                   avail: nat)
    requires to + length <= 8 * |d0| && from + avail <= 8 * |src|
    requires Copied(d0, d, to, length, src, from, avail) && Copied(d0, d', to, length, src, from, avail)
    ensures d == d'
  {
    EqualBits(d, d');
  }

  lemma EqualBits(a: seq<Byte>, b: seq<Byte>)
    requires |a| == |b| && forall i :: 0 <= i < 8 * |a| ==> (BitAt(a, i) <==> BitAt(b, i))
    ensures a == b
  {
    hide Bit;
    forall k | 0 <= k < |a|
      ensures a[k] == b[k]
    {
      forall j | 0 <= j < 8
        ensures Bit(a[k], j) <==> Bit(b[k], j)
      {
        BitPosition(k, j);
        assert BitAt(a, 8 * k + j) <==> BitAt(b, 8 * k + j);
      }
      SameBits(a[k], b[k]);
    }
  }

  /** Write, then read: the value comes back, cut or zero-extended to the field. */
  lemma WriteThenRead(b0: seq<Byte>, b: seq<Byte>, index: nat, bits: nat, src: seq<Byte>, d0: seq<Byte>, d: seq<Byte>)
    requires index + bits <= 8 * |b0| && bits > 0 && BytesFor(bits) <= |d0|
    requires Copied(b0, b, index, bits, src, 0, 8 * |src|)
    requires Copied(d0, d, 0, 8 * BytesFor(bits), b, index, bits)
    ensures forall i :: 0 <= i < 8 * BytesFor(bits) ==> (BitAt(d, i) <==> i < bits && i < 8 * |src| && BitAt(src, i))
  {
    hide BitAt;
    forall i | 0 <= i < 8 * BytesFor(bits)
      ensures BitAt(d, i) <==> i < bits && i < 8 * |src| && BitAt(src, i)
    {
      if i < bits {
        assert BitAt(b, index + i) <==> i < 8 * |src| && BitAt(src, index + i - index + 0);
      }
    }
  }

  /** A write does not change what any disjoint field of the buffer reads as. */
  lemma DisjointRead(b0: seq<Byte>, b: seq<Byte>, index: nat, bits: nat, src: seq<Byte>,
                     index2: nat, bits2: nat, d0: seq<Byte>, before: seq<Byte>, after: seq<Byte>)
    requires index + bits <= 8 * |b0| && index2 + bits2 <= 8 * |b0| && bits2 > 0 && BytesFor(bits2) <= |d0|
    requires index + bits <= index2 || index2 + bits2 <= index
    requires Copied(b0, b, index, bits, src, 0, 8 * |src|)
    requires Copied(d0, before, 0, 8 * BytesFor(bits2), b0, index2, bits2)
    requires Copied(d0, after, 0, 8 * BytesFor(bits2), b, index2, bits2)
    ensures after == before
  {
    hide BitAt;
    forall i | 0 <= i < 8 * |after|
      ensures BitAt(after, i) <==> BitAt(before, i)
    {
      if i < bits2 {
        assert BitAt(b, index2 + i) <==> BitAt(b0, index2 + i);
      }
    }
    EqualBits(after, before);
  }
}
