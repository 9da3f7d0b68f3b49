/**
  Field units (acpi/uacpi/source/io.c): a field unit is a span of bits of an operation
  region that is read and written in accesses of a fixed width.  The region is modelled as
  memory: an access reads or writes `width` bytes at a byte offset and fails beyond the end.
 */
module FieldUnit {
  import opened Bits
  import opened BitSpan
  import opened BufferField
  import Basics
  import Words

  datatype Rule = Preserve | WriteAsOnes | WriteAsZeroes

  /** byteOffset is that of the first access; bitOffset is counted from there. */
  datatype Unit = Unit(byteOffset: nat, bitOffset: nat, bitLength: nat, width: nat, rule: Rule)

  predicate Proper(f: Unit)
  {
    f.width in {1, 2, 4, 8} && f.bitOffset < 8 * f.width
  }

  /** The first bit of the field in the region. */
  function Start(f: Unit): nat
  {
    8 * f.byteOffset + f.bitOffset
  }

  /** The number of accesses that cover bits [0, x) of a row of accesses of w bits. */
  function Accesses(x: nat, w: nat): nat
    requires w > 0
  {
    (x + w - 1) / w
  }

  /** One access covers w more bits. */
  lemma AccessesStep(x: nat, w: nat)
    requires w in {8, 16, 32, 64}
    ensures x == 0 ==> Accesses(x, w) == 0
    ensures x > 0 ==> Accesses(x, w) == 1 + Accesses(if x > w then x - w else 0, w)
  {
    if w == 8 {
    } else if w == 16 {
    } else if w == 32 {
    } else {
      assert w == 64;
    }
  }

  /** One past the last byte the accesses of f touch. */
  function End(f: Unit): nat
    requires Proper(f)
  {
    f.byteOffset + Basics.Times(Accesses(f.bitOffset + f.bitLength, 8 * f.width), f.width)
  }

  // ---- one access ------------------------------------------------------------------------------

  /** The low bytes of out are those of r at offset. */
  ghost predicate Shows(out: seq<Byte>, r: seq<Byte>, offset: nat, width: nat)
    requires offset + width <= |r| && width <= |out|
  {
    forall j :: 0 <= j < 8 * width ==> (BitAt(out, j) <==> BitAt(r, 8 * offset + j))
  }

  /** access_field_unit for a read: the low bytes come from the region, the rest is zero. */
  method AccessRead(region: array<Byte>, offset: nat, width: nat) returns (ok: bool, out: seq<Byte>)
    requires width in {1, 2, 4, 8}
    ensures ok <==> offset + width <= region.Length
    ensures |out| == 8 && (ok ==> Shows(out, region[..], offset, width))
  {
    hide Bit;
    ok := offset + width <= region.Length;
    out := [0, 0, 0, 0, 0, 0, 0, 0];
    if ok {
      out := region[offset..offset + width] + seq(8 - width, _ => 0);
      ShiftedBits(region[..], offset, width, out);
    }
  }

  lemma ShiftedBits(r: seq<Byte>, offset: nat, width: nat, out: seq<Byte>)
    requires offset + width <= |r| && width <= |out| && out[..width] == r[offset..offset + width]
    ensures Shows(out, r, offset, width)
  {
    hide Bit;
    forall j | 0 <= j < 8 * width
      ensures BitAt(out, j) <==> BitAt(r, 8 * offset + j)
    {
      assert (8 * offset + j) / 8 == offset + j / 8 && (8 * offset + j) % 8 == j % 8;
      assert out[..width][j / 8] == r[offset..offset + width][j / 8];
    }
  }

  /** access_field_unit for a write. */
  method AccessWrite(region: array<Byte>, offset: nat, width: nat, data: array<Byte>) returns (ok: bool)
    requires width in {1, 2, 4, 8} && data.Length == 8 && data != region
    modifies region
    ensures ok <==> offset + width <= region.Length
    ensures !ok ==> region[..] == old(region[..])
    ensures ok ==> region[..] == old(region[..])[..offset] + data[..width] + old(region[..])[offset + width..]
  {
    ok := offset + width <= region.Length;
    if ok {
      forall k | 0 <= k < width {
        region[offset + k] := data[k];
      }
    }
  }

  // ---- reading ---------------------------------------------------------------------------------

  /** The n bits of out from index on are those of r from `at` on. */
  ghost predicate Continues(out: seq<Byte>, r: seq<Byte>, index: nat, n: nat, at: nat)
    requires index + n <= 8 * |out| && at + n <= 8 * |r|
  {
    forall j :: index <= j < index + n ==> (BitAt(out, j) <==> BitAt(r, at + j - index))
  }

  /** One access more: the next bits of the field are in place, zeroes behind them. */
  lemma ReadTurn(d0: seq<Byte>, d: seq<Byte>, d': seq<Byte>, r: seq<Byte>, from: nat, c: nat,
                 out: seq<Byte>, index: nat, n: nat)
    requires |d| == |d0| && from + c + n <= 8 * |r| && index + n <= 8 * |out|
    requires c > 0 ==> Copied(d0, d, 0, 8 * |d0|, r, from, c)
    requires Continues(out, r, index, n, from + c)
    requires var to := Least(c, 8 * |d|); Copied(d, d', to, 8 * |d| - to, out, index, n)
    ensures Copied(d0, d', 0, 8 * |d0|, r, from, c + n)
  {
    hide BitAt;
    var to := Least(c, 8 * |d|);
    forall i | 0 <= i < 8 * |d'|
      ensures BitAt(d', i) <==> i < c + n && BitAt(r, from + i)
    {
      if i < to {
        assert BitAt(d', i) <==> BitAt(d, i);
      } else if i - to < n {
        assert BitAt(out, index + i - to) <==> BitAt(r, from + c + (index + i - to) - index);
      }
    }
  }

  /** The bits of one access that belong to the field. */
  lemma AccessBits(out: seq<Byte>, r: seq<Byte>, offset: nat, width: nat, index: nat, n: nat, at: nat)
    requires index + n <= 8 * width && offset + width <= |r| && width <= |out| && at == 8 * offset + index
    requires Shows(out, r, offset, width)
    ensures Continues(out, r, index, n, at)
  {
    hide BitAt;
    forall j | index <= j < index + n
      ensures BitAt(out, j) <==> BitAt(r, at + j - index)
    {
      assert at + j - index == 8 * offset + j;
    }
  }

  // ---- walking along the accesses --------------------------------------------------------------

  /** c bits of the field are behind, `left` before; the next access is at byteOffset, the
      field goes on at bit `index` of it, and `n` accesses are still to come. */
  ghost predicate Along(f: Unit, byteOffset: nat, index: nat, c: nat, left: nat, n: nat)
    requires Proper(f)
  {
    && c + left == f.bitLength && index < 8 * f.width
    && n == Accesses(index + left, 8 * f.width) && byteOffset + Basics.Times(n, f.width) == End(f)
    && (n > 0 ==> 8 * byteOffset + index == Start(f) + c)
  }

  lemma AlongStart(f: Unit)
    requires Proper(f)
    ensures Along(f, f.byteOffset, f.bitOffset, 0, f.bitLength, Accesses(f.bitOffset + f.bitLength, 8 * f.width))
    ensures f.bitOffset + f.bitLength > 0 ==> Accesses(f.bitOffset + f.bitLength, 8 * f.width) > 0
  {
    AccessesStep(f.bitOffset + f.bitLength, 8 * f.width);
  }

  lemma AlongStep(f: Unit, byteOffset: nat, index: nat, c: nat, left: nat, n: nat)
    requires Proper(f) && Along(f, byteOffset, index, c, left, n) && n > 0
    ensures var k := Least(left, 8 * f.width - index);
      && Along(f, byteOffset + f.width, 0, c + k, left - k, n - 1)
      && byteOffset + f.width <= End(f) && Start(f) + c == 8 * byteOffset + index && index + k <= 8 * f.width
      && (n > 1 ==> k == 8 * f.width - index) && (left > 0 ==> k > 0)
  {
    hide Accesses, Basics.Times;
    var w, k := 8 * f.width, Least(left, 8 * f.width - index);
    AccessesStep(index + left, w);
    AccessesStep(left - k, w);
    Basics.TimesStep(n, f.width);
  }

  lemma AlongDone(f: Unit, byteOffset: nat, index: nat, c: nat, left: nat, n: nat)
    requires Proper(f) && Along(f, byteOffset, index, c, left, n)
    ensures left > 0 ==> n > 0
    ensures n == 0 ==> left == 0 && byteOffset == End(f)
    ensures left == 0 && index == 0 ==> n == 0
    ensures c + left == f.bitLength
  {
    hide Accesses, Basics.Times;
    AccessesStep(index + left, 8 * f.width);
    Basics.TimesStep(n, f.width);
  }

  /** do_read_misaligned_field_unit. */
  method ReadMisaligned(f: Unit, region: array<Byte>, dst: array<Byte>) returns (ok: bool)
    requires Proper(f) && region != dst && f.bitOffset + f.bitLength > 0
    modifies dst
    ensures ok <==> End(f) <= region.Length
    ensures ok ==> Start(f) + f.bitLength <= 8 * region.Length
    ensures ok ==> Copied(old(dst[..]), dst[..], 0, 8 * dst.Length, region[..], Start(f), f.bitLength)
  {
    hide Copied, BitAt, Accesses, Along, End, Start, Shows, Continues;
    ghost var d0, r := dst[..], region[..];
    var w := 8 * f.width;
    var byteOffset: nat, bitsLeft: nat, index: nat := f.byteOffset, f.bitLength, f.bitOffset;
    var to: nat, room: nat := 0, 8 * dst.Length;
    ghost var c: nat, any := 0, false;
    var readsToDo: nat := Accesses(f.bitOffset + f.bitLength, w);
    AlongStart(f);
    while readsToDo > 0
      invariant region[..] == r && Along(f, byteOffset, index, c, bitsLeft, readsToDo) && (c > 0 ==> any)
        && (!any ==> readsToDo > 0)
      invariant to == Least(c, 8 * dst.Length) && to + room == 8 * dst.Length
      invariant any ==>
        byteOffset <= region.Length && Start(f) + c <= 8 * region.Length
        && Copied(d0, dst[..], 0, 8 * dst.Length, r, Start(f), c)
    {
      AlongStep(f, byteOffset, index, c, bitsLeft, readsToDo);
      var n := Least(bitsLeft, w - index);
      var out;
      ok, out := AccessRead(region, byteOffset, f.width);
      if !ok {
        return;
      }
      AccessBits(out, r, byteOffset, f.width, index, n, Start(f) + c);
      ghost var d := dst[..];
      BitCopy(dst, to, room, out, index, n);
      ReadTurn(d0, d, dst[..], r, Start(f), c, out, index, n);
      any, c := true, c + n;
      bitsLeft, index := bitsLeft - n, 0;
      var delta := Least(room, n);
      to, room := to + delta, room - delta;
      byteOffset := byteOffset + f.width;
      readsToDo := readsToDo - 1;
    }
    AlongDone(f, byteOffset, index, c, bitsLeft, readsToDo);
    ok := true;
  }

  /** One access serves fields that start at the access and fit into it. */
  predicate Simple(f: Unit)
  {
    f.bitOffset == 0 && BytesFor(f.bitLength) <= f.width
  }

  lemma SimpleEnd(f: Unit)
    requires Proper(f) && Simple(f)
    ensures f.bitLength > 0 ==> End(f) == f.byteOffset + f.width
    ensures Start(f) == 8 * f.byteOffset && f.bitLength <= 8 * f.width
  {
    AccessesStep(f.bitLength, 8 * f.width);
  }

  lemma SimpleRead(f: Unit, d0: seq<Byte>, d: seq<Byte>, out: seq<Byte>, r: seq<Byte>)
    requires Proper(f) && Simple(f) && f.byteOffset + f.width <= |r| && |out| == 8 && |d| == |d0|
    requires Shows(out, r, f.byteOffset, f.width)
    requires var n := BytesFor(f.bitLength);
      forall k :: 0 <= k < |d| ==>
        d[k] == if k >= n then 0 else if k == n - 1 then Cut(out[k], f.bitLength) else out[k]
    ensures Start(f) + f.bitLength <= 8 * |r| && Copied(d0, d, 0, 8 * |d0|, r, Start(f), f.bitLength)
  {
    hide Bit, Cut, Accesses;
    var n := BytesFor(f.bitLength);
    SimpleEnd(f);
    forall i | 0 <= i < 8 * |d|
      ensures BitAt(d, i) <==> i < f.bitLength && BitAt(r, Start(f) + i)
    {
      var k, j := i / 8, i % 8;
      if k < n {
        assert BitAt(out, i) <==> BitAt(r, 8 * f.byteOffset + i);
        CutBit(out[k], f.bitLength, j);
      } else {
        ZeroBit(j);
      }
    }
  }

  /** uacpi_read_field_unit: the field's bits, then zeroes, cut to the size of dst. */
  method Read(f: Unit, region: array<Byte>, dst: array<Byte>) returns (ok: bool)
    requires Proper(f) && region != dst
    modifies dst
    ensures ok <==> (if f.bitOffset + f.bitLength > 0 then End(f) else f.byteOffset + f.width) <= region.Length
    ensures ok ==> Start(f) + f.bitLength <= 8 * region.Length
    ensures ok ==> Copied(old(dst[..]), dst[..], 0, 8 * dst.Length, region[..], Start(f), f.bitLength)
  {
    hide Copied, BitAt, End, Start, Shows, And, Mask;
    var n := BytesFor(f.bitLength);
    if f.bitOffset == 0 && n <= f.width {
      SimpleEnd(f);
      ghost var d0, r := dst[..], region[..];
      var out;
      ok, out := AccessRead(region, f.byteOffset, f.width);
      if !ok {
        return;
      }
      forall k | 0 <= k < dst.Length {
        dst[k] := if k < n then out[k] else 0;
      }
      if dst.Length >= n && f.bitLength % 8 != 0 {
        dst[n - 1] := And(dst[n - 1], Mask(f.bitLength % 8));
      }
      assert region[..] == r;
      SimpleRead(f, d0, dst[..], out, r);
    } else {
      ok := ReadMisaligned(f, region, dst);
    }
  }

  // ---- writing ---------------------------------------------------------------------------------

  /** What becomes of a bit beside the field in an access that the field covers in part. */
  predicate Beside(rule: Rule, was: bool)
  {
    match rule
    case Preserve => was
    case WriteAsOnes => true
    case WriteAsZeroes => false
  }

  /** r is r0 with c bits of the field written and all accesses up to byte `end` made. */
  ghost predicate Written(r0: seq<Byte>, r: seq<Byte>, f: Unit, src: seq<Byte>, c: nat, end: nat)
  {
    && |r| == |r0|
    && forall i {:trigger BitAt(r, i)} :: 0 <= i < 8 * |r| ==>
      (BitAt(r, i) <==>
        if Start(f) <= i < Start(f) + c then i - Start(f) < 8 * |src| && BitAt(src, i - Start(f))
        else if 8 * f.byteOffset <= i < 8 * end then Beside(f.rule, BitAt(r0, i))
        else BitAt(r0, i))
  }

  /** The data of an access before the field's bits are put in. */
  ghost predicate Prepared(data: seq<Byte>, r: seq<Byte>, f: Unit, offset: nat, index: nat, n: nat)
    requires Proper(f) && |data| == 8 && offset + f.width <= |r|
  {
    forall j :: 0 <= j < 8 * f.width && !(index <= j < index + n) ==>
      (BitAt(data, j) <==> Beside(f.rule, BitAt(r, 8 * offset + j)))
  }

  lemma SplicedBit(r: seq<Byte>, data: seq<Byte>, offset: nat, width: nat, i: nat)
    requires width <= |data| && offset + width <= |r| && i < 8 * |r|
    ensures var r' := r[..offset] + data[..width] + r[offset + width..];
      && |r'| == |r|
      && (BitAt(r', i) <==>
        if 8 * offset <= i < 8 * offset + 8 * width then BitAt(data, i - 8 * offset) else BitAt(r, i))
  {
    hide Bit;
    var r' := r[..offset] + data[..width] + r[offset + width..];
    if 8 * offset <= i < 8 * offset + 8 * width {
      assert (i - 8 * offset) / 8 == i / 8 - offset && (i - 8 * offset) % 8 == i % 8;
      assert r'[i / 8] == data[i / 8 - offset];
    } else {
      assert r'[i / 8] == r[i / 8];
    }
  }

  /** One access more. */
  lemma WriteTurn(r0: seq<Byte>, r: seq<Byte>, r': seq<Byte>, f: Unit, src: seq<Byte>, c: nat, offset: nat,
                  index: nat, n: nat, data0: seq<Byte>, data: seq<Byte>)
    requires Proper(f) && |data0| == 8 && offset + f.width <= |r| && Written(r0, r, f, src, c, offset)
    requires 8 * offset + index == Start(f) + c && index + n <= 8 * f.width && f.byteOffset <= offset
      && (c > 0 ==> index == 0)
    requires Prepared(data0, r, f, offset, index, n)
    requires var from := Least(c, 8 * |src|); Copied(data0, data, index, n, src, from, 8 * |src| - from)
    requires r' == r[..offset] + data[..f.width] + r[offset + f.width..]
    ensures Written(r0, r', f, src, c + n, offset + f.width)
  {
    hide BitAt;
    forall i | 0 <= i < 8 * |r|
      ensures |r'| == |r|
      ensures BitAt(r', i) <==>
        if Start(f) <= i < Start(f) + c + n then i - Start(f) < 8 * |src| && BitAt(src, i - Start(f))
        else if 8 * f.byteOffset <= i < 8 * (offset + f.width) then Beside(f.rule, BitAt(r0, i))
        else BitAt(r0, i)
    {
      SplicedBit(r, data, offset, f.width, i);
      if 8 * offset <= i < 8 * offset + 8 * f.width {
        var j := i - 8 * offset;
        assert 8 * offset + j == i;
        assert BitAt(data, j) <==> if index <= j < index + n then
            j - index < 8 * |src| - Least(c, 8 * |src|) && BitAt(src, Least(c, 8 * |src|) + j - index)
          else BitAt(data0, j);
      }
    }
    assert |r'| == |r|;
  }

  lemma WrittenNone(r: seq<Byte>, f: Unit, src: seq<Byte>)
    ensures Written(r, r, f, src, 0, f.byteOffset)
  {
  }

  lemma AllOnes(data: seq<Byte>, j: nat)
    requires |data| == 8 && (forall k :: 0 <= k < 8 ==> data[k] == 255) && j < 64
    ensures BitAt(data, j)
  {
    MaskBit(8, j % 8);
  }

  lemma AllZeroes(data: seq<Byte>, j: nat)
    requires |data| == 8 && (forall k :: 0 <= k < 8 ==> data[k] == 0) && j < 64
    ensures !BitAt(data, j)
  {
    ZeroBit(j % 8);
  }

  /** The data an access starts from: for an access that the field covers in part, what the
      update rule asks for. */
  method Prepare(f: Unit, region: array<Byte>, offset: nat, index: nat, n: nat, data: array<Byte>) returns (ok: bool)
    requires Proper(f) && data != region && data.Length == 8 && index + n <= 8 * f.width
    modifies data
    ensures offset + f.width <= region.Length ==> ok && Prepared(data[..], region[..], f, offset, index, n)
    ensures !ok ==> offset + f.width > region.Length
  {
    hide BitAt, Shows;
    forall k | 0 <= k < 8 {
      data[k] := 0;
    }
    ok := true;
    if index != 0 || n < 8 * f.width {
      match f.rule
      case Preserve =>
        var was;
        ghost var r := region[..];
        ok, was := AccessRead(region, offset, f.width);
        forall k | 0 <= k < 8 {
          data[k] := was[k];
        }
        assert data[..] == was && region[..] == r;
        if ok { ShownPrepared(data[..], r, f, offset, index, n); }
      case WriteAsOnes =>
        forall k | 0 <= k < 8 {
          data[k] := 255;
        }
        forall j | 0 <= j < 8 * f.width ensures BitAt(data[..], j) { AllOnes(data[..], j); }
      case WriteAsZeroes =>
        forall j | 0 <= j < 8 * f.width ensures !BitAt(data[..], j) { AllZeroes(data[..], j); }
    }
  }

  lemma ShownPrepared(data: seq<Byte>, r: seq<Byte>, f: Unit, offset: nat, index: nat, n: nat)
    requires Proper(f) && f.rule == Preserve && |data| == 8 && offset + f.width <= |r|
      && Shows(data, r, offset, f.width)
    ensures Prepared(data, r, f, offset, index, n)
  {
    hide BitAt;
  }

  /** How far a write can come that fails: whole accesses up to `end`, the first one out of
      bounds, which hold c bits of the field. */
  predicate Failed(f: Unit, length: nat, c: nat, end: nat)
    requires Proper(f)
  {
    && f.byteOffset <= end && (end - f.byteOffset) % f.width == 0
    && length < end + f.width && (end > f.byteOffset ==> end <= length)
    && c == (if end == f.byteOffset then 0 else 8 * (end - f.byteOffset) - f.bitOffset) && c < f.bitLength
  }

  lemma FailedHere(f: Unit, length: nat, byteOffset: nat, index: nat, c: nat)
    requires Proper(f) && c < f.bitLength && f.byteOffset <= byteOffset && byteOffset + f.width > length
    requires (c == 0 <==> byteOffset == f.byteOffset) && index == (if c == 0 then f.bitOffset else 0)
    requires (byteOffset - f.byteOffset) % f.width == 0 && (c > 0 ==> byteOffset <= length)
    requires Start(f) + c == 8 * byteOffset + index
    ensures Failed(f, length, c, byteOffset)
  {
  }

  lemma OneAccess(x: nat, width: nat)
    requires width in {1, 2, 4, 8} && x % width == 0
    ensures (x + width) % width == 0
  {
  }

  /** write_generic_field_unit.  An access out of bounds ends the write; c and end say how
      far it came. */
  method Write(f: Unit, region: array<Byte>, src: seq<Byte>) returns (ok: bool, ghost c: nat, ghost end: nat)
    requires Proper(f)
    modifies region
    ensures ok <==> f.bitLength == 0 || End(f) <= region.Length
    ensures Written(old(region[..]), region[..], f, src, c, end)
    ensures ok ==> c == f.bitLength && end == if c == 0 then f.byteOffset else End(f)
    ensures !ok ==> Failed(f, region.Length, c, end)
    ensures c == 0 ==> region[..] == old(region[..])
  {
    hide Copied, BitAt, Along, End, Start, Prepared, Written, Accesses, Failed;
    ghost var r0 := region[..];
    var w := 8 * f.width;
    var byteOffset: nat, bitsLeft: nat, index: nat := f.byteOffset, f.bitLength, f.bitOffset;
    var from: nat, avail: nat := 0, 8 * |src|;
    ghost var n: nat := Accesses(f.bitOffset + f.bitLength, w);
    AlongStart(f);
    WrittenNone(r0, f, src);
    c, end := 0, f.byteOffset;
    while bitsLeft > 0
      invariant Along(f, byteOffset, index, c, bitsLeft, n) && (c > 0 ==> index == 0 && byteOffset <= region.Length)
        && end == byteOffset
      invariant (c == 0 <==> byteOffset == f.byteOffset) && index == (if c == 0 then f.bitOffset else 0)
      invariant (byteOffset - f.byteOffset) % f.width == 0
      invariant Written(r0, region[..], f, src, c, byteOffset) && f.byteOffset <= byteOffset
        && (c == 0 ==> region[..] == r0)
      invariant from == Least(c, 8 * |src|) && from + avail == 8 * |src|
    {
      AlongDone(f, byteOffset, index, c, bitsLeft, n);
      AlongStep(f, byteOffset, index, c, bitsLeft, n);
      var k := Least(w - index, bitsLeft);
      var data := new Byte[8];
      if byteOffset + f.width > region.Length { FailedHere(f, region.Length, byteOffset, index, c); }
      ok := Prepare(f, region, byteOffset, index, k, data);
      if !ok {
        return;
      }
      ghost var data0, r := data[..], region[..];
      BitCopy(data, index, k, src, from, avail);
      var delta := Least(avail, k);
      ok := AccessWrite(region, byteOffset, f.width, data);
      if !ok {
        return;
      }
      WriteTurn(r0, r, region[..], f, src, c, byteOffset, index, k, data0, data[..]);
      from, avail := from + delta, avail - delta;
      c, n, bitsLeft, index := c + k, n - 1, bitsLeft - k, 0;
      OneAccess(byteOffset - f.byteOffset, f.width);
      byteOffset := byteOffset + f.width;
      end := byteOffset;
    }
    AlongDone(f, byteOffset, index, c, bitsLeft, n);
    ok := true;
  }

  // ---- what reads and writes promise each other ------------------------------------------------

  /** Write, then read: the value comes back, cut or zero-extended to the field. */
  lemma UnitWriteThenRead(r0: seq<Byte>, r: seq<Byte>, f: Unit, src: seq<Byte>, end: nat, d0: seq<Byte>, d: seq<Byte>)
    requires Start(f) + f.bitLength <= 8 * |r| && Written(r0, r, f, src, f.bitLength, end)
    requires Copied(d0, d, 0, 8 * |d0|, r, Start(f), f.bitLength)
    ensures forall i :: 0 <= i < 8 * |d| ==> (BitAt(d, i) <==> i < f.bitLength && i < 8 * |src| && BitAt(src, i))
  {
    hide BitAt, Start;
    forall i | 0 <= i < 8 * |d|
      ensures BitAt(d, i) <==> i < f.bitLength && i < 8 * |src| && BitAt(src, i)
    {
      if i < f.bitLength {
        assert BitAt(r, Start(f) + i) <==> i < 8 * |src| && BitAt(src, Start(f) + i - Start(f));
      }
    }
  }

  /** With the PRESERVE rule no bit outside the field changes, so no disjoint unit reads
      differently afterwards. */
  lemma PreserveKeepsOthers(r0: seq<Byte>, r: seq<Byte>, f: Unit, src: seq<Byte>, c: nat, end: nat,
                            g: Unit, d0: seq<Byte>, before: seq<Byte>, after: seq<Byte>)
    requires f.rule == Preserve && c <= f.bitLength && Written(r0, r, f, src, c, end)
    requires Start(g) + g.bitLength <= 8 * |r|
    requires Start(g) + g.bitLength <= Start(f) || Start(f) + f.bitLength <= Start(g)
    requires Copied(d0, before, 0, 8 * |d0|, r0, Start(g), g.bitLength)
    requires Copied(d0, after, 0, 8 * |d0|, r, Start(g), g.bitLength)
    ensures after == before
    ensures forall i :: 0 <= i < 8 * |r| && !(Start(f) <= i < Start(f) + f.bitLength) ==>
      (BitAt(r, i) <==> BitAt(r0, i))
  {
    hide BitAt, Start;
    forall i | 0 <= i < 8 * |after|
      ensures BitAt(after, i) <==> BitAt(before, i)
    {
      if i < g.bitLength {
        assert BitAt(r, Start(g) + i) <==> BitAt(r0, Start(g) + i);
      }
    }
    EqualBits(after, before);
  }

  /** Whatever the rule, and whether the write fails or not, a bit beside the field changes only
      if its access also holds a bit of the field, and then to what the rule says. */
  lemma BesideOnly(r0: seq<Byte>, r: seq<Byte>, f: Unit, src: seq<Byte>, c: nat, end: nat, i: nat) returns (j: nat)
    requires Proper(f) && f.bitLength > 0 && i < 8 * |r| && Written(r0, r, f, src, c, end)
    requires (c == f.bitLength && end == End(f)) || Failed(f, |r|, c, end)
    requires !(Start(f) <= i < Start(f) + f.bitLength) && BitAt(r, i) != BitAt(r0, i)
    ensures Start(f) <= j < Start(f) + f.bitLength && i >= 8 * f.byteOffset
    ensures (j - 8 * f.byteOffset) / (8 * f.width) == (i - 8 * f.byteOffset) / (8 * f.width)
    ensures f.rule != Preserve && (BitAt(r, i) <==> f.rule == WriteAsOnes)
  {
    hide BitAt, Accesses, Basics.Times;
    j := if i < Start(f) then Start(f) else Start(f) + f.bitLength - 1;
    if c == f.bitLength {
      SameAccess(f, i, j);
    } else {
      Words.ModUnique(i - 8 * f.byteOffset, 8 * f.width, 0, i - 8 * f.byteOffset);
      Words.ModUnique(f.bitOffset, 8 * f.width, 0, f.bitOffset);
    }
  }

  lemma SameAccess(f: Unit, i: nat, j: nat)
    requires Proper(f) && f.bitLength > 0 && 8 * f.byteOffset <= i < 8 * End(f)
    requires (i < Start(f) && j == Start(f)) || (i >= Start(f) + f.bitLength && j == Start(f) + f.bitLength - 1)
    ensures (j - 8 * f.byteOffset) / (8 * f.width) == (i - 8 * f.byteOffset) / (8 * f.width)
  {
    hide Accesses;
    var n := f.bitOffset + f.bitLength;
    assert 8 * Basics.Times(Accesses(n, 8 * f.width), f.width) == Basics.Times(Accesses(n, 8 * f.width), 8 * f.width);
    SameRow(i - 8 * f.byteOffset, j - 8 * f.byteOffset, f.bitOffset, n, 8 * f.width);
  }

  lemma SameRow(x: nat, y: nat, off: nat, n: nat, w: nat)
    requires w in {8, 16, 32, 64} && off < w && off < n && x < Basics.Times(Accesses(n, w), w)
    requires (x < off && y == off) || (x >= n && y == n - 1)
    ensures x / w == y / w
  {
    if x < off {
      Words.ModUnique(x, w, 0, x);
      Words.ModUnique(off, w, 0, off);
    } else {
      var q, r := (n + w - 1) / w, (n + w - 1) % w;
      assert n + w - 1 == w * q + r;
      assert w * q == w * (q - 1) + w;
      Words.ModUnique(x, w, q - 1, x - w * (q - 1));
      Words.ModUnique(n - 1, w, q - 1, r);
    }
  }
}
