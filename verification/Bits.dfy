/**
  Bytes and their bits.  Shift amounts are 0..8, so the byte operations of C are written out
  as tables of constant shifts; the lemmas say what each does to single bits.
 */
module Bits {
  type Byte = bv8

  function One(i: nat): Byte
    requires i < 8
  {
    match i
    case 0 => 1
    case 1 => 2
    case 2 => 4
    case 3 => 8
    case 4 => 16
    case 5 => 32
    case 6 => 64
    case _ => 128
  }

  /** Bit i of b, the least significant first. */
  predicate Bit(b: Byte, i: nat)
    requires i < 8
  {
    b & One(i) != 0
  }

  /** b >> k, for a byte. */
  function Shr(b: Byte, k: nat): Byte
    requires k <= 8
  {
    match k
    case 0 => b
    case 1 => b >> 1
    case 2 => b >> 2
    case 3 => b >> 3
    case 4 => b >> 4
    case 5 => b >> 5
    case 6 => b >> 6
    case 7 => b >> 7
    case _ => 0
  }

  /** b << k, cut to a byte. */
  function Shl(b: Byte, k: nat): Byte
    requires k <= 8
  {
    match k
    case 0 => b
    case 1 => b << 1
    case 2 => b << 2
    case 3 => b << 3
    case 4 => b << 4
    case 5 => b << 5
    case 6 => b << 6
    case 7 => b << 7
    case _ => 0
  }

  /** (1 << k) - 1. */
  function Mask(k: nat): Byte
    requires k <= 8
  {
    match k
    case 0 => 0
    case 1 => 1
    case 2 => 3
    case 3 => 7
    case 4 => 15
    case 5 => 31
    case 6 => 63
    case 7 => 127
    case _ => 255
  }

  function And(a: Byte, b: Byte): Byte { a & b }

  function Or(a: Byte, b: Byte): Byte { a | b }

  function Not(a: Byte): Byte { !a }

  lemma ShrBit(b: Byte, k: nat, i: nat)
    requires k <= 8 && i < 8
    ensures Bit(Shr(b, k), i) <==> i + k < 8 && Bit(b, i + k)
  {
  }

  lemma ShlBit(b: Byte, k: nat, i: nat)
    requires k <= 8 && i < 8
    ensures Bit(Shl(b, k), i) <==> k <= i && Bit(b, i - k)
  {
  }

  lemma MaskBit(k: nat, i: nat)
    requires k <= 8 && i < 8
    ensures Bit(Mask(k), i) <==> i < k
  {
  }

  lemma AndBit(a: Byte, b: Byte, i: nat)
    requires i < 8
    ensures Bit(And(a, b), i) <==> Bit(a, i) && Bit(b, i)
  {
  }

  lemma OrBit(a: Byte, b: Byte, i: nat)
    requires i < 8
    ensures Bit(Or(a, b), i) <==> Bit(a, i) || Bit(b, i)
  {
  }

  lemma NotBit(a: Byte, i: nat)
    requires i < 8
    ensures Bit(Not(a), i) <==> !Bit(a, i)
  {
  }

  lemma SameBits(a: Byte, b: Byte)
    requires forall i :: 0 <= i < 8 ==> (Bit(a, i) <==> Bit(b, i))
    ensures a == b
  {
    assert Bit(a, 0) == Bit(b, 0) && Bit(a, 1) == Bit(b, 1) && Bit(a, 2) == Bit(b, 2) && Bit(a, 3) == Bit(b, 3);
    assert Bit(a, 4) == Bit(b, 4) && Bit(a, 5) == Bit(b, 5) && Bit(a, 6) == Bit(b, 6) && Bit(a, 7) == Bit(b, 7);
  }
}
