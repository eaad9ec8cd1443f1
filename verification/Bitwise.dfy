/** Exclusive or of bytes, bit by bit. */
module Bitwise {
  import opened PowersOfTwo
  import opened Outcomes

  function XorBits(a: nat, b: nat, bits: nat): (r: nat)
    ensures r < Pow2(bits)
  {
    if bits == 0 then 0
    else (a + b) % 2 + 2 * XorBits(a / 2, b / 2, bits - 1)
  }

  /** The bit at a place, counted from the lowest. */
  function Bit(a: nat, i: nat): nat {
    if i == 0 then a % 2 else Bit(a / 2, i - 1)
  }

  /** A bit of the result is set exactly when it is set in one of the two and not in both. */
  lemma {:induction false} XorIsBitwise(a: nat, b: nat, bits: nat, i: nat)
    requires i < bits
    ensures Bit(XorBits(a, b, bits), i) == 1 <==> Bit(a, i) != Bit(b, i)
    decreases i
  {
    if i > 0 {
      XorBitsSplit(a, b, bits);
      XorIsBitwise(a / 2, b / 2, bits - 1, i - 1);
    }
  }

  function XorByte(a: byte, b: byte): byte {
    assert Pow2(8) == 256;
    XorBits(a, b, 8)
  }

  function XorAll(bytes: seq<byte>, pad: byte): (r: seq<byte>)
    ensures |r| == |bytes|
  {
    seq(|bytes|, i requires 0 <= i < |bytes| => XorByte(bytes[i], pad))
  }

  lemma XorBitsSplit(a: nat, b: nat, bits: nat)
    requires bits > 0
    ensures XorBits(a, b, bits) % 2 == (a + b) % 2
    ensures XorBits(a, b, bits) / 2 == XorBits(a / 2, b / 2, bits - 1)
  {
  }

  lemma ParityAssociates(a: nat, b: nat, c: nat, ab: nat, bc: nat)
    requires ab % 2 == (a + b) % 2 && bc % 2 == (b + c) % 2
    ensures (ab + c) % 2 == (a + bc) % 2
  {
  }

  lemma {:induction false} XorBitsAssociates(a: nat, b: nat, c: nat, bits: nat)
    ensures XorBits(XorBits(a, b, bits), c, bits) == XorBits(a, XorBits(b, c, bits), bits)
  {
    if bits == 0 {
    } else {
      var ab, bc := XorBits(a, b, bits), XorBits(b, c, bits);
      XorBitsSplit(a, b, bits);
      XorBitsSplit(b, c, bits);
      ParityAssociates(a, b, c, ab, bc);
      XorBitsAssociates(a / 2, b / 2, c / 2, bits - 1);
    }
  }

  lemma ParityCancels(a: nat, b: nat, ab: nat)
    requires ab % 2 == (a + b) % 2
    ensures (ab + b) % 2 == a % 2
  {
  }

  lemma {:induction false} XorBitsCancels(a: nat, b: nat, bits: nat)
    requires a < Pow2(bits)
    ensures XorBits(XorBits(a, b, bits), b, bits) == a
  {
    if bits == 0 {
    } else {
      var ab := XorBits(a, b, bits);
      XorBitsSplit(a, b, bits);
      ParityCancels(a, b, ab);
      XorBitsCancels(a / 2, b / 2, bits - 1);
    }
  }

  /** The same byte twice leaves the other one: why a keystream decrypts itself. */
  lemma XorByteCancels(a: byte, b: byte)
    ensures XorByte(XorByte(a, b), b) == a
  {
    assert Pow2(8) == 256;
    XorBitsCancels(a, b, 8);
  }
}
