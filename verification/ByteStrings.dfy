/** Strings of bytes, and numbers written with them, most significant byte first. */
module ByteStrings {
  import opened Outcomes
  import opened PositionalNotation
  import opened PowersOfTwo

  type Bytes = seq<byte>

  function ZeroBytes(n: nat): (z: Bytes)
    ensures |z| == n
  {
    seq(n, _ => 0)
  }

  lemma EightBits()
    ensures Pow2(8) == 256
  {
  }

  lemma WordSizes()
    ensures Pow2(2 * 8) == 0x1_0000 && Pow2(4 * 8) == 0x1_0000_0000 && Pow2(8 * 8) == 0x1_0000_0000_0000_0000
  {
    hide Pow2;
    EightBits();
    Pow2Add(8, 8);
    Pow2Add(16, 16);
    Pow2Add(32, 32);
  }

  /** The lowest `n` bytes of a number. */
  function BigEndian(v: nat, n: nat): (b: Bytes)
    ensures |b| == n
  {
    ByteRange(Digits(v, 8, n), v, n);
    Digits(v, 8, n)
  }

  lemma ByteRange(d: seq<nat>, v: nat, n: nat)
    requires d == Digits(v, 8, n)
    ensures forall i | 0 <= i < |d| :: d[i] < 256
  {
    EightBits();
    DigitsInRange(v, 8, n);
  }

  /** The number that the bytes stand for. */
  function Read(b: Bytes): nat {
    Val(b, 8)
  }

  lemma ReadOfBigEndian(v: nat, n: nat)
    requires v < Pow2(n * 8)
    ensures Read(BigEndian(v, n)) == v
  {
    ValOfDigits(v, 8, n);
  }

  lemma BigEndianOfRead(b: Bytes)
    ensures BigEndian(Read(b), |b|) == b
  {
    EightBits();
    assert InRange(b, 8);
    DigitsOfVal(b, 8);
  }

  lemma ReadBelow(b: Bytes)
    ensures Read(b) < Pow2(|b| * 8)
  {
    EightBits();
    assert InRange(b, 8);
    ValBelow(b, 8);
  }
}
