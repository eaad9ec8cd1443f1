/** The padding of NIP-44 plaintexts (`Ho`, `nc`, `rc`), on the bytes of the text. */
module Nip44Padding {
  import opened Arithmetic
  import opened ByteStrings
  import opened Outcomes
  import opened PositionalNotation
  import opened PowersOfTwo

  const MAX_SHORT: nat := 0xffff
  const MAX_SIZE: nat := 0xffff_ffff

  // ------------------------------------------------------------------ the padded size

  function FloorLog2(x: nat): nat
    requires x > 0
  {
    if x == 1 then 0 else 1 + FloorLog2(x / 2)
  }

  lemma {:induction false} FloorLog2Bounds(x: nat)
    requires x > 0
    ensures Pow2(FloorLog2(x)) <= x < 2 * Pow2(FloorLog2(x))
  {
    if x > 1 {
      FloorLog2Bounds(x / 2);
    }
  }

  /** The granularity: an eighth of the power of two above the size, but no less than 32. */
  function Chunk(n: nat): nat
    requires n > 1
  {
    var e := Pow2(FloorLog2(n - 1) + 1);
    if e <= 256 then 32 else e / 8
  }

  function RoundUp(n: nat, chunk: nat): nat
    requires n > 0 && chunk > 0
  {
    MulMonotone(0, (n - 1) / chunk + 1, chunk);
    chunk * ((n - 1) / chunk + 1)
  }

  lemma ChunkIsPositive(n: nat)
    requires n > 1
    ensures Chunk(n) > 0
  {
  }

  /** `Ho` */
  function PaddedSize(n: nat): nat
    requires n > 0
  {
    if n <= 32 then 32
    else
      ChunkIsPositive(n);
      RoundUp(n, Chunk(n))
  }

  lemma RoundUpBounds(n: nat, chunk: nat)
    requires n > 0 && chunk > 0
    ensures n <= RoundUp(n, chunk) < n + chunk
    ensures exists q: nat :: q > 0 && RoundUp(n, chunk) == Times(q, chunk) && Times(q - 1, chunk) < n
  {
    var q := (n - 1) / chunk + 1;
    DivMod(n - 1, chunk);
    MulDistributes(chunk, q - 1, 1);
    assert RoundUp(n, chunk) == Times(q, chunk) && Times(q - 1, chunk) < n;
  }

  function Times(q: int, chunk: int): int {
    q * chunk
  }

  /** Rounding up gives the least multiple that is large enough. */
  lemma RoundUpLeast(n: nat, chunk: nat, q: nat)
    requires n > 0 && chunk > 0 && n <= Times(q, chunk)
    ensures RoundUp(n, chunk) <= Times(q, chunk)
  {
    hide RoundUp, Times;
    RoundUpBounds(n, chunk);
    var r: nat :| r > 0 && RoundUp(n, chunk) == Times(r, chunk) && Times(r - 1, chunk) < n;
    TimesOrder(r - 1, q, chunk);
    TimesOrder(q, r - 1, chunk);
    TimesOrder(r, q, chunk);
  }

  lemma TimesOrder(x: int, y: int, chunk: nat)
    ensures x <= y ==> Times(x, chunk) <= Times(y, chunk)
  {
    if x <= y {
      MulMonotone(x, y, chunk);
    }
  }

  /** Powers of two from 32 on are multiples of 32. */
  lemma PowersAbove(k: nat)
    requires k >= 5
    ensures Pow2(k) == 32 * Pow2(k - 5)
  {
    Pow2Add(5, k - 5);
  }

  /** In which power of two a size lies, and what its granularity is. */
  lemma Scale(n: nat) returns (k: nat)
    requires n > 32
    ensures k >= 5 && k == FloorLog2(n - 1) && Pow2(k) < n <= 2 * Pow2(k)
    ensures k < 8 ==> Chunk(n) == 32 && Pow2(k) >= 32
    ensures k >= 8 ==> Chunk(n) == Pow2(k - 2)
    ensures Pow2(k) % Chunk(n) == 0 && Pow2(k) == Times(Pow2(k) / Chunk(n), Chunk(n))
  {
    k := FloorLog2(n - 1);
    FloorLog2Bounds(n - 1);
    if k < 5 {
      Pow2Monotone(k, 4);
    }
    PowersAbove(k);
    assert Pow2(k + 1) == 2 * Pow2(k) && Pow2(7) == 128 && Pow2(8) == 256;
    if k >= 8 {
      Pow2Monotone(8, k);
      assert Pow2(k) == 4 * Pow2(k - 2) by {
        assert Pow2(k) == 2 * Pow2(k - 1) && Pow2(k - 1) == 2 * Pow2(k - 2);
      }
      DivModUnique(Pow2(k), Pow2(k - 2), 4, 0);
    } else {
      Pow2Monotone(k, 7);
      DivModUnique(Pow2(k), 32, Pow2(k - 5), 0);
    }
  }

  /** The padded size does not leave the power of two. */
  lemma StaysInScale(n: nat, k: nat)
    requires n > 32 && k == FloorLog2(n - 1)
    ensures Pow2(k) < PaddedSize(n) <= 2 * Pow2(k)
    ensures n <= PaddedSize(n)
  {
    hide Chunk, RoundUp, Pow2, FloorLog2;
    var k' := Scale(n);
    ChunkIsPositive(n);
    RoundUpBounds(n, Chunk(n));
    var q := Pow2(k) / Chunk(n);
    assert Times(2 * q, Chunk(n)) == 2 * Pow2(k) by {
      MulAssociates(2, q, Chunk(n));
    }
    RoundUpLeast(n, Chunk(n), 2 * q);
  }

  lemma SameScale(a: nat, b: nat, k: nat)
    requires a > 0 && b > 0 && Pow2(k) <= a < 2 * Pow2(k) && Pow2(k) <= b < 2 * Pow2(k)
    ensures FloorLog2(a) == FloorLog2(b) == k
  {
    LogUnique(a, k);
    LogUnique(b, k);
  }

  lemma PowersApart(k: nat, l: nat)
    ensures k < l ==> 2 * Pow2(k) <= Pow2(l)
  {
    if k < l {
      Pow2Monotone(k + 1, l);
    }
  }

  lemma LogUnique(a: nat, k: nat)
    requires a > 0 && Pow2(k) <= a < 2 * Pow2(k)
    ensures FloorLog2(a) == k
  {
    FloorLog2Bounds(a);
    PowersApart(FloorLog2(a), k);
    PowersApart(k, FloorLog2(a));
  }

  /** The padded size holds the text and is a multiple of 32. */
  lemma PaddedSizeFits(n: nat)
    requires n > 0
    ensures n <= PaddedSize(n) && PaddedSize(n) % 32 == 0 && PaddedSize(n) >= 32
  {
    if n > 32 {
      hide Chunk, RoundUp, Pow2, FloorLog2;
      var k := Scale(n);
      ChunkIsPositive(n);
      StaysInScale(n, k);
      RoundUpBounds(n, Chunk(n));
      var q: nat :| q > 0 && RoundUp(n, Chunk(n)) == Times(q, Chunk(n)) && Times(q - 1, Chunk(n)) < n;
      if k >= 8 {
        LargeChunk(k);
        MulAssociates(q, Pow2(k - 2) / 32, 32);
        DivModUnique(PaddedSize(n), 32, q * (Pow2(k - 2) / 32), 0);
      } else {
        DivModUnique(PaddedSize(n), 32, q, 0);
      }
    }
  }

  lemma LargeChunk(k: nat)
    requires k >= 8
    ensures Pow2(k - 2) == Pow2(k - 2) / 32 * 32
  {
    PowersAbove(k - 2);
    DivModUnique(Pow2(k - 2), 32, Pow2(k - 7), 0);
  }

  /** A padded size is left as it is. */
  lemma PaddedSizeIdempotent(n: nat)
    requires n > 0
    ensures PaddedSize(n) > 0 && PaddedSize(PaddedSize(n)) == PaddedSize(n)
  {
    if n > 32 {
      hide Chunk, RoundUp, Pow2, FloorLog2;
      var p := PaddedSize(n);
      var k := Scale(n);
      StaysInScale(n, k);
      SameScale(n - 1, p - 1, k);
      var k' := Scale(p);
      ChunkIsPositive(n);
      RoundUpBounds(n, Chunk(n));
      var q: nat :| q > 0 && p == Times(q, Chunk(n)) && Times(q - 1, Chunk(n)) < n;
      assert Chunk(p) == Chunk(n);
      RoundUpLeast(p, Chunk(p), q);
      RoundUpBounds(p, Chunk(p));
    }
  }

  lemma PaddedSizeMonotone(m: nat, n: nat)
    requires 0 < m <= n
    ensures PaddedSize(m) <= PaddedSize(n)
  {
    PaddedSizeFits(n);
    if m > 32 {
      hide Chunk, RoundUp, Pow2, FloorLog2;
      var k := Scale(m);
      var l := Scale(n);
      StaysInScale(m, k);
      StaysInScale(n, l);
      if k == l {
        ChunkIsPositive(n);
        RoundUpBounds(n, Chunk(n));
        var q: nat :| q > 0 && PaddedSize(n) == Times(q, Chunk(n)) && Times(q - 1, Chunk(n)) < n;
        assert Chunk(m) == Chunk(n);
        RoundUpLeast(m, Chunk(m), q);
      }
      PowersApart(k, l);
      PowersApart(l, k);
    }
  }

  /** Above 256 bytes less than a quarter is added. */
  lemma PaddingIsCheap(n: nat)
    requires n > 256
    ensures 4 * (PaddedSize(n) - n) < n - 1
  {
    hide Chunk, RoundUp, Pow2, FloorLog2;
    var k := Scale(n);
    PowersApart(k, 8);
    EightBits();
    RoundUpBounds(n, Chunk(n));
    TwoBitsLess(k);
  }

  /** Up to 32 bytes take up 32, and up to 256 the next multiple of 32. */
  lemma SmallSizes(n: nat)
    requires 0 < n <= 256
    ensures PaddedSize(n) % 32 == 0 && n <= PaddedSize(n) < n + 32
  {
    PaddedSizeFits(n);
    if n > 32 {
      hide Chunk, RoundUp, Pow2, FloorLog2;
      var k := Scale(n);
      PowersApart(8, k);
      EightBits();
      ChunkIsPositive(n);
      RoundUpBounds(n, Chunk(n));
    }
  }

  /** Above, between two powers of two, the size is the next multiple of a quarter of the lower one. */
  lemma LargeSizes(n: nat, k: nat)
    requires k >= 8 && Pow2(k) < n <= 2 * Pow2(k)
    ensures Pow2(k - 2) > 0 && PaddedSize(n) % Pow2(k - 2) == 0 && n <= PaddedSize(n) < n + Pow2(k - 2)
  {
    hide Chunk, RoundUp, Pow2, FloorLog2;
    Pow2Monotone(8, k);
    EightBits();
    var l := Scale(n);
    PowersApart(k, l);
    PowersApart(l, k);
    ChunkIsPositive(n);
    RoundUpBounds(n, Chunk(n));
    var q: nat :| q > 0 && PaddedSize(n) == Times(q, Chunk(n)) && Times(q - 1, Chunk(n)) < n;
    DivModUnique(PaddedSize(n), Pow2(k - 2), q, 0);
  }

  lemma TwoBitsLess(k: nat)
    requires k >= 2
    ensures Pow2(k) == 4 * Pow2(k - 2)
  {
    assert Pow2(k) == 2 * Pow2(k - 1);
  }

  // ------------------------------------------------------------------ padding

  /** The length prefix: two bytes, or two zero bytes and four more for the long form. */
  function Prefix(n: nat): (p: Bytes) {
    if n > MAX_SHORT then ZeroBytes(2) + BigEndian(n, 4) else BigEndian(n, 2)
  }

  predicate ValidSize(n: nat) {
    1 <= n <= MAX_SIZE
  }

  /** `nc`, without the text encoding */
  function Pad(m: Bytes): Result<Bytes> {
    if !ValidSize(|m|) then Thrown
    else
      PaddedSizeFits(|m|);
      Ok(Prefix(|m|) + m + ZeroBytes(PaddedSize(|m|) - |m|))
  }

  /**
   What padding writes: the length in two bytes, or above 65535 two zero bytes and the length in four, most
   significant byte first; then the text; then zeros.
   */
  lemma PaddingLayout(m: Bytes)
    requires 1 <= |m| <= 0xffff_ffff
    ensures Pad(m).Ok?
    ensures var t, start := Pad(m).value, if |m| <= 65535 then 2 else 6;
            && |t| == start + PaddedSize(|m|) && |m| <= PaddedSize(|m|)
            && (if |m| <= 65535 then Read(t[..2]) == |m| else t[..2] == [0, 0] && Read(t[2..6]) == |m|)
            && t[start..start + |m|] == m && (forall i | start + |m| <= i < |t| :: t[i] == 0)
  {
    hide BigEndian, Read, PaddedSize, Pow2;
    var n, p, t := |m|, Prefix(|m|), Pad(m).value;
    WordSizes();
    PaddedSizeFits(n);
    AllZero(PaddedSize(n) - n);
    assert t[..|p|] == p;
    if n > 65535 {
      ReadOfBigEndian(n, 4);
      assert t[2..6] == BigEndian(n, 4);
    } else {
      ReadOfBigEndian(n, 2);
    }
  }

  /** `subarray`, which stops at the end of the bytes. */
  function Slice(t: Bytes, from: nat, to: nat): Bytes
    requires from <= to
  {
    if from >= |t| then [] else if to > |t| then t[from..] else t[from..to]
  }

  /** `rc`, without the text decoding; reading past the end throws. */
  function Unpad(t: Bytes): Result<Bytes> {
    if |t| < 2 then Thrown
    else if Read(t[..2]) == 0 then
      if |t| < 6 || Read(t[2..6]) <= MAX_SHORT then Thrown
      else UnpadAt(t, 6, Read(t[2..6]))
    else UnpadAt(t, 2, Read(t[..2]))
  }

  function UnpadAt(t: Bytes, start: nat, n: nat): Result<Bytes> {
    var m := Slice(t, start, start + n);
    if !ValidSize(n) || |m| != n || |t| != start + PaddedSize(n) then Thrown else Ok(m)
  }

  /** `t` is a length prefix, the text, and as many further bytes as the padded size demands. */
  ghost predicate IsPadded(t: Bytes, m: Bytes) {
    && ValidSize(|m|)
    && Prefix(|m|) + m <= t
    && |t| == |Prefix(|m|)| + PaddedSize(|m|)
  }

  lemma {:induction false} ReadZeros()
    ensures Read(ZeroBytes(2)) == 0
  {
    ValAppend([], 0, 8);
    ValAppend([0], 0, 8);
    assert [] + [0] == [0] && [0] + [0] == ZeroBytes(2);
    assert Val([], 8) == 0;
  }

  lemma ZerosRead(b: Bytes)
    requires |b| == 2 && Read(b) == 0
    ensures b == ZeroBytes(2)
  {
    BigEndianOfRead(b);
    ReadZeros();
    BigEndianOfRead(ZeroBytes(2));
  }

  lemma UnpadSound(t: Bytes, start: nat, n: nat, m: Bytes)
    requires UnpadAt(t, start, n) == Ok(m) && start <= |t| && t[..start] == Prefix(n)
    ensures IsPadded(t, m)
  {
    PaddedSizeFits(n);
    assert t[start..start + n] == m;
    assert t == t[..start] + m + t[start + n..];
  }

  /**
   Removing the padding accepts exactly the padded forms. The bytes behind the text are counted but
   not looked at.
   */
  lemma UnpadAccepts(t: Bytes, m: Bytes)
    ensures Unpad(t) == Ok(m) <==> IsPadded(t, m)
  {
    hide BigEndian, Read, PaddedSize;
    if Unpad(t) == Ok(m) {
      AcceptedIsPadded(t, m);
    }
    if IsPadded(t, m) {
      PaddedIsAccepted(t, m);
    }
  }

  lemma AcceptedIsPadded(t: Bytes, m: Bytes)
    requires Unpad(t) == Ok(m)
    ensures IsPadded(t, m)
  {
    hide BigEndian, Read, IsPadded, UnpadAt, PaddedSize, ZeroBytes;
    BigEndianOfRead(t[..2]);
    if Read(t[..2]) == 0 {
      ZerosRead(t[..2]);
      BigEndianOfRead(t[2..6]);
      assert t[..6] == t[..2] + t[2..6];
      UnpadSound(t, 6, Read(t[2..6]), m);
    } else {
      ReadBelow(t[..2]);
      WordSizes();
      UnpadSound(t, 2, Read(t[..2]), m);
    }
  }

  lemma PaddedIsAccepted(t: Bytes, m: Bytes)
    requires IsPadded(t, m)
    ensures Unpad(t) == Ok(m)
  {
    hide BigEndian, Read, PaddedSize, ZeroBytes, Pow2;
    var n, p := |m|, Prefix(|m|);
    WordSizes();
    PaddedSizeFits(n);
    assert t[..|p|] == p && t[|p|..|p| + n] == m;
    if n > MAX_SHORT {
      assert t[..2] == ZeroBytes(2) && t[2..6] == BigEndian(n, 4);
      ReadZeros();
      ReadOfBigEndian(n, 4);
    } else {
      ReadOfBigEndian(n, 2);
    }
  }

  /** What was padded is recovered. */
  lemma UnpadOfPad(m: Bytes)
    requires ValidSize(|m|)
    ensures Pad(m).Ok? && Unpad(Pad(m).value) == Ok(m)
  {
    hide BigEndian, PaddedSize, Unpad;
    PaddedSizeFits(|m|);
    UnpadAccepts(Pad(m).value, m);
  }

  /** Padding again gives the same bytes exactly when the bytes behind the text are zero. */
  lemma PadOfUnpad(t: Bytes, m: Bytes)
    requires Unpad(t) == Ok(m)
    ensures |Prefix(|m|)| + |m| <= |t|
    ensures Pad(m) == Ok(t) <==> forall i | |Prefix(|m|)| + |m| <= i < |t| :: t[i] == 0
  {
    hide BigEndian, PaddedSize, Unpad, ZeroBytes;
    UnpadAccepts(t, m);
    PaddedSizeFits(|m|);
    var head, z := Prefix(|m|) + m, ZeroBytes(PaddedSize(|m|) - |m|);
    AllZero(PaddedSize(|m|) - |m|);
    assert t == head + t[|head|..];
    if Pad(m) == Ok(t) {
      assert t[|head|..] == z;
      forall i | |head| <= i < |t| ensures t[i] == 0 {
        assert t[i] == z[i - |head|];
      }
    }
    if forall i | |head| <= i < |t| :: t[i] == 0 {
      assert t[|head|..] == z;
    }
  }

  /** A text of one byte whose last padding byte is not zero is accepted, but not what padding writes. */
  lemma OtherPaddingAccepted()
    ensures var t := BigEndian(1, 2) + [7] + ZeroBytes(30) + [1];
            Unpad(t) == Ok([7]) && Pad([7]) != Ok(t)
  {
    hide BigEndian, Unpad, PaddedSize;
    var t: Bytes := BigEndian(1, 2) + [7] + ZeroBytes(30) + [1];
    var m: Bytes := [7];
    OneByteTakes();
    assert Prefix(1) == BigEndian(1, 2);
    assert IsPadded(t, m) by {
      assert t[..3] == Prefix(1) + m;
    }
    UnpadAccepts(t, m);
    PadOfUnpad(t, m);
    assert t[33] == 1;
  }

  lemma OneByteTakes()
    ensures PaddedSize(1) == 32
  {
  }

  lemma AllZero(n: nat)
    ensures forall i | 0 <= i < n :: ZeroBytes(n)[i] == 0
  {
  }
}
