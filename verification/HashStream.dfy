/**
 The streaming buffer of the Merkle-Damgard hashes (class `bt`).

 The compression function is a parameter. `Digest` is the one-shot definition of section 6.2.2 of
 FIPS 180-4 over the padded message of section 5.1.1; the class must reach the same state for any
 way of cutting the message into `Update` calls.
 */
module HashStream {
  import opened Arithmetic
  import opened ByteStrings
  import opened Outcomes

  /**
   The parameters a hash hands to the constructor of `bt`, its compression function, the words of a state
   (`get`), and the state that erasing leaves.
   */
  datatype Hash<!S> = Hash(
    blockLen: nat,
    outputLen: nat,
    padOffset: nat,
    isLE: bool,
    initial: S,
    compress: (S, seq<byte>) -> S,
    words: S -> seq<word>,
    erased: S)

  type word = w: int | 0 <= w < 0x1_0000_0000

  /** The length field has 8 of the last padOffset bytes, and it fits in a block. */
  ghost predicate ValidHash<S>(h: Hash<S>) {
    8 <= h.padOffset <= h.blockLen
  }

  /** The state after compressing every whole block of the message, in order. */
  function Absorb<S>(h: Hash<S>, s: S, message: seq<byte>): S
    requires h.blockLen > 0
    decreases |message|
  {
    if |message| < h.blockLen then s
    else Absorb(h, h.compress(s, message[..h.blockLen]), message[h.blockLen..])
  }

  /** The message is a number of whole blocks. */
  ghost predicate Whole(blockLen: nat, message: seq<byte>)
    requires blockLen > 0
    decreases |message|
  {
    message == [] || (|message| >= blockLen && Whole(blockLen, message[blockLen..]))
  }

  lemma {:induction false} WholeLength(blockLen: nat, message: seq<byte>)
    requires blockLen > 0
    ensures Whole(blockLen, message) <==> |message| % blockLen == 0
    decreases |message|
  {
    if 0 < |message| < blockLen {
      DivModUnique(|message|, blockLen, 0, |message|);
    } else if |message| >= blockLen {
      WholeLength(blockLen, message[blockLen..]);
      DivMod(|message|, blockLen);
      MulDistributes(blockLen, |message| / blockLen, -1);
      DivModUnique(|message| - blockLen, blockLen, |message| / blockLen - 1, |message| % blockLen);
    }
  }

  lemma {:induction false} AbsorbConcat<S>(h: Hash<S>, s: S, a: seq<byte>, b: seq<byte>)
    requires h.blockLen > 0 && Whole(h.blockLen, a)
    ensures Absorb(h, s, a + b) == Absorb(h, Absorb(h, s, a), b)
    ensures Whole(h.blockLen, a + b) == Whole(h.blockLen, b)
    decreases |a|
  {
    if a == [] {
      assert a + b == b;
    } else {
      AbsorbConcat(h, h.compress(s, a[..h.blockLen]), a[h.blockLen..], b);
      assert (a + b)[..h.blockLen] == a[..h.blockLen];
      assert (a + b)[h.blockLen..] == a[h.blockLen..] + b;
    }
  }

  lemma BlockAbsorbed<S>(h: Hash<S>, s: S, whole: seq<byte>, block: seq<byte>)
    requires h.blockLen > 0 && Whole(h.blockLen, whole) && |block| == h.blockLen
    ensures Whole(h.blockLen, whole + block)
    ensures Absorb(h, s, whole + block) == h.compress(Absorb(h, s, whole), block)
  {
    AbsorbConcat(h, s, whole, block);
    assert block[..h.blockLen] == block && block[h.blockLen..] == [];
  }

  /** The bit length of the message as the 64-bit field the source writes. */
  function LengthField(length: nat, isLE: bool): (field: seq<byte>)
    ensures |field| == 8
  {
    var big := BigEndian(length * 8 % 0x1_0000_0000_0000_0000, 8);
    if isLE then seq(8, i requires 0 <= i < 8 => big[7 - i]) else big
  }

  /** How many zero bytes the padding needs: the least number that completes a block. */
  function ZeroCount(length: nat, blockLen: nat, padOffset: nat): (zeros: nat)
    requires blockLen > 0
  {
    (0 - (length + 1 + padOffset)) % blockLen
  }

  /** The message, a 1 bit, zeros, and the length, filling whole blocks. */
  function PaddedMessage<S>(h: Hash<S>, message: seq<byte>): seq<byte>
    requires ValidHash(h)
  {
    message + [128] + ZeroBytes(ZeroCount(|message|, h.blockLen, h.padOffset))
    + ZeroBytes(h.padOffset - 8) + LengthField(|message|, h.isLE)
  }

  /** The field is the number of bits, modulo 2^64, in the byte order asked for. */
  lemma LengthIsWritten(length: nat, isLE: bool)
    ensures var f := LengthField(length, isLE);
            Read(if isLE then [f[7], f[6], f[5], f[4], f[3], f[2], f[1], f[0]] else f) == 8 * length % 0x1_0000_0000_0000_0000
  {
    hide BigEndian, Read;
    var v, f := 8 * length % 0x1_0000_0000_0000_0000, LengthField(length, isLE);
    WordSizes();
    ReadOfBigEndian(v, 8);
    assert BigEndian(v, 8) == if isLE then [f[7], f[6], f[5], f[4], f[3], f[2], f[1], f[0]] else f;
  }

  /**
   The padding of section 5.1.1 of FIPS 180-4: behind the message a 1 bit, then zeros, then the number of
   bits of the message; as short as whole blocks and the place kept for the length allow.
   */
  lemma PaddingIs<S>(h: Hash<S>, message: seq<byte>)
    requires ValidHash(h)
    ensures var p, n := PaddedMessage(h, message), |message|;
            && n + 1 + h.padOffset <= |p| < n + 1 + h.padOffset + h.blockLen && |p| % h.blockLen == 0
            && p[..n] == message && p[n] == 0x80 && (forall i | n < i < |p| - 8 :: p[i] == 0)
            && var f := p[|p| - 8..];
               Read(if h.isLE then [f[7], f[6], f[5], f[4], f[3], f[2], f[1], f[0]] else f) == 8 * n % 0x1_0000_0000_0000_0000
  {
    hide LengthField, Read, ZeroCount;
    var zeros, p := ZeroCount(|message|, h.blockLen, h.padOffset), PaddedMessage(h, message);
    ZeroCountLeast(|message|, h.blockLen, h.padOffset);
    ZeroCountBelow(|message|, h.blockLen, h.padOffset);
    LengthIsWritten(|message|, h.isLE);
    assert p == message + [128] + (ZeroBytes(zeros) + ZeroBytes(h.padOffset - 8)) + LengthField(|message|, h.isLE);
    assert p[|p| - 8..] == LengthField(|message|, h.isLE);
  }

  lemma ZeroCountBelow(length: nat, blockLen: nat, padOffset: nat)
    requires blockLen > 0
    ensures ZeroCount(length, blockLen, padOffset) < blockLen
  {
  }

  ghost predicate Completes(zeros: nat, length: nat, blockLen: nat, padOffset: nat)
    requires blockLen > 0
  {
    (length + 1 + padOffset + zeros) % blockLen == 0
  }

  /** The zero bytes complete a block, and no smaller number of them does. */
  lemma ZeroCountLeast(length: nat, blockLen: nat, padOffset: nat)
    requires blockLen > 0
    ensures Completes(ZeroCount(length, blockLen, padOffset), length, blockLen, padOffset)
    ensures forall y: nat :: Completes(y, length, blockLen, padOffset) ==> ZeroCount(length, blockLen, padOffset) <= y
  {
    var t := length + 1 + padOffset;
    NegatedRemainder(t, blockLen);
    forall y: nat | Completes(y, length, blockLen, padOffset) ensures ZeroCount(length, blockLen, padOffset) <= y {
      CompletingIsLarge(t, y, blockLen);
    }
  }

  lemma NegatedRemainder(t: int, m: int)
    requires m > 0
    ensures (t + (0 - t) % m) % m == 0
  {
    DivMod(0 - t, m);
    DivModUnique(t + (0 - t) % m, m, -((0 - t) / m), 0);
  }

  lemma CompletingIsLarge(t: int, y: nat, m: int)
    requires m > 0 && (t + y) % m == 0
    ensures (0 - t) % m <= y
  {
    DivMod(t + y, m);
    DivMod(y, m);
    MulDistributes(m, y / m, -((t + y) / m));
    DivModUnique(0 - t, m, y / m - (t + y) / m, y % m);
    MulMonotone(0, y / m, m);
  }

  /** The one-shot hash: absorb the padded message. */
  function Digest<S>(h: Hash<S>, message: seq<byte>): S
    requires ValidHash(h)
  {
    Absorb(h, h.initial, PaddedMessage(h, message))
  }

  /** A word as `setUint32` writes it. */
  function WordBytes(w: word, isLE: bool): (b: seq<byte>)
    ensures |b| == 4
  {
    var big := BigEndian(w, 4);
    if isLE then [big[3], big[2], big[1], big[0]] else big
  }

  function OutputBytes(words: seq<word>, isLE: bool): (b: seq<byte>)
    ensures |b| == 4 * |words|
  {
    if words == [] then [] else OutputBytes(words[..|words| - 1], isLE) + WordBytes(words[|words| - 1], isLE)
  }

  /** The output is a number of words, and no more than the state has. */
  predicate HasOutput<S>(h: Hash<S>, s: S) {
    h.outputLen % 4 == 0 && h.outputLen / 4 <= |h.words(s)|
  }

  /** What a hash returns for its last state. */
  function OutputOf<S>(h: Hash<S>, s: S): (b: seq<byte>)
    requires HasOutput(h, s)
    ensures |b| == h.outputLen
  {
    OutputBytes(h.words(s)[..h.outputLen / 4], h.isLE)
  }

  lemma WordIsRead(v: word, w: word, isLE: bool)
    requires WordBytes(v, isLE) == WordBytes(w, isLE)
    ensures v == w
  {
    hide BigEndian, Read;
    var a, b := WordBytes(v, isLE), WordBytes(w, isLE);
    assert a[0] == b[0] && a[1] == b[1] && a[2] == b[2] && a[3] == b[3];
    assert BigEndian(v, 4) == BigEndian(w, 4);
    WordSizes();
    ReadOfBigEndian(v, 4);
    ReadOfBigEndian(w, 4);
  }

  /** Four bytes of the output are one word, in the byte order of the hash. */
  lemma {:induction false} OutputIsWritten(words: seq<word>, isLE: bool, i: nat)
    requires i < |words|
    ensures var f := OutputBytes(words, isLE)[4 * i..4 * i + 4];
            Read(if isLE then [f[3], f[2], f[1], f[0]] else f) == words[i]
    decreases |words|
  {
    hide WordBytes, Read;
    var n := |words| - 1;
    var b := OutputBytes(words, isLE);
    if i < n {
      OutputIsWritten(words[..n], isLE, i);
      assert b[4 * i..4 * i + 4] == OutputBytes(words[..n], isLE)[4 * i..4 * i + 4];
    } else {
      assert b[4 * i..4 * i + 4] == WordBytes(words[n], isLE);
      WordIsWritten(words[n], isLE);
    }
  }

  lemma WordIsWritten(w: word, isLE: bool)
    ensures var f := WordBytes(w, isLE);
            Read(if isLE then [f[3], f[2], f[1], f[0]] else f) == w
  {
    hide BigEndian, Read;
    var f := WordBytes(w, isLE);
    WordSizes();
    ReadOfBigEndian(w, 4);
    assert BigEndian(w, 4) == if isLE then [f[3], f[2], f[1], f[0]] else f;
  }

  /** The output tells the words it was written from. */
  lemma {:induction false} OutputTellsWords(v: seq<word>, w: seq<word>, isLE: bool)
    requires OutputBytes(v, isLE) == OutputBytes(w, isLE)
    ensures v == w
    decreases |v|
  {
    hide WordBytes;
    assert |v| == |w|;
    if v != [] {
      var n := |v| - 1;
      var a, b := OutputBytes(v, isLE), OutputBytes(w, isLE);
      assert a[..4 * n] == OutputBytes(v[..n], isLE) && b[..4 * n] == OutputBytes(w[..n], isLE);
      assert a[4 * n..] == WordBytes(v[n], isLE) && b[4 * n..] == WordBytes(w[n], isLE);
      OutputTellsWords(v[..n], w[..n], isLE);
      WordIsRead(v[n], w[n], isLE);
      assert v == v[..n] + [v[n]] && w == w[..n] + [w[n]];
    }
  }

  /** The last loop of `digestInto`, and the two checks in front of it. */
  method WriteWords(out: array<byte>, words: seq<word>, outputLen: nat, isLE: bool) returns (ok: bool)
    requires outputLen <= out.Length
    modifies out
    ensures ok <==> outputLen % 4 == 0 && outputLen / 4 <= |words|
    ensures ok ==> out[..outputLen] == OutputBytes(words[..outputLen / 4], isLE) && out[outputLen..] == old(out[outputLen..])
    ensures !ok ==> out[..] == old(out[..])
  {
    hide WordBytes;
    var f := outputLen / 4;
    if outputLen % 4 != 0 || f > |words| {
      return false;
    }
    ghost var rest := out[outputLen..];
    for d := 0 to f
      invariant out[..4 * d] == OutputBytes(words[..d], isLE) && out[outputLen..] == rest
    {
      var four := WordBytes(words[d], isLE);
      ghost var before := out[..4 * d];
      SetWord(out, 4 * d, four);
      assert words[..d + 1][..d] == words[..d];
      assert out[..4 * (d + 1)] == before + four;
    }
    ok := true;
  }

  method SetWord(out: array<byte>, at: nat, four: seq<byte>)
    requires |four| == 4 && at + 4 <= out.Length
    modifies out
    ensures out[..] == old(out[..at]) + four + old(out[at + 4..])
  {
    out[at], out[at + 1], out[at + 2], out[at + 3] := four[0], four[1], four[2], four[3];
  }

  class Stream<S> {
    const hash: Hash<S>
    const buffer: array<byte>
    var state: S
    var pos: nat
    var length: nat
    var finished: bool
    var destroyed: bool
    ghost var message: seq<byte>  // everything given to Update so far

    /** The buffer holds the tail of the message that does not fill a block yet. */
    ghost predicate Valid()
      reads this, buffer
    {
      && ValidHash(hash) && buffer.Length == hash.blockLen && length == |message|
      && (!finished ==> Holds(message))
    }

    constructor (hash: Hash<S>)
      requires ValidHash(hash)
      ensures Valid() && fresh(buffer) && this.hash == hash
      ensures message == [] && !finished && !destroyed
    {
      this.hash := hash;
      buffer := new byte[hash.blockLen];
      state, pos, length, message := hash.initial, 0, 0, [];
      finished, destroyed := false, false;
      new;
      hide Buffered;
      NothingTaken(hash);
      assert buffer[..0] == [];
    }

    /** The object has taken in exactly these bytes, as far as buffer and state go. */
    ghost predicate Holds(bytes: seq<byte>)
      reads this, buffer
    {
      && buffer.Length == hash.blockLen && pos < hash.blockLen
      && Buffered(hash, bytes, pos, buffer[..pos], state)
    }

    /** Takes in more of the message; throws once the digest was taken. */
    method Update(data: seq<byte>) returns (ok: bool)
      requires Valid()
      modifies this, buffer
      ensures Valid() && finished == old(finished) && destroyed == old(destroyed)
      ensures ok == (!old(destroyed) && !old(finished))
      ensures message == if ok then old(message) + data else old(message)
    {
      hide Buffered;
      if destroyed || finished {
        return false;
      }
      TakeAll(data, message);
      length, message := length + |data|, message + data;
      ok := true;
    }

    /** The loop of `update`. */
    method TakeAll(data: seq<byte>, ghost before: seq<byte>)
      requires Holds(before)
      modifies `pos, `state, buffer
      ensures Holds(before + data)
    {
      hide Buffered;
      var i := 0;
      assert before + data[..0] == before;
      while i < |data|
        invariant 0 <= i <= |data| && Holds(before + data[..i])
      {
        var c := if hash.blockLen - pos <= |data| - i then hash.blockLen - pos else |data| - i;
        if c == hash.blockLen {
          i := TakeBlocks(data, i, before);
        } else {
          assert before + data[..i] + data[i..i + c] == before + data[..i + c];
          TakeChunk(data[i..i + c], before + data[..i]);
          i := i + c;
        }
      }
      assert data[..i] == data;
    }

    /** Compresses blocks straight from the data while whole ones are left. */
    method TakeBlocks(data: seq<byte>, from: nat, ghost before: seq<byte>) returns (i: nat)
      requires from + hash.blockLen <= |data| && pos == 0 && Holds(before + data[..from])
      modifies `state
      ensures from < i <= |data| && Holds(before + data[..i])
    {
      hide Buffered;
      i := from;
      while hash.blockLen <= |data| - i
        invariant from <= i <= |data| && (i == from ==> hash.blockLen <= |data| - i)
        invariant Holds(before + data[..i])
      {
        var block := data[i..i + hash.blockLen];
        ChunkBuffered(hash, before + data[..i], buffer[..pos], state, block);
        assert before + data[..i] + block == before + data[..i + hash.blockLen];
        assert buffer[..pos] + block == block;
        state := hash.compress(state, block);
        i := i + hash.blockLen;
      }
    }

    /** Buffers a chunk, and compresses the buffer when that fills it. */
    method TakeChunk(chunk: seq<byte>, ghost before: seq<byte>)
      requires Holds(before) && pos + |chunk| <= hash.blockLen
      modifies `pos, `state, buffer
      ensures Holds(before + chunk)
    {
      hide Buffered;
      ChunkBuffered(hash, before, buffer[..pos], state, chunk);
      Fill(chunk);
      if pos == hash.blockLen {
        assert buffer[..pos] == buffer[..];
        state := hash.compress(state, buffer[..]);
        pos := 0;
        assert buffer[..pos] == [];
      }
    }

    /** Copies bytes behind those already in the buffer. */
    method Fill(chunk: seq<byte>)
      requires pos + |chunk| <= buffer.Length
      modifies `pos, buffer
      ensures pos == old(pos) + |chunk|
      ensures buffer[..pos] == old(buffer[..pos]) + chunk
    {
      forall k | 0 <= k < |chunk| {
        buffer[pos + k] := chunk[k];
      }
      assert buffer[..pos + |chunk|] == old(buffer[..pos]) + chunk;
      pos := pos + |chunk|;
    }

    /**
     `digestInto`: the words of the state of the one-shot hash, written into the output, which may be the
     buffer of the stream itself. It throws when the digest was taken before or the output is too short,
     and, with the digest taken, when the length is no number of words or more than the state has.
     */
    method DigestInto(out: array<byte>) returns (ok: bool)
      requires Valid()
      modifies this, buffer, out
      ensures Valid() && message == old(message) && destroyed == old(destroyed)
      ensures finished == (old(finished) || (!old(destroyed) && hash.outputLen <= out.Length))
      ensures ok <==> !old(destroyed) && !old(finished) && hash.outputLen <= out.Length && HasOutput(hash, Digest(hash, message))
      ensures ok ==> out[..hash.outputLen] == OutputOf(hash, Digest(hash, message))
      ensures out != buffer ==> out[if ok then hash.outputLen else 0..] == old(out[if ok then hash.outputLen else 0..])
    {
      hide Digest, OutputBytes;
      if destroyed || finished || out.Length < hash.outputLen {
        return false;
      }
      var ended := EndState();
      ok := WriteWords(out, hash.words(ended.value), hash.outputLen, hash.isLE);
    }

    /** `digest`: writes the output over the buffer, returns a copy of it, and erases state and buffer. */
    method TakeDigest() returns (res: Result<seq<byte>>)
      requires Valid()
      modifies this, buffer
      ensures Valid() && message == old(message) && destroyed == old(destroyed)
      ensures finished == (old(finished) || (!old(destroyed) && hash.outputLen <= hash.blockLen))
      ensures res.Ok? <==> !old(destroyed) && !old(finished) && hash.outputLen <= hash.blockLen
                           && HasOutput(hash, Digest(hash, message))
      ensures res.Ok? ==> res.value == OutputOf(hash, Digest(hash, message))
      ensures res.Ok? ==> state == hash.erased && buffer[..] == ZeroBytes(hash.blockLen)
    {
      hide Digest, OutputOf;
      var ok := DigestInto(buffer);
      if !ok {
        return Thrown;
      }
      res := Ok(buffer[..hash.outputLen]);
      Erase();
    }

    /** `destroy`, once the digest was taken. */
    method Erase()
      requires Valid() && finished
      modifies `state, buffer
      ensures Valid() && state == hash.erased && buffer[..] == ZeroBytes(hash.blockLen)
    {
      state := hash.erased;
      ZeroTo(0);
    }

    /**
     `digestInto` up to the state: appends the padding in the buffer, spilling into a second block when
     the length field does not fit behind the 1 bit, and ends in the state of the one-shot hash.
     */
    method EndState() returns (res: Result<S>)
      requires Valid()
      modifies this, buffer
      ensures Valid() && message == old(message) && destroyed == old(destroyed)
      ensures finished == (old(finished) || !old(destroyed))
      ensures res.Ok? <==> !old(destroyed) && !old(finished)
      ensures res.Ok? ==> res.value == Digest(hash, message) == state
    {
      if destroyed || finished {
        return Thrown;
      }
      finished := true;
      PaddingBlocks(hash, message, buffer[..pos], state);
      PadInPlace();
      res := Ok(state);
    }

    /** The buffer work of `digestInto`. */
    method PadInPlace()
      requires Valid() && pos < hash.blockLen && finished
      modifies `state, buffer
      ensures state == PadTail(hash, old(buffer[..pos]), old(state), length)
    {
      hide LengthField, Buffered;
      var i := pos;
      buffer[i] := 128;
      i := i + 1;
      ZeroTo(i);
      assert buffer[..] == FirstBlock(hash, old(buffer[..pos]));
      if hash.padOffset > hash.blockLen - i {
        state := hash.compress(state, buffer[..]);
        ZeroTo(0);
        i := 0;
        assert buffer[..hash.blockLen - 8] == ZeroBytes(hash.blockLen - 8);
      }
      ZeroTo(i);
      WriteLength();
      state := hash.compress(state, buffer[..]);
    }

    /** Clears the buffer from an index on. */
    method ZeroTo(from: nat)
      requires from <= buffer.Length
      modifies buffer
      ensures buffer[..] == old(buffer[..from]) + ZeroBytes(buffer.Length - from)
    {
      forall k | from <= k < buffer.Length {
        buffer[k] := 0;
      }
    }

    /** Writes the length field into the last eight bytes of the buffer. */
    method WriteLength()
      requires Valid()
      modifies buffer
      ensures buffer[..] == old(buffer[..hash.blockLen - 8]) + LengthField(length, hash.isLE)
    {
      var field := LengthField(length, hash.isLE);
      forall k | 0 <= k < 8 {
        buffer[hash.blockLen - 8 + k] := field[k];
      }
    }
  }

  /** What the buffer knows: the whole blocks of the message are absorbed, the rest is the tail. */
  ghost predicate Buffered<S>(h: Hash<S>, message: seq<byte>, pos: nat, tail: seq<byte>, state: S) {
    && h.blockLen > 0 && pos == |tail| <= |message|
    && tail == message[|message| - pos..]
    && Whole(h.blockLen, message[..|message| - pos])
    && state == Absorb(h, h.initial, message[..|message| - pos])
  }

  lemma NothingTaken<S>(h: Hash<S>)
    requires ValidHash(h)
    ensures Buffered(h, [], 0, [], h.initial)
  {
  }

  lemma ChunkBuffered<S>(h: Hash<S>, message: seq<byte>, tail: seq<byte>, state: S, chunk: seq<byte>)
    requires Buffered(h, message, |tail|, tail, state) && |tail| + |chunk| <= h.blockLen
    ensures |tail| + |chunk| < h.blockLen ==>
              Buffered(h, message + chunk, |tail| + |chunk|, tail + chunk, state)
    ensures |tail| + |chunk| == h.blockLen ==>
              Buffered(h, message + chunk, 0, [], h.compress(state, tail + chunk))
  {
    var head := message[..|message| - |tail|];
    var whole := message + chunk;
    assert message == head + tail;
    assert whole == head + (tail + chunk);
    if |tail| + |chunk| < h.blockLen {
      assert whole[..|whole| - |tail + chunk|] == head;
    } else {
      BlockAbsorbed(h, h.initial, head, tail + chunk);
      assert whole[..|whole|] == whole;
    }
  }

  /** The first block of the padding: the tail, the 1 bit, and zeros. */
  function FirstBlock<S>(h: Hash<S>, tail: seq<byte>): (block: seq<byte>)
    requires |tail| < h.blockLen
    ensures |block| == h.blockLen
  {
    tail + [128] + ZeroBytes(h.blockLen - |tail| - 1)
  }

  /** The state the buffer reaches by padding its tail in place. */
  function PadTail<S>(h: Hash<S>, tail: seq<byte>, state: S, length: nat): S
    requires ValidHash(h) && |tail| < h.blockLen
  {
    var first := FirstBlock(h, tail);
    var field := LengthField(length, h.isLE);
    if h.padOffset > h.blockLen - |tail| - 1
    then h.compress(h.compress(state, first), ZeroBytes(h.blockLen - 8) + field)
    else h.compress(state, first[..h.blockLen - 8] + field)
  }

  /** The padded message is the absorbed blocks followed by one block, or by two when it spills. */
  lemma PaddingBlocks<S>(h: Hash<S>, message: seq<byte>, tail: seq<byte>, state: S)
    requires ValidHash(h) && |tail| < h.blockLen && Buffered(h, message, |tail|, tail, state)
    ensures Digest(h, message) == PadTail(h, tail, state, |message|)
  {
    var head := message[..|message| - |tail|];
    PaddingLength(h, message, |tail|);
    if h.padOffset > h.blockLen - |tail| - 1 {
      SpilledPadding(h, message, tail, head);
      BlockAbsorbed(h, h.initial, head, FirstBlock(h, tail));
      BlockAbsorbed(h, h.initial, head + FirstBlock(h, tail), ZeroBytes(h.blockLen - 8) + LengthField(|message|, h.isLE));
    } else {
      SingleBlockPadding(h, message, tail, head);
      BlockAbsorbed(h, h.initial, head, FirstBlock(h, tail)[..h.blockLen - 8] + LengthField(|message|, h.isLE));
    }
  }

  lemma ZerosJoin(a: nat, b: nat)
    ensures ZeroBytes(a) + ZeroBytes(b) == ZeroBytes(a + b)
  {
  }

  lemma Regrouped(head: seq<byte>, tail: seq<byte>, a: seq<byte>, b: seq<byte>, c: seq<byte>, d: seq<byte>, field: seq<byte>)
    requires a + b == c + d
    ensures head + tail + [128] + a + b + field == head + (tail + [128] + c) + (d + field)
  {
    assert head + tail + [128] + a + b + field == head + tail + [128] + (a + b) + field;
  }

  lemma SpilledPadding<S>(h: Hash<S>, message: seq<byte>, tail: seq<byte>, head: seq<byte>)
    requires ValidHash(h) && |tail| < h.blockLen && message == head + tail
    requires ZeroCount(|message|, h.blockLen, h.padOffset) == 2 * h.blockLen - |tail| - 1 - h.padOffset
    ensures PaddedMessage(h, message)
            == head + FirstBlock(h, tail) + (ZeroBytes(h.blockLen - 8) + LengthField(|message|, h.isLE))
  {
    hide ZeroBytes, LengthField, ZeroCount;
    var count, rest := 2 * h.blockLen - |tail| - 1 - h.padOffset, h.blockLen - |tail| - 1;
    ZerosJoin(count, h.padOffset - 8);
    ZerosJoin(rest, h.blockLen - 8);
    Regrouped(head, tail, ZeroBytes(count), ZeroBytes(h.padOffset - 8), ZeroBytes(rest), ZeroBytes(h.blockLen - 8),
              LengthField(|message|, h.isLE));
  }

  lemma FrontOfBlock(tail: seq<byte>, x: seq<byte>, y: seq<byte>)
    ensures (tail + [128] + (x + y))[..|tail| + 1 + |x|] == tail + [128] + x
  {
  }

  lemma SingleBlockPadding<S>(h: Hash<S>, message: seq<byte>, tail: seq<byte>, head: seq<byte>)
    requires ValidHash(h) && |tail| < h.blockLen && message == head + tail
    requires h.padOffset <= h.blockLen - |tail| - 1
    requires ZeroCount(|message|, h.blockLen, h.padOffset) == h.blockLen - |tail| - 1 - h.padOffset
    ensures PaddedMessage(h, message)
            == head + (FirstBlock(h, tail)[..h.blockLen - 8] + LengthField(|message|, h.isLE))
  {
    hide ZeroBytes, LengthField, ZeroCount;
    var count, rest := h.blockLen - |tail| - 1 - h.padOffset, h.blockLen - |tail| - 9;
    ZerosJoin(count, h.padOffset - 8);
    ZerosJoin(rest, 8);
    FrontOfBlock(tail, ZeroBytes(rest), ZeroBytes(8));
    Regrouped(head, tail, ZeroBytes(count), ZeroBytes(h.padOffset - 8), ZeroBytes(rest), [], LengthField(|message|, h.isLE));
    assert [] + LengthField(|message|, h.isLE) == LengthField(|message|, h.isLE);
    assert ZeroBytes(rest) + [] == ZeroBytes(rest);
    var front, field := tail + [128] + ZeroBytes(rest), LengthField(|message|, h.isLE);
    assert head + front + field == head + (front + field);
  }

  /** The zeros of the padding end the first block, or the one after it when the length spills. */
  lemma PaddingLength<S>(h: Hash<S>, message: seq<byte>, pos: nat)
    requires ValidHash(h) && pos < h.blockLen && pos <= |message|
    requires Whole(h.blockLen, message[..|message| - pos])
    ensures ZeroCount(|message|, h.blockLen, h.padOffset)
            == if h.padOffset > h.blockLen - pos - 1 then 2 * h.blockLen - pos - 1 - h.padOffset
               else h.blockLen - pos - 1 - h.padOffset
  {
    var b, n := h.blockLen, |message| - pos;
    WholeLength(b, message[..n]);
    DivMod(n, b);
    var spill := if h.padOffset > b - pos - 1 then 2 else 1;
    MulDistributes(b, n / b, spill);
    DivModUnique(0 - (|message| + 1 + h.padOffset), b, -(n / b + spill), spill * b - pos - 1 - h.padOffset);
  }
}
