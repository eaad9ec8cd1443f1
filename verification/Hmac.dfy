/** Keyed hashing on top of the streaming buffer (class `At`), against the definition in RFC 2104. */
module Hmac {
  import opened ByteStrings
  import opened Outcomes
  import opened HashStream
  import opened Bitwise

  /** The hash has an output for every state, and one that fits into a block. */
  ghost predicate ValidOutput<S(!new)>(h: Hash<S>) {
    ValidHash(h) && h.outputLen <= h.blockLen && forall s :: HasOutput(h, s)
  }

  /** A hash as bytes to bytes. */
  function HashOf<S(!new)>(h: Hash<S>, message: seq<byte>): (b: seq<byte>)
    requires ValidOutput(h)
    ensures |b| == h.outputLen
  {
    OutputOf(h, Digest(h, message))
  }

  /** The key, hashed when it is longer than a block, filled up with zeros to one block. */
  function BlockKey<S(!new)>(h: Hash<S>, key: seq<byte>): (k: seq<byte>)
    requires ValidOutput(h)
    ensures |k| == h.blockLen
  {
    var k := if |key| > h.blockLen then HashOf(h, key) else key;
    k + ZeroBytes(h.blockLen - |k|)
  }

  /** A key of up to one block stands in front of zeros as it is, a longer one as its hash. */
  lemma BlockKeyIs<S(!new)>(h: Hash<S>, key: seq<byte>)
    requires ValidOutput(h)
    ensures var k, n := BlockKey(h, key), if |key| <= h.blockLen then |key| else h.outputLen;
            && n <= |k| && k[..n] == (if |key| <= h.blockLen then key else HashOf(h, key))
            && forall i | n <= i < |k| :: k[i] == 0
  {
    hide HashOf;
  }

  /** Section 2 of RFC 2104: H(K xor opad, H(K xor ipad, text)). */
  function HmacOf<S(!new)>(h: Hash<S>, key: seq<byte>, text: seq<byte>): (mac: seq<byte>)
    requires ValidOutput(h)
    ensures |mac| == h.outputLen
  {
    var k := BlockKey(h, key);
    HashOf(h, XorAll(k, 0x5c) + HashOf(h, XorAll(k, 0x36) + text))
  }

  /** Undoing the inner pad and applying the outer one is the same as 0x6a. */
  lemma PadsDiffer()
    ensures XorBits(0x36, 0x6a, 8) == 0x5c
  {
    assert XorBits(0x0, 0x0, 1) == 0;
    assert XorBits(0x0, 0x0, 2) == 0;
    assert XorBits(0x1, 0x3, 3) == 0x2;
    assert XorBits(0x3, 0x6, 4) == 0x5;
    assert XorBits(0x6, 0xd, 5) == 0xb;
    assert XorBits(0xd, 0x1a, 6) == 0x17;
    assert XorBits(0x1b, 0x35, 7) == 0x2e;
  }

  lemma XorTwice(b: byte)
    ensures XorByte(XorByte(b, 0x36), 0x6a) == XorByte(b, 0x5c)
  {
    var inner, both := 0x36, 0x6a;
    XorBitsAssociates(b, inner, both, 8);
    PadsDiffer();
  }

  lemma XorAllTwice(bytes: seq<byte>)
    ensures XorAll(XorAll(bytes, 0x36), 0x6a) == XorAll(bytes, 0x5c)
  {
    forall i | 0 <= i < |bytes| ensures XorByte(XorByte(bytes[i], 0x36), 0x6a) == XorByte(bytes[i], 0x5c) {
      XorTwice(bytes[i]);
    }
  }

  /** A new stream that took in some bytes. */
  method StreamOf<S>(hash: Hash<S>, bytes: seq<byte>) returns (s: Stream<S>)
    requires ValidHash(hash)
    ensures fresh(s) && fresh(s.buffer) && s.Valid() && s.hash == hash
    ensures s.message == bytes && !s.finished && !s.destroyed
  {
    s := new Stream(hash);
    var ok := s.Update(bytes);
    assert [] + bytes == bytes;
  }

  /** After whole blocks nothing of the message is left in the buffer. */
  lemma NothingBuffered<S>(h: Hash<S>, message: seq<byte>, pos: nat, tail: seq<byte>, state: S)
    requires Buffered(h, message, pos, tail, state) && pos < h.blockLen && |message| == h.blockLen
    ensures pos == 0
  {
    WholeLength(h.blockLen, message[..|message| - pos]);
  }

  class Mac<S(!new)> {
    const inner: Stream<S>
    const outer: Stream<S>
    var finished: bool
    var destroyed: bool
    ghost const key: seq<byte>
    ghost var text: seq<byte>  // everything given to Update so far

    ghost predicate Valid()
      reads this, inner, outer, inner.buffer, outer.buffer
    {
      && inner != outer && inner.buffer != outer.buffer
      && inner.Valid() && outer.Valid() && inner.hash == outer.hash && ValidOutput(inner.hash)
      && !inner.destroyed && !outer.destroyed && inner.finished == outer.finished == finished == destroyed
      && (!finished ==>
            && outer.message == XorAll(BlockKey(inner.hash, key), 0x5c)
            && inner.message == XorAll(BlockKey(inner.hash, key), 0x36) + text)
    }

    constructor (hash: Hash<S>, key: seq<byte>)
      requires ValidOutput(hash)
      ensures Valid() && this.key == key && text == [] && inner.hash == hash && !finished
      ensures fresh(inner) && fresh(outer) && fresh(inner.buffer) && fresh(outer.buffer)
    {
      hide Digest, XorAll;
      var k := key;
      if |key| > hash.blockLen {
        var keyStream := StreamOf(hash, key);
        var digest := keyStream.TakeDigest();
        k := digest.value;
      }
      var pad := k + ZeroBytes(hash.blockLen - |k|);
      assert pad == BlockKey(hash, key);
      XorAllTwice(pad);
      pad := XorAll(pad, 0x36);
      var first := StreamOf(hash, pad);
      pad := XorAll(pad, 0x6a);
      var second := StreamOf(hash, pad);
      this.key, text, finished, destroyed := key, [], false, false;
      inner, outer := first, second;
      new;
      assert first.message == XorAll(BlockKey(hash, key), 0x36) + [];
    }

    method Update(data: seq<byte>) returns (ok: bool)
      requires Valid()
      modifies this, inner, inner.buffer
      ensures Valid() && finished == old(finished)
      ensures ok == !old(finished)
      ensures text == if ok then old(text) + data else old(text)
    {
      hide XorAll, BlockKey, Buffered;
      if destroyed || finished {
        return false;
      }
      ok := inner.Update(data);
      assert old(inner.message) + data == XorAll(BlockKey(inner.hash, key), 0x36) + (text + data);
      text := text + data;
    }

    /**
     `digestInto`: writes the inner hash into the output, feeds that to the outer one, and writes that
     over it; then both streams are erased. It throws, and changes nothing, when the digest was taken
     before and when the output is not exactly as long as the hash. The output may be one of the buffers.
     */
    method DigestInto(out: array<byte>) returns (ok: bool)
      requires Valid()
      modifies this, inner, outer, inner.buffer, outer.buffer, out
      ensures Valid() && finished == (old(finished) || out.Length == inner.hash.outputLen)
      ensures ok <==> !old(finished) && out.Length == inner.hash.outputLen
      ensures ok && out != inner.buffer && out != outer.buffer ==> out[..] == HmacOf(inner.hash, key, old(text))
      ensures ok ==> inner.state == outer.state == inner.hash.erased
      ensures !ok ==> out[..] == old(out[..])
    {
      hide Digest, XorAll, BlockKey, OutputOf, Buffered;
      if destroyed || finished || out.Length != inner.hash.outputLen {
        return false;
      }
      finished := true;
      NothingBuffered(outer.hash, outer.message, outer.pos, outer.buffer[..outer.pos], outer.state);
      ok := inner.DigestInto(out);
      assert outer.buffer[..outer.pos] == [];
      assert out[..] == out[..inner.hash.outputLen];
      ok := outer.Update(out[..]);
      ok := outer.DigestInto(out);
      assert out[..] == out[..inner.hash.outputLen];
      assert out[..] == HmacOf(inner.hash, key, text);
      destroyed := true;
      inner.Erase();
      outer.Erase();
    }

    /** `digest` */
    method TakeDigest() returns (res: Result<seq<byte>>)
      requires Valid()
      modifies this, inner, outer, inner.buffer, outer.buffer
      ensures Valid() && finished
      ensures res == if old(finished) then Thrown else Ok(HmacOf(inner.hash, key, old(text)))
    {
      var out := new byte[inner.hash.outputLen];
      var ok := DigestInto(out);
      res := if ok then Ok(out[..]) else Thrown;
    }
  }

  /** `mr` over a message handed over in pieces: only their concatenation matters. */
  method DigestOfPieces<S>(hash: Hash<S>, pieces: seq<seq<byte>>) returns (res: Result<seq<byte>>)
    requires ValidHash(hash)
    ensures res.Ok? <==> hash.outputLen <= hash.blockLen && HasOutput(hash, Digest(hash, Concatenation(pieces)))
    ensures res.Ok? ==> res.value == OutputOf(hash, Digest(hash, Concatenation(pieces)))
  {
    var stream := new Stream(hash);
    var i := 0;
    while i < |pieces|
      invariant 0 <= i <= |pieces|
      invariant stream.Valid() && stream.hash == hash && fresh(stream) && fresh(stream.buffer)
      invariant !stream.finished && !stream.destroyed
      invariant stream.message == Concatenation(pieces[..i])
    {
      assert pieces[..i + 1][..i] == pieces[..i];
      var ok := stream.Update(pieces[i]);
      i := i + 1;
    }
    assert pieces[..i] == pieces;
    res := stream.TakeDigest();
  }

  function Concatenation(pieces: seq<seq<byte>>): seq<byte> {
    if pieces == [] then [] else Concatenation(pieces[..|pieces| - 1]) + pieces[|pieces| - 1]
  }
}
