/**
 NIP-44 payloads (`Po`, `sc`, `oc`, `Uo`): padding, encryption, authentication and base64 together. The
 key derivation, the key stream and the authentication code are functions nothing is known about but
 the lengths of their results.
 */
module Nip44 {
  import opened Base64
  import opened Bitwise
  import opened ByteStrings
  import opened Nip44Padding
  import opened Outcomes
  import opened PositionalNotation
  import opened PowersOfTwo

  datatype Keys = Keys(cipher: Bytes, cipherNonce: Bytes, mac: Bytes)

  datatype Primitives = Primitives(
    derive: (Bytes, Bytes) -> Keys,
    stream: (Bytes, Bytes, nat) -> Bytes,
    mac: (Bytes, Bytes) -> Bytes)

  ghost predicate WellSized(p: Primitives) {
    && (forall k, n, size :: |p.stream(k, n, size)| == size)
    && (forall k, m :: |p.mac(k, m)| == 32)
  }

  function XorBytes(a: Bytes, b: Bytes): (r: Bytes)
    requires |a| == |b|
    ensures |r| == |a|
  {
    seq(|a|, i requires 0 <= i < |a| => XorByte(a[i], b[i]))
  }

  lemma XorBytesTwice(a: Bytes, b: Bytes)
    requires |a| == |b|
    ensures XorBytes(XorBytes(a, b), b) == a
  {
    forall i | 0 <= i < |a| ensures XorBytes(XorBytes(a, b), b)[i] == a[i] {
      XorByteCancels(a[i], b[i]);
    }
  }

  /** `kt`: adds the key stream, which both encrypts and decrypts. */
  function Cipher(p: Primitives, keys: Keys, data: Bytes): (r: Bytes)
    requires WellSized(p)
    ensures |r| == |data|
  {
    XorBytes(data, p.stream(keys.cipher, keys.cipherNonce, |data|))
  }

  lemma CipherTwice(p: Primitives, keys: Keys, data: Bytes)
    requires WellSized(p)
    ensures Cipher(p, keys, Cipher(p, keys, data)) == data
  {
    XorBytesTwice(data, p.stream(keys.cipher, keys.cipherNonce, |data|));
  }

  /** `Po`: the code of the ciphertext with its nonce in front; throws unless the nonce has 32 bytes. */
  function MacWithNonce(p: Primitives, key: Bytes, message: Bytes, nonce: Bytes): Result<Bytes> {
    if |nonce| != 32 then Thrown else Ok(p.mac(key, nonce + message))
  }

  /** The bytes of a payload that carries the given padded text. */
  function Frame(p: Primitives, key: Bytes, nonce: Bytes, padded: Bytes): (f: Bytes)
    requires WellSized(p)
    ensures |f| == 65 + |padded| - 32 + |nonce|
  {
    var keys := p.derive(key, nonce);
    var c := Cipher(p, keys, padded);
    [2] + nonce + c + p.mac(keys.mac, nonce + c)
  }

  /**
   The bytes of a payload (NIP-44, version 2): the version, the nonce, the padded text under the key stream
   of the first two derived keys, and the code of nonce and ciphertext under the third.
   */
  lemma PayloadLayout(p: Primitives, key: Bytes, nonce: Bytes, padded: Bytes)
    requires WellSized(p) && |nonce| == 32
    ensures var f, keys, n := Frame(p, key, nonce, padded), p.derive(key, nonce), |padded|;
            && |f| == 1 + 32 + n + 32 && f[0] == 2 && f[1..33] == nonce
            && |p.stream(keys.cipher, keys.cipherNonce, n)| == n
            && (forall i | 0 <= i < n :: f[33 + i] == XorByte(padded[i], p.stream(keys.cipher, keys.cipherNonce, n)[i]))
            && f[33 + n..] == p.mac(keys.mac, f[1..33 + n])
  {
    hide XorByte;
    var f, keys := Frame(p, key, nonce, padded), p.derive(key, nonce);
    var c := Cipher(p, keys, padded);
    assert f[1..33 + |padded|] == nonce + c;
    assert f[33..33 + |padded|] == c;
    forall i | 0 <= i < |padded| ensures f[33 + i] == c[i] {
      assert f[33..33 + |padded|][i] == c[i];
    }
  }

  lemma BytesInRange(b: Bytes)
    ensures InRange(b, 8)
  {
    EightBits();
  }

  function AsBytes(b: seq<nat>): (r: Bytes)
    requires InRange(b, 8)
    ensures r == b
  {
    EightBits();
    b
  }

  /** `t` is the text of a payload for `key`, and the text in it is `m`. */
  ghost predicate Carries(p: Primitives, key: Bytes, t: string, nonce: Bytes, padded: Bytes, m: Bytes)
    requires WellSized(p)
  {
    |nonce| == 32 && IsPadded(padded, m) && Text(Frame(p, key, nonce, padded)) == Ok(t)
  }

  /** Every payload is long enough for the checks on its length and starts with a letter. */
  lemma PayloadShape(p: Primitives, key: Bytes, t: string, nonce: Bytes, padded: Bytes, m: Bytes)
    requires WellSized(p) && Carries(p, key, t, nonce, padded, m)
    ensures |Frame(p, key, nonce, padded)| >= 99 && |t| >= 132 && t[0] != '#'
  {
    hide Text, InRange, Frame, PaddedSize, BigEndian;
    var f := Frame(p, key, nonce, padded);
    BytesInRange(f);
    PaddedSizeFits(|m|);
    TextLength(f);
    TextStarts(f);
    NoHashSign();
  }

  /** `sc`: throws exactly for a text of no bytes or over 2^32-1, or for a nonce that is not 32 bytes long. */
  method Encrypt(p: Primitives, m: Bytes, key: Bytes, nonce: Bytes) returns (res: Result<string>)
    requires WellSized(p)
    ensures res.Ok? <==> ValidSize(|m|) && |nonce| == 32
    ensures res.Ok? ==> Pad(m).Ok? && Carries(p, key, res.value, nonce, Pad(m).value, m)
  {
    hide Text, InRange, PaddedSize, BigEndian, WellSized, XorBytes, IsPadded;
    var keys := p.derive(key, nonce);
    var padded := Pad(m);
    if padded.Thrown? {
      return Thrown;
    }
    UnpadOfPad(m);
    UnpadAccepts(padded.value, m);
    var c := Cipher(p, keys, padded.value);
    var mac := MacWithNonce(p, keys.mac, c, nonce);
    if mac.Thrown? {
      return Thrown;
    }
    BytesInRange([2] + nonce + c + mac.value);
    res := Base64.Encode([2] + nonce + c + mac.value);
  }

  /** `oc`: takes a payload apart, without looking at the code. */
  method Dismantle(t: string) returns (res: Result<(Bytes, Bytes, Bytes)>)
    ensures res.Ok? ==> var (nonce, c, mac) := res.value;
                        |nonce| == 32 && |mac| == 32 && Text([2] + nonce + c + mac) == Ok(t)
    ensures forall nonce, c, mac :: IsDismantled(t, nonce, c, mac) ==> res == Ok((nonce, c, mac))
  {
    hide Text, InRange;
    if |t| < 132 || t[0] == '#' {
      OnlyLongTexts(t);
      return Thrown;
    }
    var data := Base64.Decode(t);
    if data.Thrown? {
      forall nonce, c, mac | IsDismantled(t, nonce, c, mac) ensures false {
        BytesInRange([2] + nonce + c + mac);
      }
      return Thrown;
    }
    var d := AsBytes(data.value);
    forall nonce, c, mac | IsDismantled(t, nonce, c, mac)
      ensures d == [2] + nonce + c + mac && |d| >= 99 && d[0] == 2
    {
      BytesInRange([2] + nonce + c + mac);
    }
    if |d| < 99 {
      return Thrown;
    }
    if d[0] != 2 {
      return Thrown;
    }
    res := Ok((d[1..33], d[33..|d| - 32], d[|d| - 32..]));
    assert d == [2] + d[1..33] + d[33..|d| - 32] + d[|d| - 32..];
    forall nonce, c, mac | IsDismantled(t, nonce, c, mac) ensures res == Ok((nonce, c, mac)) {
      assert d == [2] + nonce + c + mac;
      assert d[1..33] == nonce && d[33..|d| - 32] == c && d[|d| - 32..] == mac;
    }
  }

  /** The parts of a payload with at least the bytes of the smallest padded text. */
  ghost predicate IsDismantled(t: string, nonce: Bytes, c: Bytes, mac: Bytes) {
    |nonce| == 32 && |mac| == 32 && |c| >= 34 && Text([2] + nonce + c + mac) == Ok(t)
  }

  lemma OnlyLongTexts(t: string)
    requires |t| < 132 || t[0] == '#'
    ensures forall nonce, c, mac :: !IsDismantled(t, nonce, c, mac)
  {
    hide Text, InRange;
    forall nonce: Bytes, c: Bytes, mac: Bytes | IsDismantled(t, nonce, c, mac) ensures false {
      var f := [2] + nonce + c + mac;
      BytesInRange(f);
      TextLength(f);
      TextStarts(f);
      NoHashSign();
    }
  }

  /**
   `Uo`: accepts exactly the payloads that some nonce and some padded form of a text make under the
   key, and returns that text. The checks on the lengths reject none of them.
   */
  method Decrypt(p: Primitives, t: string, key: Bytes) returns (res: Result<Bytes>)
    requires WellSized(p)
    ensures res.Ok? ==> exists nonce, padded :: Carries(p, key, t, nonce, padded, res.value)
    ensures forall nonce, padded, m :: Carries(p, key, t, nonce, padded, m) ==> res == Ok(m)
  {
    hide Text, InRange, PaddedSize, BigEndian, WellSized, XorBytes, IsPadded, Carries, IsDismantled, Unpad;
    var parts := Dismantle(t);
    if parts.Thrown? {
      forall nonce, padded, m | Carries(p, key, t, nonce, padded, m) ensures false {
        CarriedParts(p, key, t, nonce, padded, m);
      }
      return Thrown;
    }
    var (nonce, c, mac) := parts.value;
    var keys := p.derive(key, nonce);
    var expected := MacWithNonce(p, keys.mac, c, nonce);
    if expected.Thrown? || expected.value != mac {
      forall nonce', padded, m | Carries(p, key, t, nonce', padded, m) ensures false {
        CarriedParts(p, key, t, nonce', padded, m);
      }
      return Thrown;
    }
    var padded := Cipher(p, keys, c);
    res := Unpad(padded);
    CipherTwice(p, keys, c);
    forall nonce', padded', m | Carries(p, key, t, nonce', padded', m) ensures res == Ok(m) {
      CarriedParts(p, key, t, nonce', padded', m);
      UnpadAccepts(padded, m);
    }
    if res.Ok? {
      UnpadAccepts(padded, res.value);
      DecryptedCarries(p, key, t, nonce, padded, res.value);
    }
  }

  /** What a payload dismantles into. */
  lemma CarriedParts(p: Primitives, key: Bytes, t: string, nonce: Bytes, padded: Bytes, m: Bytes)
    requires WellSized(p) && Carries(p, key, t, nonce, padded, m)
    ensures var keys := p.derive(key, nonce);
            var c := Cipher(p, keys, padded);
            && |nonce| == 32 && IsDismantled(t, nonce, c, p.mac(keys.mac, nonce + c))
            && Cipher(p, keys, c) == padded && IsPadded(padded, m)
  {
    hide Text, XorBytes, PaddedSize, BigEndian;
    PaddedSizeFits(|m|);
    CipherTwice(p, p.derive(key, nonce), padded);
  }

  lemma DecryptedCarries(p: Primitives, key: Bytes, t: string, nonce: Bytes, padded: Bytes, m: Bytes)
    requires WellSized(p) && IsPadded(padded, m) && |nonce| == 32
    requires var keys := p.derive(key, nonce);
             var c := Cipher(p, keys, padded);
             Text([2] + nonce + c + p.mac(keys.mac, nonce + c)) == Ok(t)
    ensures Carries(p, key, t, nonce, padded, m)
  {
    hide Text, XorBytes, IsPadded;
  }

  /** No payload can be read as two texts. */
  lemma OneMeaning(p: Primitives, key: Bytes, t: string, nonce: Bytes, padded: Bytes, m: Bytes,
                   nonce': Bytes, padded': Bytes, m': Bytes)
    requires WellSized(p) && Carries(p, key, t, nonce, padded, m) && Carries(p, key, t, nonce', padded', m')
    ensures nonce == nonce' && padded == padded' && m == m'
  {
    hide Text, InRange, IsPadded, XorBytes, Frame;
    var f, f' := Frame(p, key, nonce, padded), Frame(p, key, nonce', padded');
    BytesInRange(f);
    BytesInRange(f');
    TextInjective(f, f');
    FrameInjective(p, key, nonce, padded, nonce', padded');
    UnpadAccepts(padded, m);
    UnpadAccepts(padded, m');
  }

  lemma FrameInjective(p: Primitives, key: Bytes, nonce: Bytes, padded: Bytes, nonce': Bytes, padded': Bytes)
    requires WellSized(p) && |nonce| == |nonce'| && Frame(p, key, nonce, padded) == Frame(p, key, nonce', padded')
    ensures nonce == nonce' && padded == padded'
  {
    hide XorBytes;
    var f, f' := Frame(p, key, nonce, padded), Frame(p, key, nonce', padded');
    assert f[1..1 + |nonce|] == nonce && f'[1..1 + |nonce|] == nonce';
    var keys := p.derive(key, nonce);
    assert |padded| == |padded'|;
    assert f[1 + |nonce|..1 + |nonce| + |padded|] == Cipher(p, keys, padded);
    assert f'[1 + |nonce|..1 + |nonce| + |padded|] == Cipher(p, keys, padded');
    CipherTwice(p, keys, padded);
    CipherTwice(p, keys, padded');
  }
}
