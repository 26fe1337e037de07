/** The `Poly1305` object: key material, an append-only message buffer and the
    injected block cipher, with `update`, `digest`, `copy` and the one-shot
    `poly1305aes`. */
module Mac {
  import opened LittleEndian
  import opened Accumulator

  /** The block cipher passed as `method`: `method(key_aes, nonce)` returns
      the encrypted nonce. */
  type Cipher = (seq<byte>, seq<byte>) -> seq<byte>

  /** `digest_size`, the tag length in bytes. */
  const DigestSize: nat := 16

  /** The fields `__key_aes`, `__r`, `__nonce`, `__string` and `__aes`. */
  datatype Poly1305 = Poly1305(
    keyAes: seq<byte>,
    r: seq<byte>,
    nonce: seq<byte>,
    buffer: seq<byte>,
    aes: Cipher)

  /** Two objects with the same key material and cipher. */
  ghost predicate SameKeys(s: Poly1305, t: Poly1305)
  {
    s.keyAes == t.keyAes && s.r == t.r && s.nonce == t.nonce && s.aes == t.aes
  }

  /** `Poly1305(key_aes, r, nonce, string, method)`. */
  function New(keyAes: seq<byte>, r: seq<byte>, nonce: seq<byte>, initial: seq<byte>, aes: Cipher): (s: Poly1305)
    requires |r| == 16 && |nonce| == 16
    ensures s.keyAes == keyAes && s.r == r && s.nonce == nonce && s.aes == aes
    ensures s.buffer == initial
  {
    Poly1305(keyAes, r, nonce, initial, aes)
  }

  /** `update(msg)`: the buffer grows by `msg` and nothing else changes. */
  function Update(s: Poly1305, msg: seq<byte>): (s': Poly1305)
    ensures SameKeys(s', s)
    ensures |s'.buffer| == |s.buffer| + |msg|
    ensures s'.buffer[..|s.buffer|] == s.buffer && s'.buffer[|s.buffer|..] == msg
  {
    s.(buffer := s.buffer + msg)
  }

  /** `digest()`: the 16-byte tag of everything buffered so far. The clamped
      `r` drives the accumulation of the buffer, the encrypted nonce is added,
      and the sum modulo 2^128 is written out little-endian. */
  function Digest(s: Poly1305): (tag: seq<byte>)
    ensures |tag| == DigestSize
    ensures Str2NumLittleEnd(tag)
         == (Accumulate(s.buffer, Clamp(s.r)) + Str2NumLittleEnd(s.aes(s.keyAes, s.nonce))) % Two128
  {
    Encode16((Accumulate(s.buffer, Clamp(s.r)) + Str2NumLittleEnd(s.aes(s.keyAes, s.nonce))) % Two128)
  }

  /** `copy()`: a new object over the same fields. */
  function Copy(s: Poly1305): (c: Poly1305)
    ensures c == s
    ensures Digest(c) == Digest(s)
  {
    Poly1305(s.keyAes, s.r, s.nonce, s.buffer, s.aes)
  }

  /** `poly1305aes(k, r, n, m)`, with the cipher passed explicitly. */
  function Poly1305Aes(k: seq<byte>, r: seq<byte>, n: seq<byte>, m: seq<byte>, aes: Cipher): (tag: seq<byte>)
    requires |r| == 16 && |n| == 16
    ensures |tag| == DigestSize
    ensures Str2NumLittleEnd(tag) == (Accumulate(m, Clamp(r)) + Str2NumLittleEnd(aes(k, n))) % Two128
  {
    Digest(New(k, r, n, m, aes))
  }

  // ---------------------------------------------------------------------------
  // Properties

  /** `update(a); update(b)` is `update(a + b)`, so the digests agree too. */
  lemma UpdateConcat(s: Poly1305, a: seq<byte>, b: seq<byte>)
    ensures Update(Update(s, a), b) == Update(s, a + b)
    ensures Digest(Update(Update(s, a), b)) == Digest(Update(s, a + b))
  {
    assert (s.buffer + a) + b == s.buffer + (a + b);
  }

  /** The one-shot function agrees with a context built on a prefix and fed the rest. */
  lemma OneShotIsIncremental(k: seq<byte>, r: seq<byte>, n: seq<byte>, a: seq<byte>, b: seq<byte>, aes: Cipher)
    requires |r| == 16 && |n| == 16
    ensures Poly1305Aes(k, r, n, a + b, aes) == Digest(Update(New(k, r, n, a, aes), b))
    ensures Poly1305Aes(k, r, n, a + b, aes) == Digest(Update(Update(New(k, r, n, [], aes), a), b))
  {
    assert [] + a == a;
    UpdateConcat(New(k, r, n, [], aes), a, b);
  }

  /** The digest depends on the fields only: two objects with the same key
      material, cipher and buffer give the same tag, which is how `copy`
      and repeated `digest` calls agree. */
  lemma DigestOfFields(s: Poly1305, t: Poly1305)
    requires SameKeys(s, t) && s.buffer == t.buffer
    ensures Digest(s) == Digest(t)
  {
    assert s == t;
  }

  /** With nothing buffered the tag is the encrypted nonce modulo 2^128. */
  lemma DigestEmpty(s: Poly1305)
    requires s.buffer == []
    ensures Str2NumLittleEnd(Digest(s)) == Str2NumLittleEnd(s.aes(s.keyAes, s.nonce)) % Two128
    ensures Digest(s) == Encode16(Str2NumLittleEnd(s.aes(s.keyAes, s.nonce)))
  {
    var enc := Str2NumLittleEnd(s.aes(s.keyAes, s.nonce));
    assert Str2NumLittleEnd(Digest(s)) == enc % Two128;
    Decode16RoundTrip(Digest(s));
    Encode16Mod(enc);
  }

  /** The tag is Bernstein's Poly1305-AES value: the polynomial in the clamped
      `r` over the padded blocks, reduced modulo 2^130 - 5, plus the encrypted
      nonce, modulo 2^128. */
  lemma DigestIsPoly1305(s: Poly1305)
    ensures Str2NumLittleEnd(Digest(s))
         == (PolySum(s.buffer, Clamp(s.r), 0, BlockCount(|s.buffer|)) % Mod1305
             + Str2NumLittleEnd(s.aes(s.keyAes, s.nonce))) % Two128
  {
    LoopIsPolynomial(s.buffer, Clamp(s.r), BlockCount(|s.buffer|));
  }
}
