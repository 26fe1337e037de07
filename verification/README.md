# Poly1305-AES in Dafny

A model of `poly1305.py`, a Python implementation of D. J. Bernstein's
Poly1305-AES one-time message-authentication code ("The Poly1305-AES
message-authentication code", FSE 2005, section 2). Given a cipher key `k`,
a 16-byte polynomial key `r`, a 16-byte nonce `n` and a message `m`, the code
computes a 16-byte tag:

- `r` is read as a little-endian integer and clamped with the mask
  `0x0ffffffc0ffffffc0ffffffc0fffffff`. This matches the per-byte rule of
  section 2.5 of RFC 8439.
- The message is cut into 16-byte chunks, the last possibly shorter. Each chunk
  gets a `0x01` byte appended and is zero-padded to 17 bytes.
- The padded chunks are folded with `tot = (tot + num) * rval` on unbounded
  integers. The result is reduced modulo 2^130 - 5 once, at the end.
- The little-endian value of the encrypted nonce `method(k, n)` is added, the sum
  is reduced modulo 2^128, and the result is written out as 16 little-endian bytes.

The `Poly1305` object holds the key material, an append-only message buffer
and the cipher function. It offers `update`, `digest` and `copy`. The module
also has a one-shot `poly1305aes` and a `constant_time_compare`.

Files and modules:

- `bits.dfy`, module `Bits`: powers, Euclidean-division facts, and Python's `&`,
  `|`, `^` and `>>` on non-negative integers. `&`, `|` and `^` each have a
  bit-by-bit characterisation lemma.
- `little_endian.dfy`, module `LittleEndian`: `str2num_littleend`, as the code
  writes it (the reversed bytes read big-endian), proved equal to the positional
  little-endian sum. Also the 16-byte tag encoder of `digest` and both round trips.
- `accumulator.dfy`, module `Accumulator`: clamping, chunking and padding, the
  accumulation loop, and Bernstein's polynomial as a reference definition.
- `mac.dfy`, module `Mac`: the `Poly1305` object as an immutable record, with
  the block cipher as a function-typed field.
- `compare.dfy`, module `Compare`: the pure-Python `constant_time_compare`.

Bytes are `byte = x: nat | x < 256`. All integers are unbounded `nat`, as in
Python. The block cipher is an uninterpreted function value
`(seq<byte>, seq<byte>) -> seq<byte>`, passed in as the constructor's `method`
argument is. Being a function, it is deterministic and free of side effects,
as AES-ECB is. `digest` calls `method(k, n)` afresh on every call
(poly1305.py:177), so `Mac.DigestOfFields` ("repeated calls agree") holds in
the code only for such a `method`.

The docstrings ask for a 16-byte `r` and nonce (poly1305.py:122-126 and
poly1305.py:220-224), but the code checks neither length. `Mac.New` takes the
two lengths as a precondition.

## Model

| member | source | states |
|---|---|---|
| `LittleEndian.Str2NumLittleEnd` | poly1305.py:236-238 | reading the reversed bytes as a big-endian number gives the little-endian value sum s[i]*256^i |
| `LittleEndian.FromLEBound` | poly1305.py:236-238 | the little-endian value of a byte string is below 256^len |
| `LittleEndian.Reverse` | poly1305.py:238 | `val[::-1]` has the same length with byte i taken from position len-1-i |
| `LittleEndian.FromLEAppend` | poly1305.py:236-238 | the value of a + b is value(a) + 256^len(a) * value(b) |
| `LittleEndian.ToLE` | poly1305.py:181 | the encoder emits n bytes, byte i being `0xff & (v >> 8*i)` |
| `LittleEndian.ByteAtIsDigit` | poly1305.py:181 | `0xff & (v >> 8*i)` is digit i of v in base 256 |
| `LittleEndian.FromLEToLE` | poly1305.py:181 | decoding n encoded bytes of v gives v mod 256^n |
| `LittleEndian.ToLEFromLE` | poly1305.py:181 | encoding the value of s in len(s) bytes gives back s |
| `LittleEndian.Encode16` | poly1305.py:179-181 | the tag encoding is 16 bytes whose little-endian value is v mod 2^128, and v itself when v < 2^128 |
| `LittleEndian.Decode16RoundTrip` | poly1305.py:181 | a 16-byte string has a value below 2^128, and encoding that value gives the string back |
| `LittleEndian.Encode16Mod` | poly1305.py:179-181 | the encoder sees only the low 128 bits, so reducing mod 2^128 first changes nothing |
| `LittleEndian.BitAndFromLE` | poly1305.py:167-168 | `&` of two little-endian values equals the value of their bytewise `&` |
| `Bits.BitAnd` | poly1305.py:168 | `a & b` is at most a and at most b |
| `Bits.BitAndBits` | poly1305.py:168 | bit i of `a & b` is set iff bit i is set in both a and b |
| `Bits.BitAndIdempotent` | poly1305.py:168 | `(x & m) & m == x & m` |
| `Bits.BitAndLowMask` | poly1305.py:181 | `(2^k - 1) & x == x mod 2^k` |
| `Bits.BitOr` | poly1305.py:86 | the bitwise or of a and b is 0 iff both a and b are 0 |
| `Bits.BitOrBits` | poly1305.py:86 | bit i of the bitwise or of a and b is set iff it is set in a or in b |
| `Bits.BitXor` | poly1305.py:86 | `a ^ b` is 0 iff a == b |
| `Bits.BitXorBits` | poly1305.py:86 | bit i of `a ^ b` is set iff bit i of a and of b differ |
| `Accumulator.Mod1305Value` | poly1305.py:166 | the modulus constant is (1 << 130) - 5 |
| `Accumulator.ClampValue` | poly1305.py:168 | the clamped value is at most the mask, hence below 2^124 |
| `Accumulator.Clamp` | poly1305.py:167-168 | the multiplier derived from r is at most the mask and below 2^124 |
| `Accumulator.ClampBits` | poly1305.py:168 | clamping keeps exactly the bits of x that are set in the mask |
| `Accumulator.ClampIdempotent` | poly1305.py:168 | clamping an already clamped value changes nothing |
| `Accumulator.ClampKeyIdempotent` | poly1305.py:167-168 | re-encoding the clamped multiplier as a 16-byte key and clamping again gives the same multiplier |
| `Accumulator.ClampIsBytewise` | poly1305.py:167-168 | byte j of the clamped key follows section 2.5 of RFC 8439: bytes 3, 7, 11, 15 keep their low 4 bits, bytes 4, 8, 12 lose their low 2 bits, the others are unchanged |
| `Accumulator.ClampAsBytes` | poly1305.py:167-168 | the 16-byte encoding of the clamped multiplier is the bytewise `&` of r with the mask bytes |
| `Accumulator.BlockCount` | poly1305.py:169-171 | the loop count `(len + 15) / 16` is the ceiling of len / 16, and 0 exactly for the empty message |
| `Accumulator.Chunk` | poly1305.py:172 | every chunk has 1 to 16 bytes, and every chunk but the last has exactly 16 |
| `Accumulator.ChunksConcat` | poly1305.py:169-172 | there are ceil(len / 16) chunks and they concatenate back to the message |
| `Accumulator.Pad` | poly1305.py:172-173 | a chunk of at most 16 bytes is padded to exactly 17 bytes |
| `Accumulator.PadValue` | poly1305.py:172-174 | the padded chunk's value is value(chunk) + 256^len(chunk), which lies in [256^len(chunk), 2^129) |
| `Accumulator.Accumulate` | poly1305.py:170-176 | the reduced total lies in [0, 2^130 - 5) and is 0 for the empty message |
| `Accumulator.AppendBlock` | poly1305.py:166-176 | if len(m) is a multiple of 16 and b has 1 to 16 bytes, the unreduced total of m + b is (total(m) + num(b)) * rval |
| `Accumulator.LoopPrefix` | poly1305.py:171-175 | the first k iterations over m + x equal those over m while 16k <= len(m) |
| `Accumulator.LoopIsPolynomial` | poly1305.py:169-176 | after k iterations the total is Bernstein's polynomial c_0 r^k + ... + c_(k-1) r |
| `Mac.New` | poly1305.py:137-142 | the constructor stores its arguments, and the buffer starts as the initial string |
| `Mac.Update` | poly1305.py:144-154 | update keeps the key material and cipher, and the buffer becomes the old buffer followed by msg |
| `Mac.Digest` | poly1305.py:156-185 | the tag has 16 bytes, and its little-endian value is (accumulated total + value of `method(k, n)`) mod 2^128 |
| `Mac.Copy` | poly1305.py:195-208 | the copy has identical fields and so the same digest |
| `Mac.Poly1305Aes` | poly1305.py:211-231 | the one-shot tag has 16 bytes, and its value is (accumulated total of m under the clamped r + value of the encrypted nonce) mod 2^128 |
| `Mac.UpdateConcat` | poly1305.py:144-154 | `update(a); update(b)` yields the same object, and so the same digest, as `update(a + b)` |
| `Mac.OneShotIsIncremental` | poly1305.py:211-231 | the one-shot tag of a + b equals the digest of an object built on a and updated with b, or built empty and updated with a then b |
| `Mac.DigestOfFields` | poly1305.py:164-165 | the digest is determined by the fields alone, so repeated calls and copies agree |
| `Mac.DigestEmpty` | poly1305.py:169-181 | with an empty buffer the tag is the encoding of the encrypted nonce, with value LE(`method(k, n)`) mod 2^128 |
| `Mac.DigestIsPoly1305` | poly1305.py:164-181 | the tag's value is (Bernstein's polynomial in the clamped r mod 2^130 - 5 + encrypted nonce) mod 2^128 |
| `Compare.ConstantTimeCompare` | poly1305.py:80-90 | returns false when the lengths differ, and otherwise true iff a == b |

## Left out

- The AES back ends (PyCrypto, cryptography, M2Crypto) and the stub that raises `NotImplementedError` when no library is found (poly1305.py:28-72). These are foreign library calls. The cipher is an uninterpreted function parameter instead, so a missing cipher cannot arise.
- The known-answer vectors and `runtests` (poly1305.py:262-316). They depend on real AES output, which the model does not have.
- The `hmac.compare_digest` delegation (poly1305.py:75-78). It is a library call. The timing behaviour of either comparison cannot be expressed; only the functional result is modelled.
- Non-`bytes` inputs and the text building of the tag.
  - The comparison's `ord` branch (poly1305.py:87-89) always runs under Python 2. Under Python 3 it runs whenever either argument is not a `bytes` object (poly1305.py:84), and a `bytearray` then makes `ord` raise `TypeError`.
  - The tag is built as a string of `chr` characters, which Python 3 encodes as latin-1 (poly1305.py:181-183).
  - Only `bytes` are modelled, and the tag is produced as bytes directly.
- `hexdigest` and `hexify` (poly1305.py:187-193, poly1305.py:240-258). They only present the tag as hex text.
- `new` (poly1305.py:107-112). Its body is only a docstring, so it returns `None`, not the object its docstring promises.
- The float division `(len(msg) + 15) / 16` followed by `int` (poly1305.py:169-171). It is modelled as exact integer division, which agrees with the float form for all practical lengths.
- LittleEndian.Str2NumLittleEnd: returns 0 on the empty string, where Python's `int(b'', 16)` raises `ValueError`. `digest` decodes `r`, whose length the code never checks, so an empty `r` raises at poly1305.py:167. It also decodes the 17-byte padded blocks and the cipher output. `Mac.New` rules out an empty `r`, but `Mac.Digest` on a record with an empty `r`, or with an empty cipher output, returns a tag where the code raises.
- Mac.New: requires 16-byte `r` and `nonce`, the documented lengths, although `__init__` checks nothing. `digest` itself needs no precondition.
- Mac.Poly1305Aes: the code always uses the module's `_aes_encrypt`, while the model takes the cipher as a parameter. The member also inherits `New`'s precondition that `r` and `n` are 16 bytes long; `poly1305aes` (poly1305.py:211-231) checks neither length.
- Mac.Copy: only immutable `bytes` buffers are modelled. A `bytearray` passed as `string` is extended in place by `update` (poly1305.py:154) and shared with every copy (poly1305.py:206-208), so updating the original also changes the copy's digest. The model's record has no such aliasing.
- `setup.py`: packaging and library detection only.
