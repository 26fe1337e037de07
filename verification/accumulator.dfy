/** The polynomial part of `digest`: clamping the key `r`, splitting the message
    into padded 16-byte blocks and evaluating the polynomial on unbounded
    integers with one final reduction modulo 2^130 - 5. */
module Accumulator {
  import opened Bits
  import opened LittleEndian

  /** `(1 << 130) - 5`, the prime of the construction. */
  const Mod1305: nat := 0x3_ffff_ffff_ffff_ffff_ffff_ffff_ffff_fffb

  /** The mask ANDed into the little-endian value of `r`. */
  const ClampMask: nat := 0x0ffffffc_0ffffffc_0ffffffc_0fffffff

  /** 2^124, a bound on every clamped multiplier. */
  const Two124: nat := 0x10000000000000000000000000000000

  lemma Mod1305Value()
    ensures Mod1305 == Pow(2, 130) - 5
  {
    PowAdd(2, 2, 128);
    PowMul(2, 8, 16);
    Pow2Byte();
    Pow256Block();
    assert Pow(2, 2) == 4;
  }

  // ---------------------------------------------------------------------------
  // Clamping

  /** `rval &= 0x0ffffffc0ffffffc0ffffffc0fffffff` on an integer value. */
  function ClampValue(x: nat): (rval: nat)
    ensures rval <= ClampMask && rval < Two124
  {
    BitAnd(x, ClampMask)
  }

  /** The multiplier derived from the 16-byte key `r`. */
  function Clamp(r: seq<byte>): (rval: nat)
    ensures rval <= ClampMask && rval < Two124
  {
    ClampValue(Str2NumLittleEnd(r))
  }

  /** Clamping keeps exactly the bits of `x` that the mask keeps. */
  lemma ClampBits(x: nat, i: nat)
    ensures Bit(ClampValue(x), i) <==> Bit(x, i) && Bit(ClampMask, i)
  {
    BitAndBits(x, ClampMask, i);
  }

  /** Clamping an already clamped value changes nothing. */
  lemma ClampIdempotent(x: nat)
    ensures ClampValue(ClampValue(x)) == ClampValue(x)
  {
    BitAndIdempotent(x, ClampMask);
  }

  /** The mask as 16 little-endian bytes. */
  const ClampMaskBytes: seq<byte> :=
    [0xff, 0xff, 0xff, 0x0f, 0xfc, 0xff, 0xff, 0x0f, 0xfc, 0xff, 0xff, 0x0f, 0xfc, 0xff, 0xff, 0x0f]

  /** The per-byte clamping rule of section 2.5 of RFC 8439: bytes 3, 7, 11 and 15
      keep their low four bits, bytes 4, 8 and 12 lose their low two bits, and
      the other bytes are kept whole. */
  function ClampByte(j: nat, b: byte): byte
  {
    if j % 4 == 3 then b % 16
    else if j % 4 == 0 && j > 0 then b - b % 4
    else b
  }

  lemma ClampMaskBytesHigh()
    ensures FromLE(ClampMaskBytes[8..]) == 0x0ffffffc0ffffffc
  {
    var m := ClampMaskBytes;
    assert FromLE(m[15..]) == 0x0f;
    assert FromLE(m[14..]) == 0x0fff;
    assert FromLE(m[13..]) == 0x0fffff;
    assert FromLE(m[12..]) == 0x0ffffffc;
    assert FromLE(m[11..]) == 0x0ffffffc0f;
    assert FromLE(m[10..]) == 0x0ffffffc0fff;
    assert FromLE(m[9..]) == 0x0ffffffc0fffff;
  }

  lemma ClampMaskBytesValue()
    ensures |ClampMaskBytes| == 16
    ensures FromLE(ClampMaskBytes) == ClampMask
  {
    var m := ClampMaskBytes;
    ClampMaskBytesHigh();
    assert FromLE(m[7..]) == 0x0ffffffc0ffffffc0f;
    assert FromLE(m[6..]) == 0x0ffffffc0ffffffc0fff;
    assert FromLE(m[5..]) == 0x0ffffffc0ffffffc0fffff;
    assert FromLE(m[4..]) == 0x0ffffffc0ffffffc0ffffffc;
    assert FromLE(m[3..]) == 0x0ffffffc0ffffffc0ffffffc0f;
    assert FromLE(m[2..]) == 0x0ffffffc0ffffffc0ffffffc0fff;
    assert FromLE(m[1..]) == 0x0ffffffc0ffffffc0ffffffc0fffff;
    assert m[0..] == m;
  }

  lemma MaskLowNibble(b: byte)
    ensures BitAnd(b, 0x0f) == b % 16
  {
    Pow2Byte();
    BitAndComm(b, 0x0f);
    BitAndLowMask(b, 4);
    assert BitAnd(0x0f, b) == b % 16;
  }

  lemma MaskLowTwoBits(b: byte)
    ensures BitAnd(b, 0xfc) == b - b % 4
  {
    Pow2Byte();
    BitAndLowTwoClear(b, 0xfc);
    var q := b / 4;
    assert BitAnd(b, 0xfc) == 4 * BitAnd(q, 0x3f);
    BitAndComm(q, 0x3f);
    BitAndLowMask(q, 6);
    DivModUnique(q, 64, 0, q);
  }

  lemma MaskWholeByte(b: byte)
    ensures BitAnd(b, 0xff) == b
  {
    Pow2Byte();
    BitAndLowMask(b, 8);
    DivModUnique(b, 256, 0, b);
    BitAndComm(b, 0xff);
  }

  lemma ByteMask(j: nat, b: byte)
    requires j < 16
    ensures BitAnd(b, ClampMaskBytes[j]) == ClampByte(j, b)
  {
    if j % 4 == 3 {
      assert ClampMaskBytes[j] == 0x0f;
      MaskLowNibble(b);
    } else if j % 4 == 0 && j > 0 {
      assert ClampMaskBytes[j] == 0xfc;
      MaskLowTwoBits(b);
    } else {
      assert ClampMaskBytes[j] == 0xff;
      MaskWholeByte(b);
    }
  }

  /** Clamping the little-endian value of `r` with the integer mask is clamping
      each byte of `r` as section 2.5 of RFC 8439 describes. */
  lemma ClampIsBytewise(r: seq<byte>)
    requires |r| == 16
    ensures |Encode16(Clamp(r))| == 16
    ensures forall j :: 0 <= j < 16 ==> Encode16(Clamp(r))[j] == ClampByte(j, r[j])
  {
    var c := BytewiseAnd(r, ClampMaskBytes);
    ClampAsBytes(r);
    forall j | 0 <= j < 16
      ensures c[j] == ClampByte(j, r[j])
    {
      ByteMask(j, r[j]);
    }
  }

  lemma ClampAsBytes(r: seq<byte>)
    requires |r| == 16
    ensures |ClampMaskBytes| == 16
    ensures Encode16(Clamp(r)) == BytewiseAnd(r, ClampMaskBytes)
  {
    ClampMaskBytesValue();
    BitAndFromLE(r, ClampMaskBytes);
    var c := BytewiseAnd(r, ClampMaskBytes);
    assert Clamp(r) == FromLE(c);
    Decode16RoundTrip(c);
  }

  /** Re-encoding a clamped multiplier as a 16-byte key and clamping again
      yields the same multiplier. */
  lemma ClampKeyIdempotent(r: seq<byte>)
    ensures Clamp(Encode16(Clamp(r))) == Clamp(r)
  {
    assert Clamp(r) < Two128;
    ClampIdempotent(Str2NumLittleEnd(r));
  }

  // ---------------------------------------------------------------------------
  // Blocks

  /** `q = (len(msg) + 15) / 16`: the number of blocks, the ceiling of n / 16. */
  function BlockCount(n: nat): (q: nat)
    ensures 16 * q >= n && 16 * q < n + 16
    ensures n == 0 <==> q == 0
  {
    (n + 15) / 16
  }

  /** `msg[i*16 : i*16+16]`, the slice ending early at the end of the message. */
  function Chunk(msg: seq<byte>, i: nat): (c: seq<byte>)
    requires i < BlockCount(|msg|)
    ensures 1 <= |c| <= 16
    ensures i + 1 < BlockCount(|msg|) ==> |c| == 16
  {
    var hi := if 16 * i + 16 <= |msg| then 16 * i + 16 else |msg|;
    msg[16 * i .. hi]
  }

  /** All chunks of the message, in order. */
  function Chunks(msg: seq<byte>): (cs: seq<seq<byte>>)
    ensures |cs| == BlockCount(|msg|)
  {
    seq(BlockCount(|msg|), i requires 0 <= i < BlockCount(|msg|) => Chunk(msg, i))
  }

  /** The concatenation of a sequence of byte strings. */
  function Flatten(ss: seq<seq<byte>>): seq<byte>
  {
    if |ss| == 0 then [] else Flatten(ss[..|ss| - 1]) + ss[|ss| - 1]
  }

  function Zeros(n: nat): (z: seq<byte>)
    ensures |z| == n
  {
    seq(n, _ => 0)
  }

  /** `sub = chunk + b"\x01"; sub += (17 - len(sub)) * b"\x00"`; a negative
      repeat count gives the empty string, as in Python. */
  function Pad(chunk: seq<byte>): (sub: seq<byte>)
    ensures |chunk| <= 16 ==> |sub| == 17
  {
    var sub := chunk + [1];
    sub + Zeros(if |sub| <= 17 then 17 - |sub| else 0)
  }

  /** `num`, the integer value of padded block `i`. */
  function BlockValue(msg: seq<byte>, i: nat): nat
    requires i < BlockCount(|msg|)
  {
    Str2NumLittleEnd(Pad(Chunk(msg, i)))
  }

  // ---------------------------------------------------------------------------
  // Accumulation

  /** `tot` after the first `k` iterations of `tot = (tot + num) * rval`. */
  function Loop(msg: seq<byte>, rval: nat, k: nat): nat
    requires k <= BlockCount(|msg|)
  {
    if k == 0 then 0 else (Loop(msg, rval, k - 1) + BlockValue(msg, k - 1)) * rval
  }

  /** `tot` when the loop ends, before reduction. */
  function PolyRaw(msg: seq<byte>, rval: nat): nat
  {
    Loop(msg, rval, BlockCount(|msg|))
  }

  /** `tot = tot % mod1305` after the loop. */
  function Accumulate(msg: seq<byte>, rval: nat): (tot: nat)
    ensures 0 <= tot < Mod1305
    ensures |msg| == 0 ==> tot == 0
  {
    PolyRaw(msg, rval) % Mod1305
  }

  /** Bernstein's polynomial: the sum over blocks j in [lo, k) of
      c_j * rval^(k - j), with c_j the padded block values. */
  function PolySum(msg: seq<byte>, rval: nat, lo: nat, k: nat): nat
    requires lo <= k <= BlockCount(|msg|)
    decreases k - lo
  {
    if lo == k then 0
    else BlockValue(msg, lo) * Pow(rval, k - lo) + PolySum(msg, rval, lo + 1, k)
  }

  // ---------------------------------------------------------------------------
  // Properties

  lemma {:induction false} FromLEZeros(n: nat)
    ensures FromLE(Zeros(n)) == 0
    decreases n
  {
    if n > 0 {
      assert Zeros(n)[1..] == Zeros(n - 1);
      FromLEZeros(n - 1);
    }
  }

  /** A padded chunk is 17 bytes whose value is the chunk's value plus
      256^|chunk|, so it lies in [256^|chunk|, 2^129). */
  lemma PadValue(chunk: seq<byte>)
    requires |chunk| <= 16
    ensures |Pad(chunk)| == 17
    ensures Str2NumLittleEnd(Pad(chunk)) == FromLE(chunk) + Pow(256, |chunk|)
    ensures Pow(256, |chunk|) <= Str2NumLittleEnd(Pad(chunk)) < 2 * Two128
  {
    var z := Zeros(17 - (|chunk| + 1));
    var tail := [1] + z;
    assert Pad(chunk) == chunk + tail;
    assert tail[1..] == z;
    FromLEZeros(|z|);
    assert FromLE(tail) == 1;
    FromLEAppend(chunk, tail);
    FromLEBound(chunk);
    PowMonotone(256, |chunk|, 16);
    Pow256Block();
  }

  /** The chunks cover the first `16 * k` bytes of the message, in order. */
  lemma {:induction false} FlattenChunksPrefix(msg: seq<byte>, k: nat)
    requires k <= BlockCount(|msg|)
    ensures Flatten(Chunks(msg)[..k]) == msg[..if 16 * k <= |msg| then 16 * k else |msg|]
    decreases k
  {
    if k > 0 {
      var cs := Chunks(msg);
      assert cs[..k][..k - 1] == cs[..k - 1];
      FlattenChunksPrefix(msg, k - 1);
      var hi := if 16 * k <= |msg| then 16 * k else |msg|;
      assert msg[..16 * (k - 1)] + msg[16 * (k - 1)..hi] == msg[..hi];
    }
  }

  /** The loop visits ceil(|msg| / 16) chunks, and they concatenate back to the message. */
  lemma ChunksConcat(msg: seq<byte>)
    ensures |Chunks(msg)| == BlockCount(|msg|)
    ensures Flatten(Chunks(msg)) == msg
  {
    var cs := Chunks(msg);
    assert cs[..|cs|] == cs;
    FlattenChunksPrefix(msg, |cs|);
    assert msg[..|msg|] == msg;
  }

  /** Blocks lying wholly inside `m` do not see bytes appended after it. */
  lemma ChunkPrefix(m: seq<byte>, x: seq<byte>, j: nat)
    requires 16 * (j + 1) <= |m|
    ensures j < BlockCount(|m|) && j < BlockCount(|m + x|)
    ensures Chunk(m + x, j) == Chunk(m, j)
  {
    assert (m + x)[16 * j .. 16 * j + 16] == m[16 * j .. 16 * j + 16];
  }

  lemma {:induction false} LoopPrefix(m: seq<byte>, x: seq<byte>, rval: nat, k: nat)
    requires 16 * k <= |m|
    ensures k <= BlockCount(|m|) && k <= BlockCount(|m + x|)
    ensures Loop(m + x, rval, k) == Loop(m, rval, k)
    decreases k
  {
    if k > 0 {
      LoopPrefix(m, x, rval, k - 1);
      ChunkPrefix(m, x, k - 1);
    }
  }

  lemma LastChunk(m: seq<byte>, b: seq<byte>)
    requires |m| % 16 == 0 && 1 <= |b| <= 16
    ensures BlockCount(|m|) == |m| / 16 && BlockCount(|m + b|) == |m| / 16 + 1
    ensures Chunk(m + b, |m| / 16) == b
  {
    var q := |m| / 16;
    assert 16 * q == |m|;
    assert (m + b)[16 * q .. |m + b|] == b;
  }

  /** The recurrence of the loop: appending a final block `b` to a message of
      whole blocks multiplies (previous total + padded `b`) by `rval`. */
  lemma AppendBlock(m: seq<byte>, b: seq<byte>, rval: nat)
    requires |m| % 16 == 0 && 1 <= |b| <= 16
    ensures PolyRaw(m + b, rval) == (PolyRaw(m, rval) + Str2NumLittleEnd(Pad(b))) * rval
  {
    var q := |m| / 16;
    LastChunk(m, b);
    LoopPrefix(m, b, rval, q);
  }

  lemma MulDistrib(a: int, b: int, c: int)
    ensures (a + b) * c == a * c + b * c
  {
  }

  lemma {:induction false} PolySumStep(msg: seq<byte>, rval: nat, lo: nat, k: nat)
    requires lo <= k < BlockCount(|msg|)
    ensures PolySum(msg, rval, lo, k + 1) == (PolySum(msg, rval, lo, k) + BlockValue(msg, k)) * rval
    decreases k - lo
  {
    if lo == k {
      assert Pow(rval, 1) == rval;
    } else {
      PolySumStep(msg, rval, lo + 1, k);
      var c, p, rest := BlockValue(msg, lo), Pow(rval, k - lo), PolySum(msg, rval, lo + 1, k);
      assert Pow(rval, k + 1 - lo) == rval * p;
      MulAssoc(c, p, rval);
      assert c * (rval * p) == (c * p) * rval;
      MulDistrib(c * p, rest + BlockValue(msg, k), rval);
      MulDistrib(rest, BlockValue(msg, k), rval);
    }
  }

  /** After `k` iterations the loop total is Bernstein's polynomial
      c_0 * r^k + c_1 * r^(k-1) + ... + c_(k-1) * r. */
  lemma {:induction false} LoopIsPolynomial(msg: seq<byte>, rval: nat, k: nat)
    requires k <= BlockCount(|msg|)
    ensures Loop(msg, rval, k) == PolySum(msg, rval, 0, k)
    decreases k
  {
    if k > 0 {
      LoopIsPolynomial(msg, rval, k - 1);
      PolySumStep(msg, rval, 0, k - 1);
    }
  }
}
