/** Little-endian conversion between byte strings and unbounded naturals:
    the decoder `str2num_littleend` and the 16-byte encoder at the end of
    `digest`. */
module LittleEndian {
  import opened Bits

  /** A byte, as an element of a Python 3 `bytes` object. */
  type byte = x: nat | x < 256

  /** 2^128, the modulus of the final tag addition. */
  const Two128: nat := 0x1_0000_0000_0000_0000_0000_0000_0000_0000

  /** The value of `s` read least significant byte first: sum of s[i] * 256^i. */
  function FromLE(s: seq<byte>): nat
  {
    if |s| == 0 then 0 else s[0] + 256 * FromLE(s[1..])
  }

  /** A string of n bytes has a value below 256^n. */
  lemma {:induction false} FromLEBound(s: seq<byte>)
    ensures FromLE(s) < Pow(256, |s|)
    decreases |s|
  {
    if |s| > 0 {
      FromLEBound(s[1..]);
    }
  }

  /** The value of `s` read most significant byte first, as `int(hexlify(s), 16)` reads it. */
  function FromBE(s: seq<byte>): nat
  {
    if |s| == 0 then 0 else 256 * FromBE(s[..|s| - 1]) + s[|s| - 1]
  }

  /** Python's `s[::-1]`. */
  function Reverse(s: seq<byte>): (r: seq<byte>)
    ensures |r| == |s|
    ensures forall i :: 0 <= i < |s| ==> r[i] == s[|s| - 1 - i]
  {
    if |s| == 0 then [] else Reverse(s[1..]) + [s[0]]
  }

  lemma {:induction false} FromBEReverse(s: seq<byte>)
    ensures FromBE(Reverse(s)) == FromLE(s)
    decreases |s|
  {
    if |s| > 0 {
      var t := Reverse(s[1..]);
      assert Reverse(s) == t + [s[0]];
      assert (t + [s[0]])[..|t|] == t;
      FromBEReverse(s[1..]);
    }
  }

  /** `str2num_littleend`: the big-endian reading of the reversed bytes, which is
      the little-endian value of `val`. The empty string yields 0 here. */
  function Str2NumLittleEnd(val: seq<byte>): (r: nat)
    ensures r == FromLE(val)
  {
    FromBEReverse(val);
    FromBE(Reverse(val))
  }

  /** Decoding a concatenation: the bytes of `b` sit above those of `a`. */
  lemma {:induction false} FromLEAppend(a: seq<byte>, b: seq<byte>)
    ensures FromLE(a + b) == FromLE(a) + Pow(256, |a|) * FromLE(b)
    decreases |a|
  {
    if |a| > 0 {
      assert (a + b)[1..] == a[1..] + b;
      FromLEAppend(a[1..], b);
      var x, p, y := FromLE(a[1..]), Pow(256, |a| - 1), FromLE(b);
      assert FromLE(a + b) == a[0] + 256 * (x + p * y);
      MulAssoc(256, p, y);
      assert Pow(256, |a|) == 256 * p;
    } else {
      assert a + b == b;
    }
  }

  /** Digit `i` of `v` in base 256. */
  function Digit(v: nat, i: nat): byte
  {
    (v / Pow(256, i)) % 256
  }

  /** Byte `i` of the encoder: `0xff & (v >> 8*i)`. */
  function ByteAt(v: nat, i: nat): byte
  {
    BitAnd(0xff, ShiftRight(v, 8 * i))
  }

  /** `n` little-endian bytes of `v`: byte `i` is `0xff & (v >> 8*i)` for each
      `i` in `range(n)`. */
  function ToLE(v: nat, n: nat): (r: seq<byte>)
    ensures |r| == n
    ensures forall i :: 0 <= i < n ==> r[i] == ByteAt(v, i)
  {
    if n == 0 then [] else ToLE(v, n - 1) + [ByteAt(v, n - 1)]
  }

  lemma Pow256Block()
    ensures Pow(256, 16) == Two128
  {
    assert Pow(256, 1) == 0x100;
    assert Pow(256, 2) == 0x10000;
    assert Pow(256, 3) == 0x1000000;
    assert Pow(256, 4) == 0x100000000;
    assert Pow(256, 5) == 0x10000000000;
    assert Pow(256, 6) == 0x1000000000000;
    assert Pow(256, 7) == 0x100000000000000;
    assert Pow(256, 8) == 0x10000000000000000;
    assert Pow(256, 9) == 0x1000000000000000000;
    assert Pow(256, 10) == 0x100000000000000000000;
    assert Pow(256, 11) == 0x10000000000000000000000;
    assert Pow(256, 12) == 0x1000000000000000000000000;
    assert Pow(256, 13) == 0x100000000000000000000000000;
    assert Pow(256, 14) == 0x10000000000000000000000000000;
    assert Pow(256, 15) == 0x1000000000000000000000000000000;
    assert Pow(256, 16) == 0x100000000000000000000000000000000;
  }

  /** The masked shift of the encoder picks out digit `i` in base 256. */
  lemma ByteAtIsDigit(v: nat, i: nat)
    ensures ByteAt(v, i) == Digit(v, i)
  {
    Pow2Byte();
    PowMul(2, 8, i);
    BitAndLowMask(ShiftRight(v, 8 * i), 8);
  }

  lemma DigitSucc(v: nat, i: nat)
    ensures Digit(v, i + 1) == Digit(v / 256, i)
  {
    assert Pow(256, i + 1) == 256 * Pow(256, i);
    DivDiv(v, 256, Pow(256, i));
  }

  /** The encoding of `v` is its low byte followed by the encoding of `v / 256`. */
  lemma ToLEShift(v: nat, n: nat)
    requires n > 0
    ensures ToLE(v, n)[0] == v % 256
    ensures ToLE(v, n)[1..] == ToLE(v / 256, n - 1)
  {
    ToLETail(v, n);
    ByteAtIsDigit(v, 0);
    assert Digit(v, 0) == v % 256;
  }

  lemma ToLETail(v: nat, n: nat)
    requires n > 0
    ensures ToLE(v, n)[1..] == ToLE(v / 256, n - 1)
  {
    var s, t := ToLE(v, n), ToLE(v / 256, n - 1);
    forall i | 0 <= i < n - 1
      ensures s[1..][i] == t[i]
    {
      ByteAtSucc(v, i);
    }
  }

  lemma ByteAtSucc(v: nat, i: nat)
    ensures ByteAt(v, i + 1) == ByteAt(v / 256, i)
  {
    ByteAtIsDigit(v, i + 1);
    ByteAtIsDigit(v / 256, i);
    DigitSucc(v, i);
  }

  lemma ModPowStep(v: nat, n: nat)
    requires n > 0
    ensures v % Pow(256, n) == v % 256 + 256 * ((v / 256) % Pow(256, n - 1))
  {
    assert Pow(256, n) == 256 * Pow(256, n - 1);
    DivDiv(v, 256, Pow(256, n - 1));
  }

  /** Decoding `n` encoded bytes of `v` gives back `v` modulo 256^n. */
  lemma {:induction false} FromLEToLE(v: nat, n: nat)
    ensures FromLE(ToLE(v, n)) == v % Pow(256, n)
    decreases n
  {
    if n == 0 {
      assert ToLE(v, 0) == [];
    } else {
      var s := ToLE(v, n);
      ToLEShift(v, n);
      FromLEToLE(v / 256, n - 1);
      assert FromLE(s) == v % 256 + 256 * FromLE(ToLE(v / 256, n - 1));
      ModPowStep(v, n);
    }
  }

  /** The 16-byte tag encoding of `digest`: its little-endian value is `v`
      reduced modulo 2^128. */
  function Encode16(v: nat): (r: seq<byte>)
    ensures |r| == 16
    ensures FromLE(r) == v % Two128
    ensures v < Two128 ==> FromLE(r) == v
  {
    FromLEToLE(v, 16);
    Pow256Block();
    SmallMod128(v);
    ToLE(v, 16)
  }

  /** A value below 2^128 is its own residue. */
  lemma SmallMod128(v: nat)
    ensures v < Two128 ==> v % Two128 == v
  {
    if v < Two128 {
      DivModUnique(v, Two128, 0, v);
    }
  }

  /** Digit `i` of the value of `s` is the byte `s[i]`. */
  lemma {:induction false} DigitOfFromLE(s: seq<byte>, i: nat)
    requires i < |s|
    ensures Digit(FromLE(s), i) == s[i]
    decreases i
  {
    if i > 0 {
      DigitSucc(FromLE(s), i - 1);
      assert FromLE(s) / 256 == FromLE(s[1..]);
      DigitOfFromLE(s[1..], i - 1);
    }
  }

  /** Encoding the value of `s` in |s| bytes gives back `s`. */
  lemma ToLEFromLE(s: seq<byte>)
    ensures ToLE(FromLE(s), |s|) == s
  {
    var t := ToLE(FromLE(s), |s|);
    forall i | 0 <= i < |s|
      ensures t[i] == s[i]
    {
      ByteAtIsDigit(FromLE(s), i);
      DigitOfFromLE(s, i);
    }
  }

  /** The tag encoding and `str2num_littleend` are inverse on [0, 2^128). */
  lemma Decode16RoundTrip(s: seq<byte>)
    requires |s| == 16
    ensures Str2NumLittleEnd(s) < Two128
    ensures Encode16(Str2NumLittleEnd(s)) == s
  {
    FromLEBound(s);
    Pow256Block();
    ToLEFromLE(s);
  }

  /** The encoder sees only the low 128 bits of its argument. */
  lemma Encode16Mod(v: nat)
    ensures Encode16(v % Two128) == Encode16(v)
  {
    Decode16RoundTrip(Encode16(v));
  }

  /** `&` applied byte by byte to two strings of equal length. */
  function BytewiseAnd(a: seq<byte>, b: seq<byte>): (c: seq<byte>)
    requires |a| == |b|
    ensures |c| == |a|
  {
    seq(|a|, i requires 0 <= i < |a| => BitAnd(a[i], b[i]))
  }

  /** `&` of two little-endian values is the value of the bytewise `&`. */
  lemma {:induction false} BitAndFromLE(a: seq<byte>, b: seq<byte>)
    requires |a| == |b|
    ensures BitAnd(FromLE(a), FromLE(b)) == FromLE(BytewiseAnd(a, b))
    decreases |a|
  {
    if |a| > 0 {
      BitAndFromLE(a[1..], b[1..]);
      var c := BytewiseAnd(a, b);
      assert c[1..] == BytewiseAnd(a[1..], b[1..]);
      assert FromLE(c) == c[0] + 256 * FromLE(c[1..]);
      BitAndSplitByte(a[0], FromLE(a[1..]), b[0], FromLE(b[1..]));
    }
  }
}
