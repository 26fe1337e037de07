/** Exact arithmetic on unbounded naturals: powers, Euclidean division facts,
    and the bitwise operators `&`, `|`, `^` and `>>` as Python applies them
    to non-negative integers. */
module Bits {

  /** `b` raised to the power `e`. */
  function Pow(b: nat, e: nat): (r: nat)
    ensures b > 0 ==> r > 0
  {
    if e == 0 then 1 else b * Pow(b, e - 1)
  }

  lemma {:induction false} PowAdd(b: nat, m: nat, n: nat)
    ensures Pow(b, m + n) == Pow(b, m) * Pow(b, n)
    decreases m
  {
    if m > 0 {
      PowAdd(b, m - 1, n);
      calc {
        Pow(b, m + n);
        b * Pow(b, (m - 1) + n);
        b * (Pow(b, m - 1) * Pow(b, n));
        (b * Pow(b, m - 1)) * Pow(b, n);
      }
    }
  }

  lemma {:induction false} PowMul(b: nat, m: nat, n: nat)
    ensures Pow(b, m * n) == Pow(Pow(b, m), n)
    decreases n
  {
    if n > 0 {
      PowMul(b, m, n - 1);
      assert m * n == m + m * (n - 1);
      PowAdd(b, m, m * (n - 1));
    }
  }

  lemma {:induction false} PowMonotone(b: nat, m: nat, n: nat)
    requires b > 0 && m <= n
    ensures Pow(b, m) <= Pow(b, n)
    decreases n - m
  {
    if m < n {
      PowMonotone(b, m, n - 1);
      assert Pow(b, n) == b * Pow(b, n - 1);
      MulMonotone(Pow(b, n - 1), 1, b);
    }
  }

  lemma MulMonotone(x: nat, a: nat, b: nat)
    requires a <= b
    ensures x * a <= x * b
  {
    assert x * b - x * a == x * (b - a);
  }

  lemma MulAssoc(a: int, b: int, c: int)
    ensures a * (b * c) == (a * b) * c
  {
  }

  /** The quotient and remainder of Euclidean division are unique. */
  lemma DivModUnique(x: int, d: int, q: int, r: int)
    requires d > 0 && 0 <= r < d && x == d * q + r
    ensures x / d == q && x % d == r
  {
    var q', r' := x / d, x % d;
    if q' > q {
      assert d * q' - d * q == d * (q' - q);
      MulMonotone(d, 1, q' - q);
      assert false;
    } else if q' < q {
      assert d * q - d * q' == d * (q - q');
      MulMonotone(d, 1, q - q');
      assert false;
    }
  }

  /** Dividing by `a * b` is dividing by `a` and then by `b`. */
  lemma DivDiv(x: nat, a: nat, b: nat)
    requires a > 0 && b > 0
    ensures x / (a * b) == (x / a) / b
    ensures x % (a * b) == a * ((x / a) % b) + x % a
  {
    var q, s, t := (x / a) / b, (x / a) % b, x % a;
    assert x / a == b * q + s;
    assert x == a * (b * q + s) + t;
    assert x == (a * b) * q + (a * s + t);
    MulMonotone(a, s, b - 1);
    assert a * (b - 1) == a * b - a;
    DivModUnique(x, a * b, q, a * s + t);
  }

  /** Python's `x >> n` for a non-negative `x`. */
  function ShiftRight(x: nat, n: nat): nat
  {
    x / Pow(2, n)
  }

  /** Whether bit `i` of `x` is set. */
  predicate Bit(x: nat, i: nat)
  {
    ShiftRight(x, i) % 2 == 1
  }

  lemma BitZero(x: nat)
    ensures Bit(x, 0) <==> x % 2 == 1
  {
  }

  lemma BitSucc(x: nat, i: nat)
    requires i > 0
    ensures Bit(x, i) <==> Bit(x / 2, i - 1)
  {
    assert Pow(2, i) == 2 * Pow(2, i - 1);
    DivDiv(x, 2, Pow(2, i - 1));
  }

  /** Python's `a & b` for non-negative integers. */
  function BitAnd(a: nat, b: nat): (r: nat)
    ensures r <= a && r <= b
    decreases a
  {
    if a == 0 || b == 0 then 0
    else 2 * BitAnd(a / 2, b / 2) + (if a % 2 == 1 && b % 2 == 1 then 1 else 0)
  }

  /** Python's `a | b` for non-negative integers. */
  function BitOr(a: nat, b: nat): (r: nat)
    ensures r == 0 <==> a == 0 && b == 0
    decreases a
  {
    if a == 0 then b
    else if b == 0 then a
    else 2 * BitOr(a / 2, b / 2) + (if a % 2 == 1 || b % 2 == 1 then 1 else 0)
  }

  /** Python's `a ^ b` for non-negative integers. */
  function BitXor(a: nat, b: nat): (r: nat)
    ensures r == 0 <==> a == b
    decreases a
  {
    if a == 0 then b
    else if b == 0 then a
    else 2 * BitXor(a / 2, b / 2) + (if a % 2 != b % 2 then 1 else 0)
  }

  /** Bit `i` of `a & b` is set exactly when bit `i` is set in both. */
  lemma {:induction false} BitAndBits(a: nat, b: nat, i: nat)
    ensures Bit(BitAnd(a, b), i) <==> Bit(a, i) && Bit(b, i)
    decreases i
  {
    var r := BitAnd(a, b);
    assert r / 2 == BitAnd(a / 2, b / 2) && (r % 2 == 1 <==> a % 2 == 1 && b % 2 == 1);
    if i == 0 {
      BitZero(r); BitZero(a); BitZero(b);
    } else {
      BitSucc(r, i); BitSucc(a, i); BitSucc(b, i);
      BitAndBits(a / 2, b / 2, i - 1);
    }
  }

  /** Bit `i` of `a | b` is set exactly when bit `i` is set in either. */
  lemma {:induction false} BitOrBits(a: nat, b: nat, i: nat)
    ensures Bit(BitOr(a, b), i) <==> Bit(a, i) || Bit(b, i)
    decreases i
  {
    var r := BitOr(a, b);
    assert r / 2 == BitOr(a / 2, b / 2) && (r % 2 == 1 <==> a % 2 == 1 || b % 2 == 1);
    if i == 0 {
      BitZero(r); BitZero(a); BitZero(b);
    } else {
      BitSucc(r, i); BitSucc(a, i); BitSucc(b, i);
      BitOrBits(a / 2, b / 2, i - 1);
    }
  }

  /** Bit `i` of `a ^ b` is set exactly when bit `i` differs between them. */
  lemma {:induction false} BitXorBits(a: nat, b: nat, i: nat)
    ensures Bit(BitXor(a, b), i) <==> Bit(a, i) != Bit(b, i)
    decreases i
  {
    var r := BitXor(a, b);
    assert r / 2 == BitXor(a / 2, b / 2) && (r % 2 == 1 <==> a % 2 != b % 2);
    if i == 0 {
      BitZero(r); BitZero(a); BitZero(b);
    } else {
      BitSucc(r, i); BitSucc(a, i); BitSucc(b, i);
      BitXorBits(a / 2, b / 2, i - 1);
    }
  }

  /** Masking twice with the same mask is masking once. */
  lemma {:induction false} BitAndIdempotent(x: nat, m: nat)
    ensures BitAnd(BitAnd(x, m), m) == BitAnd(x, m)
    decreases x
  {
    var y := BitAnd(x, m);
    if x != 0 && m != 0 && y != 0 {
      BitAndIdempotent(x / 2, m / 2);
      assert y / 2 == BitAnd(x / 2, m / 2);
    }
  }

  /** `(2^k - 1) & x` keeps the low `k` bits of `x`. */
  lemma {:induction false} BitAndLowMask(x: nat, k: nat)
    ensures BitAnd(Pow(2, k) - 1, x) == x % Pow(2, k)
    decreases k
  {
    if k == 0 {
      assert Pow(2, k) - 1 == 0 && BitAnd(0, x) == 0;
    } else if x == 0 {
      assert BitAnd(Pow(2, k) - 1, 0) == 0;
    } else {
      var half := Pow(2, k - 1);
      assert Pow(2, k) == 2 * half;
      BitAndLowMask(x / 2, k - 1);
      LowMaskStep(x, half);
    }
  }

  lemma LowMaskStep(x: nat, half: nat)
    requires half > 0 && x != 0
    requires BitAnd(half - 1, x / 2) == (x / 2) % half
    ensures BitAnd(2 * half - 1, x) == x % (2 * half)
  {
    var m := 2 * half - 1;
    assert m / 2 == half - 1 && m % 2 == 1;
    DivDiv(x, 2, half);
  }

  /** One step of `&`, valid for zero operands too. */
  lemma BitAndUnfold(a: nat, b: nat)
    ensures BitAnd(a, b) == 2 * BitAnd(a / 2, b / 2) + (if a % 2 == 1 && b % 2 == 1 then 1 else 0)
  {
  }

  lemma {:induction false} BitAndComm(a: nat, b: nat)
    ensures BitAnd(a, b) == BitAnd(b, a)
    decreases a
  {
    if a != 0 && b != 0 {
      BitAndComm(a / 2, b / 2);
    }
  }

  /** Halving `x + 2h * y` halves `x` and keeps `h * y`. */
  lemma HalveSplit(x: nat, h: nat, y: nat)
    ensures (x + 2 * h * y) / 2 == x / 2 + h * y
    ensures (x + 2 * h * y) % 2 == x % 2
  {
    MulAssoc(2, h, y);
    DivModUnique(x + 2 * h * y, 2, x / 2 + h * y, x % 2);
  }

  /** `&` works digit by digit in base 2^k: the low `k` bits and the rest are
      masked separately. */
  lemma {:induction false} BitAndSplit(k: nat, x: nat, y: nat, m: nat, n: nat)
    requires x < Pow(2, k) && m < Pow(2, k)
    ensures BitAnd(x + Pow(2, k) * y, m + Pow(2, k) * n) == BitAnd(x, m) + Pow(2, k) * BitAnd(y, n)
    decreases k
  {
    if k == 0 {
      BitAndSplitBase(x, y, m, n, Pow(2, k));
    } else {
      var h := Pow(2, k - 1);
      HalfBelow(x, h);
      HalfBelow(m, h);
      BitAndSplit(k - 1, x / 2, y, m / 2, n);
      BitAndSplitStep(x, y, m, n, h, Pow(2, k));
    }
  }

  lemma BitAndSplitBase(x: nat, y: nat, m: nat, n: nat, p: nat)
    requires p == 1 && x < p && m < p
    ensures BitAnd(x + p * y, m + p * n) == BitAnd(x, m) + p * BitAnd(y, n)
  {
    assert x == 0 && m == 0;
    assert BitAnd(0, 0) == 0;
  }

  lemma HalfBelow(x: nat, h: nat)
    requires x < 2 * h
    ensures x / 2 < h
  {
  }

  lemma BitAndSplitStep(x: nat, y: nat, m: nat, n: nat, h: nat, p: nat)
    requires p == 2 * h
    requires BitAnd(x / 2 + h * y, m / 2 + h * n) == BitAnd(x / 2, m / 2) + h * BitAnd(y, n)
    ensures BitAnd(x + p * y, m + p * n) == BitAnd(x, m) + p * BitAnd(y, n)
  {
    var a, b := x + p * y, m + p * n;
    var low, high := BitAnd(x / 2, m / 2), BitAnd(y, n);
    var bit := if x % 2 == 1 && m % 2 == 1 then 1 else 0;
    MulAssoc(2, h, y);
    MulAssoc(2, h, n);
    MulAssoc(2, h, high);
    HalveSplit(x, h, y);
    HalveSplit(m, h, n);
    assert a / 2 == x / 2 + h * y && b / 2 == m / 2 + h * n;
    assert a % 2 == x % 2 && b % 2 == m % 2;
    BitAndUnfold(a, b);
    assert BitAnd(a, b) == 2 * BitAnd(a / 2, b / 2) + bit;
    assert BitAnd(a, b) == 2 * (low + h * high) + bit;
    BitAndUnfold(x, m);
    assert BitAnd(x, m) == 2 * low + bit;
  }

  lemma Pow2Byte()
    ensures Pow(2, 4) == 16 && Pow(2, 6) == 64 && Pow(2, 8) == 256
  {
    assert Pow(2, 1) == 2;
    assert Pow(2, 2) == 4;
    assert Pow(2, 3) == 8;
    assert Pow(2, 4) == 16;
    assert Pow(2, 5) == 32;
    assert Pow(2, 6) == 64;
    assert Pow(2, 7) == 128;
    assert Pow(2, 8) == 256;
  }

  /** `&` works byte by byte. */
  lemma BitAndSplitByte(x: nat, y: nat, m: nat, n: nat)
    requires x < 256 && m < 256
    ensures BitAnd(x + 256 * y, m + 256 * n) == BitAnd(x, m) + 256 * BitAnd(y, n)
  {
    Pow2Byte();
    BitAndSplit(8, x, y, m, n);
  }

  /** A mask with its two low bits clear clears the two low bits of the result. */
  lemma BitAndLowTwoClear(x: nat, m: nat)
    requires m % 4 == 0
    ensures BitAnd(x, m) == 4 * BitAnd(x / 4, m / 4)
  {
    BitAndUnfold(x, m);
    BitAndUnfold(x / 2, m / 2);
    assert x / 2 / 2 == x / 4 && m / 2 / 2 == m / 4;
  }
}
