/** The pure-Python fallback of `constant_time_compare`. */
module Compare {
  import opened Bits
  import opened LittleEndian

  /** False when the lengths differ; otherwise ORs together the XOR of every
      byte pair and reports whether the result is zero. */
  method ConstantTimeCompare(a: seq<byte>, b: seq<byte>) returns (equal: bool)
    ensures |a| != |b| ==> !equal
    ensures equal <==> a == b
  {
    if |a| != |b| {
      return false;
    }
    var result: nat := 0;
    var i := 0;
    while i < |a|
      invariant 0 <= i <= |a|
      invariant result == 0 <==> a[..i] == b[..i]
    {
      assert a[..i + 1] == a[..i] + [a[i]] && b[..i + 1] == b[..i] + [b[i]];
      result := BitOr(result, BitXor(a[i], b[i]));
      i := i + 1;
    }
    assert a[..|a|] == a && b[..|b|] == b;
    return result == 0;
  }
}
