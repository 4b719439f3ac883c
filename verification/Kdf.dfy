/**
  The comparison BSP checks its MACs with.
 */
module Kdf {
  import opened Bytes

  /** Equality that visits every octet: the differences are or-ed together and tested once. */
  method ConstantTimeEq(a: bytes, b: bytes) returns (equal: bool)
    ensures equal <==> a == b
  {
    if |a| != |b| {
      return false;
    }
    var diff: byte := 0;
    for i := 0 to |a|
      invariant diff == 0 <==> a[..i] == b[..i]
    {
      BitOrIsZeroOnlyOnZeros(diff as nat, Xor(a[i], b[i]) as nat);
      BitXorIsZeroOnlyOnEqual(a[i] as nat, b[i] as nat);
      assert a[..i + 1] == a[..i] + [a[i]] && b[..i + 1] == b[..i] + [b[i]];
      diff := Or(diff, Xor(a[i], b[i]));
    }
    equal := diff == 0;
  }
}
