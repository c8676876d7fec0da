/**
 * IPv4 addresses as four parsed octets, and `IPEntry.ipCompare`
 * (SearchTree.java), which compares two addresses octet by octet.
 */
module Addresses {

  type Octet = x: int | 0 <= x < 256

  /** An address as the four numbers of its dotted-quad text, most significant first. */
  type Addr = s: seq<Octet> | |s| == 4 witness [0, 0, 0, 0]

  /** The unsigned 32-bit number an address stands for (big-endian). */
  function Value(a: Addr): nat
  {
    (a[0] as int) * 0x100_0000 + (a[1] as int) * 0x1_0000 + (a[2] as int) * 0x100 + a[3] as int
  }

  /**
   * What the loop of `ipCompare` returns once it has found the octets before
   * index `i` equal: the difference of the first differing octet, or 0.
   */
  function CompareFrom(a: Addr, b: Addr, i: nat): (r: int)
    requires i <= 4
    ensures -255 <= r <= 255
    ensures r == 0 <==> forall j :: i <= j < 4 ==> a[j] == b[j]
    decreases 4 - i
  {
    if i == 4 then 0
    else if a[i] != b[i] then a[i] as int - b[i] as int
    else CompareFrom(a, b, i + 1)
  }

  /**
   * The result of `ipCompare(a, b)`. It is zero exactly for equal addresses and
   * otherwise has the sign of the numeric comparison: octet-by-octet order is the
   * order of the 32-bit values.
   */
  function Compare(a: Addr, b: Addr): (r: int)
    ensures r == 0 <==> a == b
    ensures r < 0 <==> Value(a) < Value(b)
    ensures r > 0 <==> Value(a) > Value(b)
    ensures -255 <= r <= 255
  {
    LexicographicIsNumeric(a, b, 0);
    CompareFrom(a, b, 0)
  }

  /**
   * Once the first `i` octets agree, `CompareFrom` decides by the first
   * differing octet, and that octet alone decides the numeric order.
   */
  lemma {:induction false} LexicographicIsNumeric(a: Addr, b: Addr, i: nat)
    requires i <= 4
    requires forall j :: 0 <= j < i ==> a[j] == b[j]
    ensures CompareFrom(a, b, i) == 0 <==> a == b
    ensures CompareFrom(a, b, i) < 0 <==> Value(a) < Value(b)
    ensures CompareFrom(a, b, i) > 0 <==> Value(a) > Value(b)
    ensures -255 <= CompareFrom(a, b, i) <= 255
    decreases 4 - i
  {
    if i == 4 {
      assert a == b by {
        assert forall j :: 0 <= j < 4 ==> a[j] == b[j];
      }
    } else if a[i] != b[i] {
      assert a != b;
    } else {
      LexicographicIsNumeric(a, b, i + 1);
    }
  }

  /** Distinct addresses have distinct values. */
  lemma ValueInjective(a: Addr, b: Addr)
    ensures Value(a) == Value(b) <==> a == b
  {
    assert Compare(a, b) == 0 <==> a == b;
  }

  /**
   * `ipCompare`: walks the four octets and returns at the first difference
   * (SearchTree.java:49-66).
   */
  method IpCompare(ip1: Addr, ip2: Addr) returns (r: int)
    ensures r == Compare(ip1, ip2)
  {
    for i := 0 to 4
      invariant CompareFrom(ip1, ip2, i) == CompareFrom(ip1, ip2, 0)
    {
      var tempa: int, tempb: int := ip1[i], ip2[i];
      if tempa != tempb {
        return tempa - tempb;
      }
    }
    return 0;
  }
}
