/** Bytes, and the little-endian integers that the file formats are made of. */
module Bytes {

  type byte = x: int | 0 <= x < 256

  const TWO_16: nat := 0x1_0000
  const TWO_32: nat := 0x1_0000_0000

  function Le16(n: nat): (s: seq<byte>)
    requires n < TWO_16
    ensures |s| == 2 && Val16(s) == n
  {
    [n % 256, n / 256]
  }

  function Val16(s: seq<byte>): (n: nat)
    requires |s| == 2
    ensures n < TWO_16
  {
    s[0] as int + 256 * (s[1] as int)
  }

  function Le32(n: nat): (s: seq<byte>)
    requires n < TWO_32
    ensures |s| == 4 && Val32(s) == n
  {
    [n % 256, n / 256 % 256, n / 256 / 256 % 256, n / 256 / 256 / 256]
  }

  function Val32(s: seq<byte>): (n: nat)
    requires |s| == 4
    ensures n < TWO_32
  {
    s[0] as int + 256 * (s[1] as int) + 65536 * (s[2] as int) + 16777216 * (s[3] as int)
  }

  /** Four bytes are the encoding of their own value: the other half of the round trip. */
  lemma Le32OfVal32(s: seq<byte>)
    requires |s| == 4
    ensures Le32(Val32(s)) == s
  {
    var n := Val32(s);
    var b, c, d: int := s[1], s[2], s[3];
    assert n / 256 == b + 256 * c + 65536 * d;
    assert n / 256 / 256 == c + 256 * d;
    assert n / 256 / 256 / 256 == d;
  }

  lemma Le16OfVal16(s: seq<byte>)
    requires |s| == 2
    ensures Le16(Val16(s)) == s
  {
  }

  /** Little-endian: the bytes are the digits to base 256, the lowest first. */
  lemma {:induction false} LowestFirst(s: seq<byte>, n: nat)
    ensures |s| == 2 ==> (Val16(s) == n <==> n < TWO_16 && s[0] == n % 256 && s[1] == n / 256)
    ensures |s| == 4 ==> (Val32(s) == n <==> n < TWO_32 && Val16(s[..2]) == n % TWO_16 && Val16(s[2..]) == n / TWO_16)
  {
    if |s| == 4 {
      assert Val32(s) == Val16(s[..2]) + TWO_16 * Val16(s[2..]);
    }
  }
}
