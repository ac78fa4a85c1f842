/** Lower-case hexadecimal encoding of bytes (encoding/hex.EncodeToString) and the decoder
    that inverts it (encoding/hex.DecodeString). */
module Hex {
  import opened GoTypes

  /** The character for a nibble: '0'-'9', then 'a'-'f'. */
  function HexDigit(v: int): (c: Byte)
    requires 0 <= v < 16
  {
    if v < 10 then 48 + v else 87 + v
  }

  /** The value of a hexadecimal character, either case. */
  function HexValue(c: Byte): Option<int> {
    if 48 <= c <= 57 then Some(c - 48)
    else if 97 <= c <= 102 then Some(c - 87)
    else if 65 <= c <= 70 then Some(c - 55)
    else None
  }

  predicate IsLowerHex(c: Byte) {
    48 <= c <= 57 || 97 <= c <= 102
  }

  /** Two characters per byte, high nibble first. */
  function EncodeToString(bs: Bytes): (r: Bytes)
    ensures |r| == 2 * |bs|
    ensures forall i :: 0 <= i < |r| ==> IsLowerHex(r[i])
  {
    if bs == [] then [] else [HexDigit(bs[0] / 16), HexDigit(bs[0] % 16)] + EncodeToString(bs[1..])
  }

  function DecodeString(s: Bytes): Option<Bytes>
    decreases |s|
  {
    if s == [] then Some([])
    else if |s| == 1 then None
    else
      match (HexValue(s[0]), HexValue(s[1]), DecodeString(s[2..]))
      case (Some(hi), Some(lo), Some(rest)) =>
        if 0 <= hi * 16 + lo < 256 then Some([hi * 16 + lo] + rest) else None
      case _ => None
  }

  lemma {:induction false} DecodeEncode(bs: Bytes)
    ensures DecodeString(EncodeToString(bs)) == Some(bs)
  {
    if bs != [] {
      var s := EncodeToString(bs);
      assert s[2..] == EncodeToString(bs[1..]);
      DecodeEncode(bs[1..]);
      assert HexValue(s[0]) == Some(bs[0] / 16);
      assert HexValue(s[1]) == Some(bs[0] % 16);
      assert (bs[0] / 16) * 16 + bs[0] % 16 == bs[0];
      assert [bs[0]] + bs[1..] == bs;
    }
  }

  /** Encoding distributes over concatenation. */
  lemma {:induction false} EncodeAppend(a: Bytes, b: Bytes)
    ensures EncodeToString(a + b) == EncodeToString(a) + EncodeToString(b)
  {
    if a != [] {
      assert (a + b)[1..] == a[1..] + b;
      EncodeAppend(a[1..], b);
    } else {
      assert a + b == b;
    }
  }
}
