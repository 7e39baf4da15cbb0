/** Hexadecimal text of byte strings as Go's encoding/hex package writes and
    reads it: two digits per byte, high nibble first, lower case on output. */
module HexCodec {
  import opened Text

  /** The lower-case hex digit of a nibble. */
  function HexDigit(v: nat): (c: Byte)
    requires v < 16
  {
    if v < 10 then '0' as int + v else 'a' as int + (v - 10)
  }

  predicate IsLowerHex(c: Byte)
  {
    '0' as int <= c <= '9' as int || 'a' as int <= c <= 'f' as int
  }

  predicate IsHex(c: Byte)
  {
    IsLowerHex(c) || 'A' as int <= c <= 'F' as int
  }

  predicate AllLowerHex(s: Bytes)
  {
    forall k :: 0 <= k < |s| ==> IsLowerHex(s[k])
  }

  /** The nibble a hex digit of either case stands for. */
  function NibbleOf(c: Byte): (v: nat)
    requires IsHex(c)
    ensures v < 16
    ensures IsLowerHex(c) ==> HexDigit(v) == c
  {
    if c <= '9' as int then c - '0' as int
    else if c <= 'F' as int then c - 'A' as int + 10
    else c - 'a' as int + 10
  }

  /** hex.Encode: each byte becomes two lower-case digits, high nibble first. */
  function Encode(src: Bytes): (r: Bytes)
    ensures |r| == 2 * |src|
    ensures forall k :: 0 <= k < |src| ==> r[2 * k] == HexDigit(src[k] / 16) && r[2 * k + 1] == HexDigit(src[k] % 16)
    ensures AllLowerHex(r)
  {
    if src == [] then [] else [HexDigit(src[0] / 16), HexDigit(src[0] % 16)] + Encode(src[1..])
  }

  /** The inverse of Encode: pairs of digits of either case; an odd length or a
      non-hex byte is an error. */
  function Decode(h: Bytes): (r: Option<Bytes>)
    ensures r.Some? ==> 2 * |r.value| == |h|
    decreases |h|
  {
    if h == [] then Some([])
    else if |h| == 1 || !IsHex(h[0]) || !IsHex(h[1]) then None
    else match Decode(h[2..])
      case None => None
      case Some(rest) => Some([NibbleOf(h[0]) * 16 + NibbleOf(h[1])] + rest)
  }

  lemma DecodeByte(b: Byte)
    ensures NibbleOf(HexDigit(b / 16)) * 16 + NibbleOf(HexDigit(b % 16)) == b
  {
  }

  /** Decoding undoes encoding. */
  lemma {:induction false} DecodeEncode(src: Bytes)
    ensures Decode(Encode(src)) == Some(src)
  {
    if src != [] {
      var e := Encode(src);
      assert e == [HexDigit(src[0] / 16), HexDigit(src[0] % 16)] + Encode(src[1..]);
      assert e[2..] == Encode(src[1..]);
      DecodeEncode(src[1..]);
      DecodeByte(src[0]);
      assert src == [src[0]] + src[1..];
    }
  }

  /** Encoding undoes decoding of lower-case text. */
  lemma {:induction false} EncodeDecode(h: Bytes)
    requires AllLowerHex(h) && |h| % 2 == 0
    ensures Decode(h).Some? && Encode(Decode(h).value) == h
    decreases |h|
  {
    if h != [] {
      EncodeDecode(h[2..]);
      var b := NibbleOf(h[0]) * 16 + NibbleOf(h[1]);
      assert b / 16 == NibbleOf(h[0]) && b % 16 == NibbleOf(h[1]);
      assert h == [h[0], h[1]] + h[2..];
    }
  }

  /** hex.Encode(dst, src): writes the encoding of src into the first 2·|src|
      bytes of dst and leaves the rest of dst alone. */
  method EncodeInto(dst: array<Byte>, src: Bytes)
    requires 2 * |src| <= dst.Length
    modifies dst
    ensures dst[..2 * |src|] == Encode(src)
    ensures dst[2 * |src|..] == old(dst[2 * |src|..])
  {
    var i := 0;
    while i < |src|
      invariant 0 <= i <= |src|
      invariant forall k :: 0 <= k < i ==> dst[2 * k] == HexDigit(src[k] / 16) && dst[2 * k + 1] == HexDigit(src[k] % 16)
      invariant forall p :: 2 * i <= p < dst.Length ==> dst[p] == old(dst[p])
    {
      dst[2 * i] := HexDigit(src[i] / 16);
      dst[2 * i + 1] := HexDigit(src[i] % 16);
      i := i + 1;
    }
    var e := Encode(src);
    forall p | 0 <= p < 2 * |src|
      ensures dst[p] == e[p]
    {
      var k := p / 2;
      assert p == 2 * k || p == 2 * k + 1;
      assert dst[2 * k] == e[2 * k] && dst[2 * k + 1] == e[2 * k + 1];
    }
    assert dst[..2 * |src|] == e;
  }
}
