/** Base-16 text of byte strings, as the `hex` crate's `encode` and `decode` define it. */
module Hex {
  import opened Wrappers
  import opened Bytes

  predicate IsLowerHexChar(c: char) {
    '0' <= c <= '9' || 'a' <= c <= 'f'
  }

  function HexDigit(v: nat): (c: char)
    requires v < 16
    ensures IsLowerHexChar(c)
  {
    if v < 10 then (v + '0' as int) as char else (v - 10 + 'a' as int) as char
  }

  /** `hex::encode`: two lowercase digits per byte, high nibble first. */
  function Encode(b: seq<byte>): (s: string)
    ensures |s| == 2 * |b|
    ensures forall i :: 0 <= i < |s| ==> IsLowerHexChar(s[i])
  {
    if b == [] then [] else [HexDigit(b[0] / 16), HexDigit(b[0] % 16)] + Encode(b[1..])
  }

  /** The bytes `hex::decode` accepts as digits: 0-9, A-F and a-f. */
  predicate IsHexByte(x: byte) {
    48 <= x <= 57 || 65 <= x <= 70 || 97 <= x <= 102
  }

  function HexValue(x: byte): (v: nat)
    requires IsHexByte(x)
    ensures v < 16
  {
    if x <= 57 then x - 48 else if x <= 70 then x - 55 else x - 87
  }

  /** `hex::decode`: fails on an odd length and on any byte that is not a hex digit. */
  function Decode(s: seq<byte>): (r: Option<seq<byte>>)
    ensures r.Some? <==> |s| % 2 == 0 && forall i :: 0 <= i < |s| ==> IsHexByte(s[i])
    ensures r.Some? ==> 2 * |r.value| == |s|
    decreases |s|
  {
    if |s| % 2 == 1 then None
    else if s == [] then Some([])
    else if IsHexByte(s[0]) && IsHexByte(s[1]) then
      match Decode(s[2..])
      case None => None
      case Some(rest) => Some([HexValue(s[0]) * 16 + HexValue(s[1])] + rest)
    else None
  }

  lemma HexDigitValue(v: nat)
    requires v < 16
    ensures IsHexByte(HexDigit(v) as int) && HexValue(HexDigit(v) as int) == v
  {
  }

  /** Decoding the encoding of a byte string gives it back. */
  lemma {:induction false} DecodeEncode(b: seq<byte>)
    ensures Decode(Ascii(Encode(b))) == Some(b)
  {
    if b != [] {
      var e := Encode(b);
      var s := Ascii(e);
      var t := Ascii(Encode(b[1..]));
      DecodeEncode(b[1..]);
      assert e == [HexDigit(b[0] / 16), HexDigit(b[0] % 16)] + Encode(b[1..]);
      assert e[2..] == Encode(b[1..]);
      assert s[2..] == t;
      assert s[0] == e[0] as int && s[1] == e[1] as int;
      DecodePair(b[0], s, b[1..]);
      assert [b[0]] + b[1..] == b;
    }
  }

  /** Two digits of one byte, followed by the text of the rest. */
  lemma DecodePair(v: byte, s: seq<byte>, rest: seq<byte>)
    requires |s| >= 2 && s[0] == HexDigit(v / 16) as int && s[1] == HexDigit(v % 16) as int
    requires Decode(s[2..]) == Some(rest)
    ensures Decode(s) == Some([v] + rest)
  {
    HexDigitValue(v / 16);
    HexDigitValue(v % 16);
    assert HexValue(s[0]) * 16 + HexValue(s[1]) == v;
    assert |s| % 2 == 0;
  }

  /** Encoding is one-to-one, so a digest is determined by its hex text. */
  lemma {:induction false} EncodeInjective(a: seq<byte>, b: seq<byte>)
    requires Encode(a) == Encode(b)
    ensures a == b
  {
    DecodeEncode(a);
    DecodeEncode(b);
  }
}
