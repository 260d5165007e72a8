/**
 * UTF-8 as RFC 3629 defines it: the encoding Rust uses for every `String` and `&str`,
 * and the well-formedness test that `str::from_utf8` applies to a byte string.
 */
module Utf8 {
  import opened Bytes

  /** The one to four bytes that encode one Unicode scalar value. */
  function EncodeChar(c: char): (b: seq<byte>)
    ensures 1 <= |b| <= 4
    ensures b[0] < 0x80 <==> c as int < 0x80
    ensures c as int < 0x80 ==> b == [c as int]
  {
    var n := c as int;
    if n < 0x80 then [n]
    else if n < 0x800 then [0xC0 + n / 0x40, 0x80 + n % 0x40]
    else if n < 0x1_0000 then [0xE0 + n / 0x1000, 0x80 + (n / 0x40) % 0x40, 0x80 + n % 0x40]
    else [0xF0 + n / 0x4_0000, 0x80 + (n / 0x1000) % 0x40, 0x80 + (n / 0x40) % 0x40, 0x80 + n % 0x40]
  }

  /** The bytes of a string, as `as_bytes` gives them. */
  function Encode(s: string): (b: seq<byte>)
    ensures |b| >= |s|
    ensures s == [] <==> b == []
  {
    if s == [] then [] else EncodeChar(s[0]) + Encode(s[1..])
  }

  predicate IsContinuation(x: byte) {
    0x80 <= x <= 0xBF
  }

  /**
   * The length of the well-formed sequence that starts b, or 0 when b does not start with one
   * (the table of well-formed byte sequences of RFC 3629, section 4).
   */
  function SequenceLength(b: seq<byte>): (k: nat)
    requires |b| > 0
    ensures k <= |b| && k <= 4
  {
    var b0 := b[0];
    if b0 < 0x80 then 1
    else if 0xC2 <= b0 <= 0xDF then
      if |b| >= 2 && IsContinuation(b[1]) then 2 else 0
    else if 0xE0 <= b0 <= 0xEF then
      var lo := if b0 == 0xE0 then 0xA0 else 0x80;
      var hi := if b0 == 0xED then 0x9F else 0xBF;
      if |b| >= 3 && lo <= b[1] <= hi && IsContinuation(b[2]) then 3 else 0
    else if 0xF0 <= b0 <= 0xF4 then
      var lo := if b0 == 0xF0 then 0x90 else 0x80;
      var hi := if b0 == 0xF4 then 0x8F else 0xBF;
      if |b| >= 4 && lo <= b[1] <= hi && IsContinuation(b[2]) && IsContinuation(b[3]) then 4 else 0
    else 0
  }

  /** Well-formed UTF-8: what `str::from_utf8` (and `CStr::to_str`) accepts. */
  predicate IsValid(b: seq<byte>)
    decreases |b|
  {
    b == [] || (SequenceLength(b) > 0 && IsValid(b[SequenceLength(b)..]))
  }

  lemma EncodeCharLength(c: char, rest: seq<byte>)
    ensures SequenceLength(EncodeChar(c) + rest) == |EncodeChar(c)|
  {
    EncodeCharWellFormed(c);
    SequenceLengthPrefix(EncodeChar(c), rest);
  }

  /** The encoding of one scalar value is one well-formed sequence of its own length. */
  lemma EncodeCharWellFormed(c: char)
    ensures SequenceLength(EncodeChar(c)) == |EncodeChar(c)|
  {
    var n := c as int;
    var b := EncodeChar(c);
    if 0x80 <= n < 0x800 {
      TwoByteBounds(n);
      assert b == [0xC0 + n / 0x40, 0x80 + n % 0x40];
    } else if 0x800 <= n < 0x1_0000 {
      ThreeByteBounds(n);
      assert b == [0xE0 + n / 0x1000, 0x80 + (n / 0x40) % 0x40, 0x80 + n % 0x40];
    } else if 0x1_0000 <= n {
      FourByteBounds(n);
      assert b == [0xF0 + n / 0x4_0000, 0x80 + (n / 0x1000) % 0x40, 0x80 + (n / 0x40) % 0x40, 0x80 + n % 0x40];
    }
  }

  lemma TwoByteBounds(n: int)
    requires 0x80 <= n < 0x800
    ensures 0xC2 <= 0xC0 + n / 0x40 <= 0xDF && IsContinuation(0x80 + n % 0x40)
  {
  }

  /** Three bytes: no overlong form after 0xE0, and no surrogate after 0xED. */
  lemma ThreeByteBounds(n: int)
    requires 0x800 <= n < 0x1_0000 && (n < 0xD800 || 0xE000 <= n)
    ensures 0xE0 <= 0xE0 + n / 0x1000 <= 0xEF
    ensures IsContinuation(0x80 + (n / 0x40) % 0x40) && IsContinuation(0x80 + n % 0x40)
    ensures n / 0x1000 == 0 ==> 0xA0 <= 0x80 + (n / 0x40) % 0x40
    ensures n / 0x1000 == 0xD ==> 0x80 + (n / 0x40) % 0x40 <= 0x9F
  {
  }

  /** Four bytes: no overlong form after 0xF0, and nothing past U+10FFFF after 0xF4. */
  lemma FourByteBounds(n: int)
    requires 0x1_0000 <= n < 0x11_0000
    ensures 0xF0 <= 0xF0 + n / 0x4_0000 <= 0xF4
    ensures IsContinuation(0x80 + (n / 0x1000) % 0x40) && IsContinuation(0x80 + (n / 0x40) % 0x40)
    ensures IsContinuation(0x80 + n % 0x40)
    ensures n / 0x4_0000 == 0 ==> 0x90 <= 0x80 + (n / 0x1000) % 0x40
    ensures n / 0x4_0000 == 4 ==> 0x80 + (n / 0x1000) % 0x40 <= 0x8F
  {
  }

  /** What follows a well-formed sequence does not change its length. */
  lemma SequenceLengthPrefix(a: seq<byte>, rest: seq<byte>)
    requires |a| > 0 && SequenceLength(a) == |a|
    ensures SequenceLength(a + rest) == |a|
  {
    var b := a + rest;
    assert forall i :: 0 <= i < |a| ==> b[i] == a[i];
  }

  /** Every string encodes to well-formed UTF-8. */
  lemma {:induction false} EncodeIsValid(s: string)
    ensures IsValid(Encode(s))
  {
    if s != [] {
      var b := Encode(s);
      EncodeCharLength(s[0], Encode(s[1..]));
      assert b[|EncodeChar(s[0])|..] == Encode(s[1..]);
      EncodeIsValid(s[1..]);
    }
  }

  predicate AllAscii(a: seq<byte>) {
    forall i :: 0 <= i < |a| ==> a[i] < 0x80
  }

  /** ASCII bytes in front of well-formed UTF-8 leave it well-formed. */
  lemma {:induction false} AsciiPrefixIsValid(a: seq<byte>, b: seq<byte>)
    requires AllAscii(a) && IsValid(b)
    ensures IsValid(a + b)
  {
    if a != [] {
      assert (a + b)[1..] == a[1..] + b;
      AsciiPrefixIsValid(a[1..], b);
    } else {
      assert a + b == b;
    }
  }

  /** Removing ASCII bytes from the front of well-formed UTF-8 leaves it well-formed. */
  lemma {:induction false} AsciiPrefixOfValid(a: seq<byte>, b: seq<byte>)
    requires AllAscii(a) && IsValid(a + b)
    ensures IsValid(b)
  {
    if a != [] {
      assert (a + b)[1..] == a[1..] + b;
      AsciiPrefixOfValid(a[1..], b);
    } else {
      assert a + b == b;
    }
  }

  /** A string whose bytes are all below 0x80 is ASCII and is its own byte string. */
  lemma {:induction false} AsciiOnlyEncoding(s: string)
    requires forall i :: 0 <= i < |Encode(s)| ==> Encode(s)[i] < 0x80
    ensures IsAscii(s) && Encode(s) == Ascii(s)
  {
    if s != [] {
      var b := Encode(s);
      assert b[0] == EncodeChar(s[0])[0];
      assert b[1..] == Encode(s[1..]);
      assert forall i :: 0 <= i < |Encode(s[1..])| ==> Encode(s[1..])[i] == b[i + 1];
      AsciiOnlyEncoding(s[1..]);
    }
  }

  lemma {:induction false} EncodeAppend(a: string, b: string)
    ensures Encode(a + b) == Encode(a) + Encode(b)
  {
    if a != [] {
      assert (a + b)[0] == a[0];
      assert (a + b)[1..] == a[1..] + b;
      EncodeAppend(a[1..], b);
    } else {
      assert a + b == b;
    }
  }

  /** Bytes that spell out an ASCII text character by character are its UTF-8 encoding. */
  lemma AsciiText(s: string, b: seq<byte>)
    requires IsAscii(s) && |s| == |b| && forall i :: 0 <= i < |s| ==> s[i] as int == b[i]
    ensures Encode(s) == b
  {
    EncodeAscii(s);
    var a := Ascii(s);
    assert |a| == |b| && forall i :: 0 <= i < |a| ==> a[i] == b[i];
  }

  /** On ASCII text, the UTF-8 encoding is the ASCII byte string. */
  lemma {:induction false} EncodeAscii(s: string)
    requires IsAscii(s)
    ensures Encode(s) == Ascii(s)
  {
    if s != [] {
      EncodeAscii(s[1..]);
    }
  }
}
