/** `TextEncoder.encode`: UTF-8, with a decoder that undoes it. */
module Utf8 {
  import opened Octets
  import opened Utf16

  datatype Decoded = Bad | One(c: CodePoint, rest: seq<Byte>)

  datatype Text = NotUtf8 | Text(cs: seq<CodePoint>)

  /** A lone surrogate is replaced by U+FFFD, as TextEncoder does. */
  function EncodeOne(c: CodePoint): seq<Byte> {
    if !IsScalar(c) then [0xEF, 0xBF, 0xBD]
    else if c < 0x80 then [c]
    else if c < 0x800 then [0xC0 + c / 0x40, 0x80 + c % 0x40]
    else if c < 0x1_0000 then [0xE0 + c / 0x1000, 0x80 + c / 0x40 % 0x40, 0x80 + c % 0x40]
    else [0xF0 + c / 0x4_0000, 0x80 + c / 0x1000 % 0x40, 0x80 + c / 0x40 % 0x40, 0x80 + c % 0x40]
  }

  function Encode(cs: seq<CodePoint>): seq<Byte> {
    if cs == [] then [] else EncodeOne(cs[0]) + Encode(cs[1..])
  }

  predicate IsContinuation(b: Byte) {
    0x80 <= b < 0xC0
  }

  /** The payload of a lead byte whose marker is `mark`, or of a continuation byte. */
  function Bits(b: Byte, mark: int): int {
    b - mark
  }

  function DecodeOne(b: seq<Byte>): (r: Decoded)
    ensures r.One? ==> |r.rest| < |b|
  {
    if |b| >= 1 && b[0] < 0x80 then One(b[0], b[1..])
    else if |b| >= 2 && 0xC0 <= b[0] < 0xE0 && IsContinuation(b[1]) then
      One(Bits(b[0], 0xC0) * 0x40 + Bits(b[1], 0x80), b[2..])
    else if |b| >= 3 && 0xE0 <= b[0] < 0xF0 && IsContinuation(b[1]) && IsContinuation(b[2]) then
      One(Bits(b[0], 0xE0) * 0x1000 + Bits(b[1], 0x80) * 0x40 + Bits(b[2], 0x80), b[3..])
    else if |b| >= 4 && 0xF0 <= b[0] <= 0xF4 && (b[0] == 0xF4 ==> b[1] < 0x90)
            && IsContinuation(b[1]) && IsContinuation(b[2]) && IsContinuation(b[3]) then
      One(Bits(b[0], 0xF0) * 0x4_0000 + Bits(b[1], 0x80) * 0x1000 + Bits(b[2], 0x80) * 0x40 + Bits(b[3], 0x80), b[4..])
    else Bad
  }

  function Decode(b: seq<Byte>): Text
    decreases |b|
  {
    if b == [] then Text([])
    else
      var first := DecodeOne(b);
      if first.Bad? then NotUtf8
      else
        var others := Decode(first.rest);
        if others.NotUtf8? then NotUtf8 else Text([first.c] + others.cs)
  }

  lemma {:induction false} DecodeLong(c: CodePoint, rest: seq<Byte>)
    requires c >= 0x1_0000
    ensures DecodeOne(EncodeOne(c) + rest) == One(c, rest)
  {
    assert (EncodeOne(c) + rest)[4..] == rest;
    assert c / 0x4_0000 * 0x40 + c / 0x1000 % 0x40 == c / 0x1000;
    assert c / 0x1000 * 0x40 + c / 0x40 % 0x40 == c / 0x40;
  }

  /** The encoding of one code point ends where it says, whatever follows. */
  lemma {:induction false} DecodeEncodeOne(c: CodePoint, rest: seq<Byte>)
    requires IsScalar(c)
    ensures DecodeOne(EncodeOne(c) + rest) == One(c, rest)
  {
    if c >= 0x1_0000 {
      DecodeLong(c, rest);
    } else if c >= 0x800 {
      assert (EncodeOne(c) + rest)[3..] == rest;
      assert c / 0x1000 * 0x40 + c / 0x40 % 0x40 == c / 0x40;
    } else {
      assert (EncodeOne(c) + rest)[|EncodeOne(c)|..] == rest;
    }
  }

  lemma {:induction false} DecodeEncode(cs: seq<CodePoint>)
    requires AllScalar(cs)
    ensures Decode(Encode(cs)) == Text(cs)
  {
    if cs != [] {
      DecodeEncodeOne(cs[0], Encode(cs[1..]));
      assert AllScalar(cs[1..]);
      DecodeEncode(cs[1..]);
      assert cs == [cs[0]] + cs[1..];
    }
  }
}
