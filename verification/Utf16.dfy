/** Strings as JavaScript holds them: sequences of UTF-16 code units, read back code point by code point. */
module Utf16 {
  type CodePoint = c: int | 0 <= c < 0x11_0000

  type CodeUnit = u: CodePoint | u < 0x1_0000

  type JsString = seq<CodeUnit>

  /** Text of the basic plane, one code unit a character. */
  function FromText(s: string): (t: JsString)
    ensures |t| == |s|
    ensures forall i :: 0 <= i < |s| ==> t[i] == Unit(s[i])
  {
    seq(|s|, i requires 0 <= i < |s| => Unit(s[i]))
  }

  function Unit(c: char): CodeUnit {
    if c as int < 0x1_0000 then c as int else 0xFFFD
  }

  predicate IsHigh(u: int) {
    0xD800 <= u <= 0xDBFF
  }

  predicate IsLow(u: int) {
    0xDC00 <= u <= 0xDFFF
  }

  /** A code point that is not half of a surrogate pair. */
  predicate IsScalar(c: int) {
    !(0xD800 <= c <= 0xDFFF)
  }

  /** The code point of a surrogate pair. */
  function Paired(high: int, low: int): CodePoint
    requires IsHigh(high) && IsLow(low)
  {
    0x1_0000 + (high - 0xD800) * 0x400 + (low - 0xDC00)
  }

  /** What `for (const ch of s)` yields: pairs joined, a lone surrogate as itself. */
  function CodePoints(s: JsString): seq<CodePoint> {
    if s == [] then []
    else if |s| >= 2 && IsHigh(s[0]) && IsLow(s[1]) then
      [Paired(s[0], s[1])] + CodePoints(s[2..])
    else [s[0]] + CodePoints(s[1..])
  }

  function UnitsOf(c: CodePoint): JsString {
    if c < 0x1_0000 then [c]
    else [0xD800 + (c - 0x1_0000) / 0x400, 0xDC00 + (c - 0x1_0000) % 0x400]
  }

  function Units(cs: seq<CodePoint>): JsString {
    if cs == [] then [] else UnitsOf(cs[0]) + Units(cs[1..])
  }

  /** No lone surrogate: the strings that have a UTF-8 encoding. */
  predicate AllScalar(cs: seq<CodePoint>) {
    forall c <- cs :: IsScalar(c)
  }

  /** Reading a string by code point loses nothing, lone surrogates included. */
  lemma {:induction false} UnitsOfCodePoints(s: JsString)
    ensures Units(CodePoints(s)) == s
  {
    if s == [] {
    } else if |s| >= 2 && IsHigh(s[0]) && IsLow(s[1]) {
      UnitsOfCodePoints(s[2..]);
      var c := CodePoints(s)[0];
      assert CodePoints(s)[1..] == CodePoints(s[2..]);
      assert UnitsOf(c) == [s[0], s[1]];
      assert s == [s[0], s[1]] + s[2..];
    } else {
      UnitsOfCodePoints(s[1..]);
      assert CodePoints(s)[1..] == CodePoints(s[1..]);
      assert s == [s[0]] + s[1..];
    }
  }

  // ----- The order of `Array.prototype.sort` on strings: code units, shorter prefix first -----

  predicate Less(a: JsString, b: JsString) {
    b != [] && (a == [] || a[0] < b[0] || (a[0] == b[0] && Less(a[1..], b[1..])))
  }

  lemma {:induction false} LessTrichotomy(a: JsString, b: JsString)
    ensures a == b ==> !Less(a, b)
    ensures a != b ==> Less(a, b) != Less(b, a)
  {
    if a != [] && b != [] && a[0] == b[0] {
      LessTrichotomy(a[1..], b[1..]);
      assert a == [a[0]] + a[1..] && b == [b[0]] + b[1..];
    }
  }

  lemma {:induction false} LessTransitive(a: JsString, b: JsString, c: JsString)
    requires Less(a, b) && Less(b, c)
    ensures Less(a, c)
  {
    if a != [] && a[0] == b[0] == c[0] {
      LessTransitive(a[1..], b[1..], c[1..]);
    }
  }
}
