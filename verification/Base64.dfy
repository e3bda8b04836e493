/** Base 64 as `Buffer` writes and reads it, and the unpadded URL form the canonical printer derives from it. */
module Base64 {
  import opened Octets
  import opened Utf16

  const PAD: CodeUnit := 0x3D

  type Sextet = v: int | 0 <= v < 64

  /** Six bits at a time; a last group of one or two bytes gives two or three sextets. */
  function Sextets(b: seq<Byte>): (s: seq<Sextet>)
    ensures |s| == (4 * |b| + 2) / 3
  {
    if |b| == 0 then []
    else if |b| == 1 then [b[0] / 4, b[0] % 4 * 16]
    else if |b| == 2 then [b[0] / 4, b[0] % 4 * 16 + b[1] / 16, b[1] % 16 * 4]
    else [b[0] / 4, b[0] % 4 * 16 + b[1] / 16, b[1] % 16 * 4 + b[2] / 64, b[2] % 64] + Sextets(b[3..])
  }

  function Bytes(s: seq<Sextet>): seq<Byte> {
    if |s| <= 1 then []
    else if |s| == 2 then [High(s[0], s[1])]
    else if |s| == 3 then [High(s[0], s[1]), Middle(s[1], s[2])]
    else [High(s[0], s[1]), Middle(s[1], s[2]), Low(s[2], s[3])] + Bytes(s[4..])
  }

  function High(v: int, w: int): Byte
    requires 0 <= v < 64 && 0 <= w < 64
  {
    v * 4 + w / 16
  }

  function Middle(v: int, w: int): Byte
    requires 0 <= v < 64 && 0 <= w < 64
  {
    v % 16 * 16 + w / 4
  }

  function Low(v: int, w: int): Byte
    requires 0 <= v < 64 && 0 <= w < 64
  {
    v % 4 * 64 + w
  }

  lemma {:induction false} BytesOfSextets(b: seq<Byte>)
    ensures Bytes(Sextets(b)) == b
  {
    if |b| >= 3 {
      BytesOfSextets(b[3..]);
      assert Sextets(b)[4..] == Sextets(b[3..]);
      assert b == [b[0], b[1], b[2]] + b[3..];
    }
  }

  /** The standard alphabet: A-Z a-z 0-9 + / */
  function Letter(v: Sextet): CodeUnit {
    if v < 26 then 0x41 + v
    else if v < 52 then 0x61 + (v - 26)
    else if v < 62 then 0x30 + (v - 52)
    else if v == 62 then 0x2B
    else 0x2F
  }

  predicate InAlphabet(u: CodeUnit) {
    0x41 <= u <= 0x5A || 0x61 <= u <= 0x7A || 0x30 <= u <= 0x39 || u == 0x2B || u == 0x2F
  }

  predicate InUrlAlphabet(u: CodeUnit) {
    0x41 <= u <= 0x5A || 0x61 <= u <= 0x7A || 0x30 <= u <= 0x39 || u == 0x2D || u == 0x5F
  }

  /** The value of a letter of either alphabet; `Buffer.from` accepts both. */
  function ValueOf(u: CodeUnit): Sextet {
    if 0x41 <= u <= 0x5A then u - 0x41
    else if 0x61 <= u <= 0x7A then u - 0x61 + 26
    else if 0x30 <= u <= 0x39 then u - 0x30 + 52
    else if u == 0x2B || u == 0x2D then 62
    else 63
  }

  function Letters(s: seq<Sextet>): (r: JsString)
    ensures |r| == |s|
    ensures forall i :: 0 <= i < |s| ==> r[i] == Letter(s[i])
  {
    seq(|s|, i requires 0 <= i < |s| => Letter(s[i]))
  }

  function Values(t: JsString): (r: seq<Sextet>)
    ensures |r| == |t|
    ensures forall i :: 0 <= i < |t| ==> r[i] == ValueOf(t[i])
  {
    seq(|t|, i requires 0 <= i < |t| => ValueOf(t[i]))
  }

  function Pads(n: nat): (r: JsString)
    ensures |r| == n
    ensures forall u <- r :: u == PAD
  {
    seq(n, i => PAD)
  }

  /** `Buffer.toString('base64')`. */
  function Encode(b: seq<Byte>): JsString {
    Letters(Sextets(b)) + Pads((3 - |b| % 3) % 3)
  }

  /** `Buffer.from(t, 'base64')` on text that holds letters of the alphabet and then padding. */
  function Decode(t: JsString): seq<Byte> {
    Bytes(Values(DropPadding(t)))
  }

  function DropPadding(t: JsString): JsString {
    if t != [] && t[|t| - 1] == PAD then DropPadding(t[..|t| - 1]) else t
  }

  /** The text test of `dsseEnvelopeToStatement`: letters, at most two pads, length a multiple of four. */
  predicate IsPaddedText(t: JsString) {
    && |t| % 4 == 0
    && |t| - |DropPadding(t)| <= 2
    && forall u <- DropPadding(t) :: InAlphabet(u)
  }

  function ToUrl(t: JsString): (r: JsString)
    ensures |r| == |t|
    ensures forall i :: 0 <= i < |t| ==> r[i] == UrlLetter(t[i])
  {
    seq(|t|, i requires 0 <= i < |t| => UrlLetter(t[i]))
  }

  function UrlLetter(u: CodeUnit): CodeUnit {
    if u == 0x2B then 0x2D else if u == 0x2F then 0x5F else u
  }

  /** The encoder of byte arrays in canonical payloads: standard text, two letters replaced, padding dropped. */
  function ToBase64UrlNoPad(b: seq<Byte>): JsString {
    DropPadding(ToUrl(Encode(b)))
  }

  // ----- Nothing is lost -----

  lemma {:induction false} DropPaddingOfPadded(t: JsString, n: nat)
    requires forall u <- t :: u != PAD
    ensures DropPadding(t + Pads(n)) == t
  {
    var padded := t + Pads(n);
    if n == 0 {
      assert padded == t;
      assert t != [] ==> t[|t| - 1] in t;
    } else {
      assert padded[..|padded| - 1] == t + Pads(n - 1);
      DropPaddingOfPadded(t, n - 1);
    }
  }

  lemma ValuesOfLetters(s: seq<Sextet>)
    ensures Values(Letters(s)) == s
    ensures Values(ToUrl(Letters(s))) == s
    ensures forall u <- Letters(s) :: u != PAD && InAlphabet(u)
    ensures forall u <- ToUrl(Letters(s)) :: u != PAD && InUrlAlphabet(u)
  {
  }

  lemma EncodedLength(n: nat)
    ensures ((4 * n + 2) / 3 + (3 - n % 3) % 3) % 4 == 0
  {
    var q, r := n / 3, n % 3;
    assert n == 3 * q + r;
    if r == 0 {
      assert (4 * n + 2) / 3 == 4 * q;
    } else if r == 1 {
      assert (4 * n + 2) / 3 == 4 * q + 2;
    } else {
      assert (4 * n + 2) / 3 == 4 * q + 3;
    }
  }

  /** Section 4 of RFC 4648: encoded bytes pass the envelope's text test and are read back. */
  lemma DecodeEncode(b: seq<Byte>)
    ensures Decode(Encode(b)) == b
    ensures IsPaddedText(Encode(b))
  {
    var letters, n := Letters(Sextets(b)), (3 - |b| % 3) % 3;
    assert Values(letters) == Sextets(b) && (forall u <- letters :: u != PAD && InAlphabet(u)) by {
      ValuesOfLetters(Sextets(b));
    }
    DropPaddingOfPadded(letters, n);
    assert DropPadding(Encode(b)) == letters;
    EncodedLength(|b|);
    BytesOfSextets(b);
  }

  /** Section 5 of RFC 4648: the unpadded URL text uses only the URL alphabet and is read back. */
  lemma DecodeUrl(b: seq<Byte>)
    ensures Decode(ToBase64UrlNoPad(b)) == b
    ensures forall u <- ToBase64UrlNoPad(b) :: InUrlAlphabet(u)
  {
    var letters := ToUrl(Letters(Sextets(b)));
    var n := (3 - |b| % 3) % 3;
    ValuesOfLetters(Sextets(b));
    assert ToUrl(Encode(b)) == letters + Pads(n);
    DropPaddingOfPadded(letters, n);
    DropPaddingOfPadded(letters, 0);
    assert letters + Pads(0) == letters;
    BytesOfSextets(b);
  }
}
