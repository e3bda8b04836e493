/**
 * The text normaliser: which texts it takes, and its last two stages. Normal form C and lower case are
 * not modelled.
 */
module CanonicalText {
  import opened Utf16

  const SPACE: CodeUnit := 0x20

  predicate IsZeroWidth(c: CodePoint) {
    c == 0x200B || c == 0x200C || c == 0x200D || c == 0xFEFF
  }

  /** What `\s` matches; all of it lies in the basic plane. */
  predicate IsWhitespace(c: CodePoint) {
    || 0x09 <= c <= 0x0D || c == 0x20 || c == 0xA0 || c == 0x1680 || 0x2000 <= c <= 0x200A
    || c == 0x2028 || c == 0x2029 || c == 0x202F || c == 0x205F || c == 0x3000 || c == 0xFEFF
  }

  // ----- Rejecting -----

  /** No null character, and no surrogate outside a pair. */
  predicate WellFormed(s: JsString) {
    0 !in s && AllScalar(CodePoints(s))
  }

  lemma WellFormedStep(s: JsString)
    requires s != []
    ensures s[0] == 0 ==> !WellFormed(s)
    ensures IsHigh(s[0]) && |s| >= 2 && IsLow(s[1]) ==> (WellFormed(s) <==> WellFormed(s[2..]))
    ensures IsHigh(s[0]) && !(|s| >= 2 && IsLow(s[1])) ==> !WellFormed(s)
    ensures IsLow(s[0]) ==> !WellFormed(s)
    ensures s[0] != 0 && !IsHigh(s[0]) && !IsLow(s[0]) ==> (WellFormed(s) <==> WellFormed(s[1..]))
  {
    var cs := CodePoints(s);
    assert cs[0] in cs;
    if IsHigh(s[0]) && |s| >= 2 && IsLow(s[1]) {
      assert cs == [cs[0]] + CodePoints(s[2..]);
      assert s == [s[0], s[1]] + s[2..];
    } else {
      assert cs == [cs[0]] + CodePoints(s[1..]);
      assert s == [s[0]] + s[1..];
    }
  }

  /** `rejectForbiddenCodePoints` passes exactly the well-formed texts without U+0000. */
  method RejectForbiddenCodePoints(s: JsString) returns (ok: bool)
    ensures ok <==> WellFormed(s)
  {
    var i := 0;
    assert s[0..] == s;
    while i < |s|
      invariant i <= |s|
      invariant WellFormed(s) <==> WellFormed(s[i..])
    {
      var code := s[i];
      WellFormedStep(s[i..]);
      assert |s[i..]| >= 2 ==> s[i..][1] == s[i + 1] && s[i..][2..] == s[i + 2..];
      assert s[i..][1..] == s[i + 1..];
      if code == 0 {
        return false;
      }
      if IsHigh(code) {
        var next := if i + 1 < |s| then s[i + 1] else 0;
        if !IsLow(next) {
          return false;
        }
        i := i + 1;
      } else if IsLow(code) {
        return false;
      }
      i := i + 1;
    }
    return true;
  }

  // ----- Zero-width strip -----

  function Stripped(s: JsString): JsString {
    if s == [] then []
    else (if IsZeroWidth(s[0]) then [] else [s[0]]) + Stripped(s[1..])
  }

  /** `stripZeroWidth` goes by code point; as no zero-width one is a surrogate, that is the same as by code unit. */
  method StripZeroWidth(s: JsString) returns (out: JsString)
    ensures out == Stripped(s)
  {
    out := [];
    ghost var rest := s;
    var cs := CodePoints(s);
    for i := 0 to |cs|
      invariant cs[i..] == CodePoints(rest)
      invariant out + Stripped(rest) == Stripped(s)
    {
      StripStep(rest, out);
      assert cs[i] == cs[i..][0] && cs[i + 1..] == cs[i..][1..];
      if !IsZeroWidth(cs[i]) {
        out := out + UnitsOf(cs[i]);
      }
      rest := rest[|UnitsOf(cs[i])|..];
    }
    assert cs[|cs|..] == [];
    assert rest == [];
  }

  lemma {:induction false} StripStep(rest: JsString, out: JsString)
    requires rest != []
    ensures var c := CodePoints(rest)[0];
      && |UnitsOf(c)| <= |rest| && CodePoints(rest)[1..] == CodePoints(rest[|UnitsOf(c)|..])
      && out + Stripped(rest) == (if IsZeroWidth(c) then out else out + UnitsOf(c)) + Stripped(rest[|UnitsOf(c)|..])
  {
    var c := CodePoints(rest)[0];
    var after := rest[|UnitsOf(c)|..];
    if |rest| >= 2 && IsHigh(rest[0]) && IsLow(rest[1]) {
      StrippedPair(rest);
      assert UnitsOf(c) == [rest[0], rest[1]];
    }
    Regroup(out, if IsZeroWidth(c) then [] else UnitsOf(c), Stripped(after));
  }

  lemma StrippedPair(rest: JsString)
    requires |rest| >= 2 && IsHigh(rest[0]) && IsLow(rest[1])
    ensures Stripped(rest) == [rest[0], rest[1]] + Stripped(rest[2..])
  {
    StrippedOne(rest);
    StrippedOne(rest[1..]);
    assert rest[1..][1..] == rest[2..];
    Regroup([rest[0]], [rest[1]], Stripped(rest[2..]));
    assert [rest[0]] + [rest[1]] == [rest[0], rest[1]];
  }

  lemma StrippedOne(rest: JsString)
    requires rest != [] && !IsZeroWidth(rest[0])
    ensures Stripped(rest) == [rest[0]] + Stripped(rest[1..])
  {
  }

  lemma Regroup(a: JsString, b: JsString, c: JsString)
    ensures a + (b + c) == a + b + c
    ensures b == [] ==> a + b == a
  {
  }

  lemma {:induction false} StrippedHasNoZeroWidth(s: JsString)
    ensures forall u <- Stripped(s) :: u in s && !IsZeroWidth(u)
  {
    if s != [] {
      StrippedHasNoZeroWidth(s[1..]);
    }
  }

  lemma {:induction false} StrippedStays(s: JsString)
    requires forall u <- s :: !IsZeroWidth(u)
    ensures Stripped(s) == s
  {
    if s != [] {
      StrippedStays(s[1..]);
    }
  }

  // ----- Whitespace fold -----

  /** The maximal pieces without whitespace. */
  function Words(s: JsString): seq<JsString>
    decreases |s|
  {
    if s == [] then []
    else if IsWhitespace(s[0]) then Words(s[1..])
    else
      var n := WordLength(s);
      [s[..n]] + Words(s[n..])
  }

  function WordLength(s: JsString): (n: nat)
    ensures n <= |s|
    ensures s != [] && !IsWhitespace(s[0]) ==> n > 0
    ensures forall i :: 0 <= i < n ==> !IsWhitespace(s[i])
    ensures n < |s| ==> IsWhitespace(s[n])
  {
    if s == [] || IsWhitespace(s[0]) then 0 else 1 + WordLength(s[1..])
  }

  function Joined(words: seq<JsString>): JsString {
    if words == [] then []
    else if |words| == 1 then words[0]
    else words[0] + [SPACE] + Joined(words[1..])
  }

  /** `foldWhitespace` */
  function Folded(s: JsString): JsString {
    Joined(Words(s))
  }

  predicate IsWord(w: JsString) {
    w != [] && forall i :: 0 <= i < |w| ==> !IsWhitespace(w[i])
  }

  lemma {:induction false} WordsAreWords(s: JsString)
    ensures forall i :: 0 <= i < |Words(s)| ==> IsWord(Words(s)[i])
    decreases |s|
  {
    if s == [] {
    } else if IsWhitespace(s[0]) {
      WordsAreWords(s[1..]);
    } else {
      WordsAreWords(s[WordLength(s)..]);
    }
  }

  lemma WordInFront(w: JsString, rest: JsString)
    requires IsWord(w) && (rest != [] ==> rest[0] == SPACE)
    ensures Words(w + rest) == [w] + if rest == [] then [] else Words(rest[1..])
  {
    var s := w + rest;
    assert s[0] == w[0];
    var n := WordLength(s);
    assert forall i :: 0 <= i < |w| ==> s[i] == w[i];
    assert rest != [] ==> s[|w|] == rest[0];
    assert s[..n] == w && s[n..] == rest;
  }

  /** Splitting undoes joining. */
  lemma {:induction false} WordsOfJoined(words: seq<JsString>)
    requires forall i :: 0 <= i < |words| ==> IsWord(words[i])
    ensures Words(Joined(words)) == words
  {
    if words != [] {
      var rest := if |words| == 1 then [] else [SPACE] + Joined(words[1..]);
      assert Joined(words) == words[0] + rest;
      WordInFront(words[0], rest);
      WordsOfJoined(words[1..]);
      if |words| > 1 {
        assert rest[1..] == Joined(words[1..]);
      }
      assert words == [words[0]] + words[1..];
    }
  }

  lemma FoldIdempotent(s: JsString)
    ensures Words(Folded(s)) == Words(s) && Folded(Folded(s)) == Folded(s)
  {
    WordsAreWords(s);
    WordsOfJoined(Words(s));
  }

  lemma {:induction false} WordsFromText(s: JsString)
    ensures forall i, j :: 0 <= i < |Words(s)| && 0 <= j < |Words(s)[i]| ==> Words(s)[i][j] in s
    decreases |s|
  {
    if s == [] {
    } else if IsWhitespace(s[0]) {
      WordsFromText(s[1..]);
    } else {
      var n := WordLength(s);
      WordsFromText(s[n..]);
      forall i, j | 0 <= i < |Words(s)| && 0 <= j < |Words(s)[i]| ensures Words(s)[i][j] in s {
        if i == 0 {
          assert Words(s)[0][j] == s[j];
        } else {
          assert Words(s)[i] == Words(s[n..])[i - 1];
        }
      }
    }
  }

  lemma {:induction false} JoinedUnits(words: seq<JsString>, u: CodeUnit)
    requires u in Joined(words) && u != SPACE
    ensures exists i, j :: 0 <= i < |words| && 0 <= j < |words[i]| && words[i][j] == u
  {
    if |words| == 1 || u in words[0] {
      var j :| 0 <= j < |words[0]| && words[0][j] == u;
    } else {
      assert u in Joined(words[1..]);
      JoinedUnits(words[1..], u);
      var i, j :| 0 <= i < |words| - 1 && 0 <= j < |words[1..][i]| && words[1..][i][j] == u;
      assert words[i + 1][j] == u;
    }
  }

  /** Stripping and then folding once is enough: doing both again changes nothing. */
  lemma StripAndFoldIdempotent(s: JsString)
    ensures var once := Folded(Stripped(s)); Folded(Stripped(once)) == once
  {
    var stripped := Stripped(s);
    var once := Folded(stripped);
    StrippedHasNoZeroWidth(s);
    forall u | u in once ensures !IsZeroWidth(u) {
      if u != SPACE {
        JoinedUnits(Words(stripped), u);
        WordsFromText(stripped);
      }
    }
    StrippedStays(once);
    FoldIdempotent(stripped);
  }
}
