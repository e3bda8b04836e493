/** Base-ten text of an integer, as `Number.prototype.toString` and `BigInt.prototype.toString` give it. */
module Decimal {
  import opened Utf16

  const ZERO: CodeUnit := 0x30
  const MINUS: CodeUnit := 0x2D

  predicate IsDigit(c: CodePoint) {
    ZERO <= c <= ZERO + 9
  }

  function Digits(n: nat): (d: JsString)
    ensures d != [] && IsDigit(d[0])
  {
    if n < 10 then [ZERO + n] else Digits(n / 10) + [ZERO + n % 10]
  }

  function Show(i: int): JsString {
    if i < 0 then [MINUS] + Digits(-i) else Digits(i)
  }

  datatype Reading = Reading(value: nat, rest: seq<CodePoint>)

  /** Reads digits as far as they go, continuing the number `acc`. */
  function TakeDigits(s: seq<CodePoint>, acc: nat): (r: Reading)
    ensures |r.rest| <= |s|
  {
    if s != [] && IsDigit(s[0]) then TakeDigits(s[1..], acc * 10 + (s[0] - ZERO)) else Reading(acc, s)
  }

  lemma {:induction false} TakeDigitsOfDigits(n: nat, rest: seq<CodePoint>)
    ensures TakeDigits(Digits(n) + rest, 0) == TakeDigits(rest, n)
  {
    var last := [ZERO + n % 10];
    assert (last + rest)[1..] == rest;
    if n < 10 {
    } else {
      TakeDigitsOfDigits(n / 10, last + rest);
      assert Digits(n) + rest == Digits(n / 10) + (last + rest);
    }
  }

  // ----- Numbers joined by dots -----

  const DOT: CodeUnit := 0x2E

  function Dotted(numbers: seq<nat>): JsString {
    if numbers == [] then []
    else if |numbers| == 1 then Digits(numbers[0])
    else Digits(numbers[0]) + [DOT] + Dotted(numbers[1..])
  }

  function NumbersIn(s: seq<CodePoint>): seq<nat>
    decreases |s|
  {
    if s == [] || !IsDigit(s[0]) then []
    else
      var number := TakeDigits(s[1..], s[0] - ZERO);
      [number.value] + if number.rest == [] then [] else NumbersIn(number.rest[1..])
  }

  lemma {:induction false} DottedDeterminesNumbers(numbers: seq<nat>)
    ensures NumbersIn(Dotted(numbers)) == numbers
  {
    if numbers != [] {
      var text := Dotted(numbers);
      var rest := if |numbers| == 1 then [] else [DOT] + Dotted(numbers[1..]);
      assert text == Digits(numbers[0]) + rest;
      TakeDigitsOfDigits(numbers[0], rest);
      assert TakeDigits(text, 0) == TakeDigits(text[1..], text[0] - ZERO);
      assert TakeDigits(rest, numbers[0]) == Reading(numbers[0], rest);
      DottedDeterminesNumbers(numbers[1..]);
      if |numbers| > 1 {
        assert rest[1..] == Dotted(numbers[1..]);
      }
      assert numbers == [numbers[0]] + numbers[1..];
    }
  }
}
