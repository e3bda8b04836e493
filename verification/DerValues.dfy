/** DER INTEGER and OBJECT IDENTIFIER values, against two's complement and base-128 encoders. */
module DerValues {
  import opened Octets
  import opened Utf16
  import opened Decimal
  import opened Der

  // ----- INTEGER -----

  /** What the value octets of an INTEGER mean: two's complement, most significant octet first. */
  function Signed(b: seq<Byte>): int {
    if b == [] then 0
    else BigEndian(b) - if b[0] >= 0x80 then Pow256(|b|) else 0
  }

  method ReadInteger(t: Tlv) returns (r: Result<int>)
    requires WellFormed(t)
    ensures r == if t.tag != 0x02 then Err(WrongTag) else Ok(Signed(ValueOf(t)))
  {
    if t.tag != 0x02 {
      return Err(WrongTag);
    }
    var result := 0;
    var i := 0;
    while i < t.length
      invariant 0 <= i && (i <= t.length || i == 0)
      invariant t.length > 0 ==> result == BigEndian(ValueOf(t)[..i])
      invariant t.length <= 0 ==> result == 0
    {
      var octet := t.buffer[t.valueStart + i];
      assert ValueOf(t)[..i + 1][..i] == ValueOf(t)[..i] && ValueOf(t)[i] == octet;
      result := result * 0x100 + octet;
      i := i + 1;
    }
    if t.length > 0 {
      assert ValueOf(t)[..t.length] == ValueOf(t);
      if t.buffer[t.valueStart] >= 0x80 {
        result := result - Pow256(t.length);
      }
    }
    return Ok(result);
  }

  /** The range of k octets: -2^(8k-1) up to 2^(8k-1). */
  predicate FitsOctets(n: int, k: nat) {
    k >= 1 && -(Pow256(k) as int) <= 2 * n < Pow256(k)
  }

  /** Two's complement on k octets (section 8.3 of X.690). */
  function TwosComplement(n: int, k: nat): seq<Byte>
    requires FitsOctets(n, k)
  {
    BigEndianBytes(if n < 0 then n + Pow256(k) else n, k)
  }

  /** The top bit of the first octet tells whether the number reaches half its range. */
  lemma TopBit(b: seq<Byte>)
    requires b != []
    ensures b[0] >= 0x80 <==> 2 * BigEndian(b) >= Pow256(|b|)
    ensures BigEndian(b) < Pow256(|b|)
  {
    BigEndianHead(b);
    BytesOfBigEndian(b);
    BytesOfBigEndian(b[1..]);
    TopDigit(b[0], Pow256(|b| - 1), BigEndian(b[1..]));
  }

  lemma TopDigit(digit: int, unit: int, low: int)
    requires 0 <= digit < 0x100 && 0 <= low < unit
    ensures digit >= 0x80 <==> 2 * (digit * unit + low) >= 0x100 * unit
  {
    if digit >= 0x80 {
      assert digit * unit == 0x80 * unit + (digit - 0x80) * unit;
      assert (digit - 0x80) * unit >= 0;
    } else {
      assert digit * unit == 0x7F * unit - (0x7F - digit) * unit;
      assert (0x7F - digit) * unit >= 0;
    }
  }

  /** An integer of any size, encoded on any number of octets that holds it, is read back. */
  lemma IntegerRoundTrip(n: int, k: nat)
    requires FitsOctets(n, k)
    ensures Signed(TwosComplement(n, k)) == n
  {
    BigEndianOfBytes(if n < 0 then n + Pow256(k) else n, k);
    TopBit(TwosComplement(n, k));
  }

  /** Every non-empty value is read as an integer in the range of its length, and is that integer's encoding. */
  lemma IntegerInRange(b: seq<Byte>)
    requires b != []
    ensures FitsOctets(Signed(b), |b|)
    ensures TwosComplement(Signed(b), |b|) == b
  {
    TopBit(b);
    BytesOfBigEndian(b);
  }

  // ----- OBJECT IDENTIFIER -----

  datatype Arc = Arc(value: nat, rest: seq<Byte>)

  /** One base-128 number: octets up to the first without its top bit, or to the end. */
  function TakeArc(b: seq<Byte>, acc: nat): (r: Arc)
    ensures |r.rest| <= |b| && (b != [] ==> |r.rest| < |b|)
  {
    if b == [] then Arc(acc, [])
    else if b[0] < 0x80 then Arc(acc * 0x80 + b[0], b[1..])
    else TakeArc(b[1..], acc * 0x80 + (b[0] - 0x80))
  }

  function Arcs(b: seq<Byte>): seq<nat>
    decreases |b|
  {
    if b == [] then []
    else
      var first := TakeArc(b, 0);
      [first.value] + Arcs(first.rest)
  }

  /** The arcs of a whole value; the first octet is split by forty, with no cap on the first arc. */
  function OidArcs(b: seq<Byte>): seq<nat> {
    if b == [] then [] else [b[0] / 40, b[0] % 40] + Arcs(b[1..])
  }

  method ReadOid(t: Tlv) returns (r: Result<seq<CodePoint>>)
    requires WellFormed(t)
    ensures r == if t.tag != 0x06 then Err(WrongTag) else Ok(Dotted(OidArcs(ValueOf(t))))
  {
    if t.tag != 0x06 {
      return Err(WrongTag);
    }
    var bytes, start, end := t.buffer, t.valueStart, t.end;
    if end <= start {
      return Ok([]);
    }
    var first := bytes[start];
    var arcs: seq<nat> := [first / 40, first % 40];
    ghost var all := OidArcs(ValueOf(t));
    assert ValueOf(t)[1..] == bytes[start + 1..end];
    var i := start + 1;
    while i < end
      invariant start < i <= end
      invariant arcs + Arcs(bytes[i..end]) == all
    {
      var value, next := ReadArc(bytes, i, end);
      RegroupArcs(arcs, value, Arcs(bytes[next..end]));
      arcs := arcs + [value];
      i := next;
    }
    assert bytes[i..end] == [];
    assert arcs == all;
    return Ok(Dotted(arcs));
  }

  lemma RegroupArcs(arcs: seq<nat>, value: nat, rest: seq<nat>)
    ensures arcs + ([value] + rest) == arcs + [value] + rest
  {
  }

  /** The inner loop: one arc from `from` on, and where the next one starts. */
  method ReadArc(bytes: seq<Byte>, from: nat, end: nat) returns (value: nat, i: nat)
    requires from < end <= |bytes|
    ensures from < i <= end
    ensures TakeArc(bytes[from..end], 0) == Arc(value, bytes[i..end])
  {
    value, i := 0, from;
    while i < end
      invariant from <= i <= end
      invariant TakeArc(bytes[i..end], value) == TakeArc(bytes[from..end], 0)
    {
      var b := bytes[i];
      assert bytes[i..end][1..] == bytes[i + 1..end];
      i := i + 1;
      value := value * 0x80 + b % 0x80;
      if b < 0x80 {
        return;
      }
    }
    assert bytes[i..end] == [];
  }

  /** Base-128 octets of a number (section 8.19 of X.690): every octet but the last has its top bit set. */
  function Base128(n: nat): seq<Byte> {
    Continued(n / 0x80) + [n % 0x80]
  }

  function Continued(n: nat): seq<Byte> {
    if n == 0 then [] else Continued(n / 0x80) + [0x80 + n % 0x80]
  }

  function EncodeArcs(arcs: seq<nat>): seq<Byte> {
    if arcs == [] then [] else Base128(arcs[0]) + EncodeArcs(arcs[1..])
  }

  lemma {:induction false} TakeContinued(n: nat, rest: seq<Byte>)
    ensures TakeArc(Continued(n) + rest, 0) == TakeArc(rest, n)
  {
    if n == 0 {
      assert Continued(n) + rest == rest;
    } else {
      var last := [0x80 + n % 0x80];
      TakeContinued(n / 0x80, last + rest);
      assert Continued(n) + rest == Continued(n / 0x80) + (last + rest);
      assert (last + rest)[1..] == rest;
    }
  }

  lemma TakeBase128(n: nat, rest: seq<Byte>)
    ensures TakeArc(Base128(n) + rest, 0) == Arc(n, rest)
  {
    var last := [n % 0x80];
    TakeContinued(n / 0x80, last + rest);
    assert Base128(n) + rest == Continued(n / 0x80) + (last + rest);
    assert (last + rest)[1..] == rest;
  }

  lemma {:induction false} ArcsOfEncoded(arcs: seq<nat>)
    ensures Arcs(EncodeArcs(arcs)) == arcs
  {
    if arcs != [] {
      TakeBase128(arcs[0], EncodeArcs(arcs[1..]));
      ArcsOfEncoded(arcs[1..]);
      assert arcs == [arcs[0]] + arcs[1..];
    }
  }

  /** The identifiers of X.690: root 0, 1 or 2, and under the first two a second arc below 40. */
  predicate IsIdentifier(root: nat, second: nat) {
    root <= 2 && (root < 2 ==> second < 40)
  }

  /** The first two arcs share one base-128 number (section 8.19.4 of X.690). */
  function EncodeOid(root: nat, second: nat, arcs: seq<nat>): seq<Byte> {
    EncodeArcs([40 * root + second] + arcs)
  }

  lemma {:induction false} ContinuedStart(n: nat)
    ensures n > 0 ==> Continued(n) != [] && Continued(n)[0] >= 0x80
  {
    if n >= 0x80 {
      ContinuedStart(n / 0x80);
    } else if n > 0 {
      assert Continued(n / 0x80) == [];
    }
  }

  lemma {:induction false} EncodedStart(root: nat, second: nat, arcs: seq<nat>)
    ensures var n, b := 40 * root + second, EncodeOid(root, second, arcs);
      && b != []
      && (n < 0x80 ==> b[0] == n && b[1..] == EncodeArcs(arcs))
      && (n >= 0x80 ==> b[0] >= 0x80)
  {
    var n := 40 * root + second;
    assert ([n] + arcs)[1..] == arcs;
    assert EncodeOid(root, second, arcs) == Base128(n) + EncodeArcs(arcs);
    ContinuedStart(n / 0x80);
    if n < 0x80 {
      assert Base128(n) == [n];
    }
  }

  /**
   * Every identifier, with arcs of every size, is read back from its encoding exactly when its first number is
   * below 120. From there on the reader calls the root 3 or more, in one octet or in several.
   */
  lemma {:induction false} OidRoundTripExactly(root: nat, second: nat, arcs: seq<nat>)
    requires IsIdentifier(root, second)
    ensures OidArcs(EncodeOid(root, second, arcs)) == [root, second] + arcs <==> 40 * root + second < 120
  {
    var n, b := 40 * root + second, EncodeOid(root, second, arcs);
    EncodedStart(root, second, arcs);
    if n < 120 {
      ArcsOfEncoded(arcs);
    } else {
      assert OidArcs(b)[0] == b[0] / 40 >= 3;
      assert ([root, second] + arcs)[0] == root;
    }
  }
}
