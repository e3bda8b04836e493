/** The DER reader: tag-length-value framing, sequences, integers and object identifiers, as the code reads them. */
module Der {
  import opened Octets

  datatype Tlv = Tlv(tag: Byte, length: int, valueStart: int, end: int, buffer: seq<Byte>)

  datatype DerError =
    | PastEnd
    | MissingLength
    | IndefiniteLength
    | LengthFieldTooLarge
    | TruncatedLength
    | TruncatedValue
    | WrongTag

  datatype Result<+T> = Ok(value: T) | Err(error: DerError)

  // ----- Lengths are built with 32-bit shifts -----

  function ToInt32(x: int): int {
    var m := x % 0x1_0000_0000;
    if m >= 0x8000_0000 then m - 0x1_0000_0000 else m
  }

  /** `(length << 8) | octet`. The shift leaves the low eight bits clear, so the or is a sum. */
  function ShiftIn(length: int, octet: Byte): int {
    ToInt32(length * 0x100) + octet
  }

  lemma ToInt32Periodic(x: int, k: int)
    ensures ToInt32(x + k * 0x1_0000_0000) == ToInt32(x)
  {
    assert (x + k * 0x1_0000_0000) % 0x1_0000_0000 == x % 0x1_0000_0000;
  }

  lemma ToInt32Low(y: int, octet: Byte)
    ensures ToInt32(y * 0x100) + octet == ToInt32(y * 0x100 + octet)
  {
    var j, low := y / 0x100_0000, y % 0x100_0000;
    assert y * 0x100 == low * 0x100 + j * 0x1_0000_0000;
    assert y * 0x100 + octet == (low * 0x100 + octet) + j * 0x1_0000_0000;
    ToInt32Periodic(low * 0x100, j);
    ToInt32Periodic(low * 0x100 + octet, j);
    ToInt32Small(low, octet);
  }

  lemma ToInt32Small(low: int, octet: Byte)
    requires 0 <= low < 0x100_0000
    ensures ToInt32(low * 0x100) + octet == ToInt32(low * 0x100 + octet)
  {
    assert (low * 0x100) % 0x1_0000_0000 == low * 0x100;
    assert (low * 0x100 + octet) % 0x1_0000_0000 == low * 0x100 + octet;
  }

  /** Building a number with the shifts is building it without bound and wrapping it once. */
  lemma ShiftInWraps(n: int, octet: Byte)
    ensures ShiftIn(ToInt32(n), octet) == ToInt32(n * 0x100 + octet)
  {
    var k := (ToInt32(n) - n) / 0x1_0000_0000;
    assert ToInt32(n) == n + k * 0x1_0000_0000;
    assert ToInt32(n) * 0x100 == n * 0x100 + (k * 0x100) * 0x1_0000_0000;
    ToInt32Periodic(n * 0x100, k * 0x100);
    ToInt32Low(n, octet);
  }

  // ----- Framing -----

  /** How many octets of a TLV are before its value, from its first length octet. */
  function LengthFieldSize(firstLen: Byte): nat {
    if firstLen < 0x80 then 1 else 1 + (firstLen - 0x80)
  }

  /** The length that a length field states. */
  function FieldLength(field: seq<Byte>): int
    requires field != []
  {
    if |field| == 1 then field[0] else ToInt32(BigEndian(field[1..]))
  }

  /** What stands at an offset of a buffer, as the reader understands it. */
  function TlvAt(buffer: seq<Byte>, offset: nat): Result<Tlv> {
    if offset >= |buffer| then Err(PastEnd)
    else if offset + 1 >= |buffer| then Err(MissingLength)
    else
      var firstLen := buffer[offset + 1];
      var start := offset + 1 + LengthFieldSize(firstLen);
      if firstLen == 0x80 then Err(IndefiniteLength)
      else if firstLen > 0x84 then Err(LengthFieldTooLarge)
      else if start > |buffer| then Err(TruncatedLength)
      else
        var length := FieldLength(buffer[offset + 1..start]);
        if start + length > |buffer| then Err(TruncatedValue)
        else Ok(Tlv(buffer[offset], length, start, start + length, buffer))
  }

  method ReadTlv(buffer: seq<Byte>, offset: nat) returns (r: Result<Tlv>)
    ensures r == TlvAt(buffer, offset)
  {
    if offset >= |buffer| {
      return Err(PastEnd);
    }
    var tag := buffer[offset];
    var cursor := offset + 1;
    if cursor >= |buffer| {
      return Err(MissingLength);
    }
    var firstLen := buffer[cursor];
    cursor := cursor + 1;
    var length: int := firstLen;
    if firstLen >= 0x80 {
      var lenBytes := firstLen - 0x80;
      if lenBytes == 0 {
        return Err(IndefiniteLength);
      }
      if lenBytes > 4 {
        return Err(LengthFieldTooLarge);
      }
      if cursor + lenBytes > |buffer| {
        return Err(TruncatedLength);
      }
      length := 0;
      for i := 0 to lenBytes
        invariant length == ToInt32(BigEndian(buffer[cursor..cursor + i]))
      {
        ghost var before := buffer[cursor..cursor + i];
        assert buffer[cursor..cursor + i + 1] == before + [buffer[cursor + i]];
        assert (before + [buffer[cursor + i]])[..i] == before;
        ShiftInWraps(BigEndian(before), buffer[cursor + i]);
        length := ShiftIn(length, buffer[cursor + i]);
      }
      assert buffer[offset + 1..cursor + lenBytes][1..] == buffer[cursor..cursor + lenBytes];
      cursor := cursor + lenBytes;
    }
    if cursor + length > |buffer| {
      return Err(TruncatedValue);
    }
    return Ok(Tlv(tag, length, cursor, cursor + length, buffer));
  }

  /** The reader refuses exactly for these reasons, each from the octets that stand there. */
  lemma RefusedExactly(buffer: seq<Byte>, offset: nat)
    ensures var r, n := TlvAt(buffer, offset), |buffer| - offset;
      && (r == Err(PastEnd) <==> n <= 0)
      && (r == Err(MissingLength) <==> n == 1)
      && (r == Err(IndefiniteLength) <==> n >= 2 && buffer[offset + 1] == 0x80)
      && (r == Err(LengthFieldTooLarge) <==> n >= 2 && buffer[offset + 1] >= 0x85)
      && (r == Err(TruncatedLength) <==>
            n >= 2 && 0x81 <= buffer[offset + 1] <= 0x84 && n - 2 < buffer[offset + 1] - 0x80)
      && (n >= 2 && buffer[offset + 1] < 0x80 ==> (r == Err(TruncatedValue) <==> n - 2 < buffer[offset + 1]))
      && (r.Ok? ==> r.value.tag == buffer[offset] && offset + 2 <= r.value.valueStart <= offset + 6)
      && r != Err(WrongTag)
  {
  }

  /** What every TLV the reader returns satisfies. */
  predicate WellFormed(t: Tlv) {
    && 0 <= t.valueStart <= |t.buffer|
    && t.end == t.valueStart + t.length <= |t.buffer|
  }

  /** The value octets; a negative length leaves none. */
  function ValueOf(t: Tlv): seq<Byte>
    requires WellFormed(t)
  {
    if t.length <= 0 then [] else t.buffer[t.valueStart..t.end]
  }

  /** `Uint8Array.prototype.slice`, with its rules for indexes outside the array. */
  function Slice(b: seq<Byte>, from: int, to: int): seq<Byte> {
    var lo := SliceIndex(|b|, from);
    var hi := SliceIndex(|b|, to);
    if lo < hi then b[lo..hi] else []
  }

  function SliceIndex(n: nat, i: int): (r: nat)
    ensures r <= n
  {
    if i < 0 then (if n + i < 0 then 0 else n + i) else if i > n then n else i
  }

  function TagOffsetOf(t: Tlv): int {
    var lenOctets :=
      if t.length < 0x80 then 1
      else if t.length < 0x100 then 2
      else if t.length < 0x1_0000 then 3
      else if t.length < 0x100_0000 then 4
      else 5;
    t.valueStart - lenOctets - 1
  }

  /** `tlvDer`: the encoding of a TLV, cut out of its buffer. */
  function TlvDer(t: Tlv): seq<Byte> {
    Slice(t.buffer, TagOffsetOf(t), t.end)
  }

  // ----- Encoding with minimal length octets (sections 8.1.3 and 10.1 of X.690) -----

  function OctetCount(n: nat): nat
    requires n < 0x1_0000_0000
  {
    if n < 0x100 then 1 else if n < 0x1_0000 then 2 else if n < 0x100_0000 then 3 else 4
  }

  function LengthOctets(n: nat): seq<Byte>
    requires n < 0x1_0000_0000
  {
    if n < 0x80 then [n] else [0x80 + OctetCount(n)] + BigEndianBytes(n, OctetCount(n))
  }

  function Encode(tag: Byte, value: seq<Byte>): seq<Byte>
    requires |value| < 0x8000_0000
  {
    [tag] + LengthOctets(|value|) + value
  }

  lemma Pow256Values()
    ensures Pow256(0) == 1 && Pow256(1) == 0x100 && Pow256(2) == 0x1_0000
    ensures Pow256(3) == 0x100_0000 && Pow256(4) == 0x1_0000_0000
  {
    assert Pow256(1) == 0x100 * Pow256(0);
    assert Pow256(2) == 0x100 * Pow256(1);
    assert Pow256(3) == 0x100 * Pow256(2);
    assert Pow256(4) == 0x100 * Pow256(3);
  }

  /** The TLV that an encoding placed at an offset stands for. */
  function EncodedTlv(buffer: seq<Byte>, offset: nat, tag: Byte, value: seq<Byte>): Tlv
    requires |value| < 0x8000_0000
  {
    var start := offset + 1 + |LengthOctets(|value|)|;
    Tlv(tag, |value|, start, start + |value|, buffer)
  }

  lemma LengthOctetsRead(n: nat)
    requires n < 0x8000_0000
    ensures var field := LengthOctets(n);
            && field[0] != 0x80 && field[0] <= 0x84
            && LengthFieldSize(field[0]) == |field|
            && FieldLength(field) == n
  {
    if n >= 0x80 {
      Pow256Values();
      assert LengthOctets(n)[1..] == BigEndianBytes(n, OctetCount(n));
      BigEndianOfBytes(n, OctetCount(n));
    }
  }

  /** A minimal length field is read as the length, wherever it stands. */
  lemma TlvAtField(buffer: seq<Byte>, offset: nat, n: nat, field: seq<Byte>)
    requires n < 0x8000_0000 && field == LengthOctets(n)
    requires offset + 1 + |field| + n <= |buffer|
    requires buffer[offset + 1..offset + 1 + |field|] == field
    ensures var start := offset + 1 + |field|;
            TlvAt(buffer, offset) == Ok(Tlv(buffer[offset], n, start, start + n, buffer))
  {
    LengthOctetsRead(n);
    assert buffer[offset + 1] == field[0];
  }

  lemma TagOffsetOfMinimal(t: Tlv)
    requires 0 <= t.length < 0x8000_0000
    ensures TagOffsetOf(t) == t.valueStart - |LengthOctets(t.length)| - 1
  {
  }

  /** A buffer holds the given octets at an offset. */
  predicate Holds(buffer: seq<Byte>, offset: nat, octets: seq<Byte>) {
    offset + |octets| <= |buffer| && buffer[offset..offset + |octets|] == octets
  }

  /**
   * Framing round trip: an encoding anywhere inside a buffer is read as exactly its tag, length and span,
   * its value octets are the value, and `tlvDer` gives back exactly the encoding.
   */
  lemma FramingRoundTrip(buffer: seq<Byte>, offset: nat, tag: Byte, value: seq<Byte>)
    requires |value| < 0x8000_0000
    requires Holds(buffer, offset, Encode(tag, value))
    ensures TlvAt(buffer, offset) == Ok(EncodedTlv(buffer, offset, tag, value))
    ensures var t := EncodedTlv(buffer, offset, tag, value);
            WellFormed(t) && ValueOf(t) == value && TlvDer(t) == Encode(tag, value)
    ensures EncodedTlv(buffer, offset, tag, value).end == offset + |Encode(tag, value)|
  {
    Framed(buffer, offset, tag, LengthOctets(|value|), value);
    FramedValue(buffer, offset, tag, value);
    CutOut(buffer, offset, tag, value);
  }

  lemma Framed(buffer: seq<Byte>, offset: nat, tag: Byte, field: seq<Byte>, value: seq<Byte>)
    requires |value| < 0x8000_0000 && field == LengthOctets(|value|)
    requires Holds(buffer, offset, [tag] + field + value)
    ensures var start := offset + 1 + |field|;
            TlvAt(buffer, offset) == Ok(Tlv(tag, |value|, start, start + |value|, buffer))
  {
    FramingLayout(buffer, offset, tag, field, value);
    TlvAtField(buffer, offset, |value|, field);
  }

  lemma FramedValue(buffer: seq<Byte>, offset: nat, tag: Byte, value: seq<Byte>)
    requires |value| < 0x8000_0000 && Holds(buffer, offset, Encode(tag, value))
    ensures var t := EncodedTlv(buffer, offset, tag, value);
            WellFormed(t) && ValueOf(t) == value && t.end == offset + |Encode(tag, value)|
  {
    FramingLayout(buffer, offset, tag, LengthOctets(|value|), value);
  }

  lemma CutOut(buffer: seq<Byte>, offset: nat, tag: Byte, value: seq<Byte>)
    requires |value| < 0x8000_0000 && Holds(buffer, offset, Encode(tag, value))
    ensures TlvDer(EncodedTlv(buffer, offset, tag, value)) == Encode(tag, value)
  {
    TagOffsetOfMinimal(EncodedTlv(buffer, offset, tag, value));
  }

  lemma FramingLayout(buffer: seq<Byte>, offset: nat, tag: Byte, field: seq<Byte>, value: seq<Byte>)
    requires Holds(buffer, offset, [tag] + field + value)
    ensures var start := offset + 1 + |field|;
            && start + |value| <= |buffer|
            && buffer[offset] == tag
            && buffer[offset + 1..start] == field
            && buffer[start..start + |value|] == value
  {
    var slice := buffer[offset..offset + 1 + |field| + |value|];
    assert buffer[offset] == slice[0];
    assert buffer[offset + 1..offset + 1 + |field|] == slice[1..1 + |field|];
    assert buffer[offset + 1 + |field|..offset + 1 + |field| + |value|] == slice[1 + |field|..];
  }

  lemma ToInt32Sign(x: int)
    requires 0 <= x < 0x1_0000_0000
    ensures ToInt32(x) < 0 <==> x >= 0x8000_0000
  {
  }

  lemma SignOfLength(octets: seq<Byte>)
    requires 1 <= |octets| <= 4
    ensures ToInt32(BigEndian(octets)) < 0 <==> |octets| == 4 && octets[0] >= 0x80
  {
    Pow256Values();
    BytesOfBigEndian(octets);
    assert BigEndian(octets) < 0x1_0000_0000;
    ToInt32Sign(BigEndian(octets));
    if |octets| == 4 {
      BytesOfBigEndian(octets[1..]);
      BigEndianHead(octets);
      assert BigEndian(octets) == octets[0] * 0x100_0000 + BigEndian(octets[1..]);
    } else {
      assert BigEndian(octets) < 0x100_0000;
    }
  }

  /** A length is negative exactly for four length octets whose first has its top bit set. */
  lemma NegativeLengthExactly(buffer: seq<Byte>, offset: nat)
    requires TlvAt(buffer, offset).Ok?
    ensures TlvAt(buffer, offset).value.length < 0 <==> buffer[offset + 1] == 0x84 && buffer[offset + 2] >= 0x80
    ensures TlvAt(buffer, offset).value.length < 0 ==>
      (TlvAt(buffer, offset).value.end > offset <==> TlvAt(buffer, offset).value.length > -6)
    ensures WellFormed(TlvAt(buffer, offset).value)
  {
    var firstLen := buffer[offset + 1];
    if firstLen >= 0x80 {
      var field := buffer[offset + 1..offset + 1 + LengthFieldSize(firstLen)];
      SignOfLength(field[1..]);
    }
  }

  /** The length octets are the shortest that state the length. */
  predicate MinimalLength(buffer: seq<Byte>, offset: nat)
    requires TlvAt(buffer, offset).Ok? && TlvAt(buffer, offset).value.length >= 0
  {
    var t := TlvAt(buffer, offset).value;
    t.length < 0x8000_0000 && buffer[offset + 1..t.valueStart] == LengthOctets(t.length)
  }

  /** A length field is minimal exactly when it has as many octets as the minimal one, and never has fewer. */
  lemma MinimalBySize(field: seq<Byte>)
    requires field != [] && field[0] != 0x80 && field[0] <= 0x84
    requires LengthFieldSize(field[0]) == |field|
    requires FieldLength(field) >= 0
    ensures FieldLength(field) < 0x8000_0000
    ensures |LengthOctets(FieldLength(field))| <= |field|
    ensures LengthOctets(FieldLength(field)) == field <==> |LengthOctets(FieldLength(field))| == |field|
  {
    if field[0] >= 0x80 {
      var octets := field[1..];
      assert field == [0x80 + |octets|] + octets;
      BytesOfBigEndian(octets);
      OctetCountFits(BigEndian(octets), |octets|);
    }
  }

  lemma OctetCountFits(n: nat, k: nat)
    requires 1 <= k <= 4 && n < Pow256(k)
    ensures ToInt32(n) >= 0 ==> ToInt32(n) == n < 0x8000_0000 && OctetCount(n) <= k
  {
    Pow256Values();
  }

  lemma MinimalByCount(buffer: seq<Byte>, offset: nat)
    requires TlvAt(buffer, offset).Ok? && TlvAt(buffer, offset).value.length >= 0
    ensures var t := TlvAt(buffer, offset).value;
            && t.length < 0x8000_0000
            && |LengthOctets(t.length)| <= t.valueStart - offset - 1
            && (MinimalLength(buffer, offset) <==> |LengthOctets(t.length)| == t.valueStart - offset - 1)
  {
    MinimalBySize(buffer[offset + 1..TlvAt(buffer, offset).value.valueStart]);
  }

  /** `_tagOffsetOf` finds the tag, and `tlvDer` the octets read, exactly when the length octets are minimal. */
  lemma TlvDerExactly(buffer: seq<Byte>, offset: nat)
    requires TlvAt(buffer, offset).Ok? && TlvAt(buffer, offset).value.length >= 0
    ensures var t := TlvAt(buffer, offset).value;
            && t.end > offset
            && (TlvDer(t) == buffer[offset..t.end] <==> MinimalLength(buffer, offset))
            && (TagOffsetOf(t) == offset <==> MinimalLength(buffer, offset))
  {
    var t := TlvAt(buffer, offset).value;
    MinimalByCount(buffer, offset);
    TagOffsetOfMinimal(t);
    assert |TlvDer(t)| == t.end - TagOffsetOf(t);
  }

  // ----- Sequences -----

  /**
   * `NoProgress`: the next TLV has a length of -6 or less, which leads the cursor back or leaves it. The source goes
   * on from there, as DerLoop has it.
   */
  datatype Items = All(items: seq<Tlv>) | Failed(error: DerError) | NoProgress

  function ItemsFrom(buffer: seq<Byte>, cursor: nat, end: int): Items
    decreases end - cursor
  {
    if cursor >= end then All([])
    else
      var item := TlvAt(buffer, cursor);
      if item.Err? then Failed(item.error)
      else if item.value.end <= cursor then NoProgress
      else
        var others := ItemsFrom(buffer, item.value.end, end);
        if others.All? then All([item.value] + others.items) else others
  }

  method ReadSequence(t: Tlv) returns (r: Items)
    requires t.valueStart >= 0
    ensures r == ItemsFrom(t.buffer, t.valueStart, t.end)
  {
    var out := [];
    var cursor := t.valueStart;
    while cursor < t.end
      invariant cursor >= 0
      invariant var others := ItemsFrom(t.buffer, cursor, t.end);
                ItemsFrom(t.buffer, t.valueStart, t.end) == if others.All? then All(out + others.items) else others
      decreases t.end - cursor
    {
      var item := ReadTlv(t.buffer, cursor);
      if item.Err? {
        return Failed(item.error);
      }
      if item.value.end <= cursor {
        return NoProgress;
      }
      ghost var others := ItemsFrom(t.buffer, item.value.end, t.end);
      if others.All? {
        assert out + ([item.value] + others.items) == out + [item.value] + others.items;
      }
      out := out + [item.value];
      cursor := item.value.end;
    }
    assert out + [] == out;
    return All(out);
  }

  datatype Part = Part(tag: Byte, value: seq<Byte>)

  predicate Encodable(parts: seq<Part>) {
    forall i :: 0 <= i < |parts| ==> |parts[i].value| < 0x8000_0000
  }

  function EncodeAll(parts: seq<Part>): seq<Byte>
    requires Encodable(parts)
  {
    if parts == [] then [] else Encode(parts[0].tag, parts[0].value) + EncodeAll(parts[1..])
  }

  /** The TLV of one part placed at an offset: its tag, its value, and its encoding as `tlvDer` cuts it out. */
  predicate IsPart(t: Tlv, buffer: seq<Byte>, offset: nat, part: Part)
    requires |part.value| < 0x8000_0000
  {
    && t == EncodedTlv(buffer, offset, part.tag, part.value)
    && WellFormed(t)
    && ValueOf(t) == part.value
    && TlvDer(t) == Encode(part.tag, part.value)
  }

  /** The items tile a span: each is the part's TLV at the place where the one before it ends. */
  predicate Tiles(items: seq<Tlv>, parts: seq<Part>, buffer: seq<Byte>, from: nat, end: nat)
    requires Encodable(parts)
    decreases |items|
  {
    if items == [] || parts == [] then items == [] && parts == [] && from == end
    else
      && IsPart(items[0], buffer, from, parts[0])
      && from < items[0].end
      && Tiles(items[1..], parts[1..], buffer, items[0].end, end)
  }

  /**
   * Reading a value that is a concatenation of encodings returns the encoded items in order, tiling the value
   * from its first octet to its last with no gap and no overlap.
   */
  lemma {:induction false} SequenceRoundTrip(buffer: seq<Byte>, from: nat, parts: seq<Part>, end: nat)
    requires Encodable(parts)
    requires Holds(buffer, from, EncodeAll(parts)) && end == from + |EncodeAll(parts)|
    ensures ItemsFrom(buffer, from, end).All?
    ensures Tiles(ItemsFrom(buffer, from, end).items, parts, buffer, from, end)
    decreases |parts|
  {
    if parts != [] {
      var t := FirstPart(buffer, from, parts, end);
      SequenceRoundTrip(buffer, t.end, parts[1..], end);
      FirstItem(buffer, from, end, parts, t);
    }
  }

  lemma {:induction false} FirstPart(buffer: seq<Byte>, from: nat, parts: seq<Part>, end: nat) returns (t: Tlv)
    requires Encodable(parts) && parts != []
    requires Holds(buffer, from, EncodeAll(parts)) && end == from + |EncodeAll(parts)|
    ensures IsPart(t, buffer, from, parts[0])
    ensures TlvAt(buffer, from) == Ok(t) && from < t.end <= end
    ensures Holds(buffer, t.end, EncodeAll(parts[1..])) && end == t.end + |EncodeAll(parts[1..])|
  {
    var first, others := Encode(parts[0].tag, parts[0].value), EncodeAll(parts[1..]);
    assert EncodeAll(parts) == first + others;
    HoldsParts(buffer, from, first, others);
    FramingRoundTrip(buffer, from, parts[0].tag, parts[0].value);
    t := EncodedTlv(buffer, from, parts[0].tag, parts[0].value);
  }

  lemma HoldsParts(buffer: seq<Byte>, offset: nat, a: seq<Byte>, b: seq<Byte>)
    requires Holds(buffer, offset, a + b)
    ensures Holds(buffer, offset, a) && Holds(buffer, offset + |a|, b)
  {
    var slice := buffer[offset..offset + |a + b|];
    assert buffer[offset..offset + |a|] == slice[..|a|];
    assert buffer[offset + |a|..offset + |a| + |b|] == slice[|a|..];
  }

  lemma {:induction false} FirstItem(buffer: seq<Byte>, from: nat, end: nat, parts: seq<Part>, t: Tlv)
    requires Encodable(parts) && parts != [] && TlvAt(buffer, from) == Ok(t) && from < t.end <= end
    ensures ItemsFrom(buffer, t.end, end).All? && IsPart(t, buffer, from, parts[0])
            && Tiles(ItemsFrom(buffer, t.end, end).items, parts[1..], buffer, t.end, end) ==>
      ItemsFrom(buffer, from, end).All? && Tiles(ItemsFrom(buffer, from, end).items, parts, buffer, from, end)
  {
    if ItemsFrom(buffer, t.end, end).All? {
      assert ([t] + ItemsFrom(buffer, t.end, end).items)[1..] == ItemsFrom(buffer, t.end, end).items;
    }
  }

  /**
   * Whatever the octets, the items read follow one another without gap or overlap and reach the end of the
   * value; the last may go past it, because an item is checked against the buffer only.
   */
  lemma {:induction false} ItemsFollowOneAnother(buffer: seq<Byte>, cursor: nat, end: int)
    requires ItemsFrom(buffer, cursor, end).All?
    ensures var items := ItemsFrom(buffer, cursor, end).items;
            && (forall i :: 0 <= i < |items| ==> FollowsAt(buffer, cursor, end, items, i))
            && (items != [] ==> items[|items| - 1].end >= end)
            && (items == [] <==> cursor >= end)
    decreases end - cursor
  {
    if cursor < end {
      var item := TlvAt(buffer, cursor).value;
      ItemsFollowOneAnother(buffer, item.end, end);
      PrependItem(buffer, cursor, end, item, ItemsFrom(buffer, item.end, end).items);
    }
  }

  /** The i-th item stands where the item before it ends, the first at `cursor`. */
  predicate FollowsAt(buffer: seq<Byte>, cursor: nat, end: int, items: seq<Tlv>, i: nat)
    requires i < |items|
  {
    var at := if i == 0 then cursor else items[i - 1].end;
    0 <= at < end && TlvAt(buffer, at) == Ok(items[i]) && at < items[i].end
  }

  lemma PrependItem(buffer: seq<Byte>, cursor: nat, end: int, item: Tlv, others: seq<Tlv>)
    requires cursor < end && TlvAt(buffer, cursor) == Ok(item) && cursor < item.end
    requires forall i :: 0 <= i < |others| ==> FollowsAt(buffer, item.end, end, others, i)
    ensures forall i :: 0 <= i < |[item] + others| ==> FollowsAt(buffer, cursor, end, [item] + others, i)
  {
    var items := [item] + others;
    forall i | 0 <= i < |items| ensures FollowsAt(buffer, cursor, end, items, i) {
      if i > 0 {
        assert FollowsAt(buffer, item.end, end, others, i - 1);
        assert items[i] == others[i - 1];
        assert i > 1 ==> items[i - 1] == others[i - 2];
      }
    }
  }
}
