/** DSSE envelopes of in-toto statements: sorted JSON, UTF-8, base 64, and the way back. */
module Dsse {
  import opened Octets
  import opened Utf16
  import opened World
  import opened Utf8
  import opened Json
  import opened Canonical
  import opened CanonicalProofs
  import opened SortedJson
  import opened Stringify
  import Base64

  /** Signatures are carried along unread. */
  datatype Envelope = Envelope(payloadType: Js, payload: Js, signatures: Js)

  function PayloadType(): Js {
    Str(FromText("application/vnd.in-toto+json"))
  }

  /** `statementToDsseEnvelope`; nothing where the printing of the statement throws. */
  function StatementToEnvelope(statement: Js, signatures: Js): Option<Envelope> {
    var bytes := JsonBytes(statement);
    if bytes.None? then None
    else Some(Envelope(PayloadType(), Str(Base64.Encode(bytes.value)), signatures))
  }

  datatype Problem = NotAnObject | WrongPayloadType | PayloadNotText | PayloadNotBase64 | PayloadNotJson
    | PayloadNotObject

  datatype Opened = Refused(problem: Problem) | Statement(data: Data)

  /** Reading bytes as UTF-8 and parsing them as JSON is the platform's; `parse` stands for both together. */
  type Parser = seq<Byte> -> Option<Data>

  /** Every number is an integer that a double holds exactly. */
  predicate SafeNumbers(t: Tree) {
    match t
    case TInt(n) => IsSafeInteger(n)
    case TArr(items) => forall i :: 0 <= i < |items| ==> SafeNumbers(items[i])
    case TObj(entries) => forall i :: 0 <= i < |entries| ==> SafeNumbers(entries[i].value)
    case _ => true
  }

  lemma {:induction false} PlainTreeSafe(v: Js)
    requires JsonValue(v)
    ensures SafeNumbers(PlainTree(v))
    decreases v
  {
    match v
    case Array(items) =>
      forall i | 0 <= i < |items| ensures SafeNumbers(PlainTree(items[i])) {
        PlainTreeSafe(items[i]);
      }
    case Object(entries) =>
      forall i | 0 <= i < |entries| ensures SafeNumbers(PlainTree(entries[i].value)) {
        PlainTreeSafe(entries[i].value);
      }
    case _ =>
  }

  /** Every other number is one of the given texts. */
  predicate NumbersAmong(t: Tree, doubles: seq<CodePoint> -> bool) {
    match t
    case TNum(text) => doubles(text)
    case TArr(items) => forall i :: 0 <= i < |items| ==> NumbersAmong(items[i], doubles)
    case TObj(entries) => forall i :: 0 <= i < |entries| ==> NumbersAmong(entries[i].value, doubles)
    case _ => true
  }

  /**
   * What is asked of the platform: compact JSON that repeats no key is parsed to what it says, where its numbers are
   * safe integers or the texts that `Number.prototype.toString` gives doubles.
   */
  ghost predicate ParsesCompact(parse: Parser, doubles: seq<CodePoint> -> bool) {
    forall t: Tree :: Decodable(t) && SafeNumbers(t) && NumbersAmong(t, doubles) ==>
      parse(Utf8.Encode(Print(t))) == Some(Meaning(t))
  }

  /** `dsseEnvelopeToStatement`; `None` is an envelope that is null or no object. */
  function EnvelopeToStatement(envelope: Option<Envelope>, parse: Parser): Opened {
    if envelope.None? then Refused(NotAnObject)
    else if envelope.value.payloadType != PayloadType() then Refused(WrongPayloadType)
    else if !envelope.value.payload.Str? then Refused(PayloadNotText)
    else if !Base64.IsPaddedText(envelope.value.payload.s) then Refused(PayloadNotBase64)
    else
      var parsed := parse(Base64.Decode(envelope.value.payload.s));
      if parsed.None? then Refused(PayloadNotJson)
      else if !parsed.value.DObj? then Refused(PayloadNotObject)
      else Statement(parsed.value)
  }

  /** The reader of canonical bytes is such a parser. */
  lemma ReadBackParses(doubles: seq<CodePoint> -> bool)
    ensures ParsesCompact(ReadBack, doubles)
  {
    forall t: Tree | Decodable(t) && SafeNumbers(t) && NumbersAmong(t, doubles)
      ensures ReadBack(Utf8.Encode(Print(t))) == Some(Meaning(t))
    {
      PrintScalar(t);
      Utf8.DecodeEncode(Print(t));
      DecodePrint(t, []);
      assert Print(t) + [] == Print(t);
    }
  }

  /**
   * A statement has an envelope exactly when it prints no bigint, and any such envelope is opened again, to what of
   * the statement is kept: up to key order the statement itself exactly when it is JSON without `__proto__` entries.
   */
  lemma {:induction false} EnvelopeRoundTrip(statement: Js, signatures: Js, parse: Parser,
          doubles: seq<CodePoint> -> bool)
    requires statement.Object? && PlainObjects(statement)
    requires ParsesCompact(parse, doubles) && NumbersAmong(PrintedTree(statement), doubles)
    ensures var envelope := StatementToEnvelope(statement, signatures);
      && (envelope.Some? <==> !KeepsBigInt(statement))
      && (envelope.Some? ==> EnvelopeToStatement(envelope, parse) == Statement(Kept(statement)))
      && (Kept(statement) == Value(statement) <==> AllJson(statement))
  {
    AllKeptExactly(statement);
    JsonBytesReadBack(statement);
    if !KeepsBigInt(statement) {
      ParsePrinted(statement, parse, doubles);
      DroppedObject(Clean(statement));
      OpenPayload(JsonBytes(statement).value, signatures, parse);
    }
  }

  /** A payload that parses to an object is opened to it. */
  lemma OpenPayload(bytes: seq<Byte>, signatures: Js, parse: Parser)
    requires parse(bytes).Some? && parse(bytes).value.DObj?
    ensures EnvelopeToStatement(Some(Envelope(PayloadType(), Str(Base64.Encode(bytes)), signatures)), parse)
         == Statement(parse(bytes).value)
  {
    Base64.DecodeEncode(bytes);
  }

  lemma ParsePrinted(v: Js, parse: Parser, doubles: seq<CodePoint> -> bool)
    requires PlainObjects(v) && JsonBytes(v).Some?
    requires ParsesCompact(parse, doubles) && NumbersAmong(PrintedTree(v), doubles)
    ensures parse(JsonBytes(v).value) == Some(Kept(v))
  {
    var tree := PrintedTree(v);
    CleanOfSorted(v);
    CleanIsJson(v);
    SortJsonMeans(Clean(v));
    PlainTreeMeans(SortJson(Clean(v)));
    PlainTreeSafe(SortJson(Clean(v)));
    assert parse(Utf8.Encode(Print(tree))) == Some(Meaning(tree));
  }

  lemma DroppedObject(v: Js)
    requires v.Object?
    ensures DropProto(Value(v)).DObj?
  {
  }
}
