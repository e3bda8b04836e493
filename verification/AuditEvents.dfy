/** Audit events, the JSON object they are hashed as, and what their canonical bytes tell apart. */
module AuditEvents {
  import opened Utf16
  import opened World
  import opened Json
  import opened KeySort
  import opened Canonical
  import opened CanonicalProofs
  import opened Timestamps

  /** The `timestamp` property: a Date, a Date whose time is NaN, or any other value. */
  datatype Stamp = At(d: Moment) | InvalidDate | NotADate(v: Js)

  datatype SubjectRef = SubjectRef(scheme: JsString, value: JsString)

  datatype AuditEvent = AuditEvent(
    schemaVersion: JsNumber,
    eventId: JsString,
    timestamp: Stamp,
    eventType: JsString,
    actor: JsString,
    payload: Js,
    subjectRef: Option<SubjectRef>,
    sessionId: Option<JsString>,
    referenceDbRef: Option<JsString>,
    matchedInputRef: Option<JsString>,
    humanVerifier: Option<SubjectRef>)

  function StampJs(t: Stamp): Js {
    match t
    case At(d) => Str(ChainTimestamp(d))
    case InvalidDate => DateObject
    case NotADate(v) => v
  }

  function RefJs(r: Option<SubjectRef>): Js {
    if r.None? then Null else Object(RefFields(r.value))
  }

  function RefFields(r: SubjectRef): seq<Entry<Js>> {
    [Entry(FromText("scheme"), Str(r.scheme)), Entry(FromText("value"), Str(r.value))]
  }

  function TextJs(s: Option<JsString>): Js {
    if s.None? then Null else Str(s.value)
  }

  function FieldName(i: nat): string
    requires i < 11
  {
    match i
    case 0 => "schema_version"
    case 1 => "event_id"
    case 2 => "timestamp"
    case 3 => "event_type"
    case 4 => "actor"
    case 5 => "payload"
    case 6 => "subject_ref"
    case 7 => "session_id"
    case 8 => "reference_db_ref"
    case 9 => "matched_input_ref"
    case _ => "human_verifier"
  }

  function FieldValue(e: AuditEvent, i: nat): Js
    requires i < 11
  {
    match i
    case 0 => Number(e.schemaVersion)
    case 1 => Str(e.eventId)
    case 2 => StampJs(e.timestamp)
    case 3 => Str(e.eventType)
    case 4 => Str(e.actor)
    case 5 => e.payload
    case 6 => RefJs(e.subjectRef)
    case 7 => TextJs(e.sessionId)
    case 8 => TextJs(e.referenceDbRef)
    case 9 => TextJs(e.matchedInputRef)
    case _ => RefJs(e.humanVerifier)
  }

  function Fields(e: AuditEvent): (fields: seq<Entry<Js>>)
    ensures |fields| == 11
    ensures forall i :: 0 <= i < 11 ==> fields[i] == Entry(FromText(FieldName(i)), FieldValue(e, i))
  {
    seq(11, i requires 0 <= i < 11 => Entry(FromText(FieldName(i)), FieldValue(e, i)))
  }

  /** `canonicalEvent`: the event's own properties, a Date replaced by its text. */
  function EventJs(e: AuditEvent): Js {
    Object(Fields(e))
  }

  // ----- Which events have canonical bytes -----

  predicate AcceptsRef(r: Option<SubjectRef>, nfc: NfcTest) {
    r.Some? ==> AcceptsString(r.value.scheme, nfc) && AcceptsString(r.value.value, nfc)
  }

  predicate AcceptsText(s: Option<JsString>, nfc: NfcTest) {
    s.Some? ==> AcceptsString(s.value, nfc)
  }

  predicate AcceptsEvent(e: AuditEvent, nfc: NfcTest) {
    && Accepts(Number(e.schemaVersion), nfc)
    && AcceptsString(e.eventId, nfc)
    && Accepts(StampJs(e.timestamp), nfc)
    && AcceptsString(e.eventType, nfc)
    && AcceptsString(e.actor, nfc)
    && Accepts(e.payload, nfc)
    && AcceptsRef(e.subjectRef, nfc)
    && AcceptsText(e.sessionId, nfc)
    && AcceptsText(e.referenceDbRef, nfc)
    && AcceptsText(e.matchedInputRef, nfc)
    && AcceptsRef(e.humanVerifier, nfc)
  }

  /** The property names, being ASCII, are in normal form C. */
  ghost predicate NfcOfNames(nfc: NfcTest) {
    && (forall i :: 0 <= i < 11 ==> nfc(FromText(FieldName(i))))
    && nfc(FromText("scheme"))
    && nfc(FromText("value"))
  }

  /** Where names have the same length their first letters differ. */
  function NameLength(i: nat): nat {
    match i
    case 0 => 14
    case 1 => 8
    case 2 => 9
    case 3 => 10
    case 4 => 5
    case 5 => 7
    case 6 => 11
    case 7 => 10
    case 8 => 16
    case 9 => 17
    case _ => 14
  }

  function NameStart(i: nat): char {
    match i
    case 0 => 's'
    case 3 => 'e'
    case 7 => 's'
    case 10 => 'h'
    case _ => '-'
  }

  lemma NameShape(i: nat)
    requires i < 11
    ensures |FieldName(i)| == NameLength(i)
    ensures NameStart(i) != '-' ==> FieldName(i)[0] == NameStart(i)
  {
  }

  lemma NamesDiffer(i: nat, j: nat)
    requires i < j < 11
    ensures FromText(FieldName(i)) != FromText(FieldName(j))
  {
    var s, t := FieldName(i), FieldName(j);
    NameShape(i);
    NameShape(j);
    if |s| == |t| {
      assert FromText(s)[0] == Unit(s[0]) && FromText(t)[0] == Unit(t[0]);
    }
  }

  lemma NamesDistinct(e: AuditEvent)
    ensures DistinctKeys(Fields(e))
  {
    var fields := Fields(e);
    forall i, j | 0 <= i < j < 11 ensures fields[i].key != fields[j].key {
      NamesDiffer(i, j);
    }
    DistinctPairwise(fields);
  }

  lemma {:induction false} BasicIsScalar(s: JsString)
    requires forall i :: 0 <= i < |s| ==> IsScalar(s[i])
    ensures AllScalar(CodePoints(s))
  {
    if s != [] {
      BasicIsScalar(s[1..]);
    }
  }

  lemma NameAccepted(s: string, nfc: NfcTest)
    requires nfc(FromText(s))
    ensures AcceptsString(FromText(s), nfc)
  {
    BasicIsScalar(FromText(s));
  }

  lemma RefAcceptedExactly(r: Option<SubjectRef>, nfc: NfcTest)
    requires NfcOfNames(nfc)
    ensures Accepts(RefJs(r), nfc) <==> AcceptsRef(r, nfc)
  {
    if r.Some? {
      var fields := RefFields(r.value);
      NameAccepted("scheme", nfc);
      NameAccepted("value", nfc);
      DistinctPairwise(fields);
      assert |fields[0].key| == 6 && |fields[1].key| == 5;
      FieldsAccepted(fields, nfc);
      assert Accepts(fields[0].value, nfc) <==> AcceptsString(r.value.scheme, nfc);
      assert Accepts(fields[1].value, nfc) <==> AcceptsString(r.value.value, nfc);
    }
  }

  lemma FieldsAcceptedByIndex(e: AuditEvent, nfc: NfcTest)
    requires NfcOfNames(nfc)
    ensures Accepts(EventJs(e), nfc) <==> forall i :: 0 <= i < 11 ==> FieldAccepted(e, i, nfc)
  {
    var fields := Fields(e);
    NamesDistinct(e);
    forall i | 0 <= i < |fields| ensures AcceptsString(fields[i].key, nfc) {
      NameAccepted(FieldName(i), nfc);
    }
    FieldsAccepted(fields, nfc);
    if AcceptsEntries(fields, nfc) {
      forall i | 0 <= i < 11 ensures FieldAccepted(e, i, nfc) {
        assert Accepts(fields[i].value, nfc);
      }
    } else {
      var i :| 0 <= i < |fields| && !Accepts(fields[i].value, nfc);
      assert !FieldAccepted(e, i, nfc);
    }
  }

  /** An event can be canonicalised exactly when each of its own fields can. */
  lemma EventAcceptedExactly(e: AuditEvent, nfc: NfcTest)
    requires NfcOfNames(nfc)
    ensures Accepts(EventJs(e), nfc) <==> AcceptsEvent(e, nfc)
  {
    FieldsAcceptedByIndex(e, nfc);
    RefAcceptedExactly(e.subjectRef, nfc);
    RefAcceptedExactly(e.humanVerifier, nfc);
    AcceptedFieldByField(e, nfc);
  }

  predicate FieldAccepted(e: AuditEvent, i: nat, nfc: NfcTest)
    requires i < 11
  {
    Accepts(FieldValue(e, i), nfc)
  }

  lemma AcceptedFieldByField(e: AuditEvent, nfc: NfcTest)
    requires Accepts(RefJs(e.subjectRef), nfc) <==> AcceptsRef(e.subjectRef, nfc)
    requires Accepts(RefJs(e.humanVerifier), nfc) <==> AcceptsRef(e.humanVerifier, nfc)
    ensures AcceptsEvent(e, nfc) <==> forall i :: 0 <= i < 11 ==> FieldAccepted(e, i, nfc)
  {
    if forall i :: 0 <= i < 11 ==> FieldAccepted(e, i, nfc) {
      assert FieldAccepted(e, 0, nfc) && FieldAccepted(e, 1, nfc) && FieldAccepted(e, 2, nfc);
      assert FieldAccepted(e, 3, nfc) && FieldAccepted(e, 4, nfc) && FieldAccepted(e, 5, nfc);
      assert FieldAccepted(e, 6, nfc) && FieldAccepted(e, 7, nfc) && FieldAccepted(e, 8, nfc);
      assert FieldAccepted(e, 9, nfc) && FieldAccepted(e, 10, nfc);
    }
  }

  lemma {:induction false} FieldsAccepted(fields: seq<Entry<Js>>, nfc: NfcTest)
    requires DistinctKeys(fields)
    requires forall i :: 0 <= i < |fields| ==> AcceptsString(fields[i].key, nfc)
    ensures AcceptsEntries(fields, nfc) <==> forall i :: 0 <= i < |fields| ==> Accepts(fields[i].value, nfc)
  {
    if AcceptsEntries(fields, nfc) {
      forall i | 0 <= i < |fields| ensures Accepts(fields[i].value, nfc) {
        assert fields[i] in fields;
        assert AcceptsEntry(fields[i], nfc);
      }
    }
  }

  // ----- What the canonical bytes tell apart -----

  predicate PlainEvent(e: AuditEvent) {
    Plain(e.payload) && (e.timestamp.NotADate? ==> Plain(e.timestamp.v))
  }

  /** Equal in every field: numbers and payloads as values, times as the text or value that is hashed. */
  predicate SameEvent(e: AuditEvent, f: AuditEvent) {
    && Value(Number(e.schemaVersion)) == Value(Number(f.schemaVersion))
    && e.eventId == f.eventId
    && Value(StampJs(e.timestamp)) == Value(StampJs(f.timestamp))
    && e.eventType == f.eventType
    && e.actor == f.actor
    && Value(e.payload) == Value(f.payload)
    && e.subjectRef == f.subjectRef
    && e.sessionId == f.sessionId
    && e.referenceDbRef == f.referenceDbRef
    && e.matchedInputRef == f.matchedInputRef
    && e.humanVerifier == f.humanVerifier
  }

  /** Under distinct keys every entry can be looked up in the value. */
  lemma {:induction false} ValueOfEntry(es: seq<Entry<Js>>, i: nat)
    requires DistinctKeys(es) && i < |es|
    ensures es[i].key in EntryValues(es) && EntryValues(es)[es[i].key] == Value(es[i].value)
  {
    if i > 0 {
      ValueOfEntry(es[1..], i - 1);
      assert es[1..][i - 1] == es[i];
      MapOfValues(es[1..]);
      assert es[i].key in EntryMap(es[1..]);
    }
  }

  lemma {:induction false} SameEntryValues(a: seq<Entry<Js>>, b: seq<Entry<Js>>)
    requires |a| == |b|
    requires forall i :: 0 <= i < |a| ==> a[i].key == b[i].key && Value(a[i].value) == Value(b[i].value)
    ensures EntryValues(a) == EntryValues(b)
  {
    if a != [] {
      SameEntryValues(a[1..], b[1..]);
    }
  }

  /** Two objects with the same distinct keys in the same places have equal values exactly when their fields do. */
  lemma {:induction false} ObjectsEqualByField(a: seq<Entry<Js>>, b: seq<Entry<Js>>)
    requires |a| == |b| && DistinctKeys(a) && DistinctKeys(b)
    requires forall i :: 0 <= i < |a| ==> a[i].key == b[i].key
    ensures Value(Object(a)) == Value(Object(b)) <==>
      forall i :: 0 <= i < |a| ==> Value(a[i].value) == Value(b[i].value)
  {
    if forall i :: 0 <= i < |a| ==> Value(a[i].value) == Value(b[i].value) {
      SameEntryValues(a, b);
    }
    if Value(Object(a)) == Value(Object(b)) {
      forall i | 0 <= i < |a| ensures Value(a[i].value) == Value(b[i].value) {
        ValueOfEntry(a, i);
        ValueOfEntry(b, i);
      }
    }
  }

  lemma RefValues(r: Option<SubjectRef>, t: Option<SubjectRef>)
    ensures Value(RefJs(r)) == Value(RefJs(t)) <==> r == t
  {
    if r.Some? && t.Some? {
      var a, b := RefFields(r.value), RefFields(t.value);
      DistinctPairwise(a);
      DistinctPairwise(b);
      assert |a[0].key| == |b[0].key| == 6 && |a[1].key| == |b[1].key| == 5;
      ObjectsEqualByField(a, b);
      assert Value(a[0].value) == DStr(r.value.scheme) && Value(a[1].value) == DStr(r.value.value);
      assert Value(b[0].value) == DStr(t.value.scheme) && Value(b[1].value) == DStr(t.value.value);
    }
  }

  predicate FieldAgrees(e: AuditEvent, f: AuditEvent, i: nat) {
    match i
    case 0 => Value(Number(e.schemaVersion)) == Value(Number(f.schemaVersion))
    case 1 => e.eventId == f.eventId
    case 2 => Value(StampJs(e.timestamp)) == Value(StampJs(f.timestamp))
    case 3 => e.eventType == f.eventType
    case 4 => e.actor == f.actor
    case 5 => Value(e.payload) == Value(f.payload)
    case 6 => e.subjectRef == f.subjectRef
    case 7 => e.sessionId == f.sessionId
    case 8 => e.referenceDbRef == f.referenceDbRef
    case 9 => e.matchedInputRef == f.matchedInputRef
    case _ => e.humanVerifier == f.humanVerifier
  }

  lemma TextValues(s: Option<JsString>, t: Option<JsString>)
    ensures Value(TextJs(s)) == Value(TextJs(t)) <==> s == t
  {
    if s.Some? && t.Some? {
      assert Value(TextJs(s)) == DStr(s.value) && Value(TextJs(t)) == DStr(t.value);
    }
  }

  lemma FieldValuesAgree(e: AuditEvent, f: AuditEvent, i: nat)
    requires i < 11
    ensures Value(FieldValue(e, i)) == Value(FieldValue(f, i)) <==> FieldAgrees(e, f, i)
  {
    match i
    case 1 => TextValues(Some(e.eventId), Some(f.eventId));
    case 3 => TextValues(Some(e.eventType), Some(f.eventType));
    case 4 => TextValues(Some(e.actor), Some(f.actor));
    case 6 => RefValues(e.subjectRef, f.subjectRef);
    case 7 => TextValues(e.sessionId, f.sessionId);
    case 8 => TextValues(e.referenceDbRef, f.referenceDbRef);
    case 9 => TextValues(e.matchedInputRef, f.matchedInputRef);
    case 10 => RefValues(e.humanVerifier, f.humanVerifier);
    case _ =>
  }

  lemma SameFieldByField(e: AuditEvent, f: AuditEvent)
    ensures SameEvent(e, f) <==> forall i :: 0 <= i < 11 ==> FieldAgrees(e, f, i)
  {
    if forall i :: 0 <= i < 11 ==> FieldAgrees(e, f, i) {
      assert FieldAgrees(e, f, 0) && FieldAgrees(e, f, 1) && FieldAgrees(e, f, 2) && FieldAgrees(e, f, 3);
      assert FieldAgrees(e, f, 4) && FieldAgrees(e, f, 5) && FieldAgrees(e, f, 6) && FieldAgrees(e, f, 7);
      assert FieldAgrees(e, f, 8) && FieldAgrees(e, f, 9) && FieldAgrees(e, f, 10);
    }
  }

  lemma EventValues(e: AuditEvent, f: AuditEvent)
    ensures Value(EventJs(e)) == Value(EventJs(f)) <==> SameEvent(e, f)
  {
    var a, b := Fields(e), Fields(f);
    NamesDistinct(e);
    NamesDistinct(f);
    ObjectsEqualByField(a, b);
    forall i | 0 <= i < 11 ensures Value(a[i].value) == Value(b[i].value) <==> FieldAgrees(e, f, i) {
      FieldValuesAgree(e, f, i);
    }
    SameFieldByField(e, f);
  }

  lemma FieldAt(e: AuditEvent, i: nat)
    requires i < 11
    ensures FromText(FieldName(i)) in EntryValues(Fields(e))
    ensures EntryValues(Fields(e))[FromText(FieldName(i))] == Value(FieldValue(e, i))
  {
    NamesDistinct(e);
    ValueOfEntry(Fields(e), i);
  }

  /** What the object that is hashed says under a name. */
  ghost function Hashed(e: AuditEvent, name: string): Data {
    var d := Value(EventJs(e));
    if d.DObj? && FromText(name) in d.fields then d.fields[FromText(name)] else DAbsent
  }

  lemma EventMeans(e: AuditEvent)
    ensures Value(EventJs(e)) == DObj(EntryValues(Fields(e)))
  {
  }

  lemma HashedAt(e: AuditEvent, i: nat, d: Data)
    requires i < 11 && Value(FieldValue(e, i)) == d
    ensures Hashed(e, FieldName(i)) == d
  {
    EventMeans(e);
    FieldAt(e, i);
  }

  lemma RefMeans(r: SubjectRef)
    ensures Value(RefJs(Some(r))) == DObj(map[FromText("scheme") := DStr(r.scheme), FromText("value") := DStr(r.value)])
  {
    var fields := RefFields(r);
    assert |fields[0].key| == 6 && |fields[1].key| == 5;
    DistinctPairwise(fields);
    ValueOfEntry(fields, 0);
    ValueOfEntry(fields, 1);
    MapOfValues(fields);
    assert EntryMap(fields).Keys == {fields[0].key, fields[1].key} by {
      assert fields[1..] == [fields[1]] && fields[1..][1..] == [];
    }
  }

  /**
   * The object that is hashed, field by field: what each says under its own name. A reference is the object of its
   * scheme and its value, and an absent one is null, like an absent text.
   */
  lemma EventFieldsByName(e: AuditEvent)
    ensures Hashed(e, "schema_version") == Value(Number(e.schemaVersion))
    ensures Hashed(e, "event_id") == DStr(e.eventId)
    ensures e.timestamp.At? ==> Hashed(e, "timestamp") == DStr(ChainTimestamp(e.timestamp.d))
    ensures e.timestamp.NotADate? ==> Hashed(e, "timestamp") == Value(e.timestamp.v)
    ensures Hashed(e, "event_type") == DStr(e.eventType)
    ensures Hashed(e, "actor") == DStr(e.actor)
    ensures Hashed(e, "payload") == Value(e.payload)
    ensures Hashed(e, "subject_ref") == match e.subjectRef {
      case None => DNull
      case Some(r) => DObj(map[FromText("scheme") := DStr(r.scheme), FromText("value") := DStr(r.value)])
    }
    ensures Hashed(e, "session_id") == if e.sessionId.None? then DNull else DStr(e.sessionId.value)
    ensures Hashed(e, "reference_db_ref") == if e.referenceDbRef.None? then DNull else DStr(e.referenceDbRef.value)
    ensures Hashed(e, "matched_input_ref") == if e.matchedInputRef.None? then DNull else DStr(e.matchedInputRef.value)
    ensures Hashed(e, "human_verifier") == match e.humanVerifier {
      case None => DNull
      case Some(r) => DObj(map[FromText("scheme") := DStr(r.scheme), FromText("value") := DStr(r.value)])
    }
  {
    HashedTexts(e);
    HashedValues(e);
    HashedRefs(e);
  }

  lemma HashedRefs(e: AuditEvent)
    ensures Hashed(e, "subject_ref") == match e.subjectRef {
      case None => DNull
      case Some(r) => DObj(map[FromText("scheme") := DStr(r.scheme), FromText("value") := DStr(r.value)])
    }
    ensures Hashed(e, "human_verifier") == match e.humanVerifier {
      case None => DNull
      case Some(r) => DObj(map[FromText("scheme") := DStr(r.scheme), FromText("value") := DStr(r.value)])
    }
  {
    HashedRef(e, 6, e.subjectRef);
    HashedRef(e, 10, e.humanVerifier);
  }

  lemma HashedTexts(e: AuditEvent)
    ensures Hashed(e, "event_id") == DStr(e.eventId)
    ensures Hashed(e, "event_type") == DStr(e.eventType)
    ensures Hashed(e, "actor") == DStr(e.actor)
    ensures Hashed(e, "session_id") == if e.sessionId.None? then DNull else DStr(e.sessionId.value)
    ensures Hashed(e, "reference_db_ref") == if e.referenceDbRef.None? then DNull else DStr(e.referenceDbRef.value)
    ensures Hashed(e, "matched_input_ref") == if e.matchedInputRef.None? then DNull else DStr(e.matchedInputRef.value)
  {
    HashedAt(e, 1, DStr(e.eventId));
    HashedAt(e, 3, DStr(e.eventType));
    HashedAt(e, 4, DStr(e.actor));
    HashedAt(e, 7, if e.sessionId.None? then DNull else DStr(e.sessionId.value));
    HashedAt(e, 8, if e.referenceDbRef.None? then DNull else DStr(e.referenceDbRef.value));
    HashedAt(e, 9, if e.matchedInputRef.None? then DNull else DStr(e.matchedInputRef.value));
  }

  lemma HashedValues(e: AuditEvent)
    ensures Hashed(e, "schema_version") == Value(Number(e.schemaVersion))
    ensures e.timestamp.At? ==> Hashed(e, "timestamp") == DStr(ChainTimestamp(e.timestamp.d))
    ensures e.timestamp.NotADate? ==> Hashed(e, "timestamp") == Value(e.timestamp.v)
    ensures Hashed(e, "payload") == Value(e.payload)
  {
    HashedAt(e, 0, Value(Number(e.schemaVersion)));
    HashedAt(e, 2, Value(StampJs(e.timestamp)));
    HashedAt(e, 5, Value(e.payload));
  }

  lemma HashedRef(e: AuditEvent, i: nat, r: Option<SubjectRef>)
    requires (i == 6 && r == e.subjectRef) || (i == 10 && r == e.humanVerifier)
    ensures Hashed(e, FieldName(i)) == match r {
      case None => DNull
      case Some(r) => DObj(map[FromText("scheme") := DStr(r.scheme), FromText("value") := DStr(r.value)])
    }
  {
    HashedAt(e, i, Value(RefJs(r)));
    if r.Some? {
      RefMeans(r.value);
    }
  }

  /** Two events have the same canonical bytes exactly when they are the same event. */
  lemma {:induction false} EventBytesDetermineEvent(e: AuditEvent, f: AuditEvent, nfc: NfcTest)
    requires Accepts(EventJs(e), nfc) && PlainEvent(e)
    requires Accepts(EventJs(f), nfc) && PlainEvent(f)
    ensures CanonicalBytes(EventJs(e), nfc) == CanonicalBytes(EventJs(f), nfc) <==> SameEvent(e, f)
  {
    EventIsPlain(e, nfc);
    EventIsPlain(f, nfc);
    CanonicalBytesDetermineValue(EventJs(e), EventJs(f), nfc);
    EventValues(e, f);
  }

  lemma EventIsPlain(e: AuditEvent, nfc: NfcTest)
    requires Accepts(EventJs(e), nfc) && PlainEvent(e)
    ensures Plain(EventJs(e))
  {
    var fields := Fields(e);
    forall i | 0 <= i < |fields| ensures Plain(fields[i].value) {
      assert fields[i] in fields;
      assert AcceptsEntry(fields[i], nfc);
      FieldPlain(e, i, nfc);
    }
  }

  lemma FieldPlain(e: AuditEvent, i: nat, nfc: NfcTest)
    requires i < 11 && PlainEvent(e) && Accepts(FieldValue(e, i), nfc)
    ensures Plain(FieldValue(e, i))
  {
    RefPlain(e.subjectRef);
    RefPlain(e.humanVerifier);
  }

  lemma RefPlain(r: Option<SubjectRef>)
    ensures Plain(RefJs(r))
  {
  }

  /** Two Dates of the same event are the same Date, whatever its year. */
  lemma {:induction false} SameEventSameMoment(e: AuditEvent, f: AuditEvent)
    requires SameEvent(e, f) && e.timestamp.At? && f.timestamp.At?
    ensures e.timestamp == f.timestamp
  {
    ChainTextDeterminesMoment(e.timestamp.d, f.timestamp.d);
  }
}
