/** The hash chain: extending it, verifying it, and what a verified chain pins down. */
module HashChain {
  import opened Octets
  import opened Utf16
  import opened World
  import opened Canonical
  import opened AuditEvents
  import opened Timestamps
  import opened Json

  /** What the chain takes from outside: SHA-256, of which nothing is assumed, and the NFC test. */
  datatype Env = Env(sha: seq<Byte> -> seq<Byte>, nfc: NfcTest)

  datatype ChainHead = ChainHead(seqNo: int, eventHash: seq<Byte>)

  datatype ChainedEvent = ChainedEvent(seqNo: int, prevHash: seq<Byte>, eventHash: seq<Byte>, event: AuditEvent)

  datatype EventDraft = EventDraft(
    eventType: JsString,
    actor: JsString,
    payload: Js,
    subjectRef: Option<SubjectRef>,
    sessionId: Option<JsString>,
    referenceDbRef: Option<JsString>,
    matchedInputRef: Option<JsString>,
    humanVerifier: Option<SubjectRef>)

  const SCHEMA_VERSION := 1

  function GenesisHash(): seq<Byte> {
    seq(32, i => 0)
  }

  function GenesisHead(): ChainHead {
    ChainHead(-1, GenesisHash())
  }

  function HeadOf(items: seq<ChainedEvent>): ChainHead {
    if items == [] then GenesisHead()
    else var last := items[|items| - 1]; ChainHead(last.seqNo, last.eventHash)
  }

  /** `hashEvent`: the hash of the event alone; nothing where the source throws. */
  function HashEvent(env: Env, e: AuditEvent): Option<seq<Byte>> {
    if e.timestamp.InvalidDate? then None
    else
      var bytes := CanonicalBytes(EventJs(e), env.nfc);
      if bytes.None? then None else Some(env.sha(bytes.value))
  }

  function EventOf(draft: EventDraft, now: Stamp, eventId: JsString): AuditEvent {
    AuditEvent(Whole(SCHEMA_VERSION), eventId, now, draft.eventType, draft.actor, draft.payload,
               draft.subjectRef, draft.sessionId, draft.referenceDbRef, draft.matchedInputRef, draft.humanVerifier)
  }

  /** `chainExtend`: the next item, or nothing where the source throws. `now` is a Date, valid or not. */
  function ChainExtend(env: Env, tip: ChainHead, draft: EventDraft, now: Stamp, eventId: JsString): Option<ChainedEvent>
    requires !now.NotADate?
  {
    if now.InvalidDate? then None
    else
      var event := EventOf(draft, now, eventId);
      var hash := HashEvent(env, event);
      if hash.None? then None
      else Some(ChainedEvent(tip.seqNo + 1, tip.eventHash, hash.value, event))
  }

  /**
   * The item that `chainExtend` makes: it is numbered after the head and linked to it, and what is hashed says of each
   * field what the draft says, under that field's name.
   */
  lemma ExtendedItem(env: Env, tip: ChainHead, draft: EventDraft, now: Stamp, eventId: JsString)
    requires !now.NotADate? && ChainExtend(env, tip, draft, now, eventId).Some?
    ensures var item := ChainExtend(env, tip, draft, now, eventId).value;
      && item.seqNo == tip.seqNo + 1 && item.prevHash == tip.eventHash
      && Some(item.eventHash) == HashEvent(env, item.event)
      && Hashed(item.event, "schema_version") == DInt(1) && Hashed(item.event, "event_id") == DStr(eventId)
      && now.At? && Hashed(item.event, "timestamp") == DStr(ChainTimestamp(now.d))
      && Hashed(item.event, "event_type") == DStr(draft.eventType) && Hashed(item.event, "actor") == DStr(draft.actor)
      && Hashed(item.event, "payload") == Value(draft.payload)
      && item.event.subjectRef == draft.subjectRef && item.event.humanVerifier == draft.humanVerifier
      && Hashed(item.event, "session_id") == TextData(draft.sessionId)
      && Hashed(item.event, "reference_db_ref") == TextData(draft.referenceDbRef)
      && Hashed(item.event, "matched_input_ref") == TextData(draft.matchedInputRef)
  {
    EventFieldsByName(ChainExtend(env, tip, draft, now, eventId).value.event);
  }

  /** An optional text, or null. */
  function TextData(text: Option<JsString>): Data {
    if text.None? then DNull else DStr(text.value)
  }

  // ----- Verifying -----

  datatype Reason = SeqMismatch | PrevHashMismatch | EventHashMismatch

  /** `Threw` is the exception of `hashEvent` on the event at that index. */
  datatype Verdict = Accepted | Bad(index: nat, reason: Reason) | Threw(index: nat)

  /** The checks of one item, in order, against the head of the items before it. */
  function CheckItem(env: Env, items: seq<ChainedEvent>, i: nat): Verdict
    requires i < |items|
  {
    var item := items[i];
    if item.seqNo != i then Bad(i, SeqMismatch)
    else if item.prevHash != HeadOf(items[..i]).eventHash then Bad(i, PrevHashMismatch)
    else
      var hash := HashEvent(env, item.event);
      if hash.None? then Threw(i)
      else if hash.value != item.eventHash then Bad(i, EventHashMismatch)
      else Accepted
  }

  function VerifyFrom(env: Env, items: seq<ChainedEvent>, i: nat): Verdict
    decreases |items| - i
  {
    if i >= |items| then Accepted
    else
      var check := CheckItem(env, items, i);
      if check.Accepted? then VerifyFrom(env, items, i + 1) else check
  }

  function Verify(env: Env, items: seq<ChainedEvent>): Verdict {
    VerifyFrom(env, items, 0)
  }

  method BytesEqual(a: seq<Byte>, b: seq<Byte>) returns (same: bool)
    ensures same <==> a == b
  {
    if |a| != |b| {
      return false;
    }
    for i := 0 to |a|
      invariant a[..i] == b[..i]
    {
      if a[i] != b[i] {
        return false;
      }
    }
    return true;
  }

  method VerifyChain(env: Env, items: seq<ChainedEvent>) returns (verdict: Verdict)
    ensures verdict == Verify(env, items)
  {
    var expectedTip := GenesisHead();
    for i := 0 to |items|
      invariant expectedTip.eventHash == HeadOf(items[..i]).eventHash
      invariant Verify(env, items) == VerifyFrom(env, items, i)
    {
      var item := items[i];
      if item.seqNo != i {
        return Bad(i, SeqMismatch);
      }
      var linked := BytesEqual(item.prevHash, expectedTip.eventHash);
      if !linked {
        return Bad(i, PrevHashMismatch);
      }
      var recomputed := HashEvent(env, item.event);
      if recomputed.None? {
        return Threw(i);
      }
      var sameHash := BytesEqual(recomputed.value, item.eventHash);
      if !sameHash {
        return Bad(i, EventHashMismatch);
      }
      expectedTip := ChainHead(item.seqNo, item.eventHash);
      assert items[..i + 1][i] == item;
    }
    return Accepted;
  }

  /** The first n items pass all their checks. */
  predicate Linked(env: Env, items: seq<ChainedEvent>, n: nat)
    requires n <= |items|
  {
    forall i :: 0 <= i < n ==> CheckItem(env, items, i).Accepted?
  }

  lemma {:induction false} VerifyFromMeaning(env: Env, items: seq<ChainedEvent>, i: nat)
    requires i <= |items| && Linked(env, items, i)
    ensures var v := VerifyFrom(env, items, i);
      if v.Accepted? then Linked(env, items, |items|)
      else i <= v.index < |items| && Linked(env, items, v.index) && CheckItem(env, items, v.index) == v
    decreases |items| - i
  {
    if i < |items| && CheckItem(env, items, i).Accepted? {
      assert Linked(env, items, i + 1);
      VerifyFromMeaning(env, items, i + 1);
    }
  }

  lemma VerifyMeaning(env: Env, items: seq<ChainedEvent>)
    ensures Verify(env, items).Accepted? <==> Linked(env, items, |items|)
    ensures var v := Verify(env, items);
      !v.Accepted? ==> v.index < |items| && Linked(env, items, v.index) && CheckItem(env, items, v.index) == v
  {
    VerifyFromMeaning(env, items, 0);
  }

  lemma LinkedItem(env: Env, items: seq<ChainedEvent>, i: nat)
    requires Linked(env, items, |items|) && i < |items|
    ensures items[i].seqNo == i
    ensures items[i].prevHash == if i == 0 then GenesisHash() else items[i - 1].eventHash
    ensures HashEvent(env, items[i].event) == Some(items[i].eventHash)
  {
    assert CheckItem(env, items, i).Accepted?;
  }

  lemma PrefixChecks(env: Env, items: seq<ChainedEvent>, n: nat, i: nat)
    requires i < n <= |items|
    ensures CheckItem(env, items[..n], i) == CheckItem(env, items, i)
  {
    assert items[..n][..i] == items[..i];
  }

  lemma LinkedPrefix(env: Env, items: seq<ChainedEvent>, n: nat)
    requires n <= |items|
    ensures Linked(env, items[..n], n) <==> Linked(env, items, n)
  {
    forall i | 0 <= i < n ensures CheckItem(env, items[..n], i) == CheckItem(env, items, i) {
      PrefixChecks(env, items, n, i);
    }
  }

  /** Where the items before it pass and one does not, that one decides. */
  lemma {:induction false} FirstFailure(env: Env, items: seq<ChainedEvent>, n: nat, i: nat)
    requires i <= n < |items| && Linked(env, items, n) && !CheckItem(env, items, n).Accepted?
    ensures VerifyFrom(env, items, i) == CheckItem(env, items, n)
    decreases n - i
  {
    if i < n {
      FirstFailure(env, items, n, i + 1);
    }
  }

  /** What an item has to link to: 32 zero octets, or the hash of the item before it. */
  predicate LinksBack(items: seq<ChainedEvent>, i: nat)
    requires i < |items|
  {
    if i == 0 then |items[0].prevHash| == 32 && forall k :: 0 <= k < 32 ==> items[0].prevHash[k] == 0
    else items[i].prevHash == items[i - 1].eventHash
  }

  lemma CheckedItem(env: Env, items: seq<ChainedEvent>, i: nat)
    requires i < |items|
    ensures LinksBack(items, i) <==> items[i].prevHash == HeadOf(items[..i]).eventHash
  {
    var zeros := GenesisHash();
    if i == 0 && LinksBack(items, i) {
      assert items[0].prevHash == zeros;
    }
    assert i > 0 ==> items[..i][i - 1] == items[i - 1];
  }

  /**
   * Each outcome, from the item and the one before it: the items before are accepted, and the item has another number,
   * or the right number but another link, or both right but an event that hashes to something else or not at all.
   */
  lemma ReasonExactly(env: Env, items: seq<ChainedEvent>, i: nat)
    requires i < |items|
    ensures var v, before := Verify(env, items), Verify(env, items[..i]).Accepted?;
      var item, hash := items[i], HashEvent(env, items[i].event);
      && (v == Bad(i, SeqMismatch) <==> before && item.seqNo != i)
      && (v == Bad(i, PrevHashMismatch) <==> before && item.seqNo == i && !LinksBack(items, i))
      && (v == Bad(i, EventHashMismatch) <==>
            before && item.seqNo == i && LinksBack(items, i) && hash.Some? && hash.value != item.eventHash)
      && (v == Threw(i) <==> before && item.seqNo == i && LinksBack(items, i) && hash.None?)
  {
    CheckedItem(env, items, i);
    VerifyMeaning(env, items);
    VerifyMeaning(env, items[..i]);
    LinkedPrefix(env, items, i);
    if Linked(env, items, i) && !CheckItem(env, items, i).Accepted? {
      FirstFailure(env, items, i, 0);
    }
  }

  /** The reported index is the length of the longest prefix that is accepted on its own. */
  lemma BadIndexIsLongestPrefix(env: Env, items: seq<ChainedEvent>, n: nat)
    requires n <= |items|
    ensures var v := Verify(env, items);
      Verify(env, items[..n]).Accepted? <==> v.Accepted? || n <= v.index
  {
    VerifyMeaning(env, items);
    VerifyMeaning(env, items[..n]);
    LinkedPrefix(env, items, n);
  }

  // ----- The verifier accepts what the builder builds -----

  function EventsOf(items: seq<ChainedEvent>): (events: seq<AuditEvent>)
    ensures |events| == |items|
    ensures forall i :: 0 <= i < |items| ==> events[i] == items[i].event
  {
    seq(|items|, i requires 0 <= i < |items| => items[i].event)
  }

  function DraftOf(e: AuditEvent): EventDraft {
    EventDraft(e.eventType, e.actor, e.payload, e.subjectRef, e.sessionId, e.referenceDbRef, e.matchedInputRef,
               e.humanVerifier)
  }

  /** What `chainExtend` can make: schema version 1 and a Date for the time. */
  predicate Extendable(e: AuditEvent) {
    e.schemaVersion == Whole(SCHEMA_VERSION) && e.timestamp.At?
  }

  /** Folding `chainExtend` from genesis over the drafts, times and ids of the events. */
  function Build(env: Env, events: seq<AuditEvent>): Option<seq<ChainedEvent>>
    decreases |events|
  {
    if events == [] then Some([])
    else
      var last := events[|events| - 1];
      var before := Build(env, events[..|events| - 1]);
      if before.None? || last.timestamp.NotADate? then None
      else
        var next := ChainExtend(env, HeadOf(before.value), DraftOf(last), last.timestamp, last.eventId);
        if next.None? then None else Some(before.value + [next.value])
  }

  lemma ExtendChecks(env: Env, items: seq<ChainedEvent>)
    requires items != [] && Verify(env, items[..|items| - 1]).Accepted?
    ensures var n := |items| - 1;
      var e := items[n].event;
      CheckItem(env, items, n).Accepted? && Extendable(e) <==>
        !e.timestamp.NotADate?
        && ChainExtend(env, HeadOf(items[..n]), DraftOf(e), e.timestamp, e.eventId) == Some(items[n])
  {
    var n := |items| - 1;
    var e := items[n].event;
    HeadSeqNo(env, items[..n]);
    if e.timestamp.At? {
      var event := EventOf(DraftOf(e), e.timestamp, e.eventId);
      assert event == e <==> Extendable(e);
    }
  }

  lemma HeadSeqNo(env: Env, items: seq<ChainedEvent>)
    requires Verify(env, items).Accepted?
    ensures HeadOf(items).seqNo == |items| - 1
  {
    VerifyMeaning(env, items);
    if items != [] {
      LinkedItem(env, items, |items| - 1);
    }
  }

  /**
   * A list is accepted, with events `chainExtend` can make, exactly when it is the chain that folding
   * `chainExtend` from genesis over its own events builds.
   */
  lemma {:induction false} AcceptedExactlyBuilt(env: Env, items: seq<ChainedEvent>)
    ensures Verify(env, items).Accepted? && (forall i :: 0 <= i < |items| ==> Extendable(items[i].event))
       <==> Build(env, EventsOf(items)) == Some(items)
    decreases |items|
  {
    if items == [] {
    } else {
      var n := |items| - 1;
      AcceptedExactlyBuilt(env, items[..n]);
      AcceptedKeepsPrefix(env, items);
      BuiltKeepsPrefix(env, items);
      if Verify(env, items[..n]).Accepted? {
        ExtendChecks(env, items);
      }
      assert forall i :: 0 <= i < n ==> items[..n][i] == items[i];
    }
  }

  lemma AcceptedKeepsPrefix(env: Env, items: seq<ChainedEvent>)
    requires items != []
    ensures var n := |items| - 1;
      Verify(env, items).Accepted? <==> Verify(env, items[..n]).Accepted? && CheckItem(env, items, n).Accepted?
  {
    var n := |items| - 1;
    VerifyMeaning(env, items);
    VerifyMeaning(env, items[..n]);
    LinkedPrefix(env, items, n);
  }

  lemma BuiltKeepsPrefix(env: Env, items: seq<ChainedEvent>)
    requires items != []
    ensures var n := |items| - 1;
      var e := items[n].event;
      Build(env, EventsOf(items)) == Some(items) <==>
        Build(env, EventsOf(items[..n])) == Some(items[..n]) && !e.timestamp.NotADate?
        && ChainExtend(env, HeadOf(items[..n]), DraftOf(e), e.timestamp, e.eventId) == Some(items[n])
  {
    var n := |items| - 1;
    var built := Build(env, EventsOf(items[..n]));
    assert EventsOf(items)[..n] == EventsOf(items[..n]);
    assert items == items[..n] + [items[n]];
    if Build(env, EventsOf(items)) == Some(items) {
      assert built.Some? && |built.value| == n;
      assert items[..n] == built.value;
    }
  }

  // ----- What a verified chain pins down -----

  /** The one thing asked of SHA-256: it does not map the bytes of these two events to one hash. */
  predicate NoCollision(env: Env, e: AuditEvent, f: AuditEvent) {
    var x, y := CanonicalBytes(EventJs(e), env.nfc), CanonicalBytes(EventJs(f), env.nfc);
    x.Some? && y.Some? && env.sha(x.value) == env.sha(y.value) ==> x == y
  }

  lemma {:induction false} EqualHashesExactly(env: Env, e: AuditEvent, f: AuditEvent)
    requires HashEvent(env, e).Some? && PlainEvent(e) && HashEvent(env, f).Some? && PlainEvent(f)
    requires NoCollision(env, e, f)
    ensures HashEvent(env, e) == HashEvent(env, f) <==> SameEvent(e, f)
  {
    EventBytesDetermineEvent(e, f, env.nfc);
  }

  /**
   * Replacing one event of a verified chain and keeping the stored hashes is noticed at exactly that index,
   * unless the replacement is the same event. If it cannot be hashed, the verifier throws there.
   */
  lemma {:induction false} TamperLocalised(env: Env, items: seq<ChainedEvent>, k: nat, e: AuditEvent)
    requires Verify(env, items).Accepted? && k < |items|
    requires PlainEvent(items[k].event) && PlainEvent(e) && NoCollision(env, items[k].event, e)
    ensures Verify(env, items[k := items[k].(event := e)]) ==
      if HashEvent(env, e).None? then Threw(k)
      else if SameEvent(items[k].event, e) then Accepted
      else Bad(k, EventHashMismatch)
  {
    var tampered := items[k := items[k].(event := e)];
    VerifyMeaning(env, items);
    forall i | 0 <= i < |items| && i != k ensures CheckItem(env, tampered, i).Accepted? {
      OtherItemUntouched(env, items, tampered, k, i);
    }
    TamperedItem(env, items, k, e);
    if CheckItem(env, tampered, k).Accepted? {
      VerifyMeaning(env, tampered);
    } else {
      FirstFault(env, tampered, k);
    }
  }

  lemma FirstFault(env: Env, items: seq<ChainedEvent>, k: nat)
    requires k < |items| && Linked(env, items, k) && !CheckItem(env, items, k).Accepted?
    ensures Verify(env, items) == CheckItem(env, items, k)
  {
    VerifyMeaning(env, items);
    var v := Verify(env, items);
    assert !v.Accepted? && Linked(env, items, v.index);
  }

  lemma {:induction false} TamperedItem(env: Env, items: seq<ChainedEvent>, k: nat, e: AuditEvent)
    requires Linked(env, items, |items|) && k < |items|
    requires PlainEvent(items[k].event) && PlainEvent(e) && NoCollision(env, items[k].event, e)
    ensures CheckItem(env, items[k := items[k].(event := e)], k) ==
      if HashEvent(env, e).None? then Threw(k)
      else if SameEvent(items[k].event, e) then Accepted
      else Bad(k, EventHashMismatch)
  {
    OtherItemUntouched(env, items, items[k := items[k].(event := e)], k, k);
    LinkedItem(env, items, k);
    if HashEvent(env, e).Some? {
      EqualHashesExactly(env, items[k].event, e);
    }
    assert CheckItem(env, items, k).Accepted?;
  }

  lemma OtherItemUntouched(env: Env, items: seq<ChainedEvent>, tampered: seq<ChainedEvent>, k: nat, i: nat)
    requires |items| == |tampered| && k < |items| && i < |items|
    requires Linked(env, items, |items|)
    requires tampered == items[k := items[k].(event := tampered[k].event)]
    ensures HeadOf(tampered[..i]) == HeadOf(items[..i])
    ensures i != k ==> CheckItem(env, tampered, i) == Accepted
  {
    assert CheckItem(env, items, i).Accepted?;
  }

  function HashesOf(items: seq<ChainedEvent>): (hashes: seq<seq<Byte>>)
    ensures |hashes| == |items|
    ensures forall i :: 0 <= i < |items| ==> hashes[i] == items[i].eventHash
  {
    seq(|items|, i requires 0 <= i < |items| => items[i].eventHash)
  }

  /** Two verified chains with the same list of event hashes hold the same events and the same links. */
  lemma {:induction false} SameHashesSameEvents(env: Env, a: seq<ChainedEvent>, b: seq<ChainedEvent>, i: nat)
    requires Verify(env, a).Accepted? && Verify(env, b).Accepted?
    requires HashesOf(a) == HashesOf(b)
    requires i < |a|
    requires PlainEvent(a[i].event) && PlainEvent(b[i].event) && NoCollision(env, a[i].event, b[i].event)
    ensures SameEvent(a[i].event, b[i].event)
    ensures a[i].seqNo == b[i].seqNo && a[i].prevHash == b[i].prevHash
  {
    VerifyMeaning(env, a);
    VerifyMeaning(env, b);
    LinkedItem(env, a, i);
    LinkedItem(env, b, i);
    assert HashesOf(a)[i] == HashesOf(b)[i];
    assert i > 0 ==> HashesOf(a)[i - 1] == HashesOf(b)[i - 1];
    EqualHashesExactly(env, a[i].event, b[i].event);
  }

  /** The head of a verified chain is the hash of its last event. */
  lemma HeadIsLastHash(env: Env, items: seq<ChainedEvent>)
    requires Verify(env, items).Accepted? && items != []
    ensures var e := items[|items| - 1].event;
      HashEvent(env, e).Some? && HeadOf(items) == ChainHead(|items| - 1, HashEvent(env, e).value)
  {
    VerifyMeaning(env, items);
    LinkedItem(env, items, |items| - 1);
    assert CheckItem(env, items, |items| - 1).Accepted?;
  }

  /**
   * The head commits to the length and the last event, and to nothing before it: two verified chains have the same
   * head exactly when they agree in both, whatever came earlier.
   */
  lemma {:induction false} HeadCommitsExactly(env: Env, a: seq<ChainedEvent>, b: seq<ChainedEvent>)
    requires Verify(env, a).Accepted? && Verify(env, b).Accepted? && a != [] && b != []
    requires var e, f := a[|a| - 1].event, b[|b| - 1].event;
      PlainEvent(e) && PlainEvent(f) && NoCollision(env, e, f)
    ensures HeadOf(a) == HeadOf(b) <==> |a| == |b| && SameEvent(a[|a| - 1].event, b[|b| - 1].event)
  {
    HeadIsLastHash(env, a);
    HeadIsLastHash(env, b);
    EqualHashesExactly(env, a[|a| - 1].event, b[|b| - 1].event);
  }

  /** So whatever the last event holds, chains that differ only before it share the head. */
  lemma {:induction false} HeadIgnoresEarlierEvents(env: Env, a: seq<ChainedEvent>, b: seq<ChainedEvent>)
    requires Verify(env, a).Accepted? && Verify(env, b).Accepted?
    requires |a| == |b| > 0 && a[|a| - 1].event == b[|b| - 1].event
    ensures HeadOf(a) == HeadOf(b)
  {
    HeadIsLastHash(env, a);
    HeadIsLastHash(env, b);
  }
}
