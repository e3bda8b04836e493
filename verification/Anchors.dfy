/** Checking time-stamp anchors against a chain. */
module Anchors {
  import opened Octets
  import opened Utf16
  import opened World
  import opened HashChain

  const ANCHOR_SCHEMA_VERSION := 1

  datatype AnchorRecord = AnchorRecord(
    schemaVersion: int,
    anchoredSeq: int,
    anchoredEventHash: seq<Byte>,
    providerId: JsString,
    token: seq<Byte>,
    certChain: seq<seq<Byte>>,
    ocspResponses: seq<seq<Byte>>,
    issuedAtIsDate: bool)

  /**
   * Parsing and verifying an RFC 3161 token: passed, refused with an `AnchorVerificationError`, or any
   * other exception.
   */
  datatype TokenVerdict = Passed | Refused | Raised

  /** The caller's options. `verifyToken` takes the token, the expected digest and the intermediate certificates;
      the trust roots, time and depth it uses do not change within one call. */
  datatype Options = Options(
    trustRoots: Option<seq<seq<Byte>>>,
    intermediates: Option<seq<seq<Byte>>>,
    verifyToken: (seq<Byte>, seq<Byte>, seq<seq<Byte>>) -> TokenVerdict)

  datatype CertStatus = CertValid | ValidUnverified | MissingLtvArtifacts

  datatype Reason = WrongVersion | NotInChain | HashMismatch | BadIssueDate | NoLtvArtifacts | TokenRefused

  datatype AnchorResult = AnchorResult(seqNo: int, provider: JsString, certStatus: CertStatus,
          ltvPresent: bool, reason: Option<Reason>)
  {
    predicate Valid() {
      reason.None?
    }
  }

  datatype Status = Verified | Failed | NotPerformed

  datatype Outcome =
    | Exception
    | Checked(chainOk: bool, anchored: set<int>, unanchored: set<int>, results: seq<AnchorResult>,
            status: Status, ok: bool)

  function SeqsOf(events: seq<ChainedEvent>): (seqs: set<int>)
    ensures forall s :: s in seqs <==> exists i :: 0 <= i < |events| && events[i].seqNo == s
  {
    set i | 0 <= i < |events| :: events[i].seqNo
  }

  function Intermediates(options: Options, a: AnchorRecord): seq<seq<Byte>> {
    a.certChain + if options.intermediates.Some? then options.intermediates.value else []
  }

  predicate RootsConfigured(options: Options) {
    options.trustRoots.Some? && options.trustRoots.value != []
  }

  /** One anchor, in the order of the checks; nothing where the source throws. */
  function CheckAnchor(options: Options, events: seq<ChainedEvent>, a: AnchorRecord): Option<AnchorResult> {
    var certs := a.certChain != [];
    if a.schemaVersion != ANCHOR_SCHEMA_VERSION then Some(Rejected(a, false, WrongVersion))
    else if a.anchoredSeq !in SeqsOf(events) then Some(Rejected(a, certs, NotInChain))
    else if !(0 <= a.anchoredSeq < |events|) then None
    else if events[a.anchoredSeq].eventHash != a.anchoredEventHash then Some(Rejected(a, certs, HashMismatch))
    else if !a.issuedAtIsDate then Some(Rejected(a, certs, BadIssueDate))
    else if !certs || a.ocspResponses == [] then Some(Rejected(a, false, NoLtvArtifacts))
    else if RootsConfigured(options) then
      match options.verifyToken(a.token, a.anchoredEventHash, Intermediates(options, a))
      case Raised => None
      case Refused => Some(Rejected(a, true, TokenRefused))
      case Passed => Some(AnchorResult(a.anchoredSeq, a.providerId, CertValid, true, None))
    else Some(AnchorResult(a.anchoredSeq, a.providerId, ValidUnverified, true, None))
  }

  function Rejected(a: AnchorRecord, ltvPresent: bool, reason: Reason): AnchorResult {
    AnchorResult(a.anchoredSeq, a.providerId, MissingLtvArtifacts, ltvPresent, Some(reason))
  }

  function ValidSeqs(results: seq<AnchorResult>): set<int> {
    set i | 0 <= i < |results| && results[i].Valid() :: results[i].seqNo
  }

  predicate AllValid(results: seq<AnchorResult>) {
    forall i :: 0 <= i < |results| ==> results[i].Valid()
  }

  method VerifyChainWithAnchors(env: Env, events: seq<ChainedEvent>, anchors: seq<AnchorRecord>, options: Options)
    returns (r: Outcome)
    ensures r.Exception? <==>
      Verify(env, events).Threw? || exists i :: 0 <= i < |anchors| && CheckAnchor(options, events, anchors[i]).None?
    ensures r.Checked? ==>
      && r.chainOk == Verify(env, events).Accepted?
      && |r.results| == |anchors|
      && (forall i :: 0 <= i < |anchors| ==> CheckAnchor(options, events, anchors[i]) == Some(r.results[i]))
      && r.anchored == ValidSeqs(r.results)
      && r.unanchored == SeqsOf(events) - r.anchored
      && r.status == (if anchors == [] then NotPerformed else if AllValid(r.results) then Verified else Failed)
      && (r.ok <==> r.chainOk && r.status == Verified)
  {
    var chainResult := VerifyChain(env, events);
    if chainResult.Threw? {
      return Exception;
    }
    var results := [];
    var anchored: set<int> := {};
    for i := 0 to |anchors|
      invariant |results| == i
      invariant forall j :: 0 <= j < i ==> CheckAnchor(options, events, anchors[j]) == Some(results[j])
      invariant anchored == ValidSeqs(results)
    {
      var result := CheckOne(options, events, anchors[i]);
      if result.None? {
        return Exception;
      }
      results := results + [result.value];
      if result.value.Valid() {
        anchored := anchored + {anchors[i].anchoredSeq};
      }
    }
    var unanchored: set<int> := {};
    for i := 0 to |events|
      invariant unanchored == SeqsOf(events[..i]) - anchored
    {
      var before := SeqsOf(events[..i]);
      assert SeqsOf(events[..i + 1]) == before + {events[i].seqNo};
      if events[i].seqNo !in anchored {
        unanchored := unanchored + {events[i].seqNo};
      }
    }
    assert events[..|events|] == events;
    var status := if results == [] then NotPerformed else if AllValid(results) then Verified else Failed;
    r := Checked(chainResult.Accepted?, anchored, unanchored, results, status,
                 chainResult.Accepted? && status == Verified);
  }

  /** One turn of the loop over the anchors. */
  method CheckOne(options: Options, events: seq<ChainedEvent>, a: AnchorRecord) returns (r: Option<AnchorResult>)
    ensures r == CheckAnchor(options, events, a)
    ensures r.Some? ==> r.value.seqNo == a.anchoredSeq
  {
    if a.schemaVersion != ANCHOR_SCHEMA_VERSION {
      return Some(Rejected(a, false, WrongVersion));
    }
    if a.anchoredSeq !in SeqsOf(events) {
      return Some(Rejected(a, a.certChain != [], NotInChain));
    }
    if !(0 <= a.anchoredSeq < |events|) {
      return None;
    }
    var target := events[a.anchoredSeq];
    var sameHash := BytesEqual(target.eventHash, a.anchoredEventHash);
    if !sameHash {
      return Some(Rejected(a, a.certChain != [], HashMismatch));
    }
    if !a.issuedAtIsDate {
      return Some(Rejected(a, a.certChain != [], BadIssueDate));
    }
    var ltv := a.certChain != [] && a.ocspResponses != [];
    if !ltv {
      return Some(Rejected(a, false, NoLtvArtifacts));
    }
    if RootsConfigured(options) {
      var verdict := options.verifyToken(a.token, a.anchoredEventHash, Intermediates(options, a));
      if verdict.Raised? {
        return None;
      }
      if verdict.Refused? {
        return Some(Rejected(a, true, TokenRefused));
      }
      return Some(AnchorResult(a.anchoredSeq, a.providerId, CertValid, true, None));
    }
    return Some(AnchorResult(a.anchoredSeq, a.providerId, ValidUnverified, true, None));
  }

  // ----- On a chain that verifies -----

  /** The event an anchor names, on a verified chain: the one whose sequence number it carries, hashed anew. */
  predicate AnchorsEvent(env: Env, events: seq<ChainedEvent>, a: AnchorRecord) {
    exists i :: 0 <= i < |events| && events[i].seqNo == a.anchoredSeq
                && HashEvent(env, events[i].event) == Some(a.anchoredEventHash)
  }

  /** Everything long-term validation asks of the anchor itself. */
  predicate SoundRecord(options: Options, a: AnchorRecord) {
    && a.schemaVersion == ANCHOR_SCHEMA_VERSION
    && a.issuedAtIsDate
    && a.certChain != [] && a.ocspResponses != []
    && (RootsConfigured(options) ==>
          options.verifyToken(a.token, a.anchoredEventHash, Intermediates(options, a)) == Passed)
  }

  lemma VerifiedSeqs(env: Env, events: seq<ChainedEvent>)
    requires Verify(env, events).Accepted?
    ensures forall i :: 0 <= i < |events| ==> events[i].seqNo == i
    ensures forall s :: s in SeqsOf(events) <==> 0 <= s < |events|
  {
    VerifyMeaning(env, events);
    forall i | 0 <= i < |events| ensures events[i].seqNo == i {
      LinkedItem(env, events, i);
    }
    forall s ensures s in SeqsOf(events) <==> 0 <= s < |events| {
      if 0 <= s < |events| {
        assert events[s].seqNo in SeqsOf(events);
      }
    }
  }

  /**
   * On a verified chain an anchor is valid exactly when its own artifacts are sound and its hash is the recomputed
   * hash of the event whose sequence number it names; and nothing but the token verifier can throw.
   */
  lemma ValidExactly(env: Env, options: Options, events: seq<ChainedEvent>, a: AnchorRecord)
    requires Verify(env, events).Accepted?
    ensures var r := CheckAnchor(options, events, a);
      && (r.Some? && r.value.Valid() <==> AnchorsEvent(env, events, a) && SoundRecord(options, a))
      && (r.None? ==> RootsConfigured(options)
                      && options.verifyToken(a.token, a.anchoredEventHash, Intermediates(options, a)) == Raised)
  {
    VerifiedSeqs(env, events);
    VerifyMeaning(env, events);
    if 0 <= a.anchoredSeq < |events| {
      LinkedItem(env, events, a.anchoredSeq);
    }
  }

  /** The token is made for that hash, under the anchor's own certificates and then the caller's. */
  predicate TokenPasses(options: Options, a: AnchorRecord) {
    options.verifyToken(a.token, a.anchoredEventHash,
      if options.intermediates.None? then a.certChain else a.certChain + options.intermediates.value) == Passed
  }

  /**
   * What is reported of an anchor: `CertValid` exactly if it passes every check, the token's included, and there is a
   * trust root; `ValidUnverified` exactly if it passes all but the token's and there is none; and else the first
   * check that it fails.
   */
  lemma StatusExactly(options: Options, events: seq<ChainedEvent>, a: AnchorRecord)
    requires CheckAnchor(options, events, a).Some?
    ensures var r := CheckAnchor(options, events, a).value;
      var roots := options.trustRoots.Some? && |options.trustRoots.value| > 0;
      var version := a.schemaVersion == 1;
      var listed := version && exists i :: 0 <= i < |events| && events[i].seqNo == a.anchoredSeq;
      var matches := listed && events[a.anchoredSeq].eventHash == a.anchoredEventHash;
      var dated := matches && a.issuedAtIsDate;
      var complete := dated && |a.certChain| > 0 && |a.ocspResponses| > 0;
      && (r.certStatus == CertValid <==> complete && roots && TokenPasses(options, a))
      && (r.certStatus == ValidUnverified <==> complete && !roots)
      && (r.reason == Some(WrongVersion) <==> !version)
      && (r.reason == Some(NotInChain) <==> version && !listed)
      && (r.reason == Some(HashMismatch) <==> listed && !matches)
      && (r.reason == Some(BadIssueDate) <==> matches && !dated)
      && (r.reason == Some(NoLtvArtifacts) <==> dated && !complete)
      && (r.reason == Some(TokenRefused) <==> complete && roots && !TokenPasses(options, a))
      && (r.reason == None <==> r.certStatus != MissingLtvArtifacts)
      && (r.ltvPresent <==> complete || (version && !dated && |a.certChain| > 0))
      && r.seqNo == a.anchoredSeq && r.provider == a.providerId
  {
    CertificatesAre(options, a);
  }

  lemma CertificatesAre(options: Options, a: AnchorRecord)
    ensures Intermediates(options, a) ==
      if options.intermediates.None? then a.certChain else a.certChain + options.intermediates.value
  {
    assert a.certChain + [] == a.certChain;
  }

  /** On a verified chain the anchored and the unanchored sequence numbers split 0, 1, ... up to the length. */
  lemma SeqsSplit(env: Env, events: seq<ChainedEvent>, anchors: seq<AnchorRecord>, options: Options,
          results: seq<AnchorResult>)
    requires Verify(env, events).Accepted?
    requires |results| == |anchors|
    requires forall i :: 0 <= i < |anchors| ==> CheckAnchor(options, events, anchors[i]) == Some(results[i])
    ensures var anchored := ValidSeqs(results);
      var unanchored := SeqsOf(events) - anchored;
      && anchored !! unanchored
      && (forall s :: s in anchored + unanchored <==> 0 <= s < |events|)
      && forall s :: s in anchored <==>
           exists i :: 0 <= i < |anchors| && anchors[i].anchoredSeq == s
                       && AnchorsEvent(env, events, anchors[i]) && SoundRecord(options, anchors[i])
  {
    VerifiedSeqs(env, events);
    forall i | 0 <= i < |anchors|
      ensures results[i].Valid() <==> AnchorsEvent(env, events, anchors[i]) && SoundRecord(options, anchors[i])
      ensures results[i].seqNo == anchors[i].anchoredSeq
      ensures results[i].Valid() ==> anchors[i].anchoredSeq in SeqsOf(events)
    {
      ValidExactly(env, options, events, anchors[i]);
    }
  }

  /** Overall success: the chain verifies, there is an anchor, and every anchor is sound and names its event. */
  lemma OkExactly(env: Env, events: seq<ChainedEvent>, anchors: seq<AnchorRecord>, options: Options,
          results: seq<AnchorResult>)
    requires |results| == |anchors|
    requires forall i :: 0 <= i < |anchors| ==> CheckAnchor(options, events, anchors[i]) == Some(results[i])
    ensures Verify(env, events).Accepted? && anchors != [] && AllValid(results)
       <==> Verify(env, events).Accepted? && anchors != []
            && forall i :: 0 <= i < |anchors| ==>
              AnchorsEvent(env, events, anchors[i]) && SoundRecord(options, anchors[i])
  {
    if Verify(env, events).Accepted? {
      forall i | 0 <= i < |anchors|
        ensures results[i].Valid() <==> AnchorsEvent(env, events, anchors[i]) && SoundRecord(options, anchors[i])
      {
        ValidExactly(env, options, events, anchors[i]);
      }
    }
  }

  // ----- On any list of events -----

  /** Every sequence number that occurs is a position of the list. */
  predicate NumbersArePositions(events: seq<ChainedEvent>) {
    forall i :: 0 <= i < |events| ==> 0 <= events[i].seqNo < |events|
  }

  /** The event at the position of a sequence number has the hash of the event that carries the number. */
  predicate PositionsHoldNumbers(events: seq<ChainedEvent>) {
    forall i :: 0 <= i < |events| ==>
      0 <= events[i].seqNo < |events| && events[events[i].seqNo].eventHash == events[i].eventHash
  }

  predicate NamesEvent(events: seq<ChainedEvent>, a: AnchorRecord) {
    exists i :: 0 <= i < |events| && events[i].seqNo == a.anchoredSeq && events[i].eventHash == a.anchoredEventHash
  }

  /** An anchor with sound artifacts for an event. */
  function AnchorOf(item: ChainedEvent): AnchorRecord {
    AnchorRecord(ANCHOR_SCHEMA_VERSION, item.seqNo, item.eventHash, [], [], [[]], [[]], true)
  }

  /**
   * The lookup goes by position. Without trust roots, so that no token verifier can throw, no anchor makes the check
   * throw exactly when every sequence number is a position.
   */
  lemma LookupSafeExactly(options: Options, events: seq<ChainedEvent>)
    requires !RootsConfigured(options)
    ensures (forall a: AnchorRecord :: CheckAnchor(options, events, a).Some?) <==> NumbersArePositions(events)
  {
    if forall a: AnchorRecord :: CheckAnchor(options, events, a).Some? {
      forall i | 0 <= i < |events| ensures 0 <= events[i].seqNo < |events| {
        assert events[i].seqNo in SeqsOf(events);
        assert CheckAnchor(options, events, AnchorOf(events[i])).Some?;
      }
    }
  }

  /**
   * And the check judges every sound anchor by the event that carries its number, exactly when the event at each
   * such position has the same hash. A verified chain satisfies both.
   */
  lemma LookupRightExactly(options: Options, events: seq<ChainedEvent>)
    requires !RootsConfigured(options)
    ensures (forall a: AnchorRecord :: SoundRecord(options, a) ==>
        JudgedValid(options, events, a) == NamesEvent(events, a))
       <==> PositionsHoldNumbers(events)
  {
    if forall a: AnchorRecord :: SoundRecord(options, a) ==> JudgedValid(options, events, a) == NamesEvent(events, a) {
      forall i | 0 <= i < |events|
        ensures 0 <= events[i].seqNo < |events| && events[events[i].seqNo].eventHash == events[i].eventHash
      {
        var a := AnchorOf(events[i]);
        assert SoundRecord(options, a) && NamesEvent(events, a);
        assert JudgedValid(options, events, a);
      }
    }
    if PositionsHoldNumbers(events) {
      forall a: AnchorRecord | SoundRecord(options, a)
        ensures JudgedValid(options, events, a) == NamesEvent(events, a)
      {
        EachPositionHolds(events, a.anchoredSeq);
        SoundAnchorJudged(options, events, a);
      }
    }
  }

  predicate JudgedValid(options: Options, events: seq<ChainedEvent>, a: AnchorRecord) {
    var r := CheckAnchor(options, events, a);
    r.Some? && r.value.Valid()
  }

  lemma SoundAnchorJudged(options: Options, events: seq<ChainedEvent>, a: AnchorRecord)
    requires !RootsConfigured(options) && PositionHolds(events, a.anchoredSeq) && SoundRecord(options, a)
    ensures JudgedValid(options, events, a) == NamesEvent(events, a)
  {
    if a.anchoredSeq in SeqsOf(events) {
      var i :| 0 <= i < |events| && events[i].seqNo == a.anchoredSeq;
      assert events[a.anchoredSeq].eventHash == events[i].eventHash;
    }
  }

  /** The same for one number. */
  predicate PositionHolds(events: seq<ChainedEvent>, s: int) {
    forall i :: 0 <= i < |events| && events[i].seqNo == s ==>
      0 <= s < |events| && events[s].eventHash == events[i].eventHash
  }

  lemma EachPositionHolds(events: seq<ChainedEvent>, s: int)
    requires PositionsHoldNumbers(events)
    ensures PositionHolds(events, s)
  {
  }

  /** A verified chain satisfies both conditions. */
  lemma VerifiedPositions(env: Env, events: seq<ChainedEvent>)
    requires Verify(env, events).Accepted?
    ensures NumbersArePositions(events) && PositionsHoldNumbers(events)
  {
    VerifiedSeqs(env, events);
  }
}
