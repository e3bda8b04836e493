# Verified model of Attestplane's evidence core and release trains

Attestplane records audit events in a hash chain, exports them as signed bundles, and releases itself by unattended
trains. This project models the parts on which its promises rest, in Dafny, and proves those promises for every input
and every run:

- the **evidence core** of the TypeScript SDK: the canonical JSON printer, the hash chain with its verifier and
  container, anchor checking, DSSE envelopes, the auditor export, the text normaliser;
- the **DER reader**: framing, sequences, integers, object identifiers;
- the **merge lock** of the autodev workers, a database row with a time-to-live;
- the **stable release train**: version successor, push and CI protocol, whole runs with a failure after any step;
- the **push queue and release ledger** of the alpha train, whose SQLite tables are maps that methods update.

Code that changes state is a class whose methods update fields, proved against a function or relation on values; what
is promised is then proved of those values. Whatever comes from outside is a parameter (`Env.sha`, the NFC test, the
token verifier, clocks) or an arbitrary answer (`World.Answer`), so a proof holds for every behaviour of git, GitHub,
the network, the clock and other processes that the stated assumptions allow.

`dafny verify dfyconfig.toml` checks everything.

## Files

| file | contents |
|---|---|
| `Octets`, `Utf16`, `Utf8`, `Decimal`, `Base64`, `Totals`, `World` | bytes, strings, encodings with their decoders, sums over maps, outside answers |
| `Json`, `KeySort`, `Canonical`, `CanonicalProofs`, `Spelling`, `CodePointOrder` | JSON text with a decoder, the order of keys, the canonical printer, its inverse, collisions, and order by code point |
| `Rfc8259`, `Standards` | RFC 8259 as a reader in its own characters; escapes, timestamps, alphabets, bounds and vectors by literals |
| `AuditEvents`, `HashChain`, `Substrate`, `Anchors` | events, chain, container, anchors |
| `SortedJson`, `JsonKeyOrder`, `Stringify`, `Dsse` | the second JSON printer and the envelopes |
| `Timestamps`, `AuditorExport`, `CanonicalText` | event times, export summary, text normaliser |
| `Der`, `DerLoop`, `DerValues` | the DER reader |
| `MergeLock` | the lock and its runs |
| `StableVersions`, `TrainTrace`, `StableTrain` | the stable train |
| `PushQueue`, `PushLedger`, `PushHistory`, `PushOutcome`, `PushStore`, `ReleaseLedger` | the alpha train's tables |

## Where the code falls short of what is promised

For each, an equivalence says exactly when the promise is kept, or a lemma names the input where it is not.

- Canonical bytes determine a plain value up to key order (`CanonicalBytesDetermineValue`), but a byte array prints as
  the string of its base64url text, an int64 literal as the number it spells, and -0 as 0. Two accepted values have
  equal bytes exactly when they are equal once these are spelled out at every depth (`CanonicalBytesExactly`).
- Canonical bytes are not always JSON: `int64LiteralForConformance` lets a literal such as 007 through, which is printed
  as it is. They are JSON exactly when no literal inside has a leading zero (`CanonicalIsJsonExactly`).
- The header comment of `canonical.ts` says keys go by code point; the code sorts UTF-16 units, as section 3.2.3 of
  RFC 8785 asks. U+10000 is printed before U+FF5E (`AstralPrintedFirst`). The keys come out by code point exactly when
  no two of one object differ first in a surrogate against a unit of 0xE000 or more (`PrintedByCodePointExactly`).
- `verifyChain` throws, and does not report an index, when an event cannot be canonicalised (`TamperLocalised`). The
  head commits to the length and the last event, and to nothing else (`HeadCommitsExactly`,
  `HeadIgnoresEarlierEvents`). Verified chains may hold events that
  `chainExtend` never makes, of another schema version or with a time that is no Date (`AcceptedExactlyBuilt`).
- The anchor check looks events up by position. It is safe exactly when every sequence number is a position
  (`LookupSafeExactly`) and right exactly when the event at that position has the same hash (`LookupRightExactly`).
- An envelope loses every entry whose key is `__proto__`, and what JSON cannot say (`EnvelopeRoundTrip`). Its keys are
  in the order of RFC 8785 exactly when no two of one object are listed one way, array indices first and by number, and
  sort the other way by UTF-16 unit (`PrintedAsRfc8785Exactly`); 9 and 10 are such keys (`NineBeforeTen`).
- The two timestamp printers agree exactly for the years 0 to 9999 and from -100000 down. Texts of two moments compare
  as the moments do exactly for comparable years (`TextOrderExactly`): years past 9999 sort before all others and
  negative years sort in reverse. So the reported range is chronological exactly when all years are comparable
  (`RangeIsChronological`); `FailingYears` has an input of each other kind.
- The event-type histogram sums to the event count exactly when no type is named like a member of `Object.prototype`.
- A DER length is negative exactly for four length octets whose first has its top bit set; `tlvDer` is right exactly
  when the length octets are minimal; an object identifier is read back exactly when its first number is below 120.
- `readSequence` runs for ever on some inputs (`EndlessSequence`), which two turns more than the end of the sequence
  decide (`NeverEndsExactly`).
- The merge lock excludes exactly when attempts of one owner do not overlap and clocks err by at most 299 s in all.
- `wait_for_push_ci` keeps the last listed run of each workflow, which in a listing from new to old is the oldest: a
  listing whose newest run failed can pass (`FailedRunPasses`), and the verdict is that of the first-listed runs,
  whatever the outcomes, exactly when no workflow is listed twice for the commit (`VerdictsAgreeExactly`).
- A tag push counts as converged when the remote has any tag of that name. release-cd is dispatched for tested commits
  only, over all traces, exactly when the tag is already there on a tested commit, or is not there and nobody else may
  make it (`DispatchTestedExactly`, with a trace for each failure).
- A dry run pushes and starts release-cd exactly when it publishes and the selected version is tagged locally at HEAD
  and known to be incomplete. It recovers a release, which may start publish-python.yml and write the GitHub release,
  exactly when it publishes, the tag was found, and the version is known to be complete or not tagged at HEAD
  (`Train.RunOnce`, `GatedEntersNothing`).
- A push task that was committed as done can be made to cool down again: when `mark_stage` or the snapshot raises after
  the first transaction, the exception handler of the main loop writes over it (`DoneLost`). Done is final over a run
  exactly when that does not happen (`DoneFinalExactly`).
- Half of a done update that nothing writes over, because the process ends there or the handler cannot write, leaves a
  main push done whose open stage no later operation closes (`HalfUpdateExactly`, `CrashLeavesStuck`, `RunCounted`).
  `ensure_main_pushed` marks its stage even in a dry run.
- Preparing a retired release counts a preparation that does not happen (`PreparedCountedExactly`); retired releases
  come back, and only through failed (`RetiredRevivedThroughFailed`, `RevivedOnlyThroughFailed`).

## Model

| member | source | states |
|---|---|---|
| `Utf16.UnitsOfCodePoints` | sdk/typescript/src/canonical.ts:151-165 | reading a string by code point loses nothing, lone surrogates included |
| `Utf16.LessTrichotomy` | sdk/typescript/src/canonical.ts:171 | the order of `sort` on UTF-16 code units is total and irreflexive |
| `Utf16.LessTransitive` | sdk/typescript/src/canonical.ts:171 | and transitive |
| `CodePointOrder.OrdersAgreeExactly` | sdk/typescript/src/canonical.ts:16-171 | for any two different well-formed strings the sorted order is the announced code-point order exactly unless, at the first unit in which they differ, one has a surrogate and the other a unit of 0xE000 or more |
| `CodePointOrder.SortAscendsExactly` | sdk/typescript/src/canonical.ts:169-183 | sorted keys ascend by code point exactly when no two of them disagree so |
| `CodePointOrder.PrintedByCodePointExactly` | sdk/typescript/src/canonical.ts:68-197 | an accepted value is printed with its keys in code-point order at every depth exactly when no two keys of one object inside disagree |
| `CodePointOrder.AstralPrintedFirst` | sdk/typescript/src/canonical.ts:169-183 | an accepted object with the keys U+FF5E and U+10000 is printed with U+10000 first |
| `Utf8.DecodeEncode` | sdk/typescript/src/canonical.ts:49 | the UTF-8 bytes of text without lone surrogates decode to that text |
| `Base64.DecodeUrl` | sdk/typescript/src/canonical.ts:199-202 | unpadded base64url of any bytes decodes back and stays in the URL alphabet (section 5 of RFC 4648) |
| `Base64.DecodeEncode` | sdk/typescript/src/intoto.ts:113 | base 64 of any bytes decodes back and passes the envelope's alphabet and length test (section 4 of RFC 4648) |
| `Json.DecodeEscaped` | sdk/typescript/src/canonical.ts:150-166 | every escaped string is read back up to its closing quote, whatever follows |
| `Json.DecodePrint` | sdk/typescript/src/canonical.ts:68-197 | every printed tree is read back whole in front of any text; a number must not be followed by what it may go on with |
| `KeySort.SortStrict` | sdk/typescript/src/canonical.ts:171 | sorting keeps the key-to-value mapping and leaves distinct keys strictly ascending |
| `KeySort.SortedUnique` | sdk/typescript/src/canonical.ts:171 | a mapping has one strictly ascending list of entries |
| `KeySort.SortOfSameMap` | sdk/typescript/src/canonical.ts:171-183 | entry lists with one mapping sort to the same list, whatever order they came in |
| `Canonical.Emitter.Emit` | sdk/typescript/src/canonical.ts:68-134 | fails exactly on what is not accepted, and otherwise appends exactly the text of the value |
| `Canonical.Emitter.EmitString` | sdk/typescript/src/canonical.ts:144-167 | the same for strings: NFC and no lone surrogate, quoted and escaped |
| `Canonical.Emitter.EmitArray` | sdk/typescript/src/canonical.ts:187-197 | the same for arrays, holes refused |
| `Canonical.Emitter.EmitObject` | sdk/typescript/src/canonical.ts:169-185 | the same for objects over sorted keys |
| `Canonical.Emitter.EmitEntries` | sdk/typescript/src/canonical.ts:172-183 | the loop over the keys: duplicates refused, each entry with its separator |
| `Canonical.Canonicalize` | sdk/typescript/src/canonical.ts:46-50 | gives the canonical bytes, or nothing exactly where the value is not accepted |
| `CanonicalProofs.TreeMeansValue` | sdk/typescript/src/canonical.ts:68-197 | what is printed for a JSON value, accepted plain values among them, means that value |
| `CanonicalProofs.TextSelfDelimiting` | sdk/typescript/src/canonical.ts:68-197 | an accepted plain value's text is read back in front of any following text; a number must not be followed by what it may go on with |
| `CanonicalProofs.CanonicalRoundTrip` | sdk/typescript/src/canonical.ts:46-197 | canonical bytes read back as the value they were made from |
| `CanonicalProofs.SameValueSameTree` | sdk/typescript/src/canonical.ts:169-185 | JSON values, accepted plain ones among them, that are equal up to key order at every depth print the same |
| `CanonicalProofs.CanonicalBytesDetermineValue` | sdk/typescript/src/canonical.ts:46-197 | two accepted plain values have equal bytes exactly when they are equal up to key order |
| `CanonicalProofs.KeyOrderIrrelevant` | sdk/typescript/src/canonical.ts:169-185 | any reordering of the keys of the outermost object, repeated ones included, is accepted alike and prints the same bytes |
| `CanonicalProofs.KeyOrderIrrelevantAtDepth` | sdk/typescript/src/canonical.ts:169-185 | any two values that differ only in key order, at any depth and whatever else they hold, are accepted alike and print the same bytes |
| `CanonicalProofs.BytesPrintAsString` | sdk/typescript/src/canonical.ts:112-115 | a byte array collides with the string of its base64url text |
| `CanonicalProofs.LiteralPrintsAsNumber` | sdk/typescript/src/canonical.ts:121-124 | an int64 literal collides with the number it spells, and -0 with 0 |
| `Spelling.CanonicalBytesExactly` | sdk/typescript/src/canonical.ts:57-134 | any two accepted values, byte arrays and literals at any depth included, have equal bytes exactly when they are equal up to key order once byte arrays are their base64url strings and literals the numbers they spell |
| `Spelling.SpelledPrintsAlike` | sdk/typescript/src/canonical.ts:112-124 | an accepted value prints what that form of it does, which is a JSON value |
| `Spelling.SpelledIsSameExactly` | sdk/typescript/src/canonical.ts:112-124 | that form is the value itself exactly when no byte array and no literal is inside |
| `Spelling.AcceptedExactly` | sdk/typescript/src/canonical.ts:57-134 | a value is accepted exactly if its spelled-out form is JSON, it holds no number that is not an integer, and every string and key inside is well-formed and in normal form C |
| `Rfc8259.PrintedIsJsonExactly` | sdk/typescript/src/canonical.ts:68-197 | a reader of RFC 8259, written in the RFC's own characters apart from printer and decoder, reads the text of a tree as what the tree means exactly if its numbers follow the RFC's grammar, and else refuses it |
| `Rfc8259.CanonicalIsJsonExactly` | sdk/typescript/src/canonical.ts:46-197 | the canonical bytes of any accepted value are JSON exactly if no int64 literal inside has a leading zero, and that reader then finds the value in them |
| `Standards.EscapedAsRfc8785` | sdk/typescript/src/canonical.ts:29-167 | strings use exactly the escapes of section 3.2.2.2 of RFC 8785: two characters where there are such, four lower-case hexadecimal digits for other controls, everything else as itself |
| `Standards.ArrayText` | sdk/typescript/src/canonical.ts:187-197 | [1,2] and [true,false] are printed as these characters |
| `Standards.ObjectText` | sdk/typescript/src/canonical.ts:169-185 | an object of two null members is printed as its characters, with nothing between the tokens |
| `Standards.IntegersAccepted` | sdk/typescript/src/canonical.ts:96-106 | integers are accepted from -9007199254740991 to 9007199254740991 |
| `Standards.VectorsOfRfc3629` | sdk/typescript/src/canonical.ts:49 | UTF-8 keeps ASCII and gives the octets of the examples in section 7 of RFC 3629 |
| `Standards.VectorOfRfc2781` | sdk/typescript/src/canonical.ts:151-165 | a surrogate pair stands for the code point of the example in section 2 of RFC 2781 |
| `Standards.AlphabetsOfRfc4648` | sdk/typescript/src/canonical.ts:199-202 | the letters of both base 64 alphabets, by their characters |
| `Standards.VectorsOfRfc4648` | sdk/typescript/src/intoto.ts:113 | three of the vectors in section 10 of RFC 4648 |
| `AuditEvents.EventFieldsByName` | sdk/typescript/src/hashchain.ts:119-126 | what the hashed object says under each name: texts as themselves or null, a reference as the object of its scheme and its value or null, a Date as its text |
| `AuditEvents.EventAcceptedExactly` | sdk/typescript/src/hashchain.ts:34-36 | an event has canonical bytes exactly when each of its fields can be canonicalised |
| `AuditEvents.EventBytesDetermineEvent` | sdk/typescript/src/hashchain.ts:34-36 | two events have equal canonical bytes exactly when they agree in every field, payloads up to key order |
| `AuditEvents.SameEventSameMoment` | sdk/typescript/src/hashchain.ts:128-141 | two events with the same time text have the same Date, of any year |
| `Standards.HashedBytesAreJson` | sdk/typescript/src/hashchain.ts:30-36 | the hash of an event is SHA-256, once, of bytes in which any reader of JSON finds exactly that event |
| `HashChain.ExtendedItem` | sdk/typescript/src/hashchain.ts:43-72 | a new item is numbered after the head and linked to it, and what is hashed says of each field what the draft says, under that field's name |
| `Timestamps.ChainTextDeterminesMoment` | sdk/typescript/src/hashchain.ts:128-141 | two moments that the chain prints alike are the same millisecond, whatever the year |
| `HashChain.BytesEqual` | sdk/typescript/src/hashchain.ts:111-117 | true exactly for equal byte strings |
| `HashChain.VerifyChain` | sdk/typescript/src/hashchain.ts:74-103 | the loop finds the first item that fails a check, in the order of the checks, or accepts |
| `HashChain.VerifyMeaning` | sdk/typescript/src/hashchain.ts:74-103 | accepted exactly when every item passes; else all before the reported index pass and it fails as reported |
| `HashChain.ReasonExactly` | sdk/typescript/src/hashchain.ts:74-103 | each reason, and the exception, exactly from the item and the one before it, the first being linked to 32 zero octets |
| `HashChain.BadIndexIsLongestPrefix` | sdk/typescript/src/hashchain.ts:74-103 | a prefix is accepted on its own exactly up to the reported index |
| `HashChain.AcceptedExactlyBuilt` | sdk/typescript/src/hashchain.ts:43-103 | accepted, with events `chainExtend` can make, exactly when folding `chainExtend` from genesis over its own events builds it |
| `HashChain.EqualHashesExactly` | sdk/typescript/src/hashchain.ts:30-36 | without a collision on their bytes, two events hash alike exactly when they are the same event |
| `HashChain.TamperLocalised` | sdk/typescript/src/hashchain.ts:74-103 | replacing one event of a verified chain is reported at exactly that index unless it is the same event; an unhashable one throws there |
| `HashChain.SameHashesSameEvents` | sdk/typescript/src/hashchain.ts:74-103 | two verified chains with one list of event hashes hold the same events and links |
| `HashChain.HeadIgnoresEarlierEvents` | sdk/typescript/src/hashchain.ts:105-109 | verified chains of one length and last event share the head, whatever came before |
| `HashChain.HeadCommitsExactly` | sdk/typescript/src/hashchain.ts:105-109 | without a collision on the last events, verified chains have the same head exactly when they have the same length and the same last event |
| `Substrate.AttestSubstrate.constructor` | sdk/typescript/src/substrate.ts:26-27 | starts empty with the genesis head |
| `Substrate.AttestSubstrate.Append` | sdk/typescript/src/substrate.ts:29-35 | adds the extension of the tip, or on an exception changes nothing; fails exactly on an invalid Date or an unacceptable event; keeps the chain verified and the tip its head |
| `Substrate.AttestSubstrate.Tip` | sdk/typescript/src/substrate.ts:37-39 | the head of the stored events, numbered one below their count |
| `Substrate.AttestSubstrate.VerifyAll` | sdk/typescript/src/substrate.ts:41-43 | a substrate always verifies |
| `Substrate.AttestSubstrate.Snapshot` | sdk/typescript/src/substrate.ts:49-51 | the stored events, a verified chain |
| `Substrate.AttestSubstrate.FromEvents` | sdk/typescript/src/substrate.ts:57-66 | succeeds exactly on a list that verifies, and then holds that list and its head |
| `Substrate.ExtendKeepsChain` | sdk/typescript/src/substrate.ts:29-35 | extending a verified chain from its head gives a verified chain |
| `Substrate.RunKeepsChain` | sdk/typescript/src/substrate.ts:25-66 | over any run of appends, failing ones included, the events stay verified and only extend every earlier state |
| `Substrate.RunIsBuilt` | sdk/typescript/src/substrate.ts:25-35 | a run from the empty substrate holds exactly the chain built from its own events |
| `Anchors.VerifyChainWithAnchors` | sdk/typescript/src/anchoring.ts:328-470 | one result per anchor in order, the anchored and unanchored sets, status and overall verdict; throws exactly when hashing or a check throws |
| `Anchors.CheckOne` | sdk/typescript/src/anchoring.ts:338-451 | one anchor through all checks in order |
| `Anchors.ValidExactly` | sdk/typescript/src/anchoring.ts:341-450 | on a verified chain an anchor is valid exactly when its artifacts are sound and its hash is the recomputed hash of the event it names |
| `Anchors.StatusExactly` | sdk/typescript/src/anchoring.ts:341-450 | the status reported exactly: verified by the token under a trust root, unverified without one, and else the first check that fails |
| `Anchors.SeqsSplit` | sdk/typescript/src/anchoring.ts:453-456 | on a verified chain the two sets are disjoint, cover all sequence numbers, and anchored means a sound anchor names it |
| `Anchors.OkExactly` | sdk/typescript/src/anchoring.ts:458-469 | overall success exactly when the chain verifies, there is an anchor, and all are sound and name their event |
| `Anchors.LookupSafeExactly` | sdk/typescript/src/anchoring.ts:365-366 | where no token verifier runs, no anchor makes the lookup throw exactly when every sequence number is a position in the list |
| `Anchors.LookupRightExactly` | sdk/typescript/src/anchoring.ts:365-381 | the check judges every sound anchor by the event that carries its number exactly when the event at each such position has that event's hash |
| `Anchors.VerifiedPositions` | sdk/typescript/src/anchoring.ts:328-366 | a verified chain satisfies both conditions |
| `SortedJson.SortJsonValue` | sdk/typescript/src/intoto.ts:95-105 | fills the output key by key to the sorted value |
| `SortedJson.SortJsonMeans` | sdk/typescript/src/intoto.ts:95-105 | sorting a JSON value leaves it without its `__proto__` entries, at every depth |
| `SortedJson.DropProtoExactly` | sdk/typescript/src/intoto.ts:98-101 | nothing of a JSON value is lost exactly when no object inside has such a key |
| `Stringify.CleanOfSorted` | sdk/typescript/src/intoto.ts:88-105 | what `JSON.stringify` leaves out may as well be left out before the keys are sorted |
| `Stringify.CanonicalJsonBytes` | sdk/typescript/src/intoto.ts:87-93 | computes the bytes of the sorted value, or nothing where it throws |
| `Stringify.JsonBytesReadBack` | sdk/typescript/src/intoto.ts:87-105 | a value has bytes exactly when it has a text and prints no bigint; they read back as the value without `__proto__` entries, undefined properties left out, null for what else JSON cannot say |
| `Stringify.KeptScalars` | sdk/typescript/src/intoto.ts:87-105 | what is kept of each kind of value that is no array or object |
| `Stringify.KeptItems` | sdk/typescript/src/intoto.ts:87-105 | of an array every item is kept, what has no text as null |
| `Stringify.KeptProperties` | sdk/typescript/src/intoto.ts:87-105 | of an object exactly the properties that have a text and are not named `__proto__`, each with what is kept of its value |
| `Stringify.JsonBytesDetermineValue` | sdk/typescript/src/intoto.ts:87-105 | two values have equal bytes exactly when that is equal for both |
| `Stringify.AllKeptExactly` | sdk/typescript/src/intoto.ts:87-105 | all of a value is kept, up to key order, exactly when it is JSON without `__proto__` entries |
| `JsonKeyOrder.SortedKeysInOwnOrder` | sdk/typescript/src/intoto.ts:98-102 | the keys come out as array indices by number, then the others in UTF-16 order |
| `JsonKeyOrder.AscendsExactly` | sdk/typescript/src/intoto.ts:98-102 | one object's keys come out in the order of RFC 8785 exactly when no two kept keys have the own order one way and the UTF-16 order the other |
| `JsonKeyOrder.NineBeforeTen` | sdk/typescript/src/intoto.ts:99-101 | sorting an object with the keys 10 and 9 lists 9 first though 10 is the lesser string |
| `Stringify.PrintedAsRfc8785Exactly` | sdk/typescript/src/intoto.ts:87-105 | the text is in the order of RFC 8785 (section 3.2.3) at every depth exactly when no two printed keys of an object disagree so |
| `Dsse.ReadBackParses` | sdk/typescript/src/intoto.ts:139-144 | the assumption made of UTF-8 decoding and `JSON.parse` is met by a reader |
| `Dsse.EnvelopeRoundTrip` | sdk/typescript/src/intoto.ts:107-149 | a statement has an envelope exactly when it prints no bigint; the envelope passes every guard and opens to what of the statement is kept, to the statement itself exactly when it is JSON without `__proto__` entries |
| `Standards.OpenedExactly` | sdk/typescript/src/intoto.ts:118-149 | an envelope opens exactly if its payload type is that text and its payload is padded base 64 of an object; else the first test it fails is reported |
| `Standards.PaddedTextExactly` | sdk/typescript/src/intoto.ts:130 | the test of the payload is letters of the alphabet, at most two pads, and a length divisible by four |
| `Standards.EnvelopeHolds` | sdk/typescript/src/intoto.ts:107-116 | an envelope holds the payload type, the statement's bytes in base 64, and the signatures it was given |
| `Standards.PayloadIsJsonExactly` | sdk/typescript/src/intoto.ts:87-116 | the payload is JSON, and any reader finds in it what is kept of the statement, exactly if the kept numbers follow the grammar of RFC 8259 |
| `Standards.PayloadTypeText` | sdk/typescript/src/intoto.ts:14 | the payload type in its characters |
| `Standards.ArrayIndexExactly` | sdk/typescript/src/intoto.ts:98-102 | the keys that own-property order puts first are exactly the decimal texts of the numbers below 2^32 - 1 |
| `Timestamps.PrintersAgreeExactly` | sdk/typescript/src/proof_bundle.ts:253-259 | both printers give one text exactly for the years 0 to 9999 and from -100000 down |
| `Timestamps.MomentOrder` | sdk/typescript/src/hashchain.ts:133-139 | comparing a Date's fields in turn compares its milliseconds since the epoch |
| `Timestamps.TextOrderIsTimeOrder` | sdk/typescript/src/hashchain.ts:128-141 | for the years 0 to 9999 both printers agree and string order is time order (section 5.1 of RFC 3339) |
| `Timestamps.TextOrderExactly` | sdk/typescript/src/proof_bundle.ts:253-259 | for any two Dates string order is time order exactly when their years are both of four digits, both later, the same negative one, or a negative and a four-digit one; else it is reversed |
| `Standards.StampAsRfc3339` | sdk/typescript/src/hashchain.ts:128-141 | in the years 0 to 9999 the text is YYYY-MM-DDThh:mm:ss.ffffffZ of RFC 3339, position by position, with the Date's own fields |
| `Standards.ExpandedYear` | sdk/typescript/src/proof_bundle.ts:253-259 | other years are a sign and six digits in the bundle |
| `Standards.EpochVectors` | sdk/typescript/src/hashchain.ts:128-139 | the milliseconds since the epoch at the epoch and around a leap day |
| `Standards.EndsOfTime` | sdk/typescript/src/hashchain.ts:128-139 | and at both ends of the range of Dates |
| `AuditorExport.TimeRangeOf` | sdk/typescript/src/proof_bundle.ts:457-472 | the least and greatest timestamp text, or the verification time when there is no event |
| `AuditorExport.RangeIsChronological` | sdk/typescript/src/proof_bundle.ts:460-468 | earliest and latest belong to a chronologically first and last event exactly when all years are comparable in that sense, as those from 0 to 9999 are |
| `AuditorExport.EarliestExactly` | sdk/typescript/src/proof_bundle.ts:460-468 | the earliest text alone is right exactly then |
| `AuditorExport.LatestExactly` | sdk/typescript/src/proof_bundle.ts:460-468 | the latest text alone is right exactly when no year past 9999 meets another and the negative years are all one or give way to a four-digit one |
| `AuditorExport.FailingYears` | sdk/typescript/src/proof_bundle.ts:457-468 | for each kind of incomparable years, two events whose later one is reported as the earliest |
| `AuditorExport.HistogramOf` | sdk/typescript/src/proof_bundle.ts:451-455 | counts every event type; the numbers sum to the event count exactly when no type names a member of `Object.prototype` |
| `CanonicalText.RejectForbiddenCodePoints` | sdk/typescript/src/canonical_text.ts:29-51 | passes exactly text without U+0000 and without unpaired surrogates |
| `CanonicalText.StripZeroWidth` | sdk/typescript/src/canonical_text.ts:53-63 | drops exactly the zero-width characters |
| `CanonicalText.FoldIdempotent` | sdk/typescript/src/canonical_text.ts:65-71 | folding keeps the words and folding twice is folding once |
| `CanonicalText.StripAndFoldIdempotent` | sdk/typescript/src/canonical_text.ts:95-99 | the last two stages together are idempotent |
| `Standards.WhiteSpaceExactly` | sdk/typescript/src/canonical_text.ts:20-71 | the white space and the zero-width characters by their numbers |
| `Der.ReadTlv` | sdk/typescript/src/der.ts:43-78 | reads what stands at an offset, with every error case |
| `Der.RefusedExactly` | sdk/typescript/src/der.ts:43-78 | each refusal exactly from the octets that stand at the offset |
| `Der.FramingRoundTrip` | sdk/typescript/src/der.ts:43-78 | a minimal encoding of a value below 2^31 octets, anywhere in any buffer, is read as its tag, length and span, and `tlvDer` gives it back (sections 8.1.3 and 10.1 of X.690) |
| `Der.NegativeLengthExactly` | sdk/typescript/src/der.ts:68-71 | the 32-bit shifts make a length negative exactly for four octets with the top bit set |
| `Der.TlvDerExactly` | sdk/typescript/src/der.ts:189-217 | `tlvDer` and `_tagOffsetOf` are right exactly when the length octets are minimal |
| `Der.ReadSequence` | sdk/typescript/src/der.ts:81-90 | the loop reads item after item with a strictly increasing cursor |
| `Der.SequenceRoundTrip` | sdk/typescript/src/der.ts:81-90 | a concatenation of encodings is read as its items in order, tiling it exactly to its end |
| `Der.ItemsFollowOneAnother` | sdk/typescript/src/der.ts:84-88 | on any input each item starts where the one before it ends, and only the last may reach past the parent |
| `DerLoop.ReaderFollowsLoop` | sdk/typescript/src/der.ts:81-90 | where the reader returns items or fails so does the loop of the source, turn by turn, and else the loop comes to a TLV that does not lead forward |
| `DerLoop.NeverEndsExactly` | sdk/typescript/src/der.ts:81-90 | the loop runs for ever exactly if it has not ended after two turns more than the end of the sequence |
| `DerLoop.StaysExactly` | sdk/typescript/src/der.ts:44-77 | a TLV leads the cursor back to itself exactly when its length octets are 84 FF FF FF FA |
| `DerLoop.EndlessSequence` | sdk/typescript/src/der.ts:81-90 | a sequence of eight octets, accepted as a TLV, on which the loop runs for ever |
| `DerValues.ReadInteger` | sdk/typescript/src/der.ts:98-111 | reads two's complement of any size, or refuses the tag |
| `DerValues.IntegerRoundTrip` | sdk/typescript/src/der.ts:98-111 | inverts two's complement on any number of octets that holds the integer (section 8.3 of X.690) |
| `DerValues.IntegerInRange` | sdk/typescript/src/der.ts:98-111 | stays in the range of its length, and every value is the encoding of what it is read as |
| `DerValues.ReadArc` | sdk/typescript/src/der.ts:128-134 | the inner loop reads one base-128 number and stops after it |
| `DerValues.ReadOid` | sdk/typescript/src/der.ts:114-138 | reads the dotted arcs of the whole value, or refuses the tag |
| `DerValues.OidRoundTripExactly` | sdk/typescript/src/der.ts:114-138 | an encoded identifier of any arcs is read back exactly when its first number, 40 times the root plus the second arc, is below 120 (section 8.19 of X.690) |
| `Standards.VectorsOfX690` | sdk/typescript/src/der.ts:98-138 | an identifier and two integers by their octets |
| `Decimal.DottedDeterminesNumbers` | sdk/typescript/src/der.ts:137 | the dotted text determines the arcs |
| `MergeLock.LockTable.Acquire` | scripts/autodev/temporal/db.py:219-285 | with the database free and no fault, fails exactly when the row is someone else's, younger than 3000 s, and its holder on another host or alive; writes the row with whole seconds, else leaves it |
| `MergeLock.LockTable.Verify` | scripts/autodev/temporal/db.py:288-300 | true exactly for the owner of the row |
| `MergeLock.LockTable.Release` | scripts/autodev/temporal/db.py:303-311 | removes the owner's row; a release by anyone else changes nothing |
| `MergeLock.StepKeepsInv` | scripts/autodev/temporal/db.py:219-311 | every acquire, leave, release, crash, start and tick keeps each attempt inside guarded by its own row |
| `MergeLock.EntersExactly` | scripts/autodev/temporal/db.py:236-285 | in any state an attempt gets in exactly if the row is free, its own, 3000 s old, or that of a dead process of its host |
| `MergeLock.DeadHolderReplaced` | scripts/autodev/temporal/db.py:246-275 | once the holder's process has died, and whatever else happens while it is not started again, any attempt from its host gets in at once, and one of another owner from another host exactly when the row is 3000 s old |
| `MergeLock.SafeRun` | scripts/autodev/temporal/db.py:219-311 | over every run two owners are never in the critical section together |
| `MergeLock.VerifyNeverMisleads` | scripts/autodev/temporal/db.py:288-300 | an owner inside is told so, and everybody else not |
| `MergeLock.OverlapBreaks` | scripts/autodev/temporal/db.py:242-244 | a retry beside a running attempt of its owner breaks exclusion |
| `MergeLock.SkewBreaks` | scripts/autodev/temporal/db.py:260-268 | so does a clock error of more than 299 s |
| `MergeLock.MutualExclusionExactly` | scripts/autodev/temporal/db.py:22-23 | exclusion over all runs holds exactly without overlap and with at most 299 s of clock error, the TTL being 3000 s and a stay 2700 s |
| `StableVersions.SuccessorsAscend` | scripts/release/stable_auto_train.py:893-904 | under every label successors strictly ascend |
| `StableVersions.LabelledIsLeast` | scripts/release/stable_auto_train.py:896-899 | a major or minor label gives the least version of a later major or minor |
| `StableVersions.TagDeterminesVersion` | scripts/release/stable_auto_train.py:182-184 | two versions have one tag only if they are equal |
| `Standards.TagText` | scripts/release/stable_auto_train.py:182-184 | the tag is `v` and the three numbers, joined by dots |
| `StableVersions.NextUnabandonedStableAfter` | scripts/release/stable_auto_train.py:907-924 | ends against any finite sets of tags and returns the first free version of the successor sequence |
| `StableVersions.RankOfVersionAt` | scripts/release/stable_auto_train.py:893-904 | every natural is the rank of a version on the unlabelled train |
| `StableVersions.VersionAtRank` | scripts/release/stable_auto_train.py:893-904 | and every such version is the one at its rank |
| `StableVersions.UnlabelledSuccessors` | scripts/release/stable_auto_train.py:900-904 | the n-th unlabelled version after 0.0.0 is the one of rank n, across 0.9.10 to 1.0.0 |
| `StableVersions.RankOrder` | scripts/release/stable_auto_train.py:158-162 | ranks order versions as the dataclass does |
| `TrainTrace.StepKeeps` | scripts/release/stable_auto_train.py:395-452 | every step moves the remote on only forward, and what is on its way may still be sent |
| `TrainTrace.TraceLater` | scripts/release/stable_auto_train.py:21-24 | over every trace remote main only moves forward and no tag is moved or removed |
| `TrainTrace.TagOrigin` | scripts/release/stable_auto_train.py:1432-1436 | every remote tag was there at first, was made by somebody else, or by the train |
| `TrainTrace.TrainTagsTested` | scripts/release/stable_auto_train.py:1432-1436 | a tag of the train names a commit that was on remote main with every push workflow passed when it arrived, and ever after |
| `TrainTrace.NewTagsTested` | scripts/release/stable_auto_train.py:1432-1436 | so a new tag that nobody else made names a tested commit |
| `TrainTrace.DispatchedTagsStay` | scripts/release/stable_auto_train.py:1436-1437 | release-cd is dispatched only for a tag the remote has, then and ever after |
| `TrainTrace.DispatchedAtTestedHead` | scripts/release/stable_auto_train.py:1432-1437 | and only with HEAD on remote main and passed by every workflow, then and ever after |
| `TrainTrace.DispatchedTested` | scripts/release/stable_auto_train.py:1432-1437 | a dispatch of a tag that was not there at first and that nobody else makes is of a tested commit |
| `TrainTrace.DispatchTestedExactly` | scripts/release/stable_auto_train.py:1432-1437 | over all traces from a remote a tag is dispatched for tested commits only exactly when it is there on a tested commit, or is not there and nobody else may make it |
| `TrainTrace.UntestedTagDispatched` | scripts/release/stable_auto_train.py:395-496 | once somebody else has put a commit on main and it has passed, the train dispatches a tag that names an untested commit |
| `TrainTrace.OthersTagDispatched` | scripts/release/stable_auto_train.py:395-496 | the same for a tag that somebody else makes |
| `StableTrain.MatchedIsLastListed` | scripts/release/stable_auto_train.py:1800-1804 | of several listed runs of a workflow the last one counts |
| `StableTrain.ListingExactly` | scripts/release/stable_auto_train.py:1799-1804 | every listed run that exists is looked at, in its place |
| `StableTrain.VerdictsAgreeExactly` | scripts/release/stable_auto_train.py:1800-1827 | last-listed and first-listed runs give one verdict, whatever the outcomes, exactly when no workflow is listed twice for the commit |
| `StableTrain.FailedRunPasses` | scripts/release/stable_auto_train.py:1800-1827 | a listing whose first run of `ci` failed passes |
| `StableTrain.PassedMeansGreen` | scripts/release/stable_auto_train.py:1818-1827 | when the probe sees all passed, every workflow had a completed successful run for that commit |
| `StableTrain.VerdictExactly` | scripts/release/stable_auto_train.py:1805-1827 | a probe fails exactly on a run with one of five conclusions, and passes exactly if none has one and all ten workflows completed with success |
| `StableTrain.Train.Transmit` | scripts/release/stable_auto_train.py:436-452 | the update, and no other, is put on its way; success means it arrived, and a lost answer may leave it applied or on its way |
| `StableTrain.Train.AttemptPushOnce` | scripts/release/stable_auto_train.py:436-452 | connected, it sends main if that moves forward or a tag if its name is new, and nothing else; without anything to send it succeeds exactly if the ref is up to date; success means the remote has the ref |
| `StableTrain.Train.RemoteConverged` | scripts/release/stable_auto_train.py:461-496 | with an answer, true exactly if remote main is HEAD, or for a tag if the remote has one of that name |
| `StableTrain.Train.RunGitPush` | scripts/release/stable_auto_train.py:395-433 | look, push, look and so on: the first success ends it, and it fails only after three pushes and four looks; success means HEAD is on remote main, or the tag exists there |
| `StableTrain.Train.WaitForPushCi` | scripts/release/stable_auto_train.py:1771-1853 | watches until all passed, one failed, a restart is refused or the turns are used up, and succeeds exactly in the first case; then every workflow passed for that commit; sends nothing |
| `StableTrain.Train.Dispatch` | scripts/release/stable_auto_train.py:1437-1437 | starts release-cd exactly when the command is accepted, for a tag that the remote has, with HEAD on remote main and green |
| `StableTrain.Train.PushAndDispatch` | scripts/release/stable_auto_train.py:1432-1460 | main, CI for HEAD, tag, dispatch, each begun exactly when the one before it succeeded; success means tag on the remote, HEAD tested, dispatched |
| `StableTrain.Train.ResumeTaggedReleasePublish` | scripts/release/stable_auto_train.py:1463-1474 | the same for a local tag at HEAD, and only then |
| `StableTrain.Train.RecoverExistingRelease` | scripts/release/stable_auto_train.py:1720-1768 | moves no ref and does not start release-cd; for a release seen incomplete with npm complete it starts publish-python.yml up to three times if PyPI lacks it, and writes the GitHub release exactly if PyPI has it or gets it; its outcome is stated exactly |
| `StableTrain.Train.RemoteTagExists` | scripts/release/stable_auto_train.py:586-644 | with an answer, true exactly if the remote has the tag; else false |
| `StableTrain.Train.BestEffortFetchTags` | scripts/release/stable_auto_train.py:690-710 | the tracking branch and the tags after a fetch that may stop half-way; local tags win |
| `StableTrain.Train.SyncMainWithOrigin` | scripts/release/stable_auto_train.py:724-743 | HEAD becomes origin/main exactly if it is an ancestor and the merge succeeds, else it stays; success exactly if HEAD contains origin/main |
| `StableTrain.Train.LatestStable` | scripts/release/stable_auto_train.py:838-842 | a greatest local stable tag |
| `StableTrain.Train.ReconcileUnpublishedLocalStableTag` | scripts/release/stable_auto_train.py:656-687 | removes the latest local tag exactly if HEAD has moved past its commit, the remote is not seen to have it and its publication is known to be incomplete; never touches the remote |
| `StableTrain.Train.CommitAndTag` | scripts/release/stable_auto_train.py:1413-1429 | succeeds exactly if both commands do and the tag is new: a new commit on top of HEAD and that tag on it, no other tag moved |
| `StableTrain.Train.PublishExistingTag` | scripts/release/stable_auto_train.py:2093-2105 | enters `push_and_dispatch` exactly for an incomplete release whose local tag points to HEAD, the recovery exactly for one known to be complete or not tagged at HEAD, and else does nothing |
| `StableTrain.Train.RefreshClone` | scripts/release/stable_auto_train.py:2046-2050 | changes the clone only: HEAD stays or moves forward to origin/main as fetched, the tags are those of both sides, without the latest if that was superseded |
| `StableTrain.Train.PrepareTarget` | scripts/release/stable_auto_train.py:2137-2151 | once the tag is made, enters `push_and_dispatch` exactly when it publishes and is otherwise done; without a tag nothing is sent; published means tag on the remote and HEAD tested |
| `StableTrain.GatedEntersNothing` | scripts/release/stable_auto_train.py:2059-2151 | a gated cycle enters neither; a dry run enters `push_and_dispatch` exactly for a version that it can resume; no cycle enters both |
| `StableTrain.Train.RunOnce` | scripts/release/stable_auto_train.py:2045-2151 | each outcome exactly, from what the cycle sees after refreshing the clone: a gated cycle leaves clone and remote alone; `push_and_dispatch`, without which no ref moves and release-cd is not started, is entered exactly when publishing a tag it made or can resume, and carried out to its first failure; the recovery, without which nothing else is started, exactly when publishing a found tag that it cannot resume |
| `StableTrain.Train.Run` | scripts/release/stable_auto_train.py:2165-2199 | over any number of cycles main only moved forward, no tag moved or vanished, each new tag nobody else made names a tested commit, each dispatch of such a tag is of a tested commit, and each dispatch of any tag happens with the train's HEAD on remote main and green |
| `PushQueue.CooldownPositiveExactly` | scripts/release/alpha_release_train.py:334-344 | every cooldown is at least a second exactly when the configured one is |
| `PushQueue.CooldownGrowsWithinBounds` | scripts/release/alpha_release_train.py:334-344 | more attempts never shorten a cooldown, which stays within an hour or the configured time |
| `PushQueue.CooldownNumbers` | scripts/release/alpha_release_train.py:334-344 | the seconds of each reason's first and further cooldowns |
| `PushQueue.CooledTask` | scripts/release/alpha_release_train.py:670-702 | a handled task that failed has one more attempt, its reason, and comes up again after the cooldown that this many attempts call for |
| `PushQueue.SelectedInOrder` | scripts/release/alpha_release_train.py:792-808 | mains are selected first, and else what is due earlier, and then what was created earlier |
| `PushQueue.EnqueueKeepsDue` | scripts/release/alpha_release_train.py:547-581 | enqueueing makes a new task due at once and leaves attempts and due time of one that is there |
| `PushQueue.HandledTask` | scripts/release/alpha_release_train.py:584-655 | each handled task ends with the update of its own record |
| `PushQueue.OtherTasksStay` | scripts/release/alpha_release_train.py:778-909 | every other row stays as it was |
| `PushQueue.OtherStagesStay` | scripts/release/alpha_release_train.py:656-665 | only the stages of handled tasks change |
| `PushQueue.PassHandles` | scripts/release/alpha_release_train.py:809-906 | a pass in which nothing raises handles the first of the selected rows, each once |
| `PushQueue.PassIsOrderly` | scripts/release/alpha_release_train.py:778-909 | only due tasks, at most once each, within the cap, mains before tags, stopping after the first main that cools down and otherwise handling all the cap leaves, when nothing raises |
| `PushQueue.HandledIsCleared` | scripts/release/alpha_release_train.py:670-702 | a handled task is done or due strictly later |
| `PushQueue.PassClearsWhatItHandles` | scripts/release/alpha_release_train.py:778-909 | its records take exactly the handled tasks from the due ones |
| `PushQueue.RecordOfDue` | scripts/release/alpha_release_train.py:792-812 | each record carries the attempts that its task had when it was selected |
| `PushQueue.AnyPassHandles` | scripts/release/alpha_release_train.py:778-909 | whatever raises, a pass handles only the first of the selected rows, each once, within the cap |
| `PushQueue.HandledWasDue` | scripts/release/alpha_release_train.py:778-909 | and only tasks that were due, the one at which it was cut short included |
| `PushQueue.CutShortIsOrderly` | scripts/release/alpha_release_train.py:835-906 | a pass that was cut short had every main done, no tag before a main, and none at all if it was cut at a main |
| `PushQueue.AnyPassClears` | scripts/release/alpha_release_train.py:778-909 | unless an update raises out of it, a pass takes exactly the handled tasks from the due ones |
| `PushQueue.AnyPassShrinksDue` | scripts/release/alpha_release_train.py:778-909 | and with cap and cooldown at least one makes the due set strictly smaller until it is empty |
| `PushLedger.MarkKeeps` | scripts/release/alpha_release_train.py:917-939 | guarded stage marks keep attempts equal to logged cooldowns, done tasks as they are, stuck main pushes stuck, and done tasks staged |
| `PushLedger.EnqueueKeeps` | scripts/release/alpha_release_train.py:547-581 | so does enqueueing |
| `PushLedger.PassKeeps` | scripts/release/alpha_release_train.py:778-909 | so does a pass, whatever raises in it, except for done tasks being staged |
| `PushLedger.PassStagedExactly` | scripts/release/alpha_release_train.py:778-909 | a pass leaves every done task staged exactly unless it ends with half of a done update and an open stage |
| `PushLedger.HalfUpdateExactly` | scripts/release/alpha_release_train.py:601-666 | an update that stops between its transactions leaves every done task staged exactly if it wrote a cooldown or the stage was done |
| `PushLedger.CrashLeavesStuck` | scripts/release/alpha_release_train.py:601-657 | half of a done update of a main leaves it stuck exactly if its stage was open |
| `PushHistory.WriteKeptExactly` | scripts/release/alpha_release_train.py:601-666 | an update takes back a done task exactly if it is a cooldown of that task and commits |
| `PushHistory.PassKeptExactly` | scripts/release/alpha_release_train.py:835-905 | the committed states of a pass keep every done task exactly unless a main's done update raised after its first transaction and its handler then committed |
| `PushHistory.DoneFinalExactly` | scripts/release/alpha_release_train.py:547-939 | over any run of operations, whatever raises in them, no committed state changes a done task exactly when no pass ended so |
| `PushHistory.DoneKeptForGood` | scripts/release/alpha_release_train.py:547-939 | then a task that is done in one committed state is the same in every later one |
| `PushHistory.DoneLost` | scripts/release/alpha_release_train.py:870-905 | where a main alone is due, a pass that commits it done and then makes it cool down again |
| `PushHistory.RunCounted` | scripts/release/alpha_release_train.py:547-939 | over any such run attempts stay the logged cooldowns and a stuck main push stays stuck |
| `PushHistory.RunStaged` | scripts/release/alpha_release_train.py:547-939 | and done tasks stay staged if no pass ended with half of a done update |
| `PushOutcome.PassMarksOnlySeen` | scripts/release/alpha_release_train.py:705-909 | in no state that a pass commits, whatever raises, is a task or stage newly done unless the remote was seen to have the ref, or main was pushed without an error |
| `PushOutcome.WholePassMarksSeen` | scripts/release/alpha_release_train.py:705-909 | and after a pass in which nothing raises a handled task is done exactly in that case, and else has the reason of its failure |
| `PushStore.Store.MarkStage` | scripts/release/alpha_release_train.py:917-939 | sets the stage row and logs it |
| `PushStore.Store.EnqueueGitPushTask` | scripts/release/alpha_release_train.py:547-581 | inserts or requeues a task, leaves a done one alone, does nothing in a dry run |
| `PushStore.Store.UpdateGitPushTask` | scripts/release/alpha_release_train.py:584-667 | writes the row, logs it, marks the stage in a second transaction; leaves what was committed when it raises |
| `PushStore.Store.EnsureMainPushed` | scripts/release/alpha_release_train.py:1799-1806 | leaves everything if the stage is done, else queues task and stage, in a dry run the stage only; when it raises, a part of that |
| `PushStore.Store.EnsureTagQueued` | scripts/release/alpha_release_train.py:1884-1890 | the same for the tag |
| `PushStore.Store.ObserveTagPushed` | scripts/release/alpha_release_train.py:1753-1756 | marks the tag's stage done and touches no task |
| `PushStore.Store.SelectDue` | scripts/release/alpha_release_train.py:792-808 | exactly the due tasks, once each, in the order of the query |
| `PushStore.Store.Record` | scripts/release/alpha_release_train.py:670-702 | records done, or one more attempt with the cooldown that the failure calls for; leaves what was committed when it raises |
| `PushStore.Store.RecordMain` | scripts/release/alpha_release_train.py:870-905 | whatever raises for a main, the attempt or its own update, the handler writes a cooldown over it |
| `PushStore.Store.ProcessMainRow` | scripts/release/alpha_release_train.py:835-905 | one main: done exactly if observed or pushed, with the reason of the probe or the push if one failed, and cooled down by the handler if anything raised |
| `PushStore.Store.ProcessTagBatch` | scripts/release/alpha_release_train.py:705-775 | every row of the batch gets exactly one record, up to the one whose update or probe raises; it is done exactly if its last probe saw it on the remote, and else has that probe's reason, else the push's, else `git_push_not_observed_after_batch` |
| `PushStore.Store.CollectBatch` | scripts/release/alpha_release_train.py:816-823 | the tag rows from here on that the cap leaves |
| `PushStore.Store.ProcessRows` | scripts/release/alpha_release_train.py:809-906 | the loop makes a pass over the rows, each with the outcome the remote's answers call for; tables and committed states are those of its updates one after another |
| `PushStore.Store.ProcessGitPushQueue` | scripts/release/alpha_release_train.py:778-909 | the same from selection to result; nothing in a dry run; the ledger is kept; only what was seen on the remote, or is main and pushed without an error, becomes done in any committed state |
| `PushStore.Store.Drain` | scripts/release/alpha_release_train.py:778-909 | passes at one time empty the due set, in at most as many passes as there were due tasks, unless an update raises out of one |
| `PushStore.Store.Run` | scripts/release/alpha_release_train.py:547-939 | over any operations, from any state: done is final in the committed states exactly if no pass loses it, attempts stay the logged cooldowns, done tasks stay staged if no pass ends with half of a done update, a stuck main push stays stuck |
| `ReleaseLedger.ReleasedCountGrows` | scripts/release/alpha_release_train.py:529-537 | an increment adds one to the released total over all days |
| `ReleaseLedger.DayBounds` | scripts/release/alpha_release_train.py:529-530 | a counter's day is 86400 s long and counted from the epoch |
| `ReleaseLedger.UpsertKeeps` | scripts/release/alpha_release_train.py:509-526 | any other status moves no release in or out of the released ones, and makes no retired one prepared or processing |
| `ReleaseLedger.ReleaseKeeps` | scripts/release/alpha_release_train.py:2609-2620 | the first release counts once, a repeated one not at all |
| `ReleaseLedger.PreparedCountedExactly` | scripts/release/alpha_release_train.py:2631-2636 | a preparation is counted without happening exactly for a retired release |
| `ReleaseLedger.RetiredRevivedThroughFailed` | scripts/release/alpha_release_train.py:511-514 | a retired release can fail and then be prepared |
| `ReleaseLedger.RevivedOnlyThroughFailed` | scripts/release/alpha_release_train.py:509-526 | over any run, a retired release that is active again was marked failed in between |
| `ReleaseLedger.ReleasedForGood` | scripts/release/alpha_release_train.py:511-512 | over any run, a released release stays released |
| `ReleaseLedger.Store.UpsertReleaseState` | scripts/release/alpha_release_train.py:509-526 | refuses to leave released and to revive retired, else writes the row |
| `ReleaseLedger.Store.IncrementDailyCount` | scripts/release/alpha_release_train.py:529-537 | adds one to the counter of the UTC day |
| `ReleaseLedger.Store.MarkProcessed` | scripts/release/alpha_release_train.py:2609-2622 | releases, counting only the first time |
| `ReleaseLedger.Store.MarkPrepared` | scripts/release/alpha_release_train.py:2625-2638 | prepares, counting unless prepared, processing or released |
| `ReleaseLedger.Store.MarkProcessing` | scripts/release/alpha_release_train.py:2641-2651 | upserts processing |
| `ReleaseLedger.Store.MarkFailed` | scripts/release/alpha_release_train.py:2654-2664 | upserts failed |
| `ReleaseLedger.Store.RetirePrepared` | scripts/release/alpha_release_train.py:2667-2680 | retires exactly what is prepared or processing |
| `ReleaseLedger.Store.Run` | scripts/release/alpha_release_train.py:2609-2680 | over any marks from an empty store the released counts of all days equal the number of released releases, released is absorbing, and its states are such a history |

## Left out

- SHA-256 is any function; what is asked of it is only that it does not collide on the two byte strings at hand.
- Unicode NFC is any test on strings; event acceptance asks only that the ASCII property names pass it.
- Canonical.Emitter.Emit: error messages, paths and the kind of error are not modelled; what was written before an exception is discarded, as in the source.
- HashChain.VerifyChain: sequence numbers are integers; reasons are kinds, not texts. Events and payloads are values, so a caller who mutates a payload object after appending it is outside the model.
- Substrate.AttestSubstrate.Append: the clock and the UUID generator are parameters.
- Anchors.VerifyChainWithAnchors: RFC 3161 parsing and verification are one function with three outcomes; `requestTimestamps` and the record validators are left out as one-branch checks.
- Stringify.CanonicalJsonBytes: values hold no class instances (Date, byte array, int64 literal) and no `toJSON` function; a number that is no safe integer is given by its text.
- Dsse.EnvelopeRoundTrip: `JSON.parse` and the UTF-8 decoder are a parameter of which only compact text without repeated keys, with numbers as the platform prints them, is asked; building the statement from a bundle and the signatures are left out.
- CanonicalText.StripAndFoldIdempotent: NFC and lower case are not modelled, so nothing is said of the whole pipeline.
- Der.ReadSequence: stops with its own outcome where a length of -6 or less leads the cursor back; what the loop of the source does from there, cursors before the buffer included, is `DerLoop`'s. BIT STRING, OCTET STRING and GeneralizedTime readers are left out.
- MergeLock.SafeRun: host names are taken to be distinct per host, and a process id is not reused while its row stands; a reused one counts as alive, which only refuses more.
- StableVersions.NextUnabandonedStableAfter: the local tags do not change while the search runs.
- StableTrain.Train.RunOnce: target selection, gates, probes of registries, validation and file writing are arbitrary answers; signing and provenance runs are left out as they only report.
- StableTrain.Train.Run: everyone else is assumed to move remote main forward only and never to move or remove a stable tag; GitHub's run list is assumed to report real runs, and one train works in a clone at a time.
- PushStore.Store.ProcessGitPushQueue: one process works on the queue at a time; opening the database, the selection and the last snapshot of a pass may raise too, but write no table.
- Rfc8259.PrintedIsJsonExactly: of members with one name the reader takes the last, which the RFC leaves open; printed objects have no such members.
- PushStore.Store.Record: a release's task is for `main` or for its own tag, the only refs its callers pass.
- ReleaseLedger.Store.Run: the JSON import, which overwrites the daily counters, is left out; so are JSON snapshots of the tables.
- The proof bundle builder and its serialisers, hex conversion, payload validators, reason codes, obligations, the local runner, prompts, GitHub issue handling and release-note writers: one-branch checks, static data or input and output.
