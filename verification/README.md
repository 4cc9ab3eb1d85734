# Verified model of the fusotao Rust client

The client talks to a Substrate node: it reads the node's V14 metadata, decodes events and calls with
it, builds storage keys, composes and signs extrinsics, submits and watches them, and keeps keys on
disk. This project models that logic in Dafny and proves what it promises. `dafny verify
dfyconfig.toml` checks the whole project.

## How to read it

| file | content |
|---|---|
| `Scale.dfy` | little-endian and compact integers (sections A.2.2 and A.2.2.1 of the Polkadot Protocol Specification), codecs of foreign types |
| `Registry.dfy` | type registry, values, reference SCALE encoding, typing, unique decoding |
| `Decoder.dfy` | specification of `decode_type`: `Transcode(fuel, ...)`, soundness, completeness |
| `Primitives.dfy` | one level of `decode_type` in plain terms: order of parts, tags, integers, booleans, UTF-8 strings, compacts |
| `Acceptance.dfy` | least fixed points: which type ids accept something, which accept nothing; closed sets of ids |
| `Termination.dfy` | exact condition under which `decode_type` terminates |
| `Lookups.dfy` | the code's two questionable lookups against the intended ones |
| `Cursors.dfy` | `decode_type` as it runs on an input cursor and an output buffer |
| `Storage.dfy`, `Metadata.dfy` | storage keys; metadata tables and call encoding |
| `Tables.dfy` | what every table and lookup by name holds, read off the pallet list |
| `Events.dfy`, `EventDecoder.dfy` | event batches and calls: specification, reference records; the imperative decoder |
| `Reports.dfy` | what decoded batches and calls say, entry by entry; dispatch errors; refusals |
| `Hex.dfy`, `JsonText.dfy` | text framing |
| `Wait.dfy` | waiting for an event on a stream |
| `Conformance.dfy` | what the code makes of the calls, batches and streams of the standard |
| `Extrinsics.dfy` | extrinsic V4 codec, hex text, signing payload |
| `Watch.dfy` | submit-and-watch state machine |
| `Keystore.dfy` | keystore object and its runs |

Conventions.

- A registry may be cyclic, so `decode_type` may not return. `Transcode(fuel, ...)` is the run bounded
  by `fuel` levels of recursion, `Exhausted` when it is longer; statements quantify over every bound,
  and the methods require only that the run ends within some (ghost) bound. `Termination.dfy` says
  when one exists.
- `Mode` carries the two lookups that the code does differently from SCALE: a compact node unwraps its
  own id (`OwnId`) instead of its type parameter (`TypeParam`), and an enum tag selects a variant by
  position (`ByPosition`) instead of by declared index (`ByIndex`). Everything is proved for all four
  combinations; `AS_WRITTEN` is the code, `INTENDED` the standard.
- Types defined in other crates (era, address, signature, call, dispatch error, map keys) are arbitrary
  `Codec`s satisfying `Lawful`; hash functions are arbitrary up to their output length; key derivation
  is arbitrary.
- Panics are outcomes: a bit sequence (`Unimplemented`), a malformed RPC error object, a
  frame that is not UTF-8 text.
- A set of type ids is `Closed` if a run started in it stays in it, on any input; a set that holds the
  fields of its types is (`Acceptance.FieldsClose`). Statements about types ask their hypotheses only of
  a closed set, so other types of the registry do not matter.

Where the code and its comments or evident intent differ, the model follows the code:

- Every compact type is refused (`Lookups.CompactNeverDecodes`). In any registry, a value along which the
  tag lookups agree round-trips iff it has no compact part (`Lookups.AsWrittenRoundTripIff`); otherwise
  it is refused at its first compact part (`Lookups.AsWrittenOutcome`). So is a call with such an
  argument (`Conformance.CallAsWrittenIff`), and one such field loses a whole batch of events
  (`Conformance.BatchAsWrittenIff`), which a waiting caller then misses
  (`Conformance.WaitOnStandardStream`).
- An enum whose declared indices are not its positions may be decoded wrongly
  (`Lookups.OutOfOrderStopsEarly`). The two lookups make the same step on every input of an enum iff they
  give every tag the same fields (`Lookups.SameVisitIff`), and accept the same inputs iff the fields they
  give do (`Lookups.SameAcceptanceIff`).
- Waiting for `System::ExtrinsicFailed` can never succeed (`Wait.NeverFindsExtrinsicFailed`). An event can
  be waited for iff it has no dispatch-error field and its fields can be accepted
  (`Wait.FoundIffReportable`). As written, and where the tag lookups agree on the types that the fields
  of the event can visit, that excludes exactly the events with a field that always has a compact part
  (`Wait.FoundAsWrittenIff`).
- A refused extrinsic, or one with status `future`, is reported as `Ok(None)` to whoever waits for
  broadcast, ready or submission (`Watch.RejectionOutcome`, a trace in
  `Watch.BadSignatureReportedAsSuccess`); such a caller gets `Ok(None)` iff the message that ends the
  watch does not crash the handler (`Watch.SuccessWithoutHashIff`).
- A key inserted from a seed is not returned when the store's password derives another key from that seed
  (`Keystore.SeededKeyMismatch`, exact condition in `Keystore.SeededKeyReturnedIff`).
- A file named in capital hex digits is listed but cannot be looked up
  (`Keystore.CapitalNameListedNotFound`, exact condition in `Keystore.ListedIffFound`).

## Model

| member | source | states |
|---|---|---|
| `Scale.CompactRoundTrip` | node-api/src/decoder.rs:217-219 | a compact integer that fits the type is read back, whatever follows |
| `Scale.CompactCanonical` | node-api/src/decoder.rs:265-272 | only canonical compact encodings of values that fit are accepted |
| `Scale.CompactLayout` | node-api/src/decoder.rs:265-272 | the four modes as numbers: 4v plus mode in 1, 2, 4 bytes, else a byte count and no superfluous byte |
| `Scale.CompactReadIff` | node-api/src/decoder.rs:265-272 | of all the encoder can write, a decoder reads exactly the values that fit its type, whatever follows |
| `Scale.IntRoundTrip` | node-api/src/decoder.rs:243-255 | fixed-width signed and unsigned integers are read back |
| `Scale.IntCanonical` | node-api/src/decoder.rs:243-255 | re-encoding a decoded integer reproduces its bytes |
| `Scale.IntLayout` | node-api/src/decoder.rs:243-255 | the bytes of an integer, read as a number, are the value or its two's complement |
| `Scale.LittleEndianWeights` | node-api/src/decoder.rs:243-255 | later bytes weigh more, each 256 times the one before |
| `Registry.UniqueEncoding` | node-api/src/decoder.rs:198-259 | encodings of one type are injective and prefix-free |
| `Registry.UniqueAcross` | node-api/src/decoder.rs:198-272 | two values that different lookups type alike along the first, with a common encoding before any suffixes, are the same value |
| `Decoder.MoreFuel` | node-api/src/decoder.rs:181-306 | the bound on recursion never changes a finished run |
| `Decoder.Sound` | node-api/src/decoder.rs:181-306 | on success the appended bytes are exactly the consumed bytes and the reference encoding of a value of the type |
| `Decoder.Complete` | node-api/src/decoder.rs:198-259 | every value of a type, followed by anything, is transcoded and the rest left |
| `Decoder.NoLookahead` | node-api/src/decoder.rs:181-306 | the result depends on no byte after those consumed |
| `Decoder.AcceptsExactlyTheEncodings` | node-api/src/decoder.rs:181-306 | accepted prefixes are exactly the encodings of values of the type |
| `Primitives.PartsRuns` | node-api/src/decoder.rs:199-236 | structs and tuples decode their fields in order, arrays their element so many times |
| `Primitives.SequenceRuns` | node-api/src/decoder.rs:217-224 | a sequence is a compact count and that many elements |
| `Primitives.EnumRuns` | node-api/src/decoder.rs:205-216 | as written the tag of an enum is the position of a variant, whose fields follow in order |
| `Primitives.IntegerRuns` | node-api/src/decoder.rs:243-255 | u8 to u128 and i8 to i128 take 1, 2, 4, 8, 16 bytes, whatever they are, and reproduce them; fewer bytes are a codec error |
| `Primitives.IntegerValues` | node-api/src/decoder.rs:243-255 | the value ranges of the ten integer types, in numbers |
| `Primitives.BoolRuns` | node-api/src/decoder.rs:238 | a boolean is one byte, zero or one |
| `Primitives.TextRuns` | node-api/src/decoder.rs:242 | a string is accepted iff it is the length and the UTF-8 of some sequence of Unicode scalar values, and is reproduced |
| `Primitives.Utf8Iff` | node-api/src/decoder.rs:242 | well-formed bytes are exactly the concatenated encodings of scalar values |
| `Primitives.UnsupportedRuns` | node-api/src/decoder.rs:239-257 | char, u256 and i256, and only they, are unsupported |
| `Primitives.OtherLeaves` | node-api/src/decoder.rs:187-304 | a missing type is an error of its own, a bit sequence a panic |
| `Primitives.CompactRuns` | node-api/src/decoder.rs:265-287 | unwrapping the type parameter, directly or through a struct of one field, a compact over u8 to u128 reads n iff n is below 2^8 to 2^128; other primitives are refused by name |
| `Primitives.CompactRefusals` | node-api/src/decoder.rs:273-299 | anything else below a compact is a missing type or an invalid compact type |
| `Cursors.DecodeType` | node-api/src/decoder.rs:181-306 | the recursive method on cursor and buffer computes the specified run wherever that run ends |
| `Cursors.DecodeRaw` | node-api/src/decoder.rs:192-196 | decodes, then appends the re-encoded value |
| `Cursors.DecodeEach` | node-api/src/decoder.rs:199-216 | the loop over fields decodes them in order and stops at the first failure |
| `Cursors.DecodeTimes` | node-api/src/decoder.rs:217-230 | the loop over elements decodes exactly that many |
| `Acceptance.AcceptedIffLive` | node-api/src/decoder.rs:187-304 | some input is accepted at an id iff it is in the set computed in one round per type |
| `Acceptance.LiveIsLeastFixedPoint` | node-api/src/decoder.rs:187-304 | that set is closed, and contained in every closed set |
| `Acceptance.ConsumesNothingOnlyIfSilent` | node-api/src/decoder.rs:199-236 | only ids in the computed set of silent types succeed without consuming |
| `Acceptance.SilentConsumesNothing` | node-api/src/decoder.rs:199-236 | silent ids succeed on every input without consuming |
| `Acceptance.FieldsClose` | node-api/src/decoder.rs:199-236 | a set of ids that holds the fields and elements of its types is never left by a run, under any lookups |
| `Termination.TerminatesAtIff` | node-api/src/decoder.rs:199-236 | terminates at one id on all inputs iff the id is in some closed set with a rank that falls along every step that need not consume input, whatever the other types are |
| `Termination.TerminatesWithinIff` | node-api/src/decoder.rs:199-236 | in a given closed set, terminates on all inputs iff the set has such a rank |
| `Termination.TerminatesIffLeftRanked` | node-api/src/decoder.rs:199-236 | the same for all ids of a registry |
| `Termination.RankedTerminates` | node-api/src/decoder.rs:199-236 | a rank on the composite, tuple and array fields of a set that holds its fields suffices |
| `Termination.SelfCompositeNeverHalts` | node-api/src/decoder.rs:199-204 | a composite holding itself is never finished |
| `Lookups.CompactNeverDecodes` | node-api/src/decoder.rs:260-299 | as written every compact node fails on every input |
| `Lookups.CompactParameterDecodes` | node-api/src/decoder.rs:260-299 | unwrapping the type parameter transcodes a compact integer iff it fits |
| `Lookups.SameVisitIff` | node-api/src/decoder.rs:205-216 | at an enum the two tag lookups make the same step on every input iff they give every tag the same fields, or none |
| `Lookups.InOrderAgrees` | node-api/src/decoder.rs:205-216 | declared index = position makes them agree on any set of ids |
| `Lookups.IndexLookup` | node-api/src/decoder.rs:205-216 | by declared index, a tag selects the first variant that declares it, none iff none does |
| `Lookups.SameRun` | node-api/src/decoder.rs:205-216 | where they agree on a closed set of ids, runs from it are equal, error for error; if it has no compact nodes the code is the intended decoder there |
| `Lookups.WrittenTypesIff` | node-api/src/decoder.rs:181-306 | what the code takes for a value of a type is a value of the standard without compact parts, and conversely, where the lookups agree along it |
| `Lookups.AsWrittenOutcome` | node-api/src/decoder.rs:181-306 | in any registry, a standard value along which the lookups agree is transcoded before any suffix, or refused as an invalid compact type |
| `Lookups.AsWrittenRoundTripIff` | node-api/src/decoder.rs:181-306 | some run on it succeeds iff it has no compact part, and every run that succeeds gives it back |
| `Lookups.WrittenTypesWithin` | node-api/src/decoder.rs:181-306 | where the lookups agree on a closed set, the code takes for values of its types exactly the standard values without compact parts |
| `Lookups.AsWrittenSound` | node-api/src/decoder.rs:181-306 | there, whatever the code accepts is the standard encoding of a value without compact parts |
| `Lookups.LiveAsWrittenIff` | node-api/src/decoder.rs:181-306 | there, the code accepts some input at a type iff it has a standard value without compact parts |
| `Lookups.OutOfOrderStopsEarly` | node-api/src/decoder.rs:208-211 | where the lookups disagree the code can stop in the middle of a value |
| `Lookups.SameAcceptanceIff` | node-api/src/decoder.rs:205-216 | two decoders accept the same inputs at an enum iff each tag selects fields that accept the same inputs, or nothing that accepts any |
| `Lookups.SameAcceptanceSameTags` | node-api/src/decoder.rs:208-211 | if what one decoder accepts at an enum the other accepts, each tag the first can open the second can, with fields that accept all that the first's do |
| `Metadata.IndexTableExactIff` | node-api/src/metadata.rs:515-588 | rows collected by index are declared entries, and all of them iff no indices clash |
| `Metadata.DistinctIndicesSuffice` | node-api/src/metadata.rs:476-588 | distinct pallet indices and distinct variant indices within each type keep indices from clashing |
| `Metadata.CallTablesAgreeIff` | node-api/src/metadata.rs:476-538 | name-keyed and index-keyed tables agree on every call iff no two calls share their indices |
| `Metadata.DistinctLooksUp` | node-api/src/metadata.rs:271-282 | a call encoded by name is looked up, by index, as itself |
| `Metadata.CollectLast` | node-api/src/metadata.rs:512-538 | collecting into a map keeps the last pair of each key |
| `Tables.ValidIff` | node-api/src/metadata.rs:455-510 | metadata is valid iff the prefix is 0x6174656d, the version 14 and every call, event and error type of every pallet an enum; otherwise the error names what is wrong |
| `Tables.IndexTables` | node-api/src/metadata.rs:509-596 | the call table holds the variants of call types, the event table of event types, the error table of error types, under pallet and variant index, and of several with the same indices the last |
| `Tables.WellNumberedTables` | node-api/src/metadata.rs:509-596 | with distinct names and indices each table holds every such variant and nothing else |
| `Tables.NameTables` | node-api/src/metadata.rs:476-508 | a name leads to the last pallet that has it: its index, its calls and its storage entries, the last of each name |
| `Tables.KnownPallets` | node-api/src/metadata.rs:87-91 | a pallet is known iff it is in the list |
| `Tables.EncodeCallIff` | node-api/src/metadata.rs:271-282 | by name: the indices of the last such call in the last such pallet, then the arguments; else the missing pallet or call |
| `Tables.DeclaredCallEncodes` | node-api/src/metadata.rs:271-282 | with distinct names every declared call is encoded under its own indices, whatever the arguments |
| `Tables.StorageByName` | node-api/src/metadata.rs:604-664 | the five storage keys by name are those of the last entry of that name in the last pallet of that name |
| `Tables.StorageMissing` | node-api/src/metadata.rs:604-664 | otherwise all five say whether the pallet or the entry is missing |
| `Metadata.StorageMapKeyExtracts` | node-api/src/metadata.rs:616-627 | the key of a named map entry gives its key back iff the hasher keeps it |
| `Metadata.StorageDoubleMapKeyExtracts` | node-api/src/metadata.rs:639-651 | the key of a named double map entry gives its second key back iff both hashers keep theirs, else extraction fails |
| `Events.BatchComplete` | node-api/src/decoder.rs:23-77 | any batch of well-typed records decodes to its meaning, which `Reports.MeaningsIff` spells out, and is consumed exactly |
| `Events.BatchSound` | node-api/src/decoder.rs:23-77 | only encodings of well-typed records decode |
| `Events.BatchSize` | node-api/src/decoder.rs:69-75 | one entry per record without dispatch errors, one per error otherwise |
| `Events.FailingRecordDiscardsBatch` | node-api/src/decoder.rs:40-67 | a failing record fails the whole batch with its own error, whatever precedes and follows it; under no bound is anything reported |
| `Events.FieldsSound` | node-api/src/decoder.rs:80-113 | decoded fields are values or dispatch errors that resolve, and data and errors are theirs |
| `Events.FailuresNeverReported` | node-api/src/decoder.rs:92-107 | extrinsic failures carrying a dispatch error never appear as events |
| `Events.PhaseRoundTrip` | node-api/src/lib.rs:36-44 | phases are read back |
| `Reports.MeaningIff` | node-api/src/decoder.rs:47-75 | a record means its own phase with its event, or, with k dispatch errors, its phase with each of the k errors in order, and nothing else |
| `Reports.MeaningsIff` | node-api/src/decoder.rs:29-76 | a batch means the reports of its records, in order |
| `Reports.RecordReported` | node-api/src/decoder.rs:29-75 | a well-typed record is decoded to that report |
| `Reports.BatchReported` | node-api/src/decoder.rs:23-77 | a batch of well-typed records is decoded to the reports in order |
| `Reports.OnlyReports` | node-api/src/decoder.rs:23-77 | whatever decodes is the reports of the records the input encodes |
| `Reports.FromDispatchIff` | node-api/src/error.rs:117-142 | which runtime error each dispatch error becomes; only an unknown module error becomes none |
| `Reports.ModuleErrorDeclared` | node-api/src/error.rs:119-130 | a module error is the declared error of that pallet under its first error byte |
| `Reports.DispatchFieldIff` | node-api/src/decoder.rs:94-100 | the last segment of its path makes a field of `System::ExtrinsicFailed` a dispatch error |
| `Reports.PhaseReads` | node-api/src/lib.rs:36-44 | phases in bytes: 0 and a little-endian u32, 1, 2 |
| `Reports.HashesRead` | node-api/src/decoder.rs:60-61 | topics are 32 bytes each |
| `Reports.UnknownEventRefused` | node-api/src/decoder.rs:42 | a record naming an unknown event is refused by its two indices |
| `Events.CallRoundTrip` | node-api/src/decoder.rs:169-179 | decoding an encoded call finds exactly that call and stops behind its arguments |
| `Reports.CallSound` | node-api/src/decoder.rs:169-179 | a decoded call is two indices of the call table, an encoding of that call's fields and the rest |
| `Reports.CallAcceptedIff` | node-api/src/decoder.rs:169-179 | behind its indices exactly the encodings of a call's arguments are accepted |
| `Reports.DecodedCallDeclared` | node-api/src/decoder.rs:169-179 | a decoded call is declared by some pallet under those indices |
| `Reports.CallRefusals` | node-api/src/decoder.rs:170-172 | too short an input and unknown indices are told apart |
| `Conformance.CallOutcome` | node-api/src/decoder.rs:169-179 | as written, a call with standard arguments along which the lookups agree is found, or refused as an invalid compact type |
| `Conformance.CallAsWrittenIff` | node-api/src/decoder.rs:169-179 | what is encoded by name is decoded by some run iff no argument has a compact part, and then as that call |
| `Conformance.RecordOutcome` | node-api/src/decoder.rs:29-113 | as written, a standard record decodes to what it stands for, or is refused at its first compact part |
| `Conformance.BatchOutcome` | node-api/src/decoder.rs:23-77 | as written, so does a batch; one compact part anywhere loses all of it |
| `Conformance.BatchAsWrittenIff` | node-api/src/decoder.rs:23-77 | some run decodes a batch of standard records iff none has a compact part, and every run that succeeds reports what the batch stands for |
| `EventDecoder.DecodeRawEvent` | node-api/src/decoder.rs:80-113 | the field loop computes the specified payload and errors |
| `EventDecoder.DecodeEventRecord` | node-api/src/decoder.rs:29-75 | one iteration computes the specified report of a record |
| `EventDecoder.DecodeEventBatch` | node-api/src/decoder.rs:23-77 | the batch loop computes the specified events |
| `EventDecoder.DecodeRuntimeCall` | node-api/src/decoder.rs:169-179 | the method computes the specified lookup and remaining input |
| `Wait.WaitForRawEvent` | src/std/rpc/ws_client/mod.rs:105-139 | the receive loop computes the specified outcome and leaves later messages queued |
| `Wait.WaitIsFirstMatch` | src/std/rpc/ws_client/mod.rs:117-138 | the outcome is the first match among all decodable batches before the first unreadable message |
| `Wait.FailedBatch` | src/std/rpc/ws_client/mod.rs:119-135 | a batch that fails to decode, for any reason but a bit sequence, leaves the outcome to the remaining messages; a bit sequence panics |
| `Wait.BadHexEnds` | src/std/rpc/ws_client/mod.rs:118-119 | a message that frames no hexadecimal text ends the wait |
| `Wait.UnknownEventMissed` | src/std/rpc/ws_client/mod.rs:117-135 | one unknown event anywhere makes the caller miss its batch and wait on |
| `Wait.FoundIffReportable` | src/std/rpc/ws_client/mod.rs:117-138 | some stream lets a caller find an event of given names iff the metadata has one without dispatch-error fields whose fields all accept something |
| `Wait.FoundAsWrittenIff` | src/std/rpc/ws_client/mod.rs:117-138 | the same for the code as written in terms of the standard, where the lookups agree on what the fields of that event can visit: every field needs a value without compact parts |
| `Wait.NeverFindsExtrinsicFailed` | src/std/rpc/ws_client/mod.rs:117-138 | hence waiting for `System::ExtrinsicFailed` never succeeds, on any stream |
| `Wait.StreamHalts` | src/std/rpc/ws_client/mod.rs:117-138 | where the decoder terminates at the fields of events, one bound serves every message of a stream |
| `Conformance.WaitOnStandardStream` | src/std/rpc/ws_client/mod.rs:105-139 | as written, on a stream of standard batches, the first match among the batches without compact parts is returned, and all other batches are missed |
| `Hex.FramedHex` | src/utils.rs:40-50 | quotes and `0x` around hex text do not change the bytes read |
| `Hex.FromHexIff` | src/utils.rs:40-50 | exactly quotes, any number of `0x`, two digits for each byte and quotes are read, as those bytes |
| `Hex.HexText` | primitives/src/extrinsics.rs:110-114 | bytes are written high digit first, in lower case |
| `Hex.RefusesOtherText` | src/utils.rs:40-50 | text with any other character is refused |
| `Extrinsics.EncodeWithVecPrefix` | primitives/src/extrinsics.rs:184-204 | whatever is reserved, the result is the compact length followed by the body |
| `Extrinsics.EncodeExtrinsic` | primitives/src/extrinsics.rs:133-151 | the buffer ends up as length, version byte, signed part, call |
| `Extrinsics.DecodeExtrinsic` | primitives/src/extrinsics.rs:153-181 | the method computes the specified extrinsic and remaining input |
| `Extrinsics.XtRoundTrip` | primitives/src/extrinsics.rs:133-181 | signed and unsigned extrinsics round-trip, whatever follows |
| `Extrinsics.ReencodesIffLengthRight` | primitives/src/extrinsics.rs:157-204 | re-encoding reproduces the bytes read iff the ignored length was right |
| `Extrinsics.TextRoundTrip` | primitives/src/extrinsics.rs:110-114 | the hex text reads back as the encoding and decodes with nothing left |
| `Extrinsics.TextLayout` | primitives/src/extrinsics.rs:110-114 | the text is `0x` and two lower-case digits for each byte of the encoding |
| `Extrinsics.SignedBodyLayout` | primitives/src/extrinsics.rs:139-148 | order of the fields of a signed extrinsic |
| `Extrinsics.UnsignedBodyLayout` | primitives/src/extrinsics.rs:144-148 | an unsigned extrinsic is the version byte 4 and the call |
| `Extrinsics.WellFormedIff` | primitives/src/extrinsics.rs:43 | the nonce is a u32, the tip a u128 |
| `Extrinsics.PayloadLayout` | primitives/src/extrinsics.rs:59-70 | order of the fields of the signed payload |
| `Extrinsics.ComposedSignature` | compose-macros/src/lib.rs:75-99 | what is signed: call, era, nonce, zero tip, versions, genesis and checkpoint hash, as they stand up to 256 bytes and hashed beyond |
| `Extrinsics.SignatureCoversWhatIsSent` | compose-macros/src/lib.rs:75-99 | the payload rebuilt from the decoded extrinsic is what was signed, at most 256 bytes |
| `Extrinsics.SignedBytesDeterminePayload` | primitives/src/extrinsics.rs:72-83 | signed bytes determine the payload up to hash collisions of long ones |
| `Storage.ExtractIdentifier` | node-api/src/decoder.rs:122-139 | skips the hash of a concatenated key, fails for other hashers |
| `Storage.ExtractMapIdentifier` | node-api/src/decoder.rs:141-150 | the method computes the specified extraction |
| `Storage.ExtractDoubleMapIdentifier` | node-api/src/decoder.rs:152-166 | the method computes the specified extraction |
| `Storage.MapKeyExtracts` | node-api/src/decoder.rs:141-150 | extraction inverts key building iff the hasher keeps the key, else it fails |
| `Storage.DoubleMapKeyExtracts` | node-api/src/decoder.rs:152-166 | the same for the second key of a double map, iff both hashers keep their keys |
| `Storage.NamesOnly` | node-api/src/storage.rs:33-37 | a plain value has a key and a map a prefix: twox_128 of the pallet name, then of the entry name |
| `Storage.MapKeyLayout` | node-api/src/storage.rs:49-54 | a map has keys iff it has a hasher: the same 32 bytes, then the key hasher by hasher |
| `Storage.DoubleMapKeyLayout` | node-api/src/storage.rs:67-82 | a double map has keys iff it has two hashers: the partial key, then the second key as its own hasher writes it |
| `Storage.KeyHashSplits` | node-api/src/storage.rs:200-223 | hashed keys split unambiguously; kept keys are determined |
| `Storage.DoubleMapKeyInjective` | node-api/src/storage.rs:67-74 | with key-keeping hashers a full key determines both keys |
| `Storage.PartialKeyPrefixIff` | node-api/src/storage.rs:76-82 | a partial key prefixes a full key iff the first keys (or their hashes) agree |
| `JsonText.RenderedHashIff` | src/std/rpc/ws_client/mod.rs:312-317 | a JSON value written out reads back as a hash iff it is an unescaped string holding it |
| `JsonText.HoldsHashIff` | src/std/rpc/ws_client/client.rs:58-70 | that is: any number of `0x` and 64 hex digits, with no quotes inside the string |
| `Watch.Session.EndProcess` | src/std/rpc/ws_client/mod.rs:290-301 | closes and sends the value, or the empty string |
| `Watch.Session.OnMessage` | src/std/rpc/ws_client/mod.rs:196-288 | each handler makes the specified step |
| `Watch.SendExtrinsic` | src/std/rpc/ws_client/client.rs:45-91 | the caller gets the specified outcome of the trace |
| `Watch.OutcomeByFirstTerminal` | src/std/rpc/ws_client/client.rs:58-90 | only the first terminal message counts, whatever follows |
| `Watch.WaitsIffNoTerminal` | src/std/rpc/ws_client/mod.rs:196-272 | the caller waits exactly on traces without a terminal message |
| `Watch.TerminalIffEnds` | src/std/rpc/ws_client/mod.rs:303-332 | which messages end a watch, read off the message itself |
| `Watch.OutcomeByEnd` | src/std/rpc/ws_client/client.rs:58-90 | the first message that ends the watch decides the outcome; without one the caller waits |
| `Watch.ReactionByMessage` | src/std/rpc/ws_client/mod.rs:303-363 | which messages are refusals and which crash the handler, read off the message itself |
| `Watch.FinalizedHashIff` | src/std/rpc/ws_client/client.rs:59-64 | a hash is returned iff the message that ends the watch reports it as `finalized` |
| `Watch.InBlockHashIff` | src/std/rpc/ws_client/client.rs:65-70 | the same for `inBlock` or `finalized` |
| `Watch.NodeHashIsRead` | src/std/rpc/ws_client/client.rs:58-70 | every hash in the node's own spelling is recognised |
| `Watch.SuccessWithoutHashIff` | src/std/rpc/ws_client/client.rs:71-88 | broadcast, ready and submission give `Ok(None)` iff the message that ends the watch does not crash the handler |
| `Watch.DisconnectedIff` | src/std/rpc/ws_client/client.rs:58-90 | at every level the channel is found closed iff that message crashes the handler |
| `Watch.InvalidHexIff` | src/std/rpc/ws_client/client.rs:59-70 | hash waiters get an error iff that message neither reports a hash nor crashes the handler |
| `Watch.RejectionOutcome` | src/std/rpc/ws_client/client.rs:58-90 | a refusal or `future` is an error for hash waiters and a success without hash for others |
| `Watch.BadSignatureReportedAsSuccess` | src/std/rpc/ws_client/client.rs:71-88 | a refusal for a bad signature, at each of the five levels |
| `Watch.ErrorObjectOutcome` | src/std/rpc/ws_client/mod.rs:334-353 | an error object may lack message, code or data; well-typed it is a refusal, otherwise the handler panics |
| `Watch.FinalizedUpdate` | src/std/rpc/ws_client/mod.rs:310-317 | what `finalized` with a hash comes to at four levels |
| `Watch.InBlockUpdate` | src/std/rpc/ws_client/mod.rs:318-320 | `inBlock` answers whoever waits for inclusion; the others wait on |
| `Watch.WordUpdate` | src/std/rpc/ws_client/mod.rs:326-331 | `ready` and `future` per level; other words are passed over |
| `Watch.QuietMessageSkipped` | src/std/rpc/ws_client/mod.rs:196-272 | a message that does not end the watch changes nothing |
| `Watch.ClosedIffAnswered` | src/std/rpc/ws_client/mod.rs:290-301 | the socket is closed iff the caller has an answer |
| `Watch.UnsupportedIff` | src/std/rpc/ws_client/client.rs:58-90 | only `Future`, `Error` and `Unknown` cannot be waited for |
| `Watch.WaitingForLessStopsNoLater` | src/std/rpc/ws_client/mod.rs:196-272 | waiting for less stops no later than waiting for finalization |
| `Keystore.FileNameInjective` | client-keystore/src/lib.rs:576-582 | no two keys share a file name |
| `Keystore.KeystoreInner.Open` | client-keystore/src/lib.rs:435-444 | a store over a directory starts with nothing in memory |
| `Keystore.KeystoreInner.InMemory` | client-keystore/src/lib.rs:455-461 | a store without directory or password |
| `Keystore.KeystoreInner.InsertUnknown` | client-keystore/src/lib.rs:480-486 | writes the file of a backed store, nothing otherwise |
| `Keystore.KeystoreInner.InsertEphemeralPair` | client-keystore/src/lib.rs:472-475 | changes the memory map only |
| `Keystore.KeystoreInner.GenerateByType` | client-keystore/src/lib.rs:492-501 | goes to disk if there is a directory, else to memory |
| `Keystore.KeystoreInner.InsertEphemeralFromSeed` | client-keystore/src/lib.rs:521-529 | derives without password; an invalid seed changes nothing |
| `Keystore.KeystoreInner.KeyPhraseByType` | client-keystore/src/lib.rs:532-550 | memory first, then the file |
| `Keystore.KeystoreInner.KeyPairByType` | client-keystore/src/lib.rs:553-571 | derives with the store's password and checks the public key |
| `Keystore.KeystoreInner.RawPublicKeys` | client-keystore/src/lib.rs:585-615 | returns exactly the listed keys, with their multiplicities over canonical names |
| `Keystore.KeystoreInner.Keys` | client-keystore/src/lib.rs:192-200 | offers every listed key, and nothing else, under each of the three schemes |
| `Keystore.KeystoreInner.SupportedKeys` | client-keystore/src/lib.rs:202-214 | keeps the given keys that are listed, in order |
| `Keystore.KeystoreInner.HasKeys` | client-keystore/src/lib.rs:359-368 | true iff every key is found |
| `Keystore.ListedIffFound` | client-keystore/src/lib.rs:532-615 | in any directory, listing and lookup agree on non-empty keys iff every spelt key is stored canonically |
| `Keystore.EmptyKeyListing` | client-keystore/src/lib.rs:598-609 | the empty public key is found on disk but never listed from it |
| `Keystore.LookupIsHistory` | client-keystore/src/lib.rs:532-550 | after any run lookup gives the last remembered, else the last written phrase |
| `Keystore.ListingIsHistory` | client-keystore/src/lib.rs:472-615 | after any run exactly the surviving keys of a type are listed, and they are those found |
| `Keystore.PairIsHistory` | client-keystore/src/lib.rs:553-571 | after any run: no pair iff nothing stored for the key survives, else pair, mismatch or invalid phrase by deriving the held phrase with the current password |
| `Keystore.FileOutcome` | client-keystore/src/lib.rs:532-571 | in any directory, a key not in memory is missing iff it has no file, and unreadable iff its file holds no phrase |
| `Keystore.PasswordIsLast` | client-keystore/src/lib.rs:435-453 | the password is that of the last reopening |
| `Keystore.SupportedIffHeld` | client-keystore/src/lib.rs:202-214 | after any run all given keys are supported iff all are held |
| `Keystore.GeneratedKeyPersists` | client-keystore/src/lib.rs:492-571 | after operations on other keys and reopenings, a generated key is derived from its own phrase, or from a seed of that key that was in memory before, until reopening |
| `Keystore.GeneratedKeyReturned` | client-keystore/src/lib.rs:492-571 | without such a seed, or once reopened, with a password that derives it, the generated pair is returned |
| `Keystore.SeedShadowsUntilReopen` | client-keystore/src/lib.rs:463-550 | through any run without reopening or another seed of the key, disk writes of it included, the seed is found; after reopening, the last phrase written |
| `Keystore.SeededKeyReturnedIff` | client-keystore/src/lib.rs:521-571 | through any such run the key is returned iff the store's password derives the same public key from the seed; always without password |
| `Keystore.SeededKeyMismatch` | client-keystore/src/lib.rs:521-571 | if the password derives another public key, the seed is found but the result is a mismatch |
| `Keystore.CapitalNameListedNotFound` | client-keystore/src/lib.rs:599-609 | a capital file name is listed but not found |

## Left out

- WebSocket connections, TLS, threads, logging, file permissions and other I/O failures: only message traces, FIFO channels and a map for the directory remain.
- JSON text parsing and the request builders: values start as a datatype; the text inside arrays and objects is an arbitrary function.
- `on_subscription_msg` and `on_get_request_msg`: each picks one field out of a JSON message and forwards it; streams start with the forwarded text.
- Hashing, signing, VRF and key derivation: arbitrary functions with the laws named in each statement.
- Codecs of era, address, signature, call and dispatch error: arbitrary lawful codecs; the skipped static message texts of dispatch errors and the error docs are not modelled.
- The messages inside codec errors are one `CodecError`.
- Cursors.DecodeType: says nothing about the cursor and the buffer after a failure, because every caller discards them.
- Cursors.DecodeRaw: says nothing about the cursor and the buffer after a failure, because every caller discards them.
- Cursors.DecodeEach: says nothing about the cursor and the buffer after a failure, because every caller discards them.
- Cursors.DecodeTimes: says nothing about the cursor and the buffer after a failure, because every caller discards them.
- EventDecoder.DecodeRawEvent: says nothing about the cursor after a failure, because every caller discards it.
- EventDecoder.DecodeEventRecord: says nothing about the cursor after a failure, because every caller discards it.
- EventDecoder.DecodeEventBatch: says nothing about the cursor after a failure, because every caller discards it.
- EventDecoder.DecodeRuntimeCall: says nothing about the cursor after a failure, because every caller discards it.
- Extrinsics.DecodeExtrinsic: says nothing about the cursor after a failure, because every caller discards it.
- Storage.ExtractIdentifier: says nothing about the cursor after a failure, because every caller discards it.
- Storage.ExtractMapIdentifier: says nothing about the cursor after a failure, because every caller discards it.
- Storage.ExtractDoubleMapIdentifier: says nothing about the cursor after a failure, because every caller discards it.
- Hex text is a sequence of characters, not of UTF-8 bytes; which hex error is returned is not distinguished.
- Lookups.SameRun: one way only; two lookups that disagree on the fields of a tag may still give the same runs, because different fields can have the same encodings. `Lookups.SameAcceptanceIff` gives the exact condition for the inputs accepted.
- `node-api/src/events.rs` is not compiled; `print_*`, `pretty_format`, constants, error conversions, the `Api` getters, the `RpseeClient` stub and the asynchronous keystore delegation are not modelled.
