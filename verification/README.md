# A model of the Hamma control-plane client

Hamma is a client for the Tailscale control plane. It upgrades an HTTP connection to a Noise
session, streams map responses over it and keeps a netmap, the local list of peers, from them.
Beside the client sits a contract checker that validates a small dependency graph and renders it
into documents. This project models the parts of both where state is merged, bytes are
reassembled or text is spliced, and proves what they promise for every input, every run and every
way the bytes of a connection may be split.

How the model is laid out:

- `Prelude`, `Keys`, `Capability`, `Config`, `Validate`: bytes and selections, typed hex keys, the
  version and its prologue, the range checks, and the well-formedness of server-supplied fields.
- `NetmapModel` gives the value a netmap holds and what each message does to it; `NetmapClient`
  holds the objects that are updated in place and meets it; `NetmapUpsert`, `NetmapPatch`,
  `NetmapFields`, `NetmapRemoval` and `NetmapRuns` prove what that amounts to; `NetmapHistory` says
  what a client holds in terms of the messages it was sent; `NetmapRedelivery`, `NetmapHarmless` and
  `NetmapHarmful` are about deltas delivered twice.
- `HeaderScan`, `Wire`, `ControlStream`: a stream is the bytes its peer has yet to deliver, and a
  read takes a positive but otherwise arbitrary number of them, up to its buffer. Every contract
  in these files therefore holds for every split.
- `NoiseSession`, `NoiseHandshake`, `ControlFrame`: the session, the handshake phases, the frames.
- `ControlExchange` is the requests over the session; `MapStream` puts the client together, from an
  untouched stream over registration to a netmap.
- `ContractGraph`, `ContractBlock`, `ContractApply`: the contract checker.

Conventions. A Rust string is the sequence of bytes of its UTF-8 encoding, since that is what the
key decoder indexes and what equality compares. Lengths and ids are unbounded integers; the 16-bit
and 32-bit length fields, the 64-bit saturating product and the 64-bit counter are written out.
Code the repository does not contain is a parameter: the address parsers, the UTF-8 test, the AEAD,
the handshake library, the decompressor and the JSON reader. Laws they must obey are named
predicates (`AddressesHaveNoSlash`, `Ideal`, `CounterBound`), and `NoiseSession.LawsAreConsistent`
shows that the cipher's laws can be met. I/O may fail at any call when `canFail` holds.

Where the code and its documentation part ways the model follows the code:

- A first map response drops `PeersChanged`, `PeersRemoved` and `PeersChangedPatch` without notice.
- The header cap is documented as a limit on the terminator's position. In the last three bytes
  below the cap the verdict also depends on where the reads happen to stop: for every validated
  configuration there are reads of the loop that accept and reads that reject, and reads of one
  byte always reject (`HeaderScan.ReadsDecideOnlyInBand`).
- Delivering a delta again is not always harmless (`NetmapHarmful.RotationBreaksRedelivery`,
  `NetmapHarmful.RemovalBreaksRedelivery`). A delta with a full list always is. One without is
  harmless on every netmap a client can hold exactly when four conditions hold
  (`NetmapHarmful.RedeliverableIff`), each of which can be read off the delta:
  - its removals name nobody, or every key that an empty netmap would admit from its changes is
    itself removed by key;
  - no last change to a key that stays is removed by its id;
  - no id that stays has a removed key as the last one its patches give it;
  - an id that stays and is given a key keeps out of the way of a changed key that stays: it is not
    given that key, and the last change to that key is not its own.

  Two kinds of delta have plainer conditions: those whose valid changes, if any, are all to keys they
  remove (`NetmapHarmful.SweptRedeliverableIff`) and those that rotate no key
  (`NetmapHarmful.UnrotatedRedeliverableIff`, `NetmapHarmful.ConditionOfShortLists`).
- Peer keys are not kept distinct by the code. `NetmapRuns.PatchKeepsDistinctIff` gives the guard
  that a patch lacks, `NetmapRuns.KeysStayDistinctIff` says exactly when a delta keeps keys distinct
  at every stage, and `NetmapRuns.KeysEndDistinctIff` exactly when it ends with distinct keys.
- After applying, the contract tool's own check is meant to be clean. It is exactly when no projected
  line contains a marker or a carriage return (`ContractApply.ApplyThenCheckIsClean`). A tracked
  evidence path may contain either, and `ContractApply.MarkedPathIsRefused` and
  `ContractApply.PathWithReturnDrifts` give such paths.

## Model

| member | source | states |
|---|---|---|
| Keys.HexEncode | crates/mitos/src/keys.rs:239-252 | the loop writes, for every byte, its two lower-case digits at their places |
| Keys.HexDecodeExact | crates/mitos/src/keys.rs:259-290 | the loop returns the decoded bytes, or the first failing check: odd length, wrong length, leftmost bad digit |
| Keys.KeyRoundTrip | crates/mitos/src/keys.rs:173-196 | for every kind and every 32-byte key, parsing the rendered key returns the key |
| Keys.AcceptedTexts | crates/mitos/src/keys.rs:188-196 | a text is accepted if and only if it is the kind's prefix and exactly 64 hex digits of either case |
| Keys.DigitValues | crates/mitos/src/keys.rs:239-290 | both cases of the sixteen digits have the values 0 to 15, and the lower case is written |
| Keys.KeyBytes | crates/mitos/src/keys.rs:271-290 | a key has 32 bytes, each read from two digits, the high one first |
| Keys.LengthErrors | crates/mitos/src/keys.rs:259-290 | a missing prefix, an odd and a wrong number of digits are each reported exactly when they are the first thing wrong |
| Keys.DecodeThenEncode | crates/mitos/src/keys.rs:173-196 | rendering a parsed key gives the text back with its digits in lower case |
| Keys.SameKeyIffSameUpToCase | crates/mitos/src/keys.rs:280-290 | two accepted texts are the same key exactly when they differ only in digit case |
| Keys.DigitErrorIsLeftmost | crates/mitos/src/keys.rs:271-290 | a digit error is reported exactly for the leftmost byte that is no digit, with its offset |
| Keys.KindsAreDisjoint | crates/mitos/src/keys.rs:205-230 | no text is a key of two kinds |
| Capability.ProloguesAgree | crates/mitos/src/capability.rs:55-75 | for every 16-bit version a responder that knows only the frame mixes in the initiator's prologue |
| Capability.ProloguesDistinct | crates/dictyon/src/noise/mod.rs:58-60 | two prologues are equal exactly when the versions are |
| Capability.LittleEndianReaderDisagrees | crates/mitos/src/capability.rs:45-58 | a little-endian reader agrees exactly on versions with two equal bytes, of which the advertised one is not |
| Config.ValidationIsExact | crates/mitos/src/config/mod.rs:295-334 | validation of either configuration passes exactly within the documented ranges; what passes never saturates the response cap and holds at most 128 KiB in a header read |
| Config.FirstFailureIsReported | crates/mitos/src/config/mod.rs:295-334 | the setting reported is the first that is out of its range, with that range and its value |
| Validate.FirstSlashIsEnough | crates/dictyon/src/control/validate.rs:56-83 | splitting at the first slash accepts exactly the texts that split into address and prefix length at some slash |
| Validate.ParseU8OfDecimal | crates/dictyon/src/control/validate.rs:75-77 | parsing a rendered number returns it up to 255 and refuses every larger one |
| Validate.ParsedNumbers | crates/dictyon/src/control/validate.rs:75-77 | a prefix length parses exactly if it is digits after a sign or none, and its value is theirs |
| Validate.RenderedCidr | crates/dictyon/src/control/validate.rs:68-83 | address, slash and rendered prefix length are accepted exactly when the address is and its family allows the length |
| Validate.ValidIsWellFormed | crates/dictyon/src/control/validate.rs:26-83 | a node passes exactly if each key is its prefix and 64 digits, each address a CIDR text within 32 or 128 bits, and each endpoint a socket address |
| NetmapUpsert.UpsertClosedForm | crates/dictyon/src/control/netmap.rs:116-136 | the upsert loop in closed form: old keys stay in place, new ones append while there is room, each key's first position holds its last valid change, all else is untouched |
| NetmapUpsert.ClosedFormIsUnique | crates/dictyon/src/control/netmap.rs:116-136 | the closed form determines the list |
| NetmapUpsert.KeptKeysWithinCap | crates/dictyon/src/control/netmap.rs:131-135 | the final number of peers is the smaller of the cap and the old number plus the new keys |
| NetmapUpsert.NewKeysInArrivalOrder | crates/dictyon/src/control/netmap.rs:122-136 | new keys are distinct, are exactly the valid keys not held, and keep the order of first arrival |
| NetmapUpsert.TallyConserves | crates/dictyon/src/control/netmap.rs:117-136 | updated, appended, refused and rejected add up to the entries sent, and each count follows from the input and the final list |
| NetmapClient.Netmap.UpsertPeers | crates/dictyon/src/control/netmap.rs:115-149 | the loop leaves the closed form and counts the refused and the rejected entries |
| NetmapClient.Netmap.ApplyPeerChange | crates/dictyon/src/control/netmap.rs:173-227 | the first peer with the id takes on each field that passes its check, nothing else changes |
| NetmapClient.Netmap.RemovePeers | crates/dictyon/src/control/netmap.rs:151-155 | the sweep through the index leaves the peers a scan of the list would leave |
| NetmapClient.Netmap.ApplyDelta | crates/dictyon/src/control/netmap.rs:92-170 | the new netmap as a function of the old one and the message |
| NetmapClient.Netmap.FromFullResponse | crates/dictyon/src/control/netmap.rs:54-86 | the first netmap as a function of the message, satisfying the invariant |
| NetmapClient.ControlClient.ApplyMapResponse | crates/dictyon/src/control/mod.rs:394-403 | keep-alives change nothing, the first other message makes the netmap, later ones update it, and the invariant is kept |
| NetmapPatch.PatchClosedForm | crates/dictyon/src/control/netmap.rs:157-161 | a patch list keeps length, order and ids; the first peer of each id takes, per field, the last acceptable value sent for that id |
| NetmapPatch.PatchOrderWithinIdOnly | crates/dictyon/src/control/netmap.rs:157-161 | two patch lists that agree per id have the same effect |
| NetmapPatch.PatchesCommute | crates/dictyon/src/control/netmap.rs:173-227 | patches to different ids commute |
| NetmapPatch.PatchesToOneIdCollapse | crates/dictyon/src/control/netmap.rs:173-227 | patches to one id equal one patch with the last acceptable value per field |
| NetmapPatch.PatchAllAbsorbs | crates/dictyon/src/control/netmap.rs:157-161 | a patch list applied a second time changes nothing |
| NetmapFields.PatchedFields | crates/dictyon/src/control/netmap.rs:173-227 | field by field, the first peer of an id takes the last acceptable value sent for that id, or keeps its own; its other fields and all other peers are untouched |
| NetmapFields.ForIdInOrder | crates/dictyon/src/control/netmap.rs:157-174 | the patches for an id are those of the list that name it, in order |
| NetmapRemoval.BuildIndex | crates/dictyon/src/control/netmap.rs:292-325 | the index names exactly the peers that a scan of the removal list names |
| NetmapRemoval.SurvivorsInOrder | crates/dictyon/src/control/netmap.rs:151-155 | exactly the peers not named survive, in their order |
| NetmapRemoval.AdmittedAreFirstValid | crates/dictyon/src/control/netmap.rs:271-284 | a whole list is cut to its first 10,000 valid peers, in order |
| NetmapRemoval.RemovedStayRemoved | crates/dictyon/src/control/netmap.rs:151-161 | after a delta no peer has a removed id, and one has a removed key only if a patch of that delta rotated it there |
| NetmapRuns.SanitizeKeepsValid | crates/dictyon/src/control/netmap.rs:257-269 | sanitising keeps exactly the valid resolvers, in order, and leaves the domains alone |
| NetmapRuns.DeltaKeepsInv | crates/dictyon/src/control/netmap.rs:92-227 | every delta keeps peers valid and within the cap, the self node zero or valid and never less, resolvers valid |
| NetmapRuns.RunKeepsInv | crates/dictyon/src/control/mod.rs:386-403 | every state any run of responses reaches satisfies that invariant |
| NetmapRuns.InvIsReached | crates/dictyon/src/control/mod.rs:386-403 | every netmap that satisfies it is reached, by one full response, so the invariant is exactly what a client can hold |
| NetmapRuns.RunIsMonotone | crates/dictyon/src/control/mod.rs:394-403 | a netmap never goes away again and a valid self node stays valid |
| NetmapRuns.KeepAlivesAreInvisible | crates/dictyon/src/control/mod.rs:395-397 | dropping the keep-alives from a run changes no state, and the netmap exists exactly from the first other message on |
| NetmapHistory.RunAppliesEach | crates/dictyon/src/control/mod.rs:386-403 | whatever a client was sent before, each message that is no keep-alive is applied to the peers it holds: a full list cut to its first 10,000 valid peers, changes upserted, named peers removed, patches applied field by field, in this order; the first message has only its full list taken |
| NetmapHistory.RunHoldsLatest | crates/dictyon/src/control/mod.rs:386-403 | after any run the self node is the last valid one sent or zero-valued, the DNS config the last one sent, sanitised, and the DERP map the last one sent |
| NetmapHistory.RunPeersAreWellFormed | crates/dictyon/src/control/mod.rs:386-403 | after any run there are at most 10,000 peers and every field of each is well-formed |
| NetmapRuns.IngestionPathsAgree | crates/dictyon/src/control/netmap.rs:54-113 | a first message equals the delta of its list fields on an empty netmap |
| NetmapHarmful.RedeliverableIff | crates/dictyon/src/control/netmap.rs:92-227 | for every delta without a full list: delivering it again changes no netmap if and only if it removes nobody or only what it admits anew, no last change to a key that stays goes by its id, no id that stays ends with a removed key, and rotations and changes keep out of each other's way |
| NetmapHarmful.SweptRedeliverableIff | crates/dictyon/src/control/netmap.rs:92-227 | for every delta without a full list whose valid changes, if any, are all to keys it removes: delivering it again changes no netmap if and only if no id that stays has a removed key as its last accepted one |
| NetmapRedelivery.FullListIsRedeliverable | crates/dictyon/src/control/netmap.rs:92-170 | a delta with a full list changes nothing when delivered again, on any netmap |
| NetmapHarmful.UnrotatedRedeliverableIff | crates/dictyon/src/control/netmap.rs:92-227 | for every delta without a full list that rotates no key: delivering it again changes no netmap if and only if its removals name nobody, or every key an empty netmap would admit is removed by key and no other change is removed by id |
| NetmapHarmful.ConditionOfShortLists | crates/dictyon/src/control/netmap.rs:116-155 | for at most 10,000 changes the second alternative is that every valid change is to a removed key |
| NetmapHarmless.RedeliveryIsNoOp | crates/dictyon/src/control/netmap.rs:92-227 | the sufficient half on every list of peers within the cap; they need be valid only where the removals are harmless for naming nobody valid |
| NetmapHarmless.NewKeysFiltered | crates/dictyon/src/control/netmap.rs:122-136 | the keys new to a netmap are those new to an empty one, in order, less the ones held |
| NetmapHarmful.RotationBreaksRedelivery | crates/dictyon/src/control/netmap.rs:197-203 | with a rotation there is a delta whose second delivery changes the netmap |
| NetmapHarmful.RemovalBreaksRedelivery | crates/dictyon/src/control/netmap.rs:151-155 | with a removal there is a delta whose second delivery changes the netmap |
| NetmapRuns.PatchKeepsDistinctIff | crates/dictyon/src/control/netmap.rs:173-203 | one patch keeps distinct keys distinct if and only if it does not move its target onto a key another peer holds |
| NetmapRuns.PatchesKeepDistinctIff | crates/dictyon/src/control/netmap.rs:157-161 | keys are distinct before, between and after the patches of a list if and only if none of them collides where it is applied |
| NetmapRuns.KeysStayDistinctIff | crates/dictyon/src/control/netmap.rs:92-161 | keys are distinct after every stage of a delta if and only if the list it starts from has distinct keys and no patch collides |
| NetmapRuns.PatchesEndDistinctIff | crates/dictyon/src/control/netmap.rs:157-161 | a patch list leaves distinct keys distinct if and only if it moves no peer onto the key another one ends up with |
| NetmapRuns.KeysEndDistinctIff | crates/dictyon/src/control/netmap.rs:92-161 | a delta that starts from distinct keys ends with distinct keys if and only if its patches do not collide in that way |
| NetmapRuns.RotationCanCollide | crates/dictyon/src/control/netmap.rs:197-203 | a rotating patch can give two peers one key |
| HeaderScan.ResumedScanIsFullScan | crates/dictyon/src/wire/support.rs:366-374 | resuming three bytes back finds what a search of the whole buffer finds |
| HeaderScan.ScanAnswersForStream | crates/dictyon/src/wire/support.rs:332-344 | each turn's search answers for the whole stream, and agrees with the search made afterwards |
| HeaderScan.HeaderEndIsFirstBlankLine | crates/dictyon/src/wire/support.rs:366-374 | the search finds the first carriage return, line feed, carriage return, line feed |
| HeaderScan.VerdictMeans | crates/dictyon/src/wire/support.rs:332-363 | whatever the sizes of the reads, an accepted block starts within the cap and is held with at most one chunk beyond it, and one is too large only if no terminator ends by the byte after the cap |
| HeaderScan.VerdictBySplit | crates/dictyon/src/wire/support.rs:332-363 | the loop accepts if and only if the terminator starts within the cap, is reached, and no read stops beyond the cap and short of its end; it waits exactly while the reads stop before both |
| HeaderScan.AcceptableIff | crates/dictyon/src/wire/support.rs:332-363 | reads within the chunk that accept exist if and only if the terminator starts within the cap and ends within the cap and one chunk |
| HeaderScan.RejectableIff | crates/dictyon/src/wire/support.rs:346-350 | reads within the chunk that reject exist if and only if the stream is longer than the cap and no terminator ends by the byte after it |
| HeaderScan.ReadsDecideOnlyInBand | crates/dictyon/src/wire/support.rs:336-350 | up to three bytes below the cap all reads accept, above it all reject, in between both occur for chunks of four bytes or more and byte by byte all reject; no reads leave the verdict open for ever |
| Wire.TakePending | crates/dictyon/src/wire/support.rs:213-221 | moves the front of the buffer out, as much as fits, and keeps the rest |
| Wire.FillFrom | crates/dictyon/src/wire/support.rs:256-267 | buffer and stream act as one sequence, of which exactly the first bytes are taken |
| Wire.ReadNoiseResponseFrame | crates/dictyon/src/wire/support.rs:234-253 | returns the first frame of buffer and stream together and hands on every byte beyond it |
| Wire.ReadUntilHeaderEnd | crates/dictyon/src/wire/support.rs:322-364 | the result is the verdict of the loop on the sizes its reads delivered, each within the chunk; accepted bytes and those left are the stream; an end of stream means no terminator within the cap; at most the cap and one chunk is taken |
| Wire.ReadUpgradeResponse | crates/dictyon/src/wire/support.rs:275-313 | splits at the first terminator of the stream; its own search for the terminator never fails; each error says what is so of the stream |
| Wire.PushWithinLimit | crates/dictyon/src/wire/support.rs:382-394 | refuses exactly what would exceed the limit and then leaves the buffer alone |
| Wire.ReadFullResponse | crates/dictyon/src/wire/support.rs:397-417 | returns the whole response if it fits the limit and refuses it otherwise, for every split |
| ControlStream.AsyncControlStream.FillExact | crates/dictyon/src/wire/mod.rs:234-242 | takes exactly the next unconsumed bytes |
| ControlStream.AsyncControlStream.RecvMessage | crates/dictyon/src/wire/mod.rs:283-322 | the next message of the unconsumed bytes, decrypted, or exactly the error those bytes give, and in each case what stays unconsumed |
| ControlStream.NextMessageOf | crates/dictyon/src/wire/mod.rs:283-322 | a message is three header bytes, type 4, a big-endian length, and that many bytes; another type and an early end are told apart as in the source |
| ControlStream.AsyncControlStream.SendMessage | crates/dictyon/src/wire/mod.rs:250-272 | writes one sealed frame, or nothing and keeps the counter when the payload is too large |
| ControlStream.AsyncControlStream.RecvMany | crates/dictyon/src/wire/mod.rs:283-322 | repeated receiving is a run over the bytes there were, and stops early only where they hold no next message |
| ControlStream.OnWireConcat | crates/dictyon/src/wire/mod.rs:250-272 | frames written in two goes are the frames of both, under consecutive counter values |
| ControlStream.ReceivesPlaintexts | crates/dictyon/src/wire/mod.rs:283-322 | any run of receives over sealed frames returns the plaintexts in order and leaves exactly what follows them |
| ControlStream.FramePassesLengthChecks | crates/dictyon/src/noise/mod.rs:282-303 | a frame taken off the stream passes the length checks of the handshake |
| ControlStream.ReadReply | crates/dictyon/src/wire/support.rs:93-105 | the status line is checked, the response frame is the peer's first frame, and every byte beyond it is handed on |
| ControlStream.Connect | crates/dictyon/src/wire/support.rs:73-130 | set-up writes the upgrade request with the initiation in it, and nothing if that is refused; it ends with the keys and the unconsumed bytes that the peer's bytes determine, and succeeds whenever they do and the headers keep clear of the cap |
| ControlStream.ReplyRoundTrip | crates/dictyon/src/wire/support.rs:93-105 | a reply put together from headers, response frame and rest is parsed into those |
| NoiseSession.NoiseTransport.Encrypt | crates/dictyon/src/noise/mod.rs:342-372 | accepts exactly what fits, seals it under the next counter value in a frame of its own length; a refusal leaves the counter alone |
| NoiseSession.NoiseTransport.Decrypt | crates/dictyon/src/noise/mod.rs:383-407 | opens under the next counter value and advances it only on success |
| NoiseSession.SentIsAccepted | crates/dictyon/src/noise/mod.rs:342-372 | over any mix of accepted and refused messages the wire carries the accepted ones, under consecutive counter values, each within 16 bits |
| NoiseSession.AcceptedMessagesArrive | crates/dictyon/src/noise/mod.rs:383-407 | an in-order receiver decrypts exactly the accepted messages |
| NoiseSession.AnyScheduleYieldsPrefix | crates/dictyon/src/noise/mod.rs:383-407 | fed the ciphertexts in any order, with losses and repeats, a receiver outputs a prefix of what was sent |
| NoiseSession.ValidatedLimit | crates/mitos/src/config/mod.rs:440-451 | under a validated configuration the payload limit alone decides |
| NoiseSession.CeilingIsExact | crates/mitos/src/config/mod.rs:103-111 | the payload limit is honoured for all messages exactly up to the ceiling |
| NoiseHandshake.NoiseHandshake.InitiationMessage | crates/dictyon/src/noise/mod.rs:183-250 | the new phase and the frame or error; every failure leaves the completed phase |
| NoiseHandshake.NoiseHandshake.ProcessResponse | crates/dictyon/src/noise/mod.rs:261-319 | a transport with fresh counters exactly when the response is accepted, and the completed phase always |
| NoiseHandshake.PhaseIsMonotone | crates/dictyon/src/noise/mod.rs:129-140 | over any call sequence the phase never moves backwards |
| NoiseHandshake.FrameOnlyFromFirstCall | crates/dictyon/src/noise/mod.rs:183-199 | only the first call can return an initiation frame |
| NoiseHandshake.TransportOnlyFromInitiateRespond | crates/dictyon/src/noise/mod.rs:183-319 | a call returns a transport exactly when it is the second, after one successful initiation, with an accepted response |
| NoiseHandshake.InitiationBindsVersion | crates/dictyon/src/noise/mod.rs:218-236 | the initiation frame lets a responder rebuild the prologue and the message |
| NoiseHandshake.InitiationMixesPrologue | crates/dictyon/src/noise/mod.rs:200-236 | a successful initiation begins with the machine key, the server key and the prologue a responder rebuilds from the frame, "Tailscale Control Protocol v71", frames the message written and keeps the state left |
| NoiseHandshake.InitiationFails | crates/dictyon/src/noise/mod.rs:183-235 | each failure of an initiation happens exactly when it should, and leaves the completed phase |
| NoiseHandshake.ResponseIsRead | crates/dictyon/src/noise/mod.rs:275-312 | a response in turn is checked for length, type and truncation in this order; its declared body is read in the state the initiation kept, and the keys are those the library ends with |
| NoiseHandshake.ResponseOutOfTurn | crates/dictyon/src/noise/mod.rs:261-275 | out of turn a response is refused, for one reason before the initiation and another afterwards |
| NoiseHandshake.ValidatedScratchFits | crates/dictyon/src/noise/mod.rs:210-230 | under a validated configuration the initiation never overflows its length field |
| ControlFrame.FrameMessage | crates/dictyon/src/control/mod.rs:455-474 | frames every payload below 2^32 bytes and refuses the others |
| ControlFrame.ExtractUndoesFrame | crates/dictyon/src/control/mod.rs:344-365 | extraction returns the framed payload whatever follows it |
| ControlFrame.FrameOfExtracted | crates/dictyon/src/control/mod.rs:344-365 | what extracts begins with the framing of what came out |
| ControlFrame.FramesArePrefixFree | crates/dictyon/src/control/mod.rs:455-461 | no frame is a proper prefix of another |
| ControlFrame.ConcatenationsDecodeUniquely | crates/dictyon/src/control/mod.rs:447-461 | a concatenation of frames has one reading |
| ControlFrame.FrameAndEncrypt | crates/dictyon/src/control/mod.rs:280-282 | under a validated configuration framing and sending succeeds exactly when payload and prefix fit the limit, and the peer gets the payload back |
| ControlFrame.ParseOfFrame | crates/dictyon/src/control/mod.rs:344-370 | a framed payload, compressed or not, parses to the response it carries |
| ControlFrame.ParsedBytes | crates/dictyon/src/control/mod.rs:344-370 | for any bytes: a little-endian length, the payload it declares, inflated if and only if it opens with 28 b5 2f fd, read as JSON; each error exactly |
| ControlExchange.SendRequest | crates/dictyon/src/control/mod.rs:272-284 | a request goes out as one sealed frame, or is refused unsent exactly when it does not fit |
| ControlExchange.Exchange | crates/dictyon/src/control/mod.rs:202-222 | one request written as one sealed frame, and the next message in answer |
| ControlExchange.RequestsAreRead | crates/dictyon/src/control/mod.rs:202-284 | a server that receives what was asked gets the requests back, in order |
| ControlExchange.Register | crates/dictyon/examples/connect.rs:149-163 | registration is a run of receives over the bytes there were: complete on success, stopped short by an unreadable or missing answer otherwise; it writes its request and, exactly if the first answer demands it, the follow-up made from that answer |
| ControlExchange.AnswersAreTaken | crates/dictyon/src/control/mod.rs:202-261 | with a server that answers, registration takes exactly its answers and leaves exactly what follows |
| MapStream.RecvMapUpdate | crates/dictyon/src/control/mod.rs:294-308 | applies the next response of the unconsumed bytes; a failure leaves the netmap as it was |
| MapStream.StreamMap | crates/dictyon/examples/connect.rs:199-217 | the map request is written; the loop applies a run of the updates the bytes spell, the netmap after each is that of the run so far, and it fails only at a fault, a request that does not fit or bytes with no next update |
| MapStream.UpdatesAreSent | crates/dictyon/src/control/mod.rs:294-308 | any run of updates over a server's stream is the responses it sent, in order, as far as both go, does not stop before them, and then finds exactly what follows |
| MapStream.Converse | crates/dictyon/examples/connect.rs:134-145 | over an established connection, registration, map request and updates are a trace over the bytes there were, and what is written is what the trace asks |
| MapStream.Session | crates/dictyon/examples/connect.rs:111-145 | from an untouched stream, over set-up, registration and map request, the client passes through the netmaps of the run its bytes spell, however they are split, and fails only where they hold nothing further that can be read; it writes the upgrade request and then its requests, sealed under 0, 1, 2 |
| MapStream.SetUpIsUnderstood | crates/dictyon/src/wire/support.rs:93-122 | on the bytes of a server that does its part set-up succeeds and leaves exactly its sealed messages |
| MapStream.SpeechIsUnderstood | crates/dictyon/src/control/mod.rs:202-308 | any trace of registration and updates over those messages holds what the server sent, and ends short only after all of it |
| MapStream.ServedSession | crates/dictyon/examples/connect.rs:111-217 | with such a server, however its bytes are split, a session passes through the netmaps of the responses sent, reaches the last of them without I/O faults, and stays there if nothing follows; the netmap satisfies the invariant, and the server is asked exactly what it answered |
| ContractGraph.GraphChecker.Visit | tools/render_phase_a.py:263-276 | the recursive search keeps its finishing order topological, restores the visiting set and raises only true complaints |
| ContractGraph.GraphChecker.Search | tools/render_phase_a.py:260-279 | the search accepts exactly the acyclic graphs without unknown names |
| ContractGraph.CheckNode | tools/render_phase_a.py:283-293 | one node passes exactly when each of its dependencies is declared strictly earlier, and complete if the node is |
| ContractGraph.ValidateGraph | tools/render_phase_a.py:257-293 | accepts exactly when each dependency is declared strictly earlier, and complete whenever its dependent is; every complaint is true of the contract |
| ContractGraph.WellOrderedIsAcyclic | tools/render_phase_a.py:278-289 | the search never objects to what the later checks accept |
| ContractGraph.CompletionIsClosed | tools/render_phase_a.py:290-293 | in an accepted graph completion is closed under transitive dependencies |
| ContractBlock.SpliceOccurrences | tools/render_phase_a.py:879-880 | no marker straddles a splice boundary |
| ContractBlock.AcceptedIffBounded | tools/render_phase_a.py:866-878 | a document is accepted exactly when it has one marker of each kind in the right order |
| ContractBlock.RefusalReasons | tools/render_phase_a.py:866-878 | which of the two refusals is raised, each exactly |
| ContractBlock.ReplaceTwice | tools/render_phase_a.py:864-880 | replacing twice is replacing once with the later block |
| ContractBlock.ReplaceIsFixedPoint | tools/render_phase_a.py:864-880 | replacing again changes nothing |
| ContractBlock.OutputAcceptedIffBlock | tools/render_phase_a.py:864-880 | for text from marker to marker the output is accepted again exactly when no other marker is inside |
| ContractBlock.ProjectionIsBlockIff | tools/render_phase_a.py:766-809 | the projection is such a block exactly when no line between its markers contains a marker |
| ContractBlock.JoinedSplits | tools/render_phase_a.py:809 | joining lines and splitting at the line feeds gives the lines back |
| ContractApply.ContainsRead | tools/render_phase_a.py:865 | reading a text, which turns carriage returns into line feeds, neither makes nor breaks a marker |
| ContractApply.ReadBreaks | tools/render_phase_a.py:865 | each of the three line breaks is read as one line feed |
| ContractApply.CheckRunIff | tools/render_phase_a.py:883-907 | for any files, checking is clean exactly if every document holds the rendered block between one marker of each kind, refused exactly if one has not one of each in order, drifted otherwise |
| ContractApply.SecondRun | tools/render_phase_a.py:864-880 | a document just written is accepted again exactly without markers in the projected lines, and is then as wanted exactly without carriage returns in them |
| ContractApply.ApplyThenCheckIsClean | tools/render_phase_a.py:883-941 | applying ends clean if and only if no projected line contains a marker or a carriage return; with a marker the tool refuses what it wrote, otherwise it reports drift |
| ContractApply.MarkedPathIsRefused | tools/render_phase_a.py:781-809 | an evidence path with a marker in it is written and then refused |
| ContractApply.PathWithReturnDrifts | tools/render_phase_a.py:781-809 | an evidence path with a carriage return is written and then reported as drift |

## Left out

- Keys.HexDecodeExact: error values carry no text, so the truncation of a rejected input in a missing-prefix error is not modelled.
- NoiseSession.NoiseTransport.Encrypt: running out of counter values is not modelled; a session is taken to send fewer than 2^64 - 1 messages.
- Wire.ReadFullResponse: on a target where lengths saturate the sum of two buffer lengths is taken as exact.
- NetmapHarmful.RedeliverableIff: for fewer than 2^64 changes and removals, more than any memory holds, since the converse needs a valid key outside them.
- NetmapHarmful.SweptRedeliverableIff: for fewer than 2^64 removals, for the same reason.
- NetmapHarmful.UnrotatedRedeliverableIff: for fewer than 2^64 changes, for the same reason.
- ControlExchange.Register: what an answer means is a parameter; the classification of registration responses would only add easy members.
- TCP, TLS, name resolution, scheduling and the connect deadline: the byte stream is all that is modelled.
- The insides of the cipher, the handshake library, decompression, base64, JSON and address parsing.
- Zeroisation, redaction, logging and error texts.
- `parse_host_port`, the building of the upgrade request and the JSON of the other requests, which would only add easy members.
- The parts of the contract tool that read files, run git, follow links or hash, and the atomic replacement of files.
- The content of the projected lines but for the evidence cell; only their joining, the markers and carriage returns are modelled.
- ContractApply.ApplyThenCheckIsClean: text is written as it is, as on POSIX systems; the generated state file, whose strings are escaped, is not modelled.
