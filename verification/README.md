# construct-veil, modelled in Dafny

A verified model of the parts of construct-veil whose correctness is hardest to see from
the code: the veil-front data plane end to end, the front-loaded chaff scheduler, the
connection state machine with its probe race and session slot, the score store, the
relay's admission control and warning limiter, and the capability records.

`dafny verify dfyconfig.toml` checks everything. There is one module per component:

| module | what it models |
|---|---|
| `Bytes` | buffers, pieces of a byte stream, end-of-file |
| `Varint`, `Framing` | unsigned LEB128 (section 7.6 of DWARF 5) and the frame codec |
| `Streams` | decode loops over any byte stream: chunking, DATA carried over hops |
| `Padding`, `Session`, `Ferry` | chaff scheduler and write strategy, sans-IO session, the client's two loops |
| `Probe` | the probe's read loop and its verdict |
| `Capability`, `Gate` | capability records, AUTH v2 and v3, and the relay's gate |
| `Tunnel`, `Chain` | the relay's tunnel loops and the two-hop ferries |
| `EndToEnd` | all of the data plane composed |
| `Methods`, `Selection`, `Reducer` | method set, scores, candidate selection, the state machine and its runs |
| `Coordinator`, `SessionSlot` | one start of a session; the slot of the active session under every interleaving |
| `ScoreStore` | one row of the score store against the history of outcomes |
| `WarnLimiter`, `Admission` | the lock-free warning limiter; permits and the per-peer cap |

The main results:

- **Transparency** (`EndToEnd`). For every schedule of local reads, every clock, every chaff
  and every cut of the wire at each hop, the backend gets exactly the local bytes, in order
  and once, and the client exactly the backend's; over one relay or a chain of two. The
  tunnel opens exactly when the AUTH frame is authorised and complete by the gate's second
  read; otherwise the cover site gets every byte read.
- **Confluence** (`Streams`). Decoding in any chunks gives the frames, the residue and the
  error of decoding the whole; `Framing.DecodeExactly` and the four varint lemmas say
  exactly what is decoded, from which bytes.
- **Bounded chaff** (`Ferry`). Over a tunnel's whole life the client sends at most 150 chaff
  frames (614,400 bytes), never within 5 ms after payload, and its timer fires at most 151
  times; it sleeps through every later idle tick without losing anything.
- **Runs of the state machine** (`Reducer`), **every arrival order** of probe results
  (`Coordinator`), **every interleaving** of installs, stops and task exits (`SessionSlot`)
  and of limiter calls (`WarnLimiter`).
- **Refinement** (`ScoreStore`). The row tells the history; both blocked checks agree with
  the history and with each other.
- **Exact inverses** (`Capability`). `decode_payload` accepts exactly the images of
  `encode_payload`; the signed messages are injective and disjoint; an honest record
  verifies, and opens a tunnel, exactly under the stated conditions.

Time is in integer nanoseconds, scores are reals, sockets are sequences of pieces, threads
are interleaved atomic steps. Clocks, random draws, socket reads, probe results and the
outcome of binding a listener are parameters, and every result is for all their values.
Ed25519 and HMAC are function values: what is assumed of them is a `requires` of the lemma
that uses it. A signature is assumed ideal only among the messages at hand (`IdealAmong`),
which a 64-byte signature can satisfy. The ferries take an operating-system
error as the end of that socket's input.

Where the code and its comments disagree, the model follows the code:

- The comment on the length buckets promises at most 16 record sizes
  (`crates/construct-veil-protocol/src/framing.rs:54-58`). Header lengths vary inside a
  bucket: `Framing.BucketsDoNotFixRecordLength` is an instance and
  `Framing.SameRecordLengthExactly` the exact condition.
- The comment on hour rounding says it changes no verdict (`src/veil/scoring.rs:151-153`). It
  ends a block up to an hour early, and when the clock is set back within the hour it
  imposes one that exact times would not (`ScoreStore.RoundingChangesAVerdict`, with the
  exact condition in `ScoreStore.RoundingEndsEarly`); it pays the recency bonus only within a clock hour
  (`ScoreStore.BonusOnlyThisHour`) and starts failure penalties already decayed
  (`ScoreStore.FullPenaltyExactly`).

## Model

| member | source | states |
|---|---|---|
| Varint.RoundTrip | crates/construct-veil-protocol/src/varint.rs:16-33 | every u64 encodes to at most ten bytes that decode to it, whatever follows |
| Varint.EncodeMeans | crates/construct-veil-protocol/src/varint.rs:12-33 | the bytes are seven-bit groups, least significant first, that spell the value; the continuation bit on all but the last, no superfluous last group |
| Varint.ValueExactly | crates/construct-veil-protocol/src/varint.rs:55-86 | `Value(v, n)` if and only if the first n bytes are the encoding of v: overlong and overflowing forms are never values |
| Varint.Stable | crates/construct-veil-protocol/src/varint.rs:55-86 | a value or a malformation does not change when bytes are appended |
| Varint.IncompleteExactly | crates/construct-veil-protocol/src/varint.rs:37-46 | `Incomplete` if and only if the bytes decide nothing yet and some extension completes them |
| Varint.MalformedExactly | crates/construct-veil-protocol/src/varint.rs:37-46 | `Malformed` if and only if no extension is ever a value |
| Varint.IncompleteIsPrefix | crates/construct-veil-protocol/src/varint.rs:37-46 | an incomplete buffer is the encoding of some u64 short of its last byte |
| Varint.EncodeVarint | crates/construct-veil-protocol/src/varint.rs:16-33 | the encoding loop appends exactly the encoding and returns its length |
| Varint.DecodeVarintChecked | crates/construct-veil-protocol/src/varint.rs:55-86 | the decoding loop gives the specified verdict |
| Framing.PickBucket | crates/construct-veil-protocol/src/framing.rs:65-72 | the loop finds the first bucket that holds the payload, or gives the length back |
| Framing.BucketForIsLeast | crates/construct-veil-protocol/src/framing.rs:63-72 | on an ascending table that bucket is the least that holds the payload |
| Framing.Encode | crates/construct-veil-protocol/src/framing.rs:227-246 | the encoder appends the frame's image with zero padding up to its bucket |
| Framing.Decode | crates/construct-veil-protocol/src/framing.rs:276-343 | the decoder takes exactly one frame off the buffer, or leaves the buffer untouched |
| Framing.DecodeExactly | crates/construct-veil-protocol/src/framing.rs:276-343 | a frame and a rest come out if and only if the buffer is an image of that frame, under padding the limits allow, followed by the rest |
| Framing.RoundTrip | crates/construct-veil-protocol/src/framing.rs:230-343 | any encoder's frame with any suffix decodes to the frame and that suffix if payload and pad fit the decoder's limit, and is an error otherwise |
| Framing.BucketedRoundTrip | crates/construct-veil-protocol/src/framing.rs:45-61 | with the default codecs, every payload up to 1 MiB round-trips |
| Framing.DecodeStable | crates/construct-veil-protocol/src/framing.rs:276-343 | a decoded frame or an error never changes when bytes are appended; the rest grows by them |
| Framing.DecodePrefix | crates/construct-veil-protocol/src/framing.rs:276-343 | no strict prefix of a frame decodes to anything; the whole frame does, and leaves what follows |
| Framing.NeedMoreIsUnfinished | crates/construct-veil-protocol/src/framing.rs:276-343 | "need more" is only said of bytes that some frame strictly continues |
| Framing.UnfinishedNeedsMore | crates/construct-veil-protocol/src/framing.rs:276-343 | and it is said of every frame within the limits cut short at any byte, for every codec and padding |
| Framing.ErrorExactly | crates/construct-veil-protocol/src/framing.rs:250-343 | each of the six errors is reported if and only if the bytes have that fault: version, a length no u64 continues, a length over the limit, a total past the word size |
| Framing.PadIsZero | crates/construct-veil-protocol/src/framing.rs:236-244 | the payload is followed by zeros, as many as the padding |
| Framing.WireVector | crates/construct-veil-protocol/src/framing.rs:210-222 | one frame byte by byte |
| Framing.WordSizeIrrelevant | crates/construct-veil-protocol/src/framing.rs:257-270 | for any limit up to 0x7FFF0000, 32-bit and 64-bit targets decode every buffer alike |
| Framing.BucketedLength | crates/construct-veil-protocol/src/framing.rs:59-72 | payloads up to 16384 travel as their minimal bucket plus a header of 4 to 6 bytes, given exactly |
| Framing.ReadFitsRecord | crates/construct-veil-protocol/src/framing.rs:227-246 | a DATA frame from one 8192-byte read stays below the 16384-byte record limit |
| Framing.SameRecordLengthExactly | crates/construct-veil-protocol/src/framing.rs:47-61 | two payloads of a bucket have one record length if and only if their length fields add up the same |
| Framing.BucketsDoNotFixRecordLength | crates/construct-veil-protocol/src/framing.rs:54-61 | 65 and 128 payload bytes share a bucket and differ on the wire |
| Streams.DrainAppend | crates/construct-veil-protocol/src/framing.rs:276-343 | draining, then feeding more, is draining the concatenation |
| Streams.ChunkingConfluence | crates/construct-veil-protocol/src/framing.rs:276-343 | any chunking of any byte stream gives the frames, residue and error of the whole |
| Streams.ResidueIsStuck | crates/construct-veil-protocol/src/framing.rs:276-343 | what a decode loop leaves behind holds no further frame |
| Streams.DeliveredOfEncoded | crates/construct-veil-protocol/src/framing.rs:230-343 | a bucketed stream decodes to its own frames and delivers exactly its DATA |
| Streams.HopTransparency | crates/construct-veil-relay/src/chain.rs:222-264 | for any bytes a peer sends, even bad ones, the next hop decodes to exactly the DATA frames before the first error and nothing else |
| Streams.TruncationDeliversPrefix | crates/construct-veil-relay/src/tunnel.rs:201-253 | a stream cut short delivers a prefix of what it would have delivered |
| Padding.FrontChaffScheduler.constructor | src/veil/veil_front/padding/mode0_front.rs:72-107 | 64 queued chaff frames of bucket sizes, nothing sent |
| Padding.FrontChaffScheduler.OnPayloadSent | src/veil/veil_front/padding/mode0_front.rs:193-196 | restarts the cooldown and changes nothing else about chaff |
| Padding.FrontChaffScheduler.PollChaff | src/veil/veil_front/padding/mode0_front.rs:114-231 | an idle poll yields chaff exactly when cooled down and inside the window or with queued frames left; the whole new state |
| Padding.PayloadQueue.Push | src/veil/veil_front/padding/mode0_front.rs:268-271 | first in |
| Padding.PayloadQueue.Pop | src/veil/veil_front/padding/mode0_front.rs:274-276 | first out |
| Padding.WriteStrategy.NextFrame | src/veil/veil_front/padding/mode0_front.rs:360-371 | payload before chaff, oldest first; chaff exactly by the scheduler's rule when no payload is queued |
| Session.VeilFrontUp.constructor | src/veil/veil_front/session.rs:46-50 | an empty session |
| Session.VeilFrontUp.QueueLocal | src/veil/veil_front/session.rs:54-58 | appends one DATA frame and ends any wait |
| Session.VeilFrontUp.NextWire | src/veil/veil_front/session.rs:66-87 | the oldest payload or else due chaff, encoded; once waiting for local bytes, nothing at any later instant, and still waiting |
| Session.VeilFrontDown.Feed | src/veil/veil_front/session.rs:112-114 | appends to the buffer |
| Session.VeilFrontDown.NextPayload | src/veil/veil_front/session.rs:119-128 | the next DATA frame of the stream, with only non-DATA frames dropped before it, or an honest "need more" or error |
| Ferry.TickKeepsLedger | src/veil/veil_front/padding/mode0_front.rs:198-231 | what one wake-up at least 20 ms after the last does to the chaff ledger; after the window the queue strictly shrinks to the waiting state |
| Ferry.TurnKeepsBooks | src/veil/veil_front_adapter.rs:362-397 | every turn keeps ledger, trace and cooldown |
| Ferry.UpTurn | src/veil/veil_front_adapter.rs:362-397 | one turn of the up loop: local bytes leave at once, a tick may send chaff, no timer is armed while waiting; the payload queue is empty at every loop head |
| Ferry.UpFerry | src/veil/veil_front_adapter.rs:356-402 | output is exactly the local bytes in DATA frames among at most 150 chaff frames and 614400 chaff bytes, 5 ms apart from payload; at most 151 timer wake-ups, all other ticks slept through; frame by frame, the schedule's frames |
| Ferry.UpToEof | src/veil/veil_front_adapter.rs:379-384 | the local bytes are everything read before the first read of no bytes |
| Ferry.BoundIsReached | src/veil/veil_front_adapter.rs:356-402 | the up loop of a silent client with the largest draws sends exactly 150 chaff frames and 614400 bytes, so the bound is exact |
| Ferry.CooldownExactly | src/veil/veil_front/padding/mode0_front.rs:114-130 | inside the window an idle poll yields chaff if and only if 5 ms have passed since payload |
| Ferry.AfterWindowExactly | src/veil/veil_front/padding/mode0_front.rs:114-142 | after it, only while some of the 64 queued frames are left; the wait without a timer begins exactly then |
| Ferry.QueueInOrder | src/veil/veil_front/padding/mode0_front.rs:145-163 | queued chaff goes out in order, once each, before any fresh draw |
| Ferry.DownFerry | src/veil/veil_front_adapter.rs:404-429 | the local side gets exactly the DATA the relay's bytes carry, in any pieces; an error if and only if the stream has one |
| Probe.ProbeVerdict | src/veil/veil_front_adapter.rs:282-305 | the verdict is the first non-chaff frame or error of all bytes seen |
| Probe.ShowsStable | src/veil/veil_front_adapter.rs:282-305 | what a stream shows, every longer one shows |
| Probe.ProbeLoop | src/veil/veil_front_adapter.rs:245-270 | it stops at the first read by which the bytes show something or exceed 65536, with that verdict, or when the relay closes before either |
| Probe.ProbeAnyCut | src/veil/veil_front_adapter.rs:217-271 | if the stream is at most 65536 bytes, or its first 65537 show something, or all of it shows nothing, every cut ends the probe alike, and how |
| Probe.ProbeTwoCuts | src/veil/veil_front_adapter.rs:217-271 | every other stream has two cuts that end differently: one with its verdict, one giving up |
| Probe.NotCutProof | src/veil/veil_front_adapter.rs:265-269 | such a stream: a chaff frame of 65536 bytes before the first DATA |
| Probe.ProbeFrame | src/veil/veil_front_adapter.rs:286-296 | for every cut: chaff and then DATA ends in success, chaff and then any other frame in failure |
| Probe.ProbeFault | src/veil/veil_front_adapter.rs:297-303 | for every cut: chaff, if any, and then undecodable bytes ends in failure |
| Capability.CapMessageInjective | crates/construct-veil-protocol/src/capability.rs:175-187 | the bearer message determines every signed field |
| Capability.CapV2MessageInjective | crates/construct-veil-protocol/src/capability.rs:402-421 | the key-bound message determines every signed field, role included |
| Capability.AuthV3MessageInjective | crates/construct-veil-protocol/src/capability.rs:559-567 | the client's message determines session, ticket and expiry |
| Capability.AuthcodeMessageInjective | crates/construct-veil-protocol/src/auth.rs:49-67 | the authcode's message determines session, ticket and expiry |
| Capability.DomainsDisjoint | crates/construct-veil-protocol/src/capability.rs:95-109 | no message of one kind is a message of another |
| Capability.EncodePayloadV2 | crates/construct-veil-protocol/src/capability.rs:228-350 | pushes the layout field by field |
| Capability.EncodePayloadV3 | crates/construct-veil-protocol/src/capability.rs:485-633 | pushes the layout field by field |
| Capability.LayoutV2 | crates/construct-veil-protocol/src/capability.rs:228-242 | where every field of an AUTH v2 payload lies |
| Capability.LayoutV3 | crates/construct-veil-protocol/src/capability.rs:485-500 | where every field of an AUTH v3 payload lies |
| Capability.LittleEndian | crates/construct-veil-protocol/src/capability.rs:234-235 | times are written low byte first |
| Capability.IssuedExactly | crates/construct-veil-protocol/src/capability.rs:195-206 | a capability is issued if and only if its scope is at most 255 bytes, with the fields asked for |
| Capability.EncodeV2Injective | crates/construct-veil-protocol/src/capability.rs:342-350 | no two bearer records share a payload |
| Capability.EncodeV3Injective | crates/construct-veil-protocol/src/capability.rs:627-633 | no two key-bound records share a payload |
| Capability.DecodeCap | crates/construct-veil-protocol/src/capability.rs:244-278 | consumes exactly one encoded capability, or fails exactly when the data starts with none |
| Capability.DecodeCapV2 | crates/construct-veil-protocol/src/capability.rs:502-536 | the same for the key-bound capability |
| Capability.DecodeV2 | crates/construct-veil-protocol/src/capability.rs:354-366 | accepts exactly the images of `encode_payload` and inverts it |
| Capability.DecodeV3 | crates/construct-veil-protocol/src/capability.rs:637-649 | accepts exactly the images of `encode_payload` and inverts it |
| Capability.HonestV2VerifiesExactly | crates/construct-veil-protocol/src/capability.rs:304-338 | an honest bearer record verifies if and only if window, suite, scope and session match |
| Capability.HonestV3VerifiesExactly | crates/construct-veil-protocol/src/capability.rs:572-623 | an honest key-bound record verifies if and only if role, window, suite, scope and session match |
| Capability.AlteredCapabilityRejected | crates/construct-veil-protocol/src/capability.rs:368-376 | an issued signature verifies for no capability with any other field, whatever else is presented |
| Capability.AlteredBearerRejected | crates/construct-veil-protocol/src/capability.rs:209-217 | the same of a bearer capability |
| Gate.CheckV2 | crates/construct-veil-relay/src/gate.rs:324-363 | parsing and verifying decides exactly whether the frame holds a valid AUTH v2 record |
| Gate.CheckV3 | crates/construct-veil-relay/src/gate.rs:364-417 | the same for AUTH v3, for the two known roles only |
| Gate.TryDecodeAuth | crates/construct-veil-relay/src/gate.rs:316-434 | the decision: none while incomplete, tunnel with the exact leftover if authorised, site otherwise |
| Gate.GateStream | crates/construct-veil-relay/src/gate.rs:231-308 | at most two reads, every timeout, error and end-of-file path; the site gets all bytes read |
| Gate.VerdictIsStable | crates/construct-veil-relay/src/gate.rs:316-434 | a decision on a prefix is the same on every extension at a fixed time, the leftover growing by what is appended |
| Gate.TunnelExactly | crates/construct-veil-relay/src/gate.rs:321-353 | a tunnel opens if and only if the bytes are the image of one authorised frame followed by the leftover |
| Gate.HonestV3AdmittedExactly | crates/construct-veil-relay/src/gate.rs:364-397 | an honest AUTH v3 frame is authorised if and only if role, window, suite, scope and TLS session match |
| Gate.HonestV2AdmittedExactly | crates/construct-veil-relay/src/gate.rs:324-353 | an honest AUTH v2 frame is authorised if and only if window, suite, scope and TLS session match |
| Gate.AlteredBearerNotAdmitted | crates/construct-veil-relay/src/gate.rs:337-363 | a bearer capability with any field changed under an issued signature is never authorised |
| Gate.AlteredCapabilityNotAdmitted | crates/construct-veil-relay/src/gate.rs:378-417 | nor is a key-bound one |
| Gate.NoRecordNoEntry | crates/construct-veil-relay/src/gate.rs:326-330 | neither is any other frame, or a payload no record encodes to |
| Gate.SiteExactly | crates/construct-veil-relay/src/gate.rs:316-434 | the site is decided at once if and only if the bytes have a fault or start with a whole frame that is not authorised |
| Gate.VisitorGoesToSite | crates/construct-veil-relay/src/gate.rs:231-272 | a request that does not start with the version byte goes to the site after one read, whole |
| Gate.GateOpening | crates/construct-veil-relay/src/gate.rs:231-308 | for any cut: tunnel if and only if the opening frame is complete by the second read and authorised then, and leftover plus unread bytes are exactly what follows it |
| Tunnel.Deframe | crates/construct-veil-relay/src/tunnel.rs:201-253 | the backend gets exactly the DATA of leftover and reads, counted; an error if and only if the stream has one |
| Tunnel.FrameBackend | crates/construct-veil-relay/src/tunnel.rs:258-310 | exactly the frames each turn calls for; every backend byte in order and once; idle chaff at most one per tick of the window |
| Tunnel.UpToEof | crates/construct-veil-relay/src/tunnel.rs:281-290 | the backend bytes are everything read before the first read of no bytes |
| Tunnel.ChaffPerIdleTick | crates/construct-veil-relay/src/tunnel.rs:274-300 | every idle tick inside the window sends one chaff frame, and no other turn does |
| Tunnel.ForwardDown | crates/construct-veil-relay/src/tunnel.rs:142-168 | the initial chaff frame first, then the framing loop; at most 151 chaff frames in all |
| Chain.ReframeBuffered | crates/construct-veil-relay/src/chain.rs:240-255 | exactly the complete DATA frames of the buffer leave, re-made |
| Chain.FerryToUpstream | crates/construct-veil-relay/src/chain.rs:225-264 | upstream gets exactly the client's DATA frames, re-made |
| Chain.FerryToClient | crates/construct-veil-relay/src/chain.rs:270-328 | the client gets exactly the upstream's DATA frames among the relay's own bounded chaff, each in its turn |
| Chain.RelayedChaffPerIdleTick | crates/construct-veil-relay/src/chain.rs:285-326 | while the upstream's bytes decode, every idle tick inside the window sends one chaff frame |
| EndToEnd.DirectUp | src/veil/veil_front/session.rs:54-128 | client to backend over one relay: exactly the local bytes if admitted; admitted exactly when stated |
| EndToEnd.ChainedUp | crates/construct-veil-relay/src/chain.rs:112-264 | the same over two relays with two gates, two AUTH frames and two cuts |
| EndToEnd.DirectDown | crates/construct-veil-relay/src/tunnel.rs:142-310 | backend to client over one relay: exactly the backend bytes, no error |
| EndToEnd.ChainedDown | crates/construct-veil-relay/src/chain.rs:270-328 | backend to client over two relays |
| EndToEnd.EarlyCloseDeliversPrefix | crates/construct-veil-relay/src/tunnel.rs:170-196 | a tunnel torn down at any byte has delivered a prefix and raises no decode error |
| Methods.MaskRemovesExactly | src/veil/fsm/types.rs:32-44 | setting a method's bit removes that method and no other |
| Methods.HostMask | src/veil/fsm/types.rs:261-289 | which method each bit of the host's mask disables |
| Methods.AllowedExactly | src/veil/fsm/types.rs:282-297 | the iterator lists exactly the contained methods, in order |
| Selection.PenaltyFalls | src/veil/fsm/scoring.rs:120-149 | the failure penalty never grows with time and is at most 20 a failure |
| Selection.ScoreRange | src/veil/fsm/scoring.rs:72-118 | scores lie in [-5120, 105] |
| Selection.ScoreRangeIsTight | src/veil/fsm/scoring.rs:72-118 | both ends of that range are reached |
| Selection.ScoreResponds | src/veil/fsm/scoring.rs:96-118 | slower never scores higher; a success within the hour is worth exactly five points |
| Selection.ScoreIsShare | src/veil/fsm/scoring.rs:81-92 | an untried method scores 50; otherwise, with nothing else on record, 100 times the share of successes |
| Selection.DecayIsLinear | src/veil/fsm/scoring.rs:145-147 | between five minutes and an hour the penalty falls on a straight line to nothing |
| Selection.NoPenaltyOutside | src/veil/fsm/scoring.rs:128-138 | failures over an hour old or in the future cost nothing |
| Selection.LatencyCostsLinearly | src/veil/fsm/scoring.rs:97-102 | a point every 100 ms between one and three seconds |
| Selection.RankRanks | src/veil/fsm/scoring.rs:43-44 | the sort ranks by score, ties in the order of `MethodId::all` |
| Selection.CandidatesAllowed | src/veil/fsm/scoring.rs:23-70 | candidates are distinct and allowed, and none if and only if nothing is allowed |
| Selection.CandidatesAreTopK | src/veil/fsm/scoring.rs:30-48 | a correct stable top-k of the unblocked methods |
| Selection.CandidatesFallBack | src/veil/fsm/scoring.rs:50-67 | otherwise the allowed method blocked longest ago, or the first allowed one |
| Selection.SelectProbeCandidates | src/veil/fsm/scoring.rs:23-70 | the collect, sort, truncate and fall-back loops compute those candidates |
| Reducer.StepSound | src/veil/fsm/reducer.rs:15-311 | one step keeps the state sound |
| Reducer.EveryRunIsSound | src/veil/fsm/reducer.rs:15-311 | in every reachable state Probing has non-empty distinct candidates, the keys of `attempts`; Active is below threshold; Degraded is at or above it |
| Reducer.DegradesExactly | src/veil/fsm/reducer.rs:199-246 | exactly max(1, threshold) counted failures degrade a fresh connection, whatever comes between |
| Reducer.DegradedTearsDown | src/veil/fsm/reducer.rs:258-286 | in any run, one more failure leads to Idle with StopActive: the counting branch is dead |
| Reducer.RotatesAtOnce | src/veil/fsm/reducer.rs:209-217 | a blocked fingerprint degrades an active connection at once and the next failure tears it down |
| Reducer.CertProblemIsIgnored | src/veil/fsm/reducer.rs:218-221 | a certificate problem changes nothing in any state |
| Reducer.StopAlwaysIdles | src/veil/fsm/reducer.rs:188-303 | Stop leads to Idle from every state, with StopActive from a race or a connection |
| Reducer.OthersAreIgnored | src/veil/fsm/reducer.rs:71-309 | every event a state does not wait for, strangers' probe results among them, changes nothing |
| Reducer.CooldownEndsExactly | src/veil/fsm/reducer.rs:295-309 | short of Stop, a cooldown ends if and only if the timer event is not early |
| Reducer.GivingUpCools | src/veil/fsm/reducer.rs:171-186 | giving up a race starts a cooldown from that moment |
| Reducer.ActiveOnlyFromRace | src/veil/fsm/reducer.rs:78-111 | Active is entered only from Probing by a success of one of its candidates, with exactly those effects |
| Reducer.StopsBalance | src/veil/fsm/reducer.rs:187-292 | over any run, activations and abandoned races equal the StopActive effects plus the connection still live |
| Reducer.NoRaceDuringCooldown | src/veil/fsm/reducer.rs:132-309 | on a non-decreasing clock no probing within the cooldown of an all-failed step, unless Stop came between |
| Coordinator.RestrictToRegistered | src/veil/coordinator.rs:138-146 | the mask allows exactly the allowed methods that have an obfuscator |
| Coordinator.SessionStart.Feed | src/veil/coordinator.rs:217-220 | one event through the reducer |
| Coordinator.SessionStart.Record | src/veil/coordinator.rs:775-786 | exactly the score effects are recorded, in order |
| Coordinator.SessionStart.HandleProbeFailure | src/veil/coordinator.rs:845-886 | one failure recorded; Cooldown at the last candidate, else the candidate removed |
| Coordinator.SessionStart.HandleProbeSuccess | src/veil/coordinator.rs:732-799 | Active, one success recorded and one session installed; or nothing at all if the listener cannot be bound |
| Coordinator.SessionStart.HandleAllProbesFailed | src/veil/coordinator.rs:913-936 | Cooldown, with nothing recorded |
| Coordinator.SessionStart.RunSequentialProbes | src/veil/coordinator.rs:402-467 | probes in order up to the first success; every probe run is recorded once |
| Coordinator.SessionStart.FeedFailures | src/veil/coordinator.rs:711-723 | every failure of a lost race is recorded exactly once, in any arrival order |
| Coordinator.SessionStart.RunParallelProbes | src/veil/coordinator.rs:474-727 | the first success wins; it and the failures before it are recorded, or all failures, or nothing if the listener cannot be bound |
| Coordinator.ScoredOnce | src/veil/coordinator.rs:615-726 | no method is scored twice; a winner gets exactly one success, everyone else at most one failure; all failed means each exactly one |
| Coordinator.StartSession | src/veil/coordinator.rs:118-277 | for every arrival order a start with something to probe ends in Active, Cooldown or the bind error, never "stopped" and never at the `unreachable!`; candidates are the best of the usable methods by the scores of the start's own network, or its fall-back; winner, scores and installed session are those of the race |
| SessionSlot.AdvanceKeepsInv | src/veil/coordinator.rs:808-842 | every atomic step of an install, a stop or a task exit keeps the invariant |
| SessionSlot.RunKeepsInv | src/veil/coordinator.rs:808-842 | so does every interleaving from start-up |
| SessionSlot.SlotIsSafe | src/veil/coordinator.rs:76-79 | whenever the lock is free, a session outside the slot has its tunnels cancelled, and one still running and not told to stop is in the slot |
| SessionSlot.OneUnsignalled | src/veil/coordinator.rs:1040-1075 | at most one session is accepting without having been signalled, lock held or not |
| SessionSlot.OnlyOwnExitClears | src/veil/coordinator.rs:834-841 | a session leaves the slot only into the hand of a lock holder or by its own exit after cancelling its tunnels |
| SessionSlot.StopStopsAll | src/veil/coordinator.rs:982-990 | when a stop lets the lock go the slot is empty and every session ever installed is cancelled and, unless it left by itself, signalled |
| SessionSlot.InstallReplaces | src/veil/coordinator.rs:816-829 | when an install does, its own session is in the slot and every other one is stopped |
| SessionSlot.FoundIsShutDown | src/veil/coordinator.rs:76-79 | the session a stop or an install finds in the slot is signalled and cancelled from then on, in every interleaving |
| SessionSlot.EndedIsGone | src/veil/coordinator.rs:837-841 | a task that has ended is not in the slot |
| ScoreStore.ScoreRow.Record | src/veil/scoring.rs:189-289 | the row goes on telling the whole history of outcomes |
| ScoreStore.Replay | src/veil/scoring.rs:189-289 | any history replayed from an empty store gives the row that tells it |
| ScoreStore.ChecksAgree | src/veil/scoring.rs:361-541 | both blocked checks equal "five failures since the last success, a fingerprint block among them, the latest unexpired"; saturation at 255 changes nothing |
| ScoreStore.RoundingEndsEarly | src/veil/scoring.rs:154-161 | for every history and clock, exactly when rounding lifts a block early and exactly when it imposes one; from the block on it never prolongs it and ends it less than an hour early |
| ScoreStore.RoundingChangesAVerdict | src/veil/scoring.rs:151-161 | an instance each way |
| ScoreStore.BonusOnlyThisHour | src/veil/fsm/scoring.rs:104-116 | on stored times the recency bonus is paid if and only if it is still the same clock hour (and the clock past the epoch), for every pair of times |
| ScoreStore.FullPenaltyExactly | src/veil/fsm/scoring.rs:120-149 | on stored times failures cost their full penalty if and only if the hour of the last one began within the last five minutes, for every pair of times |
| ScoreStore.AverageBetween | src/veil/scoring.rs:211-215 | the latency average stays between the least and the greatest latency recorded |
| ScoreStore.AverageStep | src/veil/scoring.rs:211-215 | seven parts of the old average to three of the new latency, to the nearest millisecond; the first latency counts whole |
| ScoreStore.ScoreOfHistory | src/veil/scoring.rs:443-484 | what the state machine scores a replayed history: share of successes, run of failures, average latency, bonus of the hour |
| WarnLimiter.WarningsAreSpaced | crates/construct-veil-relay/src/gate.rs:92-110 | in every interleaving with any clocks, emission times k warnings apart are at least 60k seconds apart |
| WarnLimiter.RunKeepsBalance | crates/construct-veil-relay/src/gate.rs:92-110 | at every moment each call is in flight, emitted, reported or in the counter |
| WarnLimiter.NoCallIsLost | crates/construct-veil-relay/src/gate.rs:92-110 | at quiescence calls are the emitted warnings, the suppressed ones reported and those in the counter |
| WarnLimiter.LoneCallExactly | crates/construct-veil-relay/src/gate.rs:92-110 | a call that runs alone warns if and only if there was no warning yet or the last is 60 seconds old, and then reports and clears the count |
| Admission.BucketsExactly | crates/construct-veil-relay/src/main.rs:244-256 | two addresses share a bucket if and only if they are one IPv4 address or two IPv6 addresses of one /64; bucketing is idempotent |
| Admission.Gatekeeper.constructor | crates/construct-veil-relay/src/main.rs:209-219 | both limits are at least one |
| Admission.Gatekeeper.AdmitIp | crates/construct-veil-relay/src/main.rs:221-234 | counts one more below the cap; at the cap nothing changes, and no zero entry stays |
| Admission.Gatekeeper.DropGuard | crates/construct-veil-relay/src/main.rs:295-305 | counts one less; the last one removes the entry |
| Admission.Gatekeeper.Accept | crates/construct-veil-relay/src/main.rs:605-625 | shed exactly when no permit is free, shed exactly at the peer's cap, else admitted; a shed connection keeps nothing |
| Admission.Gatekeeper.HandshakeDone | crates/construct-veil-relay/src/main.rs:658-660 | the permit goes back, the slot stays |
| Admission.Gatekeeper.Close | crates/construct-veil-relay/src/main.rs:639-657 | slot and any permit go back on every path |
| Admission.Serve | crates/construct-veil-relay/src/main.rs:605-682 | over every run: each entry counts the live connections of its bucket, no zero or stale entry, none over the cap, no permit lost |

## Left out

- TLS, certificates, SPKI pinning and browser profiles: library calls outside the repository.
- Ed25519, HMAC-SHA-256 and SHA-256 internals, constant-time comparison and zeroisation: kept abstract, not functional properties.
- Sockets, the async scheduler, dial timeouts, keepalive and the cover-site copy: I/O plumbing; a failed read or write is the end of that direction.
- Joining the two directions of a tunnel: each is modelled to its own end; what an early teardown delivers is `EndToEnd.EarlyCloseDeliversPrefix`.
- C FFI, diagnostics, accept-error classification, log lines and the byte and tunnel counters that only feed them: easy members.
- The fixed-width ticket codec and the legacy v1 AUTH record: easy members; only the authcode message is taken.
- SQL, pruning and the choice of rows to prune: the model is one row's update.
- Random generators: any chaff size the code can draw and any contents.
- `decode_eof`, `encode_to_bytes` and the unchecked varint helpers: not used by the loops modelled.
- Overflow of clocks, of 64-bit byte counters and of the suppressed-warnings counter: integers are unbounded.
- ScoreStore.AverageBetween: the average is computed on exact tenths, so where the exact value ends in .5 a floating-point product could round to the other neighbour; both neighbours lie in the range stated.
- Selection.ScoreRange: scores are reals, so last-digit rounding of the floating-point scores, and a tie it might break, is not modelled.
- Coordinator.StartSession: a probe task that dies without reporting is covered (it is a race with fewer results); errors of the score store are ignored, as the code ignores them.
- SessionSlot.RunKeepsInv: tunnels are represented by the session's cancellation token; the tasks under it are not modelled one by one.
- WarnLimiter.RunKeepsBalance: atomic accesses are sequentially consistent; each counter is a single word, on which relaxed accesses are totally ordered.
