# Dafny model of the call stack

This project models the protocol and codec core of a pure-Go call stack and proves properties of
it. Go code that updates fields, arrays and maps step by step is modelled by classes and methods
with loops; each such method is proved against a specification function, and what the code is for
is then proved about those functions, over all inputs and all runs.

| area | modules |
|---|---|
| packet ring, replay window, resettable deadline | `TransportBuffer`, `TransportWakeups`, `ReplayDetector`, `TransportDeadline` |
| DTLS handshake: headers, splitting, reassembly, transcript | `DtlsHeaders`, `HandshakeFragments`, `HandshakeDelivery`, `FragmentCounters`, `FragmentPanics`, `HandshakeTranscript`, `TranscriptOrder`, `TranscriptSources` |
| DTLS records: CCM and CBC | `Ccm`, `CbcPadding` |
| Ogg: checksum, pages, lacing, recorder and streamer | `OggChecksum`, `OggPage`, `OggPackets`, `OggEndings`, `OpusPackets`, `OggStream` |
| video: payloaders, descriptor parsers, assembler, IVF | `VideoPayload`, `PictureIds`, `VideoDescriptors`, `VideoAssembly`, `VideoStream`, `Ivf`, `VideoClock`, `IvfStream` |
| one-to-one calls: signaling packets, negotiation, two-party runs | `Signaling`, `SignalingRun`, `Negotiation`, `CallConnection`, `CallProtocol`, `CallAnswers` |
| conference chain: replica, bootstrap, logs, joining | `E2eChain`, `ChainContent`, `ChainReplicas`, `ChainLogs`, `ChainJoin`, `ChainFetch` |
| ICE: priorities, checklist, agent | `IcePriority`, `IceChecklist`, `IcePairing`, `IceNomination`, `IceAgent` |
| formats octet by octet | `WireFormats` |
| shared | `Bits` (machine words), `Bytes` (octets, integer encodings, wrap-around), `Binary64` (floating-point rounding), `Streams`, `RtpPackets` |

`dafny verify dfyconfig.toml` checks everything.

## How to read it

- Fixed-width integers wrap where the code lets them: `Wrap16`, `Wrap32` and `Wrap64` in `Bytes`,
  `Next` for the chain's `int32` height, and bit strings for shifted words and checksum registers.
- Cryptographic primitives (block cipher, MAC, PRF, block hash, signature check, key recovery) are
  function parameters. A lemma that needs injectivity or inversion says so in its `requires`.
- Floating-point arithmetic is exact real arithmetic followed by `Binary64.Round`, as IEEE 754 defines it.
- Time, random draws and what the network delivers are parameters or events of a run.
- Concurrent code is a step system whose steps are the sections the code runs under its lock, and
  the properties are about every interleaving of those steps.

## Where the code is narrower than its purpose

Each of these is proved as an exact boundary, with the code kept as it is and an input or a run
that crosses it.

- The replay window masks its top word with `64 - n % 64` where `n % 64` bits are live, so sizes
  with `n % 64 > 32`, and sizes beyond `maxSeq`, accept a number twice
  (`ReplayDetector.NoReplayIffFaithful`). The default of 64 is among the good ones.
- `TransportDeadline.pending` is a `uint8`: with more than 256 callbacks outstanding a superseded
  deadline can expire a newer one (`TransportDeadline.BoundIsTight`).
- `fragmentBuffer.pop` dereferences nil on an empty message of which only fragments away from offset
  zero were filed, and on nothing else (`HandshakeFragments.PopPanicsIff`,
  `FragmentPanics.RunPanicsIff`); a single record is enough (`FragmentPanics.BlankRecordPanics`).
- Reassembly checks a message against the length heard first and then hands it on under the length
  its first octets announced, so what reaches the transcript is a whole message exactly if the two
  agree (`TranscriptSources.PoppedIsWholeIff`, and two records that cross it in
  `TranscriptSources.MislabelledIsHandedOn`). The records of a genuine flight agree
  (`TranscriptSources.GenuineIsWellCached`), and so do messages a flight has unmarshalled
  (`TranscriptSources.ParsedPullsWhole`); the transcript theorem needs one or the other
  (`HandshakeTranscript.WholeIsNeeded`).
- The packet buffer wakes its readers through a channel of one place, which is enough for one reader
  and not for two (`TransportWakeups.NeverStuckIff`).
- CCM marks associated data beyond 0xfeff octets with 0xfeff where section 2.2 of RFC 3610 has
  0xfffe (`Ccm.PrefixFollowsRfc`).
- CBC `Decrypt` takes a slice with a negative bound when right padding reaches into the MAC
  (`CbcPadding.Strip`, reached by `CbcPadding.AllPaddingIsOutOfRange`), and `examinePadding` reads
  its length difference in 32 bits (`CbcPadding.ExaminePadding`, `CbcPadding.FarPaddingIsRefused`).
- `writePage` gives a payload of an exact multiple of 255 octets no terminating zero segment, so it
  reads back as continued and a streamer runs it into the next packet (`OggStream.OnePacketIff`,
  `OggStream.RecordingStreamsIff`).
- `stripVP9Descriptor` reads bit 0x40, which the payloader sets on inter frames (the P bit of
  section 4.2 of RFC 9628), as the layer flag: VP9 round trips are the identity on key frames only
  (`VideoStream.Vp9SurvivesIff`).
- `vp9IsKeyframe` knows key frames of profiles 0 to 2; of profile 3 it reads the first bit of the second
  octet (`PictureIds.KeyframeIff`, `PictureIds.Profile3IsMisread`). The VP8 assembler goes by the start
  bit alone, so a stream with more than one partition loses all but the last of a frame's
  (`VideoDescriptors.StartIsFrameIff`).
- Both file readers take some cut files for ended ones, because reading nothing of a later part is
  an end of file: the IVF reader one cut after a frame header (`Ivf.EndsCleanlyIff`,
  `Ivf.CutAfterHeaderReadsAs`), the Ogg reader one cut after a page header or a segment table
  (`OggEndings.EndsQuietlyIff`, `OggEndings.CutPageEndsQuietly`).
- The video clock is cut off to whole nanoseconds and then to whole ticks, in binary64. A frame of t
  ticks advances it by t or t - 1 (`VideoClock.WholeTicks`): by t - 1 wherever nine does not divide t
  (`VideoClock.OneTickShort`), and where nine does by t exactly if the quotients fall short by no
  more than rounding makes up for (`VideoClock.MultipleOfNineIff`), as at 1/25 and not at 11/1000
  (`VideoClock.MultipleOfNineCanBeExact`, `VideoClock.MultipleOfNineCanLoseOne`). The recorder's own
  timebase, one tick a frame, comes out as no step at all (`IvfStream.StreamedRecordingStandsStill`).
- A bootstrapped replica never learns the founder, so it refuses exactly the blocks that only the
  founder signed among those a full replica accepts (`ChainReplicas.LaterBlock`,
  `ChainJoin.JoinedIsReplayed`, with a chain in `ChainJoin.FounderStillCounts`).
- A signaling counter has 30 bits: packet number k + 2^30 is refused after packet k
  (`SignalingRun.BeyondTheLimit`).
- Pair priorities order pairs lexicographically exactly for candidate priorities up to 2^31 - 1
  (`IcePriority.LexicographicIff`); candidate priorities stay within that
  (`IcePriority.CandidatePriorityInRange`).
- An unanswered pair fails with its ping number `maxBindingRequests` + 2, except under a limit of 65535,
  which its 16-bit count never exceeds (`IceNomination.UnansweredFailsIff`).
- Equal tie-breakers leave a role conflict unsettled: two controlling agents both stay, two controlled
  ones both switch (`IceChecklist.ConflictSettlesIff`).
- A configured TCP priority offset above 100 wraps the 16-bit type preference of a
  server-reflexive candidate around (`IcePriority.OffsetSubtractsIff`).

## Model

| member | source | states |
|---|---|---|
| `TransportBuffer.TransportBuffer.Write` | webrtc/transport.go:487-541 | a packet of 65536 octets or more is TooBig, a closed buffer refuses, and with a limit set an open buffer is Full exactly when held + 2 + length exceeds it (without one, exactly when the packet fits neither the ring nor 4 MiB); a written packet joins the end of the queue, a refused one changes nothing |
| `TransportBuffer.TransportBuffer.Read` | webrtc/transport.go:543-613 | takes out exactly the front packet; a short destination gets its prefix and the rest of that packet alone is lost; end of file only when closed and empty; an expired deadline removes nothing; the destination beyond the copied octets is untouched |
| `TransportBuffer.TransportBuffer.Reserve` | webrtc/transport.go:506-513 | the grow loop ends, keeps every queued packet, and finds room exactly when the larger of the ring and its ceiling has it |
| `TransportBuffer.TransportBuffer.Grow` | webrtc/transport.go:447-485 | growth succeeds exactly below the ceiling, into a fresh larger ring that still spells the same queue |
| `TransportBuffer.TransportBuffer.Available` | webrtc/transport.go:434-445 | the three-way head and tail arithmetic says exactly whether a framed packet leaves a free octet |
| `TransportBuffer.TransportBuffer.Size` | webrtc/transport.go:631-638 | the number of live octets |
| `TransportBuffer.TransportBuffer.CopyIn` | webrtc/transport.go:526-532 | the wrapping two-part copy appends the payload to the live octets and disturbs none |
| `TransportBuffer.TransportBuffer.TakePacket` | webrtc/transport.go:556-589 | reads one length prefix, copies what fits and steps over the whole packet, wrap included |
| `TransportBuffer.TransportBuffer.SetLimitSize` | webrtc/transport.go:640-645 | only the limit changes |
| `TransportBuffer.TransportBuffer.Close` | webrtc/transport.go:615-629 | only closes; what is queued stays to be read |
| `TransportBuffer.GrowthStopsAtCeiling` | webrtc/transport.go:447-464 | the growth schedule makes progress until its ceiling is reached, never overshoots it, and stops only there |
| `TransportBuffer.LiveAppends` | webrtc/transport.go:487-541 | octets laid after tail, wrapping, extend the live sequence and leave the rest of it alone |
| `TransportBuffer.LiveDrops` | webrtc/transport.go:543-613 | advancing head by k drops exactly the first k live octets |
| `TransportWakeups.NeverStuckIff` | webrtc/transport.go:543-613 | with writes, reads, timeouts and close in any order, no reader is ever left waiting beside a held packet with nothing to wake it, if and only if there is at most one reader |
| `TransportWakeups.WriteIsPut` | webrtc/transport.go:487-541 | the write steps of those runs are the buffer's: a write that succeeds is the Put step on the packets held and leaves a notification, one refused is no step, and where Put is not possible the answer is closed pipe or too big |
| `TransportWakeups.ReadIsLook` | webrtc/transport.go:543-613 | and the read steps: one pass through the mutex is the Look step, taking a packet exactly where it does and waiting exactly where it waits |
| `TransportWakeups.CloseIsShut` | webrtc/transport.go:615-629 | and closing is the Shut step |
| `TransportWakeups.LeftBehind` | webrtc/transport.go:535-613 | with two readers a concrete run leaves one waiting: the one-place notification channel drops the second of two writes' wake-ups |
| `ReplayDetector.FixedBigInt.Lsh` | webrtc/transport.go:723-741 | the descending in-place multiword shift is the shift of the whole bit string, with the top word masked as the code masks it |
| `ReplayDetector.FixedBigInt.ShiftWords` | webrtc/transport.go:723-741 | each word is rebuilt from words not yet overwritten |
| `ReplayDetector.FixedBigInt.Bit` | webrtc/transport.go:743-754 | bit i of the flat string, zero outside |
| `ReplayDetector.FixedBigInt.SetBit` | webrtc/transport.go:756-763 | sets bit i of the flat string and no other, nothing outside |
| `ReplayDetector.WordsShift` | webrtc/transport.go:723-741 | word-by-word shifting with carries equals shifting all bits at once |
| `ReplayDetector.SlidingWindowDetector.Check` | webrtc/transport.go:676-690 | admits as the specification window does, and changes nothing |
| `ReplayDetector.SlidingWindowDetector.Accept` | webrtc/transport.go:690-702 | moves the window to a new latest number and records the number; says whether it became the latest, and always so for number 0 |
| `ReplayDetector.CheckIsExact` | webrtc/transport.go:676-690 | yes exactly for an unseen number within maxSeq that is above the latest or inside the window |
| `ReplayDetector.AcceptRecords` | webrtc/transport.go:690-702 | after an accept the window again records exactly the accepted numbers it covers |
| `ReplayDetector.CheckAfterAnyRun` | webrtc/transport.go:668-702 | after any run of check-then-accept, Check says yes exactly for an unseen number that is above the latest or inside the window |
| `ReplayDetector.NoReplayIffFaithful` | webrtc/transport.go:668-763 | no run ever accepts a number twice if and only if the window is empty, or is at most maxSeq with size mod 64 at most 32; both directions |
| `ReplayDetector.WideTopWordRepeats` | webrtc/transport.go:710-741 | for every other size the top-word mask loses live bits: a concrete run accepts 0 twice |
| `ReplayDetector.WindowBeyondMaxRepeats` | webrtc/transport.go:676-702 | with a window beyond maxSeq a concrete run accepts 0 twice |
| `TransportDeadline.TransportDeadline.Set` | webrtc/transport.go:155-191 | the fields after Set under the mutex, for every phase and either outcome of stopping the timer: stopped without an instant, running with its timer for one to come, over with its channel closed for one that has come |
| `TransportDeadline.SetTakesEffect` | webrtc/transport.go:155-191 | at the end of any bounded run: right after a Set the deadline held is the one asked for, expired with its channel closed exactly if it has come, running with an armed timer and an open channel exactly if it is to come, stopped exactly if there is none |
| `TransportDeadline.HoldsLastSet` | webrtc/transport.go:155-191 | in every reachable state the deadline held is the one last set |
| `TransportDeadline.TransportDeadline.Timeout` | webrtc/transport.go:140-153 | the callback's locked part, which hands exactly one channel to the late close when it expires the deadline |
| `TransportDeadline.StepKeepsInv` | webrtc/transport.go:140-191 | Set, timer fire, callback and late close each keep the invariant tying pending, phase, channels and clock together |
| `TransportDeadline.CallbackExpiresExactly` | webrtc/transport.go:140-153 | a callback expires the deadline exactly when it is started and the callbacks left outstanding are a multiple of 256 |
| `TransportDeadline.DeadlineIsSafe` | webrtc/transport.go:140-191 | over every run with at most 256 outstanding: pending counts the outstanding callbacks, no channel is closed twice, the deadline is exceeded only after its own instant, never through a superseded callback, the done channel is closed (or about to be) exactly when exceeded, and no deadline is set exactly when stopped |
| `TransportDeadline.BoundIsTight` | webrtc/transport.go:140-191 | a run with one callback more expires a deadline early, so the bound is needed |
| `DtlsHeaders.HeaderRoundTrip` | webrtc/dtls.go:8017-8045 | a handshake header reads back from its twelve octets, whatever follows |
| `DtlsHeaders.RecordRoundTrip` | webrtc/dtls.go:8804-8849 | a record header reads back, but for the length field, which Unmarshal does not read |
| `WireFormats.HandshakeHeaderLayout` | webrtc/dtls.go:8017-8027 | the twelve octets are those of section 4.2.2 of RFC 6347, each in its place, highest first |
| `WireFormats.RecordHeaderLayout` | webrtc/dtls.go:8804-8821 | the thirteen octets are those of section 4.1 of RFC 6347 |
| `HandshakeFragments.SplitBytes` | webrtc/dtls.go:322-332 | the chunks concatenate to the input, each is non-empty and within the limit, and all but the last are full |
| `HandshakeFragments.FragmentHandshake` | webrtc/dtls.go:3053-3092 | the fragments carry the whole content in order, each within the MTU, behind headers with the message's total length and the right offset |
| `HandshakeFragments.PieceFits` | webrtc/dtls.go:3053-3092 | every fragment header fits its fields and stays within the message |
| `HandshakeFragments.FragmentBuffer.Push` | webrtc/dtls.go:2026-2080 | the imperative push does what the specification step does: size and count caps, record parse, and every fragment in the record filed |
| `HandshakeFragments.FragmentBuffer.FileFragment` | webrtc/dtls.go:2059-2075 | a fragment is filed once per message and offset, a duplicate changes nothing, and all four counters follow |
| `HandshakeFragments.FragmentBuffer.Pop` | webrtc/dtls.go:2082-2122 | the imperative pop does what the specification step does, and dereferences nil exactly on an empty message of which only empty fragments away from offset zero are held |
| `HandshakeDelivery.RecordPushes` | webrtc/dtls.go:2026-2080 | a genuine record of the flight is never refused and files exactly its piece |
| `HandshakeDelivery.FileKeepsInv` | webrtc/dtls.go:2026-2080 | after any piece in any order the cache holds exactly the pieces arrived and not yet delivered |
| `HandshakeDelivery.PopYieldsWhole` | webrtc/dtls.go:2082-2122 | with every piece of the current message there, pop yields the original message octet for octet and moves on |
| `HandshakeDelivery.PopWaits` | webrtc/dtls.go:2082-2122 | with a piece missing, pop yields nothing and changes nothing |
| `HandshakeDelivery.DrainIsExact` | webrtc/dtls.go:3322-3330 | popping until nothing comes yields exactly the complete messages in sequence |
| `HandshakeDelivery.DeliveredInOrder` | webrtc/dtls.go:2026-2122 | for every flight and every order of arrivals, duplicates included, the messages delivered are the flight's first ones, whole, once each, in order, stopping exactly at the first incomplete one |
| `HandshakeDelivery.DeliveredInFull` | webrtc/dtls.go:2026-2122 | once every piece has arrived, in whatever order, the whole flight has been delivered |
| `FragmentCounters.PushConserves` | webrtc/dtls.go:2026-2080 | for any input bytes and any outcome, push keeps both totals equal to the sums over the cache and the size below the cap |
| `FragmentCounters.PopConserves` | webrtc/dtls.go:2082-2122 | pop subtracts exactly what it removes |
| `FragmentCounters.CountersNeverDrift` | webrtc/dtls.go:2011-2122 | over every run of pushes and pops of arbitrary bytes, the totals equal the sums over the cache and the size is at least 0 and below 2,000,000; a run that panics has popped such an empty message, and the sums hold up to there |
| `HandshakeFragments.PopPanicsIff` | webrtc/dtls.go:2082-2110 | pop dereferences nil if and only if the current message announces no octets, holds none, and has no fragment at offset zero |
| `FragmentPanics.RunPanicsIff` | webrtc/dtls.go:2026-2122 | a run of pushes and pops of arbitrary bytes panics if and only if it pops a message whose first header heard announced length 0 and whose every filed fragment, the first heard at its offset, is empty and not at offset zero |
| `FragmentPanics.CleanRunsNeverPanic` | webrtc/dtls.go:2026-2122 | told from the records alone: where none carries an empty fragment of an empty message at a non-zero offset, no run panics |
| `FragmentPanics.BlankRecordPanics` | webrtc/dtls.go:2026-2122 | and one record with such a fragment, accepted by a fresh buffer and popped, panics, whatever its type, epoch, number and offset |
| `HandshakeTranscript.HandshakeCache.Push` | webrtc/dtls.go:1854-1865 | appends the item and changes nothing else |
| `HandshakeTranscript.HandshakeCache.Pull` | webrtc/dtls.go:1867-1886 | answers each rule with the cached answer to it |
| `HandshakeTranscript.PullOne` | webrtc/dtls.go:1867-1886 | the answer to a rule matches it, none matching is newer, and of equally new ones it is the first; none exactly when nothing matches |
| `HandshakeTranscript.AnswerIsUnique` | webrtc/dtls.go:1867-1886 | a rule has at most one answer in a cache |
| `HandshakeTranscript.HandshakeCache.PullAndMerge` | webrtc/dtls.go:1949-1959 | the concatenation of the answers found, in rule order |
| `HandshakeTranscript.Flight5Parse` | webrtc/dtls.go:4990-5028 | accepts exactly when the server's Finished is cached, readable and in sequence and its verify data is that of the merged transcript; a mismatch is reported only for a mismatch |
| `HandshakeTranscript.Flight6VerifyData` | webrtc/dtls.go:5487-5506 | the server's verify data is that of its own merged transcript, unless an earlier flight fixed it |
| `HandshakeTranscript.WholeIsDelimited` | webrtc/dtls.go:7942-7963 | a message as its sender marshals it, its header telling the body's length, is delimited |
| `HandshakeTranscript.ConcatIsInjective` | webrtc/dtls.go:1949-1959 | lists of self-delimiting messages with one concatenation are one list |
| `HandshakeTranscript.SameTranscript` | webrtc/dtls.go:4990-5028 | if the client accepts the server's verify data and what the ten rules pull on either side are whole messages, both hold the same list of transcript messages |
| `HandshakeTranscript.SameSlots` | webrtc/dtls.go:4990-5028 | and, with a ServerHelloDone on either side, they agree rule by rule, absences included |
| `HandshakeTranscript.WholeIsNeeded` | webrtc/dtls.go:4990-5028 | without whole messages not even the list is the same: two caches with an accepted Finished where a ServerHello that has swallowed the certificate stands for both |
| `HandshakeTranscript.HelloDoneIsNeeded` | webrtc/dtls.go:5009-5020 | without one: two caches of whole messages, the client accepting the server's verify data, and the one certificate is the server's to the client and the client's to the server |
| `TranscriptOrder.TranscriptIsAsSent` | webrtc/dtls.go:5009-5020 | the merged transcript of a cache that holds a handshake is its messages in the order of section 7.3 of RFC 5246, whatever their order in the cache and whatever older copies it holds |
| `TranscriptSources.FileMessages` | webrtc/dtls.go:3322-3330 | after a push, pops until nothing comes and files each message under the type, number and epoch its own header and record tell |
| `TranscriptSources.CacheIsTyped` | webrtc/dtls.go:3322-3330 | whatever records come in, and whatever is sent in between, every cached item has a header and is filed under the type it says |
| `TranscriptSources.GenuineIsWellCached` | webrtc/dtls.go:3313-3330 | records of one flight's pieces in any order and any number, own messages in between: every cached item is a whole message of the type it is filed under |
| `TranscriptSources.GenuineTranscript` | webrtc/dtls.go:4990-5028 | so a client and a server that heard each other's records and agree on Finished hold the same list of transcript messages |
| `TranscriptSources.ParsedPullsWhole` | webrtc/dtls.go:1888-1945 | whatever the records: a cache whose transcript messages a flight has unmarshalled, or are own whole ones, is all the transcript theorems ask for |
| `TranscriptSources.PoppedIsWholeIff` | webrtc/dtls.go:2026-2122 | after any records, pushed and popped in any order, a popped message tells its own length if and only if the first fragment heard of it and the first heard at offset zero announced the same one |
| `TranscriptSources.MislabelledIsHandedOn` | webrtc/dtls.go:2026-2122 | two records, the end of a message first and then its start under any other length, put octets into the cache that are no whole message |
| `Ccm.CbcRound` | webrtc/dtls.go:5626-5631 | xors a block into the running MAC and encrypts it in place |
| `Ccm.CbcData` | webrtc/dtls.go:5633-5643 | the block-by-block consumption is the CBC-MAC over the zero-padded blocks |
| `Ccm.Tag` | webrtc/dtls.go:5647-5691 | wrong nonce sizes and over-long plaintexts are errors, in that order; otherwise the first octets of the CBC-MAC over header, associated data and plaintext blocks |
| `Ccm.TagFollowsRfc` | webrtc/dtls.go:5647-5691 | the tag is that of section 2.2 of RFC 3610 for associated data up to 0xfeff octets; the formatted blocks of the two agree exactly up to there |
| `Ccm.PrefixFollowsRfc` | webrtc/dtls.go:5666-5681 | the length prefix is the standard's exactly up to 0xfeff octets (beyond, the code marks it 0xfeff, the standard 0xfffe) |
| `Ccm.Seal` | webrtc/dtls.go:5705-5726 | panics exactly on a wrong nonce size or an over-long plaintext; otherwise appends, octet by octet, the plaintext xor the encrypted counter blocks A_1, A_2 and so on of section 2.3 of RFC 3610, then the tag xor the encrypted A_0 |
| `Ccm.SealFollowsRfc` | webrtc/dtls.go:5705-5726 | sealing succeeds exactly up to the maximal length and then is the encryption of RFC 3610, its tag the standard's up to 0xfeff octets of associated data |
| `Ccm.CounterStays` | webrtc/dtls.go:5711-5720 | counting on in the 128-bit block never carries out of the length field while the count fits it |
| `Ccm.Open` | webrtc/dtls.go:5734-5768 | returns p exactly when the ciphertext is what sealing p gives, so opening undoes sealing and accepts nothing else; each length and nonce error exactly when due |
| `Ccm.OpensExactly` | webrtc/dtls.go:5734-5768 | only one plaintext can seal to a given ciphertext, and it does exactly when the tags meet |
| `CbcPadding.ExaminePadding` | webrtc/dtls.go:9809-9839 | 255 exactly when the last n + 1 octets exist and all equal n (for payloads whose length difference reads right in 32 bits, which every payload below 2 GiB does), otherwise 0; and how many octets to remove |
| `CbcPadding.TurnIsExact` | webrtc/dtls.go:9823-9829 | one branch-free turn keeps all ones exactly if the octet is masked out or equals the padding length |
| `CbcPadding.FoldedIsAllOrNothing` | webrtc/dtls.go:9831-9834 | the closing folds make any zero bit clear the whole octet |
| `CbcPadding.Encrypt` | webrtc/dtls.go:9440-9480 | header with the new length, IV, and the encryption of payload, MAC and padding to a whole block |
| `CbcPadding.Strip` | webrtc/dtls.go:9504-9533 | returns the data exactly when the body is data, its MAC and right padding; otherwise rejects, except that good padding reaching into the MAC, exactly then, makes the slice bounds negative |
| `CbcPadding.Decrypt` | webrtc/dtls.go:9482-9534 | each outcome exactly when due: bad header, passthrough of change-cipher-spec, too short, rejected, out of range, or the recovered payload |
| `CbcPadding.EncryptedDecrypts` | webrtc/dtls.go:9440-9480 | what Encrypt writes has the shape Decrypt looks for |
| `CbcPadding.RoundTrip` | webrtc/dtls.go:9440-9534 | whatever Decrypt's contract allows of an encrypted record is the record's payload behind its new header |
| `CbcPadding.AllPaddingIsOutOfRange` | webrtc/dtls.go:9482-9534 | for every suite with a MAC of up to 240 octets, a sealed record that is all padding gets past the length check and is out of range, whatever its header and IV |
| `CbcPadding.FarPaddingIsRefused` | webrtc/dtls.go:9809-9839 | right padding ending more than 2^31 octets into the payload is refused |
| `CbcPadding.WrongMacIsRefused` | webrtc/dtls.go:9482-9534 | data under any other tag than the MAC of its header's type, version, epoch and number and itself is refused, however long its padding |
| `OggChecksum.WriterEntry` | media/oggwriter.go:31-45 | each entry of the writer's table is eight division steps from its index at the top |
| `OggChecksum.ReaderEntry` | webrtc/oggreader.go:309-326 | the reader's table, built with its own loop, has the same entries |
| `OggChecksum.OggCrc` | media/oggwriter.go:47-52 | the writer's loop computes the specification checksum |
| `OggChecksum.UpdateDivides` | media/oggwriter.go:47-52 | one table lookup does the work of eight division steps |
| `OggChecksum.CrcIsDivision` | media/oggwriter.go:47-52 | the table-driven checksum is the remainder of the message divided bit by bit by 0x04c11db7 |
| `OggChecksum.CrcJoins` | media/oggwriter.go:127-129 | summing a message in parts is summing the whole |
| `OggChecksum.StoredLoads` | media/oggwriter.go:127-129 | the checksum reads back from its little-endian octets |
| `OggPage.OggWriter.constructor` | media/oggwriter.go:58-74 | a new recorder has written the identification and comment pages and stands at page two |
| `OggPage.OggWriter.WriteHeaders` | media/oggwriter.go:76-99 | the file begins with a begin-of-stream page holding the identification header, then a page holding the comment header, numbered 0 and 1 |
| `OggPage.OggWriter.WritePage` | media/oggwriter.go:101-139 | appends one page with the fields given, the next page number and its own checksum patched in |
| `OggPage.FillHeader` | media/oggwriter.go:101-125 | the header array, filled in place, is fixed part and segment table with no checksum yet |
| `OggPage.OggWriter.WritePacket` | media/oggwriter.go:141-154 | a non-empty packet becomes one page and advances the granule by the samples its first octets tell, or 960; an empty one, or a closed writer, writes nothing |
| `OggPage.OggWriter.WritePacketWithSamples` | media/oggwriter.go:182-192 | the same with a duration given |
| `OggPage.OggWriter.Close` | media/oggwriter.go:156-163 | one empty end-of-stream page, once |
| `OggPage.OggReader.ParseNextPage` | webrtc/oggreader.go:192-260 | outcome, page and remaining stream of one parse, checksum compared over the header with its checksum field zeroed |
| `OggPage.OggReader.SumPage` | webrtc/oggreader.go:228-254 | the reader sums header, segment table and payload as one message |
| `OggPage.PageRoundTrip` | media/oggwriter.go:101-139 | every page of at most 255 segments is parsed back whole: same fields, same segment table, same payload, nothing more consumed |
| `WireFormats.PageLayout` | media/oggwriter.go:101-139 | a written page is that of section 6 of RFC 3533, field by field, its checksum taken with nought in the checksum field |
| `WireFormats.OpusHeadLayout` | media/oggwriter.go:76-90 | the identification header is that of section 5.1 of RFC 7845 |
| `WireFormats.OpusTagsLayout` | media/oggwriter.go:91-99 | the comment header is that of section 5.2 of RFC 7845 |
| `OpusPackets.SamplesFollowRfc` | media/audio.go:150-209 | a packet of n frames counts for n times the duration table 2 of RFC 6716 gives its configuration |
| `OpusPackets.UntoldIsTwenty` | media/oggwriter.go:148-151 | a packet that tells no frames counts as 20 milliseconds |
| `OggPage.LacingSums` | media/oggwriter.go:116-125 | the segment sizes from any place on add up to the octets left |
| `OggPackets.ParseSegments` | webrtc/oggreader.go:262-287 | the off/start/inPacket loop returns exactly the completed packets and the unfinished tail of the page |
| `OggPackets.Stitch` | media/audio.go:78-89 | one turn of the page loop: pending octets go in front of the first piece, an unfinished last piece is held back |
| `OggPackets.LeftIffContinued` | media/audio.go:143-145 | something stays unfinished exactly when the last segment is 255 |
| `OggPackets.CutAnywhere` | media/audio.go:54-89 | cutting a segment table into pages between any two segments changes neither the packets nor what stays pending |
| `OggPackets.LacedReadBack` | webrtc/oggreader.go:262-287 | unlacing undoes the lacing of section 5 of RFC 3533, empty packets and exact multiples of 255 included |
| `OggPackets.RelacesAs` | webrtc/oggreader.go:262-287 | and lacing undoes unlacing: no other segment table yields these packets and this remainder |
| `OggPackets.OctetsKept` | webrtc/oggreader.go:262-287 | no octet is lost, added or moved |
| `OggPackets.CutPagesReadBack` | media/audio.go:54-89 | a series of pages stitches to these packets with nothing pending if and only if its segment tables joined are the lacing of the packets and its payloads joined their concatenation; so any cut of laced packets reads back |
| `OggStream.Record` | media/oggwriter.go:58-163 | the file a recorder writes when given these packets and closed |
| `OggStream.StreamOggOpus` | media/audio.go:42-139 | from any input stream: refuses one that does not open with an Opus header; otherwise sends exactly the non-empty non-header packets of the pages that parse, and succeeds exactly if the stream is whole pages, perhaps with one more cut right after its header or its segment table |
| `OggStream.StreamPages` | media/audio.go:54-139 | the page loop sends what the remaining pages complete, in order |
| `OggStream.Sender.SendAll` | media/audio.go:89-139 | packets are numbered consecutively and timed by their samples; empty and header packets are passed over |
| `OggStream.SentAt` | media/audio.go:104-121 | packet i has number start + i and time start + all samples before it, both wrapping, and the marker only on the first |
| `OggStream.FileStreams` | media/audio.go:42-139 | what a recorded file streams as: comment header, then the packets, those of exact multiples of 255 octets run into their successors |
| `OggStream.OnePacketIff` | media/oggwriter.go:101-139 | the reader makes of a written page exactly one packet, the payload, with nothing held over and nothing more consumed, if and only if the payload is at most 65024 octets and not a positive multiple of 255 |
| `OggStream.RecordingStreamsIff` | media/audio.go:42-139 | a recording is streamed back packet for packet if and only if no packet but the last is a multiple of 255 octets |
| `OggStream.GranuleCountsSamples` | media/oggwriter.go:141-154 | the granule position counts all samples written, modulo 2^64 |
| `OggEndings.ParseIff` | webrtc/oggreader.go:192-260 | end of file exactly for an empty stream, a bare header announcing segments, or header and table announcing a payload with none there; truncation, checksum mismatch and success each exactly when due |
| `OggEndings.EndsQuietlyIff` | media/audio.go:54-69 | reading pages stops without an error if and only if the stream is whole pages with right checksums, perhaps followed by one bare header or one header with its table |
| `OggEndings.CutPageEndsQuietly` | webrtc/oggreader.go:192-228 | every written page cut right after its header, or right after its table, ends so |
| `VideoPayload.Vp8Payloader.Payload` | webrtc/codecs.go:105-163 | the payloads and next picture ID of the specification: none for an empty frame or a too small MTU, otherwise descriptor and piece after piece |
| `VideoPayload.Vp9Payloader.Payload` | webrtc/codecs.go:31-70 | likewise for VP9, with the inter flag from the frame and the end flag on the last piece |
| `VideoPayload.PayloadsFit` | webrtc/codecs.go:31-163 | no payload is longer than the MTU, for either codec and every picture ID |
| `PictureIds.PayloadsTell` | webrtc/codecs.go:31-161 | a receiver reading by RFC 7741 or RFC 9628 finds the frame's picture ID in every payload, the start bit on the first alone, and with VP9 the end bit on the last alone |
| `PictureIds.IdAfterIs` | webrtc/codecs.go:61-161 | after k frames the ID is k on, modulo 2^15 for VP8, leaving out zero for VP9 |
| `PictureIds.IdsDiffer` | webrtc/codecs.go:61-161 | so frames less than a cycle apart never share an ID |
| `PictureIds.KeyframeIff` | webrtc/codecs.go:72-96 | a frame is taken for a key frame exactly if its header makes it one, but for profile 3, where the wrong bit is read |
| `PictureIds.Profile3IsMisread` | webrtc/codecs.go:72-96 | a key frame of profile 3 taken for another, and another taken for a key frame |
| `VideoDescriptors.Vp8ReadsExactly` | media/ivfwriter.go:272-318 | any VP8 descriptor of section 4.2 of RFC 7741 is taken off exactly and its start bit reported |
| `VideoDescriptors.StartIsFrameIff` | media/ivfwriter.go:121-134 | the assembler takes a payload for the start of a frame rightly exactly if it does not start a later partition |
| `VideoDescriptors.Vp9ReadsExactly` | media/ivfwriter.go:182-270 | a VP9 descriptor without inter prediction and layer indices is taken off exactly, scalability structure included |
| `VideoAssembly.StripVp8Descriptor` | media/ivfwriter.go:272-318 | the imperative parse with its moving index strips what the layout of the descriptor says, or fails where it is cut short |
| `VideoAssembly.StripVp9Descriptor` | media/ivfwriter.go:182-270 | likewise for VP9: picture ID, layer, reference and scalability parts, as the code reads the flags |
| `VideoAssembly.FrameAssembler.Push` | media/ivfwriter.go:121-180 | one packet: frame start, continuation without start, marker, parse failure, as specified |
| `VideoAssembly.Vp8Strips` | media/ivfwriter.go:272-318 | the parser takes off exactly the descriptor the payloader put on, for every picture ID state |
| `VideoAssembly.Vp9Strips` | media/ivfwriter.go:182-270 | the parser takes off exactly the VP9 descriptor on key frames; on inter frames it reads bit 0x40 as the layer flag and takes two octets of data with it |
| `VideoAssembly.FrameComesBack` | media/ivfwriter.go:121-180 | the pieces of a frame whose descriptors come off exactly assemble to that frame once, at its time |
| `VideoAssembly.FrameIsBitten` | media/ivfwriter.go:156-180 | the pieces of an inter frame assemble to the frame without the first two octets of each piece, or to nothing |
| `VideoAssembly.FrameSurvives` | media/ivfwriter.go:121-180 | whatever the assembler held before, it hands out exactly what survives of a frame, for either codec, any frame, MTU and picture ID |
| `VideoStream.SendFrame` | media/video.go:89-108 | consecutive sequence numbers, one timestamp, and the marker on the last payload only |
| `VideoStream.StreamAssembles` | media/ivfwriter.go:121-180 | over a whole stream the assembler returns the survivors in order at their frames' times |
| `VideoStream.LossCosts` | media/ivfwriter.go:182-270 | a stream in which some frame does not survive arrives with fewer octets |
| `VideoStream.ListArrivesIff` | media/ivfwriter.go:121-180 | a list of non-empty frames arrives as sent if and only if the MTU exceeds every frame's descriptor and none is a VP9 inter frame |
| `VideoStream.Vp8AlwaysSurvives` | webrtc/codecs.go:105-163 | VP8: every list of frames survives any MTU above the widest descriptor, whatever the picture ID |
| `VideoStream.Vp9SurvivesIff` | webrtc/codecs.go:31-96 | VP9: a list survives if and only if every frame is a key frame |
| `VideoStream.TimeOf` | media/video.go:89-108 | frame k arrives k-th, with the time it was sent at |
| `Ivf.IvfWriter.WritePacket` | media/ivfwriter.go:70-106 | after any packets the file is the recording of the frames they completed; a refused payload writes no frame |
| `Ivf.IvfWriter.WriteFrame` | media/ivfwriter.go:89-105 | one entry: size, time since the first frame, data |
| `Ivf.IvfReader.ParseFileHeader` | webrtc/ivfreader.go:56-145 | opens exactly a file with the signature, version 0 and a timebase with no zero in it, and remembers that timebase |
| `Ivf.IvfReader.ParseNextFrame` | webrtc/ivfreader.go:82-111 | the next frame with its converted timestamp; end of file exactly at the end or on a bare frame header announcing data, and either truncation exactly when header or data breaks off |
| `Ivf.ReadFrameIff` | webrtc/ivfreader.go:82-111 | which outcome a read has shows in the octets left and the size they begin with |
| `Ivf.EndsCleanlyIff` | webrtc/ivfreader.go:82-111 | reading frames ends without an error if and only if the stream is whole frames, perhaps followed by one bare header announcing data |
| `Ivf.EndsAsItsTail` | webrtc/ivfreader.go:82-111 | whole frames are read one by one with their data, and then the stream ends as what is left of it does |
| `Ivf.CutAfterHeaderReadsAs` | webrtc/ivfreader.go:82-111 | a recording cut right after the header of any non-empty frame reads as one that ended before that frame |
| `Ivf.EntriesReadBack` | webrtc/ivfreader.go:82-111 | written entries read back as the same frames in order, and then the file ends cleanly |
| `Ivf.FileOpens` | media/ivfwriter.go:54-68 | the reader opens what the writer heads, with its timebase |
| `Ivf.RecordingReadsBack` | webrtc/ivfreader.go:56-145 | any recording with a packet in it reads back as the frames completed, dated from the first |
| `WireFormats.IvfHeaderLayout` | media/ivfwriter.go:54-68 | the file header field by field |
| `WireFormats.IvfEntryLayout` | media/ivfwriter.go:90-106 | each frame behind its size and its time since the first, modulo 2^32 |
| `Binary64.RoundIsNearest` | media/video.go:52-56 | the rounding of each product and quotient is binary64's: no 53-bit value, down to steps of 2^-1074, is nearer |
| `Binary64.RoundReachesIff` | media/video.go:52-56 | a value just below a whole number is rounded up to it if and only if it is at most half the binary64 step below the number away, the tie going to the number |
| `Binary64.RelativeError` | media/video.go:52-56 | a rounded value of at least a tenth of a billionth is off by no more than one part in 2^53 |
| `VideoClock.FallsBackIff` | media/video.go:52-55 | the default duration steps in if and only if the timebase is shorter than a nanosecond, all roundings counted |
| `VideoClock.FallbackStep` | media/video.go:53-56 | and then a frame counts 2999 ticks, one short of a thirtieth of a second |
| `VideoClock.StepIsNear` | media/video.go:52-56 | for every other timebase the step is at most half a tick above the exact number of ticks and at most one and a half below |
| `VideoClock.WholeTicks` | media/video.go:52-56 | a frame of t whole ticks counts t or t - 1, for every timebase |
| `VideoClock.OneTickShort` | media/video.go:52-56 | and t - 1 wherever nine does not divide t, for t below 2^32 |
| `VideoClock.MultipleOfNineIff` | media/video.go:52-56 | where nine divides t below 2^32 it counts t if and only if num/den exceeds its rounded quotient, and the seconds the nanoseconds are turned back into, by no more than what rounding the two products makes up for: half the binary64 step below the nanoseconds, and below the ticks |
| `VideoClock.SecondsOfShort` | media/video.go:52-56 | below a second those seconds are the one rounded quotient again, so both conditions are about it |
| `VideoClock.RoundedUpIsExact` | media/video.go:52-56 | so a frame below a second counts t where nine divides t and that quotient is exact or rounded up |
| `VideoClock.MultipleOfNineCanLoseOne` | media/video.go:52-56 | 11/1000 is 990 ticks and counts 989 |
| `VideoClock.MultipleOfNineCanBeExact` | media/video.go:52-56 | 1/25 is 3600 ticks and counts 3600 |
| `IvfStream.OpenedStep` | media/video.go:44-56 | whatever file opens has a timebase those theorems speak of, so its step is 2999 or near the exact number of ticks |
| `IvfStream.StreamIvf` | media/video.go:44-123 | from any input stream: refuses one that does not open; otherwise what is sent is the payloads of exactly the frames read, each frame the timebase's step, as binary64 counts it, after the last, and it succeeds exactly if the stream is whole frames, perhaps with one bare header after them |
| `IvfStream.StreamFrames` | media/video.go:89-123 | the frame loop keeps numbers, times and picture IDs running on |
| `IvfStream.StreamedRecordingStandsStill` | media/video.go:52-110 | streamed from a recording, whatever was recorded and when, every packet carries one and the same timestamp |
| `IvfStream.RecordingKeepsFramesIff` | media/ivfwriter.go:70-180 | frames through payloader, packets, recorder and reader are the same list if and only if all survive |
| `IvfStream.FramesAreDated` | webrtc/ivfreader.go:78-111 | frame k of a surviving recording is dated k steps after the first, wherever the sender's clock started, modulo 2^32 |
| `Signaling.Peer.EncryptMessage` | phonecall/crypto.go:48-61 | uses the next sequence number and seals one message record under it |
| `Signaling.Peer.EncryptAcks` | phonecall/crypto.go:63-80 | with nothing to acknowledge no packet and no number is used; otherwise one packet acknowledging every word given, in order |
| `Signaling.Peer.DrainAcks` | phonecall/crypto.go:82-91 | hands out all pending words, once |
| `Signaling.Peer.Open` | phonecall/crypto.go:171-201 | opens exactly an authentic packet whose counter has not been seen, and then remembers that counter; anything else changes nothing |
| `Signaling.Peer.DecryptMessages` | phonecall/crypto.go:93-153 | messages returned, counters seen and acknowledgements owed after one packet of any content |
| `Signaling.Peer.ParseRecords` | phonecall/crypto.go:101-153 | the moving-position parse gives the messages of the decoded records, noting acknowledgements owed even when a later record is refused |
| `Signaling.DecodesBack` | phonecall/crypto.go:93-153 | every list of records that fits the format decodes to itself |
| `Signaling.AcceptedIsEncoded` | phonecall/crypto.go:93-153 | whatever decodes is the encoding of what it decodes to, but for a dangling word |
| `Signaling.SealedIsAuthentic` | phonecall/crypto.go:155-201 | opening on the side a packet was sealed for recovers what was sealed |
| `Signaling.AuthenticIffSealed` | phonecall/crypto.go:155-201 | a packet opens to a body exactly if it is what sealing that body on this side makes |
| `Signaling.PeerOpens` | phonecall/crypto.go:155-201 | so what either peer seals the other opens, and no peer opens its own direction |
| `SignalingRun.SendNext` | phonecall/crypto.go:48-80 | the k-th packet a peer sends is determined by k and its content |
| `SignalingRun.GenuineDelivery` | phonecall/crypto.go:93-201 | a genuine packet is heard, and owed for, exactly if its counter has not been seen |
| `SignalingRun.CountersDiffer` | phonecall/crypto.go:46 | up to 2^30 packets, counters tell packets apart |
| `SignalingRun.RunIs` | phonecall/crypto.go:48-201 | after any deliveries, any number of times in any order, with drains between: the counters seen are those of the packets arrived, and drained with pending acknowledgements is exactly what they owe, in order of first arrival |
| `SignalingRun.HeardExactlyOnce` | phonecall/crypto.go:93-201 | each message is returned exactly on its packet's first arrival and never again |
| `SignalingRun.AcknowledgedOnce` | phonecall/crypto.go:82-153 | no sequence word is ever acknowledged twice |
| `SignalingRun.BeyondTheLimit` | phonecall/crypto.go:46-61 | the bound is exact: the packet 2^30 later has an earlier one's counter and is refused unheard |
| `Negotiation.ParseSsrc` | phonecall/negotiation.go:241-247 | the value of a decimal numeral of at most 32 bits, and 0 for every other string |
| `Negotiation.SsrcRoundTrip` | phonecall/negotiation.go:194-247 | a formatted SSRC parses to itself |
| `Negotiation.CapturesBoth` | phonecall/negotiation.go:155-172 | from a peer's message a fresh negotiator learns exactly its two SSRCs |
| `Negotiation.CaptureIsFirst` | phonecall/negotiation.go:155-172 | an SSRC that is known stays; one that is not becomes the first other than zero announced for its kind |
| `Negotiation.Negotiator.LocalOffer` | phonecall/negotiation.go:126-137 | offers once, under the exchange ID drawn; later calls offer nothing |
| `Negotiation.Negotiator.OnRemote` | phonecall/negotiation.go:139-153 | captures SSRCs from any message; one echoing our own exchange is an answer to us, any other is answered under its own exchange ID |
| `Negotiation.Negotiator.CaptureSsrcs` | phonecall/negotiation.go:155-172 | keeps the first non-zero SSRC of each kind, whatever comes later |
| `CallConnection.Connection.HandleInitialSetup` | phonecall/connection.go:236-293 | the first setup starts ICE, flushes the buffered candidates in order and is answered by the callee; a later one changes nothing and is not answered |
| `CallConnection.Connection.HandleCandidates` | phonecall/connection.go:307-322 | candidates are added at once when the remote is known and buffered in order before |
| `CallConnection.Connection.OnDtlsStarted` | phonecall/connection.go:295-305 | marks DTLS started and makes the local offer |
| `CallConnection.Connection.HandleNegotiate` | phonecall/connection.go:338-360 | feeds the message to the negotiator and marks negotiation ready |
| `CallConnection.Connection.MaybeCreateChannels` | phonecall/connection.go:372-380 | creates exactly when DTLS has started, negotiation is ready and nothing was created yet, with the peer's audio SSRC |
| `CallProtocol.StepKeepsInv` | phonecall/connection.go:236-380 | every locked section and every send keeps the invariant of one peer |
| `CallProtocol.MoveKeepsInv` | phonecall/connection.go:236-380 | and that of two peers exchanging messages |
| `CallProtocol.EveryRunIsOrderly` | phonecall/connection.go:236-457 | in every interleaving: at most one offer and one answer each, channels created at most once and only after DTLS start and readiness with the other's SSRCs, a due creation always has a thread on its way, and candidates reach the add step exactly once in arrival order |
| `CallProtocol.QuiescentIsComplete` | phonecall/connection.go:295-457 | no trigger is lost: once both have DTLS up, nothing is left to do and all sent was heard, both have their channels, with each other's SSRCs |
| `CallProtocol.TurnsRunOut` | phonecall/connection.go:338-457 | taking turns alone always ends |
| `CallAnswers.EveryAnswerIsDue` | phonecall/connection.go:295-370 | in every interleaving offers are under the peer's own exchange and answers under one of the other's, and a peer with nothing left to do has answered exactly if it heard something and was not itself answered |
| `E2eChain.GroupVersion` | confcall/e2e/chain.go:271-291 | the least participant version, clamped to 0 and 255 |
| `E2eChain.Chain.ApplyBlock` | confcall/e2e/chain.go:140-149 | state and error of the specification step, for any block; a block that cannot be hashed changes nothing |
| `E2eChain.Chain.ApplyBlockWithHash` | confcall/e2e/chain.go:197-248 | height, previous hash and signature checked in the code's order, then changes, founder, tip and epochs |
| `E2eChain.Chain.BootstrapFromBlock` | confcall/e2e/chain.go:151-195 | starts over from one block taken on its signature alone, the founder kept; state and error of every outcome, partial ones included |
| `E2eChain.Chain.VerifySignature` | confcall/e2e/chain.go:293-308 | the block is signed by its named signer, else by the founder or some participant, exactly |
| `E2eChain.Chain.ApplyOne` | confcall/e2e/chain.go:310-349 | one change: group replaced, shared key set or cleared, or nothing; failure exactly when the key cannot be recovered or the change is unknown: after a group exactly the keys of its entries are held, each with its last entry, and no shared key; after a recovered key that key is held raw; a key for others only leaves a note |
| `E2eChain.Chain.GroupByKey` | confcall/e2e/chain.go:314-330 | a key is held exactly if an entry of the group has it, and then its last entry is what is held |
| `E2eChain.HeldGroupIsOne` | confcall/e2e/chain.go:314-330 | and that says all: there is only one such map |
| `E2eChain.Chain.RefreshEpoch` | confcall/e2e/chain.go:250-269 | with a shared key the tip becomes the newest of at most twenty epochs, its key derived from the raw one exactly if there is a group and all its versions are at least 1; an older entry for that tip goes |
| `E2eChain.Chain.MinVersion` | confcall/e2e/chain.go:271-291 | the loop over the participants computes the group version |
| `ChainReplicas.ChangesConverge` | confcall/e2e/chain.go:310-349 | changes that carry a group state erase every difference there was before |
| `ChainReplicas.BootstrapMatches` | confcall/e2e/chain.go:151-195 | from a block of positive height with a group state a fresh replica reaches exactly the participants, key state, height and tip of the full one, and bootstraps exactly if the block names its signer |
| `ChainReplicas.LaterBlock` | confcall/e2e/chain.go:197-248 | on any later block the two answer alike and stay alike, unless only the founder signed it; then only the full one accepts |
| `ChainReplicas.StayAlike` | confcall/e2e/chain.go:197-248 | over any blocks, accepted or refused, the two stay alike while none is the founder's alone |
| `ChainReplicas.AcceptedAlike` | confcall/e2e/chain.go:197-248 | every sequence the bootstrapped replica accepts the full one accepts, ending alike |
| `ChainReplicas.BootstrapThenFollow` | confcall/e2e/chain.go:151-248 | joining from the middle and following is the same as having been there from the start: participants, key state, height, tip and newest epoch |
| `ChainReplicas.AcceptedIff` | confcall/e2e/chain.go:197-248 | the bootstrapped replica accepts all of a sequence if and only if the full one does and nothing in it is signed by the founder alone |
| `ChainJoin.JoinedIsReplayed` | confcall/e2e/chain.go:62-308 | of any chain accepted from a new replica, a fresh one can join at any block of positive height with a group state exactly if the block names its signer; it accepts all that follows exactly if nothing is the founder's alone, and then has the height, tip, participants, key state and newest epoch of the replayed replica |
| `ChainJoin.FounderStillCounts` | confcall/e2e/chain.go:151-308 | the founder's blocks do matter: under an injective hash, a chain of three blocks accepted from the start whose last is refused by a replica that joined at the second |
| `ChainLogs.GrownStands` | confcall/e2e/chain.go:197-269 | a replica grown by accepted blocks stands on a linked log that determines its height, tip, content and epochs |
| `ChainLogs.LinkedByTip` | confcall/e2e/chain.go:197-248 | linked logs ending in one block are one log |
| `ChainLogs.SameTipSameLog` | confcall/e2e/chain.go:197-291 | two replicas, each with its own keys, grown to one tip have applied one log, and have one participant list and one group version |
| `ChainLogs.EpochsOfGrown` | confcall/e2e/chain.go:250-269 | active epochs are always at most twenty distinct tips, the newest last, and the last is the tip exactly while a shared key is held |
| `ChainLogs.GrownEpochsAreOld` | confcall/e2e/chain.go:250-269 | a grown replica meets what the comparison with a bootstrapped one assumes |
| `ChainContent.LastGroupIsHeld` | confcall/e2e/chain.go:310-349 | once a block's changes are done the participants are those of its last group, each key with its last entry |
| `ChainContent.LastKeyIsHeld` | confcall/e2e/chain.go:310-349 | and the shared key is the last one recovered since the last group |
| `ChainContent.GroupDropsKey` | confcall/e2e/chain.go:310-349 | and with none recovered since there is none |
| `ChainContent.TakenIff` | confcall/e2e/chain.go:197-248 | after the first block one is taken exactly if it is the next, on this tip, encodable, properly signed, and all its changes go through; other refusals than of a change leave the replica as it was |
| `ChainContent.FoundingTakenIff` | confcall/e2e/chain.go:197-248 | a first block is taken exactly if a named signer signed it and its changes go through, and that signer founds the group |
| `ChainContent.JoinTakenIff` | confcall/e2e/chain.go:151-195 | a fresh replica takes a block from the middle on the same terms, without learning a founder |
| `ChainFetch.SortByHeight` | confcall/call.go:589 | highest first, and the same blocks |
| `ChainFetch.HasGroupState` | confcall/call.go:590-597 | finds a group state among the changes exactly when there is one |
| `ChainFetch.Choose` | confcall/call.go:589-610 | a highest block with a group state, or a highest block if none has one |
| `ChainFetch.FetchLatest` | confcall/call.go:571-610 | skips what does not decode, fails exactly when nothing does, and else bootstraps from the best block |
| `ChainFetch.WithoutCarrierNoJoin` | confcall/call.go:552-569 | started from a block without a group state there is nothing to join |
| `ChainFetch.ApplyServerBlocks` | confcall/call.go:525-538 | the loop applies exactly the decodable blocks above the current height, ignoring refusals |
| `ChainFetch.NeverGoesBack` | confcall/call.go:525-540 | following the server never lowers the height, and from a height of at least 0 never changes the founder |
| `ChainFetch.CatchesUp` | confcall/call.go:525-540 | an answer that holds the next acceptable blocks in order, amid undecodable, old, repeated and premature ones, ends exactly where applying just those ends, at the last of them |
| `ChainFetch.FollowAlike` | confcall/call.go:525-540 | following the server a bootstrapped replica stays like the full one, as long as no block the loop applies is the founder's alone |
| `IcePairing.NewRemoteIsPaired` | webrtc/ice.go:1169-1213 | what a new remote candidate makes: pairs with all locals of its network, only of those not paired before; none if it is passive |
| `IcePairing.NewLocalIsPaired` | webrtc/ice.go:1235-1268 | what a new local candidate makes: one pair with every remote of its network, in order |
| `IcePairing.StepKeepsPaired` | webrtc/ice.go:1169-1268 | every event keeps each local and each non-passive remote of one network paired |
| `IcePairing.RunPairsAll` | webrtc/ice.go:1169-1268 | in every reachable state each local and each non-passive remote of one network are paired |
| `IceNomination.TickNominatesHighest` | webrtc/ice.go:6533-6560 | with nothing nominated a controlling agent nominates a pair of the highest priority among those that succeeded, the first of them, or pings on |
| `IceNomination.RequestNominatesIff` | webrtc/ice.go:6582-6615 | a request makes its pair the nominee exactly if it succeeded and has the candidates of the highest pair that has not failed |
| `IceNomination.AnswerSelects` | webrtc/ice.go:6617-6666 | the answer to a nomination selects its pair, marks it succeeded and nominated and connects the agent |
| `IceNomination.AnswerOnlySucceeds` | webrtc/ice.go:6617-6666 | any other answer only marks its pair succeeded |
| `IceNomination.NominatedEitherWay` | webrtc/ice.go:6818-6930 | on the controlled side a pair nominated before its check is answered, or after, ends up selected either way |
| `IceNomination.NominationKeepsHigher` | webrtc/ice.go:6771-6788 | a nomination of a pair that works leaves the higher of it and the selected one selected |
| `IceNomination.NewerNominationWins` | webrtc/ice.go:6753-6788 | a nomination value not above the last changes nothing; a newer one of a pair that works always selects it |
| `IceNomination.UnansweredFailsIff` | webrtc/ice.go:799-822 | a pair never answered is pinged once a time and has failed exactly from time maxRequests + 2 on, which the 16-bit count reaches exactly if maxRequests is below 65535 |
| `IceNomination.QuietTicksPing` | webrtc/ice.go:6790-6799 | a controlled agent that hears nothing pings every pair once a tick |
| `IceNomination.TickFailsIff` | webrtc/ice.go:695-722 | a tick ends in failure exactly if the agent had failed, had checked too long, or lost its selected pair for good, and failing leaves no pair, selection or candidate |
| `IceNomination.RestartForgets` | webrtc/ice.go:1747-1800 | a restart forgets pairs, candidates, selection and nominations and goes back to checking unless nothing had begun |
| `IceNomination.ConflictSwitchesOne` | webrtc/ice.go:1517-1560 | of two agents in one role with different tie-breakers the greater ends up controlling and the other controlled, pairs and selections untouched |
| `IcePriority.PairPriorityIsExact` | webrtc/ice.go:4601-4638 | the 64-bit formula never wraps and both agents compute the same number for a pair |
| `IcePriority.ExactFits` | webrtc/ice.go:4601-4638 | the exact pair priority of any two 32-bit priorities fits 64 bits |
| `IcePriority.LexicographicIff` | webrtc/ice.go:4601-4638 | the number orders pairs by smaller, larger and role, as section 6.1.2.3 of RFC 8445 intends, exactly while priorities stay at most 2^31 - 1 |
| `IcePriority.CandidatePriorityInRange` | webrtc/ice.go:3372-3637 | candidate priorities are what type and local preference say and stay within that range, for every kind, components 1 to 256 and TCP offsets up to 100 |
| `IcePriority.OffsetSubtractsIff` | webrtc/ice.go:3611-3627 | the configured TCP offset lowers the type preference of every kind by itself if and only if it is at most 100; above, the 16-bit subtraction wraps, and for offsets strictly between 100 and 65510 a TCP candidate outranks a host |
| `IcePriority.PreferredFirst` | webrtc/ice.go:3629-3637 | on one component the preferred type wins, then the preferred local preference |
| `IcePriority.DirectFirst` | webrtc/ice.go:3611-3637 | of two UDP candidates the more direct outranks: host, peer-reflexive, server-reflexive, relayed |
| `IcePriority.TcpComesBetween` | webrtc/ice.go:3611-3637 | under the default offset a TCP candidate ranks below every UDP one that is not relayed and above every relayed one |
| `IcePriority.DirectionsRank` | webrtc/ice.go:3372-3420 | among TCP candidates the directions rank as section 4.2 of RFC 6544 has them |
| `IceAgent.Agent.AddPair` | webrtc/ice.go:880-888 | a new pair at the end of the list under the next id, in list and index |
| `IceAgent.Agent.FindPair` | webrtc/ice.go:890-898 | the first pair with equal candidates, or none |
| `IceAgent.Agent.UpdateConnectionState` | webrtc/ice.go:761-777 | a change to Failed empties list, index, selection and candidates; any other only changes the state |
| `IceAgent.Agent.SetSelectedPair` | webrtc/ice.go:779-797 | the pair becomes selected and nominated, and the agent connected |
| `IceAgent.Agent.PingAllCandidates` | webrtc/ice.go:799-821 | pairs waiting or in progress go in progress with one more request counted, those over the limit fail, all others stay as they are |
| `IceAgent.Agent.ReplaceRemoteInPairs` | webrtc/ice.go:1129-1144 | every holder of a replaced pair (list, index, selection, nominee) holds its copy, in the same place |
| `IceAgent.Agent.AddRemoteCandidate` | webrtc/ice.go:1169-1233 | a filtered candidate is refused; known candidates change nothing; a new one replaces redundant peer-reflexive ones, and unless passive every local candidate of its network ends up paired with it, with no pair made twice |
| `IceAgent.Agent.AddLocalCandidate` | webrtc/ice.go:1235-1274 | a new local candidate is listed and paired with every remote of its network, once each in their order, and nothing else is added |
| `IceAgent.Agent.BestPair` | webrtc/ice.go:846-878 | none exactly if no pair is considered; otherwise a considered pair that no considered one exceeds in priority and none before it equals |
| `IceAgent.Agent.HandleBindingRequest` | webrtc/ice.go:6582-6916 | what a request does to the agent in either role |
| `IceAgent.Agent.HandleSuccessResponse` | webrtc/ice.go:6617-6865 | what a response does to the agent in either role |
| `IceAgent.Agent.ContactCandidates` | webrtc/ice.go:6533-6799 | either selector, lite or not: validate the selection, nominate, or ping |
| `IceAgent.Agent.Contact` | webrtc/ice.go:691-717 | a periodic contact: nothing once failed, failure when checking is overdue, and otherwise the selector's turn |
| `IceAgent.Agent.RestartSession` | webrtc/ice.go:1747-1797 | a restart clears pairs, candidates, selection and nominations and goes back to checking unless new |
| `IceAgent.Agent.HandleRoleConflict` | webrtc/ice.go:1517-1538 | by the tie-breakers the agent either answers with an error and stays, or flips its role and starts a fresh selector |
| `IceChecklist.ConflictSettlesIff` | webrtc/ice.go:1517-1538 | of two agents in one role exactly one keeps it if and only if their tie-breakers differ |
| `IceAgent.ReplacePairRemote` | webrtc/ice.go:1068-1097 | a fresh copy for another remote with id, state, flags and counters kept |
| `IceChecklist.StepKeepsInv` | webrtc/ice.go:761-1274 | every event keeps the invariant |
| `IceChecklist.RunKeepsInv` | webrtc/ice.go:761-1274 | in every reachable state ids are unique, increasing and at most the last one given, and the selected pair is none or a listed, succeeded and nominated one |
| `IceChecklist.ReplacementKeeps` | webrtc/ice.go:1068-1167 | replacing a remote keeps every pair's id, state, counters, priority, place and selection, and changes exactly the remotes replaced |
| `IceChecklist.SteadyMoves` | webrtc/ice.go:6771-6916 | one event moves the selection only as allowed: never while controlling, only to a priority no lower while controlled |
| `IceChecklist.SelectionNeverWorsens` | webrtc/ice.go:6771-6916 | over every run without restart, failure, role change or nomination values (not lite, or with the priority check on), something stays selected, its priority never decreases, and while controlling it never changes |
| `IceChecklist.AddRemoteIsCalm` | webrtc/ice.go:1169-1212 | a remote candidate, replacements included, moves no pair and no selection |
| `IceChecklist.ResponseKeepsInv` | webrtc/ice.go:6617-6865 | a response selects only a pair it has made succeeded |
| `IceChecklist.NominateAtKeepsInv` | webrtc/ice.go:6867-6916 | a nomination selects only a succeeded pair, and without a value only one no worse |

## Left out

- TransportBuffer.TransportBuffer.Read: returns `WouldBlock` where the code waits; the waiting and its wake-ups are the step system of `TransportWakeups`, whose write, read and close steps are shown to be the buffer's.
- TransportBuffer.TransportBuffer.Write: lengths and the limit are unbounded integers, so 64-bit overflow of sizes is not modelled.
- ReplayDetector.NoReplayIffFaithful: assumes `maxSeq >= 1` (the code divides by it) and window + maxSeq below 2^64, and that the closure `Check` returns is called before the next `Check`.
- TransportDeadline.DeadlineIsSafe: assumes at most 256 callbacks outstanding; that bound is proved tight.
- TransportDeadline.TransportDeadline.Set: the context methods `Done`, `Err`, `Deadline` and `Value` only read what is modelled and are left out.
- HandshakeDelivery.DeliveredInOrder: about flights of fewer than 65536 messages of fewer than 2^24 octets whose fragments stay within the message and below the buffer's count and size caps, one fragment to a record.
- HandshakeTranscript.Flight5Parse: of `fullPullMap` only the lookup of Finished is modelled, with message parsing as a predicate on octets; the session store is left out.
- HandshakeTranscript.SameTranscript: assumes the verify-data function injective and the messages pulled whole, which `TranscriptSources` shows of genuine records and of unmarshalled messages; equal master secrets are the shared `vd`.
- TranscriptSources.GenuineTranscript: the records each side hears are those of one flight list of the other within the limits of DeliveredInOrder; a run after a reassembly panic is not cut short.
- DTLS records with a connection ID: off unless a generator is configured.
- Ccm.Seal: returns octets; reuse of the destination's spare capacity is not modelled. Open likewise.
- Ccm.Tag: associated data is assumed below 2^64 octets.
- CbcPadding.Decrypt: decryption in place is modelled on values, for records below 2 GiB.
- CbcPadding.RoundTrip: about records of other types than change-cipher-spec, which Decrypt passes through unopened; so is CbcPadding.AllPaddingIsOutOfRange.
- OggStream.RecordingStreamsIff: about packets of at most 65025 octets (longer ones overflow the segment count; see `OggStream.OnePacketIff`) that are non-empty and do not begin like an Opus header, which the streamer skips.
- OggPage.OggWriter.WritePacket: write errors of the underlying file are not modelled.
- Ogg and IVF streamers: muting, pausing, pacing and the saved cursor are left out.
- Ogg channel mapping families other than 0: parsed for the header check only.
- VideoDescriptors.Vp9ReadsExactly: descriptors with inter prediction or layer indices are read by the wrong bits; of those only the payloader's own are covered (`VideoAssembly.Vp9Strips`).
- VideoAssembly.FrameAssembler.Push: the two assemblers are one class with a codec field, since they differ only in the descriptor parser.
- IvfStream.StreamIvf: a step of 2^32 ticks or more (a frame longer than thirteen hours), whose conversion to 32 bits Go leaves to the platform, is left to wrap with the clock.
- VideoClock.OneTickShort: like MultipleOfNineIff, about steps that fit 32 bits; WholeTicks has no such bound.
- IvfStream.RecordingKeepsFramesIff: about frames below 2^32 octets, as the entry's size field is 32 bits.
- RTP and RTCP packing: fixed-field packing and a reflection-driven codec would only add easy members.
- Signaling.Peer.Open: key derivation and the key stream are parameters; the constant-time comparison is an equality.
- Signaling.Peer.ParseRecords: the position in the body is kept as the octets still to come.
- Negotiation.Negotiator.LocalOffer: JSON, payload types and SSRC groups of the contents are left out.
- CallProtocol.EveryRunIsOrderly: a failed ICE or DTLS start is a run in which DTLS never comes up; building the channels after the flag is set is one step.
- CallConnection.Connection.HandleInitialSetup: starting ICE and sending the answer are results; what the setup carries (credentials, fingerprints, DTLS role) is left out.
- CallConnection.Connection.HandleCandidates: the add step's own refusals (host names, unparsable candidates) are left out.
- E2eChain.Chain.ApplyBlock: block encoding, hash, signature and key recovery are opaque; `ApplyBlockBytes` differs only in hashing the received octets and is left out.
- ChainLogs.SameTipSameLog: like the other theorems about logs, about replicas grown by fewer than 2^31 - 1 blocks, before the height wraps, with an injective hash that is never all zero.
- ChainFetch.SortByHeight: the library sort is modelled by insertion; only what it promises (order and the same blocks) is used.
- ChainFetch.ApplyServerBlocks: the request, its timer and the readiness test around the loop are left out.
- IceAgent.Agent.HandleBindingRequest: requests are delivered events and only what the agent holds is modelled; the responses, pings and nominations it sends, STUN encoding, automatic renomination and a user binding handler are left out.
- IceAgent.Agent.HandleSuccessResponse: a response is delivered for the request it answers; the lookup by transaction and the test of its source address are left out.
- IceAgent.Agent.Contact: whether checking is overdue is a parameter, since it comes from the clock.
- IceAgent.Agent.ContactCandidates: what the silence of the selected pair amounts to, and whether candidates have waited long enough, are parameters, since they come from the clock; sending a nomination again and keepalives are left out.
- IceAgent.Agent.HandleRoleConflict: that an error was sent is a result; pairs made before keep their role, as in the code.
- IceAgent.Agent.AddRemoteCandidate: the remote filter is a predicate on addresses, and dialling active TCP connections is left out.
- IceAgent.ReplacePairRemote: of the pair's statistics the request and received-request counters are modelled; round-trip times and octet counts are left out.
- IceChecklist.RunKeepsInv: pair ids are unbounded where the code has 64 bits.
- Candidate gathering, sockets, mDNS, mux, Telegram RPC, SDP, loggers and external processes: input and output only.
