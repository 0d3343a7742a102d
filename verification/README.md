# A verified model of the opusfleet audio pipeline

opusfleet carries Opus audio from devices over TCP into Kafka and on into Ogg Opus files. This
project models that path in Dafny 4.11, from the simulated device to the stored file, and proves
the guarantees the system rests on: audio is bit-identical at the end, no cut of the TCP stream
changes what ingest produces, losses are counted exactly across sequence-number wraps, segments hold
exactly the advertised number of packets, and connections stay bounded.

`dafny verify dfyconfig.toml` checks everything.

## Structure

| file | models |
|---|---|
| `Bytes.dfy` | byte strings, concatenation, `struct.pack` integers |
| `OggCrc.dfy` | `server/oggopus.py`: CRC table, byte loop, long division, burst damage |
| `OggPage.dfy` | `server/oggopus.py`: lacing, page bytes, a demuxer written from section 6 of RFC 3533 |
| `OggOpus.dfy` | `server/oggopus.py`: greedy paging and the `OggOpusWriter` class |
| `OggStream.dfy` | what a finished file promises (sections 3 to 5 of RFC 7845) |
| `Protocol.dfy` | `server/protocol.py`: framing, RTP, challenge, AUTH, classification |
| `Auth.dfy` | `server/auth.py`: MAC check, the `ConnectionLimiter` class and its runs |
| `Ingest.dfy`, `Handoff.dfy` | `server/ingest.py`: one connection as a machine over reads; the step from handshake to main loop |
| `Handshake.dfy` | how whole handshakes end: challenge, answer, legacy devices |
| `IngestServer.dfy` | `server/ingest.py`: the methods with their loops, proved against that machine |
| `IngestSystem.dfy` | many connections interleaved between awaits, sharing the limiter |
| `Sink.dfy` | `server/sink.py`: sequence accounting and the receiver's classes |
| `SimDevice.dfy`, `StoreForward.dfy` | `sim/sim_device.py`: frame generation and the store-and-forward loop |
| `SimSink.dfy` | the device and the receiver put together |
| `Segmenter.dfy`, `SegmenterService.dfy` | `server/segmenter.py`: the segment machine, and its classes and loop |
| `Levels.dfy` | `server/levels.py`: per-second buckets |
| `Pipeline.dfy` | the end-to-end identity from framed packets to files |
| `DeviceToFile.dfy` | a simulated device's session, handshake and telemetry included, down to its files |
| `Sessions.dfy` | several sessions of one device among all other connections, down to its files |

Code that updates state is a class or a loop proved against a function; the whole-run theorems are
about those functions.

Three conventions. A 32-bit word of the CRC is the sequence of its bits, most significant first, so
that shifts, masks and exclusive-or are slices, appended zeros and bitwise difference. Text is the
ASCII bytes of a Python `str`. What the model cannot see (the JSON decoder, the MAC, Python's
`hash`, which keys are UTF-8) is a parameter that may be any function; whether a produce or an upload
succeeds is arbitrary.

## Where the code does not do what it promises

Each of these is proved, with the exact condition under which the promise holds.

- `_read_frame` hands back the partial tail before the later frames (`server/ingest.py:67`). The main
  loop sees the stream's frames, whatever arrives next, exactly when the tail and the later frames are
  repetitions of one common block, in particular when either is empty; otherwise every continuation is
  corrupted (`Handoff.LosslessIff`, `Handoff.LeftoverRebuildsIff`). `Handoff.LeftoverReorders` gives a
  buffer on which it is.
- Frames left over from the handshake are processed only when another chunk arrives
  (`Handoff.HandoffNeedsAnotherChunk`). A connection whose handover keeps its order has recorded
  everything its frames call for when it ends, exactly when a chunk followed the handshake or the
  frames call for no record (`Handoff.NothingForgottenAtEndIff`).
- A STAT frame whose JSON is not an object makes the main loop raise (`server/ingest.py:169`): a
  non-empty read closes a streaming connection exactly when it completes such a frame
  (`Ingest.ReadClosesIff`; `Ingest.NumberAsStatCloses` is an input).
- A file finished with no packets demuxes to one empty packet: the round trip holds exactly when some
  packet was added (`OggStream.AudioOfMux`). `finish` returns a file exactly when no packet exceeds
  65024 bytes and the page number and sample count fit their fields (`OggStream.MuxSucceeds`).
- Building a segment happens outside the `try` of `flush`, and so does decoding a message's key: the
  segmenter ends in an exception exactly when some message has a key that is not UTF-8 or an Opus
  packet above 65024 bytes (`Segmenter.SegmenterRaisesIff`; `Segmenter.OversizePacketRaises` is an
  input).
- A full segment lasts `SEGMENT_SECONDS` by `duration_s`, but the ID header's pre-skip is not made up
  for: a player that follows section 4 of RFC 7845 plays 312 samples less of every file
  (`Segmenter.SegmentsAreExact`, `OggStream.PlayedOfMux`).
- Without `loop`, the simulator generates the clip's last frame but never sends or keeps it. Every
  generated frame that is not dropped is sent or held exactly when the clip loops, is not over, or its
  last frame is itself dropped (`StoreForward.NothingForgottenIff`); a session ends exactly when such a
  clip has been played (`SimDevice.EndsIffClipRunsOut`).
- The receiver never takes a loss back. For arrivals inside the window its count is the numbers still
  missing plus the late arrivals that filled a gap, so it is exact if and only if there were none
  (`Sink.LostIsMissingPlusFilled`, `Sink.LossExactIff`; `Sink.LateArrivalStaysLost` is an input).
  For in-order arrivals it is exact if and only if fewer than 0x8000 numbers in a row are missing
  (`Sink.InOrderLossIff`; `Sink.LongGapIsReordering` is an input). Per arrival the exact window is
  `Sink.NoteIsExactIff`.
- The receiver has no branch for AUTH frames: one leaves the loss count alone exactly when it has at
  most 12 bytes, and a longer one counts as the arrival of number 21576 (`Sink.AuthFrameCorruptsIff`;
  `Sink.AuthFrameSpoilsCount` is an input). It does not catch malformed frames: its connection dies
  exactly when some frame is one (`Sink.RaisesIffMalformed`).
- A level record's "frames that second" is that number, for a clock that never runs backwards, exactly
  when no frame arrived in a second between the record before and this one
  (`Levels.RecordCountsItsSecondIff`; `Levels.SilentFrameMiscounted` is an input).

## Model

| member | source | states |
|---|---|---|
| Bytes.ByteOrder | server/oggopus.py:67-74 | little-endian packing puts the least significant byte first, big-endian the most significant |
| OggCrc.MakeCrcTable | server/oggopus.py:31-38 | entry i is eight single-bit generator steps applied to i in the top byte |
| OggCrc.OggCrc32 | server/oggopus.py:44-48 | the table-driven loop returns the remainder of long division of message * x^32 by the generator |
| OggCrc.TableStep | server/oggopus.py:47 | one table lookup equals eight single-bit steps of a whole byte |
| OggCrc.RegisterIsRemainder | server/oggopus.py:44-48 | byte-at-a-time register equals bit-by-bit long division, for every byte string |
| OggCrc.CrcOfOne | server/oggopus.py:28-38 | the checksum of the single byte 1 is 0x04C11DB7: no initial value, reflection or final inversion |
| OggCrc.ShiftInjective | server/oggopus.py:36 | a generator step merges no two registers, because the generator's constant term is 1 |
| OggCrc.BitBurstChangesCrc | server/oggopus.py:44-48 | messages differing only inside one window of 32 bits, wherever it starts, have different checksums |
| OggCrc.BurstChangesCrc | server/oggopus.py:44-48 | equal-length strings differing only inside one window of four bytes have different checksums |
| OggPage.UnlaceLace | server/oggopus.py:51-60 | reassembling the lacing values and joined payload of any packets gives the packets, nothing open |
| OggPage.UnlacePacket | server/oggopus.py:51-60 | a packet's lacing values close exactly that packet, multiples of 255 included |
| OggPage.BuildPage | server/oggopus.py:63-75 | the splice puts the checksum of the zeroed page into its field; raises exactly outside the field widths |
| OggPage.ZeroedEncode | server/oggopus.py:63-75 | every emitted page passes its own checksum |
| OggPage.ParseEncode | server/oggopus.py:63-75 | the page parser recovers every field of an emitted page and leaves what follows untouched |
| OggPage.ParseEncodeAll | server/oggopus.py:111-128 | a concatenation of emitted pages parses back to those pages with no bytes left over |
| OggPage.BitDamageDetected | server/oggopus.py:63-75 | same-length damage within 32 consecutive bits outside the checksum field always fails the check |
| OggPage.DamageDetected | server/oggopus.py:63-75 | same-length damage within four bytes outside the checksum field always fails the check |
| OggOpus.PlanKeepsPackets | server/oggopus.py:130-137 | the writer's pages carry exactly the packets added, in order |
| OggOpus.PlanFits | server/oggopus.py:94-94 | packets of at most 65024 bytes never fill a page beyond 255 lacing values |
| OggOpus.GreedyStaysAhead | server/oggopus.py:130-137 | against any legal paging the writer has no more pages, and on a tie its last page is no fuller |
| OggOpus.GreedyIsOptimal | server/oggopus.py:116-137 | the writer's paging is legal and has the fewest pages of all legal pagings |
| OggOpus.OggOpusWriter.constructor | server/oggopus.py:96-109 | a new writer has emitted exactly the two header pages and holds no packets |
| OggOpus.OggOpusWriter.FlushPage | server/oggopus.py:116-128 | writes exactly the pending page, or the empty EOS page, or nothing; changes nothing when packing raises |
| OggOpus.OggOpusWriter.AddPacket | server/oggopus.py:130-137 | keeps the writer's state the greedy plan of the packets added; raises exactly when a finished page cannot be packed |
| OggOpus.OggOpusWriter.Finish | server/oggopus.py:139-141 | returns the bytes of the whole stream of the packets added, or raises |
| OggOpus.OggOpusWriter.DurationSeconds | server/oggopus.py:143-145 | 48000 times the duration is the packet count times the frame length |
| OggStream.DemuxMux | server/oggopus.py:87-141 | a finished file demuxes to OpusHead, OpusTags and exactly the packets added (one empty packet if none) |
| OggStream.AudioOfMux | server/oggopus.py:116-121 | the file gives back exactly the packets if and only if some packet was added |
| OggStream.MuxSucceeds | server/oggopus.py:63-75 | `finish` returns a file exactly when every packet is at most 65024 bytes and page number and sample count fit |
| OggStream.StreamPagesAre | server/oggopus.py:96-128 | one serial, page numbers 0,1,2,..., BOS on page 0 only, EOS on the last page only, whole packets on every page |
| OggStream.FlagBytes | server/oggopus.py:116-128 | the flag byte is 2 on the first page, 4 on the last, 0 between |
| OggStream.FileStarts | server/oggopus.py:63-68 | a file begins with "OggS", version 0 and the first page's flag |
| OggStream.MagicIsText | server/oggopus.py:78-84 | the magic signatures and the vendor are the ASCII texts |
| OggStream.Granules | server/oggopus.py:130-137 | header pages at granule 0; every audio page at the frame length times the packets completed so far |
| OggStream.EmptyEosPageIffNoPackets | server/oggopus.py:117-121 | for non-empty packets, a page without payload appears exactly when nothing was added |
| OggStream.OpusHeadFields | server/oggopus.py:78-80 | the ID header's fields read back as section 5.1 of RFC 7845 lays them out, 19 bytes in all |
| OggStream.OpusTagsFields | server/oggopus.py:83-84 | the comment header's lengths frame exactly the vendor string and no comments |
| OggStream.PlayedOfMux | server/oggopus.py:130-137 | last page position less pre-skip is the frame length times the packets less the pre-skip |
| Protocol.FrameChecked | server/protocol.py:71-75 | a frame exists exactly up to 65535 bytes and parses back to its payload alone |
| Protocol.ParseFramed | server/protocol.py:78-94 | parsing concatenated frames plus an incomplete tail gives exactly those payloads and that tail |
| Protocol.ParseRebuilds | server/protocol.py:78-94 | consumed frames re-framed plus remainder are the buffer; the remainder is incomplete and at most 65536 bytes |
| Protocol.ParseSplit | server/protocol.py:78-94 | parsing two reads one after the other equals parsing them at once, wherever the cut falls |
| Protocol.IterFrames | server/protocol.py:78-94 | the loop returns complete frames and an incomplete tail that together rebuild the buffer |
| Protocol.AudioRoundTrip | server/protocol.py:113-135 | an Opus packet survives its RTP header; numbers come back modulo their widths; an empty packet is rejected |
| Protocol.ChallengeRoundTrip | server/protocol.py:142-151 | every nonce survives the hex challenge |
| Protocol.FromHexSpells | server/protocol.py:146-151 | whatever text is accepted as hex spells, in lower case and without white space, the bytes it yields |
| Protocol.AuthRoundTrip | server/protocol.py:154-167 | an AUTH frame gives back id and MAC exactly when the id has no colon and neither is empty or padded |
| Protocol.ParseAuthIs | server/protocol.py:158-167 | an AUTH frame splits at its first colon; both parts are trimmed, and an empty one is an error |
| Protocol.AuthNeedsColon | server/protocol.py:161-162 | an AUTH frame without a colon is an error |
| Protocol.StripIs | server/protocol.py:164 | trimming takes the white space at both ends and nothing else |
| Protocol.AsciiOnlyConcat | server/protocol.py:160 | bytes beyond ASCII are dropped wherever they stand, all others kept in order |
| Protocol.ClassifyAudio | server/protocol.py:188-210 | a frame with an RTP header is never taken for a control frame |
| Protocol.ClassifyHello | server/protocol.py:201-202 | a HELLO built for a clean id classifies as that id |
| Protocol.ClassifyPaddedHello | server/protocol.py:201-202 | a padded HELLO names the trimmed id, "unknown" if nothing is left |
| Protocol.MalformedExactly | server/protocol.py:203-209 | malformed are exactly AUTH frames that do not parse and STAT frames without valid JSON |
| Protocol.AudioExactly | server/protocol.py:201-210 | audio is exactly what has none of the three prefixes |
| Protocol.WireNames | server/protocol.py:46-54 | the prefixes and the unknown id are the ASCII texts |
| Protocol.RtpStarts | server/protocol.py:113-122 | an audio frame starts with version byte 0x80 and payload type 111 |
| Protocol.ClassifiedIdsAreClean | server/protocol.py:158-210 | whatever bytes arrive, a classified id is non-empty trimmed ASCII, and an AUTH id has no colon |
| Auth.VerifyExactly | server/auth.py:127-131 | against a hex digest, exactly that digest in either letter case is accepted, and only with a key |
| Auth.VerifyAcceptsSigner | server/auth.py:122-131 | what a key holder signs is accepted |
| Auth.VerifyAcceptsCapitals | server/auth.py:127-131 | the digest is accepted in capitals too |
| Auth.ConnectionLimiter.Allow | server/auth.py:152-165 | pruning, decision and bookkeeping are those of the limiter's step function |
| Auth.ConnectionLimiter.Release | server/auth.py:167-171 | one connection of the address is given back, never below zero |
| Auth.RefusedExactlyWhen | server/auth.py:152-165 | refused if and only if the live cap is reached or the last 60 seconds hold the maximum already |
| Auth.RejectedCountsRefusals | server/auth.py:157-163 | `rejected` is the number of requests refused |
| Auth.AtMostPerMinute | server/auth.py:152-165 | no closed 60-second interval of any run admits more than the maximum from one address |
| Ingest.ChunkingIndependence | server/ingest.py:141-175 | any division of the same bytes into reads gives the same state and the same records |
| Ingest.RecordKeys | server/ingest.py:148-175 | the records are exactly those the frames call for, in order, each keyed by the last accepted HELLO before it, else the starting id |
| Ingest.ReadClosesIff | server/ingest.py:168-171 | a read closes a streaming connection if and only if it completes a STAT frame whose JSON is not an object |
| Ingest.NumberAsStatCloses | server/ingest.py:168-171 | a STAT frame holding the number 1 ends its connection |
| Ingest.AuthedKeepsId | server/ingest.py:156-162 | an authenticated connection's records all carry the proven id whatever arrives |
| Ingest.RequiredModeProves | server/ingest.py:87-109 | in required mode each audio or stat record's id was proven by the connection's first frame against its nonce |
| Ingest.AuthedIsProven | server/ingest.py:87-95 | in any mode an authenticated connection proved its id with its first frame on its own nonce |
| Ingest.StreamsAreNotDenied | server/ingest.py:127-139 | a connection past its handshake closes without a denial |
| Ingest.HandshakeReadsBounded | server/ingest.py:62-71 | a handshake still waiting has made at most 65536 non-empty reads |
| Handoff.CommuteIffSameBlocks | server/ingest.py:67 | two byte strings can be swapped exactly when both repeat one block |
| Handoff.LeftoverRebuildsIff | server/ingest.py:62-71 | first frame plus leftover is the buffer if and only if the written order is harmless |
| Handoff.HarmlessWhenOnePieceIsEmpty | server/ingest.py:67 | an empty tail or a single parsed frame makes the written order harmless |
| Handoff.IntendedOrderRebuilds | server/ingest.py:62-71 | with the frames before the tail, first frame plus leftover is always the buffer |
| Handoff.LeftoverReorders | server/ingest.py:67 | a concrete buffer on which the written order corrupts the stream |
| Handoff.LosslessIff | server/ingest.py:62-71 | for each continuation by itself, no frame is lost or reordered if and only if the written order is harmless |
| Handoff.ConnectionForwardsStream | server/ingest.py:73-175 | a whole accepted connection processes exactly the received stream's frames, without the AUTH frame when authenticated |
| Handoff.HandoffNeedsAnotherChunk | server/ingest.py:141-147 | if the stream ends right after the handshake, leftover frames are never processed |
| Handoff.SilentHandshake | server/ingest.py:62-71 | a device that completes no frame is denied when it falls silent or closes, and not when the connection breaks |
| Handoff.NothingForgottenAtEndIff | server/ingest.py:141-147 | an ended connection has recorded all its frames call for if and only if a chunk followed the handshake or they call for nothing |
| Handshake.FirstFrameDecides | server/ingest.py:62-109 | however one frame is cut into reads, the handshake ends as that frame decides |
| Handshake.AuthAnswer | server/ingest.py:87-101 | any AUTH frame, padded or not, lets the device in under the id it names if and only if it carries the registered key's digest of this nonce |
| Handshake.MalformedFirstFrame | server/ingest.py:126-139 | a malformed first frame is refused in every mode that has a handshake |
| Handshake.AuthWithoutMac | server/ingest.py:126-139 | "AUTH:dev1" is refused even where authentication is optional |
| Handshake.ChallengeAndAnswer | sim/sim_device.py:174-186 | a device answering its challenge is accepted if and only if its key signs this nonce as the registered key does |
| Handshake.SilentExactly | sim/sim_device.py:170-182 | a device answers nothing exactly when it is not challenged or holds no key |
| Handshake.LegacyFirstFrame | server/ingest.py:101-109 | a first frame without AUTH is refused in required mode, otherwise put back whole for the main loop |
| IngestServer.Ingest.Produce | server/ingest.py:44-53 | every attempt is either logged in order or counted as dropped |
| IngestServer.Ingest.ReadFrame | server/ingest.py:62-71 | returns the first frame and leftover from which the connection machine continues |
| IngestServer.Ingest.MainLoop | server/ingest.py:141-175 | attempts exactly the machine's records and counts its audio frames and their bytes |
| IngestServer.Ingest.Handle | server/ingest.py:112-188 | admitted: the machine's records, one release, one connection counted; refused: nothing but the limiter changes |
| IngestSystem.ReachableIsAccounted | server/ingest.py:112-188 | in every reachable interleaving the live count equals the open admitted connections, within the cap; one release and one disconnect each |
| IngestSystem.InterleavingProjects | server/ingest.py:112-188 | each connection behaves as if it ran alone on its own reads |
| IngestSystem.ServerAdmitsAtMostPerMinute | server/auth.py:152-165 | the per-minute cap holds for the limiter calls of any interleaved run |
| IngestSystem.ServerRecordsAreProven | server/ingest.py:87-109 | in required mode every audio or stat record of any interleaved run was proven by its own connection |
| Sink.NoteIsExactIff | server/sink.py:46-56 | 16-bit accounting equals unwrapped accounting if and only if the arrival lies in the window |
| Sink.Unwraps | server/sink.py:46-56 | over any run in the window: last number, reordered count, and lost + arrivals - reordered = max - first + 1 |
| Sink.InOrderLossIff | server/sink.py:46-56 | arrivals in order are counted exactly, none reordered, if and only if fewer than 0x8000 numbers are missing in a row; late arrivals are the matter of LossExactIff |
| Sink.LostIsMissingPlusFilled | server/sink.py:46-56 | over any run in the window the losses are the missing numbers plus the late arrivals that filled a gap |
| Sink.LossExactIff | server/sink.py:46-56 | the loss count is the missing numbers if and only if no arrival came late into a gap |
| Sink.LateArrivalStaysLost | server/sink.py:46-56 | after 0, 2, 1 nothing is missing and one is counted lost |
| Sink.LongGapIsReordering | server/sink.py:46-56 | after 0 and 0x8001 nothing is counted lost and one reordered |
| Sink.DeviceStats.NoteSeq | server/sink.py:46-56 | updates the loss counters and nothing else of the device |
| Sink.NumbersStaySixteenBit | server/sink.py:46-56 | whatever arrives, the last number a receiver remembers stays within 16 bits |
| Sink.AuthFrameCorruptsIff | server/sink.py:123-132 | an AUTH frame leaves the loss count alone if and only if it has at most 12 bytes; a longer one is noted as number 21576 |
| Sink.AuthFrameSpoilsCount | server/sink.py:123-132 | a concrete AUTH frame after which audio frame 0 counts as reordered |
| Sink.RaisesIffMalformed | server/sink.py:110-111 | frames end the connection in an exception if and only if some frame is malformed |
| Sink.FramesCountForSpeaker | server/sink.py:110-132 | the connection is the device of the last HELLO, and every device's counters grow by exactly the frames that came while it was |
| Sink.TableListsSpeakers | server/sink.py:90-94 | the table gains exactly the devices something was received for |
| Sink.FramesUpToMalformed | server/sink.py:110-111 | the first malformed frame ends the connection with everything before it counted |
| Sink.EmptyReadEnds | server/sink.py:106-107 | an empty read ends the connection whatever would follow |
| Sink.ReadsJoin | server/sink.py:104-109 | however the bytes are divided into reads, the receiver ends as if it had parsed them at once |
| Sink.Sink.HandleFrames | server/sink.py:110-136 | the shared device table after a batch of frames, or up to the frame that raises |
| Sink.Sink.Handle | server/sink.py:96-109 | the read loop leaves the device table of the receiver function over its reads and counts one connection |
| SimDevice.SimDevice.NextAudioFrame | sim/sim_device.py:157-162 | the frame for the current counters, which then advance modulo their widths |
| SimDevice.SimDevice.RunSession | sim/sim_device.py:216-260 | the loop's writes, backlog and counters are those of the session function |
| SimDevice.CountersAdvance | sim/sim_device.py:157-162 | after any session number and clock are one step on per iteration that happened, modulo their widths, the clip's end included |
| SimDevice.EndsIffClipRunsOut | sim/sim_device.py:236-241 | a session ends by itself if and only if it has played a clip that does not loop |
| StoreForward.StoreAndForward | sim/sim_device.py:224-260 | audio frames written then backlog are exactly the frames stored and not dropped, in order, in running and ended sessions; sent bytes grow by exactly the audio written |
| StoreForward.NothingForgottenIff | sim/sim_device.py:236-254 | every generated frame not dropped is sent or held if and only if the clip loops, is not over, or its last frame is dropped |
| StoreForward.LastFrameOfClipIsNotSent | sim/sim_device.py:236-241 | a session ends exactly when a clip without looping is played; its last frame takes a number but is neither sent, kept nor counted dropped |
| StoreForward.StallBuffers | sim/sim_device.py:231-246 | during a stall nothing is written and every frame stored and not dropped is kept, one per tick |
| StoreForward.StallTimers | sim/sim_device.py:231-234 | a stall lasts `stall` from the tick that begins it, and the next cannot begin before `stallEvery` |
| StoreForward.BurstEndsStall | sim/sim_device.py:245-254 | the first undropped frame after a stall sends the whole backlog and itself in one write, leaving nothing held |
| StoreForward.SendsWithoutStall | sim/sim_device.py:243-254 | while no stall is due nothing is held and each undropped frame goes out in a write of its own |
| StoreForward.SendsUntilFirstStall | sim/sim_device.py:217-234 | a session sends at once until `stallEvery` after its start |
| StoreForward.OneIteration | sim/sim_device.py:243-259 | what one iteration sends, drops and counts, and when telemetry is due again |
| StoreForward.NoStatUntilDue | sim/sim_device.py:256-259 | before telemetry is due every write is one of audio |
| StoreForward.NoStatInFirstInterval | sim/sim_device.py:220-259 | the first telemetry is due `stat_interval` after the start |
| StoreForward.DroppedCounts | sim/sim_device.py:243-244 | `dropped` counts exactly the frames lost among those stored |
| StoreForward.KeptExactly | sim/sim_device.py:243-244 | kept are exactly the frames whose draw does not fall below the loss rate, in order |
| StoreForward.GeneratedFields | sim/sim_device.py:157-162 | the k-th frame carries the k-th packet of the repeated clip, with number, clock and source in their widths |
| SimSink.SimulatorAndSinkAgree | sim/sim_device.py:224-260 | in any division into reads the receiver's losses are the frames dropped between first and last delivered, none reordered, if and only if drop runs stay below 0x8000 |
| SimSink.StallLosesNothing | sim/sim_device.py:243-254 | a stall without random loss, burst out, sends every frame but a finished clip's last; zero lost, zero reordered across any number of wraps |
| Segmenter.MessageCountsForKey | server/segmenter.py:108-118 | a message's packet is added to the device its key names, "unknown" without a key, and to no other |
| Segmenter.MessageRotatesIffFull | server/segmenter.py:39-41 | a message closes its segment exactly when it completes SEGMENT_SECONDS * 50 packets; otherwise the segment grows and keeps its start |
| Segmenter.MessageWithoutAudioIgnored | server/segmenter.py:104-112 | broker errors and messages without an Opus packet change nothing |
| Segmenter.Conservation | server/segmenter.py:75-118 | at any point a device's files then open segment hold exactly its valid packets, in order |
| Segmenter.FinishConserves | server/segmenter.py:121-123 | shutdown neither loses nor reorders a packet, even when building a file raises |
| Segmenter.SegmentsAreExact | server/segmenter.py:25-47 | all files of any run, also those flushed after an exception, demux to their packets; by count exactly SEGMENT_SECONDS by `duration_s`, otherwise shorter and not empty; each plays the pre-skip less |
| Segmenter.SegmenterRaisesIff | server/segmenter.py:75-123 | the run ends in an exception if and only if some message has an undecodable key or a packet above 65024 bytes |
| Segmenter.OversizePacketRaises | server/segmenter.py:79 | one packet of 65025 bytes ends the run in an exception |
| Segmenter.AllPacketsAreFiled | server/segmenter.py:121-123 | when every message fits, after the shutdown the files alone hold exactly each device's packets |
| Segmenter.IdleFlushesExactlyTheQuiet | server/segmenter.py:96-104 | an idle tick raises exactly when a quiet segment cannot be built, otherwise resets exactly the non-empty segments older than twice the segment length |
| SegmenterService.DeviceSegment.Add | server/segmenter.py:39-41 | appends the packet and reports whether the segment is full |
| SegmenterService.DeviceSegment.BuildOpus | server/segmenter.py:43-47 | the file of the buffered packets and its duration, or the writer's exception |
| SegmenterService.Service.FlushSegment | server/segmenter.py:75-91 | builds and resets one segment, touches no other, whatever the upload does; counts the upload at most once |
| SegmenterService.Service.RunLoop | server/segmenter.py:93-125 | the whole loop with its final flush ends in the state of the segment machine and reports whether an exception came out |
| Levels.Meter.Add | server/levels.py:33-48 | one frame's bucket update and the record it emits, if any |
| Levels.Measure | server/levels.py:42-46 | energy and peak of one frame's samples |
| Levels.PeakIs | server/levels.py:46 | the peak is the greatest absolute sample |
| Levels.EnergyIs | server/levels.py:44 | the energy is the sum of the squares |
| Levels.SecondIs | server/levels.py:34 | a reading's second is its whole part, towards zero |
| Levels.LeavingReports | server/levels.py:35-40 | leaving a second whose last frame had samples reports it, with all that was pending |
| Levels.RecordsAreSeconds | server/levels.py:33-64 | for a non-decreasing clock the records are exactly the finished seconds with samples |
| Levels.RecordMeasuresItsSecond | server/levels.py:33-64 | each record holds the energy, count and peak of exactly its second's samples |
| Levels.RecordsPartitionFrames | server/levels.py:33-64 | the frames divide into consecutive stretches, one per record and one pending, each with exactly its energy, samples, peak and count |
| Levels.FramesConserved | server/levels.py:33-64 | reported plus pending frames equal frames added, also across empty emits |
| Levels.LevelsBounded | server/levels.py:33-64 | summed squares are at most n times the squared peak in every bucket and record |
| Levels.RmsBelowPeak | server/levels.py:53-58 | in every record of every run the value behind `db` never exceeds the value behind `pk` |
| Levels.SecondsIncrease | server/levels.py:33-64 | for a non-decreasing clock reported seconds strictly increase and each record catches up with all frames of its second |
| Levels.RecordCountsItsSecondIff | server/levels.py:33-64 | a record's `f` is its second's frame count if and only if no frame arrived between its second and the record before |
| Levels.SilentFrameMiscounted | server/levels.py:33-64 | a frame without samples in second 1 is counted into the record of second 2 |
| Pipeline.IngestForwardsAudio | server/protocol.py:71-135 | however TCP cuts the stream, ingest produces exactly the device's frames in order under the connection's id |
| Pipeline.FilesReplayMessages | server/segmenter.py:93-125 | a device's files, demuxed one after the other, are exactly the Opus packets of its messages |
| Pipeline.EndToEndIdentity | server/segmenter.py:43-47 | packets framed, cut, parsed, keyed, segmented, muxed and demuxed are the original packets |
| DeviceToFile.SessionReachesTopic | server/ingest.py:73-175 | a session opened by AUTH, HELLO or nothing, telemetry included, has its audio under the device's id (or "unknown") on the topic |
| DeviceToFile.DeviceToFiles | sim/sim_device.py:206-260 | with an accepted handshake, the demuxed files are exactly the packets of the frames the device sent |
| DeviceToFile.AuthenticatedDeviceToFiles | sim/sim_device.py:184-260 | a device that waits for the verdict on its AUTH answer has its files exact for every cut of both parts of its stream |
| DeviceToFile.OpenDeviceToFiles | sim/sim_device.py:206-260 | the same without a handshake, for any cut of the stream, also for a session without HELLO |
| Sessions.TopicInTurn | server/ingest.py:112-188 | while connections take turns under an id, the topic holds their audio one connection after the other |
| Sessions.SessionsToFiles | server/ingest.py:112-188 | any number of sessions of one device on a busy server: its files are exactly the packets sent, session after session |

## Left out

- Kafka, S3, WebSocket, HTTP and sockets: reads are a list of chunks, producing appends or drops, an upload succeeds or fails.
- A write that fails while draining during the handshake: only reads may fail.
- libopus, numpy, ffmpeg and the WAV format: packets and samples are given.
- HMAC internals, nonce generation and constant-time comparison.
- JSON text and Unicode decoding, including a decoder that runs out of stack: a STAT body is invalid, an object or something else.
- Float rounding and logarithms: sums and clocks are exact, and the two decibel values are compared through the increasing function they share.
- `Ingest.online` and `unauthenticated`: the first does not track connected ids under duplicate connections, the second is a report counter.
- Timestamps and peer addresses inside event and stat records.
- Reloading the key file: the registry is a map at handshake time.
- `server/live.py`, `server/api.py`, `server/storage.py`, `server/config.py`, `server/bus.py`, `server/run.py`, `sim/fleet.py`: plumbing, or state shared across threads without a lock.
- The simulator's wait for the verdict on its AUTH answer and its reconnect loop; a session that loses its connection is one whose ticks run out.
- `sent_frames` of the simulator as a count of frames on the wire: a burst adds one.
- Sink.Sink.HandleFrames: does not model the decoder (`note_pcm`, `samples`, decode errors after a good header) or the time stamps and last STAT of a device, which no counter proved here reads.
- SegmenterService.Service.RunLoop: does not model an interrupt inside `flush` or between adding a packet and flushing; there a full segment is left to the shutdown flush.
- Segmenter.SegmentsAreExact: does not cover the file such an interrupt leaves to the shutdown flush, which may then be full.
- The clock is read once per consumed event: the resets of one idle tick share one reading.
- OggOpus.OggOpusWriter.Finish: states one call; a second call would write a second end of stream.
