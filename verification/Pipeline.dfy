/** From the microphone's packets to the stored files: nothing is changed on the way. */
module Pipeline {
  import opened Bytes
  import opened Protocol
  import opened OggOpus
  import opened OggStream
  import I = Ingest
  import S = Segmenter

  // ---------------------------------------------------------------------
  // The device's side
  // ---------------------------------------------------------------------

  /** Packets an Opus encoder delivers and one Ogg page can hold. */
  predicate Storable(packets: seq<bytes>) {
    forall p <- packets :: 0 < |p| <= MAX_PACKET
  }

  /** Each packet behind its RTP header, with consecutive numbers and a running clock. */
  function AudioPayloads(packets: seq<bytes>, seqno: nat, ts: nat, ssrc: nat): (r: seq<payload>)
    requires Storable(packets)
    ensures |r| == |packets|
  {
    if packets == [] then [] else
      var n := |packets| - 1;
      assert packets[n] in packets && forall p <- packets[..n] :: p in packets;
      AudioPayloads(packets[..n], seqno, ts, ssrc) + [BuildAudio(packets[n], seqno + n, ts + FRAME_SAMPLES * n, ssrc)]
  }

  /** The Opus packets inside audio frames. */
  function OpusOf(frames: seq<bytes>): seq<bytes> {
    if frames == [] then [] else
      OpusOf(frames[..|frames| - 1])
      + match ParseAudio(frames[|frames| - 1]) { case None => [] case Some(rtp) => [rtp.opus] }
  }

  lemma OpusSnoc(frames: seq<bytes>, f: bytes)
    ensures OpusOf(frames + [f])
            == OpusOf(frames) + match ParseAudio(f) { case None => [] case Some(rtp) => [rtp.opus] }
  {
    assert (frames + [f])[..|frames|] == frames;
  }

  lemma LastPayload(packets: seq<bytes>, seqno: nat, ts: nat, ssrc: nat) returns (init: seq<bytes>, packet: bytes, last: payload, n: nat)
    requires Storable(packets) && packets != []
    ensures packets == init + [packet] && Storable(init) && packet != [] && n == |init|
    ensures last == BuildAudio(packet, seqno + n, ts + FRAME_SAMPLES * n, ssrc)
    ensures AudioPayloads(packets, seqno, ts, ssrc) == AudioPayloads(init, seqno, ts, ssrc) + [last]
  {
    hide BuildAudio;
    n := |packets| - 1;
    init, packet := packets[..n], packets[n];
    assert packets[n] in packets && forall p <- packets[..n] :: p in packets;
    last := BuildAudio(packet, seqno + n, ts + FRAME_SAMPLES * n, ssrc);
  }

  lemma {:induction false} PayloadsCarryPackets(packets: seq<bytes>, seqno: nat, ts: nat, ssrc: nat)
    requires Storable(packets)
    ensures OpusOf(AudioPayloads(packets, seqno, ts, ssrc)) == packets
    decreases |packets|
  {
    if packets != [] {
      hide BuildAudio, ParseAudio, OpusOf, AudioPayloads, Storable;
      var init, packet, last, n := LastPayload(packets, seqno, ts, ssrc);
      PayloadsCarryPackets(init, seqno, ts, ssrc);
      AudioRoundTrip(packet, seqno + n, ts + FRAME_SAMPLES * n, ssrc);
      OpusSnoc(AudioPayloads(init, seqno, ts, ssrc), last);
    }
  }

  // ---------------------------------------------------------------------
  // Ingest
  // ---------------------------------------------------------------------

  /** One audio record per frame, all under one key. */
  function AudioRecords(imei: text, frames: seq<payload>): seq<I.Record> {
    seq(|frames|, i requires 0 <= i < |frames| => I.Record(I.AudioRaw, imei, I.Raw(frames[i])))
  }

  lemma {:induction false} IngestAudio(json: bytes -> Json, authed: bool, imei: text,
                                      packets: seq<bytes>, seqno: nat, ts: nat, ssrc: nat)
    requires Storable(packets)
    ensures var frames := AudioPayloads(packets, seqno, ts, ssrc);
            I.Process(json, authed, imei, frames) == I.Out(imei, AudioRecords(imei, frames), false)
    decreases |packets|
  {
    if packets != [] {
      hide BuildAudio, Classify, I.Process, AudioPayloads, Storable, AudioRecords;
      var init, packet, last, n := LastPayload(packets, seqno, ts, ssrc);
      var frames := AudioPayloads(init, seqno, ts, ssrc);
      IngestAudio(json, authed, imei, init, seqno, ts, ssrc);
      ClassifyAudio(json, packet, seqno + n, ts + FRAME_SAMPLES * n, ssrc);
      I.ProcessConcat(json, authed, imei, frames, [last]);
      I.ProcessOne(json, authed, imei, last);
      RecordsSnoc(imei, frames, last);
    }
  }

  lemma RecordsSnoc(imei: text, frames: seq<payload>, last: payload)
    ensures AudioRecords(imei, frames + [last])
            == AudioRecords(imei, frames) + [I.Record(I.AudioRaw, imei, I.Raw(last))]
  {}

  lemma FramedIsNotEmpty(packets: seq<bytes>, seqno: nat, ts: nat, ssrc: nat)
    requires Storable(packets) && packets != []
    ensures FrameAll(AudioPayloads(packets, seqno, ts, ssrc)) != []
  {
    var frames := AudioPayloads(packets, seqno, ts, ssrc);
    FramePrefix(frames[0], FrameAll(frames[1..]));
    hide AudioPayloads, Frame;
  }

  /** However TCP cuts the stream, ingest produces exactly the frames, in order, under the connection's id. */
  lemma IngestForwardsAudio(w: I.World, nonce: bytes, imei: text, authed: bool, chunks: seq<bytes>,
                            packets: seq<bytes>, seqno: nat, ts: nat, ssrc: nat)
    requires Storable(packets) && packets != [] && NonEmptyChunks(chunks)
    requires Flatten(chunks) == FrameAll(AudioPayloads(packets, seqno, ts, ssrc))
    ensures I.Run(w, nonce, I.Streaming(imei, authed, []), I.DataReads(chunks))
            == (I.Streaming(imei, authed, []), AudioRecords(imei, AudioPayloads(packets, seqno, ts, ssrc)))
  {
    var frames := AudioPayloads(packets, seqno, ts, ssrc);
    FramedIsNotEmpty(packets, seqno, ts, ssrc);
    assert chunks != [];
    I.ChunkingIndependence(w, nonce, imei, authed, [], chunks);
    ParseFramed(frames, []);
    IngestAudio(w.json, authed, imei, packets, seqno, ts, ssrc);
    hide AudioPayloads, Parse, FrameAll, Flatten, I.Process, I.Run, AudioRecords;
    assert [] + Flatten(chunks) == Flatten(chunks) && FrameAll(frames) + [] == FrameAll(frames);
  }

  // ---------------------------------------------------------------------
  // The topic
  // ---------------------------------------------------------------------

  /** The values of one key's messages, in the order the segmenter sees them; those without a key are "unknown". */
  function MessagesFor(events: seq<S.Event>, id: text): seq<bytes> {
    if events == [] then [] else
      var e := events[|events| - 1];
      MessagesFor(events[..|events| - 1], id)
      + if e.Message? && id == (if e.key == [] then UNKNOWN else e.key) then [e.value] else []
  }

  /** The payloads of a record log under one key. */
  function AudioValues(records: seq<I.Record>, id: text): seq<bytes> {
    if records == [] then [] else
      var r := records[|records| - 1];
      AudioValues(records[..|records| - 1], id)
      + if r.topic == I.AudioRaw && r.key == id && r.value.Raw? then [r.value.frame] else []
  }

  lemma {:induction false} AudioValuesOfRecords(imei: text, frames: seq<payload>)
    ensures AudioValues(AudioRecords(imei, frames), imei) == frames
  {
    if frames != [] {
      var n := |frames| - 1;
      assert AudioRecords(imei, frames)[..n] == AudioRecords(imei, frames[..n]);
      AudioValuesOfRecords(imei, frames[..n]);
    }
  }

  lemma {:induction false} ConsumedIsOpus(u: S.Setup, events: seq<S.Event>, id: text)
    requires !S.Consume(u, events).raised && S.MessagesFit(u, events)
    ensures S.Consumed(u, events, id) == OpusOf(MessagesFor(events, id))
  {
    if events != [] {
      var init, e := events[..|events| - 1], events[|events| - 1];
      ConsumedIsOpus(u, init, id);
      hide S.Consume, ParseAudio, OpusOf;
      if e.Message? {
        OpusSnoc(MessagesFor(init, id), e.value);
      }
      assert OpusOf(MessagesFor(init, id)) + [] == OpusOf(MessagesFor(init, id));
      assert MessagesFor(init, id) + [] == MessagesFor(init, id);
    }
  }

  // ---------------------------------------------------------------------
  // The files
  // ---------------------------------------------------------------------

  /** What demuxing a device's files one after the other gives. */
  function Replay(built: seq<S.Built>, id: text): seq<bytes> {
    if built == [] then [] else
      var b := built[|built| - 1];
      Replay(built[..|built| - 1], id)
      + if b.imei != id then [] else match AudioOf(b.file) { case None => [] case Some(packets) => packets }
  }

  lemma {:induction false} ReplayIsBuilt(u: S.Setup, built: seq<S.Built>, id: text)
    requires forall i | 0 <= i < |built| :: S.FileOk(u, built[i])
    ensures Replay(built, id) == S.BuiltPackets(built, id)
  {
    if built != [] {
      ReplayIsBuilt(u, built[..|built| - 1], id);
      assert S.FileOk(u, built[|built| - 1]);
      hide AudioOf;
    }
  }

  /** A segmenter run over messages that fit ends cleanly, and its files replay each device's messages. */
  lemma FilesReplayMessages(u: S.Setup, events: seq<S.Event>, end: real, id: text)
    requires S.ReasonableLength(u) && S.MessagesFit(u, events)
    ensures var last := S.Finish(u, S.Consume(u, events), end);
            !last.raised && Replay(last.built, id) == OpusOf(MessagesFor(events, id))
  {
    var s := S.Consume(u, events);
    S.SegmenterRaisesIff(u, events, end);
    ConsumedIsOpus(u, events, id);
    S.AllPacketsAreFiled(u, events, end, id);
    S.FinishSized(u, events, end);
    hide S.Consume, S.Finish, S.Unbuildable, OpusOf, MessagesFor, S.Consumed;
    ReplayIsBuilt(u, S.Finish(u, s, end).built, id);
  }

  /**
    * End to end: packets numbered and framed by the device, cut anywhere by TCP, forwarded by
    * ingest, delivered to the segmenter in per-key order among any other devices' messages and idle
    * ticks, rotated into segments of any length, muxed and demuxed, are the original packets.
    */
  lemma EndToEndIdentity(w: I.World, nonce: bytes, imei: text, authed: bool, chunks: seq<bytes>,
                         packets: seq<bytes>, seqno: nat, ts: nat, ssrc: nat,
                         u: S.Setup, events: seq<S.Event>, end: real)
    requires Storable(packets) && packets != [] && NonEmptyChunks(chunks)
    requires Flatten(chunks) == FrameAll(AudioPayloads(packets, seqno, ts, ssrc))
    requires S.ReasonableLength(u) && S.MessagesFit(u, events)
    requires MessagesFor(events, imei)
             == AudioValues(I.Run(w, nonce, I.Streaming(imei, authed, []), I.DataReads(chunks)).1, imei)
    ensures Replay(S.Finish(u, S.Consume(u, events), end).built, imei) == packets
  {
    var frames := AudioPayloads(packets, seqno, ts, ssrc);
    IngestForwardsAudio(w, nonce, imei, authed, chunks, packets, seqno, ts, ssrc);
    AudioValuesOfRecords(imei, frames);
    FilesReplayMessages(u, events, end, imei);
    PayloadsCarryPackets(packets, seqno, ts, ssrc);
  }
}
