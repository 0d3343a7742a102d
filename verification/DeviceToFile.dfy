/** A simulated device's session through ingest and the segmenter to its stored files. */
module DeviceToFile {
  import opened Bytes
  import opened Protocol
  import opened SimDevice
  import opened StoreForward
  import opened SimSink
  import A = Auth
  import I = Ingest
  import H = Handoff
  import G = Handshake
  import P = Pipeline
  import S = Segmenter

  // ---------------------------------------------------------------------
  // Frames and records
  // ---------------------------------------------------------------------

  /** Ingest, unlike the receiver, survives a STAT only if it is a JSON object. */
  function ObjectsOnly(json: bytes -> Json): bytes -> Json {
    doc => if json(doc) == Object then Object else Invalid
  }

  lemma {:induction false} AudioValuesConcat(a: seq<I.Record>, b: seq<I.Record>, id: text)
    ensures P.AudioValues(a + b, id) == P.AudioValues(a, id) + P.AudioValues(b, id)
  {
    if b == [] {
      assert a + b == a;
    } else {
      assert (a + b)[..|a + b| - 1] == a + b[..|b| - 1];
      AudioValuesConcat(a, b[..|b| - 1], id);
    }
  }

  lemma OneValue(r: I.Record, id: text)
    ensures P.AudioValues([r], id) == if r.topic == I.AudioRaw && r.key == id && r.value.Raw? then [r.value.frame] else []
  {
    assert [r][..0] == [];
  }

  lemma DeviceFrameRecord(json: bytes -> Json, authed: bool, imei: text, f: payload)
    requires DeviceFrame(ObjectsOnly(json), f)
    ensures var out := I.OneFrame(json, authed, imei, f);
            && f != [] && out.imei == imei && !out.raised
            && P.AudioValues(out.records, imei) == if f[0] == 0x80 then [f] else []
  {
    if f[0] == 0x80 {
      assert Classify(json, f) == Audio(f);
      OneValue(I.Record(I.AudioRaw, imei, I.Raw(f)), imei);
    } else {
      assert f == BuildStat(f[|STAT_PREFIX|..]);
      ClassifyStat(json, f[|STAT_PREFIX|..]);
      hide Classify;
      OneValue(I.Record(I.DeviceStat, imei, I.StatDoc(f[|STAT_PREFIX|..])), imei);
    }
  }

  /** Ingest forwards the audio frames of a session, in order, under the connection's id. */
  lemma {:induction false} DeviceRecords(json: bytes -> Json, authed: bool, imei: text, frames: seq<payload>)
    requires DeviceFrames(ObjectsOnly(json), frames)
    ensures var out := I.Process(json, authed, imei, frames);
            out.imei == imei && !out.raised && P.AudioValues(out.records, imei) == AudioFrames(frames)
  {
    if frames != [] {
      hide I.OneFrame, DeviceFrame, P.AudioValues, AudioFrames, I.Process;
      var init, f := frames[..|frames| - 1], frames[|frames| - 1];
      assert frames == init + [f];
      DeviceRecords(json, authed, imei, init);
      DeviceFrameRecord(json, authed, imei, f);
      I.ProcessConcat(json, authed, imei, init, [f]);
      I.ProcessOne(json, authed, imei, f);
      AudioValuesConcat(I.Process(json, authed, imei, init).records, I.OneFrame(json, authed, imei, f).records, imei);
      AudioSnoc(init, f);
    }
  }

  // ---------------------------------------------------------------------
  // Who the device is
  // ---------------------------------------------------------------------

  predicate AreHellos(json: bytes -> Json, id: text, frames: seq<payload>) {
    forall i | 0 <= i < |frames| :: Classify(json, frames[i]) == Hello(id)
  }

  /**
    * What a device sends before its audio: an AUTH answer or a HELLO, then HELLOs, all for one id.
    * One that sends nothing of the kind is unknown.
    */
  predicate Opens(json: bytes -> Json, id: text, lead: seq<payload>) {
    if lead == [] then id == UNKNOWN else
      && (var kind := Classify(json, lead[0]); kind == Hello(id) || (kind.Auth? && kind.device == id))
      && AreHellos(json, id, lead[1..])
  }

  lemma {:induction false} HellosIdentify(json: bytes -> Json, authed: bool, imei: text, id: text, hellos: seq<payload>)
    requires AreHellos(json, id, hellos) && (imei == id || (!authed && hellos != []))
    ensures var out := I.Process(json, authed, imei, hellos);
            out.imei == id && !out.raised && P.AudioValues(out.records, id) == []
    decreases |hellos|
  {
    if hellos != [] {
      hide Classify;
      var one := I.OneFrame(json, authed, imei, hellos[0]);
      OneValue(I.Record(I.DeviceEvents, id, I.Connected), id);
      HellosIdentify(json, authed, id, id, hellos[1..]);
      AudioValuesConcat(one.records, I.Process(json, authed, id, hellos[1..]).records, id);
    }
  }

  lemma SessionRecords(w: I.World, authed: bool, imei: text, id: text, hellos: seq<payload>, frames: seq<payload>)
    requires AreHellos(w.json, id, hellos) && (imei == id || (!authed && hellos != []))
    requires DeviceFrames(ObjectsOnly(w.json), frames)
    ensures P.AudioValues(I.Streamed(w, authed, imei, (hellos + frames, [])).1, id) == AudioFrames(frames)
  {
    hide I.Process, AreHellos, DeviceFrames, AudioFrames, P.AudioValues;
    HellosIdentify(w.json, authed, imei, id, hellos);
    DeviceRecords(w.json, authed, id, frames);
    I.ProcessConcat(w.json, authed, imei, hellos, frames);
    AudioValuesConcat(I.Process(w.json, authed, imei, hellos).records, I.Process(w.json, authed, id, frames).records, id);
  }

  // ---------------------------------------------------------------------
  // To the topic
  // ---------------------------------------------------------------------

  /** The bytes a device sends in one session. */
  function Spoken(lead: seq<payload>, o: Options, s: Session, ticks: seq<Tick>): bytes
    requires s.idx < |o.packets|
  {
    FrameAll(lead) + Flatten(Play(o, s, ticks).writes)
  }

  lemma SpokenParses(json: bytes -> Json, lead: seq<payload>, o: Options, s: Session, ticks: seq<Tick>)
    returns (sent: seq<payload>)
    requires Fresh(s) && SaneInputs(json, o, ticks)
    ensures Parse(Spoken(lead, o, s, ticks)) == (lead + sent, [])
    ensures Parse(Flatten(Play(o, s, ticks).writes)).0 == sent && DeviceFrames(json, sent)
  {
    sent := TraceOf(o, s, ticks).sent;
    TraceMatches(o, s, ticks);
    TraceIsDeviceFrames(json, o, s, ticks);
    hide Play, TraceOf, Parse, FrameAll, Flatten, DeviceFrames, FrameEach, AudioFrames;
    FrameAllConcat(lead, sent);
    ParseFramed(sent, []);
    ParseFramed(lead + sent, []);
    assert FrameAll(sent) + [] == FrameAll(sent) && FrameAll(lead + sent) + [] == FrameAll(lead + sent);
  }

  /** Without a handshake: however TCP cuts a session opened by HELLO or by nothing, its audio reaches the topic under its id. */
  lemma OpenSessionReachesTopic(w: I.World, nonce: bytes, id: text, lead: seq<payload>,
                                o: Options, s: Session, ticks: seq<Tick>, chunks: seq<bytes>)
    requires w.mode.Disabled? && AreHellos(w.json, id, lead) && (lead == [] ==> id == UNKNOWN)
    requires Fresh(s) && SaneInputs(ObjectsOnly(w.json), o, ticks)
    requires NonEmptyChunks(chunks) && Flatten(chunks) == Spoken(lead, o, s, ticks)
    ensures P.AudioValues(I.Run(w, nonce, I.Start(w.mode), I.DataReads(chunks)).1, id)
            == AudioFrames(Parse(Flatten(Play(o, s, ticks).writes)).0)
  {
    NothingAtAll(w, nonce, id);
    hide Play, Parse, FrameAll, Flatten, DeviceFrames, AudioFrames, Spoken, SaneInputs, AreHellos;
    hide I.Streamed, I.Run, P.AudioValues;
    var sent := SpokenParses(ObjectsOnly(w.json), lead, o, s, ticks);
    FlattenNonEmpty(chunks);
    if chunks == [] {
      assert |lead + sent| == 0;
    } else {
      I.ChunkingIndependence(w, nonce, UNKNOWN, false, [], chunks);
      assert [] + Flatten(chunks) == Flatten(chunks);
      SessionRecords(w, false, UNKNOWN, id, lead, sent);
    }
  }

  lemma NothingAtAll(w: I.World, nonce: bytes, id: text)
    ensures Parse([]) == ([], []) && AudioFrames([]) == [] && P.AudioValues([], id) == []
    ensures I.Run(w, nonce, I.Start(w.mode), I.DataReads([])).1 == []
  {}

  /** The handshake lets this first frame in. */
  predicate Accepted(w: I.World, nonce: bytes, first: payload) {
    var kind := Classify(w.json, first);
    if kind.Auth? then kind.device in w.keys && A.Verify(w.mac, w.keys[kind.device], nonce, kind.mac) else !w.mode.Required?
  }

  lemma DeviceFrameKind(json: bytes -> Json, f: payload)
    requires DeviceFrame(ObjectsOnly(json), f)
    ensures Classify(json, f).Audio? || Classify(json, f).Stat?
  {
    if f[0] != 0x80 {
      assert f == BuildStat(f[|STAT_PREFIX|..]);
      ClassifyStat(json, f[|STAT_PREFIX|..]);
    }
  }

  lemma AcceptedStarts(w: I.World, nonce: bytes, id: text, lead: seq<payload>, sent: seq<payload>, leftover: bytes)
    requires Opens(w.json, id, lead) && DeviceFrames(ObjectsOnly(w.json), sent)
    requires lead + sent != [] && Accepted(w, nonce, (lead + sent)[0])
    ensures var start := I.Decide(w, nonce, (lead + sent)[0], leftover);
            && start.Streaming? && start.imei == id && start.authed == Classify(w.json, (lead + sent)[0]).Auth?
  {
    hide Classify, Frame, A.Verify, AreHellos, DeviceFrame;
    if lead == [] {
      assert lead + sent == sent;
      DeviceFrameKind(w.json, sent[0]);
    }
  }

  lemma FirstOfEarly(early: bytes, later: bytes)
    requires Parse(early).0 != []
    ensures Parse(early + later).0 != [] && Parse(early + later).0[0] == Parse(early).0[0]
  {
    ParseSplit(early, later);
    hide Parse;
  }

  /** What the main loop is given after the opening frame: HELLOs, then the session's frames. */
  lemma AfterOpening(w: I.World, id: text, lead: seq<payload>, sent: seq<payload>)
    requires Opens(w.json, id, lead) && DeviceFrames(ObjectsOnly(w.json), sent) && lead + sent != []
    ensures var authed := Classify(w.json, (lead + sent)[0]).Auth?;
            P.AudioValues(I.Streamed(w, authed, id, (if authed then (lead + sent)[1..] else lead + sent, [])).1, id)
            == AudioFrames(sent)
  {
    hide Classify, DeviceFrame, AudioFrames, I.Streamed, P.AudioValues;
    if lead == [] {
      assert lead + sent == sent;
      DeviceFrameKind(w.json, sent[0]);
      SessionRecords(w, false, id, id, lead, sent);
    } else {
      var authed := Classify(w.json, lead[0]).Auth?;
      var hellos := if authed then lead[1..] else lead;
      assert (lead + sent)[1..] == lead[1..] + sent;
      assert AreHellos(w.json, id, hellos) by {
        assert forall i | 0 < i < |lead| :: lead[i] == lead[1..][i - 1];
      }
      SessionRecords(w, authed, id, id, hellos, sent);
    }
  }

  /**
    * With a handshake: once the reads that complete the first frame have been followed by more, the
    * whole session's audio has reached the topic under the device's id, with the AUTH frame, HELLOs
    * and telemetry around it, if the handed-over bytes keep their order.
    */
  lemma SessionReachesTopic(w: I.World, nonce: bytes, id: text, lead: seq<payload>,
                            o: Options, s: Session, ticks: seq<Tick>, early: seq<bytes>, later: seq<bytes>)
    requires !w.mode.Disabled? && Opens(w.json, id, lead)
    requires Fresh(s) && SaneInputs(ObjectsOnly(w.json), o, ticks)
    requires early != [] && NonEmptyChunks(early) && later != [] && NonEmptyChunks(later)
    requires Flatten(early) + Flatten(later) == Spoken(lead, o, s, ticks)
    requires Parse(Flatten(early[..|early| - 1])).0 == []
    requires Parse(Flatten(early)).0 != [] && H.OrderHarmless(Flatten(early))
    requires Accepted(w, nonce, Parse(Flatten(early)).0[0])
    ensures P.AudioValues(I.Run(w, nonce, I.Start(w.mode), I.DataReads(early) + I.DataReads(later)).1, id)
            == AudioFrames(Parse(Flatten(Play(o, s, ticks).writes)).0)
  {
    hide Play, Parse, FrameAll, Flatten, DeviceFrames, AudioFrames, Spoken, I.Streamed, I.Run, P.AudioValues, SaneInputs;
    hide Classify, Opens, H.OrderHarmless, I.Decide, Accepted, I.Leftover, I.DataReads;
    var sent := SpokenParses(ObjectsOnly(w.json), lead, o, s, ticks);
    FirstOfEarly(Flatten(early), Flatten(later));
    assert Parse(Flatten(early)).0[0] == (lead + sent)[0];
    AcceptedStarts(w, nonce, id, lead, sent, I.Leftover(Flatten(early)));
    H.ConnectionForwardsStream(w, nonce, early, later);
    AfterOpening(w, id, lead, sent);
  }

  // ---------------------------------------------------------------------
  // To the files
  // ---------------------------------------------------------------------

  /** The Opus packets of these generated frames. */
  function PacketsAt(o: Options, ks: seq<nat>): seq<bytes> {
    seq(|ks|, i requires 0 <= i < |ks| => o.packets[ks[i] % |o.packets|])
  }

  lemma PacketsAtSnoc(o: Options, ks: seq<nat>, k: nat)
    ensures PacketsAt(o, ks + [k]) == PacketsAt(o, ks) + [o.packets[k % |o.packets|]]
  {}

  lemma {:induction false} PayloadsCarry(o: Options, seqno: nat, ts: nat, ks: seq<nat>)
    requires NoEmptyPacket(o)
    ensures P.OpusOf(Payloads(o, seqno, ts, ks)) == PacketsAt(o, ks)
  {
    if ks != [] {
      var init, k := ks[..|ks| - 1], ks[|ks| - 1];
      var packet := o.packets[k % |o.packets|];
      assert packet in o.packets;
      hide BuildAudio, ParseAudio, P.OpusOf, Payloads, PacketsAt;
      assert init + [k] == ks;
      PayloadsCarry(o, seqno, ts, init);
      PayloadsSnoc(o, seqno, ts, init, k);
      PacketsAtSnoc(o, init, k);
      AudioRoundTrip(packet, seqno + k, ts + FRAME_SAMPLES * k, o.ssrc);
      P.OpusSnoc(Payloads(o, seqno, ts, init), Generated(o, seqno, ts, k));
    }
  }

  /** The Opus packets of the frames that reached the wire. */
  function SentPackets(o: Options, s: Session, ticks: seq<Tick>): seq<bytes>
    requires Fresh(s)
  {
    SentIsPrefixOfKept(o, s, ticks);
    PacketsAt(o, KeptTicks(o, ticks)[..SentCount(o, s, ticks)])
  }

  lemma SentCarry(o: Options, s: Session, ticks: seq<Tick>)
    requires Fresh(s) && NoEmptyPacket(o)
    ensures P.OpusOf(AudioFrames(Parse(Flatten(Play(o, s, ticks).writes)).0)) == SentPackets(o, s, ticks)
  {
    hide Play, Parse, Flatten, AudioFrames, Payloads, PacketsAt, KeptTicks, SentCount, P.OpusOf, NoEmptyPacket;
    SentIsPrefixOfKept(o, s, ticks);
    PayloadsCarry(o, s.seqno, s.ts, KeptTicks(o, ticks)[..SentCount(o, s, ticks)]);
  }

  lemma TopicToFiles(u: S.Setup, events: seq<S.Event>, end: real, id: text, o: Options, s: Session, ticks: seq<Tick>)
    requires Fresh(s) && NoEmptyPacket(o) && S.ReasonableLength(u) && S.MessagesFit(u, events)
    requires P.MessagesFor(events, id) == AudioFrames(Parse(Flatten(Play(o, s, ticks).writes)).0)
    ensures P.Replay(S.Finish(u, S.Consume(u, events), end).built, id) == SentPackets(o, s, ticks)
  {
    hide Play, Parse, Flatten, AudioFrames, SentPackets, P.OpusOf, P.MessagesFor, P.Replay, S.Finish, S.Consume, NoEmptyPacket;
    P.FilesReplayMessages(u, events, end, id);
    SentCarry(o, s, ticks);
  }

  /**
    * From the device's encoder to its files: a session with an accepted handshake, stalls, bursts,
    * random drops and telemetry, cut by TCP and forwarded by ingest, delivered to the segmenter in
    * per-key order among other devices' messages. The files, demuxed one after the other, are exactly
    * the packets of the frames that were sent.
    */
  lemma DeviceToFiles(w: I.World, nonce: bytes, id: text, lead: seq<payload>,
                      o: Options, s: Session, ticks: seq<Tick>, early: seq<bytes>, later: seq<bytes>,
                      u: S.Setup, events: seq<S.Event>, end: real)
    requires !w.mode.Disabled? && Opens(w.json, id, lead)
    requires Fresh(s) && SaneInputs(ObjectsOnly(w.json), o, ticks)
    requires early != [] && NonEmptyChunks(early) && later != [] && NonEmptyChunks(later)
    requires Flatten(early) + Flatten(later) == Spoken(lead, o, s, ticks)
    requires Parse(Flatten(early[..|early| - 1])).0 == []
    requires Parse(Flatten(early)).0 != [] && H.OrderHarmless(Flatten(early))
    requires Accepted(w, nonce, Parse(Flatten(early)).0[0])
    requires S.ReasonableLength(u) && S.MessagesFit(u, events)
    requires P.MessagesFor(events, id)
             == P.AudioValues(I.Run(w, nonce, I.Start(w.mode), I.DataReads(early) + I.DataReads(later)).1, id)
    ensures P.Replay(S.Finish(u, S.Consume(u, events), end).built, id) == SentPackets(o, s, ticks)
  {
    SessionReachesTopic(w, nonce, id, lead, o, s, ticks, early, later);
    TopicToFiles(u, events, end, id, o, s, ticks);
  }

  lemma OneFrameIsHarmless(first: payload)
    ensures Parse(Frame(first)).0 != [] && H.OrderHarmless(Frame(first))
  {
    hide Frame, FrameAll, H.SameBlocks;
    G.OneFrameStream(first);
    H.HarmlessWhenOnePieceIsEmpty(Frame(first));
  }

  lemma WaitingIsHarmless(first: payload, early: seq<bytes>)
    requires NonEmptyChunks(early) && Flatten(early) == Frame(first)
    ensures early != [] && Parse(Flatten(early[..|early| - 1])).0 == []
    ensures Parse(Flatten(early)).0 == [first] && H.OrderHarmless(Flatten(early))
  {
    FlattenNonEmpty(early);
    G.OneFrameStream(first);
    hide Parse, Frame, Flatten, H.OrderHarmless;
    OneFrameIsHarmless(first);
    var n := |early| - 1;
    assert early[..n] + [early[n]] == early && early[n] in early;
    FlattenSnoc(early[..n], early[n]);
    G.CutFrameIncomplete(first, Flatten(early[..n]), early[n]);
  }

  /**
    * A device that waits for the verdict on its AUTH answer before it sends more, as the simulated
    * one does, needs no luck with TCP: cut its answer and then the rest of its stream anywhere, and
    * its files are exactly the packets of the frames it sent.
    */
  lemma AuthenticatedDeviceToFiles(w: I.World, nonce: bytes, id: text, lead: seq<payload>,
                                   o: Options, s: Session, ticks: seq<Tick>, early: seq<bytes>, later: seq<bytes>,
                                   u: S.Setup, events: seq<S.Event>, end: real)
    requires !w.mode.Disabled? && lead != [] && Opens(w.json, id, lead) && Accepted(w, nonce, lead[0])
    requires Fresh(s) && SaneInputs(ObjectsOnly(w.json), o, ticks)
    requires NonEmptyChunks(early) && later != [] && NonEmptyChunks(later)
    requires Flatten(early) == Frame(lead[0]) && Flatten(later) == Spoken(lead[1..], o, s, ticks)
    requires S.ReasonableLength(u) && S.MessagesFit(u, events)
    requires P.MessagesFor(events, id)
             == P.AudioValues(I.Run(w, nonce, I.Start(w.mode), I.DataReads(early) + I.DataReads(later)).1, id)
    ensures P.Replay(S.Finish(u, S.Consume(u, events), end).built, id) == SentPackets(o, s, ticks)
  {
    WaitingIsHarmless(lead[0], early);
    Assoc(Frame(lead[0]), FrameAll(lead[1..]), Flatten(Play(o, s, ticks).writes));
    assert Spoken(lead, o, s, ticks) == Frame(lead[0]) + Spoken(lead[1..], o, s, ticks);
    hide Play, Parse, Frame, FrameAll, Flatten, Spoken, SaneInputs, Opens, Accepted, Fresh, H.OrderHarmless;
    hide I.Run, I.DataReads, P.AudioValues, P.MessagesFor, P.Replay, S.Finish, S.Consume, S.MessagesFit, S.ReasonableLength;
    hide SentPackets;
    DeviceToFiles(w, nonce, id, lead, o, s, ticks, early, later, u, events, end);
  }

  /** The same without a handshake, for any cut of the stream. */
  lemma OpenDeviceToFiles(w: I.World, nonce: bytes, id: text, lead: seq<payload>,
                          o: Options, s: Session, ticks: seq<Tick>, chunks: seq<bytes>,
                          u: S.Setup, events: seq<S.Event>, end: real)
    requires w.mode.Disabled? && AreHellos(w.json, id, lead) && (lead == [] ==> id == UNKNOWN)
    requires Fresh(s) && SaneInputs(ObjectsOnly(w.json), o, ticks)
    requires NonEmptyChunks(chunks) && Flatten(chunks) == Spoken(lead, o, s, ticks)
    requires S.ReasonableLength(u) && S.MessagesFit(u, events)
    requires P.MessagesFor(events, id) == P.AudioValues(I.Run(w, nonce, I.Start(w.mode), I.DataReads(chunks)).1, id)
    ensures P.Replay(S.Finish(u, S.Consume(u, events), end).built, id) == SentPackets(o, s, ticks)
  {
    OpenSessionReachesTopic(w, nonce, id, lead, o, s, ticks, chunks);
    TopicToFiles(u, events, end, id, o, s, ticks);
  }
}
