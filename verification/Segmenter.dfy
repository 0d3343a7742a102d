/** Segment rotation (server/segmenter.py): per-device buffering, rotation by count, idle and final flushes. */
module Segmenter {
  import opened Bytes
  import opened Protocol
  import opened OggPage
  import opened OggOpus
  import opened OggStream

  const FRAME_MS := 20
  const PRE_SKIP := 312

  function PacketsPerSegment(segmentSeconds: int): int {
    segmentSeconds * 1000 / FRAME_MS
  }

  /** Segment length and, left uninterpreted, Python's `hash` of an id and a start time and which keys are UTF-8. */
  datatype Setup = Setup(segmentSeconds: int, hash: (text, real) -> int, utf8: bytes -> bool) {
    function Limit(): int {
      PacketsPerSegment(segmentSeconds)
    }

    function Serial(imei: text, startedAt: real): (serial: nat)
      ensures 0 < serial < 0x8000_0000
      ensures (serial - hash(imei, startedAt)) % 0x8000_0000 == 0 || (serial == 1 && hash(imei, startedAt) % 0x8000_0000 == 0)
    {
      var s := hash(imei, startedAt) % 0x8000_0000;
      if s == 0 then 1 else s
    }

    function Ogg(imei: text, startedAt: real): Config {
      Config(Serial(imei, startedAt), 1, FRAME_SAMPLES, PRE_SKIP)
    }
  }

  // ---------------------------------------------------------------------
  // The machine
  // ---------------------------------------------------------------------

  datatype Seg = Seg(packets: seq<bytes>, startedAt: real)

  datatype Cause = Full | Quiet | Shutdown

  /** A file that was built, whether or not the upload then succeeded. */
  datatype Built = Built(imei: text, packets: seq<bytes>, file: bytes, cause: Cause)

  /** `segments` with its insertion order, the files built so far, and whether an exception has ended the loop. */
  datatype State = State(order: seq<text>, segs: map<text, Seg>, built: seq<Built>, raised: bool) {
    function Packets(id: text): seq<bytes> {
      if id in segs then segs[id].packets else []
    }
  }

  const START := State([], map[], [], false)

  /** What `consumer.poll` gives. An empty key stands for a missing one. */
  datatype Event = Message(key: bytes, value: bytes, now: real) | Idle(now: real) | BrokerError

  /** `flush`: nothing without packets; building may raise; a failed upload still resets. */
  function Flush(u: Setup, s: State, id: text, now: real, cause: Cause): State
    requires id in s.segs
  {
    var seg := s.segs[id];
    if seg.packets == [] then s else
      match Mux(u.Ogg(id, seg.startedAt), seg.packets)
      case None => s.(raised := true)
      case Some(file) =>
        s.(segs := s.segs[id := Seg([], now)], built := s.built + [Built(id, seg.packets, file, cause)])
  }

  function FlushQuiet(u: Setup, s: State, ids: seq<text>, now: real, cutoff: real): State {
    if ids == [] then s else
      var before := FlushQuiet(u, s, ids[..|ids| - 1], now, cutoff);
      var id := ids[|ids| - 1];
      if before.raised || id !in before.segs then before
      else if before.segs[id].packets != [] && before.segs[id].startedAt < cutoff then Flush(u, before, id, now, Quiet)
      else before
  }

  function FlushAll(u: Setup, s: State, ids: seq<text>, now: real): State {
    if ids == [] then s else
      var before := FlushAll(u, s, ids[..|ids| - 1], now);
      var id := ids[|ids| - 1];
      if before.raised || id !in before.segs then before else Flush(u, before, id, now, Shutdown)
  }

  function KeyOf(e: Event): text
    requires e.Message?
  {
    if e.key == [] then UNKNOWN else e.key
  }

  /** `msg.key().decode()` raises. */
  predicate KeyRaises(u: Setup, e: Event) {
    e.Message? && e.key != [] && !u.utf8(e.key)
  }

  /** The message holds an Opus packet of this device. */
  predicate Carries(u: Setup, e: Event, id: text) {
    e.Message? && !KeyRaises(u, e) && KeyOf(e) == id && ParseAudio(e.value).Some?
  }

  /** Append a packet to its device's segment, creating the segment first if need be. */
  function Buffered(s: State, id: text, packet: bytes, now: real): State {
    var seg := if id in s.segs then s.segs[id] else Seg([], now);
    State(if id in s.segs then s.order else s.order + [id],
          s.segs[id := Seg(seg.packets + [packet], seg.startedAt)], s.built, s.raised)
  }

  function OnEvent(u: Setup, s: State, e: Event): State {
    match e
    case BrokerError => s
    case Idle(now) => FlushQuiet(u, s, s.order, now, now - (u.segmentSeconds * 2) as real)
    case Message(_, value, now) =>
      if KeyRaises(u, e) then s.(raised := true) else
      match ParseAudio(value)
      case None => s
      case Some(rtp) =>
        var id := KeyOf(e);
        var s1 := Buffered(s, id, rtp.opus, now);
        if |s1.segs[id].packets| >= u.Limit() then Flush(u, s1, id, now, Full) else s1
  }

  /** The consume loop, until an exception ends it. */
  function Consume(u: Setup, events: seq<Event>): State {
    if events == [] then START else
      var before := Consume(u, events[..|events| - 1]);
      if before.raised then before else OnEvent(u, before, events[|events| - 1])
  }

  /** The `finally` clause. */
  function Finish(u: Setup, s: State, now: real): State {
    FlushAll(u, s.(raised := false), s.order, now)
  }

  /** An exception ends the loop for good. */
  lemma {:induction false} ConsumeRaisedStays(u: Setup, events: seq<Event>, k: nat)
    requires k <= |events| && Consume(u, events[..k]).raised
    ensures Consume(u, events) == Consume(u, events[..k])
  {
    if k == |events| {
      assert events[..k] == events;
    } else {
      hide OnEvent;
      assert events[..|events| - 1][..k] == events[..k];
      ConsumeRaisedStays(u, events[..|events| - 1], k);
    }
  }

  // ---------------------------------------------------------------------
  // Conservation
  // ---------------------------------------------------------------------

  /** The packets of the device's built files, in order. */
  function BuiltPackets(built: seq<Built>, id: text): seq<bytes> {
    if built == [] then [] else
      var last := built[|built| - 1];
      BuiltPackets(built[..|built| - 1], id) + if last.imei == id then last.packets else []
  }

  /** Everything the machine holds of a device: files, then the open segment. */
  function Holds(s: State, id: text): seq<bytes> {
    BuiltPackets(s.built, id) + s.Packets(id)
  }

  /** The device's packets among the messages consumed. */
  function Consumed(u: Setup, events: seq<Event>, id: text): seq<bytes> {
    if events == [] then [] else
      var init, e := events[..|events| - 1], events[|events| - 1];
      Consumed(u, init, id)
      + if !Consume(u, init).raised && Carries(u, e, id) then [ParseAudio(e.value).value.opus] else []
  }

  lemma FlushKeeps(u: Setup, s: State, id: text, now: real, cause: Cause, other: text)
    requires id in s.segs
    ensures Holds(Flush(u, s, id, now, cause), other) == Holds(s, other)
    ensures Flush(u, s, id, now, cause).order == s.order && Flush(u, s, id, now, cause).segs.Keys == s.segs.Keys
  {
    hide Mux;
    var s' := Flush(u, s, id, now, cause);
    if s'.built != s.built {
      assert s'.built[..|s.built|] == s.built;
      assert BuiltPackets(s.built, other) + [] == BuiltPackets(s.built, other);
    }
  }

  lemma {:induction false} FlushQuietKeeps(u: Setup, s: State, ids: seq<text>, now: real, cutoff: real, other: text)
    ensures Holds(FlushQuiet(u, s, ids, now, cutoff), other) == Holds(s, other)
    ensures FlushQuiet(u, s, ids, now, cutoff).order == s.order
    ensures FlushQuiet(u, s, ids, now, cutoff).segs.Keys == s.segs.Keys
  {
    if ids != [] {
      hide Flush, Holds;
      var before := FlushQuiet(u, s, ids[..|ids| - 1], now, cutoff);
      FlushQuietKeeps(u, s, ids[..|ids| - 1], now, cutoff, other);
      if ids[|ids| - 1] in before.segs {
        FlushKeeps(u, before, ids[|ids| - 1], now, Quiet, other);
      }
    }
  }

  lemma {:induction false} FlushAllKeeps(u: Setup, s: State, ids: seq<text>, now: real, other: text)
    ensures Holds(FlushAll(u, s, ids, now), other) == Holds(s, other)
    ensures FlushAll(u, s, ids, now).order == s.order && FlushAll(u, s, ids, now).segs.Keys == s.segs.Keys
  {
    if ids != [] {
      hide Flush, Holds;
      var before := FlushAll(u, s, ids[..|ids| - 1], now);
      FlushAllKeeps(u, s, ids[..|ids| - 1], now, other);
      if ids[|ids| - 1] in before.segs {
        FlushKeeps(u, before, ids[|ids| - 1], now, Shutdown, other);
      }
    }
  }

  lemma BufferedAdds(s: State, id: text, packet: bytes, now: real, other: text)
    ensures Holds(Buffered(s, id, packet, now), other) == Holds(s, other) + if other == id then [packet] else []
  {
    Assoc(BuiltPackets(s.built, id), s.Packets(id), [packet]);
    assert Holds(s, other) + [] == Holds(s, other);
  }

  lemma SameHoldings(s: State, s': State, id: text)
    requires s.segs == s'.segs && s.built == s'.built
    ensures Holds(s, id) == Holds(s', id)
  {}

  lemma EventKeeps(u: Setup, s: State, e: Event, id: text)
    ensures Holds(OnEvent(u, s, e), id)
            == Holds(s, id) + if Carries(u, e, id) then [ParseAudio(e.value).value.opus] else []
  {
    hide Flush, FlushQuiet, Holds;
    assert Holds(s, id) + [] == Holds(s, id);
    if e.Idle? {
      FlushQuietKeeps(u, s, s.order, e.now, e.now - (u.segmentSeconds * 2) as real, id);
    } else if KeyRaises(u, e) {
      assert Holds(s.(raised := true), id) == Holds(s, id) by {
        SameHoldings(s, s.(raised := true), id);
      }
    } else if e.Message? && ParseAudio(e.value).Some? {
      var packet := ParseAudio(e.value).value.opus;
      BufferedAdds(s, KeyOf(e), packet, e.now, id);
      FlushKeeps(u, Buffered(s, KeyOf(e), packet, e.now), KeyOf(e), e.now, Full, id);
    }
  }

  /** At every point of a run, each device's files and open segment hold exactly its packets, in order. */
  lemma {:induction false} Conservation(u: Setup, events: seq<Event>, id: text)
    ensures Holds(Consume(u, events), id) == Consumed(u, events, id)
  {
    if events == [] {
      assert BuiltPackets([], id) == [];
    } else {
      hide Holds, OnEvent;
      var init, e := events[..|events| - 1], events[|events| - 1];
      Conservation(u, init, id);
      assert Consumed(u, init, id) + [] == Consumed(u, init, id);
      EventKeeps(u, Consume(u, init), e, id);
    }
  }

  /** Shutting down moves packets into files but neither loses nor reorders any. */
  lemma FinishConserves(u: Setup, events: seq<Event>, now: real, id: text)
    ensures Holds(Finish(u, Consume(u, events), now), id) == Consumed(u, events, id)
  {
    var s := Consume(u, events);
    Conservation(u, events, id);
    FlushAllKeeps(u, s.(raised := false), s.order, now, id);
    assert Holds(s.(raised := false), id) == Holds(s, id);
  }

  // ---------------------------------------------------------------------
  // One message
  // ---------------------------------------------------------------------

  /**
    * A message counts for the device its key names, "unknown" if it has none, and for no other: its
    * Opus packet comes after all the device had.
    */
  lemma MessageCountsForKey(u: Setup, s: State, key: bytes, value: bytes, now: real, id: text)
    requires (key == [] || u.utf8(key)) && ParseAudio(value).Some?
    ensures Holds(OnEvent(u, s, Message(key, value, now)), id)
            == Holds(s, id) + if id == (if key == [] then UNKNOWN else key)
                              then [ParseAudio(value).value.opus] else []
  {
    hide Holds, OnEvent, ParseAudio;
    EventKeeps(u, s, Message(key, value, now), id);
  }

  /** The device's open segment with one more packet; a device without one starts it now. */
  function Extended(s: State, id: text, packet: bytes, now: real): Seg {
    if id in s.segs then Seg(s.segs[id].packets + [packet], s.segs[id].startedAt) else Seg([packet], now)
  }

  /**
    * A message closes its device's segment exactly when it completes `segmentSeconds * 50` packets:
    * one file of them all, and an empty segment that starts now, or an exception if the file cannot
    * be built. Otherwise the segment only grows and keeps its start. No other segment changes.
    */
  lemma MessageRotatesIffFull(u: Setup, s: State, key: bytes, value: bytes, now: real)
    requires key != [] && u.utf8(key) && ParseAudio(value).Some? && u.segmentSeconds > 0 && !s.raised
    ensures var s', seg := OnEvent(u, s, Message(key, value, now)), Extended(s, key, ParseAudio(value).value.opus, now);
            var full := |seg.packets| >= u.segmentSeconds * 50;
            && (s'.raised <==> full && Unbuildable(u, key, seg))
            && (full && !s'.raised ==>
                  && s'.segs == s.segs[key := Seg([], now)] && |s'.built| == |s.built| + 1
                  && s'.built[..|s.built|] == s.built
                  && s'.built[|s.built|].imei == key && s'.built[|s.built|].packets == seg.packets
                  && Mux(Config(u.Serial(key, seg.startedAt), 1, 960, 312), seg.packets) == Some(s'.built[|s.built|].file))
            && (!full ==> s'.segs == s.segs[key := seg] && s'.built == s.built)
  {
    hide ParseAudio, Mux;
    var packet := ParseAudio(value).value.opus;
    var seg := Extended(s, key, packet, now);
    assert [] + [packet] == [packet] && Buffered(s, key, packet, now).segs == s.segs[key := seg];
    assert s.segs[key := seg][key := Seg([], now)] == s.segs[key := Seg([], now)];
  }

  /** A message without an Opus packet changes nothing. */
  lemma MessageWithoutAudioIgnored(u: Setup, s: State, key: bytes, value: bytes, now: real)
    requires key == [] || u.utf8(key)
    ensures |value| <= 12 ==> OnEvent(u, s, Message(key, value, now)) == s
    ensures OnEvent(u, s, BrokerError) == s
  {
    hide Flush, Buffered;
  }

  // ---------------------------------------------------------------------
  // Segment sizes and contents
  // ---------------------------------------------------------------------

  /** Playing time of a file, by the writer's own formula. */
  function DurationOf(packets: seq<bytes>): real {
    (|packets| * FRAME_SAMPLES) as real / 48000.0
  }

  ghost predicate FileOk(u: Setup, b: Built) {
    && b.packets != []
    && AudioOf(b.file) == Some(b.packets)
    && Demux(b.file) == Some([OpusHead(1, 312), OpusTags()] + b.packets)
    && PlayedSamples(b.file) == Some(FRAME_SAMPLES * |b.packets| - PRE_SKIP)
    && (if b.cause.Full? then |b.packets| == u.Limit() else |b.packets| < u.Limit())
  }

  /** A segment no file can be built of. */
  ghost predicate Unbuildable(u: Setup, id: text, seg: Seg) {
    seg.packets != [] && Mux(u.Ogg(id, seg.startedAt), seg.packets).None?
  }

  ghost predicate Sized(u: Setup, s: State) {
    && (forall i | 0 <= i < |s.built| :: FileOk(u, s.built[i]))
    && (forall id | id in s.segs :: |s.segs[id].packets| < u.Limit() || Unbuildable(u, id, s.segs[id]))
    && (forall id :: id in s.order <==> id in s.segs)
  }

  ghost predicate BelowLimit(u: Setup, s: State) {
    forall id | id in s.segs :: |s.segs[id].packets| < u.Limit()
  }

  /** Files are as they should be, and only an exception leaves a segment at its limit. */
  ghost predicate Steady(u: Setup, s: State) {
    Sized(u, s) && (!s.raised ==> BelowLimit(u, s))
  }

  lemma NewFileOk(u: Setup, id: text, seg: Seg, cause: Cause)
    requires seg.packets != [] && Mux(u.Ogg(id, seg.startedAt), seg.packets).Some?
    requires if cause.Full? then |seg.packets| == u.Limit() else |seg.packets| < u.Limit()
    ensures FileOk(u, Built(id, seg.packets, Mux(u.Ogg(id, seg.startedAt), seg.packets).value, cause))
  {
    hide Mux, Demux, AudioOf, PlayedSamples, OpusHead, OpusTags, Setup.Limit;
    DemuxMux(u.Ogg(id, seg.startedAt), seg.packets);
    AudioOfMux(u.Ogg(id, seg.startedAt), seg.packets);
    PlayedOfMux(u.Ogg(id, seg.startedAt), seg.packets);
  }

  lemma FlushSized(u: Setup, s: State, id: text, now: real, cause: Cause)
    requires id in s.segs && u.Limit() > 0
    requires forall i | 0 <= i < |s.built| :: FileOk(u, s.built[i])
    requires forall k | k in s.segs && k != id :: |s.segs[k].packets| < u.Limit() || Unbuildable(u, k, s.segs[k])
    requires if cause.Full? then |s.segs[id].packets| == u.Limit()
             else |s.segs[id].packets| < u.Limit() || Unbuildable(u, id, s.segs[id])
    requires forall k :: k in s.order <==> k in s.segs
    ensures Sized(u, Flush(u, s, id, now, cause))
    ensures (forall k | k in s.segs && k != id :: |s.segs[k].packets| < u.Limit()) ==>
              Flush(u, s, id, now, cause).raised || BelowLimit(u, Flush(u, s, id, now, cause))
  {
    hide Mux, FileOk, Setup.Limit, Setup.Ogg;
    var seg := s.segs[id];
    if seg.packets != [] && Mux(u.Ogg(id, seg.startedAt), seg.packets).Some? {
      NewFileOk(u, id, seg, cause);
    }
  }

  lemma {:induction false} FlushQuietSteady(u: Setup, s: State, ids: seq<text>, now: real, cutoff: real)
    requires Steady(u, s) && u.Limit() > 0
    ensures Steady(u, FlushQuiet(u, s, ids, now, cutoff))
  {
    if ids != [] {
      hide Flush, FileOk, Unbuildable, Setup.Limit;
      var before := FlushQuiet(u, s, ids[..|ids| - 1], now, cutoff);
      FlushQuietSteady(u, s, ids[..|ids| - 1], now, cutoff);
      var id := ids[|ids| - 1];
      if !before.raised && id in before.segs {
        FlushSized(u, before, id, now, Quiet);
      }
    }
  }

  lemma {:induction false} FlushAllSized(u: Setup, s: State, ids: seq<text>, now: real)
    requires Sized(u, s) && u.Limit() > 0
    ensures Sized(u, FlushAll(u, s, ids, now))
  {
    if ids != [] {
      var before := FlushAll(u, s, ids[..|ids| - 1], now);
      FlushAllSized(u, s, ids[..|ids| - 1], now);
      var id := ids[|ids| - 1];
      if !before.raised && id in before.segs {
        FlushSized(u, before, id, now, Shutdown);
      }
      hide Flush, Sized;
    }
  }

  lemma EventSteady(u: Setup, s: State, e: Event)
    requires Steady(u, s) && u.Limit() > 0 && !s.raised
    ensures Steady(u, OnEvent(u, s, e))
  {
    hide FileOk, Unbuildable, Flush, ParseAudio, Setup.Limit;
    if e.Idle? {
      FlushQuietSteady(u, s, s.order, e.now, e.now - (u.segmentSeconds * 2) as real);
    } else if e.Message? && !KeyRaises(u, e) && ParseAudio(e.value).Some? {
      var id := KeyOf(e);
      var s1 := Buffered(s, id, ParseAudio(e.value).value.opus, e.now);
      assert forall k :: k in s1.order <==> k in s1.segs;
      if |s1.segs[id].packets| >= u.Limit() {
        FlushSized(u, s1, id, e.now, Full);
      }
    }
  }

  lemma {:induction false} ConsumeSteady(u: Setup, events: seq<Event>)
    requires u.Limit() > 0
    ensures Steady(u, Consume(u, events))
  {
    if events != [] {
      ConsumeSteady(u, events[..|events| - 1]);
      if !Consume(u, events[..|events| - 1]).raised {
        hide Steady, OnEvent;
        EventSteady(u, Consume(u, events[..|events| - 1]), events[|events| - 1]);
      }
    }
  }

  lemma FinishSized(u: Setup, events: seq<Event>, end: real)
    requires u.Limit() > 0
    ensures Sized(u, Consume(u, events)) && Sized(u, Finish(u, Consume(u, events), end))
  {
    hide Consume, FlushAll, FileOk, Unbuildable;
    var s := Consume(u, events);
    ConsumeSteady(u, events);
    FlushAllSized(u, s.(raised := false), s.order, end);
  }

  /**
    * Every file of a run, the final flush included even after an exception, demuxes to its packets;
    * one rotated by count holds exactly `segmentSeconds * 50` packets and lasts exactly
    * `segmentSeconds` by the writer's formula; any other is shorter but not empty. A player, which
    * skips the pre-skip, plays 312 samples less of each.
    */
  lemma SegmentsAreExact(u: Setup, events: seq<Event>, end: real, b: Built)
    requires u.segmentSeconds > 0
    requires b in Consume(u, events).built || b in Finish(u, Consume(u, events), end).built
    ensures AudioOf(b.file) == Some(b.packets) && b.packets != []
    ensures Demux(b.file) == Some([OpusHead(1, 312), OpusTags()] + b.packets)
    ensures b.cause.Full? ==> |b.packets| == u.segmentSeconds * 50 && DurationOf(b.packets) == u.segmentSeconds as real
    ensures !b.cause.Full? ==> 0.0 < DurationOf(b.packets) < u.segmentSeconds as real
    ensures PlayedSamples(b.file) == Some(FRAME_SAMPLES * |b.packets| - PRE_SKIP)
    ensures b.cause.Full? ==> PlayedSamples(b.file) == Some(48000 * u.segmentSeconds - 312)
  {
    hide Consume, AudioOf, Demux, OpusHead, OpusTags, PlayedSamples, Finish, Unbuildable;
    var s := Consume(u, events);
    FinishSized(u, events, end);
    var built := if b in s.built then s.built else Finish(u, s, end).built;
    var i :| 0 <= i < |built| && built[i] == b;
    assert FileOk(u, built[i]);
    DurationScales(|b.packets|, u.segmentSeconds);
  }

  lemma DurationScales(n: nat, seconds: nat)
    ensures n == seconds * 50 ==> (n * FRAME_SAMPLES) as real / 48000.0 == seconds as real
    ensures 0 < n < seconds * 50 ==> 0.0 < (n * FRAME_SAMPLES) as real / 48000.0 < seconds as real
  {
    assert (n * FRAME_SAMPLES) as real == n as real * 960.0;
  }

  // ---------------------------------------------------------------------
  // When the segmenter fails
  // ---------------------------------------------------------------------

  /** Segment lengths whose page numbers fit: up to about 2.7 years. */
  predicate ReasonableLength(u: Setup) {
    0 < u.Limit() <= 0xFFFF_FFFE
  }

  lemma {:induction false} GroupsAtMostPackets(groups: seq<seq<bytes>>)
    requires forall k | 0 <= k < |groups| :: groups[k] != []
    ensures |groups| <= |Flatten(groups)|
  {
    if groups != [] {
      GroupsAtMostPackets(groups[1..]);
    }
  }

  lemma BuildsIff(u: Setup, id: text, seg: Seg)
    requires ReasonableLength(u) && |seg.packets| <= u.Limit()
    ensures Mux(u.Ogg(id, seg.startedAt), seg.packets).Some? <==> PacketsFit(seg.packets)
  {
    var c := u.Ogg(id, seg.startedAt);
    MuxSucceeds(c, seg.packets);
    PlanKeepsPackets(seg.packets);
    PlanNonEmpty(seg.packets);
    hide Plan, Mux, Flatten;
    GroupsAtMostPackets(Plan(seg.packets).Groups());
  }

  /** Segments never outgrow the limit, and built files held packets that fit. */
  ghost predicate Sound(u: Setup, s: State) {
    && (forall id | id in s.segs :: |s.segs[id].packets| <= u.Limit())
    && (forall i | 0 <= i < |s.built| :: PacketsFit(s.built[i].packets))
    && (forall id :: id in s.order <==> id in s.segs)
  }

  /** Some segment holds a packet that fits no page. */
  ghost predicate Stuck(s: State) {
    exists id | id in s.segs :: !PacketsFit(s.segs[id].packets)
  }

  lemma FlushIsSound(u: Setup, s: State, id: text, now: real, cause: Cause)
    requires ReasonableLength(u) && Sound(u, s) && id in s.segs && !s.raised
    ensures var s' := Flush(u, s, id, now, cause);
            && Sound(u, s') && s'.segs.Keys == s.segs.Keys
            && (s'.raised <==> !PacketsFit(s.segs[id].packets))
            && (s'.raised ==> Stuck(s'))
            && (!s'.raised ==> s'.segs[id].packets == [])
            && forall k | k in s.segs && k != id :: s'.segs[k] == s.segs[k]
  {
    hide Mux, PacketsFit, Setup.Limit, Setup.Ogg, ReasonableLength;
    BuildsIff(u, id, s.segs[id]);
    NothingFits();
    var s' := Flush(u, s, id, now, cause);
    assert s'.raised ==> id in s'.segs && !PacketsFit(s'.segs[id].packets);
  }

  lemma NothingFits()
    ensures PacketsFit([])
  {}

  lemma {:induction false} FlushQuietIsSound(u: Setup, s: State, ids: seq<text>, now: real, cutoff: real)
    requires ReasonableLength(u) && Sound(u, s) && !s.raised
    ensures var s' := FlushQuiet(u, s, ids, now, cutoff);
            Sound(u, s') && (s'.raised ==> Stuck(s'))
  {
    if ids != [] {
      hide Flush, Sound, Stuck;
      var before := FlushQuiet(u, s, ids[..|ids| - 1], now, cutoff);
      FlushQuietIsSound(u, s, ids[..|ids| - 1], now, cutoff);
      if ids[|ids| - 1] in before.segs && !before.raised {
        FlushIsSound(u, before, ids[|ids| - 1], now, Quiet);
      }
    }
  }

  lemma EventIsSound(u: Setup, s: State, e: Event)
    requires ReasonableLength(u) && Sound(u, s) && Steady(u, s) && !s.raised
    ensures var s' := OnEvent(u, s, e);
            Sound(u, s') && (s'.raised ==> KeyRaises(u, e) || Stuck(s'))
  {
    hide Stuck, Flush, ParseAudio, Setup.Limit, PacketsFit, FileOk, Unbuildable;
    if e.Idle? {
      FlushQuietIsSound(u, s, s.order, e.now, e.now - (u.segmentSeconds * 2) as real);
    } else if e.Message? && !KeyRaises(u, e) && ParseAudio(e.value).Some? {
      var s1 := Buffered(s, KeyOf(e), ParseAudio(e.value).value.opus, e.now);
      assert forall k :: k in s1.order <==> k in s1.segs;
      FlushIsSound(u, s1, KeyOf(e), e.now, Full);
    }
  }

  lemma {:induction false} ConsumeIsSound(u: Setup, events: seq<Event>)
    requires ReasonableLength(u)
    ensures Sound(u, Consume(u, events))
    ensures Consume(u, events).raised ==> Stuck(Consume(u, events)) || exists e <- events :: KeyRaises(u, e)
  {
    if events != [] {
      var init, last := events[..|events| - 1], events[|events| - 1];
      assert events == init + [last];
      ConsumeIsSound(u, init);
      ConsumeSteady(u, init);
      hide Sound, Steady, Stuck, OnEvent;
      if !Consume(u, init).raised {
        EventIsSound(u, Consume(u, init), last);
      }
    }
  }

  ghost predicate AllFit(s: State, ids: seq<text>)
    requires forall id <- ids :: id in s.segs
  {
    forall id <- ids :: PacketsFit(s.segs[id].packets)
  }

  /** The final flush either empties every listed segment or stops at one that cannot be built. */
  lemma {:induction false} FlushAllOutcome(u: Setup, s: State, ids: seq<text>, now: real)
    requires ReasonableLength(u) && Sound(u, s) && !s.raised && forall id <- ids :: id in s.segs
    ensures var s' := FlushAll(u, s, ids, now);
            && Sound(u, s') && s'.segs.Keys == s.segs.Keys
            && (s'.raised <==> !AllFit(s, ids))
            && (!s'.raised ==> (forall id <- ids :: s'.segs[id].packets == [])
                               && forall id | id in s.segs ::
                                    s'.segs[id] == s.segs[id]
                                    || (s'.segs[id].packets == [] && PacketsFit(s.segs[id].packets)))
  {
    hide Flush, Sound, PacketsFit, Mux, ReasonableLength;
    if ids != [] {
      var init, id := ids[..|ids| - 1], ids[|ids| - 1];
      assert ids == init + [id] && forall k <- init :: k in ids;
      FlushAllOutcome(u, s, init, now);
      var before := FlushAll(u, s, init, now);
      NothingFits();
      assert AllFit(s, ids) <==> AllFit(s, init) && PacketsFit(s.segs[id].packets);
      if !before.raised {
        FlushIsSound(u, before, id, now, Shutdown);
      }
    }
  }

  lemma {:induction false} BuiltPacketsFit(built: seq<Built>, id: text)
    requires forall i | 0 <= i < |built| :: PacketsFit(built[i].packets)
    ensures PacketsFit(BuiltPackets(built, id))
  {
    if built != [] {
      BuiltPacketsFit(built[..|built| - 1], id);
    }
  }

  lemma RaisesOnConsumedMisfit(u: Setup, events: seq<Event>, now: real)
    requires ReasonableLength(u)
    ensures Finish(u, Consume(u, events), now).raised
            <==> exists id: text, p: bytes :: p in Consumed(u, events, id) && |p| > MAX_PACKET
  {
    var s := Consume(u, events);
    ConsumeIsSound(u, events);
    FlushAllOutcome(u, s.(raised := false), s.order, now);
    if Finish(u, s, now).raised {
      assert !AllFit(s, s.order);
      var id :| id in s.order && !PacketsFit(s.segs[id].packets);
      var p :| p in s.segs[id].packets && |p| > MAX_PACKET;
      Conservation(u, events, id);
      assert p in Holds(s, id);
    }
    if id: text, p: bytes :| p in Consumed(u, events, id) && |p| > MAX_PACKET {
      Conservation(u, events, id);
      BuiltPacketsFit(s.built, id);
      assert p in s.Packets(id);
      assert id in s.order && !PacketsFit(s.segs[id].packets);
    }
  }

  lemma StuckFinishRaises(u: Setup, events: seq<Event>, end: real)
    requires ReasonableLength(u) && Stuck(Consume(u, events))
    ensures Finish(u, Consume(u, events), end).raised
  {
    hide Consume, FlushAll, PacketsFit, Setup.Limit;
    var s := Consume(u, events);
    ConsumeIsSound(u, events);
    FlushAllOutcome(u, s.(raised := false), s.order, end);
  }

  /** Every message's key can be decoded, and its Opus packet, if any, fits on one Ogg page. */
  predicate MessagesFit(u: Setup, events: seq<Event>) {
    forall e <- events | e.Message? ::
      (e.key == [] || u.utf8(e.key)) && (ParseAudio(e.value).Some? ==> |ParseAudio(e.value).value.opus| <= MAX_PACKET)
  }

  lemma {:induction false} ConsumedFits(u: Setup, events: seq<Event>, id: text)
    requires MessagesFit(u, events)
    ensures forall p <- Consumed(u, events, id) :: |p| <= MAX_PACKET
  {
    if events != [] {
      assert events[|events| - 1] in events && forall e <- events[..|events| - 1] :: e in events;
      ConsumedFits(u, events[..|events| - 1], id);
    }
  }

  lemma {:induction false} CleanRunConsumes(u: Setup, events: seq<Event>, e: Event)
    requires !Consume(u, events).raised && e in events && e.Message?
    ensures !KeyRaises(u, e)
    ensures ParseAudio(e.value).Some? ==> ParseAudio(e.value).value.opus in Consumed(u, events, KeyOf(e))
  {
    var init, last := events[..|events| - 1], events[|events| - 1];
    assert events == init + [last];
    if e in init {
      hide OnEvent, ParseAudio;
      CleanRunConsumes(u, init, e);
    } else {
      assert !OnEvent(u, Consume(u, init), last).raised;
      hide ParseAudio, Flush, FlushQuiet, Buffered;
    }
  }

  /** An exception ends the run: in the loop, or while the last segments are flushed. */
  predicate RunRaises(u: Setup, events: seq<Event>, end: real) {
    Consume(u, events).raised || Finish(u, Consume(u, events), end).raised
  }

  /**
    * A run ends in an exception exactly when some message has a key that is not UTF-8 or carries an
    * Opus packet of more than 65024 bytes, which no single Ogg page can hold.
    */
  lemma SegmenterRaisesIff(u: Setup, events: seq<Event>, end: real)
    requires ReasonableLength(u)
    ensures RunRaises(u, events, end) <==> !MessagesFit(u, events)
  {
    hide Consume, Finish, Consumed, ParseAudio, Stuck;
    RaisesOnConsumedMisfit(u, events, end);
    ConsumeIsSound(u, events);
    if Stuck(Consume(u, events)) {
      StuckFinishRaises(u, events, end);
    }
    if MessagesFit(u, events) {
      forall id: text, p: bytes | p in Consumed(u, events, id) ensures |p| <= MAX_PACKET {
        ConsumedFits(u, events, id);
      }
    }
    if !RunRaises(u, events, end) {
      forall e <- events | e.Message?
        ensures (e.key == [] || u.utf8(e.key)) && (ParseAudio(e.value).Some? ==> |ParseAudio(e.value).value.opus| <= MAX_PACKET)
      {
        CleanRunConsumes(u, events, e);
      }
    }
  }

  /** One packet of 65025 bytes is enough. */
  lemma OversizePacketRaises(u: Setup, opus: bytes, now: real, end: real)
    requires ReasonableLength(u) && |opus| == 65025
    ensures RunRaises(u, [Message([], BuildAudio(opus, 0, 0, 0), now)], end)
  {
    hide RunRaises, BuildAudio, ParseAudio;
    var e := Message([], BuildAudio(opus, 0, 0, 0), now);
    AudioRoundTrip(opus, 0, 0, 0);
    SegmenterRaisesIff(u, [e], end);
    assert e in [e];
  }

  /** When every message fits, after the shutdown each device's files alone hold exactly its packets, in order. */
  lemma AllPacketsAreFiled(u: Setup, events: seq<Event>, now: real, id: text)
    requires ReasonableLength(u) && MessagesFit(u, events)
    ensures BuiltPackets(Finish(u, Consume(u, events), now).built, id) == Consumed(u, events, id)
  {
    hide Consume, FlushAll, PacketsFit, Setup.Limit, MessagesFit;
    var s := Consume(u, events);
    SegmenterRaisesIff(u, events, now);
    var end := Finish(u, s, now);
    ConsumeIsSound(u, events);
    FlushAllOutcome(u, s.(raised := false), s.order, now);
    FinishConserves(u, events, now, id);
    assert end.Packets(id) == [];
    assert BuiltPackets(end.built, id) + [] == BuiltPackets(end.built, id);
  }

  // ---------------------------------------------------------------------
  // Idle ticks
  // ---------------------------------------------------------------------

  predicate QuietSince(seg: Seg, cutoff: real) {
    seg.packets != [] && seg.startedAt < cutoff
  }

  lemma FlushOutcome(u: Setup, s: State, id: text, now: real, cause: Cause)
    requires id in s.segs && !s.raised
    ensures var s' := Flush(u, s, id, now, cause);
            && (s'.raised <==> Unbuildable(u, id, s.segs[id]))
            && (!s'.raised ==> s'.segs == if s.segs[id].packets == [] then s.segs else s.segs[id := Seg([], now)])
  {
    hide Mux, Setup.Ogg;
  }

  /** The open segments after each of these that has gone quiet was closed. */
  function QuietClosed(segs: map<text, Seg>, ids: seq<text>, now: real, cutoff: real): map<text, Seg> {
    map id | id in segs :: if id in ids && QuietSince(segs[id], cutoff) then Seg([], now) else segs[id]
  }

  lemma QuietClosedSnoc(segs: map<text, Seg>, ids: seq<text>, id: text, now: real, cutoff: real)
    requires id in segs && cutoff <= now
    ensures var before := QuietClosed(segs, ids, now, cutoff);
            QuietClosed(segs, ids + [id], now, cutoff)
            == if QuietSince(before[id], cutoff) then before[id := Seg([], now)] else before
  {}

  lemma FlushQuietSnoc(u: Setup, s: State, ids: seq<text>, id: text, now: real, cutoff: real)
    ensures FlushQuiet(u, s, [], now, cutoff) == s
    ensures var before := FlushQuiet(u, s, ids, now, cutoff);
            FlushQuiet(u, s, ids + [id], now, cutoff)
            == if before.raised || id !in before.segs || !QuietSince(before.segs[id], cutoff) then before
               else Flush(u, before, id, now, Quiet)
  {
    hide Flush;
    assert (ids + [id])[..|ids|] == ids;
  }

  lemma {:induction false} FlushQuietOutcome(u: Setup, s: State, ids: seq<text>, now: real, cutoff: real)
    requires forall id <- ids :: id in s.segs
    requires cutoff <= now && !FlushQuiet(u, s, ids, now, cutoff).raised
    ensures FlushQuiet(u, s, ids, now, cutoff).segs == QuietClosed(s.segs, ids, now, cutoff)
  {
    if ids == [] {
      assert QuietClosed(s.segs, [], now, cutoff) == s.segs;
    } else {
      var init, id := ids[..|ids| - 1], ids[|ids| - 1];
      assert ids == init + [id] && forall k <- init :: k in ids;
      assert id in s.segs;
      QuietClosedSnoc(s.segs, init, id, now, cutoff);
      FlushQuietSnoc(u, s, init, id, now, cutoff);
      hide FlushQuiet, Flush, Unbuildable, QuietClosed;
      FlushQuietOutcome(u, s, init, now, cutoff);
      var before := FlushQuiet(u, s, init, now, cutoff);
      if id in before.segs {
        FlushOutcome(u, before, id, now, Quiet);
      }
    }
  }

  lemma {:induction false} FlushQuietRaisesIff(u: Setup, s: State, ids: seq<text>, now: real, cutoff: real)
    requires forall id <- ids :: id in s.segs
    requires cutoff <= now && !s.raised
    ensures FlushQuiet(u, s, ids, now, cutoff).raised
            <==> exists id <- ids :: QuietSince(s.segs[id], cutoff) && Unbuildable(u, id, s.segs[id])
  {
    if ids != [] {
      var init, id := ids[..|ids| - 1], ids[|ids| - 1];
      assert ids == init + [id] && forall k <- init :: k in ids;
      hide Flush, Unbuildable;
      FlushQuietRaisesIff(u, s, init, now, cutoff);
      if !FlushQuiet(u, s, init, now, cutoff).raised {
        FlushQuietOutcome(u, s, init, now, cutoff);
        FlushOutcome(u, FlushQuiet(u, s, init, now, cutoff), id, now, Quiet);
      }
    }
  }

  /**
    * An idle tick raises exactly when some segment that has gone quiet cannot be built. Otherwise it
    * closes exactly the segments that hold packets and started more than twice the segment length
    * ago, and starts each of them afresh; every other segment is untouched.
    */
  lemma IdleFlushesExactlyTheQuiet(u: Setup, s: State, now: real)
    requires u.segmentSeconds >= 0 && (forall id :: id in s.order <==> id in s.segs)
    requires !s.raised
    ensures var s' := OnEvent(u, s, Idle(now));
            && (s'.raised <==> exists id | id in s.segs ::
                                 now - s.segs[id].startedAt > (2 * u.segmentSeconds) as real && Unbuildable(u, id, s.segs[id]))
            && (!s'.raised ==> s'.segs.Keys == s.segs.Keys)
            && (!s'.raised ==> forall id | id in s.segs ::
                 s'.segs[id] == if s.segs[id].packets != [] && now - s.segs[id].startedAt > (2 * u.segmentSeconds) as real
                                then Seg([], now) else s.segs[id])
  {
    hide FlushQuiet, Mux, Setup.Ogg, Consume;
    var cutoff := now - (u.segmentSeconds * 2) as real;
    FlushQuietRaisesIff(u, s, s.order, now, cutoff);
    if !FlushQuiet(u, s, s.order, now, cutoff).raised {
      FlushQuietOutcome(u, s, s.order, now, cutoff);
    }
    assert OnEvent(u, s, Idle(now)) == FlushQuiet(u, s, s.order, now, cutoff);
  }
}
