/**
  * One ingest connection (server/ingest.py) as a machine: what each read does to the connection
  * and which records it hands to the producer. Timestamps and peer addresses are left out of records.
  */
module Ingest {
  import opened Bytes
  import opened Protocol
  import opened Auth

  datatype Mode = Disabled | Optional | Required

  /** Configuration and the foreign parts: registered keys, the MAC and the JSON decoder. */
  datatype World = World(mode: Mode, keys: map<text, bytes>, mac: Mac, json: bytes -> Json) {
    function KeyOf(id: text): bytes {
      if id in keys then keys[id] else []
    }
  }

  datatype Topic = AudioRaw | DeviceStat | DeviceEvents
  datatype Value = Raw(frame: bytes) | StatDoc(doc: bytes) | Connected | Disconnected
  datatype Record = Record(topic: Topic, key: text, value: Value)

  /** What awaiting `reader.read` gives; no bytes at all is the end of the stream. */
  datatype Read = Data(chunk: bytes) | TimedOut | Broken

  /** Where `handle` is: in `_read_frame`, in its main loop, or past `finally`. */
  datatype Phase =
    | Handshaking(buf: bytes)
    | Streaming(imei: text, authed: bool, buf: bytes)
    | Closed(imei: text, denied: bool)

  // ---------------------------------------------------------------------
  // The main loop
  // ---------------------------------------------------------------------

  /** Identity after some frames, the records they produced, and whether an exception ended the loop. */
  datatype Out = Out(imei: text, records: seq<Record>, raised: bool)

  /** One frame. A STAT whose JSON is not an object cannot take the two added fields: that raises. */
  function OneFrame(json: bytes -> Json, authed: bool, imei: text, frame: payload): Out {
    match Classify(json, frame)
    case Malformed => Out(imei, [], false)
    case Auth(_, _) => Out(imei, [], false)
    case Hello(id) =>
      if authed && id != imei then Out(imei, [], false)
      else Out(id, [Record(DeviceEvents, id, Connected)], false)
    case Stat(doc, isObject) =>
      if isObject then Out(imei, [Record(DeviceStat, imei, StatDoc(doc))], false) else Out(imei, [], true)
    case Audio(b) => Out(imei, [Record(AudioRaw, imei, Raw(b))], false)
  }

  function Process(json: bytes -> Json, authed: bool, imei: text, frames: seq<payload>): Out
    decreases |frames|
  {
    if frames == [] then Out(imei, [], false) else
      var one := OneFrame(json, authed, imei, frames[0]);
      if one.raised then one else
        var rest := Process(json, authed, one.imei, frames[1..]);
        Out(rest.imei, one.records + rest.records, rest.raised)
  }

  // ---------------------------------------------------------------------
  // The handshake
  // ---------------------------------------------------------------------

  /** What `_read_frame` returns beside the first frame: the tail, then the later frames re-framed. */
  function Leftover(buf: bytes): bytes
    requires Parse(buf).0 != []
  {
    Parse(buf).1 + FrameAll(Parse(buf).0[1..])
  }

  /** The order that keeps the stream intact. */
  function IntendedLeftover(buf: bytes): bytes
    requires Parse(buf).0 != []
  {
    FrameAll(Parse(buf).0[1..]) + Parse(buf).1
  }

  /** `_handshake` once the first frame is known. */
  function Decide(w: World, nonce: bytes, first: payload, leftover: bytes): Phase {
    match Classify(w.json, first)
    case Malformed => Closed(UNKNOWN, true)
    case Auth(id, response) =>
      if Verify(w.mac, w.KeyOf(id), nonce, response) then Streaming(id, true, leftover) else Closed(UNKNOWN, true)
    case kind =>
      if w.mode.Required? then Closed(UNKNOWN, true)
      else Streaming(if kind.Hello? then kind.id else UNKNOWN, false, Frame(first) + leftover)
  }

  // ---------------------------------------------------------------------
  // The connection
  // ---------------------------------------------------------------------

  function Start(mode: Mode): Phase {
    if mode.Disabled? then Streaming(UNKNOWN, false, []) else Handshaking([])
  }

  /** One read, up to the next await. Closing attempts the disconnect event. */
  function Step(w: World, nonce: bytes, phase: Phase, read: Read): (Phase, seq<Record>) {
    match phase
    case Closed(_, _) => (phase, [])
    case Handshaking(buf) =>
      if read.Broken? then Close(UNKNOWN, false, [])
      else if read.TimedOut? || read.chunk == [] then Close(UNKNOWN, true, [])
      else
        var all := buf + read.chunk;
        if Parse(all).0 == [] then (Handshaking(all), []) else
          var next := Decide(w, nonce, Parse(all).0[0], Leftover(all));
          if next.Closed? then Close(next.imei, next.denied, []) else (next, [])
    case Streaming(imei, authed, buf) =>
      if !read.Data? || read.chunk == [] then Close(imei, false, [])
      else
        Streamed(w, authed, imei, Parse(buf + read.chunk))
  }

  /** One pass of the main loop over parsed frames and the tail. */
  function Streamed(w: World, authed: bool, imei: text, parsed: (seq<payload>, bytes)): (Phase, seq<Record>) {
    var out := Process(w.json, authed, imei, parsed.0);
    if out.raised then Close(out.imei, false, out.records) else (Streaming(out.imei, authed, parsed.1), out.records)
  }

  function Close(imei: text, denied: bool, records: seq<Record>): (Phase, seq<Record>) {
    (Closed(imei, denied), records + [Record(DeviceEvents, imei, Disconnected)])
  }

  function Run(w: World, nonce: bytes, phase: Phase, rs: seq<Read>): (Phase, seq<Record>)
    decreases |rs|
  {
    if rs == [] then (phase, []) else
      var (p, first) := Step(w, nonce, phase, rs[0]);
      var (last, rest) := Run(w, nonce, p, rs[1..]);
      (last, first + rest)
  }

  // ---------------------------------------------------------------------
  // Chunking
  // ---------------------------------------------------------------------

  /** Non-empty reads carrying these chunks. */
  function DataReads(chunks: seq<bytes>): seq<Read> {
    seq(|chunks|, i requires 0 <= i < |chunks| => Data(chunks[i]))
  }

  lemma SplitReads(chunks: seq<bytes>)
    requires chunks != [] && NonEmptyChunks(chunks)
    ensures DataReads(chunks)[0] == Data(chunks[0]) && DataReads(chunks)[1..] == DataReads(chunks[1..])
    ensures chunks[0] != [] && NonEmptyChunks(chunks[1..])
  {
    assert chunks[0] in chunks && forall c <- chunks[1..] :: c in chunks;
  }

  lemma {:induction false} ProcessConcat(json: bytes -> Json, authed: bool, imei: text, a: seq<payload>, b: seq<payload>)
    ensures var first := Process(json, authed, imei, a);
            var second := Process(json, authed, first.imei, b);
            Process(json, authed, imei, a + b)
            == if first.raised then first else Out(second.imei, first.records + second.records, second.raised)
    decreases |a|
  {
    hide OneFrame;
    if a == [] {
      assert a + b == b;
      var second := Process(json, authed, imei, b);
      assert [] + second.records == second.records;
      assert second == Out(second.imei, second.records, second.raised);
    } else {
      var one := OneFrame(json, authed, imei, a[0]);
      assert (a + b)[1..] == a[1..] + b;
      ProcessConcat(json, authed, one.imei, a[1..], b);
      var mid := Process(json, authed, one.imei, a[1..]);
      Assoc(one.records, mid.records, Process(json, authed, mid.imei, b).records);
    }
  }

  lemma {:induction false} ClosedStays(w: World, nonce: bytes, phase: Phase, rs: seq<Read>)
    requires phase.Closed?
    ensures Run(w, nonce, phase, rs) == (phase, [])
    decreases |rs|
  {
    if rs != [] {
      ClosedStays(w, nonce, phase, rs[1..]);
      var none: seq<Record> := [];
      assert none + none == none;
    }
  }

  /** Two reads in a row act as one read of both chunks. */
  lemma JoinReads(w: World, nonce: bytes, imei: text, authed: bool, buf: bytes, a: bytes, b: bytes)
    requires a != [] && b != []
    ensures var (p, first) := Step(w, nonce, Streaming(imei, authed, buf), Data(a));
            var (q, second) := Step(w, nonce, p, Data(b));
            Step(w, nonce, Streaming(imei, authed, buf), Data(a + b)) == (q, first + second)
  {
    ParseSplit(buf + a, b);
    Assoc(buf, a, b);
    var one := Parse(buf + a);
    var two := Parse(one.1 + b);
    ProcessConcat(w.json, authed, imei, one.0, two.0);
    hide Parse, Process;
    var x := Process(w.json, authed, imei, one.0);
    var y := Process(w.json, authed, x.imei, two.0);
    Assoc(x.records, y.records, [Record(DeviceEvents, y.imei, Disconnected)]);
    assert Parse(buf + (a + b)) == (one.0 + two.0, two.1);
    var first := Step(w, nonce, Streaming(imei, authed, buf), Data(a)).1;
    assert first + [] == first;
  }

  /**
    * Chunking independence: from the same identity and buffer, any division of the same bytes into
    * non-empty reads ends in the same state with the same records as a single read of them all.
    */
  lemma {:induction false} ChunkingIndependence(w: World, nonce: bytes, imei: text, authed: bool, buf: bytes, chunks: seq<bytes>)
    requires chunks != [] && NonEmptyChunks(chunks)
    ensures Run(w, nonce, Streaming(imei, authed, buf), DataReads(chunks))
            == Step(w, nonce, Streaming(imei, authed, buf), Data(Flatten(chunks)))
    decreases |chunks|
  {
    var start := Streaming(imei, authed, buf);
    var (p, first) := Step(w, nonce, start, Data(chunks[0]));
    SplitReads(chunks);
    if |chunks| == 1 {
      assert Flatten(chunks) == chunks[0] + Flatten(chunks[1..]) == chunks[0];
      assert first + [] == first;
    } else {
      var rest := Flatten(chunks[1..]);
      assert rest != [] by {
        assert chunks[1] in chunks && chunks[1..][0] == chunks[1];
        assert rest == chunks[1..][0] + Flatten(chunks[1..][1..]);
      }
      JoinReads(w, nonce, imei, authed, buf, chunks[0], rest);
      if p.Closed? {
        ClosedStays(w, nonce, p, DataReads(chunks[1..]));
      } else {
        ChunkingIndependence(w, nonce, p.imei, p.authed, p.buf, chunks[1..]);
      }
    }
  }

  // ---------------------------------------------------------------------
  // Keys
  // ---------------------------------------------------------------------

  /** Who the connection is after these frames. */
  function IdentityAfter(json: bytes -> Json, authed: bool, start: text, frames: seq<payload>): text {
    if authed || LastHello(json, frames).None? then start else LastHello(json, frames).value
  }

  /** The record one frame calls for when `who` is the identity established before it. */
  function CalledFor(json: bytes -> Json, authed: bool, who: text, frame: payload): seq<Record> {
    match Classify(json, frame)
    case Audio(_) => [Record(AudioRaw, who, Raw(frame))]
    case Stat(doc, _) => [Record(DeviceStat, who, StatDoc(doc))]
    case Hello(id) => if authed ==> id == who then [Record(DeviceEvents, id, Connected)] else []
    case _ => []
  }

  /** The records the frames call for, each under the identity established before it. */
  function RecordSpec(json: bytes -> Json, authed: bool, start: text, frames: seq<payload>): seq<Record> {
    if frames == [] then [] else
      var init, last := frames[..|frames| - 1], frames[|frames| - 1];
      RecordSpec(json, authed, start, init) + CalledFor(json, authed, IdentityAfter(json, authed, start, init), last)
  }

  function OnTopic(topic: Topic, records: seq<Record>): seq<Record> {
    if records == [] then [] else
      (if records[0].topic == topic then [records[0]] else []) + OnTopic(topic, records[1..])
  }

  /** The bytes of the frames on the audio topic. */
  function AudioBytes(records: seq<Record>): nat {
    if records == [] then 0 else
      (if records[0].topic == AudioRaw && records[0].value.Raw? then |records[0].value.frame| else 0) + AudioBytes(records[1..])
  }

  predicate Raises(json: bytes -> Json, frame: payload) {
    var kind := Classify(json, frame);
    kind.Stat? && !kind.isObject
  }

  /** The frames before the first that raises. */
  function Survived(json: bytes -> Json, frames: seq<payload>): seq<payload>
    decreases |frames|
  {
    if frames == [] || Raises(json, frames[0]) then [] else [frames[0]] + Survived(json, frames[1..])
  }

  lemma {:induction false} OnTopicConcat(topic: Topic, a: seq<Record>, b: seq<Record>)
    ensures OnTopic(topic, a + b) == OnTopic(topic, a) + OnTopic(topic, b)
  {
    if a == [] {
      assert a + b == b;
    } else {
      var first := if a[0].topic == topic then [a[0]] else [];
      assert (a + b)[0] == a[0] && (a + b)[1..] == a[1..] + b;
      OnTopicConcat(topic, a[1..], b);
      Assoc(first, OnTopic(topic, a[1..]), OnTopic(topic, b));
    }
  }

  lemma {:induction false} AudioBytesConcat(a: seq<Record>, b: seq<Record>)
    ensures AudioBytes(a + b) == AudioBytes(a) + AudioBytes(b)
  {
    if a == [] {
      assert a + b == b;
    } else {
      assert (a + b)[0] == a[0] && (a + b)[1..] == a[1..] + b;
      AudioBytesConcat(a[1..], b);
    }
  }

  lemma {:induction false} ProcessSurvived(json: bytes -> Json, authed: bool, imei: text, frames: seq<payload>)
    ensures var all := Process(json, authed, imei, frames);
            var kept := Process(json, authed, imei, Survived(json, frames));
            && !kept.raised && all.records == kept.records && all.imei == kept.imei
            && (all.raised <==> Survived(json, frames) != frames)
    decreases |frames|
  {
    if frames != [] && !Raises(json, frames[0]) {
      var one := OneFrame(json, authed, imei, frames[0]);
      ProcessSurvived(json, authed, one.imei, frames[1..]);
      assert Survived(json, frames)[1..] == Survived(json, frames[1..]);
      assert frames == [frames[0]] + frames[1..];
    }
  }

  lemma {:induction false} SurvivesIff(json: bytes -> Json, frames: seq<payload>)
    ensures Survived(json, frames) == frames <==> forall f <- frames :: !Raises(json, f)
    decreases |frames|
  {
    if frames != [] {
      hide Raises;
      SurvivesIff(json, frames[1..]);
      assert frames == [frames[0]] + frames[1..];
      if !Raises(json, frames[0]) {
        assert Survived(json, frames)[1..] == Survived(json, frames[1..]);
      }
    }
  }

  /** A read with data closes a streaming connection exactly when it completes a STAT frame whose JSON is not an object. */
  lemma ReadClosesIff(w: World, nonce: bytes, imei: text, authed: bool, buf: bytes, chunk: bytes)
    requires chunk != []
    ensures Step(w, nonce, Streaming(imei, authed, buf), Data(chunk)).0.Closed?
            <==> exists f <- Parse(buf + chunk).0 :: Classify(w.json, f).Stat? && !Classify(w.json, f).isObject
  {
    var frames := Parse(buf + chunk).0;
    ProcessSurvived(w.json, authed, imei, frames);
    SurvivesIff(w.json, frames);
    assert forall f <- frames :: Raises(w.json, f) <==> Classify(w.json, f).Stat? && !Classify(w.json, f).isObject;
    hide Parse, Process, Survived, Classify;
  }

  /** A telemetry frame holding the JSON number 1 ends its connection. */
  lemma NumberAsStatCloses(w: World, nonce: bytes, imei: text, authed: bool)
    requires w.json([0x31]) == NotObject
    ensures Step(w, nonce, Streaming(imei, authed, []), Data(Frame(BuildStat([0x31])))).0.Closed?
  {
    var stat: payload := BuildStat([0x31]);
    ClassifyStat(w.json, [0x31]);
    ParseOne(stat, []);
    assert Frame(stat) != [];
    hide Step, Parse, Frame, BuildStat, Classify;
    assert [] + Frame(stat) == Frame(stat) == Frame(stat) + [] && stat in [stat];
    ReadClosesIff(w, nonce, imei, authed, [], Frame(stat));
  }

  lemma OneMeetsSpec(json: bytes -> Json, authed: bool, start: text, init: seq<payload>, last: payload)
    ensures var who := IdentityAfter(json, authed, start, init);
            var one := OneFrame(json, authed, who, last);
            !one.raised ==>
              one.imei == IdentityAfter(json, authed, start, init + [last]) && one.records == CalledFor(json, authed, who, last)
  {
    hide Classify;
    assert (init + [last])[..|init|] == init;
    AudioKeepsFrame(json, last);
  }

  lemma AudioKeepsFrame(json: bytes -> Json, frame: payload)
    ensures Classify(json, frame).Audio? ==> Classify(json, frame) == Audio(frame)
  {}

  /** While nothing raises: the identity and the records are the ones called for. */
  lemma {:induction false} ProcessMeetsSpec(json: bytes -> Json, authed: bool, imei: text, frames: seq<payload>)
    requires !Process(json, authed, imei, frames).raised
    ensures Process(json, authed, imei, frames).imei == IdentityAfter(json, authed, imei, frames)
    ensures Process(json, authed, imei, frames).records == RecordSpec(json, authed, imei, frames)
    decreases |frames|
  {
    if frames != [] {
      hide OneFrame, IdentityAfter, CalledFor;
      var init, last := frames[..|frames| - 1], frames[|frames| - 1];
      assert init + [last] == frames;
      ProcessConcat(json, authed, imei, init, [last]);
      ProcessMeetsSpec(json, authed, imei, init);
      ProcessOne(json, authed, Process(json, authed, imei, init).imei, last);
      OneMeetsSpec(json, authed, imei, init, last);
    }
  }

  lemma ProcessOne(json: bytes -> Json, authed: bool, imei: text, frame: payload)
    ensures Process(json, authed, imei, [frame]) == OneFrame(json, authed, imei, frame)
  {
    var one := OneFrame(json, authed, imei, frame);
    assert one.records + [] == one.records;
    assert Process(json, authed, one.imei, [frame][1..]) == Out(one.imei, [], false);
  }

  /**
    * Over any frames: the records are exactly those called for by the frames before the first that
    * raises, in order. Audio and telemetry are keyed by the last HELLO before them, else by the
    * starting identity; on an authenticated connection always by the latter, and a HELLO for
    * another id produces nothing.
    */
  lemma RecordKeys(json: bytes -> Json, authed: bool, imei: text, frames: seq<payload>)
    ensures Process(json, authed, imei, frames).records == RecordSpec(json, authed, imei, Survived(json, frames))
    ensures Process(json, authed, imei, frames).imei == IdentityAfter(json, authed, imei, Survived(json, frames))
  {
    ProcessSurvived(json, authed, imei, frames);
    ProcessMeetsSpec(json, authed, imei, Survived(json, frames));
  }

  // ---------------------------------------------------------------------
  // Identity
  // ---------------------------------------------------------------------

  /** The bytes received: the chunks before the first read that closes a connection. */
  function Received(rs: seq<Read>): bytes {
    if rs == [] || !rs[0].Data? || rs[0].chunk == [] then []
    else rs[0].chunk + Received(rs[1..])
  }

  /** The first frame of the stream is an AUTH frame for `id` whose MAC matches the registered key. */
  ghost predicate Proven(w: World, nonce: bytes, stream: bytes, id: text) {
    && Parse(stream).0 != []
    && var kind := Classify(w.json, Parse(stream).0[0]);
       kind.Auth? && kind.device == id && id in w.keys && Verify(w.mac, w.keys[id], nonce, kind.mac)
  }

  predicate CarriesAudioOrStat(r: Record) {
    r.topic == AudioRaw || r.topic == DeviceStat
  }

  lemma {:induction false} AuthedProcess(json: bytes -> Json, id: text, frames: seq<payload>)
    ensures Process(json, true, id, frames).imei == id
    ensures forall r <- Process(json, true, id, frames).records :: r.key == id
    decreases |frames|
  {
    if frames != [] {
      AuthedProcess(json, id, frames[1..]);
    }
  }

  /** Whatever an authenticated connection receives, HELLO frames included, it keeps its proven id. */
  lemma {:induction false} AuthedKeepsId(w: World, nonce: bytes, id: text, buf: bytes, rs: seq<Read>)
    ensures forall r <- Run(w, nonce, Streaming(id, true, buf), rs).1 :: r.key == id
    ensures var last := Run(w, nonce, Streaming(id, true, buf), rs).0;
            !last.Handshaking? && last.imei == id
    decreases |rs|
  {
    if rs != [] {
      var read := rs[0];
      var (p, first) := Step(w, nonce, Streaming(id, true, buf), read);
      if read.Data? && read.chunk != [] {
        AuthedProcess(w.json, id, Parse(buf + read.chunk).0);
      }
      assert !p.Handshaking? && p.imei == id && forall r <- first :: r.key == id;
      if p.Closed? {
        ClosedStays(w, nonce, p, rs[1..]);
      } else {
        AuthedKeepsId(w, nonce, id, p.buf, rs[1..]);
      }
    }
  }

  lemma FirstFrameStays(a: bytes, b: bytes)
    requires Parse(a).0 != []
    ensures Parse(a + b).0 != [] && Parse(a + b).0[0] == Parse(a).0[0]
  {
    ParseSplit(a, b);
  }

  /**
    * In required mode every audio or stat record of any run carries an id that the connection
    * proved with the first frame it sent.
    */
  lemma {:induction false} RequiredModeProves(w: World, nonce: bytes, buf: bytes, rs: seq<Read>)
    requires w.mode.Required? && Parse(buf).0 == []
    ensures forall r <- Run(w, nonce, Handshaking(buf), rs).1 ::
              CarriesAudioOrStat(r) ==> Proven(w, nonce, buf + Received(rs), r.key)
    decreases |rs|
  {
    if rs != [] {
      var read := rs[0];
      var (p, first) := Step(w, nonce, Handshaking(buf), read);
      assert forall r <- first :: !CarriesAudioOrStat(r);
      if p.Closed? {
        ClosedStays(w, nonce, p, rs[1..]);
      } else {
        var all := buf + read.chunk;
        Assoc(buf, read.chunk, Received(rs[1..]));
        if p.Handshaking? {
          RequiredModeProves(w, nonce, all, rs[1..]);
        } else {
          AuthedKeepsId(w, nonce, p.imei, p.buf, rs[1..]);
          FirstFrameStays(all, Received(rs[1..]));
          assert Proven(w, nonce, buf + Received(rs), p.imei);
        }
      }
    }
  }

  /** In any mode, an authenticated connection proved its id with the first frame it sent. */
  lemma {:induction false} AuthedIsProven(w: World, nonce: bytes, buf: bytes, rs: seq<Read>)
    requires Parse(buf).0 == []
    ensures var p := Run(w, nonce, Handshaking(buf), rs).0;
            p.Streaming? && p.authed ==> Proven(w, nonce, buf + Received(rs), p.imei)
    decreases |rs|
  {
    if rs != [] {
      var (p, first) := Step(w, nonce, Handshaking(buf), rs[0]);
      if p.Closed? {
        ClosedStays(w, nonce, p, rs[1..]);
      } else {
        var all := buf + rs[0].chunk;
        Assoc(buf, rs[0].chunk, Received(rs[1..]));
        if p.Handshaking? {
          AuthedIsProven(w, nonce, all, rs[1..]);
        } else {
          FirstFrameStays(all, Received(rs[1..]));
          StreamingKeepsAuthed(w, nonce, p, rs[1..]);
          if p.authed {
            AuthedKeepsId(w, nonce, p.imei, p.buf, rs[1..]);
          }
        }
      }
    }
  }

  lemma {:induction false} StreamingKeepsAuthed(w: World, nonce: bytes, phase: Phase, rs: seq<Read>)
    requires phase.Streaming?
    ensures var p := Run(w, nonce, phase, rs).0;
            p.Closed? || (p.Streaming? && p.authed == phase.authed)
    decreases |rs|
  {
    if rs != [] {
      var p := Step(w, nonce, phase, rs[0]).0;
      if p.Closed? {
        ClosedStays(w, nonce, p, rs[1..]);
      } else {
        StreamingKeepsAuthed(w, nonce, p, rs[1..]);
      }
    }
  }

  /** Only a handshake is denied: a connection past it closes without a denial. */
  lemma {:induction false} StreamsAreNotDenied(w: World, nonce: bytes, phase: Phase, rs: seq<Read>)
    requires phase.Streaming?
    ensures var p := Run(w, nonce, phase, rs).0;
            p.Streaming? || (p.Closed? && !p.denied)
    decreases |rs|
  {
    if rs != [] {
      hide Process, Parse;
      var p := Step(w, nonce, phase, rs[0]).0;
      if p.Closed? {
        ClosedStays(w, nonce, p, rs[1..]);
      } else {
        StreamsAreNotDenied(w, nonce, p, rs[1..]);
      }
    }
  }

  // ---------------------------------------------------------------------
  // The handshake terminates
  // ---------------------------------------------------------------------

  /** A connection still waiting for its first frame has made at most 65536 non-empty reads. */
  lemma {:induction false} HandshakeReadsBounded(w: World, nonce: bytes, buf: bytes, chunks: seq<bytes>)
    requires NonEmptyChunks(chunks) && Parse(buf).0 == []
    requires Run(w, nonce, Handshaking(buf), DataReads(chunks)).0.Handshaking?
    ensures |buf| + |chunks| <= 0x1_0000
    decreases |chunks|
  {
    if chunks == [] {
      ParseRebuilds(buf);
    } else {
      SplitReads(chunks);
      var p := Step(w, nonce, Handshaking(buf), Data(chunks[0])).0;
      if p.Closed? {
        ClosedStays(w, nonce, p, DataReads(chunks[1..]));
        assert false;
      } else if p.Streaming? {
        StreamingStays(w, nonce, p, DataReads(chunks[1..]));
        assert false;
      } else {
        HandshakeReadsBounded(w, nonce, p.buf, chunks[1..]);
      }
    }
  }

  lemma {:induction false} StreamingStays(w: World, nonce: bytes, phase: Phase, rs: seq<Read>)
    requires !phase.Handshaking?
    ensures !Run(w, nonce, phase, rs).0.Handshaking?
    decreases |rs|
  {
    if rs != [] {
      StreamingStays(w, nonce, Step(w, nonce, phase, rs[0]).0, rs[1..]);
    }
  }
}
