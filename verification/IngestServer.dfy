/** The ingest server's methods (server/ingest.py), proved against the connection machine. */
module IngestServer {
  import opened Bytes
  import opened Protocol
  import opened Auth
  import opened I = Ingest

  // ---------------------------------------------------------------------
  // Relating loops to runs
  // ---------------------------------------------------------------------

  predicate EndsConnection(r: Read) {
    !r.Data? || r.chunk == []
  }

  /** A handshake holding `buf`, about to look for its first frame. */
  function FromBuffer(w: World, nonce: bytes, buf: bytes, rs: seq<Read>): (Phase, seq<Record>) {
    if Parse(buf).0 == [] then I.Run(w, nonce, Handshaking(buf), rs)
    else FromDecision(w, nonce, Decide(w, nonce, Parse(buf).0[0], Leftover(buf)), rs)
  }

  function FromDecision(w: World, nonce: bytes, phase: Phase, rs: seq<Read>): (Phase, seq<Record>) {
    if phase.Closed? then Close(phase.imei, phase.denied, []) else I.Run(w, nonce, phase, rs)
  }

  lemma ReadMore(w: World, nonce: bytes, buf: bytes, rs: seq<Read>)
    requires Parse(buf).0 == [] && rs != [] && !EndsConnection(rs[0])
    ensures FromBuffer(w, nonce, buf, rs) == FromBuffer(w, nonce, buf + rs[0].chunk, rs[1..])
  {
    hide Parse, Decide, Leftover;
    var (p, first) := Step(w, nonce, Handshaking(buf), rs[0]);
    var rest := I.Run(w, nonce, p, rs[1..]);
    if p.Closed? {
      ClosedStays(w, nonce, p, rs[1..]);
      assert first + [] == first;
    } else {
      assert [] + rest.1 == rest.1;
    }
  }

  lemma LastRead(w: World, nonce: bytes, phase: Phase, rs: seq<Read>)
    requires !phase.Closed? && rs != [] && EndsConnection(rs[0])
    ensures I.Run(w, nonce, phase, rs)
            == Close(if phase.Handshaking? then UNKNOWN else phase.imei, phase.Handshaking? && !rs[0].Broken?, [])
  {
    var (p, first) := Step(w, nonce, phase, rs[0]);
    ClosedStays(w, nonce, p, rs[1..]);
    assert first + [] == first;
  }

  lemma StreamMore(w: World, nonce: bytes, imei: text, authed: bool, buf: bytes, rs: seq<Read>)
    requires rs != [] && !EndsConnection(rs[0])
    ensures var parsed := Parse(buf + rs[0].chunk);
            var out := Process(w.json, authed, imei, parsed.0);
            I.Run(w, nonce, Streaming(imei, authed, buf), rs)
            == if out.raised then Close(out.imei, false, out.records)
               else
                 var (last, rest) := I.Run(w, nonce, Streaming(out.imei, authed, parsed.1), rs[1..]);
                 (last, out.records + rest)
  {
    hide Parse, Process;
    var (p, first) := Step(w, nonce, Streaming(imei, authed, buf), rs[0]);
    if p.Closed? {
      ClosedStays(w, nonce, p, rs[1..]);
      assert first + [] == first;
    }
  }

  /** The elements of `s` whose flag is set. */
  function Select<T>(s: seq<T>, kept: seq<bool>): seq<T>
    requires |s| == |kept|
  {
    if s == [] then [] else
      Select(s[..|s| - 1], kept[..|s| - 1]) + if kept[|s| - 1] then [s[|s| - 1]] else []
  }

  // ---------------------------------------------------------------------
  // The server
  // ---------------------------------------------------------------------

  datatype FirstFrame = Got(first: payload, leftover: bytes) | NoFrame | Lost

  class Ingest {
    const w: World
    const limiter: ConnectionLimiter
    var connections: nat
    var frames: nat
    var bytesIn: nat
    var dropped: nat
    var denied: nat
    /** What the producer accepted. */
    var log: seq<Record>
    ghost var attempts: seq<Record>
    ghost var accepted: seq<bool>

    /** Every attempt is either in the log, in order, or counted as dropped. */
    ghost predicate Accounted()
      reads this`accepted, this`attempts, this`log, this`dropped
    {
      && |accepted| == |attempts|
      && log == Select(attempts, accepted)
      && |log| + dropped == |attempts|
    }

    constructor (w: World, limiter: ConnectionLimiter)
      ensures this.w == w && this.limiter == limiter && Accounted() && attempts == []
      ensures connections == frames == bytesIn == denied == 0
    {
      this.w, this.limiter := w, limiter;
      connections, frames, bytesIn, dropped, denied := 0, 0, 0, 0, 0;
      log, attempts, accepted := [], [], [];
    }

    /** `_produce`: a full local queue or a broker error drops the record and counts it. */
    method Produce(r: Record)
      requires Accounted()
      modifies this`log, this`dropped, this`attempts, this`accepted
      ensures Accounted() && attempts == old(attempts) + [r]
    {
      var refused: bool := *;
      if refused {
        dropped := dropped + 1;
      } else {
        log := log + [r];
      }
      assert (attempts + [r])[..|attempts|] == attempts && (accepted + [!refused])[..|attempts|] == accepted;
      attempts := attempts + [r];
      accepted := accepted + [!refused];
    }

    /** `_read_frame`: read until the buffer holds a complete frame. */
    method ReadFrame(ghost nonce: bytes, rs: seq<Read>, from: nat) returns (r: FirstFrame, next: nat)
      requires from < |rs| && EndsConnection(rs[|rs| - 1])
      ensures from <= next <= |rs| && (r.Got? ==> next < |rs|)
      ensures I.Run(w, nonce, Handshaking([]), rs[from..])
              == match r
                 case Got(first, leftover) => FromDecision(w, nonce, Decide(w, nonce, first, leftover), rs[next..])
                 case NoFrame => Close(UNKNOWN, true, [])
                 case Lost => Close(UNKNOWN, false, [])
    {
      var buf: bytes := [];
      next := from;
      while true
        invariant from <= next < |rs|
        invariant FromBuffer(w, nonce, buf, rs[next..]) == I.Run(w, nonce, Handshaking([]), rs[from..])
        decreases |rs| - next
      {
        hide Step, Decide, Parse;
        var found, rest := IterFrames(buf);
        if found != [] {
          var later := Reframe(found[1..]);
          return Got(found[0], rest + later), next;
        }
        var read := rs[next];
        assert rs[next..][0] == read && rs[next..][1..] == rs[next + 1..];
        if EndsConnection(read) {
          LastRead(w, nonce, Handshaking(buf), rs[next..]);
          return if read.Broken? then Lost else NoFrame, next + 1;
        }
        ReadMore(w, nonce, buf, rs[next..]);
        buf := buf + read.chunk;
        next := next + 1;
      }
    }

    /** The join of the later frames, framed again. */
    static method Reframe(later: seq<payload>) returns (r: bytes)
      ensures r == FrameAll(later)
    {
      r := [];
      for k := 0 to |later|
        invariant r == FrameAll(later[..k])
      {
        assert later[..k + 1] == later[..k] + [later[k]];
        FrameAllConcat(later[..k], [later[k]]);
        assert FrameAll([later[k]]) == Frame(later[k]) + FrameAll([later[k]][1..]);
        r := r + Frame(later[k]);
      }
      assert later[..|later|] == later;
    }

    /** The body of the frame loop inside `handle`; `raised` where an exception leaves it. */
    method HandleFrame(authed: bool, claimed: text, frame: payload) returns (imei: text, raised: bool)
      requires Accounted()
      modifies this`log, this`dropped, this`attempts, this`accepted, this`frames, this`bytesIn
      ensures Accounted()
      ensures old(attempts) <= attempts
      ensures Out(imei, attempts[|old(attempts)|..], raised) == OneFrame(w.json, authed, claimed, frame)
      ensures frames == old(frames) + |OnTopic(AudioRaw, attempts[|old(attempts)|..])|
      ensures bytesIn == old(bytesIn) + AudioBytes(attempts[|old(attempts)|..])
    {
      hide Classify, Select, Accounted;
      imei, raised := claimed, false;
      match Classify(w.json, frame) {
        case Malformed =>
        case Auth(_, _) =>
        case Hello(id) =>
          if !(authed && id != imei) {
            imei := id;
            Produce(Record(DeviceEvents, imei, Connected));
          }
        case Stat(doc, isObject) =>
          if isObject {
            Produce(Record(DeviceStat, imei, StatDoc(doc)));
          } else {
            raised := true;
          }
        case Audio(b) =>
          frames := frames + 1;
          bytesIn := bytesIn + |b|;
          Produce(Record(AudioRaw, imei, Raw(b)));
      }
    }

    /** The frame loop inside `handle`. */
    method ProcessFrames(authed: bool, start: text, found: seq<payload>) returns (imei: text, raised: bool)
      requires Accounted()
      modifies this`log, this`dropped, this`attempts, this`accepted, this`frames, this`bytesIn
      ensures Accounted()
      ensures var out := Process(w.json, authed, start, found);
              && imei == out.imei && raised == out.raised
              && attempts == old(attempts) + out.records
              && frames == old(frames) + |OnTopic(AudioRaw, out.records)|
              && bytesIn == old(bytesIn) + AudioBytes(out.records)
    {
      hide Classify, OneFrame, OnTopic, AudioBytes, Select, Accounted;
      imei, raised := start, false;
      ghost var done: seq<Record> := [];
      var k := 0;
      NothingDone(Process(w.json, authed, start, found));
      assert found[0..] == found && attempts + done == attempts;
      while k < |found|
        invariant 0 <= k <= |found| && Accounted() && !raised
        invariant attempts == old(attempts) + done
        invariant frames == old(frames) + |OnTopic(AudioRaw, done)|
        invariant bytesIn == old(bytesIn) + AudioBytes(done)
        invariant var rest := Process(w.json, authed, imei, found[k..]);
                  Process(w.json, authed, start, found) == Out(rest.imei, done + rest.records, rest.raised)
      {
        ghost var here := OneFrame(w.json, authed, imei, found[k]);
        NextOfLoop(w, authed, imei, found, k, done);
        OnTopicConcat(AudioRaw, done, here.records);
        AudioBytesConcat(done, here.records);
        imei, raised := HandleFrame(authed, imei, found[k]);
        assert attempts == old(attempts) + done + here.records;
        Assoc(old(attempts), done, here.records);
        done := done + here.records;
        k := k + 1;
        if raised {
          return;
        }
      }
      assert done + [] == done;
    }

    /** The receive loop of `handle`, up to `finally`. */
    method MainLoop(ghost nonce: bytes, start: text, authed: bool, given: bytes, rs: seq<Read>, from: nat) returns (imei: text)
      requires Accounted() && from < |rs| && EndsConnection(rs[|rs| - 1])
      modifies this`log, this`dropped, this`attempts, this`accepted, this`frames, this`bytesIn
      ensures Accounted()
      ensures var (last, records) := I.Run(w, nonce, Streaming(start, authed, given), rs[from..]);
              && last == Closed(imei, false)
              && attempts + [Record(DeviceEvents, imei, Disconnected)] == old(attempts) + records
              && frames == old(frames) + |OnTopic(AudioRaw, records)|
              && bytesIn == old(bytesIn) + AudioBytes(records)
    {
      hide Step, Parse, Process, OnTopic, AudioBytes, I.Run, Accounted, Close;
      CloseShape();
      imei := start;
      var buf := given;
      var next := from;
      ghost var done: seq<Record> := [];
      assert [] + I.Run(w, nonce, Streaming(start, authed, given), rs[from..]).1
             == I.Run(w, nonce, Streaming(start, authed, given), rs[from..]).1;
      while true
        invariant from <= next < |rs| && Accounted()
        invariant attempts == old(attempts) + done
        invariant frames == old(frames) + |OnTopic(AudioRaw, done)|
        invariant bytesIn == old(bytesIn) + AudioBytes(done)
        invariant var rest := I.Run(w, nonce, Streaming(imei, authed, buf), rs[next..]);
                  I.Run(w, nonce, Streaming(start, authed, given), rs[from..]) == (rest.0, done + rest.1)
        decreases |rs| - next
      {
        var read := rs[next];
        assert rs[next..][0] == read && rs[next..][1..] == rs[next + 1..];
        if EndsConnection(read) {
          LastRead(w, nonce, Streaming(imei, authed, buf), rs[next..]);
          assert done + [] == done;
          DisconnectLast(old(attempts), done, [], imei);
          return;
        }
        StreamMore(w, nonce, imei, authed, buf, rs[next..]);
        var found: seq<payload>;
        found, buf := IterFrames(buf + read.chunk);
        var raised: bool;
        ghost var out := Process(w.json, authed, imei, found);
        imei, raised := ProcessFrames(authed, imei, found);
        OnTopicConcat(AudioRaw, done, out.records);
        AudioBytesConcat(done, out.records);
        if raised {
          Assoc(old(attempts), done, out.records);
          DisconnectLast(old(attempts), done, out.records, imei);
          return;
        }
        Assoc(old(attempts), done, out.records);
        Assoc(done, out.records, I.Run(w, nonce, Streaming(imei, authed, buf), rs[next + 1..]).1);
        done := done + out.records;
        next := next + 1;
      }
    }

    /** A connection from accept to close; running out of arrivals is the 90-second timeout. */
    method Handle(ip: text, clock: real, nonce: bytes, arrivals: seq<Read>)
      requires Accounted()
      modifies this, limiter
      ensures Accounted()
      ensures var (limits, ok) := AllowStep(limiter.caps, old(limiter.State()), ip, clock);
              var (last, records) := I.Run(w, nonce, Start(w.mode), arrivals + [TimedOut]);
              if ok then
                && limiter.State() == ReleaseStep(limits, ip)
                && last.Closed?
                && attempts == old(attempts) + records
                && connections == old(connections) + 1
                && frames == old(frames) + |OnTopic(AudioRaw, records)|
                && bytesIn == old(bytesIn) + AudioBytes(records)
                && denied == old(denied) + if last.denied then 1 else 0
              else
                limiter.State() == limits && unchanged(this)
    {
      hide Accounted, I.Run, AllowStep, ReleaseStep;
      var ok := limiter.Allow(ip, None, clock);
      if !ok {
        return;
      }
      connections := connections + 1;
      var rs := arrivals + [TimedOut];
      var phase, next := Handshake(nonce, rs);
      var imei := phase.imei;
      if phase.Closed? {
        denied := denied + if phase.denied then 1 else 0;
        ghost var none: seq<Record> := [];
        assert none + none == none && attempts + none == attempts;
        DisconnectLast(attempts, none, none, imei);
      } else {
        imei := MainLoop(nonce, phase.imei, phase.authed, phase.buf, rs, next);
      }
      limiter.Release(ip);
      Produce(Record(DeviceEvents, imei, Disconnected));
    }

    /** `_handshake`, with a refusal or a lost connection as a closed phase. */
    method Handshake(nonce: bytes, rs: seq<Read>) returns (phase: Phase, next: nat)
      requires rs != [] && EndsConnection(rs[|rs| - 1])
      ensures !phase.Handshaking? && next <= |rs| && (phase.Streaming? ==> next < |rs|)
      ensures I.Run(w, nonce, Start(w.mode), rs) == FromDecision(w, nonce, phase, rs[next..])
    {
      hide Step, I.Run, Parse, Classify, Verify, Leftover, FrameAll, Close;
      assert rs[0..] == rs;
      if w.mode.Disabled? {
        return Streaming(UNKNOWN, false, []), 0;
      }
      var first: FirstFrame;
      first, next := ReadFrame(nonce, rs, 0);
      phase := match first
        case Got(frame, leftover) => Decide(w, nonce, frame, leftover)
        case NoFrame => Closed(UNKNOWN, true)
        case Lost => Closed(UNKNOWN, false);
    }
  }

  lemma CloseShape()
    ensures OnTopic(AudioRaw, []) == [] && AudioBytes([]) == 0
    ensures forall imei: text, denied: bool, records: seq<Record> ::
              Close(imei, denied, records) == (Closed(imei, denied), records + [Record(DeviceEvents, imei, Disconnected)])
  {}

  /** The disconnect event closes a run's records and is no audio record. */
  lemma DisconnectLast(before: seq<Record>, done: seq<Record>, more: seq<Record>, imei: text)
    ensures var end := [Record(DeviceEvents, imei, Disconnected)];
            && before + (done + more) + end == before + (done + (more + end))
            && OnTopic(AudioRaw, done + (more + end)) == OnTopic(AudioRaw, done + more)
            && AudioBytes(done + (more + end)) == AudioBytes(done + more)
  {
    var end := [Record(DeviceEvents, imei, Disconnected)];
    Assoc(before, done + more, end);
    Assoc(done, more, end);
    OnTopicConcat(AudioRaw, done + more, end);
    AudioBytesConcat(done + more, end);
    assert OnTopic(AudioRaw, end) == OnTopic(AudioRaw, end[1..]) == [];
    assert AudioBytes(end) == AudioBytes(end[1..]) == 0;
  }

  lemma NextOfLoop(w: World, authed: bool, imei: text, found: seq<payload>, k: nat, done: seq<Record>)
    requires k < |found|
    ensures var one := OneFrame(w.json, authed, imei, found[k]);
            var here := Process(w.json, authed, imei, found[k..]);
            var rest := Process(w.json, authed, one.imei, found[k + 1..]);
            if one.raised then here == one && one.records == [] && done + [] == done
            else
              && here == Out(rest.imei, one.records + rest.records, rest.raised)
              && done + (one.records + rest.records) == done + one.records + rest.records
  {
    hide Classify;
    assert found[k..][0] == found[k] && found[k..][1..] == found[k + 1..];
  }

  lemma NothingDone(out: Out)
    ensures out == Out(out.imei, [] + out.records, out.raised)
    ensures OnTopic(AudioRaw, []) == [] && AudioBytes([]) == 0
  {
    assert [] + out.records == out.records;
  }
}
