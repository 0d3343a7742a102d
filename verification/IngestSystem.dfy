/**
  * Many ingest connections at once (server/ingest.py): every event is one stretch of `handle`
  * between two awaits, and events of different connections interleave freely.
  */
module IngestSystem {
  import opened Bytes
  import opened Protocol
  import A = Auth
  import opened I = Ingest
  import H = Handoff

  /** One call of `handle`; `releases` counts its calls of `limiter.release`. */
  datatype Conn = Conn(ip: text, admitted: bool, nonce: bytes, phase: Phase, records: seq<Record>, releases: nat) {
    predicate IsOpen() {
      admitted && !phase.Closed?
    }
  }

  /** `topic` holds the records of all connections in the order they are produced. */
  datatype State = State(limits: A.Limits, conns: seq<Conn>, calls: seq<A.Call>, topic: seq<Record>)

  datatype Event = Accept(ip: text, now: real, nonce: bytes) | Deliver(conn: nat, read: Read)

  function Next(w: World, caps: A.Caps, s: State, e: Event): State {
    match e
    case Accept(ip, now, nonce) =>
      var (limits, ok) := A.AllowStep(caps, s.limits, ip, now);
      var phase := if ok then Start(w.mode) else Closed(UNKNOWN, false);
      State(limits, s.conns + [Conn(ip, ok, nonce, phase, [], 0)], s.calls + [A.Allow(ip, now)], s.topic)
    case Deliver(i, read) =>
      if i >= |s.conns| || !s.conns[i].IsOpen() then s else
        var c := s.conns[i];
        var (phase, records) := Step(w, c.nonce, c.phase, read);
        var c' := c.(phase := phase, records := c.records + records);
        if phase.Closed? then
          State(A.ReleaseStep(s.limits, c.ip), s.conns[i := c'.(releases := c.releases + 1)],
                s.calls + [A.Release(c.ip)], s.topic + records)
        else s.(conns := s.conns[i := c'], topic := s.topic + records)
  }

  function Reached(w: World, caps: A.Caps, events: seq<Event>): State {
    if events == [] then State(A.NO_LIMITS, [], [], []) else
      Next(w, caps, Reached(w, caps, events[..|events| - 1]), events[|events| - 1])
  }

  // ---------------------------------------------------------------------
  // Counting
  // ---------------------------------------------------------------------

  function OpenFrom(conns: seq<Conn>, ip: text): nat {
    if conns == [] then 0 else
      var last := conns[|conns| - 1];
      OpenFrom(conns[..|conns| - 1], ip) + if last.ip == ip && last.IsOpen() then 1 else 0
  }

  function Disconnects(records: seq<Record>): nat {
    if records == [] then 0 else
      Disconnects(records[..|records| - 1]) + if records[|records| - 1].value.Disconnected? then 1 else 0
  }

  lemma {:induction false} OpenFromUpdate(conns: seq<Conn>, i: nat, c: Conn, ip: text)
    requires i < |conns| && c.ip == conns[i].ip
    ensures OpenFrom(conns[i := c], ip)
            == OpenFrom(conns, ip)
               - (if c.ip == ip && conns[i].IsOpen() then 1 else 0) + if c.ip == ip && c.IsOpen() then 1 else 0
  {
    var n := |conns| - 1;
    if i == n {
      assert conns[i := c][..n] == conns[..n];
    } else {
      assert conns[i := c][..n] == conns[..n][i := c];
      OpenFromUpdate(conns[..n], i, c, ip);
    }
  }

  lemma {:induction false} DisconnectsConcat(a: seq<Record>, b: seq<Record>)
    ensures Disconnects(a + b) == Disconnects(a) + Disconnects(b)
  {
    if b == [] {
      assert a + b == a;
    } else {
      assert (a + b)[..|a + b| - 1] == a + b[..|b| - 1];
      DisconnectsConcat(a, b[..|b| - 1]);
    }
  }

  lemma {:induction false} ProcessNeverDisconnects(json: bytes -> Json, authed: bool, imei: text, frames: seq<payload>)
    ensures Disconnects(Process(json, authed, imei, frames).records) == 0
    decreases |frames|
  {
    if frames != [] {
      var one := OneFrame(json, authed, imei, frames[0]);
      assert Disconnects(one.records) == 0 by {
        hide Classify, Process;
        if one.records != [] {
          assert one.records[..0] == [];
        }
      }
      hide OneFrame, Disconnects;
      ProcessNeverDisconnects(json, authed, one.imei, frames[1..]);
      DisconnectsConcat(one.records, Process(json, authed, one.imei, frames[1..]).records);
    }
  }

  lemma StepDisconnects(w: World, nonce: bytes, phase: Phase, read: Read)
    requires !phase.Closed?
    ensures var (p, records) := Step(w, nonce, phase, read);
            Disconnects(records) == if p.Closed? then 1 else 0
  {
    if phase.Streaming? && read.Data? {
      var out := Process(w.json, phase.authed, phase.imei, Parse(phase.buf + read.chunk).0);
      ProcessNeverDisconnects(w.json, phase.authed, phase.imei, Parse(phase.buf + read.chunk).0);
      CloseDisconnects(out.imei, false, out.records);
    }
    CloseDisconnects(UNKNOWN, true, []);
    CloseDisconnects(UNKNOWN, false, []);
    if phase.Streaming? {
      CloseDisconnects(phase.imei, false, []);
    }
    hide Process, Parse, Close, Disconnects, Decide, Leftover;
    assert Disconnects([]) == 0 by {
      NoDisconnects();
    }
    if phase.Handshaking? && read.Data? && read.chunk != [] && Parse(phase.buf + read.chunk).0 != [] {
      var next := Decide(w, nonce, Parse(phase.buf + read.chunk).0[0], Leftover(phase.buf + read.chunk));
      CloseDisconnects(next.imei, next.Closed? && next.denied, []);
    }
  }

  lemma NoDisconnects()
    ensures Disconnects([]) == 0
  {}

  lemma CloseDisconnects(imei: text, denied: bool, records: seq<Record>)
    ensures Disconnects(Close(imei, denied, records).1) == Disconnects(records) + 1
    ensures Close(imei, denied, records).0.Closed?
  {
    var all := Close(imei, denied, records).1;
    assert all[..|records|] == records;
  }

  // ---------------------------------------------------------------------
  // Connection accounting
  // ---------------------------------------------------------------------

  /** Admitted connections release once and disconnect once, when they close; refused ones do neither. */
  ghost predicate ConnAccounted(c: Conn) {
    && Disconnects(c.records) == c.releases == (if c.admitted && c.phase.Closed? then 1 else 0)
    && (!c.admitted ==> c.records == [])
  }

  ghost predicate Accounted(caps: A.Caps, s: State) {
    && s.limits == A.Run(caps, s.calls)
    && (forall ip: text :: s.limits.Live(ip) == OpenFrom(s.conns, ip))
    && (forall ip: text :: s.limits.Live(ip) <= if caps.maxConcurrent < 0 then 0 else caps.maxConcurrent)
    && (forall i | 0 <= i < |s.conns| :: ConnAccounted(s.conns[i]))
  }

  lemma AllowChangesLive(caps: A.Caps, s: A.Limits, ip: text, now: real, other: text)
    ensures var (s', ok) := A.AllowStep(caps, s, ip, now);
            && s'.Live(other) == s.Live(other) + (if ok && other == ip then 1 else 0)
            && (ok ==> s.Live(ip) < caps.maxConcurrent)
  {}

  lemma ReleaseChangesLive(s: A.Limits, ip: text, other: text)
    requires s.Live(ip) >= 1
    ensures A.ReleaseStep(s, ip).Live(other) == s.Live(other) - (if other == ip then 1 else 0)
  {}

  lemma CallsSnoc(caps: A.Caps, calls: seq<A.Call>, call: A.Call)
    ensures A.Run(caps, calls + [call])
            == if call.Allow? then A.AllowStep(caps, A.Run(caps, calls), call.ip, call.now).0
               else A.ReleaseStep(A.Run(caps, calls), call.ip)
  {
    assert (calls + [call])[..|calls|] == calls;
  }

  lemma AcceptAccounted(w: World, caps: A.Caps, s: State, ip: text, now: real, nonce: bytes)
    requires Accounted(caps, s)
    ensures Accounted(caps, Next(w, caps, s, Accept(ip, now, nonce)))
  {
    var s' := Next(w, caps, s, Accept(ip, now, nonce));
    CallsSnoc(caps, s.calls, A.Allow(ip, now));
    NoDisconnects();
    assert s'.conns[..|s.conns|] == s.conns;
    hide A.AllowStep, A.Run, Disconnects;
    forall other: text
      ensures s'.limits.Live(other) == OpenFrom(s'.conns, other)
      ensures s'.limits.Live(other) <= if caps.maxConcurrent < 0 then 0 else caps.maxConcurrent
    {
      AllowChangesLive(caps, s.limits, ip, now, other);
    }
  }

  lemma {:induction false} OpenAtLeastOne(conns: seq<Conn>, i: nat)
    requires i < |conns| && conns[i].IsOpen()
    ensures OpenFrom(conns, conns[i].ip) >= 1
  {
    if i < |conns| - 1 {
      OpenAtLeastOne(conns[..|conns| - 1], i);
    }
  }

  lemma DeliverKeepsConns(w: World, caps: A.Caps, s: State, i: nat, read: Read)
    requires i < |s.conns| && s.conns[i].IsOpen()
    requires forall k | 0 <= k < |s.conns| :: ConnAccounted(s.conns[k])
    ensures var s' := Next(w, caps, s, Deliver(i, read));
            && |s'.conns| == |s.conns|
            && s'.conns == s.conns[i := s'.conns[i]] && s'.conns[i].ip == s.conns[i].ip
            && forall k | 0 <= k < |s'.conns| :: ConnAccounted(s'.conns[k])
  {
    var c := s.conns[i];
    var (phase, records) := Step(w, c.nonce, c.phase, read);
    StepDisconnects(w, c.nonce, c.phase, read);
    DisconnectsConcat(c.records, records);
    hide A.ReleaseStep, Disconnects, Step;
  }

  lemma DeliverKeepsLive(w: World, caps: A.Caps, s: State, i: nat, read: Read, ip: text)
    requires i < |s.conns| && s.conns[i].IsOpen()
    requires s.limits.Live(s.conns[i].ip) >= 1
    ensures var s' := Next(w, caps, s, Deliver(i, read));
            |s'.conns| == |s.conns| &&
            s'.limits.Live(ip) == s.limits.Live(ip) - if !s'.conns[i].IsOpen() && ip == s.conns[i].ip then 1 else 0
  {
    ReleaseChangesLive(s.limits, s.conns[i].ip, ip);
    hide A.ReleaseStep, Step, A.Limits.Live;
  }

  lemma DeliverAccounted(w: World, caps: A.Caps, s: State, i: nat, read: Read)
    requires Accounted(caps, s)
    requires i < |s.conns| && s.conns[i].IsOpen()
    ensures Accounted(caps, Next(w, caps, s, Deliver(i, read)))
  {
    var c := s.conns[i];
    var s' := Next(w, caps, s, Deliver(i, read));
    DeliverKeepsConns(w, caps, s, i, read);
    OpenAtLeastOne(s.conns, i);
    CallsSnoc(caps, s.calls, A.Release(c.ip));
    assert s'.limits == A.Run(caps, s'.calls) by {
      hide Step, A.Run, A.ReleaseStep;
    }
    hide A.ReleaseStep, A.Run, Disconnects, OpenFrom, Step, Next, ConnAccounted, A.Limits.Live;
    forall other: text
      ensures s'.limits.Live(other) == OpenFrom(s'.conns, other)
      ensures s'.limits.Live(other) <= if caps.maxConcurrent < 0 then 0 else caps.maxConcurrent
    {
      OpenFromUpdate(s.conns, i, s'.conns[i], other);
      DeliverKeepsLive(w, caps, s, i, read, other);
    }
  }

  /**
    * In every reachable state: the limiter's live count of an address is the number of its open
    * admitted connections and never exceeds the cap; every closed admitted connection has released
    * once and attempted one disconnect event; a refused one has done neither.
    */
  lemma {:induction false} ReachableIsAccounted(w: World, caps: A.Caps, events: seq<Event>)
    ensures Accounted(caps, Reached(w, caps, events))
  {
    if events != [] {
      var init, last := events[..|events| - 1], events[|events| - 1];
      ReachableIsAccounted(w, caps, init);
      var s := Reached(w, caps, init);
      hide Accounted;
      if last.Accept? {
        AcceptAccounted(w, caps, s, last.ip, last.now, last.nonce);
      } else if last.conn < |s.conns| && s.conns[last.conn].IsOpen() {
        DeliverAccounted(w, caps, s, last.conn, last.read);
      }
    }
  }

  /** The per-minute cap, for the server as a whole. */
  lemma ServerAdmitsAtMostPerMinute(w: World, caps: A.Caps, events: seq<Event>, ip: text, from: real)
    requires A.ClockNonDecreasing(Reached(w, caps, events).calls, ip)
    ensures Reached(w, caps, events).limits == A.Run(caps, Reached(w, caps, events).calls)
    ensures A.CountWithin(A.Admitted(caps, Reached(w, caps, events).calls, ip), from, from + 60.0)
            <= if caps.maxPerMinute < 0 then 0 else caps.maxPerMinute
  {
    ReachableIsAccounted(w, caps, events);
    A.AtMostPerMinute(caps, Reached(w, caps, events).calls, ip, from);
  }

  // ---------------------------------------------------------------------
  // Interleaving does not show
  // ---------------------------------------------------------------------

  /** The reads delivered to connection `i` once it exists. */
  function ReadsOf(w: World, caps: A.Caps, events: seq<Event>, i: nat): seq<Read> {
    if events == [] then [] else
      var init, last := events[..|events| - 1], events[|events| - 1];
      ReadsOf(w, caps, init, i)
      + if last.Deliver? && last.conn == i && i < |Reached(w, caps, init).conns| then [last.read] else []
  }

  lemma RunSnoc(w: World, nonce: bytes, phase: Phase, rs: seq<Read>, r: Read)
    ensures var (p, before) := I.Run(w, nonce, phase, rs);
            var (q, more) := Step(w, nonce, p, r);
            I.Run(w, nonce, phase, rs + [r]) == (q, before + more)
  {
    H.RunConcat(w, nonce, phase, rs, [r]);
    hide Step;
    var p := I.Run(w, nonce, phase, rs).0;
    var (q, more) := Step(w, nonce, p, r);
    assert [r][1..] == [] && more + [] == more;
    assert I.Run(w, nonce, p, [r]) == (q, more);
  }

  /** What one event does to connection `i`. */
  lemma EventOnConn(w: World, caps: A.Caps, s: State, e: Event, i: nat)
    requires i < |Next(w, caps, s, e).conns|
    ensures var c := Next(w, caps, s, e).conns[i];
            if i >= |s.conns| then e.Accept? && c.records == [] && (c.admitted ==> c.phase == Start(w.mode))
            else
              var (phase, more) := if e.Deliver? && e.conn == i then Step(w, s.conns[i].nonce, s.conns[i].phase, e.read)
                                   else (s.conns[i].phase, []);
              && c.nonce == s.conns[i].nonce && c.admitted == s.conns[i].admitted
              && (c.admitted ==> c.phase == phase && c.records == s.conns[i].records + more)
  {
    hide A.AllowStep, A.ReleaseStep, Start;
    if i < |s.conns| {
      assert s.conns[i].records + [] == s.conns[i].records;
      if s.conns[i].phase.Closed? && e.Deliver? {
        assert Step(w, s.conns[i].nonce, s.conns[i].phase, e.read) == (s.conns[i].phase, []);
      }
      hide Step;
    }
  }

  /** Whatever the other connections do, an admitted connection behaves as if it ran alone on its own reads. */
  lemma {:induction false} InterleavingProjects(w: World, caps: A.Caps, events: seq<Event>, i: nat)
    requires i < |Reached(w, caps, events).conns| && Reached(w, caps, events).conns[i].admitted
    ensures var c := Reached(w, caps, events).conns[i];
            (c.phase, c.records) == I.Run(w, c.nonce, Start(w.mode), ReadsOf(w, caps, events, i))
  {
    var init, last := events[..|events| - 1], events[|events| - 1];
    var s := Reached(w, caps, init);
    var rs := ReadsOf(w, caps, init, i);
    EventOnConn(w, caps, s, last, i);
    hide Next, Step, Start;
    if i < |s.conns| {
      var c := s.conns[i];
      InterleavingProjects(w, caps, init, i);
      if last.Deliver? && last.conn == i {
        RunSnoc(w, c.nonce, Start(w.mode), rs, last.read);
      } else {
        assert rs + [] == rs && c.records + [] == c.records;
      }
    } else {
      NoReadsYet(w, caps, init, i);
      var none: seq<Read> := [];
      assert none + none == none;
    }
  }

  lemma ConnsGrow(w: World, caps: A.Caps, s: State, e: Event)
    ensures |s.conns| <= |Next(w, caps, s, e).conns|
  {
    hide A.AllowStep, A.ReleaseStep, Start, Step;
  }

  lemma {:induction false} NoReadsYet(w: World, caps: A.Caps, events: seq<Event>, i: nat)
    requires |Reached(w, caps, events).conns| <= i
    ensures ReadsOf(w, caps, events, i) == []
  {
    if events != [] {
      ConnsGrow(w, caps, Reached(w, caps, events[..|events| - 1]), events[|events| - 1]);
      hide Next;
      NoReadsYet(w, caps, events[..|events| - 1], i);
    }
  }

  /**
    * Whatever else the server does in required mode, every audio or stat record comes from a
    * connection that proved the record's id with its first frame on that connection's nonce.
    */
  lemma ServerRecordsAreProven(w: World, caps: A.Caps, events: seq<Event>, i: nat)
    requires w.mode.Required? && i < |Reached(w, caps, events).conns|
    ensures var c := Reached(w, caps, events).conns[i];
            forall r <- c.records | CarriesAudioOrStat(r) ::
              Proven(w, c.nonce, Received(ReadsOf(w, caps, events, i)), r.key)
  {
    var c := Reached(w, caps, events).conns[i];
    var rs := ReadsOf(w, caps, events, i);
    ReachableIsAccounted(w, caps, events);
    assert ConnAccounted(c);
    if c.admitted {
      InterleavingProjects(w, caps, events, i);
      assert Parse([]).0 == [];
      RequiredModeProves(w, c.nonce, [], rs);
      assert [] + Received(rs) == Received(rs);
    }
  }
}
