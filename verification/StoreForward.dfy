/** What the store-and-forward loop puts on the wire (sim/sim_device.py). */
module StoreForward {
  import opened Bytes
  import opened Protocol
  import opened SimDevice

  /** Which iterations generate a frame that is not dropped. */
  function KeptTicks(o: Options, ticks: seq<Tick>): seq<nat> {
    if ticks == [] then [] else
      KeptTicks(o, ticks[..|ticks| - 1]) + if IsLost(o, ticks[|ticks| - 1]) then [] else [|ticks| - 1]
  }

  function Payloads(o: Options, seqno: nat, ts: nat, ks: seq<nat>): seq<payload>
  {
    seq(|ks|, i requires 0 <= i < |ks| => Generated(o, seqno, ts, ks[i]))
  }

  /** Frames with an RTP header: on this wire, those whose first byte is 0x80. */
  function AudioFrames(frames: seq<payload>): seq<payload> {
    if frames == [] then [] else
      AudioFrames(frames[..|frames| - 1])
      + if frames[|frames| - 1] != [] && frames[|frames| - 1][0] == 0x80 then [frames[|frames| - 1]] else []
  }

  function FrameEach(ps: seq<payload>): seq<bytes> {
    seq(|ps|, i requires 0 <= i < |ps| => Frame(ps[i]))
  }

  // ---------------------------------------------------------------------
  // Frames sent and frames held
  // ---------------------------------------------------------------------

  datatype Trace = Trace(sent: seq<payload>, held: seq<payload>)

  /** `Stored` on whole frames instead of bytes. */
  function TraceStored(o: Options, tr: Trace, p: Session, t: Tick, g: payload): Trace {
    if IsLost(o, t) then tr
    else if t.now < p.stallUntil then Trace(tr.sent, tr.held + [g])
    else Trace(tr.sent + tr.held + [g], [])
  }

  function TraceReported(tr: Trace, p: Session, t: Tick): Trace {
    if ReportsNow(p, t) then Trace(tr.sent + [StatPayload(t)], tr.held) else tr
  }

  function TraceNext(o: Options, tr: Trace, p: Session, t: Tick): Trace
    requires p.idx < |o.packets|
  {
    if ClipEnds(o, p) then tr else
      var g := AudioPayload(o, p.idx, p.seqno, p.ts);
      var p1 := Advanced(o, p, t);
      TraceReported(TraceStored(o, tr, p1, t, g), Stored(o, p1, t, Frame(g)), t)
  }

  /** These writes, this backlog and this many audio bytes are these frames. */
  ghost predicate Matches(tr: Trace, writes: seq<bytes>, held: seq<bytes>, audioBytes: int) {
    && Flatten(writes) == FrameAll(tr.sent)
    && held == FrameEach(tr.held)
    && AudioFrames(tr.held) == tr.held
    && audioBytes == |FrameAll(AudioFrames(tr.sent))|
  }

  lemma {:induction false} AudioFramesConcat(a: seq<payload>, b: seq<payload>)
    ensures AudioFrames(a + b) == AudioFrames(a) + AudioFrames(b)
  {
    if b == [] {
      assert a + b == a;
    } else {
      assert (a + b)[..|a + b| - 1] == a + b[..|b| - 1];
      AudioFramesConcat(a, b[..|b| - 1]);
    }
  }

  lemma {:induction false} FlattenFrames(ps: seq<payload>)
    ensures Flatten(FrameEach(ps)) == FrameAll(ps)
  {
    if ps != [] {
      assert FrameEach(ps)[1..] == FrameEach(ps[1..]) && FrameEach(ps)[0] == Frame(ps[0]);
      FlattenFrames(ps[1..]);
    }
  }

  lemma OneAudio(o: Options, idx: nat, seqno: nat, ts: nat)
    requires idx < |o.packets|
    ensures AudioFrames([AudioPayload(o, idx, seqno, ts)]) == [AudioPayload(o, idx, seqno, ts)]
  {
    hide Be;
    var g := AudioPayload(o, idx, seqno, ts);
    assert [g][..0] == [] && g[0] == 0x80;
  }

  lemma OneStat(t: Tick)
    ensures AudioFrames([StatPayload(t)]) == []
  {
    assert [StatPayload(t)][..0] == [] && StatPayload(t)[0] == 0x53;
  }

  lemma FrameAllSnoc(ps: seq<payload>, p: payload)
    ensures FrameAll(ps + [p]) == FrameAll(ps) + Frame(p)
  {
    FrameAllConcat(ps, [p]);
    assert FrameAll([p]) == Frame(p) + FrameAll([p][1..]);
  }

  lemma NoFrames()
    ensures FrameEach([]) == [] && AudioFrames([]) == [] && FrameAll([]) == [] && Flatten<byte>([]) == []
  {}

  lemma FrameEachSnoc(ps: seq<payload>, p: payload)
    ensures FrameEach(ps + [p]) == FrameEach(ps) + [Frame(p)]
  {
    hide Frame;
  }

  lemma HoldMatches(tr: Trace, writes: seq<bytes>, held: seq<bytes>, audioBytes: int, g: payload)
    requires Matches(tr, writes, held, audioBytes) && AudioFrames([g]) == [g]
    ensures Matches(Trace(tr.sent, tr.held + [g]), writes, held + [Frame(g)], audioBytes)
  {
    hide FrameAll, Frame, Flatten, FrameEach, AudioFrames;
    AudioFramesConcat(tr.held, [g]);
    FrameEachSnoc(tr.held, g);
  }

  lemma BurstMatches(tr: Trace, writes: seq<bytes>, held: seq<bytes>, audioBytes: int, g: payload)
    requires Matches(tr, writes, held, audioBytes) && AudioFrames([g]) == [g]
    ensures var burst := Flatten(held) + Frame(g);
            Matches(Trace(tr.sent + tr.held + [g], []), writes + [burst], [], audioBytes + |burst|)
  {
    hide FrameAll, Frame, Flatten, FrameEach, AudioFrames;
    var out := tr.held + [g];
    NoFrames();
    AudioFramesConcat(tr.held, [g]);
    AudioFramesConcat(tr.sent, out);
    Assoc(tr.sent, tr.held, [g]);
    FlattenFrames(tr.held);
    FrameAllSnoc(tr.held, g);
    FrameAllConcat(tr.sent, out);
    FrameAllConcat(AudioFrames(tr.sent), out);
    FlattenSnoc(writes, Flatten(held) + Frame(g));
  }

  lemma StatMatches(tr: Trace, writes: seq<bytes>, held: seq<bytes>, audioBytes: int, t: Tick)
    requires Matches(tr, writes, held, audioBytes)
    ensures Matches(Trace(tr.sent + [StatPayload(t)], tr.held), writes + [Frame(StatPayload(t))], held, audioBytes)
  {
    hide FrameAll, Frame, Flatten, FrameEach, AudioFrames, StatPayload;
    OneStat(t);
    AudioFramesConcat(tr.sent, [StatPayload(t)]);
    FrameAllSnoc(tr.sent, StatPayload(t));
    FlattenSnoc(writes, Frame(StatPayload(t)));
    assert AudioFrames(tr.sent) + [] == AudioFrames(tr.sent);
  }

  ghost predicate MatchesAt(tr: Trace, p: Session, base: int) {
    Matches(tr, p.writes, p.held, p.sentBytes - base)
  }

  lemma StoredMatches(o: Options, base: int, p: Session, tr: Trace, t: Tick, g: payload)
    requires MatchesAt(tr, p, base) && AudioFrames([g]) == [g]
    ensures MatchesAt(TraceStored(o, tr, p, t, g), Stored(o, p, t, Frame(g)), base)
  {
    hide Matches, Frame, FrameAll, Flatten, AudioFrames, FrameEach, IsLost;
    HoldMatches(tr, p.writes, p.held, p.sentBytes - base, g);
    BurstMatches(tr, p.writes, p.held, p.sentBytes - base, g);
    var burst := Flatten(p.held) + Frame(g);
    assert p.sentBytes - base + |burst| == p.sentBytes + |burst| - base;
  }

  lemma ReportedMatches(o: Options, base: int, p: Session, tr: Trace, t: Tick)
    requires MatchesAt(tr, p, base)
    ensures MatchesAt(TraceReported(tr, p, t), Reported(o, p, t), base)
  {
    hide Matches, Frame, StatPayload;
    StatMatches(tr, p.writes, p.held, p.sentBytes - base, t);
  }

  lemma AdvancedMatches(o: Options, base: int, p: Session, tr: Trace, t: Tick)
    requires MatchesAt(tr, p, base)
    ensures MatchesAt(tr, Advanced(o, p, t), base)
    ensures MatchesAt(tr, Advanced(o, p, t).(idx := p.idx, ended := true), base)
  {
    hide Matches;
  }

  lemma IterateMatches(o: Options, base: int, p: Session, tr: Trace, t: Tick)
    requires p.idx < |o.packets| && MatchesAt(tr, p, base)
    ensures MatchesAt(TraceNext(o, tr, p, t), Iterate(o, p, t), base)
  {
    hide MatchesAt, Advanced, Stored, Reported, TraceStored, TraceReported, AudioPayload, AudioFrames, Frame;
    var g := AudioPayload(o, p.idx, p.seqno, p.ts);
    OneAudio(o, p.idx, p.seqno, p.ts);
    AdvancedMatches(o, base, p, tr, t);
    if !ClipEnds(o, p) {
      StoredMatches(o, base, Advanced(o, p, t), tr, t, g);
      ReportedMatches(o, base, Stored(o, Advanced(o, p, t), t, Frame(g)), TraceStored(o, tr, Advanced(o, p, t), t, g), t);
    }
  }

  function TraceOf(o: Options, s: Session, ticks: seq<Tick>): Trace
    requires s.idx < |o.packets|
  {
    if ticks == [] then Trace([], []) else
      var init := ticks[..|ticks| - 1];
      var p := Play(o, s, init);
      if p.ended then TraceOf(o, s, init)
      else TraceNext(o, TraceOf(o, s, init), p, ticks[|ticks| - 1])
  }

  /** A session about to start its loop. */
  predicate Fresh(s: Session) {
    s.idx == 0 && s.held == [] && s.writes == [] && !s.ended && s.seqno < 0x1_0000 && s.ts < 0x1_0000_0000
  }

  lemma TraceStarts(o: Options, s: Session)
    requires Fresh(s)
    ensures MatchesAt(TraceOf(o, s, []), Play(o, s, []), s.sentBytes)
  {
    NoFrames();
  }

  lemma TraceStep(o: Options, s: Session, ticks: seq<Tick>)
    requires s.idx < |o.packets| && ticks != []
    ensures var init := ticks[..|ticks| - 1];
            var p := Play(o, s, init);
            && Play(o, s, ticks) == (if p.ended then p else Iterate(o, p, ticks[|ticks| - 1]))
            && TraceOf(o, s, ticks)
               == if p.ended then TraceOf(o, s, init)
                  else TraceNext(o, TraceOf(o, s, init), p, ticks[|ticks| - 1])
  {
    hide Iterate, TraceNext;
  }

  lemma {:induction false} TraceMatches(o: Options, s: Session, ticks: seq<Tick>)
    requires Fresh(s)
    ensures MatchesAt(TraceOf(o, s, ticks), Play(o, s, ticks), s.sentBytes)
  {
    if ticks == [] {
      TraceStarts(o, s);
    } else {
      hide Play, TraceOf, TraceNext, Iterate, MatchesAt;
      var init := ticks[..|ticks| - 1];
      TraceStep(o, s, ticks);
      TraceMatches(o, s, init);
      var p := Play(o, s, init);
      if !p.ended {
        IterateMatches(o, s.sentBytes, p, TraceOf(o, s, init), ticks[|ticks| - 1]);
      }
    }
  }

  lemma PayloadsSnoc(o: Options, seqno: nat, ts: nat, ks: seq<nat>, k: nat)
    ensures Payloads(o, seqno, ts, ks + [k]) == Payloads(o, seqno, ts, ks) + [Generated(o, seqno, ts, k)]
  {
    hide Generated;
  }

  lemma StoredKeeps(o: Options, tr: Trace, p: Session, t: Tick, g: payload)
    requires AudioFrames([g]) == [g]
    ensures var next := TraceStored(o, tr, p, t, g);
            AudioFrames(next.sent) + AudioFrames(next.held)
            == AudioFrames(tr.sent) + AudioFrames(tr.held) + if IsLost(o, t) then [] else [g]
  {
    NoFrames();
    hide IsLost, AudioFrames;
    AudioFramesConcat(tr.held, [g]);
    AudioFramesConcat(tr.sent, tr.held + [g]);
    Assoc(tr.sent, tr.held, [g]);
    Assoc(AudioFrames(tr.sent), AudioFrames(tr.held), [g]);
  }

  lemma ReportedKeeps(tr: Trace, p: Session, t: Tick)
    ensures AudioFrames(TraceReported(tr, p, t).sent) == AudioFrames(tr.sent)
    ensures TraceReported(tr, p, t).held == tr.held
  {
    hide StatPayload, AudioFrames;
    AudioFramesConcat(tr.sent, [StatPayload(t)]);
    OneStat(t);
    assert AudioFrames(tr.sent) + [] == AudioFrames(tr.sent);
  }

  lemma TraceKeepsOne(o: Options, tr: Trace, p: Session, t: Tick)
    requires p.idx < |o.packets| && !ClipEnds(o, p)
    ensures var next := TraceNext(o, tr, p, t);
            AudioFrames(next.sent) + AudioFrames(next.held)
            == AudioFrames(tr.sent) + AudioFrames(tr.held)
               + if IsLost(o, t) then [] else [AudioPayload(o, p.idx, p.seqno, p.ts)]
  {
    hide AudioFrames, AudioPayload, Advanced, Stored, TraceStored, TraceReported, IsLost, Frame;
    var g, p1 := AudioPayload(o, p.idx, p.seqno, p.ts), Advanced(o, p, t);
    OneAudio(o, p.idx, p.seqno, p.ts);
    StoredKeeps(o, tr, p1, t, g);
    ReportedKeeps(TraceStored(o, tr, p1, t, g), Stored(o, p1, t, Frame(g)), t);
  }

  lemma {:induction false} TraceKeeps(o: Options, s: Session, ticks: seq<Tick>)
    requires Fresh(s)
    requires !Play(o, s, ticks).ended
    ensures var tr := TraceOf(o, s, ticks);
            AudioFrames(tr.sent) + AudioFrames(tr.held) == Payloads(o, s.seqno, s.ts, KeptTicks(o, ticks))
  {
    if ticks == [] {
      assert AudioFrames([]) == [];
    } else {
      hide Play, TraceOf, TraceNext, Iterate, AudioPayload, Generated, Payloads, AudioFrames, ClipEnds;
      var k := |ticks| - 1;
      TraceStep(o, s, ticks);
      var p := Play(o, s, ticks[..k]);
      var g := AudioPayload(o, p.idx, p.seqno, p.ts);
      NextGenerated(o, s, ticks[..k]);
      IterateEndedIff(o, p, ticks[k]);
      TraceKeeps(o, s, ticks[..k]);
      TraceKeepsOne(o, TraceOf(o, s, ticks[..k]), p, ticks[k]);
      PayloadsSnoc(o, s.seqno, s.ts, KeptTicks(o, ticks[..k]), k);
    }
  }

  lemma RunningConserves(o: Options, s: Session, ticks: seq<Tick>)
    requires Fresh(s) && !Play(o, s, ticks).ended
    ensures var p := Play(o, s, ticks);
            var wire, backlog := Parse(Flatten(p.writes)), Parse(Flatten(p.held));
            && wire.1 == [] && backlog.1 == []
            && AudioFrames(wire.0) + backlog.0 == Payloads(o, s.seqno, s.ts, KeptTicks(o, ticks))
            && p.sentBytes == s.sentBytes + |FrameAll(AudioFrames(wire.0))|
  {
    hide Play, TraceOf, Payloads, KeptTicks, AudioFrames, Parse, Flatten, FrameAll, FrameEach;
    var tr := TraceOf(o, s, ticks);
    TraceMatches(o, s, ticks);
    TraceKeeps(o, s, ticks);
    FlattenFrames(tr.held);
    ParseFramed(tr.sent, []);
    ParseFramed(tr.held, []);
    assert FrameAll(tr.sent) + [] == FrameAll(tr.sent) && FrameAll(tr.held) + [] == FrameAll(tr.held);
  }

  /** Whatever the wire and the backlog hold was put there by the iterations that reach the store step. */
  lemma SameAsStoring(o: Options, s: Session, ticks: seq<Tick>)
    requires Fresh(s)
    ensures var p, q := Play(o, s, ticks), Play(o, s, Storing(o, s, ticks));
            !q.ended && p.writes == q.writes && p.held == q.held && p.sentBytes == q.sentBytes
  {
    hide Play, Iterate;
    PlayStops(o, s, ticks);
    var storing := Storing(o, s, ticks);
    if RunsOut(o, s, ticks) {
      ClipEndKeepsIndex(o, Play(o, s, storing), ticks[|storing|]);
    }
  }

  /**
    * At the head of every iteration of a session and at its end: the bytes written are whole frames,
    * the audio frames among them followed by the backlog are exactly the frames of the iterations
    * that reached the store step and were not dropped, in generation order, and `sentBytes` has
    * grown by exactly the audio bytes written.
    */
  lemma StoreAndForward(o: Options, s: Session, ticks: seq<Tick>)
    requires Fresh(s)
    ensures var p := Play(o, s, ticks);
            var wire, backlog := Parse(Flatten(p.writes)), Parse(Flatten(p.held));
            && wire.1 == [] && backlog.1 == []
            && AudioFrames(wire.0) + backlog.0 == Payloads(o, s.seqno, s.ts, KeptTicks(o, Storing(o, s, ticks)))
            && p.sentBytes == s.sentBytes + |FrameAll(AudioFrames(wire.0))|
  {
    hide Play, Payloads, KeptTicks, AudioFrames, Parse, Flatten, FrameAll, Storing;
    SameAsStoring(o, s, ticks);
    RunningConserves(o, s, Storing(o, s, ticks));
  }

  /**
    * Every generated frame that is not dropped is sent or held, if and only if the clip loops, is
    * not over yet, or its last frame is one of the dropped.
    */
  lemma NothingForgottenIff(o: Options, s: Session, ticks: seq<Tick>)
    requires Fresh(s)
    ensures var p := Play(o, s, ticks);
            AudioFrames(Parse(Flatten(p.writes)).0) + Parse(Flatten(p.held)).0
            == Payloads(o, s.seqno, s.ts, KeptTicks(o, Taken(o, s, ticks)))
            <==> o.loop || |ticks| < |o.packets| || IsLost(o, ticks[|o.packets| - 1])
  {
    hide Play, AudioFrames, Parse, Flatten, FrameAll, Generated, IsLost;
    StoreAndForward(o, s, ticks);
    var storing, taken := Storing(o, s, ticks), Taken(o, s, ticks);
    if RunsOut(o, s, ticks) {
      assert taken[..|storing|] == storing && taken[|storing|] == ticks[|o.packets| - 1];
      var kept := KeptTicks(o, storing);
      assert KeptTicks(o, taken) == kept + if IsLost(o, taken[|storing|]) then [] else [|storing|];
      assert |Payloads(o, s.seqno, s.ts, kept)| == |kept|;
      assert |Payloads(o, s.seqno, s.ts, KeptTicks(o, taken))| == |KeptTicks(o, taken)|;
      assert kept + [] == kept;
    }
  }

  /**
    * A session ends by itself exactly when a clip that does not loop has been played. Its last frame
    * takes a number but is neither sent, held nor counted as dropped, whatever ticks follow.
    */
  lemma LastFrameOfClipIsNotSent(o: Options, s: Session, ticks: seq<Tick>)
    requires Fresh(s)
    ensures Play(o, s, ticks).ended <==> !o.loop && |ticks| >= |o.packets|
    ensures !o.loop && |ticks| >= |o.packets| ==>
              var p, before := Play(o, s, ticks), Play(o, s, ticks[..|o.packets| - 1]);
              && p.writes == before.writes && p.held == before.held
              && p.sentBytes == before.sentBytes && p.dropped == before.dropped
              && p.seqno == (s.seqno + |o.packets|) % 0x1_0000
  {
    hide Play, Iterate;
    EndsIffClipRunsOut(o, s, ticks);
    CountersAdvance(o, s, ticks);
    PlayStops(o, s, ticks);
    if RunsOut(o, s, ticks) {
      ClipEndKeepsIndex(o, Play(o, s, Storing(o, s, ticks)), ticks[|o.packets| - 1]);
    }
  }

  // ---------------------------------------------------------------------
  // A stall
  // ---------------------------------------------------------------------

  /** A stall begins at the first tick and lasts beyond the last. */
  predicate WithinStall(o: Options, s: Session, ticks: seq<Tick>) {
    && o.stallEvery != 0.0
    && (ticks != [] ==> ticks[0].now >= s.nextStall)
    && (forall i | 0 <= i < |ticks| :: ticks[0].now <= ticks[i].now < ticks[0].now + o.stall)
  }

  lemma IterateInStall(o: Options, s: Session, t: Tick)
    requires s.idx < |o.packets| && t.now < Stalled(o, s, t).stallUntil
    ensures var q := Iterate(o, s, t);
            && q.writes == s.writes && q.stallUntil == Stalled(o, s, t).stallUntil
            && |q.held| == |s.held| + if ClipEnds(o, s) || IsLost(o, t) then 0 else 1
  {
    hide AudioPayload, StatPayload, Frame, Flatten;
  }

  lemma StalledExtends(o: Options, s: Session, t: Tick, first: Tick)
    requires o.stallEvery != 0.0 && first.now <= t.now
    requires (t == first && t.now >= s.nextStall) || s.stallUntil >= first.now + o.stall
    ensures Stalled(o, s, t).stallUntil >= first.now + o.stall
  {}

  lemma PlayNothingYet(o: Options, s: Session)
    requires s.idx < |o.packets|
    ensures Play(o, s, []) == s
  {}

  /**
    * During a stall nothing is written, telemetry included, and every frame not dropped is kept,
    * one per tick up to the last of a clip that ends.
    */
  lemma {:induction false} StallBuffers(o: Options, s: Session, ticks: seq<Tick>)
    requires s.idx < |o.packets| && !s.ended && WithinStall(o, s, ticks)
    ensures var p := Play(o, s, ticks);
            && p.writes == s.writes && |p.held| == |s.held| + |KeptTicks(o, Storing(o, s, ticks))|
            && (ticks != [] ==> p.stallUntil >= ticks[0].now + o.stall)
  {
    PlayNothingYet(o, s);
    if ticks != [] {
      var init, t := ticks[..|ticks| - 1], ticks[|ticks| - 1];
      TraceStep(o, s, ticks);
      hide Play, Iterate, IsLost, Stalled;
      StallBuffers(o, s, init);
      EndsIffClipRunsOut(o, s, init);
      EndsIffClipRunsOut(o, s, ticks);
      var p := Play(o, s, init);
      if p.ended {
        assert Storing(o, s, ticks) == Storing(o, s, init);
      } else {
        StalledExtends(o, p, t, ticks[0]);
        IterateInStall(o, p, t);
        IterateEndedIff(o, p, t);
        assert RunsOut(o, s, ticks) ==> Storing(o, s, ticks) == init;
      }
    }
  }

  /** From the tick that begins it, a stall lasts `stall` and the next one cannot begin before `stallEvery`. */
  lemma {:induction false} StallTimers(o: Options, s: Session, ticks: seq<Tick>)
    requires s.idx < |o.packets| && !s.ended && WithinStall(o, s, ticks) && ticks != []
    requires forall t <- ticks :: t.now < ticks[0].now + o.stallEvery
    ensures var p := Play(o, s, ticks);
            p.stallUntil == ticks[0].now + o.stall && p.nextStall == ticks[0].now + o.stallEvery
  {
    var init, t := ticks[..|ticks| - 1], ticks[|ticks| - 1];
    TraceStep(o, s, ticks);
    PlayNothingYet(o, s);
    hide Play;
    var p := Play(o, s, init);
    if !p.ended {
      IterateTimers(o, p, t);
    }
    if init != [] {
      assert forall k <- init :: k in ticks;
      StallTimers(o, s, init);
      assert t in ticks;
    }
    hide Iterate;
  }

  lemma IterateTimers(o: Options, s: Session, t: Tick)
    requires s.idx < |o.packets|
    ensures var q, timed := Iterate(o, s, t), Stalled(o, s, t);
            q.stallUntil == timed.stallUntil && q.nextStall == timed.nextStall
  {
    hide AudioPayload, StatPayload, Frame, Flatten;
  }

  /**
    * At the first frame after a stall that is not dropped, the whole backlog goes out in one write
    * with the frame behind it, and nothing is held any more.
    */
  lemma BurstEndsStall(o: Options, s: Session, ticks: seq<Tick>, t: Tick)
    requires s.idx < |o.packets| && !s.ended && WithinStall(o, s, ticks) && ticks != []
    requires forall k <- ticks :: k.now < ticks[0].now + o.stallEvery
    requires ticks[0].now + o.stall <= t.now < ticks[0].now + o.stallEvery
    requires !(o.loss != 0.0 && t.roll < o.loss) && !Play(o, s, ticks + [t]).ended
    ensures var before, p := Play(o, s, ticks), Play(o, s, ticks + [t]);
            && p.held == [] && p.sentFrames == before.sentFrames + 1
            && |p.writes| > |s.writes| && p.writes[..|s.writes|] == s.writes
            && p.writes[|s.writes|] == Flatten(before.held) + Frame(AudioPayload(o, before.idx, before.seqno, before.ts))
  {
    var all := ticks + [t];
    assert all[..|ticks|] == ticks && all[|ticks|] == t;
    PlayOneMore(o, s, all, |ticks|);
    assert all[..|ticks| + 1] == all;
    StallTimers(o, s, ticks);
    StallBuffers(o, s, ticks);
    hide Play, Frame, Flatten, AudioPayload, StatPayload;
    var before := Play(o, s, ticks);
    IterateEndedIff(o, before, t);
  }

  lemma SendsOne(o: Options, p: Session, t: Tick)
    requires p.idx < |o.packets| && p.held == []
    requires t.now >= p.stallUntil && (o.stallEvery == 0.0 || t.now < p.nextStall)
    ensures var q := Iterate(o, p, t);
            && q.held == [] && q.stallUntil == p.stallUntil && q.nextStall == p.nextStall
            && q.sentFrames == p.sentFrames + if ClipEnds(o, p) || IsLost(o, t) then 0 else 1
  {
    hide Frame, Flatten, AudioPayload, StatPayload, IsLost;
  }

  /** While no stall is due, nothing is ever held and each frame not dropped goes out at once in a write of its own. */
  lemma {:induction false} SendsWithoutStall(o: Options, s: Session, ticks: seq<Tick>)
    requires s.idx < |o.packets| && !s.ended && s.held == []
    requires forall t <- ticks :: t.now >= s.stallUntil && (o.stallEvery == 0.0 || t.now < s.nextStall)
    ensures var p := Play(o, s, ticks);
            && p.held == [] && p.stallUntil == s.stallUntil && p.nextStall == s.nextStall
            && p.sentFrames == s.sentFrames + |KeptTicks(o, Storing(o, s, ticks))|
  {
    PlayNothingYet(o, s);
    if ticks != [] {
      var init, t := ticks[..|ticks| - 1], ticks[|ticks| - 1];
      TraceStep(o, s, ticks);
      assert ticks == init + [t] && t in ticks && forall k <- init :: k in ticks;
      hide Play, Iterate, IsLost;
      SendsWithoutStall(o, s, init);
      EndsIffClipRunsOut(o, s, init);
      EndsIffClipRunsOut(o, s, ticks);
      var p := Play(o, s, init);
      if p.ended {
        assert Storing(o, s, ticks) == Storing(o, s, init);
      } else {
        SendsOne(o, p, t);
        IterateEndedIff(o, p, t);
        assert RunsOut(o, s, ticks) ==> Storing(o, s, ticks) == init;
      }
    }
  }

  /** A session sends at once until `stallEvery` after its start, and for good when there are no stalls. */
  lemma SendsUntilFirstStall(o: Options, seqno: nat, ts: nat, start: real, ticks: seq<Tick>)
    requires forall t <- ticks :: t.now >= 0.0 && (o.stallEvery == 0.0 || t.now < start + o.stallEvery)
    ensures Play(o, Begin(o, seqno, ts, 0, 0, 0, start), ticks).held == []
  {
    SendsWithoutStall(o, Begin(o, seqno, ts, 0, 0, 0, start), ticks);
  }

  // ---------------------------------------------------------------------
  // Telemetry and counters
  // ---------------------------------------------------------------------

  /**
    * One iteration that does not end the clip: a frame goes out unless it is dropped or there is a
    * stall; telemetry goes out behind it when it is due and there is no stall, and is due again
    * `statInterval` later in either case.
    */
  lemma OneIteration(o: Options, p: Session, t: Tick)
    requires p.idx < |o.packets| && (o.loop || p.idx + 1 < |o.packets|)
    ensures var q := Iterate(o, p, t);
            var lost, stalled, due := o.loss != 0.0 && t.roll < o.loss, t.now < q.stallUntil, t.now >= p.nextStat;
            && q.dropped == p.dropped + (if lost then 1 else 0)
            && q.sentFrames == p.sentFrames + (if lost || stalled then 0 else 1)
            && |q.writes| == |p.writes| + (if lost || stalled then 0 else 1) + (if due && !stalled then 1 else 0)
            && (due && !stalled ==> q.writes[|q.writes| - 1] == Frame(Ascii("STAT:") + t.doc))
            && q.nextStat == (if due then t.now + o.statInterval else p.nextStat)
  {
    WireNames();
    hide AudioPayload, Frame, Flatten;
  }

  lemma ClipEndWritesNothing(o: Options, p: Session, t: Tick)
    requires p.idx < |o.packets| && ClipEnds(o, p)
    ensures var q := Iterate(o, p, t);
            q.writes == p.writes && q.sentFrames == p.sentFrames && q.dropped == p.dropped && q.nextStat == p.nextStat
  {}

  /** Before telemetry is due, every write is one of audio. */
  lemma {:induction false} NoStatUntilDue(o: Options, s: Session, ticks: seq<Tick>)
    requires s.idx < |o.packets| && !s.ended && forall t <- ticks :: t.now < s.nextStat
    ensures var p := Play(o, s, ticks);
            p.nextStat == s.nextStat && |p.writes| - |s.writes| == p.sentFrames - s.sentFrames
  {
    PlayNothingYet(o, s);
    if ticks != [] {
      var init, t := ticks[..|ticks| - 1], ticks[|ticks| - 1];
      TraceStep(o, s, ticks);
      assert t in ticks && forall k <- init :: k in ticks;
      hide Play, Iterate;
      NoStatUntilDue(o, s, init);
      var p := Play(o, s, init);
      if !p.ended {
        if ClipEnds(o, p) {
          ClipEndWritesNothing(o, p, t);
        } else {
          OneIteration(o, p, t);
        }
      }
    }
  }

  /** The first telemetry of a session is due `statInterval` after its start. */
  lemma NoStatInFirstInterval(o: Options, seqno: nat, ts: nat, start: real, ticks: seq<Tick>)
    requires forall t <- ticks :: t.now < start + o.statInterval
    ensures var p := Play(o, Begin(o, seqno, ts, 0, 0, 0, start), ticks);
            p.nextStat == start + o.statInterval && |p.writes| == p.sentFrames
  {
    NoStatUntilDue(o, Begin(o, seqno, ts, 0, 0, 0, start), ticks);
  }

  /** `dropped` counts exactly the frames lost among those that reached the store step. */
  lemma {:induction false} DroppedCounts(o: Options, s: Session, ticks: seq<Tick>)
    requires s.idx < |o.packets| && !s.ended
    ensures var storing := Storing(o, s, ticks);
            Play(o, s, ticks).dropped == s.dropped + |storing| - |KeptTicks(o, storing)|
  {
    PlayNothingYet(o, s);
    if ticks != [] {
      var init, t := ticks[..|ticks| - 1], ticks[|ticks| - 1];
      TraceStep(o, s, ticks);
      assert ticks == init + [t];
      hide Play, Iterate;
      DroppedCounts(o, s, init);
      EndsIffClipRunsOut(o, s, init);
      EndsIffClipRunsOut(o, s, ticks);
      var p := Play(o, s, init);
      if p.ended {
        assert Storing(o, s, ticks) == Storing(o, s, init);
      } else {
        IterateEndedIff(o, p, t);
        if ClipEnds(o, p) {
          ClipEndWritesNothing(o, p, t);
          assert Storing(o, s, ticks) == init;
        } else {
          OneIteration(o, p, t);
        }
      }
    }
  }

  /** The kept frames are those whose random draw does not fall below the loss rate, in order. */
  lemma {:induction false} KeptExactly(o: Options, ticks: seq<Tick>)
    ensures var kept := KeptTicks(o, ticks);
            && (forall k: nat :: k in kept <==> k < |ticks| && !(o.loss != 0.0 && ticks[k].roll < o.loss))
            && (forall i, j | 0 <= i < j < |kept| :: kept[i] < kept[j])
  {
    if ticks != [] {
      var n := |ticks| - 1;
      var before, kept := KeptTicks(o, ticks[..n]), KeptTicks(o, ticks);
      KeptExactly(o, ticks[..n]);
      assert kept == before + if IsLost(o, ticks[n]) then [] else [n];
      forall k: nat ensures k in kept <==> k < |ticks| && !(o.loss != 0.0 && ticks[k].roll < o.loss) {
        assert k in kept <==> k in before || (k == n && !IsLost(o, ticks[n]));
        assert k < n ==> ticks[..n][k] == ticks[k];
      }
      forall i, j | 0 <= i < j < |kept| ensures kept[i] < kept[j] {
        assert kept[i] == before[i] && before[i] in before;
        assert j < |before| ==> kept[j] == before[j];
      }
    }
  }

  /** The k-th generated frame carries the k-th packet of the repeated clip, with number, clock and source in their widths. */
  lemma GeneratedFields(o: Options, seqno: nat, ts: nat, k: nat)
    requires o.packets[k % |o.packets|] != []
    ensures ParseAudio(Generated(o, seqno, ts, k))
            == Some(Rtp((seqno + k) % 0x1_0000, (ts + 960 * k) % 0x1_0000_0000, o.ssrc % 0x1_0000_0000,
                        o.packets[k % |o.packets|]))
  {
    AudioRoundTrip(o.packets[k % |o.packets|], seqno + k, ts + FRAME_SAMPLES * k, o.ssrc);
    hide BuildAudio, ParseAudio;
  }
}
