/** The simulated device (sim/sim_device.py): frame generation and the store-and-forward loop. */
module SimDevice {
  import opened Bytes
  import opened Protocol

  /** The largest Opus packet that fits a frame behind its RTP header. */
  const MAX_OPUS := MAX_FRAME - RTP_HEADER_LEN

  type opus = b: bytes | |b| <= MAX_OPUS witness []

  datatype AnyOptions = Options(packets: seq<opus>, loop: bool, loss: real, stall: real, stallEvery: real,
                                statInterval: real, ssrc: nat)

  /** The encoder delivers at least one packet. */
  type Options = o: AnyOptions | o.packets != [] witness Options([[]], false, 0.0, 0.0, 0.0, 0.0, 0)

  datatype AnyTick = Tick(now: real, roll: real, doc: bytes)

  /** One iteration's inputs: the clock, the random draw, and the telemetry text should it be due. */
  type Tick = t: AnyTick | |t.doc| <= MAX_FRAME - 5 witness Tick(0.0, 0.0, [])

  /** The device fields and the locals of `_session`. `ended` where the clip ran out without looping. */
  datatype Session = Session(seqno: nat, ts: nat, sentFrames: nat, sentBytes: nat, dropped: nat,
                             idx: nat, held: seq<bytes>, writes: seq<bytes>,
                             nextStat: real, stallUntil: real, nextStall: real, ended: bool)

  predicate IsLost(o: Options, t: Tick) {
    o.loss != 0.0 && t.roll < o.loss
  }

  function AudioPayload(o: Options, idx: nat, seqno: nat, ts: nat): payload
    requires idx < |o.packets|
  {
    BuildAudio(o.packets[idx], seqno, ts, o.ssrc)
  }

  function StatPayload(t: Tick): payload
  {
    BuildStat(t.doc)
  }

  function Begin(o: Options, seqno: nat, ts: nat, sentFrames: nat, sentBytes: nat, dropped: nat, now: real): Session {
    Session(seqno, ts, sentFrames, sentBytes, dropped, 0, [], [],
            now + o.statInterval, 0.0, now + o.stallEvery, false)
  }

  /** The stall timers at the head of an iteration. */
  function Stalled(o: Options, s: Session, t: Tick): Session {
    if o.stallEvery != 0.0 && t.now >= s.nextStall
    then s.(stallUntil := t.now + o.stall, nextStall := t.now + o.stallEvery) else s
  }

  /** Drop the frame, keep it for later, or write the backlog and the frame in one burst. */
  function Stored(o: Options, s: Session, t: Tick, wire: bytes): Session {
    var burst := Flatten(s.held) + wire;
    if IsLost(o, t) then s.(dropped := s.dropped + 1)
    else if t.now < s.stallUntil then s.(held := s.held + [wire])
    else s.(held := [], writes := s.writes + [burst], sentFrames := s.sentFrames + 1, sentBytes := s.sentBytes + |burst|)
  }

  predicate ReportsNow(s: Session, t: Tick) {
    t.now >= s.nextStat && t.now >= s.stallUntil
  }

  function Reported(o: Options, s: Session, t: Tick): Session {
    var s1 := if t.now >= s.nextStat then s.(nextStat := t.now + o.statInterval) else s;
    if ReportsNow(s, t) then s1.(writes := s.writes + [Frame(StatPayload(t))]) else s1
  }

  /** The clip is over and does not start again. */
  predicate ClipEnds(o: Options, s: Session) {
    s.idx + 1 >= |o.packets| && !o.loop
  }

  /** The frame is taken: counters and index move on. */
  function Advanced(o: Options, s: Session, t: Tick): Session {
    Stalled(o, s, t).(seqno := (s.seqno + 1) % 0x1_0000, ts := (s.ts + FRAME_SAMPLES) % 0x1_0000_0000,
                      idx := if s.idx + 1 >= |o.packets| then 0 else s.idx + 1)
  }

  /** One iteration of the loop after its sleep. */
  function Iterate(o: Options, s: Session, t: Tick): Session
    requires s.idx < |o.packets|
    ensures Iterate(o, s, t).idx < |o.packets|
  {
    if ClipEnds(o, s) then Advanced(o, s, t).(idx := s.idx, ended := true)
    else Reported(o, Stored(o, Advanced(o, s, t), t, Frame(AudioPayload(o, s.idx, s.seqno, s.ts))), t)
  }

  /** Iterations until the ticks run out (the device was stopped) or the loop breaks. */
  function Play(o: Options, s: Session, ticks: seq<Tick>): Session
    requires s.idx < |o.packets|
    ensures Play(o, s, ticks).idx < |o.packets|
  {
    if ticks == [] then s else
      var before := Play(o, s, ticks[..|ticks| - 1]);
      if before.ended then before else Iterate(o, before, ticks[|ticks| - 1])
  }

  class SimDevice {
    const o: Options
    var seqno: nat
    var ts: nat
    var sentFrames: nat
    var sentBytes: nat
    var dropped: nat

    constructor (o: Options)
      ensures this.o == o && seqno == ts == sentFrames == sentBytes == dropped == 0
    {
      this.o := o;
      seqno, ts, sentFrames, sentBytes, dropped := 0, 0, 0, 0, 0;
    }

    method NextAudioFrame(idx: nat) returns (wire: bytes)
      requires idx < |o.packets|
      modifies this`seqno, this`ts
      ensures wire == Frame(AudioPayload(o, idx, old(seqno), old(ts)))
      ensures seqno == (old(seqno) + 1) % 0x1_0000 && ts == (old(ts) + FRAME_SAMPLES) % 0x1_0000_0000
    {
      wire := Frame(AudioPayload(o, idx, seqno, ts));
      seqno := (seqno + 1) % 0x1_0000;
      ts := (ts + FRAME_SAMPLES) % 0x1_0000_0000;
    }

    /** `_session` after the handshake and HELLO, until the ticks run out or the clip ends. */
    method RunSession(start: real, ticks: seq<Tick>) returns (writes: seq<bytes>, held: seq<bytes>, ended: bool)
      modifies this
      ensures var s := Play(o, Begin(o, old(seqno), old(ts), old(sentFrames), old(sentBytes), old(dropped), start), ticks);
              && seqno == s.seqno && ts == s.ts && sentFrames == s.sentFrames && sentBytes == s.sentBytes
              && dropped == s.dropped && writes == s.writes && held == s.held && ended == s.ended
    {
      hide Play, Flatten, BuildAudio, BuildStat, Frame, AudioPayload, StatPayload, IsLost;
      ghost var begin := Begin(o, seqno, ts, sentFrames, sentBytes, dropped, start);
      var idx := 0;
      var nextStat, stallUntil, nextStall := start + o.statInterval, 0.0, start + o.stallEvery;
      writes, held, ended := [], [], false;
      PlayNothing(o, begin, ticks);
      for k := 0 to |ticks|
        invariant idx < |o.packets| && !ended
        invariant Session(seqno, ts, sentFrames, sentBytes, dropped, idx, held, writes, nextStat, stallUntil, nextStall, ended)
                  == Play(o, begin, ticks[..k])
      {
        var t := ticks[k];
        PlayOneMore(o, begin, ticks, k);
        if o.stallEvery != 0.0 && t.now >= nextStall {
          stallUntil := t.now + o.stall;
          nextStall := t.now + o.stallEvery;
        }
        var wire := NextAudioFrame(idx);
        if idx + 1 >= |o.packets| {
          if !o.loop {
            ended := true;
            EndedStays(o, begin, ticks, k + 1);
            return;
          }
          idx := 0;
        } else {
          idx := idx + 1;
        }
        if IsLost(o, t) {
          dropped := dropped + 1;
        } else if t.now < stallUntil {
          held := held + [wire];
        } else {
          wire := Flatten(held) + wire;
          held := [];
          writes := writes + [wire];
          sentFrames := sentFrames + 1;
          sentBytes := sentBytes + |wire|;
        }
        if t.now >= nextStat {
          nextStat := t.now + o.statInterval;
          if t.now >= stallUntil {
            writes := writes + [Frame(StatPayload(t))];
          }
        }
      }
      assert ticks[..|ticks|] == ticks;
    }
  }

  lemma PlayNothing(o: Options, s: Session, ticks: seq<Tick>)
    requires s.idx < |o.packets|
    ensures Play(o, s, ticks[..0]) == s
  {}

  lemma PlayOneMore(o: Options, s: Session, ticks: seq<Tick>, k: nat)
    requires s.idx < |o.packets| && k < |ticks|
    ensures var before := Play(o, s, ticks[..k]);
            Play(o, s, ticks[..k + 1]) == if before.ended then before else Iterate(o, before, ticks[k])
  {
    assert ticks[..k + 1][..k] == ticks[..k];
    hide Iterate;
  }

  lemma {:induction false} EndedStays(o: Options, s: Session, ticks: seq<Tick>, k: nat)
    requires s.idx < |o.packets|
    requires k <= |ticks| && Play(o, s, ticks[..k]).ended
    ensures Play(o, s, ticks) == Play(o, s, ticks[..k])
  {
    if k == |ticks| {
      assert ticks[..k] == ticks;
    } else {
      assert ticks[..|ticks| - 1][..k] == ticks[..k];
      EndedStays(o, s, ticks[..|ticks| - 1], k);
    }
  }

  // ---------------------------------------------------------------------
  // Which frames are generated
  // ---------------------------------------------------------------------

  /** The k-th frame a session generates, with a sequence number that never wraps. */
  function Generated(o: Options, seqno: nat, ts: nat, k: nat): payload
  {
    AudioPayload(o, k % |o.packets|, seqno + k, ts + FRAME_SAMPLES * k)
  }

  lemma SameHeader(o: Options, idx: nat, seqno: nat, ts: nat, u: nat, t: nat)
    requires idx < |o.packets|
    requires seqno == u % 0x1_0000 && ts == t % 0x1_0000_0000
    ensures AudioPayload(o, idx, seqno, ts) == AudioPayload(o, idx, u, t)
  {
    hide Be;
    assert seqno % 0x1_0000 == u % 0x1_0000 && ts % 0x1_0000_0000 == t % 0x1_0000_0000;
  }

  lemma IndexAfter(k: nat, n: nat)
    requires n > 0
    ensures (k + 1) % n == if k % n + 1 >= n then 0 else k % n + 1
  {
    var q: int, r: int := k / n, k % n;
    assert k == n * q + r;
    if r + 1 >= n {
      assert k + 1 == n * (q + 1);
      ModUnique(k + 1, n, q + 1, 0);
    } else {
      ModUnique(k + 1, n, q, r + 1);
    }
  }

  lemma MulOutside(n: int, d: int)
    requires n > 0
    ensures d >= 1 ==> n * d >= n
    ensures d <= -1 ==> n * d <= -n
  {}

  lemma ModUnique(x: int, n: int, q: int, r: int)
    requires n > 0 && x == n * q + r && 0 <= r < n
    ensures x % n == r
  {
    var d := x / n - q;
    assert n * d == r - x % n;
    MulOutside(n, d);
  }

  lemma WrapNext(x: nat, step: nat, width: nat)
    requires width in {0x1_0000, 0x1_0000_0000}
    ensures (x % width + step) % width == (x + step) % width
  {}

  lemma IterateCounters(o: Options, s: Session, t: Tick)
    requires s.idx < |o.packets|
    ensures var p := Iterate(o, s, t);
            && p.seqno == (s.seqno + 1) % 0x1_0000 && p.ts == (s.ts + FRAME_SAMPLES) % 0x1_0000_0000
            && (!p.ended && !s.ended ==> p.idx == if s.idx + 1 >= |o.packets| then 0 else s.idx + 1)
  {
    hide Frame, Flatten, AudioPayload, StatPayload;
  }

  lemma CountersStep(seqno: nat, ts: nat, k: nat, n: nat)
    requires n > 0
    ensures (k + 1) % n == if k % n + 1 >= n then 0 else k % n + 1
    ensures ((seqno + k) % 0x1_0000 + 1) % 0x1_0000 == (seqno + (k + 1)) % 0x1_0000
    ensures ((ts + FRAME_SAMPLES * k) % 0x1_0000_0000 + FRAME_SAMPLES) % 0x1_0000_0000
            == (ts + FRAME_SAMPLES * (k + 1)) % 0x1_0000_0000
  {
    IndexAfter(k, n);
    WrapNext(seqno + k, 1, 0x1_0000);
    WrapNext(ts + FRAME_SAMPLES * k, FRAME_SAMPLES, 0x1_0000_0000);
  }

  /** The device counters k steps after `s`, modulo their widths. */
  predicate CountersAt(o: Options, s: Session, p: Session, k: nat) {
    && |o.packets| > 0 && p.idx == k % |o.packets|
    && p.seqno == (s.seqno + k) % 0x1_0000 && p.ts == (s.ts + FRAME_SAMPLES * k) % 0x1_0000_0000
  }

  lemma CountersNext(o: Options, s: Session, p: Session, t: Tick, k: nat)
    requires p.idx < |o.packets|
    requires CountersAt(o, s, p, k) && !p.ended && !Iterate(o, p, t).ended
    ensures CountersAt(o, s, Iterate(o, p, t), k + 1)
  {
    IterateCounters(o, p, t);
    hide Iterate;
    CountersStep(s.seqno, s.ts, k, |o.packets|);
  }

  lemma {:induction false} CountersWhileRunning(o: Options, s: Session, ticks: seq<Tick>)
    requires s.idx == 0
    requires s.seqno < 0x1_0000 && s.ts < 0x1_0000_0000
    requires !Play(o, s, ticks).ended
    ensures CountersAt(o, s, Play(o, s, ticks), |ticks|)
  {
    if ticks == [] {
      ModUnique(0, |o.packets|, 0, 0);
    } else {
      var k := |ticks| - 1;
      PlayOneMore(o, s, ticks, k);
      assert ticks[..k + 1] == ticks;
      hide Play, Iterate, CountersAt;
      CountersWhileRunning(o, s, ticks[..k]);
      CountersNext(o, s, Play(o, s, ticks[..k]), ticks[k], k);
    }
  }

  // ---------------------------------------------------------------------
  // The end of the clip
  // ---------------------------------------------------------------------

  /** The iterations reach the end of a clip that does not start again. */
  predicate RunsOut(o: Options, s: Session, ticks: seq<Tick>) {
    !o.loop && s.idx + |ticks| >= |o.packets|
  }

  /** The iterations that happen: none follows the end of the clip. */
  function Taken(o: Options, s: Session, ticks: seq<Tick>): seq<Tick>
    requires s.idx < |o.packets|
  {
    if RunsOut(o, s, ticks) then ticks[..|o.packets| - s.idx] else ticks
  }

  /** The iterations that reach the store step: the one that ends the clip leaves the loop before it. */
  function Storing(o: Options, s: Session, ticks: seq<Tick>): seq<Tick>
    requires s.idx < |o.packets|
  {
    if RunsOut(o, s, ticks) then ticks[..|o.packets| - s.idx - 1] else ticks
  }

  lemma IterateEndedIff(o: Options, p: Session, t: Tick)
    requires p.idx < |o.packets| && !p.ended
    ensures Iterate(o, p, t).ended <==> ClipEnds(o, p)
    ensures !ClipEnds(o, p) && !o.loop ==> Iterate(o, p, t).idx == p.idx + 1
  {
    hide AudioPayload, StatPayload, Frame, Flatten;
  }

  /** A session ends by itself exactly when it has played a clip that does not start again. */
  lemma {:induction false} EndsIffClipRunsOut(o: Options, s: Session, ticks: seq<Tick>)
    requires s.idx < |o.packets| && !s.ended
    ensures Play(o, s, ticks).ended <==> !o.loop && s.idx + |ticks| >= |o.packets|
    ensures !o.loop && !Play(o, s, ticks).ended ==> Play(o, s, ticks).idx == s.idx + |ticks|
  {
    if ticks != [] {
      hide Iterate;
      var init := ticks[..|ticks| - 1];
      EndsIffClipRunsOut(o, s, init);
      if !Play(o, s, init).ended {
        IterateEndedIff(o, Play(o, s, init), ticks[|ticks| - 1]);
      }
    }
  }

  /** Where a session stops, and in what state. */
  lemma PlayStops(o: Options, s: Session, ticks: seq<Tick>)
    requires s.idx < |o.packets| && !s.ended
    ensures Play(o, s, ticks) == Play(o, s, Taken(o, s, ticks))
    ensures var storing := Storing(o, s, ticks);
            var p := Play(o, s, storing);
            && !p.ended
            && Play(o, s, ticks) == (if RunsOut(o, s, ticks) then Iterate(o, p, ticks[|storing|]) else p)
            && (RunsOut(o, s, ticks) ==> ClipEnds(o, p))
  {
    hide Play, Iterate;
    var storing, taken := Storing(o, s, ticks), Taken(o, s, ticks);
    EndsIffClipRunsOut(o, s, storing);
    EndsIffClipRunsOut(o, s, taken);
    if RunsOut(o, s, ticks) {
      PlayOneMore(o, s, ticks, |storing|);
      IterateEndedIff(o, Play(o, s, storing), ticks[|storing|]);
      EndedStays(o, s, ticks, |taken|);
    }
  }

  /**
    * After a session from the start of its clip, number and clock have moved on once for each
    * iteration that happened, modulo their widths; the index stays on the last packet if the clip ended.
    */
  lemma CountersAdvance(o: Options, s: Session, ticks: seq<Tick>)
    requires s.idx == 0 && !s.ended
    requires s.seqno < 0x1_0000 && s.ts < 0x1_0000_0000
    ensures var p := Play(o, s, ticks);
            var n := if o.loop || |ticks| < |o.packets| then |ticks| else |o.packets|;
            && p.seqno == (s.seqno + n) % 0x1_0000 && p.ts == (s.ts + FRAME_SAMPLES * n) % 0x1_0000_0000
            && p.idx == if p.ended then |o.packets| - 1 else n % |o.packets|
  {
    hide Play, Iterate;
    PlayStops(o, s, ticks);
    EndsIffClipRunsOut(o, s, ticks);
    var storing := Storing(o, s, ticks);
    CountersWhileRunning(o, s, storing);
    if RunsOut(o, s, ticks) {
      EndsIffClipRunsOut(o, s, storing);
      IterateCounters(o, Play(o, s, storing), ticks[|storing|]);
      ClipEndKeepsIndex(o, Play(o, s, storing), ticks[|storing|]);
      CountersStep(s.seqno, s.ts, |storing|, |o.packets|);
    }
  }

  lemma ClipEndKeepsIndex(o: Options, p: Session, t: Tick)
    requires p.idx < |o.packets| && ClipEnds(o, p)
    ensures var q := Iterate(o, p, t);
            && q.idx == p.idx && q.writes == p.writes && q.held == p.held && q.sentBytes == p.sentBytes
            && q.dropped == p.dropped && q.stallUntil == Stalled(o, p, t).stallUntil
  {}

  lemma NextGenerated(o: Options, s: Session, ticks: seq<Tick>)
    requires s.idx == 0
    requires s.seqno < 0x1_0000 && s.ts < 0x1_0000_0000
    requires !Play(o, s, ticks).ended
    ensures var p := Play(o, s, ticks);
            AudioPayload(o, p.idx, p.seqno, p.ts) == Generated(o, s.seqno, s.ts, |ticks|)
  {
    hide Play, AudioPayload;
    CountersWhileRunning(o, s, ticks);
    var p := Play(o, s, ticks);
    SameHeader(o, p.idx, p.seqno, p.ts, s.seqno + |ticks|, s.ts + FRAME_SAMPLES * |ticks|);
  }
}
