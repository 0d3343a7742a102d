/** The simulated device and the reference receiver agree on losses. */
module SimSink {
  import opened Bytes
  import opened Protocol
  import opened Sink
  import opened SimDevice
  import opened StoreForward

  // ---------------------------------------------------------------------
  // Dropped and kept frames
  // ---------------------------------------------------------------------

  function LostCount(o: Options, ticks: seq<Tick>): (n: nat)
    ensures n <= |ticks|
  {
    if ticks == [] then 0 else
      LostCount(o, ticks[..|ticks| - 1]) + if IsLost(o, ticks[|ticks| - 1]) then 1 else 0
  }

  lemma {:induction false} LostConcat(o: Options, a: seq<Tick>, b: seq<Tick>)
    ensures LostCount(o, a + b) == LostCount(o, a) + LostCount(o, b)
  {
    if b == [] {
      assert a + b == a;
    } else {
      assert (a + b)[..|a + b| - 1] == a + b[..|b| - 1];
      LostConcat(o, a, b[..|b| - 1]);
    }
  }

  /** The i-th kept frame is preceded by i kept ones and otherwise by dropped ones. */
  lemma {:induction false} KeptAre(o: Options, ticks: seq<Tick>)
    ensures Increasing(KeptTicks(o, ticks))
    ensures forall i | 0 <= i < |KeptTicks(o, ticks)| ::
              KeptTicks(o, ticks)[i] < |ticks| && i + LostCount(o, ticks[..KeptTicks(o, ticks)[i]]) == KeptTicks(o, ticks)[i]
    ensures |KeptTicks(o, ticks)| + LostCount(o, ticks) == |ticks|
  {
    if ticks != [] {
      var n := |ticks| - 1;
      var init := ticks[..n];
      KeptAre(o, init);
      var before, kept := KeptTicks(o, init), KeptTicks(o, ticks);
      forall i | 0 <= i < |kept|
        ensures kept[i] < |ticks| && i + LostCount(o, ticks[..kept[i]]) == kept[i]
      {
        if i < |before| {
          assert ticks[..kept[i]] == init[..before[i]];
        }
      }
    }
  }

  /** Between two kept frames everything else was dropped. */
  lemma DroppedBetween(o: Options, ticks: seq<Tick>, n: nat)
    requires 0 < n <= |KeptTicks(o, ticks)|
    ensures var kept := KeptTicks(o, ticks);
            && kept[0] <= kept[n - 1] < |ticks|
            && LostCount(o, ticks[kept[0]..kept[n - 1]]) == kept[n - 1] - kept[0] + 1 - n
  {
    KeptAre(o, ticks);
    var kept := KeptTicks(o, ticks);
    hide KeptTicks;
    var first, last := kept[0], kept[n - 1];
    assert ticks[..last] == ticks[..first] + ticks[first..last];
    LostConcat(o, ticks[..first], ticks[first..last]);
  }

  // ---------------------------------------------------------------------
  // The receiver on the device's frames
  // ---------------------------------------------------------------------

  /** A frame the device writes: RTP audio with a payload, or a STAT the receiver can decode. */
  predicate DeviceFrame(json: bytes -> Json, f: payload) {
    if f != [] && f[0] == 0x80 then |f| > RTP_HEADER_LEN
    else STAT_PREFIX <= f && json(f[|STAT_PREFIX|..]) != Invalid
  }

  predicate DeviceFrames(json: bytes -> Json, fs: seq<payload>) {
    forall i | 0 <= i < |fs| :: DeviceFrame(json, fs[i])
  }

  lemma ReceiveOne(json: bytes -> Json, r: Receiver, f: payload)
    requires !r.raised && DeviceFrame(json, f)
    ensures var next := Receive(json, r, f);
            && !next.raised && next.imei == r.imei
            && next.Find(r.imei).loss == if f[0] == 0x80 then Note(r.Find(r.imei).loss, SeqOf(f))
                                         else r.Find(r.imei).loss
  {
    hide Note, BeValue;
    if f[0] == 0x80 {
      assert Classify(json, f) == Audio(f);
    } else {
      assert f == BuildStat(f[|STAT_PREFIX|..]);
      ClassifyStat(json, f[|STAT_PREFIX|..]);
    }
  }

  lemma AudioSnoc(frames: seq<payload>, f: payload)
    requires f != []
    ensures AudioFrames([]) == [] && forall l :: NoteFrames(l, []) == l
    ensures AudioFrames(frames + [f]) == if f[0] == 0x80 then AudioFrames(frames) + [f] else AudioFrames(frames)
  {
    assert (frames + [f])[..|frames|] == frames;
  }

  lemma {:induction false} ReceiveLoss(json: bytes -> Json, r: Receiver, frames: seq<payload>)
    requires !r.raised && DeviceFrames(json, frames)
    ensures var after := ReceiveAll(json, r, frames);
            && !after.raised && after.imei == r.imei
            && after.Find(r.imei).loss == NoteFrames(r.Find(r.imei).loss, AudioFrames(frames))
  {
    hide Receive, ReceiveAll, DeviceFrame, Note, SeqOf, Receiver.Find, NoteFrames, AudioFrames;
    if frames == [] {
      ReceiveSnoc(json, r, [], [0]);
      AudioSnoc([], [0]);
    } else {
      var init, last := frames[..|frames| - 1], frames[|frames| - 1];
      assert init + [last] == frames;
      ReceiveLoss(json, r, init);
      NotEmpty(json, last);
      ReceiveOne(json, ReceiveAll(json, r, init), last);
      ReceiveSnoc(json, r, init, last);
      AudioSnoc(init, last);
      NoteSnoc(r.Find(r.imei).loss, AudioFrames(init), last);
    }
  }

  lemma NotEmpty(json: bytes -> Json, f: payload)
    requires DeviceFrame(json, f)
    ensures f != []
  {}

  // ---------------------------------------------------------------------
  // The device's frames
  // ---------------------------------------------------------------------

  predicate NoEmptyPacket(o: Options) {
    forall p <- o.packets :: p != []
  }

  /** The encoder never yields an empty packet, and telemetry is valid JSON. */
  predicate SaneInputs(json: bytes -> Json, o: Options, ticks: seq<Tick>) {
    && NoEmptyPacket(o)
    && forall t <- ticks :: json(t.doc) != Invalid
  }

  lemma AudioIsDeviceFrame(json: bytes -> Json, o: Options, idx: nat, seqno: nat, ts: nat)
    requires idx < |o.packets| && o.packets[idx] != []
    ensures DeviceFrame(json, AudioPayload(o, idx, seqno, ts))
    ensures SeqOf(AudioPayload(o, idx, seqno, ts)) == seqno % WRAP
  {
    var f := AudioPayload(o, idx, seqno, ts);
    Widths();
    BeRoundTrip(seqno % WRAP, 2);
    hide Be, BeValue;
    assert f[2..4] == Be(seqno % WRAP, 2);
  }

  lemma StatIsDeviceFrame(json: bytes -> Json, t: Tick)
    requires json(t.doc) != Invalid
    ensures DeviceFrame(json, StatPayload(t))
  {
    assert StatPayload(t)[|STAT_PREFIX|..] == t.doc && StatPayload(t)[0] == 0x53;
  }

  lemma NextDeviceFrames(json: bytes -> Json, o: Options, tr: Trace, p: Session, t: Tick)
    requires p.idx < |o.packets| && o.packets[p.idx] != [] && json(t.doc) != Invalid
    requires DeviceFrames(json, tr.sent) && DeviceFrames(json, tr.held)
    ensures DeviceFrames(json, TraceNext(o, tr, p, t).sent) && DeviceFrames(json, TraceNext(o, tr, p, t).held)
  {
    AudioIsDeviceFrame(json, o, p.idx, p.seqno, p.ts);
    StatIsDeviceFrame(json, t);
    hide DeviceFrame, AudioPayload, StatPayload, Advanced, Stored, IsLost, ReportsNow;
  }

  lemma {:induction false} TraceIsDeviceFrames(json: bytes -> Json, o: Options, s: Session, ticks: seq<Tick>)
    requires Fresh(s) && SaneInputs(json, o, ticks)
    ensures DeviceFrames(json, TraceOf(o, s, ticks).sent) && DeviceFrames(json, TraceOf(o, s, ticks).held)
  {
    if ticks != [] {
      var init, last := ticks[..|ticks| - 1], ticks[|ticks| - 1];
      assert last in ticks && forall t <- init :: t in ticks;
      TraceIsDeviceFrames(json, o, s, init);
      TraceStep(o, s, ticks);
      hide TraceOf, Play, TraceNext, DeviceFrames;
      var p := Play(o, s, init);
      assert o.packets[p.idx] in o.packets;
      if !p.ended {
        NextDeviceFrames(json, o, TraceOf(o, s, init), p, last);
      }
    }
  }

  /** The unwrapped sequence numbers of generated frames. */
  function Numbers(seqno: nat, ks: seq<nat>): seq<int> {
    seq(|ks|, i requires 0 <= i < |ks| => seqno + ks[i])
  }

  lemma NumbersSnoc(seqno: nat, ks: seq<nat>, k: nat)
    ensures Numbers(seqno, ks + [k]) == Numbers(seqno, ks) + [seqno + k]
  {}

  lemma NoteAllSnoc(us: seq<int>, u: int)
    ensures NoteAll(us + [u]) == Note(NoteAll(us), u % WRAP)
  {
    assert (us + [u])[..|us|] == us;
    hide Note;
  }

  lemma GeneratedNumber(o: Options, seqno: nat, ts: nat, k: nat)
    requires NoEmptyPacket(o)
    ensures SeqOf(Generated(o, seqno, ts, k)) == (seqno + k) % WRAP
  {
    assert o.packets[k % |o.packets|] in o.packets;
    AudioIsDeviceFrame(_ => Object, o, k % |o.packets|, seqno + k, ts + FRAME_SAMPLES * k);
    hide SeqOf, AudioPayload;
  }

  lemma NothingGenerated(o: Options, seqno: nat, ts: nat)
    ensures NoteFrames(NO_LOSS, Payloads(o, seqno, ts, [])) == NoteAll(Numbers(seqno, []))
  {}

  lemma {:induction false} NoteGenerated(o: Options, seqno: nat, ts: nat, ks: seq<nat>)
    requires NoEmptyPacket(o)
    ensures NoteFrames(NO_LOSS, Payloads(o, seqno, ts, ks)) == NoteAll(Numbers(seqno, ks))
  {
    hide Note, SeqOf, Generated, NoteAll, NoteFrames, Numbers, Payloads, NoEmptyPacket;
    if ks == [] {
      NothingGenerated(o, seqno, ts);
    } else {
      var init, k := ks[..|ks| - 1], ks[|ks| - 1];
      GeneratedNumber(o, seqno, ts, k);
      NoteGenerated(o, seqno, ts, init);
      assert init + [k] == ks;
      PayloadsSnoc(o, seqno, ts, init, k);
      NumbersSnoc(seqno, init, k);
      NoteAllSnoc(Numbers(seqno, init), seqno + k);
      NoteSnoc(NO_LOSS, Payloads(o, seqno, ts, init), Generated(o, seqno, ts, k));
    }
  }

  // ---------------------------------------------------------------------
  // Agreement
  // ---------------------------------------------------------------------

  /** How many of the kept frames have reached the wire. */
  function SentCount(o: Options, s: Session, ticks: seq<Tick>): nat
    requires s.idx < |o.packets|
  {
    |AudioFrames(Parse(Flatten(Play(o, s, ticks).writes)).0)|
  }

  lemma {:induction false} KeptPrefix(o: Options, ticks: seq<Tick>, m: nat)
    requires m <= |ticks|
    ensures KeptTicks(o, ticks[..m]) <= KeptTicks(o, ticks)
  {
    if m == |ticks| {
      assert ticks[..m] == ticks;
    } else {
      assert ticks[..|ticks| - 1][..m] == ticks[..m];
      KeptPrefix(o, ticks[..|ticks| - 1], m);
    }
  }

  lemma StoringIsPrefix(o: Options, s: Session, ticks: seq<Tick>)
    requires Fresh(s)
    ensures var storing := Storing(o, s, ticks);
            |storing| <= |ticks| && storing == ticks[..|storing|]
            && |storing| == if o.loop || |ticks| < |o.packets| then |ticks| else |o.packets| - 1
  {}

  lemma SentIsPrefixOfKept(o: Options, s: Session, ticks: seq<Tick>)
    requires Fresh(s)
    ensures SentCount(o, s, ticks) <= |KeptTicks(o, ticks)|
    ensures AudioFrames(Parse(Flatten(Play(o, s, ticks).writes)).0)
            == Payloads(o, s.seqno, s.ts, KeptTicks(o, ticks)[..SentCount(o, s, ticks)])
  {
    StoreAndForward(o, s, ticks);
    var sent := AudioFrames(Parse(Flatten(Play(o, s, ticks).writes)).0);
    var backlog := Parse(Flatten(Play(o, s, ticks).held)).0;
    var kept, storing := KeptTicks(o, ticks), Storing(o, s, ticks);
    StoringIsPrefix(o, s, ticks);
    KeptPrefix(o, ticks, |storing|);
    hide Play, Parse, Flatten, AudioFrames, KeptTicks, Generated, Storing;
    var stored := KeptTicks(o, storing);
    assert |sent| + |backlog| == |Payloads(o, s.seqno, s.ts, stored)|;
    assert sent == (sent + backlog)[..|sent|];
    assert kept[..|sent|] == stored[..|sent|];
    assert Payloads(o, s.seqno, s.ts, stored)[..|sent|] == Payloads(o, s.seqno, s.ts, stored[..|sent|]);
  }

  /**
    * One session delivered whole to a fresh receiver, in any division into reads: the receiver
    * reports no reordering and exactly the frames dropped between the first and the last delivered
    * one, if and only if fewer than 0x8000 frames in a row were dropped between delivered ones. The
    * sequence numbers may wrap any number of times, and the session may have ended or not.
    */
  lemma SimulatorAndSinkAgree(json: bytes -> Json, o: Options, s: Session, ticks: seq<Tick>, r: Receiver, chunks: seq<bytes>)
    requires Fresh(s) && SaneInputs(json, o, ticks)
    requires !r.raised && r.Find(r.imei).loss == NO_LOSS
    requires NonEmptyChunks(chunks) && Flatten(chunks) == Flatten(Play(o, s, ticks).writes)
    requires SentCount(o, s, ticks) > 0
    ensures var n, kept := SentCount(o, s, ticks), KeptTicks(o, ticks);
            var after := ReceiveReads(json, r, [], chunks);
            var loss := after.Find(r.imei).loss;
            && 0 < n <= |kept| && kept[0] <= kept[n - 1] < |ticks| && !after.raised
            && (loss.reordered == 0 && loss.lost == LostCount(o, ticks[kept[0]..kept[n - 1]]) <==> ShortGaps(kept[..n]))
  {
    hide SentCount, KeptTicks, Play, Parse, Flatten, ReceiveReads, Receiver.Find, LostCount, NoteAll, SaneInputs;
    SessionLoss(json, o, s, ticks, r, chunks);
    DroppedBetween(o, ticks, SentCount(o, s, ticks));
    KeptAre(o, ticks);
    var n, kept := SentCount(o, s, ticks), KeptTicks(o, ticks);
    var us := Numbers(s.seqno, kept[..n]);
    assert Increasing(us);
    InOrderLossIff(us);
    hide ShortGaps, Increasing;
    SameGaps(s.seqno, kept[..n]);
  }

  lemma SameGaps(seqno: nat, ks: seq<nat>)
    ensures ShortGaps(Numbers(seqno, ks)) <==> ShortGaps(ks)
  {
    var us := Numbers(seqno, ks);
    assert forall i | 0 < i < |ks| :: us[i] - us[i - 1] == ks[i] as int - ks[i - 1] as int;
  }

  lemma SessionLoss(json: bytes -> Json, o: Options, s: Session, ticks: seq<Tick>, r: Receiver, chunks: seq<bytes>)
    requires Fresh(s) && SaneInputs(json, o, ticks)
    requires !r.raised && r.Find(r.imei).loss == NO_LOSS
    requires NonEmptyChunks(chunks) && Flatten(chunks) == Flatten(Play(o, s, ticks).writes)
    ensures SentCount(o, s, ticks) <= |KeptTicks(o, ticks)|
    ensures var after := ReceiveReads(json, r, [], chunks);
            && !after.raised
            && after.Find(r.imei).loss == NoteAll(Numbers(s.seqno, KeptTicks(o, ticks)[..SentCount(o, s, ticks)]))
  {
    var tr := TraceOf(o, s, ticks);
    TraceMatches(o, s, ticks);
    TraceIsDeviceFrames(json, o, s, ticks);
    SentIsPrefixOfKept(o, s, ticks);
    ParseFramed(tr.sent, []);
    ReadsJoin(json, r, [], chunks);
    hide TraceOf, Play, Parse, Flatten, FrameAll, FrameEach, AudioFrames, KeptTicks, DeviceFrame, NoteFrames;
    hide NoteAll, ReceiveAll, ReceiveReads, Receiver.Find, Payloads;
    assert FrameAll(tr.sent) + [] == FrameAll(tr.sent) && [] + Flatten(chunks) == Flatten(chunks);
    ReceiveLoss(json, r, tr.sent);
    NoteGenerated(o, s.seqno, s.ts, KeptTicks(o, ticks)[..SentCount(o, s, ticks)]);
  }

  lemma BurstOutSendsAll(o: Options, s: Session, ticks: seq<Tick>)
    requires Fresh(s) && o.loss == 0.0 && Play(o, s, ticks).held == []
    ensures SentCount(o, s, ticks) == if o.loop || |ticks| < |o.packets| then |ticks| else |o.packets| - 1
  {
    assert Parse([]).0 == [] && Flatten<byte>([]) == [];
    hide Play, Parse, Flatten, AudioFrames, LostCount, Payloads, KeptTicks;
    StoringIsPrefix(o, s, ticks);
    NothingDropped(o, Storing(o, s, ticks));
    StoreAndForward(o, s, ticks);
    var sent := AudioFrames(Parse(Flatten(Play(o, s, ticks).writes)).0);
    assert sent + [] == sent;
    PayloadsLength(o, s.seqno, s.ts, KeptTicks(o, Storing(o, s, ticks)));
  }

  /**
    * A stall without random loss, burst out: every frame arrives but the last of a clip that ended,
    * and none is counted lost or reordered.
    */
  lemma StallLosesNothing(json: bytes -> Json, o: Options, s: Session, ticks: seq<Tick>, r: Receiver, chunks: seq<bytes>)
    requires Fresh(s) && SaneInputs(json, o, ticks)
    requires !r.raised && r.Find(r.imei).loss == NO_LOSS
    requires NonEmptyChunks(chunks) && Flatten(chunks) == Flatten(Play(o, s, ticks).writes)
    requires o.loss == 0.0 && Play(o, s, ticks).held == []
    ensures SentCount(o, s, ticks) == if o.loop || |ticks| < |o.packets| then |ticks| else |o.packets| - 1
    ensures var loss := ReceiveReads(json, r, [], chunks).Find(r.imei).loss;
            loss.lost == 0 && loss.reordered == 0
  {
    hide Play, Parse, Flatten, ReceiveReads, Receiver.Find, LostCount, KeptTicks, SentCount, ShortGaps, SaneInputs;
    BurstOutSendsAll(o, s, ticks);
    if SentCount(o, s, ticks) == 0 {
      SilentSession(json, o, s, ticks, r, chunks);
    } else {
      SimulatorAndSinkAgree(json, o, s, ticks, r, chunks);
      NoGaps(o, ticks, SentCount(o, s, ticks));
    }
  }

  lemma SilentSession(json: bytes -> Json, o: Options, s: Session, ticks: seq<Tick>, r: Receiver, chunks: seq<bytes>)
    requires Fresh(s) && SaneInputs(json, o, ticks)
    requires !r.raised && r.Find(r.imei).loss == NO_LOSS
    requires NonEmptyChunks(chunks) && Flatten(chunks) == Flatten(Play(o, s, ticks).writes)
    requires SentCount(o, s, ticks) == 0
    ensures ReceiveReads(json, r, [], chunks).Find(r.imei).loss == NO_LOSS
  {
    hide Play, Flatten, ReceiveReads, Receiver.Find, KeptTicks, SentCount, SaneInputs, NoteAll, Numbers;
    SessionLoss(json, o, s, ticks, r, chunks);
    NoNumbers(s.seqno);
    assert KeptTicks(o, ticks)[..0] == [];
  }

  lemma NoGaps(o: Options, ticks: seq<Tick>, n: nat)
    requires o.loss == 0.0 && 0 < n <= |ticks|
    ensures var kept := KeptTicks(o, ticks);
            && |kept| == |ticks| && kept[0] <= kept[n - 1] < |ticks| && ShortGaps(kept[..n])
            && LostCount(o, ticks[kept[0]..kept[n - 1]]) == 0
  {
    hide KeptTicks, LostCount;
    NothingDropped(o, ticks);
    var kept := KeptTicks(o, ticks);
    NothingDropped(o, ticks[kept[0]..kept[n - 1]]);
  }

  lemma NoNumbers(seqno: nat)
    ensures NoteAll(Numbers(seqno, [])) == NO_LOSS
  {}

  lemma PayloadsLength(o: Options, seqno: nat, ts: nat, ks: seq<nat>)
    ensures |Payloads(o, seqno, ts, ks)| == |ks|
  {}

  lemma {:induction false} NothingDropped(o: Options, ticks: seq<Tick>)
    requires o.loss == 0.0
    ensures LostCount(o, ticks) == 0 && |KeptTicks(o, ticks)| == |ticks|
    ensures forall i | 0 <= i < |ticks| :: KeptTicks(o, ticks)[i] == i
  {
    if ticks != [] {
      NothingDropped(o, ticks[..|ticks| - 1]);
    }
  }
}
