/** Several sessions of one device, among any other connections of the server, down to the device's files. */
module Sessions {
  import opened Bytes
  import opened Protocol
  import opened SimDevice
  import opened StoreForward
  import opened SimSink
  import D = DeviceToFile
  import P = Pipeline
  import A = Auth
  import I = Ingest
  import H = Handoff
  import Y = IngestSystem
  import S = Segmenter

  // ---------------------------------------------------------------------
  // The topic
  // ---------------------------------------------------------------------

  /** What each connection produced under an id, connection by connection. */
  function ValuesOf(conns: seq<Y.Conn>, id: text): seq<bytes> {
    if conns == [] then [] else
      ValuesOf(conns[..|conns| - 1], id) + P.AudioValues(conns[|conns| - 1].records, id)
  }

  /** Nobody speaks for the id once a later connection has. */
  predicate InTurn(w: I.World, s: Y.State, e: Y.Event, id: text) {
    e.Deliver? && e.conn < |s.conns| && s.conns[e.conn].IsOpen()
    && P.AudioValues(I.Step(w, s.conns[e.conn].nonce, s.conns[e.conn].phase, e.read).1, id) != [] ==>
      forall k | e.conn < k < |s.conns| :: P.AudioValues(s.conns[k].records, id) == []
  }

  predicate TakesTurns(w: I.World, caps: A.Caps, events: seq<Y.Event>, id: text) {
    events == [] || (
      var init := events[..|events| - 1];
      TakesTurns(w, caps, init, id) && InTurn(w, Y.Reached(w, caps, init), events[|events| - 1], id))
  }

  lemma {:induction false} ValuesOfUpdate(conns: seq<Y.Conn>, i: nat, c: Y.Conn, more: seq<bytes>, id: text)
    requires i < |conns| && P.AudioValues(c.records, id) == P.AudioValues(conns[i].records, id) + more
    requires more == [] || forall k | i < k < |conns| :: P.AudioValues(conns[k].records, id) == []
    ensures ValuesOf(conns[i := c], id) == ValuesOf(conns, id) + more
  {
    hide P.AudioValues;
    var n := |conns| - 1;
    var values := P.AudioValues(conns[n].records, id);
    if i == n {
      assert conns[i := c][..n] == conns[..n];
      Assoc(ValuesOf(conns[..n], id), values, more);
    } else {
      assert conns[i := c][..n] == conns[..n][i := c];
      ValuesOfUpdate(conns[..n], i, c, more, id);
      assert more == [] || values == [];
      assert ValuesOf(conns[..n], id) + more + values == ValuesOf(conns[..n], id) + values + more;
    }
  }

  lemma NextTopic(w: I.World, caps: A.Caps, s: Y.State, e: Y.Event, id: text)
    requires P.AudioValues(s.topic, id) == ValuesOf(s.conns, id) && InTurn(w, s, e, id)
    ensures var s' := Y.Next(w, caps, s, e);
            P.AudioValues(s'.topic, id) == ValuesOf(s'.conns, id)
  {
    hide A.AllowStep, A.ReleaseStep, I.Step, P.AudioValues;
    var s' := Y.Next(w, caps, s, e);
    if e.Accept? {
      assert s'.conns[..|s.conns|] == s.conns;
      NoValues(id);
      assert ValuesOf(s.conns, id) + [] == ValuesOf(s.conns, id);
    } else if e.conn < |s.conns| && s.conns[e.conn].IsOpen() {
      var c := s.conns[e.conn];
      var records := I.Step(w, c.nonce, c.phase, e.read).1;
      D.AudioValuesConcat(s.topic, records, id);
      D.AudioValuesConcat(c.records, records, id);
      hide ValuesOf;
      ValuesOfUpdate(s.conns, e.conn, s'.conns[e.conn], P.AudioValues(records, id), id);
      assert s'.conns == s.conns[e.conn := s'.conns[e.conn]];
    }
  }

  lemma NoValues(id: text)
    ensures P.AudioValues([], id) == []
  {}

  /** While connections take turns under an id, the topic holds their audio one connection after the other. */
  lemma {:induction false} TopicInTurn(w: I.World, caps: A.Caps, events: seq<Y.Event>, id: text)
    requires TakesTurns(w, caps, events, id)
    ensures P.AudioValues(Y.Reached(w, caps, events).topic, id) == ValuesOf(Y.Reached(w, caps, events).conns, id)
  {
    if events == [] {
      NoValues(id);
    } else {
      hide Y.Next, InTurn, P.AudioValues, ValuesOf;
      TopicInTurn(w, caps, events[..|events| - 1], id);
      NextTopic(w, caps, Y.Reached(w, caps, events[..|events| - 1]), events[|events| - 1], id);
    }
  }

  // ---------------------------------------------------------------------
  // Visits
  // ---------------------------------------------------------------------

  /** One session of the device as the server reads it: up to the first frame, the rest, and how the stream ended. */
  datatype Visit = Visit(lead: seq<payload>, o: Options, s: Session, ticks: seq<Tick>,
                         early: seq<bytes>, later: seq<bytes>, ends: seq<I.Read>) {
    function Reads(): seq<I.Read> {
      I.DataReads(early) + I.DataReads(later) + ends
    }
  }

  /** The session was let in, arrived whole, and kept its order at the handshake. */
  ghost predicate Delivered(w: I.World, nonce: bytes, id: text, v: Visit) {
    && D.Opens(w.json, id, v.lead)
    && Fresh(v.s) && SaneInputs(D.ObjectsOnly(w.json), v.o, v.ticks)
    && NonEmptyChunks(v.early) && NonEmptyChunks(v.later)
    && Flatten(v.early) + Flatten(v.later) == D.Spoken(v.lead, v.o, v.s, v.ticks)
    && (forall r <- v.ends :: r in {I.TimedOut, I.Broken, I.Data([])})
    && if w.mode.Disabled? then v.early == [] && D.AreHellos(w.json, id, v.lead) else
         && v.early != [] && v.later != []
         && Parse(Flatten(v.early[..|v.early| - 1])).0 == []
         && Parse(Flatten(v.early)).0 != [] && H.OrderHarmless(Flatten(v.early))
         && D.Accepted(w, nonce, Parse(Flatten(v.early)).0[0])
  }

  /** The end of a stream, however it comes, adds no audio. */
  lemma {:induction false} EndsAddNoAudio(w: I.World, nonce: bytes, phase: I.Phase, ends: seq<I.Read>, id: text)
    requires forall r <- ends :: r in {I.TimedOut, I.Broken, I.Data([])}
    ensures P.AudioValues(I.Run(w, nonce, phase, ends).1, id) == []
    decreases |ends|
  {
    if ends == [] {
      NoValues(id);
    } else {
      var (p, records) := I.Step(w, nonce, phase, ends[0]);
      assert ends[0] in ends && forall r <- ends[1..] :: r in ends;
      EndsAddNoAudio(w, nonce, p, ends[1..], id);
      D.AudioValuesConcat(records, I.Run(w, nonce, p, ends[1..]).1, id);
      assert P.AudioValues(records, id) == [] by {
        NoValues(id);
        if records != [] {
          assert |records| == 1 && records[0].value == I.Disconnected;
          D.OneValue(records[0], id);
        }
      }
    }
  }

  lemma VisitReachesTopic(w: I.World, nonce: bytes, id: text, v: Visit)
    requires Delivered(w, nonce, id, v)
    ensures P.AudioValues(I.Run(w, nonce, I.Start(w.mode), v.Reads()).1, id)
            == AudioFrames(Parse(Flatten(Play(v.o, v.s, v.ticks).writes)).0)
  {
    hide Play, Parse, Flatten, AudioFrames, D.Spoken, SaneInputs, I.Run, P.AudioValues, H.OrderHarmless, D.Accepted, D.AreHellos;
    var data := I.DataReads(v.early) + I.DataReads(v.later);
    if w.mode.Disabled? {
      assert Flatten<byte>([]) == [] by {
        FlattenNonEmpty([]);
      }
      assert Flatten(v.early) + Flatten(v.later) == Flatten(v.later) && data == I.DataReads(v.later);
      D.OpenSessionReachesTopic(w, nonce, id, v.lead, v.o, v.s, v.ticks, v.later);
    } else {
      D.SessionReachesTopic(w, nonce, id, v.lead, v.o, v.s, v.ticks, v.early, v.later);
    }
    H.RunConcat(w, nonce, I.Start(w.mode), data, v.ends);
    var (p, records) := I.Run(w, nonce, I.Start(w.mode), data);
    EndsAddNoAudio(w, nonce, p, v.ends, id);
    D.AudioValuesConcat(records, I.Run(w, nonce, p, v.ends).1, id);
    assert P.AudioValues(records, id) + [] == P.AudioValues(records, id);
  }

  // ---------------------------------------------------------------------
  // To the files
  // ---------------------------------------------------------------------

  /** A connection is one of the device's sessions, or nobody speaks for the device on it. */
  ghost predicate Accounts(w: I.World, caps: A.Caps, server: seq<Y.Event>, id: text, i: nat, visit: Option<Visit>)
    requires i < |Y.Reached(w, caps, server).conns|
  {
    var c := Y.Reached(w, caps, server).conns[i];
    if visit.None? then P.AudioValues(c.records, id) == [] else
      && c.admitted && Delivered(w, c.nonce, id, visit.value)
      && Y.ReadsOf(w, caps, server, i) == visit.value.Reads()
  }

  /** The packets sent in these sessions, one session after the other. */
  function AllSent(visits: seq<Option<Visit>>): seq<bytes>
    requires forall v <- visits | v.Some? :: Fresh(v.value.s)
  {
    if visits == [] then [] else
      var last := visits[|visits| - 1];
      assert last in visits;
      AllSent(visits[..|visits| - 1]) + if last.None? then [] else D.SentPackets(last.value.o, last.value.s, last.value.ticks)
  }

  lemma {:induction false} OpusConcat(a: seq<bytes>, b: seq<bytes>)
    ensures P.OpusOf(a + b) == P.OpusOf(a) + P.OpusOf(b)
  {
    if b == [] {
      assert a + b == a;
    } else {
      var init, f := b[..|b| - 1], b[|b| - 1];
      assert a + b == a + init + [f] && init + [f] == b;
      hide ParseAudio, P.OpusOf;
      OpusConcat(a, init);
      P.OpusSnoc(a + init, f);
      P.OpusSnoc(init, f);
    }
  }

  lemma ConnPackets(w: I.World, caps: A.Caps, server: seq<Y.Event>, id: text, i: nat, visit: Option<Visit>)
    requires i < |Y.Reached(w, caps, server).conns| && Accounts(w, caps, server, id, i, visit)
    ensures visit.Some? ==> Fresh(visit.value.s)
    ensures P.OpusOf(P.AudioValues(Y.Reached(w, caps, server).conns[i].records, id))
            == if visit.None? then [] else D.SentPackets(visit.value.o, visit.value.s, visit.value.ticks)
  {
    if visit.Some? {
      var v := visit.value;
      var c := Y.Reached(w, caps, server).conns[i];
      hide Y.Reached, Y.ReadsOf, I.Run, P.AudioValues, P.OpusOf, Play, Parse, Flatten, AudioFrames, D.SentPackets, Visit.Reads;
      Y.InterleavingProjects(w, caps, server, i);
      VisitReachesTopic(w, c.nonce, id, v);
      D.SentCarry(v.o, v.s, v.ticks);
    }
  }

  lemma {:induction false} ConnsPackets(w: I.World, caps: A.Caps, server: seq<Y.Event>, id: text, visits: seq<Option<Visit>>)
    requires |visits| <= |Y.Reached(w, caps, server).conns|
    requires forall i | 0 <= i < |visits| :: Accounts(w, caps, server, id, i, visits[i])
    ensures forall v <- visits | v.Some? :: Fresh(v.value.s)
    ensures P.OpusOf(ValuesOf(Y.Reached(w, caps, server).conns[..|visits|], id)) == AllSent(visits)
  {
    hide Y.Reached, Accounts, P.AudioValues, P.OpusOf, D.SentPackets;
    var conns, n := Y.Reached(w, caps, server).conns, |visits| - 1;
    if visits == [] {
      NothingSent();
    } else {
      var init, last := visits[..n], visits[n];
      assert visits == init + [last];
      ConnsPackets(w, caps, server, id, init);
      ConnPackets(w, caps, server, id, n, last);
      assert conns[..n + 1][..n] == conns[..n];
      OpusConcat(ValuesOf(conns[..n], id), P.AudioValues(conns[n].records, id));
    }
  }

  lemma NothingSent()
    ensures P.OpusOf([]) == []
  {}

  /**
    * Any number of sessions of one device on a busy server, one after the other on the topic: the
    * device's files, demuxed one after the other, are exactly the packets of the frames it sent,
    * session after session, whatever other connections do in between.
    */
  lemma SessionsToFiles(w: I.World, caps: A.Caps, server: seq<Y.Event>, id: text, visits: seq<Option<Visit>>,
                        u: S.Setup, events: seq<S.Event>, end: real)
    requires |visits| == |Y.Reached(w, caps, server).conns| && TakesTurns(w, caps, server, id)
    requires forall i | 0 <= i < |visits| :: Accounts(w, caps, server, id, i, visits[i])
    requires S.ReasonableLength(u) && S.MessagesFit(u, events)
    requires P.MessagesFor(events, id) == P.AudioValues(Y.Reached(w, caps, server).topic, id)
    ensures forall v <- visits | v.Some? :: Fresh(v.value.s)
    ensures P.Replay(S.Finish(u, S.Consume(u, events), end).built, id) == AllSent(visits)
  {
    hide Y.Reached, Accounts, P.AudioValues, P.OpusOf, P.MessagesFor, P.Replay, ValuesOf, AllSent, TakesTurns;
    hide S.Finish, S.Consume, S.MessagesFit, S.ReasonableLength;
    var conns := Y.Reached(w, caps, server).conns;
    TopicInTurn(w, caps, server, id);
    ConnsPackets(w, caps, server, id, visits);
    assert conns[..|visits|] == conns;
    P.FilesReplayMessages(u, events, end, id);
  }
}
