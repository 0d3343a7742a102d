/** How whole handshakes end (server/ingest.py, server/auth.py), for every way a device's one frame may be cut. */
module Handshake {
  import opened Bytes
  import opened Protocol
  import opened Auth
  import opened Ingest
  import opened Handoff

  /** A cut frame is no frame yet. */
  lemma CutFrameIncomplete(p: payload, front: bytes, last: bytes)
    requires front + last == Frame(p) && last != []
    ensures Incomplete(front) && Parse(front) == ([], front)
  {
    FramePrefix(p, []);
    assert Frame(p) + [] == Frame(p);
    hide Frame;
    if |front| >= 2 {
      assert front[0] == Frame(p)[0] && front[1] == Frame(p)[1];
      assert LengthPrefix(front) == LengthPrefix(Frame(p)) == |p|;
      assert |front| < |Frame(p)|;
    }
  }

  lemma OneFrameStream(p: payload)
    ensures Frame(p) != [] && Parse(Frame(p)) == ([p], []) && Leftover(Frame(p)) == []
  {
    ParseOne(p, []);
    assert Frame(p) + [] == Frame(p);
    hide Parse, Frame;
    var frames: seq<payload> := [p];
    assert frames[1..] == [];
  }

  /** The phase a decision leads to, with the disconnect event of a refusal. */
  function Settled(next: Phase): (Phase, seq<Record>) {
    if next.Closed? then Close(next.imei, next.denied, []) else (next, [])
  }

  lemma StepOnFirstFrame(w: World, nonce: bytes, buf: bytes, chunk: bytes, p: payload)
    requires chunk != [] && buf + chunk == Frame(p)
    ensures Step(w, nonce, Handshaking(buf), Data(chunk)) == Settled(Decide(w, nonce, p, []))
  {
    OneFrameStream(p);
    hide Parse, Frame, Leftover, Decide;
  }

  /** However the first frame is cut into reads, the handshake ends as that frame decides. */
  lemma FirstFrameDecides(w: World, nonce: bytes, p: payload, chunks: seq<bytes>)
    requires !w.mode.Disabled?
    requires NonEmptyChunks(chunks) && Flatten(chunks) == Frame(p)
    ensures Ingest.Run(w, nonce, Start(w.mode), DataReads(chunks)) == Settled(Decide(w, nonce, p, []))
  {
    OneFrameStream(p);
    FlattenNonEmpty(chunks);
    hide Parse, Frame, Flatten, DataReads, Decide, Ingest.Run, Step, Settled;
    var n := |chunks| - 1;
    var front, last := Flatten(chunks[..n]), chunks[n];
    assert chunks[..n] + [last] == chunks && last in chunks;
    FlattenSnoc(chunks[..n], last);
    CutFrameIncomplete(p, front, last);
    assert [] + front == front;
    HandshakeReads(w, nonce, [], chunks);
    StepOnFirstFrame(w, nonce, front, last, p);
  }

  const REFUSED: (Phase, seq<Record>) :=
    (Closed(UNKNOWN, true), [Record(DeviceEvents, UNKNOWN, Disconnected)])

  /**
    * An AUTH frame lets the device in, under the id it names and with nothing left over, exactly when
    * that id has a key and the response is the key's digest of this connection's nonce in either
    * letter case. An unknown id, another key and a digest of another nonce are refused alike.
    */
  lemma AuthAnswer(w: World, nonce: bytes, p: payload, id: text, response: text, chunks: seq<bytes>)
    requires !w.mode.Disabled? && (id in w.keys ==> IsHexDigest(w.mac(w.keys[id], nonce)))
    requires Classify(w.json, p) == Kind.Auth(id, response)
    requires NonEmptyChunks(chunks) && Flatten(chunks) == Frame(p)
    ensures Ingest.Run(w, nonce, Start(w.mode), DataReads(chunks))
            == if id in w.keys && w.keys[id] != [] && Lower(response) == w.mac(w.keys[id], nonce)
               then (Streaming(id, true, []), []) else REFUSED
  {
    FirstFrameDecides(w, nonce, p, chunks);
    if id in w.keys {
      VerifyExactly(w.mac, w.keys[id], nonce, response);
    }
    hide Ingest.Run, DataReads, Flatten, Frame, Classify, Lower, IsHexDigest;
    assert [] + REFUSED.1 == REFUSED.1;
  }

  /** A malformed first frame is refused in every mode that has a handshake. */
  lemma MalformedFirstFrame(w: World, nonce: bytes, p: payload, chunks: seq<bytes>)
    requires !w.mode.Disabled? && Classify(w.json, p).Malformed?
    requires NonEmptyChunks(chunks) && Flatten(chunks) == Frame(p)
    ensures Ingest.Run(w, nonce, Start(w.mode), DataReads(chunks)) == REFUSED
  {
    FirstFrameDecides(w, nonce, p, chunks);
    hide Ingest.Run, DataReads, Flatten, Frame, Classify;
    assert [] + REFUSED.1 == REFUSED.1;
  }

  /** "AUTH:dev1", an AUTH frame without a MAC, is refused even where authentication is optional. */
  lemma AuthWithoutMac(w: World, nonce: bytes, chunks: seq<bytes>)
    requires w.mode.Optional?
    requires NonEmptyChunks(chunks) && Flatten(chunks) == Frame(Ascii("AUTH:") + Ascii("dev1"))
    ensures Ingest.Run(w, nonce, Start(w.mode), DataReads(chunks)) == REFUSED
  {
    var p: payload := Ascii("AUTH:") + Ascii("dev1");
    var body := Ascii("dev1");
    assert body == [0x64, 0x65, 0x76, 0x31];
    hide Ingest.Run, DataReads, Flatten, Frame, ParseAuth, Classify;
    AuthNeedsColon(body);
    assert p[..5] == Ascii("AUTH:");
    MalformedExactly(w.json, p);
    MalformedFirstFrame(w, nonce, p, chunks);
  }

  lemma DigestIsAscii(s: text)
    requires IsHexDigest(s)
    ensures IsAscii(s) && s != [] && !IsSpace(s[0]) && !IsSpace(s[|s| - 1])
  {
    assert s[0] in s && s[63] in s;
  }

  lemma LowerDigest(s: text)
    requires IsHexDigest(s)
    ensures Lower(s) == s
  {
    forall i | 0 <= i < |s| ensures Lower(s)[i] == s[i] {
      assert s[i] in s;
    }
  }

  /** What a device sends after its first read: nothing, an AUTH frame, or an exception instead. */
  datatype Reply = Silent | Answered(wire: bytes) | Failed

  /** `_authenticate` up to its own write: parse the challenge, sign the nonce, frame the answer. */
  function Authenticate(mac: Mac, id: text, key: Option<bytes>, data: bytes): Reply {
    var frames := Parse(data).0;
    if data == [] then Failed
    else if frames == [] || !(CHALLENGE_PREFIX <= frames[0]) || key.None? then Silent
    else if ParseChallenge(frames[0]).None? then Failed
    else
      var wire := FrameChecked(BuildAuth(id, mac(key.value, ParseChallenge(frames[0]).value)));
      if wire.None? then Failed else Answered(wire.value)
  }

  /** A device answers nothing exactly when it is not challenged or holds no key. */
  lemma SilentExactly(mac: Mac, id: text, key: Option<bytes>, data: bytes)
    ensures Authenticate(mac, id, key, data).Silent? <==>
              data != [] && (key.None? || Parse(data).0 == [] || !(Ascii("CHALLENGE:") <= Parse(data).0[0]))
  {
    WireNames();
    hide Parse, ParseChallenge, FrameChecked, BuildAuth;
  }

  lemma ReplyToChallenge(mac: Mac, id: text, key: bytes, nonce: bytes)
    requires |BuildChallenge(nonce)| <= MAX_FRAME
    ensures var wire := FrameChecked(BuildAuth(id, mac(key, nonce)));
            Authenticate(mac, id, Some(key), Frame(BuildChallenge(nonce)))
            == if wire.None? then Failed else Answered(wire.value)
  {
    var p: payload := BuildChallenge(nonce);
    assert p[..|CHALLENGE_PREFIX|] == CHALLENGE_PREFIX;
    ChallengeRoundTrip(nonce);
    OneFrameStream(p);
    hide Parse, Frame, BuildChallenge, ParseChallenge, BuildAuth, FrameChecked;
  }

  /**
    * Challenge and answer end to end: a device answering the challenge it was sent is let in exactly
    * when its key signs this nonce as the registered key of its id does.
    */
  lemma ChallengeAndAnswer(w: World, nonce: bytes, id: text, key: bytes, chunks: seq<bytes>)
    requires !w.mode.Disabled? && |BuildChallenge(nonce)| <= MAX_FRAME
    requires IsAscii(id) && id != [] && COLON !in id && Strip(id) == id
    requires IsHexDigest(w.mac(key, nonce)) && (id in w.keys ==> IsHexDigest(w.mac(w.keys[id], nonce)))
    requires NonEmptyChunks(chunks)
    requires Authenticate(w.mac, id, Some(key), Frame(BuildChallenge(nonce))) == Answered(Flatten(chunks))
    ensures Ingest.Run(w, nonce, Start(w.mode), DataReads(chunks))
            == if id in w.keys && w.keys[id] != [] && w.mac(key, nonce) == w.mac(w.keys[id], nonce)
               then (Streaming(id, true, []), []) else REFUSED
  {
    var digest := w.mac(key, nonce);
    ReplyToChallenge(w.mac, id, key, nonce);
    StripKeeps(id);
    DigestIsAscii(digest);
    LowerDigest(digest);
    hide Ingest.Run, DataReads, Flatten, Frame, Strip, Authenticate, Lower, BuildChallenge, IsSpace, IsAscii;
    ClassifyAuth(w.json, id, digest);
    AuthAnswer(w, nonce, BuildAuth(id, digest), id, digest, chunks);
  }

  /** A first frame that is not AUTH: refused in required mode, otherwise put back for the main loop. */
  lemma LegacyFirstFrame(w: World, nonce: bytes, p: payload, chunks: seq<bytes>)
    requires !w.mode.Disabled? && (var k := Classify(w.json, p); !k.Auth? && !k.Malformed?)
    requires NonEmptyChunks(chunks) && Flatten(chunks) == Frame(p)
    ensures Ingest.Run(w, nonce, Start(w.mode), DataReads(chunks))
            == if w.mode.Required? then REFUSED else
                 var k := Classify(w.json, p);
                 (Streaming(if k.Hello? then k.id else UNKNOWN, false, Frame(p)), [])
  {
    FirstFrameDecides(w, nonce, p, chunks);
    hide Ingest.Run, DataReads, Flatten, Frame, Classify;
    assert [] + REFUSED.1 == REFUSED.1 && Frame(p) + [] == Frame(p);
  }
}
