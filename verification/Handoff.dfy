/**
  * From the handshake to the main loop (server/ingest.py): when the bytes that `_read_frame` hands
  * back are the rest of the stream.
  *
  * The code returns the partial tail before the later frames. The two orders agree exactly when
  * both pieces are repetitions of one block, in particular when either is empty.
  */
module Handoff {
  import opened Bytes
  import opened Protocol
  import opened Ingest

  // ---------------------------------------------------------------------
  // Commuting byte strings
  // ---------------------------------------------------------------------

  function Repeat(block: bytes, n: nat): bytes {
    if n == 0 then [] else block + Repeat(block, n - 1)
  }

  lemma {:induction false} RepeatAdd(block: bytes, m: nat, n: nat)
    ensures Repeat(block, m) + Repeat(block, n) == Repeat(block, m + n)
  {
    if m == 0 {
      assert [] + Repeat(block, n) == Repeat(block, n);
    } else {
      RepeatAdd(block, m - 1, n);
      Assoc(block, Repeat(block, m - 1), Repeat(block, n));
    }
  }

  lemma {:induction false} CommonBlock(u: bytes, v: bytes) returns (block: bytes, m: nat, n: nat)
    requires u + v == v + u
    ensures u == Repeat(block, m) && v == Repeat(block, n)
    decreases |u| + |v|
  {
    if u == [] {
      block, m, n := v, 0, 1;
      assert Repeat(v, 1) == v + Repeat(v, 0) == v;
    } else if v == [] {
      block, m, n := u, 1, 0;
      assert Repeat(u, 1) == u + Repeat(u, 0) == u;
    } else if |u| <= |v| {
      var w := PrefixOfCommuting(u, v);
      var n';
      block, m, n' := CommonBlock(u, w);
      RepeatAdd(block, m, n');
      n := m + n';
    } else {
      var w := PrefixOfCommuting(v, u);
      var m';
      block, m', n := CommonBlock(w, v);
      RepeatAdd(block, n, m');
      m := n + m';
    }
  }

  lemma PrefixOfCommuting(u: bytes, v: bytes) returns (w: bytes)
    requires u + v == v + u && |u| <= |v|
    ensures v == u + w && u + w == w + u
  {
    w := v[|u|..];
    assert u == (u + v)[..|u|] == (v + u)[..|u|] == v[..|u|];
    assert v == u + w;
    assert u + w == (u + v)[|u|..] == (v + u)[|u|..] == w + u;
  }

  ghost predicate SameBlocks(u: bytes, v: bytes) {
    exists block: bytes, m: nat, n: nat :: u == Repeat(block, m) && v == Repeat(block, n)
  }

  /** Two byte strings can be swapped exactly when both repeat one block. */
  lemma CommuteIffSameBlocks(u: bytes, v: bytes)
    ensures u + v == v + u <==> SameBlocks(u, v)
  {
    if u + v == v + u {
      var block, m, n := CommonBlock(u, v);
      assert u == Repeat(block, m) && v == Repeat(block, n);
    }
    if SameBlocks(u, v) {
      var block: bytes, m: nat, n: nat :| u == Repeat(block, m) && v == Repeat(block, n);
      RepeatAdd(block, m, n);
      RepeatAdd(block, n, m);
    }
  }

  // ---------------------------------------------------------------------
  // The order at the handoff
  // ---------------------------------------------------------------------

  /** The tail and the later frames repeat one block: no later frame, no tail, or a coincidence. */
  ghost predicate OrderHarmless(buf: bytes)
    requires Parse(buf).0 != []
  {
    SameBlocks(Parse(buf).1, FrameAll(Parse(buf).0[1..]))
  }

  lemma HarmlessWhenOnePieceIsEmpty(buf: bytes)
    requires Parse(buf).0 != []
    requires Parse(buf).1 == [] || |Parse(buf).0| == 1
    ensures OrderHarmless(buf)
  {
    var tail, later := Parse(buf).1, FrameAll(Parse(buf).0[1..]);
    assert tail + later == later + tail;
    CommuteIffSameBlocks(tail, later);
  }

  /** Nothing is lost or reordered when the first frame is put back before the intended leftover. */
  lemma IntendedOrderRebuilds(buf: bytes)
    requires Parse(buf).0 != []
    ensures Frame(Parse(buf).0[0]) + IntendedLeftover(buf) == buf
  {
    var frames, rest := Parse(buf).0, Parse(buf).1;
    ParseRebuilds(buf);
    Assoc(Frame(frames[0]), FrameAll(frames[1..]), rest);
  }

  /** As written, the first frame and the leftover are the buffer exactly when the order is harmless. */
  lemma LeftoverRebuildsIff(buf: bytes)
    requires Parse(buf).0 != []
    ensures Frame(Parse(buf).0[0]) + Leftover(buf) == buf <==> OrderHarmless(buf)
  {
    var first := Frame(Parse(buf).0[0]);
    IntendedOrderRebuilds(buf);
    CommuteIffSameBlocks(Parse(buf).1, FrameAll(Parse(buf).0[1..]));
    if first + Leftover(buf) == buf {
      SplitEqual(first, Leftover(buf), first, IntendedLeftover(buf));
    }
  }

  lemma SmallFrames()
    ensures Frame([]) == [0, 0] && Frame([1]) == [0, 1, 1] && Frame([2]) == [0, 1, 2]
  {
    assert Be(0, 1) == Be(0, 0) + [0];
    assert Be(0, 2) == Be(0, 1) + [0] && Be(1, 2) == Be(0, 1) + [1];
  }

  lemma ParseTwo(p: payload, q: payload, rest: bytes)
    requires Incomplete(rest)
    ensures Parse(Frame(p) + Frame(q) + rest) == ([p, q], rest)
  {
    OneFrameAll(p);
    OneFrameAll(q);
    FrameAllConcat([p], [q]);
    assert [p] + [q] == [p, q];
    ParseFramed([p, q], rest);
  }

  /** A buffer on which the written order loses the stream: frames [1] and [2], then one byte 0. */
  lemma LeftoverReorders()
    ensures var buf: bytes := [0, 1, 1, 0, 1, 2, 0];
            && Parse(buf) == ([[1], [2]], [0])
            && Leftover(buf) == [0, 0, 1, 2] && IntendedLeftover(buf) == [0, 1, 2, 0]
            && Parse(Leftover(buf)).0 == [[]] && Parse(IntendedLeftover(buf)).0 == [[2]]
  {
    SmallFrames();
    assert [0, 1, 1] + [0, 1, 2] + [0] == [0, 1, 1, 0, 1, 2, 0];
    assert [0, 1, 2] + [0] == [0, 1, 2, 0] && [0] + [0, 1, 2] == [0, 0, 1, 2] && [0, 0] + [1, 2] == [0, 0, 1, 2];
    ParseTwo([1], [2], [0]);
    ParseOne([2], [0]);
    ParseOne([], [1, 2]);
    OneFrameAll([2]);
    hide Parse, FrameAll, Frame;
    var frames: seq<payload> := [[1], [2]];
    assert frames[1..] == [[2]];
  }

  // ---------------------------------------------------------------------
  // What the main loop sees
  // ---------------------------------------------------------------------

  /** With this continuation the main loop sees the stream's frames with the first removed. */
  predicate Lossless(buf: bytes, later: bytes)
    requires Parse(buf).0 != []
  {
    && Parse(buf + later).0 != []
    && Parse(Leftover(buf) + later) == (Parse(buf + later).0[1..], Parse(buf + later).1)
  }

  lemma IntendedIsLossless(buf: bytes, later: bytes)
    requires Parse(buf).0 != []
    ensures Parse(buf + later).0 != []
    ensures Parse(IntendedLeftover(buf) + later) == (Parse(buf + later).0[1..], Parse(buf + later).1)
  {
    hide Parse, FrameAll, Frame, Incomplete;
    var frames, rest := Parse(buf).0, Parse(buf).1;
    var more := Parse(rest + later);
    ParseSplit(buf, later);
    ParseRebuilds(rest + later);
    assert (frames + more.0)[1..] == frames[1..] + more.0;
    FrameAllConcat(frames[1..], more.0);
    Assoc(FrameAll(frames[1..]), rest, later);
    Assoc(FrameAll(frames[1..]), FrameAll(more.0), more.1);
    ParseFramed(frames[1..] + more.0, more.1);
  }

  /** Handing the leftover over loses nothing if the order is harmless; if not, every continuation is corrupted. */
  lemma LosslessIff(buf: bytes, later: bytes)
    requires Parse(buf).0 != []
    ensures Lossless(buf, later) <==> OrderHarmless(buf)
  {
    CommuteIffSameBlocks(Parse(buf).1, FrameAll(Parse(buf).0[1..]));
    IntendedIsLossless(buf, later);
    if Lossless(buf, later) {
      assert Parse(Leftover(buf) + later) == Parse(IntendedLeftover(buf) + later);
      ParseRebuilds(Leftover(buf) + later);
      ParseRebuilds(IntendedLeftover(buf) + later);
      SplitEqual(Leftover(buf), later, IntendedLeftover(buf), later);
    }
  }

  /** The handshake ends with the read that completes the first frame. */
  lemma {:induction false} HandshakeReads(w: World, nonce: bytes, buf: bytes, chunks: seq<bytes>)
    requires chunks != [] && NonEmptyChunks(chunks)
    requires Parse(buf + Flatten(chunks[..|chunks| - 1])).0 == []
    ensures Run(w, nonce, Handshaking(buf), DataReads(chunks))
            == Step(w, nonce, Handshaking(buf + Flatten(chunks[..|chunks| - 1])), Data(chunks[|chunks| - 1]))
    decreases |chunks|
  {
    SplitReads(chunks);
    if |chunks| == 1 {
      assert buf + Flatten(chunks[..0]) == buf;
      assert DataReads(chunks)[1..] == [];
      var first := Step(w, nonce, Handshaking(buf), Data(chunks[0])).1;
      assert first + [] == first;
    } else {
      var front := chunks[..|chunks| - 1];
      assert Flatten(front) == chunks[0] + Flatten(front[1..]) && front[1..] == chunks[1..][..|chunks| - 2];
      Assoc(buf, chunks[0], Flatten(front[1..]));
      ParseSplit(buf + chunks[0], Flatten(front[1..]));
      HandshakeReads(w, nonce, buf + chunks[0], chunks[1..]);
      var rest := Run(w, nonce, Handshaking(buf + chunks[0]), DataReads(chunks[1..])).1;
      assert [] + rest == rest;
    }
  }

  /** What the main loop should be given: the stream without the AUTH frame, or all of it. */
  function Forwarded(authed: bool, stream: bytes): (seq<payload>, bytes)
    requires Parse(stream).0 != []
  {
    (if authed then Parse(stream).0[1..] else Parse(stream).0, Parse(stream).1)
  }

  lemma DecideShape(w: World, nonce: bytes, first: payload, leftover: bytes)
    ensures var start := Decide(w, nonce, first, leftover);
            start.Streaming? ==> start.buf == if start.authed then leftover else Frame(first) + leftover
  {
    hide Classify, Frame;
  }

  /**
    * Once a later chunk arrives after an accepted handshake, the main loop has processed the whole
    * stream's frames: without the AUTH frame when it authenticated, with the first frame put back
    * when it did not.
    */
  lemma HandoffForwardsStream(w: World, nonce: bytes, buf: bytes, later: seq<bytes>)
    requires Parse(buf).0 != [] && OrderHarmless(buf)
    requires later != [] && NonEmptyChunks(later)
    requires Decide(w, nonce, Parse(buf).0[0], Leftover(buf)).Streaming?
    ensures Parse(buf + Flatten(later)).0 != []
    ensures var start := Decide(w, nonce, Parse(buf).0[0], Leftover(buf));
            Run(w, nonce, start, DataReads(later))
            == Streamed(w, start.authed, start.imei, Forwarded(start.authed, buf + Flatten(later)))
  {
    var start := Decide(w, nonce, Parse(buf).0[0], Leftover(buf));
    var all := Flatten(later);
    assert all != [] by {
      assert later[0] in later && all == later[0] + Flatten(later[1..]);
    }
    ChunkingIndependence(w, nonce, start.imei, start.authed, start.buf, later);
    DecideShape(w, nonce, Parse(buf).0[0], Leftover(buf));
    LosslessIff(buf, all);
    LeftoverRebuildsIff(buf);
    hide Parse, Flatten, SameBlocks, Frame, Leftover, DataReads, Streamed, Decide, Run;
    assert Lossless(buf, all);
  }

  lemma {:induction false} RunConcat(w: World, nonce: bytes, phase: Phase, a: seq<Read>, b: seq<Read>)
    ensures var (p, first) := Run(w, nonce, phase, a);
            var (q, second) := Run(w, nonce, p, b);
            Run(w, nonce, phase, a + b) == (q, first + second)
    decreases |a|
  {
    hide Step;
    if a == [] {
      assert a + b == b;
      var records := Run(w, nonce, phase, b).1;
      assert [] + records == records;
    } else {
      var (mid, first) := Step(w, nonce, phase, a[0]);
      assert (a + b)[0] == a[0] && (a + b)[1..] == a[1..] + b;
      RunConcat(w, nonce, mid, a[1..], b);
      var (p, second) := Run(w, nonce, mid, a[1..]);
      Assoc(first, second, Run(w, nonce, p, b).1);
    }
  }

  /** Without a complete frame the handshake goes on waiting. */
  lemma {:induction false} StillWaiting(w: World, nonce: bytes, buf: bytes, chunks: seq<bytes>)
    requires NonEmptyChunks(chunks) && Parse(buf + Flatten(chunks)).0 == []
    ensures Run(w, nonce, Handshaking(buf), DataReads(chunks)) == (Handshaking(buf + Flatten(chunks)), [])
    decreases |chunks|
  {
    if chunks == [] {
      assert buf + Flatten(chunks) == buf;
    } else {
      SplitReads(chunks);
      Assoc(buf, chunks[0], Flatten(chunks[1..]));
      ParseSplit(buf + chunks[0], Flatten(chunks[1..]));
      StillWaiting(w, nonce, buf + chunks[0], chunks[1..]);
      var none: seq<Record> := [];
      assert none + none == none;
    }
  }

  /** A device that never completes a frame is denied when it falls silent or closes, but not when the connection breaks. */
  lemma SilentHandshake(w: World, nonce: bytes, chunks: seq<bytes>, end: Read)
    requires !w.mode.Disabled? && NonEmptyChunks(chunks) && Parse(Flatten(chunks)).0 == []
    requires end in {TimedOut, Broken, Data([])}
    ensures Run(w, nonce, Start(w.mode), DataReads(chunks) + [end])
            == (Closed(UNKNOWN, end != Broken), [Record(DeviceEvents, UNKNOWN, Disconnected)])
  {
    var all := Flatten(chunks);
    assert [] + all == all;
    hide Flatten, DataReads, Parse;
    StillWaiting(w, nonce, [], chunks);
    RunConcat(w, nonce, Handshaking([]), DataReads(chunks), [end]);
    var none: seq<Record> := [];
    var bye := [Record(DeviceEvents, UNKNOWN, Disconnected)];
    assert none + bye == bye && bye + none == bye;
    assert Step(w, nonce, Handshaking(all), end) == (Closed(UNKNOWN, end != Broken), bye);
    assert Run(w, nonce, Handshaking(all), [end]) == (Closed(UNKNOWN, end != Broken), bye);
  }

  lemma HandshakeOutcome(w: World, nonce: bytes, early: seq<bytes>)
    requires early != [] && NonEmptyChunks(early)
    requires Parse(Flatten(early[..|early| - 1])).0 == []
    requires Parse(Flatten(early)).0 != []
    requires Decide(w, nonce, Parse(Flatten(early)).0[0], Leftover(Flatten(early))).Streaming?
    ensures Run(w, nonce, Handshaking([]), DataReads(early))
            == (Decide(w, nonce, Parse(Flatten(early)).0[0], Leftover(Flatten(early))), [])
  {
    hide Parse, Flatten, DataReads, Decide, Leftover, Run, Close, Classify;
    var n := |early| - 1;
    var front, last := Flatten(early[..n]), early[n];
    assert early[..n] + [last] == early && last in early;
    FlattenSnoc(early[..n], last);
    assert [] + front == front;
    HandshakeReads(w, nonce, [], early);
  }

  /**
    * A whole connection: reads up to the one that completes the first frame, then at least one
    * more. An accepted connection has processed exactly the frames of everything received.
    */
  lemma ConnectionForwardsStream(w: World, nonce: bytes, early: seq<bytes>, later: seq<bytes>)
    requires !w.mode.Disabled?
    requires early != [] && NonEmptyChunks(early) && later != [] && NonEmptyChunks(later)
    requires Parse(Flatten(early[..|early| - 1])).0 == []
    requires Parse(Flatten(early)).0 != [] && OrderHarmless(Flatten(early))
    requires Decide(w, nonce, Parse(Flatten(early)).0[0], Leftover(Flatten(early))).Streaming?
    ensures var start := Decide(w, nonce, Parse(Flatten(early)).0[0], Leftover(Flatten(early)));
            var stream := Flatten(early) + Flatten(later);
            && Parse(stream).0 != []
            && Run(w, nonce, Start(w.mode), DataReads(early) + DataReads(later))
               == Streamed(w, start.authed, start.imei, Forwarded(start.authed, stream))
  {
    var start := Decide(w, nonce, Parse(Flatten(early)).0[0], Leftover(Flatten(early)));
    HandshakeOutcome(w, nonce, early);
    HandoffForwardsStream(w, nonce, Flatten(early), later);
    RunConcat(w, nonce, Handshaking([]), DataReads(early), DataReads(later));
    hide Parse, Flatten, SameBlocks, DataReads, Decide, Forwarded, Streamed, Leftover, OrderHarmless, Run;
    var records := Run(w, nonce, start, DataReads(later)).1;
    assert [] + records == records;
  }

  /** Frames left over from the handshake wait for the next chunk: if the stream ends first, they are never processed. */
  lemma HandoffNeedsAnotherChunk(w: World, nonce: bytes, early: seq<bytes>, end: Read)
    requires !w.mode.Disabled? && early != [] && NonEmptyChunks(early)
    requires Parse(Flatten(early[..|early| - 1])).0 == []
    requires Parse(Flatten(early)).0 != []
    requires Decide(w, nonce, Parse(Flatten(early)).0[0], Leftover(Flatten(early))).Streaming?
    requires end in {TimedOut, Broken, Data([])}
    ensures var start := Decide(w, nonce, Parse(Flatten(early)).0[0], Leftover(Flatten(early)));
            Run(w, nonce, Start(w.mode), DataReads(early) + [end])
            == (Closed(start.imei, false), [Record(DeviceEvents, start.imei, Disconnected)])
  {
    hide Parse, Flatten, DataReads, Decide, Leftover;
    var start := Decide(w, nonce, Parse(Flatten(early)).0[0], Leftover(Flatten(early)));
    HandshakeOutcome(w, nonce, early);
    RunConcat(w, nonce, Handshaking([]), DataReads(early), [end]);
    var bye := [Record(DeviceEvents, start.imei, Disconnected)];
    var none: seq<Record> := [];
    assert bye + none == bye && none + bye == bye;
    assert Step(w, nonce, start, end) == (Closed(start.imei, false), bye);
    assert Run(w, nonce, start, [end]) == (Closed(start.imei, false), bye);
  }

  lemma {:induction false} SilentFramesKeepId(json: bytes -> Json, authed: bool, imei: text, frames: seq<payload>)
    requires Process(json, authed, imei, frames).records == []
    ensures Process(json, authed, imei, frames).imei == imei
    decreases |frames|
  {
    if frames != [] {
      var one := OneFrame(json, authed, imei, frames[0]);
      hide Classify;
      if !one.raised {
        var rest := Process(json, authed, one.imei, frames[1..]).records;
        assert |one.records + rest| == 0;
        SilentFramesKeepId(json, authed, one.imei, frames[1..]);
      }
    }
  }

  /** A pass of the main loop and then the end of the stream: its records and one disconnect. */
  lemma StreamedThenEnd(w: World, nonce: bytes, authed: bool, imei: text, parsed: (seq<payload>, bytes), end: Read)
    requires end in {TimedOut, Broken, Data([])}
    ensures var out := Process(w.json, authed, imei, parsed.0);
            var (p, records) := Streamed(w, authed, imei, parsed);
            records + Run(w, nonce, p, [end]).1 == out.records + [Record(DeviceEvents, out.imei, Disconnected)]
  {
    hide Process;
    var (p, records) := Streamed(w, authed, imei, parsed);
    var (q, more) := Step(w, nonce, p, end);
    assert Run(w, nonce, p, [end]) == (q, more) by {
      assert Run(w, nonce, q, [end][1..]) == (q, []);
      assert more + [] == more;
    }
    assert records + [] == records;
  }

  /**
    * An accepted connection that ends has recorded everything its frames call for, if and only if
    * another chunk followed the handshake or the frames call for nothing.
    */
  lemma NothingForgottenAtEndIff(w: World, nonce: bytes, early: seq<bytes>, later: seq<bytes>, end: Read)
    requires !w.mode.Disabled?
    requires early != [] && NonEmptyChunks(early) && NonEmptyChunks(later)
    requires Parse(Flatten(early[..|early| - 1])).0 == []
    requires Parse(Flatten(early)).0 != [] && OrderHarmless(Flatten(early))
    requires Decide(w, nonce, Parse(Flatten(early)).0[0], Leftover(Flatten(early))).Streaming?
    requires end in {TimedOut, Broken, Data([])}
    ensures var start := Decide(w, nonce, Parse(Flatten(early)).0[0], Leftover(Flatten(early)));
            var stream := Flatten(early) + Flatten(later);
            && Parse(stream).0 != []
            && var out := Process(w.json, start.authed, start.imei, Forwarded(start.authed, stream).0);
               (Run(w, nonce, Start(w.mode), DataReads(early) + DataReads(later) + [end]).1
                == out.records + [Record(DeviceEvents, out.imei, Disconnected)]
                <==> later != [] || out.records == [])
  {
    var start := Decide(w, nonce, Parse(Flatten(early)).0[0], Leftover(Flatten(early)));
    if later == [] {
      assert Flatten(early) + Flatten(later) == Flatten(early) && DataReads(early) + DataReads(later) == DataReads(early);
      hide Parse, Flatten, DataReads, Leftover, Decide, OrderHarmless, Forwarded, Run, Process;
      HandoffNeedsAnotherChunk(w, nonce, early, end);
      var out := Process(w.json, start.authed, start.imei, Forwarded(start.authed, Flatten(early)).0);
      if out.records == [] {
        SilentFramesKeepId(w.json, start.authed, start.imei, Forwarded(start.authed, Flatten(early)).0);
      }
    } else {
      hide Parse, Flatten, DataReads, Leftover, Decide, OrderHarmless, Forwarded, Streamed, Run, Process;
      ConnectionForwardsStream(w, nonce, early, later);
      RunConcat(w, nonce, Start(w.mode), DataReads(early) + DataReads(later), [end]);
      StreamedThenEnd(w, nonce, start.authed, start.imei, Forwarded(start.authed, Flatten(early) + Flatten(later)), end);
    }
  }
}
