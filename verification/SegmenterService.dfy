/** The segmenter's objects and loop (server/segmenter.py), proved against the segment machine. */
module SegmenterService {
  import opened Bytes
  import opened Protocol
  import opened OggCrc
  import opened OggPage
  import opened OggOpus
  import opened Segmenter

  // ---------------------------------------------------------------------
  // A writer that raises part-way
  // ---------------------------------------------------------------------

  /** Pages finished earlier are still finished. */
  lemma {:induction false} PlanDoneShort(packets: seq<bytes>, k: nat)
    requires k <= |packets|
    ensures Plan(packets[..k]).done <= Plan(packets).done
  {
    if k == |packets| {
      assert packets[..k] == packets;
    } else {
      var n := |packets| - 1;
      var init := packets[..n];
      assert init[..k] == packets[..k] && init + [packets[n]] == packets;
      PlanDoneShort(init, k);
      PlanSnoc(init, packets[n]);
      hide Plan, LaceAll, Lace;
    }
  }

  lemma {:induction false} DonePagesPrefix(c: Config, a: seq<seq<bytes>>, b: seq<seq<bytes>>)
    requires a <= b
    ensures DonePages(c, a) <= DonePages(c, b)
  {
    if |a| < |b| {
      hide AudioPage;
      assert a <= b[..|b| - 1];
      DonePagesPrefix(c, a, b[..|b| - 1]);
    } else {
      assert a == b;
    }
  }

  lemma DonePagesStay(c: Config, packets: seq<bytes>, k: nat)
    requires k <= |packets|
    ensures DonePages(c, Plan(packets[..k]).done) <= StreamPages(c, packets)
  {
    hide Plan, DonePages, StreamPages;
    PlanDoneShort(packets, k);
    DonePagesPrefix(c, Plan(packets[..k]).done, Plan(packets).done);
    LastPage(c, packets);
  }

  /** If a page written on the way cannot be packed, neither can the whole file. */
  lemma EarlyFailureIsFailure(c: Config, packets: seq<bytes>, k: nat)
    requires k <= |packets| && !AllEncodable(DonePages(c, Plan(packets[..k]).done))
    ensures Mux(c, packets).None?
  {
    hide Plan, DonePages, StreamPages, Encodable, EncodeAll;
    DonePagesStay(c, packets, k);
    var early, pages := DonePages(c, Plan(packets[..k]).done), StreamPages(c, packets);
    var p :| p in early && !Encodable(p);
    assert p in pages;
  }

  // ---------------------------------------------------------------------
  // One device's segment
  // ---------------------------------------------------------------------

  class DeviceSegment {
    const u: Setup
    const imei: text
    var startedAt: real
    var packets: seq<bytes>
    var serial: nat

    function State(): Seg
      reads this
    {
      Seg(packets, startedAt)
    }

    predicate Valid()
      reads this
    {
      serial == u.Serial(imei, startedAt)
    }

    constructor (u: Setup, imei: text, now: real)
      ensures Valid() && State() == Seg([], now) && this.u == u && this.imei == imei
    {
      this.u, this.imei := u, imei;
      startedAt, packets := now, [];
      serial := u.Serial(imei, now);
    }

    method Reset(now: real)
      modifies this
      ensures Valid() && State() == Seg([], now)
    {
      startedAt := now;
      packets := [];
      serial := u.Serial(imei, now);
    }

    method Add(packet: bytes) returns (full: bool)
      requires Valid()
      modifies this`packets
      ensures Valid() && State() == Seg(old(packets) + [packet], startedAt)
      ensures full == (|packets| >= u.Limit())
    {
      packets := packets + [packet];
      full := |packets| >= u.Limit();
    }

    /** The file and its duration; None where the writer raises. */
    method BuildOpus(table: seq<word>) returns (r: Option<(bytes, real)>)
      requires Valid() && IsCrcTable(table)
      ensures r == match Mux(u.Ogg(imei, startedAt), packets)
                   case None => None
                   case Some(file) => Some((file, DurationOf(packets)))
    {
      hide Mux, Plan, DonePages, AllEncodable, Setup.Serial, IsCrcTable, OggOpusWriter.Valid;
      var w := new OggOpusWriter(table, serial, 1, FRAME_SAMPLES, PRE_SKIP);
      assert w.c == u.Ogg(imei, startedAt);
      for k := 0 to |packets|
        invariant fresh(w) && w.Valid() && w.c == u.Ogg(imei, startedAt) && w.added == packets[..k]
      {
        assert packets[..k] + [packets[k]] == packets[..k + 1];
        var ok := w.AddPacket(packets[k]);
        if !ok {
          EarlyFailureIsFailure(w.c, packets, k + 1);
          return None;
        }
      }
      assert packets[..|packets|] == packets;
      var duration := w.DurationSeconds();
      var file := w.Finish();
      r := match file
        case None => None
        case Some(bytes_) => Some((bytes_, duration));
    }
  }

  // ---------------------------------------------------------------------
  // The service
  // ---------------------------------------------------------------------

  class Service {
    const u: Setup
    const table: seq<word>
    var order: seq<text>
    var segments: map<text, DeviceSegment>
    var uploaded: nat
    ghost var built: seq<Built>

    ghost predicate Valid()
      reads this`order, this`segments, this`uploaded, this`built, segments.Values
    {
      && IsCrcTable(table) && uploaded <= |built|
      && (forall id | id in segments :: segments[id].imei == id && segments[id].u == u && segments[id].Valid())
      && (forall a, b | a in segments && b in segments && a != b :: segments[a] != segments[b])
      && (forall id <- order :: id in segments)
    }

    ghost function Table(): (t: map<text, Seg>)
      reads this`segments, segments.Values
      ensures t.Keys == segments.Keys
    {
      map id | id in segments :: segments[id].State()
    }

    ghost function Now(raised: bool): State
      reads this, segments.Values
    {
      State(order, Table(), built, raised)
    }

    constructor (u: Setup, table: seq<word>)
      requires IsCrcTable(table)
      ensures Valid() && Now(false) == START && this.u == u
    {
      this.u, this.table := u, table;
      order, segments, uploaded, built := [], map[], 0, [];
    }

    /** `flush`; an upload may fail without consequence for the segment. */
    method FlushSegment(id: text, now: real, ghost cause: Cause) returns (raised: bool)
      requires Valid() && id in segments
      modifies this`uploaded, this`built, segments[id]
      ensures Valid() && order == old(order) && segments == old(segments)
      ensures Now(raised) == Segmenter.Flush(u, old(Now(false)), id, now, cause)
      ensures uploaded == old(uploaded) || (uploaded == old(uploaded) + 1 && |built| == |old(built)| + 1)
    {
      hide Mux, IsCrcTable, Valid, Table, Setup.Ogg;
      SegmentInTable(id);
      var seg := segments[id];
      if seg.packets == [] {
        return false;
      }
      var r := seg.BuildOpus(table);
      if r.None? {
        return true;
      }
      RecordFile(Built(id, seg.packets, r.value.0, cause));
      ResetIn(seg, id, now);
      raised := false;
    }

    /** The upload, which counts only when it succeeds. */
    method RecordFile(ghost b: Built)
      requires Valid()
      modifies this`uploaded, this`built
      ensures Valid() && Table() == old(Table()) && built == old(built) + [b]
      ensures uploaded == old(uploaded) || uploaded == old(uploaded) + 1
    {
      hide IsCrcTable;
      var stored: bool := *;
      if stored {
        uploaded := uploaded + 1;
      }
      built := built + [b];
    }

    method ResetIn(seg: DeviceSegment, id: text, now: real)
      requires Valid() && id in segments && segments[id] == seg
      modifies seg
      ensures Valid() && Table() == old(Table())[id := Seg([], now)]
    {
      hide IsCrcTable;
      seg.Reset(now);
      assert forall other | other in segments && other != id :: segments[other].State() == old(segments[other].State());
    }

    /** The idle tick. */
    method OnIdle(now: real) returns (raised: bool)
      requires Valid()
      modifies this`uploaded, this`built, segments.Values
      ensures Valid() && segments == old(segments)
      ensures Now(raised) == OnEvent(u, old(Now(false)), Idle(now))
    {
      hide Segmenter.Flush, IsCrcTable, FlushQuiet, Valid, Table;
      var cutoff := now - (u.segmentSeconds * 2) as real;
      ghost var start := Now(false);
      raised := false;
      QuietNothing(u, start, now, cutoff);
      for k := 0 to |order|
        invariant Valid() && order == old(order) && segments == old(segments) && !raised
        invariant Now(false) == FlushQuiet(u, start, order[..k], now, cutoff)
      {
        OrderInTable(k);
        QuietStep(u, start, order, k, now, cutoff);
        raised := FlushIfQuiet(order[k], now, cutoff);
        if raised {
          QuietRaisedStays(u, start, order, k + 1, now, cutoff);
          return;
        }
      }
      assert order[..|order|] == order;
    }

    method FlushIfQuiet(id: text, now: real, cutoff: real) returns (raised: bool)
      requires Valid() && id in segments
      modifies this`uploaded, this`built, segments.Values
      ensures Valid() && order == old(order) && segments == old(segments)
      ensures var before := old(Now(false));
              Now(raised) == if before.segs[id].packets != [] && before.segs[id].startedAt < cutoff
                             then Segmenter.Flush(u, before, id, now, Quiet) else before
    {
      hide Segmenter.Flush, IsCrcTable;
      raised := false;
      if segments[id].packets != [] && segments[id].startedAt < cutoff {
        raised := FlushSegment(id, now, Quiet);
      }
    }

    /** One consumed message. */
    method OnMessage(key: bytes, value: bytes, now: real) returns (raised: bool)
      requires Valid()
      modifies this, segments.Values
      ensures Valid() && fresh(segments.Values - old(segments.Values))
      ensures Now(raised) == OnEvent(u, old(Now(false)), Message(key, value, now))
    {
      hide Segmenter.Flush, IsCrcTable;
      if key != [] && !u.utf8(key) {
        return true;
      }
      var id := if key == [] then UNKNOWN else key;
      var rtp := ParseAudio(value);
      if rtp.None? {
        return false;
      }
      var full := Store(id, rtp.value.opus, now);
      raised := false;
      if full {
        raised := FlushSegment(id, now, Full);
      }
    }

    /** Find or create the device's segment and add the packet. */
    method Store(id: text, packet: bytes, now: real) returns (full: bool)
      requires Valid()
      modifies this, segments.Values
      ensures Valid() && fresh(segments.Values - old(segments.Values)) && id in segments
      ensures Now(false) == Buffered(old(Now(false)), id, packet, now)
      ensures full == (|Table()[id].packets| >= u.Limit())
    {
      hide IsCrcTable, Valid, Table, Buffered, Setup.Limit;
      ghost var before := Now(false);
      var seg := Segment(id, now);
      BufferedInTwo(before, id, packet, now);
      ghost var mid := Table();
      SegmentInTable(id);
      full := AddTo(seg, id, packet);
    }

    lemma OrderInTable(k: nat)
      requires Valid() && k < |order|
      ensures order[k] in segments && segments[order[k]] in segments.Values
    {}

    lemma SegmentInTable(id: text)
      requires Valid() && id in segments
      ensures Table()[id] == segments[id].State()
      ensures segments[id].Valid() && segments[id].imei == id && segments[id].u == u && IsCrcTable(table)
    {}

    method Segment(id: text, now: real) returns (seg: DeviceSegment)
      requires Valid()
      modifies this`segments, this`order
      ensures Valid() && id in segments && segments[id] == seg && fresh(segments.Values - old(segments.Values))
      ensures order == if id in old(segments) then old(order) else old(order) + [id]
      ensures Table() == if id in old(segments) then old(Table()) else old(Table())[id := Seg([], now)]
    {
      hide IsCrcTable;
      if id !in segments {
        var created := new DeviceSegment(u, id, now);
        segments := segments[id := created];
        order := order + [id];
      }
      seg := segments[id];
    }

    method AddTo(seg: DeviceSegment, id: text, packet: bytes) returns (full: bool)
      requires Valid() && id in segments && segments[id] == seg
      modifies seg
      ensures Valid()
      ensures Table() == old(Table())[id := Seg(old(seg.packets) + [packet], old(seg.startedAt))]
      ensures full == (|Table()[id].packets| >= u.Limit())
    {
      hide IsCrcTable;
      full := seg.Add(packet);
      assert forall other | other in segments && other != id :: segments[other].State() == old(segments[other].State());
    }

    /** The `finally` clause. */
    method Shut(now: real) returns (raised: bool)
      requires Valid()
      modifies this`uploaded, this`built, segments.Values
      ensures Valid()
      ensures Now(raised) == Finish(u, old(Now(false)), now)
    {
      hide Segmenter.Flush, IsCrcTable, FlushAll, Valid, Table;
      ghost var start := Now(false);
      raised := false;
      AllNothing(u, start, now);
      for k := 0 to |order|
        invariant Valid() && order == old(order) && segments == old(segments) && !raised
        invariant Now(false) == FlushAll(u, start, order[..k], now)
      {
        OrderInTable(k);
        AllStep(u, start, order, k, now);
        raised := FlushSegment(order[k], now, Shutdown);
        if raised {
          AllRaisedStays(u, start, order, k + 1, now);
          return;
        }
      }
      assert order[..|order|] == order;
    }

    /** `run`: consume until interrupted or an exception, then flush everything; whether an exception came out. */
    method RunLoop(events: seq<Event>, end: real) returns (raised: bool)
      requires Valid() && Now(false) == START
      modifies this, segments.Values
      ensures Valid()
      ensures var last := Finish(u, Consume(u, events), end);
              Now(last.raised) == last && raised == RunRaises(u, events, end)
    {
      hide OnEvent, IsCrcTable, Table;
      var failed := false;
      var k := 0;
      while k < |events| && !failed
        invariant 0 <= k <= |events| && Valid()
        invariant fresh(segments.Values - old(segments.Values))
        invariant Now(failed) == Consume(u, events[..k])
      {
        assert events[..k + 1][..k] == events[..k];
        match events[k] {
          case Message(key, value, now) => failed := OnMessage(key, value, now);
          case Idle(now) => failed := OnIdle(now);
          case BrokerError => BrokerErrorIgnored(u, Now(false));
        }
        k := k + 1;
      }
      if failed {
        ConsumeRaisedStays(u, events, k);
      } else {
        assert events[..k] == events;
      }
      var stuck := Shut(end);
      raised := failed || stuck;
    }
  }

  lemma BufferedInTwo(s: Segmenter.State, id: text, packet: bytes, now: real)
    ensures var mid := if id in s.segs then s.segs else s.segs[id := Seg([], now)];
            Buffered(s, id, packet, now)
            == State(if id in s.segs then s.order else s.order + [id],
                     mid[id := Seg(mid[id].packets + [packet], mid[id].startedAt)], s.built, s.raised)
  {}

  lemma QuietNothing(u: Setup, s: Segmenter.State, now: real, cutoff: real)
    ensures FlushQuiet(u, s, s.order[..0], now, cutoff) == s
  {}

  lemma QuietStep(u: Setup, s: Segmenter.State, ids: seq<text>, k: nat, now: real, cutoff: real)
    requires k < |ids| && !FlushQuiet(u, s, ids[..k], now, cutoff).raised && ids[k] in FlushQuiet(u, s, ids[..k], now, cutoff).segs
    ensures ids[k] in ids
    ensures var before := FlushQuiet(u, s, ids[..k], now, cutoff);
            FlushQuiet(u, s, ids[..k + 1], now, cutoff)
            == if before.segs[ids[k]].packets != [] && before.segs[ids[k]].startedAt < cutoff
               then Segmenter.Flush(u, before, ids[k], now, Quiet) else before
  {
    hide Segmenter.Flush;
    assert ids[..k + 1][..k] == ids[..k];
  }

  lemma AllNothing(u: Setup, s: Segmenter.State, now: real)
    ensures FlushAll(u, s, s.order[..0], now) == s
  {}

  lemma AllStep(u: Setup, s: Segmenter.State, ids: seq<text>, k: nat, now: real)
    requires k < |ids| && !FlushAll(u, s, ids[..k], now).raised && ids[k] in FlushAll(u, s, ids[..k], now).segs
    ensures FlushAll(u, s, ids[..k + 1], now) == Segmenter.Flush(u, FlushAll(u, s, ids[..k], now), ids[k], now, Shutdown)
  {
    hide Segmenter.Flush;
    assert ids[..k + 1][..k] == ids[..k];
  }

  lemma BrokerErrorIgnored(u: Setup, s: Segmenter.State)
    ensures OnEvent(u, s, BrokerError) == s
  {}

  lemma {:induction false} QuietRaisedStays(u: Setup, s: Segmenter.State, ids: seq<text>, k: nat, now: real, cutoff: real)
    requires k <= |ids| && FlushQuiet(u, s, ids[..k], now, cutoff).raised
    ensures FlushQuiet(u, s, ids, now, cutoff) == FlushQuiet(u, s, ids[..k], now, cutoff)
  {
    if k == |ids| {
      assert ids[..k] == ids;
    } else {
      hide Segmenter.Flush;
      assert ids[..|ids| - 1][..k] == ids[..k];
      QuietRaisedStays(u, s, ids[..|ids| - 1], k, now, cutoff);
    }
  }

  lemma {:induction false} AllRaisedStays(u: Setup, s: Segmenter.State, ids: seq<text>, k: nat, now: real)
    requires k <= |ids| && FlushAll(u, s, ids[..k], now).raised
    ensures FlushAll(u, s, ids, now) == FlushAll(u, s, ids[..k], now)
  {
    if k == |ids| {
      assert ids[..k] == ids;
    } else {
      hide Segmenter.Flush;
      assert ids[..|ids| - 1][..k] == ids[..k];
      AllRaisedStays(u, s, ids[..|ids| - 1], k, now);
    }
  }
}
