/** What a finished Ogg Opus stream promises: it demuxes back, and its pages are well formed. */
module OggStream {
  import opened Bytes
  import opened OggPage
  import opened OggOpus

  // ---------------------------------------------------------------------
  // Demuxing gives the packets back
  // ---------------------------------------------------------------------

  /** Each page carries whole packets only: the groups, in order. */
  ghost predicate Carries(pages: seq<Page>, groups: seq<seq<bytes>>) {
    && |pages| == |groups|
    && forall i | 0 <= i < |pages| ::
         && pages[i].segments == LaceAll(groups[i])
         && pages[i].payload == Flatten(groups[i])
         && !HasFlag(pages[i].flags, FLAG_CONTINUED)
  }

  lemma CarriesSums(pages: seq<Page>, groups: seq<seq<bytes>>)
    requires Carries(pages, groups)
    ensures forall p <- pages :: Sum(p.segments) == |p.payload|
  {
    forall i | 0 <= i < |pages| ensures Sum(pages[i].segments) == |pages[i].payload| {
      SumLaceAll(groups[i]);
    }
  }

  lemma {:induction false} ReassembleCarried(pages: seq<Page>, groups: seq<seq<bytes>>)
    requires Carries(pages, groups)
    requires forall p <- pages :: Sum(p.segments) == |p.payload|
    ensures Reassemble(pages, []) == Some(Flatten(groups))
  {
    if pages != [] {
      UnlaceLace(groups[0]);
      ReassembleCarried(pages[1..], groups[1..]);
    }
  }

  function HeaderGroups(c: Config): (r: seq<seq<bytes>>)
    ensures |r| == 2
  {
    [[OpusHead(c.channels, c.preSkip)], [OpusTags()]]
  }

  /** The packets of the stream, page by page; the empty stream still closes one empty packet. */
  function StreamGroups(c: Config, packets: seq<bytes>): seq<seq<bytes>> {
    HeaderGroups(c) + if packets == [] then [[[]]] else Plan(packets).Groups()
  }

  /** One serial, consecutive numbers, BOS on page 0 only, and these flags on the last page. */
  ghost predicate Numbered(pages: seq<Page>, serial: nat, last: byte) {
    forall i | 0 <= i < |pages| ::
      && pages[i].serial == serial && pages[i].seqno == i
      && pages[i].flags == if i == 0 then FLAG_BOS else if i == |pages| - 1 then last else 0
  }

  lemma SinglePacketPage(packet: bytes)
    ensures LaceAll([packet]) == Lace(|packet|) && Flatten([packet]) == packet
  {
    LaceAllSnoc([], packet);
    FlattenSnoc([], packet);
    assert [] + [packet] == [packet];
    assert LaceAll([]) + Lace(|packet|) == Lace(|packet|);
    assert Flatten<byte>([]) + packet == packet;
  }

  lemma HeadersCarry(c: Config)
    ensures Carries(HeaderPages(c), HeaderGroups(c))
    ensures Numbered(HeaderPages(c), c.serial, 0)
  {
    SinglePacketPage(OpusHead(c.channels, c.preSkip));
    SinglePacketPage(OpusTags());
    hide OpusHead, OpusTags, LaceAll, Lace, Flatten;
  }

  lemma CarryOneMore(pages: seq<Page>, groups: seq<seq<bytes>>, p: Page, g: seq<bytes>, serial: nat)
    requires pages != [] && Carries(pages, groups) && Numbered(pages, serial, 0)
    requires p.segments == LaceAll(g) && p.payload == Flatten(g) && p.flags in {0, FLAG_EOS}
    requires p.serial == serial && p.seqno == |pages|
    ensures Carries(pages + [p], groups + [g]) && Numbered(pages + [p], serial, p.flags)
  {
    hide LaceAll, Flatten;
  }

  lemma {:induction false} DonePagesAre(c: Config, groups: seq<seq<bytes>>)
    ensures Carries(DonePages(c, groups), HeaderGroups(c) + groups)
    ensures Numbered(DonePages(c, groups), c.serial, 0)
  {
    hide HeaderPages, HeaderGroups, LaceAll, Flatten;
    if groups == [] {
      HeadersCarry(c);
      assert HeaderGroups(c) + [] == HeaderGroups(c);
    } else {
      DonePagesAre(c, groups[..|groups| - 1]);
    }
  }

  lemma {:induction false} StreamPagesAre(c: Config, packets: seq<bytes>)
    ensures Carries(StreamPages(c, packets), StreamGroups(c, packets))
    ensures Numbered(StreamPages(c, packets), c.serial, FLAG_EOS)
  {
    hide HeaderPages, HeaderGroups, Plan, LaceAll, Flatten, Carries, Numbered, DonePages, Layout.Groups;
    var groups := Plan(packets).Groups();
    PlanNonEmpty(packets);
    GroupsShape(Plan(packets));
    if packets == [] {
      EmptyStreamIs(c);
    } else {
      var init, last := groups[..|groups| - 1], groups[|groups| - 1];
      DonePagesAre(c, init);
      CarryOneMore(DonePages(c, init), HeaderGroups(c) + init, AudioPage(c, groups, FLAG_EOS), last, c.serial);
      assert HeaderGroups(c) + init + [last] == StreamGroups(c, packets);
    }
  }

  lemma EmptyStreamIs(c: Config)
    ensures Carries(HeaderPages(c) + [EmptyEosPage(c)], HeaderGroups(c) + [[[]]])
    ensures Numbered(HeaderPages(c) + [EmptyEosPage(c)], c.serial, FLAG_EOS)
  {
    HeadersCarry(c);
    SinglePacketPage([]);
    assert Lace(0) == [0];
    assert |HeaderPages(c)| == 2;
    hide HeaderPages, HeaderGroups, LaceAll, Flatten, Carries, Numbered;
    CarryOneMore(HeaderPages(c), HeaderGroups(c), EmptyEosPage(c), [[]], c.serial);
  }

  lemma StreamNotEmpty(c: Config, packets: seq<bytes>)
    ensures |StreamPages(c, packets)| >= 3
  {}

  /**
    * The round trip: a finished file parses completely, every checksum holds, and its packets are
    * OpusHead, OpusTags and then exactly the packets added. With nothing added the closing page
    * reads as one empty packet.
    */
  lemma DemuxMux(c: Config, packets: seq<bytes>)
    requires Mux(c, packets).Some?
    ensures Demux(Mux(c, packets).value)
            == Some([OpusHead(c.channels, c.preSkip), OpusTags()] + if packets == [] then [[]] else packets)
  {
    StreamNotEmpty(c, packets);
    hide StreamPages, StreamGroups, Carries, EncodeAll, Encodable, ParsePages, Reassemble, Sum, OpusHead, OpusTags;
    var pages, groups := StreamPages(c, packets), StreamGroups(c, packets);
    StreamPagesAre(c, packets);
    CarriesSums(pages, groups);
    ParseEncodeAll(pages);
    ReassembleCarried(pages, groups);
    StreamGroupsFlatten(c, packets);
    assert WellOrdered(pages);
  }

  lemma StreamGroupsFlatten(c: Config, packets: seq<bytes>)
    ensures Flatten(StreamGroups(c, packets))
            == [OpusHead(c.channels, c.preSkip), OpusTags()] + if packets == [] then [[]] else packets
  {
    hide OpusHead, OpusTags, Plan;
    var audio := if packets == [] then [[[]]] else Plan(packets).Groups();
    PlanKeepsPackets(packets);
    SingleGroup([[]]);
    SingleGroup([OpusHead(c.channels, c.preSkip)]);
    FlattenSnoc([[OpusHead(c.channels, c.preSkip)]], [OpusTags()]);
    FlattenConcat(HeaderGroups(c), audio);
  }

  lemma SingleGroup(g: seq<bytes>)
    ensures Flatten([g]) == g
  {
    assert Flatten<bytes>([g][1..]) == [];
  }

  /** The audio of a file: everything after the two header packets. */
  function AudioOf(file: bytes): Option<seq<bytes>> {
    match Demux(file)
    case None => None
    case Some(all) => if |all| < 2 then None else Some(all[2..])
  }

  /** The file gives back exactly the packets added, if and only if some packet was added. */
  lemma AudioOfMux(c: Config, packets: seq<bytes>)
    requires Mux(c, packets).Some?
    ensures AudioOf(Mux(c, packets).value) == Some(packets) <==> packets != []
  {
    DemuxMux(c, packets);
  }

  // ---------------------------------------------------------------------
  // When writing succeeds
  // ---------------------------------------------------------------------

  lemma {:induction false} DonePagesEncodable(c: Config, groups: seq<seq<bytes>>, total: nat)
    requires c.Valid() && |Flatten(groups)| <= total
    requires |groups| + 2 <= 0x1_0000_0000 && c.frameSamples * total < 0x8000_0000_0000_0000
    requires forall k | 0 <= k < |groups| :: |LaceAll(groups[k])| <= MAX_SEGMENTS
    ensures AllEncodable(DonePages(c, groups))
  {
    if groups == [] {
      HeadersEncodable(c);
    } else {
      var init, last := groups[..|groups| - 1], groups[|groups| - 1];
      assert init + [last] == groups;
      FlattenSnoc(init, last);
      DonePagesEncodable(c, init, total);
      MulMono(c.frameSamples, |Flatten(groups)|, total);
    }
  }

  lemma MulMono(a: nat, x: nat, y: nat)
    requires x <= y
    ensures a * x <= a * y
  {}

  /**
    * `finish` returns a file exactly when no packet needs more than 255 lacing values and the page
    * number and sample count still fit their fields.
    */
  lemma MuxSucceeds(c: Config, packets: seq<bytes>)
    requires c.Valid()
    ensures Mux(c, packets).Some? <==>
              && PacketsFit(packets)
              && |Plan(packets).Groups()| + 2 <= 0x1_0000_0000
              && c.frameSamples * |packets| < 0x8000_0000_0000_0000
  {
    hide HeaderPages, OpusHead, OpusTags, Plan, LaceAll, Lace, Flatten, DonePages, EncodeAll;
    var groups := Plan(packets).Groups();
    var n := |groups|;
    PlanKeepsPackets(packets);
    PlanNonEmpty(packets);
    LastPage(c, packets);
    StreamPagesAre(c, packets);
    if PacketsFit(packets) && n + 2 <= 0x1_0000_0000 && c.frameSamples * |packets| < 0x8000_0000_0000_0000 {
      PlanFits(packets);
      var init := if n == 0 then [] else groups[..n - 1];
      if n > 0 {
        FlattenSnoc(init, groups[n - 1]);
        assert init + [groups[n - 1]] == groups;
      }
      DonePagesEncodable(c, init, |packets|);
    }
    if Mux(c, packets).Some? {
      var pages := StreamPages(c, packets);
      assert Encodable(pages[|pages| - 1]);
      forall p | p in packets ensures |p| <= MAX_PACKET {
        assert p in Flatten(groups);
        forall k | 0 <= k < n ensures |LaceAll(groups[k])| <= MAX_SEGMENTS {
          assert pages[k + 2].segments == LaceAll(StreamGroups(c, packets)[k + 2]);
          assert Encodable(pages[k + 2]);
        }
        PagingBoundsPackets(groups, p);
      }
    }
  }

  // ---------------------------------------------------------------------
  // Granule positions
  // ---------------------------------------------------------------------

  /** Packets that end on a page: lacing values below 255. */
  function Ends(segments: bytes): nat {
    if segments == [] then 0 else Ends(segments[..|segments| - 1]) + if segments[|segments| - 1] < 255 then 1 else 0
  }

  function EndsUpTo(pages: seq<Page>): nat {
    if pages == [] then 0 else EndsUpTo(pages[..|pages| - 1]) + Ends(pages[|pages| - 1].segments)
  }

  lemma {:induction false} EndsConcat(a: bytes, b: bytes)
    ensures Ends(a + b) == Ends(a) + Ends(b)
  {
    if b == [] {
      assert a + b == a;
    } else {
      assert (a + b)[..|a + b| - 1] == a + b[..|b| - 1];
      EndsConcat(a, b[..|b| - 1]);
    }
  }

  lemma {:induction false} EndsOfFull(n: nat)
    ensures Ends(seq(n, _ => 255)) == 0
  {
    if n > 0 {
      assert seq(n, _ => 255)[..n - 1] == seq(n - 1, _ => 255);
      EndsOfFull(n - 1);
    }
  }

  lemma {:induction false} EndsOfLaceAll(packets: seq<bytes>)
    ensures Ends(LaceAll(packets)) == |packets|
  {
    if packets != [] {
      var n := |packets[|packets| - 1]|;
      EndsOfLaceAll(packets[..|packets| - 1]);
      EndsConcat(LaceAll(packets[..|packets| - 1]), Lace(n));
      assert Lace(n)[..n / 255] == seq(n / 255, _ => 255);
      EndsOfFull(n / 255);
    }
  }

  lemma {:induction false} DonePagesGranules(c: Config, groups: seq<seq<bytes>>)
    ensures var pages := DonePages(c, groups);
            && EndsUpTo(pages[2..]) == |Flatten(groups)|
            && pages[0].granule == pages[1].granule == 0
            && forall i | 2 <= i < |pages| :: pages[i].granule == c.frameSamples * EndsUpTo(pages[2..i + 1])
  {
    hide HeaderPages, LaceAll, Flatten, EndsUpTo;
    if groups == [] {
      HeaderGranules(c);
    } else {
      var init, last := groups[..|groups| - 1], groups[|groups| - 1];
      assert init + [last] == groups;
      DonePagesGranules(c, init);
      GranuleOfNext(c, init, last, 0);
      var before, pages := DonePages(c, init), DonePages(c, groups);
      forall i | 2 <= i < |pages| - 1
        ensures pages[i].granule == c.frameSamples * EndsUpTo(pages[2..i + 1])
      {
        assert pages[2..i + 1] == before[2..i + 1];
      }
      assert pages[2..|pages|] == pages[2..];
    }
  }

  lemma HeaderGranules(c: Config)
    ensures EndsUpTo(HeaderPages(c)[2..]) == |Flatten<bytes>([])| == 0
    ensures HeaderPages(c)[0].granule == HeaderPages(c)[1].granule == 0
  {}

  lemma GranuleOfNext(c: Config, groups: seq<seq<bytes>>, g: seq<bytes>, flags: byte)
    requires EndsUpTo(DonePages(c, groups)[2..]) == |Flatten(groups)|
    ensures var p := AudioPage(c, groups + [g], flags);
            var pages := DonePages(c, groups) + [p];
            && EndsUpTo(pages[2..]) == |Flatten(groups + [g])|
            && p.granule == c.frameSamples * EndsUpTo(pages[2..])
  {
    var p := AudioPage(c, groups + [g], flags);
    var tail := (DonePages(c, groups) + [p])[2..];
    assert tail[..|tail| - 1] == DonePages(c, groups)[2..] && tail[|tail| - 1] == p;
    EndsOfLaceAll(g);
    FlattenSnoc(groups, g);
  }

  /**
    * Header pages are at granule 0 and every audio page at `frameSamples` times the packets
    * completed on the audio pages so far.
    */
  lemma Granules(c: Config, packets: seq<bytes>)
    requires packets != []
    ensures var pages := StreamPages(c, packets);
            && pages[0].granule == pages[1].granule == 0
            && (forall i | 2 <= i < |pages| :: pages[i].granule == c.frameSamples * EndsUpTo(pages[2..i + 1]))
            && EndsUpTo(pages[2..]) == |packets|
  {
    hide HeaderPages, DonePages, OpusHead, OpusTags, LaceAll, Lace, Flatten, Ends, EndsUpTo, Plan;
    var groups := Plan(packets).Groups();
    PlanKeepsPackets(packets);
    PlanNonEmpty(packets);
    var n := |groups|;
    var init, last := groups[..n - 1], groups[n - 1];
    assert init + [last] == groups;
    DonePagesGranules(c, init);
    GranuleOfNext(c, init, last, FLAG_EOS);
    var before, pages := DonePages(c, init), StreamPages(c, packets);
    assert pages == before + [AudioPage(c, groups, FLAG_EOS)];
    forall i | 2 <= i < |pages|
      ensures pages[i].granule == c.frameSamples * EndsUpTo(pages[2..i + 1])
    {
      if i < |pages| - 1 {
        assert pages[2..i + 1] == before[2..i + 1];
      } else {
        assert pages[2..i + 1] == pages[2..];
      }
    }
  }

  lemma PayloadOfGroup(g: seq<bytes>)
    requires g != [] && g[0] != []
    ensures Flatten(g) != []
  {
    assert Flatten(g) == g[0] + Flatten(g[1..]);
  }

  /** For non-empty Opus packets, a page without payload appears exactly when nothing was added. */
  lemma EmptyEosPageIffNoPackets(c: Config, packets: seq<bytes>)
    requires forall p <- packets :: p != []
    ensures (exists page <- StreamPages(c, packets) :: page.payload == []) <==> packets == []
    ensures packets == [] ==> StreamPages(c, packets) == HeaderPages(c) + [EmptyEosPage(c)]
  {
    if packets == [] {
      PlanNonEmpty(packets);
      assert EmptyEosPage(c) in StreamPages(c, packets);
    } else {
      hide HeaderPages, OpusHead, OpusTags, StreamPages, LaceAll, Numbered, Flatten, StreamGroups;
      StreamPagesAre(c, packets);
      var pages, groups := StreamPages(c, packets), StreamGroups(c, packets);
      forall i | 0 <= i < |pages| ensures pages[i].payload != [] {
        GroupsHaveBytes(c, packets, i);
        PayloadOfGroup(groups[i]);
      }
    }
  }

  lemma GroupsHaveBytes(c: Config, packets: seq<bytes>, i: nat)
    requires packets != [] && (forall p <- packets :: p != []) && i < |StreamGroups(c, packets)|
    ensures StreamGroups(c, packets)[i] != [] && StreamGroups(c, packets)[i][0] != []
  {
    HeadersNotEmpty(c);
    PlanNonEmpty(packets);
    PlanKeepsPackets(packets);
    GroupsShape(Plan(packets));
    hide Plan, Layout.Groups, HeaderGroups, Flatten;
    if i >= 2 {
      var groups := Plan(packets).Groups();
      assert groups[i - 2] != [];
      assert StreamGroups(c, packets)[i] == groups[i - 2];
      InFlatten(groups, i - 2, groups[i - 2][0]);
    } else {
      assert StreamGroups(c, packets)[i] == HeaderGroups(c)[i] && HeaderGroups(c)[i] in HeaderGroups(c);
    }
  }

  lemma HeadersNotEmpty(c: Config)
    ensures forall g <- HeaderGroups(c) :: g != [] && g[0] != []
  {}

  lemma {:induction false} InFlatten<T>(groups: seq<seq<T>>, k: nat, x: T)
    requires k < |groups| && x in groups[k]
    ensures x in Flatten(groups)
  {
    if k > 0 {
      InFlatten(groups[1..], k - 1, x);
    }
  }

  // ---------------------------------------------------------------------
  // Header packets
  // ---------------------------------------------------------------------

  /** The identification header of section 5.1 of RFC 7845, read back field by field. */
  lemma OpusHeadFields(channels: byte, preSkip: nat)
    requires preSkip < 0x1_0000
    ensures var h := OpusHead(channels, preSkip);
            && |h| == 19 && h[..8] == HEAD_MAGIC && h[8] == 1 && h[9] == channels
            && LeValue(h[10..12]) == preSkip && LeValue(h[12..16]) == 48000
            && LeValue(h[16..18]) == 0 && h[18] == 0
  {
    hide Le, LeValue;
    var h := OpusHead(channels, preSkip);
    Widths();
    LeRoundTrip(preSkip, 2);
    LeRoundTrip(48000, 4);
    LeRoundTrip(0, 2);
    assert h[10..12] == Le(preSkip, 2) && h[12..16] == Le(48000, 4) && h[16..18] == Le(0, 2);
  }

  /** The comment header of section 5.2 of RFC 7845: a vendor string and no comments. */
  lemma OpusTagsFields()
    ensures var t := OpusTags();
            && t[..8] == TAGS_MAGIC && LeValue(t[8..12]) == |VENDOR| && t[12..12 + |VENDOR|] == VENDOR
            && |t| == 16 + |VENDOR| && LeValue(t[12 + |VENDOR|..]) == 0
  {
    hide Le, LeValue;
    var t := OpusTags();
    Widths();
    LeRoundTrip(|VENDOR|, 4);
    LeRoundTrip(0, 4);
    assert t[8..12] == Le(|VENDOR|, 4) && t[12 + |VENDOR|..] == Le(0, 4);
  }

  // ---------------------------------------------------------------------
  // Playing time
  // ---------------------------------------------------------------------

  /** Samples a player hears, by section 4 of RFC 7845: the last page's position less the pre-skip of the ID header. */
  function PlayedSamples(file: bytes): Option<int> {
    match ParsePages(file)
    case None => None
    case Some(pages) =>
      if |pages| < 2 || |pages[0].payload| < 12 then None
      else Some(pages[|pages| - 1].granule - LeValue(pages[0].payload[10..12]))
  }

  lemma {:induction false} HeadersStayFirst(c: Config, groups: seq<seq<bytes>>)
    ensures DonePages(c, groups)[0] == HeaderPages(c)[0]
  {
    hide HeaderPages;
    if groups != [] {
      HeadersStayFirst(c, groups[..|groups| - 1]);
    }
  }

  lemma FirstPage(c: Config, packets: seq<bytes>)
    ensures |StreamPages(c, packets)| >= 3 && StreamPages(c, packets)[0].payload == OpusHead(c.channels, c.preSkip)
  {
    var groups := Plan(packets).Groups();
    StreamNotEmpty(c, packets);
    assert HeaderPages(c)[0].payload == OpusHead(c.channels, c.preSkip);
    hide HeaderPages, OpusHead, Plan, DonePages, Layout.Groups;
    if groups != [] {
      HeadersStayFirst(c, groups[..|groups| - 1]);
    }
  }

  lemma LastGranule(c: Config, packets: seq<bytes>)
    requires packets != []
    ensures var pages := StreamPages(c, packets);
            |pages| >= 3 && pages[|pages| - 1].granule == c.frameSamples * |packets|
  {
    StreamNotEmpty(c, packets);
    hide StreamPages, EndsUpTo;
    Granules(c, packets);
    var pages := StreamPages(c, packets);
    assert pages[2..|pages| - 1 + 1] == pages[2..];
  }

  lemma PlayedOfMux(c: Config, packets: seq<bytes>)
    requires Mux(c, packets).Some? && packets != [] && c.preSkip < 0x1_0000
    ensures PlayedSamples(Mux(c, packets).value) == Some(c.frameSamples * |packets| - c.preSkip)
  {
    hide StreamPages, StreamGroups, Carries, EncodeAll, Encodable, ParsePages, Sum, OpusHead, OpusTags;
    var pages := StreamPages(c, packets);
    StreamPagesAre(c, packets);
    CarriesSums(pages, StreamGroups(c, packets));
    ParseEncodeAll(pages);
    FirstPage(c, packets);
    LastGranule(c, packets);
    OpusHeadFields(c.channels, c.preSkip);
  }

  // ---------------------------------------------------------------------
  // On the wire
  // ---------------------------------------------------------------------

  lemma MagicIsText()
    ensures CAPTURE == Ascii("OggS") && VENDOR == Ascii("opusfleet")
    ensures HEAD_MAGIC == Ascii("OpusHead") && TAGS_MAGIC == Ascii("OpusTags")
  {}

  /** The flag byte is 2 on the first page, 4 on the last and 0 on all others. */
  lemma FlagBytes(c: Config, packets: seq<bytes>)
    ensures var pages := StreamPages(c, packets);
            && |pages| >= 3 && pages[0].flags == 2 && pages[|pages| - 1].flags == 4
            && forall i | 0 < i < |pages| - 1 :: pages[i].flags == 0
  {
    StreamNotEmpty(c, packets);
    StreamPagesAre(c, packets);
    hide StreamPages, Carries;
  }

  /** A file begins with the capture pattern, version 0 and the flag of the first page. */
  lemma FileStarts(c: Config, packets: seq<bytes>)
    requires Mux(c, packets).Some?
    ensures var file := Mux(c, packets).value;
            |file| >= 27 && file[..6] == Ascii("OggS") + [0, 2]
  {
    FlagBytes(c, packets);
    MagicIsText();
    hide StreamPages, EncodeAll, Encode;
    var pages := StreamPages(c, packets);
    FirstEncoded(pages);
    EncodeStarts(pages[0]);
  }

  lemma EncodeStarts(p: Page)
    requires Encodable(p)
    ensures |Encode(p)| >= 27 && Encode(p)[..6] == CAPTURE + [0, p.flags]
  {}

  lemma FirstEncoded(pages: seq<Page>)
    requires pages != [] && AllEncodable(pages)
    ensures Encodable(pages[0]) && AllEncodable(pages[1..])
    ensures EncodeAll(pages) == Encode(pages[0]) + EncodeAll(pages[1..])
  {
    hide Encode;
  }
}
