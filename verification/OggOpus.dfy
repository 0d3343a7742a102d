/** The Ogg Opus writer (server/oggopus.py; sections 3 to 5 of RFC 7845). */
module OggOpus {
  import opened Bytes
  import opened OggCrc
  import opened OggPage

  /** "OpusHead" */
  const HEAD_MAGIC: bytes := [0x4F, 0x70, 0x75, 0x73, 0x48, 0x65, 0x61, 0x64]
  /** "OpusTags" */
  const TAGS_MAGIC: bytes := [0x4F, 0x70, 0x75, 0x73, 0x54, 0x61, 0x67, 0x73]
  /** "opusfleet" */
  const VENDOR: bytes := [0x6F, 0x70, 0x75, 0x73, 0x66, 0x6C, 0x65, 0x65, 0x74]

  /** The largest packet whose lacing values fit one page: 254 * 255 + 254. */
  const MAX_PACKET := 65024

  datatype Config = Config(serial: nat, channels: byte, frameSamples: nat, preSkip: nat) {
    predicate Valid() {
      serial < 0x1_0000_0000 && preSkip < 0x1_0000
    }
  }

  function OpusHead(channels: byte, preSkip: nat): bytes {
    HEAD_MAGIC + [1, channels] + Le(preSkip, 2) + Le(48000, 4) + Le(0, 2) + [0]
  }

  function OpusTags(): bytes {
    TAGS_MAGIC + Le(|VENDOR|, 4) + VENDOR + Le(0, 4)
  }

  // ---------------------------------------------------------------------
  // Which packets share a page
  // ---------------------------------------------------------------------

  /** Finished pages and the page being filled. */
  datatype Layout = Layout(done: seq<seq<bytes>>, open: seq<bytes>) {
    function Groups(): seq<seq<bytes>> {
      if open == [] then done else done + [open]
    }
  }

  function Place(l: Layout, packet: bytes): Layout {
    if |LaceAll(l.open)| + |Lace(|packet|)| > MAX_SEGMENTS && l.open != []
    then Layout(l.done + [l.open], [packet])
    else Layout(l.done, l.open + [packet])
  }

  function Plan(packets: seq<bytes>): Layout {
    if packets == [] then Layout([], []) else Place(Plan(packets[..|packets| - 1]), packets[|packets| - 1])
  }

  /** An order-preserving division of the packets into pages with no packet crossing a page. */
  ghost predicate IsPaging(pages: seq<seq<bytes>>, packets: seq<bytes>) {
    && Flatten(pages) == packets
    && forall g <- pages :: |LaceAll(g)| <= MAX_SEGMENTS
  }

  predicate PacketsFit(packets: seq<bytes>) {
    forall p <- packets :: |p| <= MAX_PACKET
  }

  lemma LaceAllSnoc(group: seq<bytes>, packet: bytes)
    ensures LaceAll(group + [packet]) == LaceAll(group) + Lace(|packet|) && LaceAll([]) == []
    ensures |Lace(|packet|)| <= MAX_SEGMENTS <==> |packet| <= MAX_PACKET
  {
    assert (group + [packet])[..|group|] == group;
  }

  lemma GroupsFlatten(l: Layout)
    ensures Flatten(l.Groups()) == Flatten(l.done) + l.open
  {
    FlattenSnoc(l.done, l.open);
    assert Flatten(l.done) + [] == Flatten(l.done);
  }

  lemma PlaceKeeps(l: Layout, packet: bytes)
    ensures Flatten(Place(l, packet).Groups()) == Flatten(l.Groups()) + [packet]
    ensures Place(l, packet).done == l.done || Place(l, packet).done == l.Groups()
  {
    var after := Place(l, packet);
    GroupsFlatten(l);
    GroupsFlatten(after);
    if after.done == l.done && after.open == l.open + [packet] {
      assert Flatten(l.done) + (l.open + [packet]) == Flatten(l.done) + l.open + [packet];
    }
  }

  lemma PlanSnoc(packets: seq<bytes>, packet: bytes)
    ensures Plan(packets + [packet]) == Place(Plan(packets), packet)
  {
    assert (packets + [packet])[..|packets|] == packets;
  }

  lemma {:induction false} PlanKeepsPackets(packets: seq<bytes>)
    ensures Flatten(Plan(packets).Groups()) == packets
  {
    if packets != [] {
      hide Plan, Place, Flatten, Layout.Groups;
      var init, last := packets[..|packets| - 1], packets[|packets| - 1];
      PlanKeepsPackets(init);
      PlanSnoc(init, last);
      PlaceKeeps(Plan(init), last);
      assert init + [last] == packets;
    }
  }

  lemma {:induction false} PlanNonEmpty(packets: seq<bytes>)
    ensures Plan(packets).open == [] <==> packets == []
    ensures packets == [] ==> Plan(packets).done == []
    ensures forall k | 0 <= k < |Plan(packets).done| :: Plan(packets).done[k] != []
  {
    if packets != [] {
      PlanNonEmpty(packets[..|packets| - 1]);
    }
  }

  lemma {:induction false} PlanFits(packets: seq<bytes>)
    requires PacketsFit(packets)
    ensures forall g <- Plan(packets).Groups() :: |LaceAll(g)| <= MAX_SEGMENTS
  {
    if packets != [] {
      var init, last := packets[..|packets| - 1], packets[|packets| - 1];
      PlanFits(init);
      LaceAllSnoc(Plan(init).open, last);
      LaceAllSnoc([], last);
      assert [] + [last] == [last] && LaceAll([]) + Lace(|last|) == Lace(|last|);
    }
  }

  /** The writer never uses more pages than any other legal paging, page for page as full. */
  lemma {:induction false} GreedyStaysAhead(packets: seq<bytes>, pages: seq<seq<bytes>>)
    requires IsPaging(pages, packets)
    requires packets != []
    ensures pages != []
    ensures |Plan(packets).done| + 1 <= |pages|
    ensures |Plan(packets).done| + 1 == |pages| ==>
              |LaceAll(Plan(packets).open)| <= |LaceAll(pages[|pages| - 1])|
    decreases |pages|, |packets|
  {
    assert pages != [];
    var front, g := pages[..|pages| - 1], pages[|pages| - 1];
    assert front + [g] == pages;
    FlattenSnoc(front, g);
    if g == [] {
      assert Flatten(front) + [] == Flatten(front);
      GreedyStaysAhead(packets, front);
    } else {
      var init, last := packets[..|packets| - 1], packets[|packets| - 1];
      var g' := g[..|g| - 1];
      assert g[|g| - 1] == last && Flatten(front) + g' == init by {
        assert (Flatten(front) + g)[|packets| - 1] == last;
        assert (Flatten(front) + g)[..|packets| - 1] == Flatten(front) + g';
      }
      assert g' + [last] == g;
      LaceAllSnoc(g', last);
      LaceAllSnoc(Plan(init).open, last);
      assert LaceAll([last]) == Lace(|last|) by {
        LaceAllSnoc([], last);
        assert [] + [last] == [last] && LaceAll([]) + Lace(|last|) == Lace(|last|);
      }
      PlanNonEmpty(init);
      if init != [] {
        FlattenSnoc(front, g');
        GreedyStaysAhead(init, front + [g']);
      }
    }
  }

  /** Among all legal pagings the writer's has the fewest pages. */
  lemma GreedyIsOptimal(packets: seq<bytes>, pages: seq<seq<bytes>>)
    requires IsPaging(pages, packets)
    ensures IsPaging(Plan(packets).Groups(), packets)
    ensures |Plan(packets).Groups()| <= |pages|
  {
    PlanKeepsPackets(packets);
    PlanNonEmpty(packets);
    if packets != [] {
      GreedyStaysAhead(packets, pages);
    }
    forall p | p in packets ensures |p| <= MAX_PACKET {
      PagingBoundsPackets(pages, p);
    }
    PlanFits(packets);
  }

  lemma {:induction false} PagingBoundsPackets(pages: seq<seq<bytes>>, p: bytes)
    requires forall g <- pages :: |LaceAll(g)| <= MAX_SEGMENTS
    requires p in Flatten(pages)
    ensures |p| <= MAX_PACKET
  {
    if p in pages[0] {
      LongPacketLaces(pages[0], p);
    } else {
      PagingBoundsPackets(pages[1..], p);
    }
  }

  lemma {:induction false} LongPacketLaces(group: seq<bytes>, p: bytes)
    requires p in group
    ensures |LaceAll(group)| >= |Lace(|p|)|
    ensures |p| > MAX_PACKET ==> |LaceAll(group)| > MAX_SEGMENTS
  {
    var init, last := group[..|group| - 1], group[|group| - 1];
    assert init + [last] == group;
    LaceAllSnoc(init, last);
    if p != last {
      LongPacketLaces(init, p);
    }
  }

  // ---------------------------------------------------------------------
  // The pages of a stream
  // ---------------------------------------------------------------------

  function HeaderPages(c: Config): seq<Page> {
    var head, tags := OpusHead(c.channels, c.preSkip), OpusTags();
    [Page(c.serial, 0, 0, FLAG_BOS, Lace(|head|), head), Page(c.serial, 1, 0, 0, Lace(|tags|), tags)]
  }

  lemma NothingAdded(c: Config)
    ensures EncodeAll([]) == [] && Plan([]) == Layout([], []) && LaceAll([]) == []
    ensures DonePages(c, []) == HeaderPages(c)
    ensures var head, tags := OpusHead(c.channels, c.preSkip), OpusTags();
            HeaderPages(c) == [Page(c.serial, 0, 0, FLAG_BOS, Lace(|head|), head)]
                              + [Page(c.serial, 1, 0, 0, Lace(|tags|), tags)]
  {}

  /** The page that carries the last of these groups. */
  function AudioPage(c: Config, groups: seq<seq<bytes>>, flags: byte): Page
    requires groups != []
  {
    var last := groups[|groups| - 1];
    Page(c.serial, |groups| + 1, c.frameSamples * |Flatten(groups)|, flags, LaceAll(last), Flatten(last))
  }

  /** What has been emitted once these groups are full. */
  function DonePages(c: Config, groups: seq<seq<bytes>>): (r: seq<Page>)
    ensures |r| == |groups| + 2
  {
    if groups == [] then HeaderPages(c)
    else DonePages(c, groups[..|groups| - 1]) + [AudioPage(c, groups, 0)]
  }

  function EmptyEosPage(c: Config): Page {
    Page(c.serial, 2, 0, FLAG_EOS, [0], [])
  }

  /** The whole stream, closed. */
  function StreamPages(c: Config, packets: seq<bytes>): seq<Page> {
    var groups := Plan(packets).Groups();
    var n := |groups|;
    if n == 0 then HeaderPages(c) + [EmptyEosPage(c)]
    else DonePages(c, groups[..n - 1]) + [AudioPage(c, groups, FLAG_EOS)]
  }

  predicate AllEncodable(pages: seq<Page>) {
    forall p <- pages :: Encodable(p)
  }

  /** The file `finish` returns, or None where packing a page raises. */
  function Mux(c: Config, packets: seq<bytes>): Option<bytes> {
    var pages := StreamPages(c, packets);
    if AllEncodable(pages) then Some(EncodeAll(pages)) else None
  }

  lemma HeadersEncodable(c: Config)
    requires c.Valid()
    ensures AllEncodable(HeaderPages(c))
    ensures Encodable(HeaderPages(c)[0]) && Encodable(HeaderPages(c)[1])
  {}

  /** The page being filled, as it would be written after `total` packets. */
  function OpenPage(c: Config, l: Layout, total: nat, flags: byte): Page {
    Page(c.serial, |l.done| + 2, c.frameSamples * total, flags,
         if l.open == [] then [0] else LaceAll(l.open), Flatten(l.open))
  }

  /** The page written when the next packet no longer fits. */
  lemma NextDonePage(c: Config, packets: seq<bytes>, packet: bytes)
    requires |LaceAll(Plan(packets).open)| + |Lace(|packet|)| > MAX_SEGMENTS
    ensures Plan(packets + [packet]).open == [packet]
    ensures Plan(packets).open == [] ==> Plan(packets + [packet]).done == Plan(packets).done
    ensures Plan(packets).open != [] ==>
              DonePages(c, Plan(packets + [packet]).done)
              == DonePages(c, Plan(packets).done) + [OpenPage(c, Plan(packets), |packets|, 0)]
  {
    var before := Plan(packets);
    PlanSnoc(packets, packet);
    PlanKeepsPackets(packets);
    PlanNonEmpty(packets);
    hide Plan, LaceAll, Lace, HeaderPages, Flatten;
    assert (before.done + [before.open])[..|before.done|] == before.done;
    if before.open == [] {
      assert [] + [packet] == [packet];
    }
  }

  lemma LastPage(c: Config, packets: seq<bytes>)
    ensures StreamPages(c, packets)
            == DonePages(c, Plan(packets).done) + [OpenPage(c, Plan(packets), |packets|, FLAG_EOS)]
  {
    PlanKeepsPackets(packets);
    PlanNonEmpty(packets);
    GroupsShape(Plan(packets));
    assert Flatten<byte>([]) == [];
    hide Plan, LaceAll, Lace, HeaderPages, DonePages, Flatten, Layout.Groups;
  }

  lemma GroupsShape(l: Layout)
    ensures l.open == [] ==> l.Groups() == l.done
    ensures l.open != [] ==> l.Groups() != [] && l.Groups()[..|l.Groups()| - 1] == l.done
                             && l.Groups()[|l.Groups()| - 1] == l.open && |l.Groups()| == |l.done| + 1
  {}

  // ---------------------------------------------------------------------
  // The writer
  // ---------------------------------------------------------------------

  class OggOpusWriter {
    const c: Config
    const table: seq<word>
    var out: bytes
    var seqno: nat
    var granule: nat
    var packets: seq<bytes>
    var segments: bytes
    var packetCount: nat
    ghost var pages: seq<Page>
    ghost var added: seq<bytes>

    ghost predicate Emitted()
      reads this
    {
      && c.Valid() && IsCrcTable(table)
      && AllEncodable(pages) && out == EncodeAll(pages) && seqno == |pages|
    }

    ghost predicate Valid()
      reads this
    {
      && Emitted()
      && pages == DonePages(c, Plan(added).done)
      && packets == Plan(added).open && segments == LaceAll(packets)
      && granule == c.frameSamples * |added| && packetCount == |added|
    }

    constructor (table: seq<word>, serial: int, channels: byte, frameSamples: nat, preSkip: nat)
      requires IsCrcTable(table) && preSkip < 0x1_0000
      ensures Valid() && added == []
      ensures c == Config(serial % 0x1_0000_0000, channels, frameSamples, preSkip)
    {
      hide OpusHead, OpusTags, Plan, LaceAll;
      this.table := table;
      c := Config(serial % 0x1_0000_0000, channels, frameSamples, preSkip);
      out, seqno, granule, packets, segments, packetCount := [], 0, 0, [], [], 0;
      pages, added := [], [];
      new;
      NothingAdded(c);
      EmitHeaders();
    }

    method EmitHeaders()
      requires Emitted() && pages == []
      modifies this`out, this`seqno, this`pages
      ensures Emitted() && pages == HeaderPages(c)
    {
      hide OpusHead, OpusTags, Lace, EncodeAll, Encode, Encodable, IsCrcTable, HeaderPages;
      HeadersEncodable(c);
      NothingAdded(c);
      Emit(OpusHead(c.channels, c.preSkip), FLAG_BOS, 0);
      Emit(OpusTags(), 0, 0);
    }

    /** False where packing the page raises; nothing has changed then. */
    method Append(fields: Page) returns (ok: bool)
      requires Emitted()
      modifies this`out, this`seqno, this`pages
      ensures Emitted()
      ensures ok == Encodable(fields)
      ensures pages == if ok then old(pages) + [fields] else old(pages)
    {
      var page := BuildPage(table, fields);
      if page.None? {
        return false;
      }
      EncodeAllSnoc(pages, fields);
      out := out + page.value;
      seqno := seqno + 1;
      pages := pages + [fields];
      ok := true;
    }

    method Emit(packet: bytes, flags: byte, granule: nat)
      requires Emitted() && Encodable(Page(c.serial, seqno, granule, flags, Lace(|packet|), packet))
      modifies this`out, this`seqno, this`pages
      ensures Emitted()
      ensures pages == old(pages) + [Page(c.serial, old(seqno), granule, flags, Lace(|packet|), packet)]
    {
      var ok := Append(Page(c.serial, seqno, granule, flags, Lace(|packet|), packet));
    }

    /** The page a flush writes, if it writes one. */
    ghost function Pending(eos: bool): Page
      reads this
    {
      Page(c.serial, seqno, granule, if eos then FLAG_EOS else 0, if packets == [] then [0] else segments, Flatten(packets))
    }

    method FlushPage(eos: bool) returns (ok: bool)
      requires Emitted()
      modifies this`out, this`seqno, this`pages, this`packets, this`segments
      ensures Emitted()
      ensures ok == ((old(packets) == [] && !eos) || old(Encodable(Pending(eos))))
      ensures ok ==> packets == []
      ensures ok && (old(packets) != [] || eos) ==> pages == old(pages) + [old(Pending(eos))]
      ensures ok && old(packets) != [] ==> segments == []
      ensures !ok || (old(packets) == [] && !eos) ==>
                pages == old(pages) && packets == old(packets) && segments == old(segments)
    {
      if packets == [] {
        ok := true;
        if eos {
          ok := Append(Page(c.serial, seqno, granule, FLAG_EOS, [0], []));
        }
        return;
      }
      var payload := Flatten(packets);
      ok := Append(Page(c.serial, seqno, granule, if eos then FLAG_EOS else 0, segments, payload));
      if ok {
        packets := [];
        segments := [];
      }
    }

    method AddPacket(packet: bytes) returns (ok: bool)
      requires Valid()
      modifies this
      ensures ok == AllEncodable(DonePages(c, Plan(old(added) + [packet]).done))
      ensures ok ==> Valid() && added == old(added) + [packet]
      ensures !ok ==> Valid() && added == old(added)
    {
      hide OpusHead, OpusTags, Plan, Flatten, EncodeAll, Encode, Encodable, DonePages, LaceAll, Lace, Config.Valid, IsCrcTable;
      PlanSnoc(added, packet);
      var segs := Lace(|packet|);
      if |segments| + |segs| > MAX_SEGMENTS {
        NextDonePage(c, added, packet);
        ok := FlushPage(false);
        if !ok {
          return;
        }
      }
      LaceAllSnoc(packets, packet);
      assert packets + [packet] == Plan(added + [packet]).open;
      assert pages == DonePages(c, Plan(added + [packet]).done);
      granule := granule + c.frameSamples;
      packets := packets + [packet];
      segments := segments + segs;
      packetCount := packetCount + 1;
      added := added + [packet];
      ok := true;
    }

    /** To be called once. */
    method Finish() returns (r: Option<bytes>)
      requires Valid()
      modifies this
      ensures r == Mux(c, old(added))
    {
      PlanNonEmpty(added);
      LastPage(c, added);
      assert pages + [Pending(true)] == StreamPages(c, added);
      var ok := FlushPage(true);
      r := if ok then Some(out) else None;
    }

    method DurationSeconds() returns (r: real)
      requires Valid()
      ensures r * 48000.0 == (|added| * c.frameSamples) as real
    {
      r := (packetCount * c.frameSamples) as real / 48000.0;
    }
  }
}
