/** Ogg pages (server/oggopus.py, section 6 of RFC 3533): lacing, page bytes, and a demuxer. */
module OggPage {
  import opened Bytes
  import opened OggCrc

  /** The fields of one page; `segments` are its lacing values. */
  datatype Page = Page(serial: nat, seqno: nat, granule: nat, flags: byte, segments: bytes, payload: bytes)

  const FLAG_CONTINUED: byte := 0x01
  const FLAG_BOS: byte := 0x02
  const FLAG_EOS: byte := 0x04
  const MAX_SEGMENTS := 255

  /** "OggS" */
  const CAPTURE: bytes := [0x4F, 0x67, 0x67, 0x53]

  const CRC_PLACEHOLDER: bytes := [0, 0, 0, 0]

  // ---------------------------------------------------------------------
  // Lacing
  // ---------------------------------------------------------------------

  function Lace(packetLen: nat): (r: bytes)
    ensures |r| == packetLen / 255 + 1
  {
    seq(packetLen / 255, _ => 255) + [packetLen % 255]
  }

  function LaceAll(packets: seq<bytes>): bytes {
    if packets == [] then [] else LaceAll(packets[..|packets| - 1]) + Lace(|packets[|packets| - 1]|)
  }

  function Sum(values: bytes): nat {
    if values == [] then 0 else values[0] + Sum(values[1..])
  }

  /**
    * Reassembly of one page: lacing values cut the payload, and a value below 255 ends a packet.
    * `carry` is the packet still open from earlier segments; the result is (packets, carry).
    */
  function Unlace(segments: bytes, payload: bytes, carry: bytes): (seq<bytes>, bytes)
    requires Sum(segments) == |payload|
  {
    if segments == [] then ([], carry) else
      var n := segments[0];
      var chunk := carry + payload[..n];
      if n < 255 then
        var (packets, open) := Unlace(segments[1..], payload[n..], []);
        ([chunk] + packets, open)
      else
        Unlace(segments[1..], payload[n..], chunk)
  }

  lemma {:induction false} SumConcat(a: bytes, b: bytes)
    ensures Sum(a + b) == Sum(a) + Sum(b)
  {
    if a == [] {
      assert a + b == b;
    } else {
      assert (a + b)[1..] == a[1..] + b;
      SumConcat(a[1..], b);
    }
  }

  lemma LaceStep(n: nat)
    requires n >= 255
    ensures Lace(n) == [255] + Lace(n - 255)
  {}

  lemma {:induction false} SumLace(n: nat)
    ensures Sum(Lace(n)) == n
  {
    if n >= 255 {
      LaceStep(n);
      SumLace(n - 255);
      assert Lace(n)[1..] == Lace(n - 255);
    } else {
      assert Lace(n) == [n];
    }
  }

  lemma {:induction false} SumLaceAll(packets: seq<bytes>)
    ensures Sum(LaceAll(packets)) == |Flatten(packets)|
  {
    if packets != [] {
      var init, last := packets[..|packets| - 1], packets[|packets| - 1];
      SumLaceAll(init);
      SumLace(|last|);
      SumConcat(LaceAll(init), Lace(|last|));
      FlattenSnoc(init, last);
      assert init + [last] == packets;
    }
  }

  /** A packet's own lacing values close exactly that packet. */
  lemma {:induction false} UnlacePacket(packet: bytes, carry: bytes, segments: bytes, payload: bytes)
    requires Sum(segments) == |payload|
    ensures Sum(Lace(|packet|) + segments) == |packet + payload|
    ensures var (packets, open) := Unlace(segments, payload, []);
            Unlace(Lace(|packet|) + segments, packet + payload, carry) == ([carry + packet] + packets, open)
    decreases |packet|
  {
    var all, data := Lace(|packet|) + segments, packet + payload;
    SumLace(|packet|);
    SumConcat(Lace(|packet|), segments);
    if |packet| >= 255 {
      LaceStep(|packet|);
      UnlacePacket(packet[255..], carry + packet[..255], segments, payload);
      assert all[1..] == Lace(|packet| - 255) + segments;
      assert data[255..] == packet[255..] + payload && data[..255] == packet[..255];
      assert carry + packet[..255] + packet[255..] == carry + packet;
    } else {
      assert Lace(|packet|) == [|packet|];
      assert all[1..] == segments && data[|packet|..] == payload && data[..|packet|] == packet;
    }
  }

  lemma {:induction false} UnlaceMany(packets: seq<bytes>, segments: bytes, payload: bytes)
    requires Sum(segments) == |payload|
    ensures Sum(LaceAll(packets) + segments) == |Flatten(packets) + payload|
    ensures var (rest, open) := Unlace(segments, payload, []);
            Unlace(LaceAll(packets) + segments, Flatten(packets) + payload, []) == (packets + rest, open)
    decreases |packets|
  {
    ghost var rest := Unlace(segments, payload, []);
    if packets == [] {
      assert LaceAll(packets) + segments == segments && Flatten(packets) + payload == payload;
      assert packets + rest.0 == rest.0;
    } else {
      hide LaceAll, Flatten, Lace, Sum, Unlace;
      var init, last := packets[..|packets| - 1], packets[|packets| - 1];
      UnlacePacket(last, [], segments, payload);
      assert [] + last == last;
      UnlaceMany(init, Lace(|last|) + segments, last + payload);
      LastPacketApart(packets, segments, payload);
      assert init + ([last] + rest.0) == packets + rest.0;
    }
  }

  lemma LastPacketApart(packets: seq<bytes>, segments: bytes, payload: bytes)
    requires packets != []
    ensures var init, last := packets[..|packets| - 1], packets[|packets| - 1];
            && LaceAll(packets) + segments == LaceAll(init) + (Lace(|last|) + segments)
            && Flatten(packets) + payload == Flatten(init) + (last + payload)
  {
    var init, last := packets[..|packets| - 1], packets[|packets| - 1];
    assert init + [last] == packets;
    FlattenSnoc(init, last);
    Assoc(LaceAll(init), Lace(|last|), segments);
    Assoc(Flatten(init), last, payload);
  }

  /** Lacing is undone by reassembly, with nothing left open. */
  lemma UnlaceLace(packets: seq<bytes>)
    ensures Sum(LaceAll(packets)) == |Flatten(packets)|
    ensures Unlace(LaceAll(packets), Flatten(packets), []) == (packets, [])
  {
    SumLaceAll(packets);
    UnlaceMany(packets, [], []);
    assert LaceAll(packets) + [] == LaceAll(packets);
    assert Flatten(packets) + [] == Flatten(packets);
    assert packets + [] == packets;
  }

  // ---------------------------------------------------------------------
  // Page bytes
  // ---------------------------------------------------------------------

  /** The ranges outside which `struct.pack` or `bytes` raises. */
  predicate Encodable(p: Page) {
    && p.serial < 0x1_0000_0000
    && p.seqno < 0x1_0000_0000
    && p.granule < 0x8000_0000_0000_0000
    && |p.segments| <= MAX_SEGMENTS
  }

  function Header(p: Page, crcField: bytes): bytes
    requires Encodable(p)
  {
    CAPTURE + [0, p.flags] + Le(p.granule, 8) + Le(p.serial, 4) + Le(p.seqno, 4) + crcField
    + [|p.segments|] + p.segments
  }

  /** The page's bytes: the checksum covers the whole page with its own field zeroed. */
  function Encode(p: Page): bytes
    requires Encodable(p)
  {
    Header(p, Le(Crc(Header(p, CRC_PLACEHOLDER) + p.payload), 4)) + p.payload
  }

  /** `_page`: build with a zeroed field, checksum, then splice the checksum in. */
  method BuildPage(table: seq<word>, p: Page) returns (r: Option<bytes>)
    requires IsCrcTable(table)
    ensures r == if Encodable(p) then Some(Encode(p)) else None
  {
    if !Encodable(p) {
      return None;
    }
    var header := CAPTURE + [0, p.flags] + Le(p.granule, 8) + Le(p.serial, 4) + Le(p.seqno, 4)
      + [0, 0, 0, 0] + [|p.segments|] + p.segments;
    var crc := OggCrc32(table, header + p.payload);
    ghost var front, back := HeaderFront(p), [|p.segments|] + p.segments;
    HeaderApart(p, CRC_PLACEHOLDER);
    HeaderApart(p, Le(crc, 4));
    assert header[..22] == front && header[26..] == back;
    r := Some(header[..22] + Le(crc, 4) + header[26..] + p.payload);
  }

  // ---------------------------------------------------------------------
  // Demuxer
  // ---------------------------------------------------------------------

  /** The whole page with the checksum field zeroed. */
  function Zeroed(page: bytes): bytes
    requires |page| >= 27
  {
    page[..22] + CRC_PLACEHOLDER + page[26..]
  }

  predicate ChecksumOk(page: bytes)
    requires |page| >= 27
  {
    LeValue(page[22..26]) == Crc(Zeroed(page))
  }

  /** One page from the front of `b`: (page, the bytes after it). */
  function ParsePage(b: bytes): (r: Option<(Page, bytes)>)
    ensures r.Some? ==> |r.value.1| < |b| && Sum(r.value.0.segments) == |r.value.0.payload|
  {
    if |b| < 27 || b[..4] != CAPTURE || b[4] != 0 || |b| - 27 < b[26] then None else
      var count: nat := b[26];
      var start := 27 + count;
      var segments := b[27..start];
      var end := start + Sum(segments);
      if |b| < end || !ChecksumOk(b[..end]) then None else
        Some((Page(LeValue(b[14..18]), LeValue(b[18..22]), LeValue(b[6..14]), b[5], segments, b[start..end]),
              b[end..]))
  }

  function ParsePages(b: bytes): (r: Option<seq<Page>>)
    ensures r.Some? ==> forall p <- r.value :: Sum(p.segments) == |p.payload|
    decreases |b|
  {
    if b == [] then Some([]) else
      match ParsePage(b)
      case None => None
      case Some((page, rest)) =>
        match ParsePages(rest)
        case None => None
        case Some(pages) => Some([page] + pages)
  }

  predicate HasFlag(flags: byte, flag: byte)
    requires flag > 0
  {
    flags / flag % 2 == 1
  }

  /** One logical stream, in order: begins with BOS, ends with EOS, one serial, no page missing. */
  predicate WellOrdered(pages: seq<Page>) {
    && pages != []
    && forall i | 0 <= i < |pages| ::
         && pages[i].serial == pages[0].serial
         && pages[i].seqno == i
         && HasFlag(pages[i].flags, FLAG_BOS) == (i == 0)
         && HasFlag(pages[i].flags, FLAG_EOS) == (i == |pages| - 1)
  }

  /** Packets across pages; the continued flag must tell the truth and nothing may stay open. */
  function Reassemble(pages: seq<Page>, carry: bytes): Option<seq<bytes>>
    requires forall p <- pages :: Sum(p.segments) == |p.payload|
  {
    if pages == [] then (if carry == [] then Some([]) else None)
    else if HasFlag(pages[0].flags, FLAG_CONTINUED) != (carry != []) then None
    else
      var (packets, open) := Unlace(pages[0].segments, pages[0].payload, carry);
      match Reassemble(pages[1..], open)
      case None => None
      case Some(rest) => Some(packets + rest)
  }

  /** All packets of a byte string that is exactly one complete logical stream. */
  function Demux(b: bytes): Option<seq<bytes>> {
    match ParsePages(b)
    case None => None
    case Some(pages) => if WellOrdered(pages) then Reassemble(pages, []) else None
  }

  // ---------------------------------------------------------------------
  // Writing then parsing
  // ---------------------------------------------------------------------

  lemma HeaderLayout(p: Page, crcField: bytes, rest: bytes)
    requires Encodable(p) && |crcField| == 4
    ensures var b := Header(p, crcField) + rest;
            && |Header(p, crcField)| == 27 + |p.segments|
            && b[..4] == CAPTURE && b[4] == 0 && b[5] == p.flags
            && b[6..14] == Le(p.granule, 8) && b[14..18] == Le(p.serial, 4) && b[18..22] == Le(p.seqno, 4)
            && b[22..26] == crcField && b[26] == |p.segments|
            && b[27..27 + |p.segments|] == p.segments && b[27 + |p.segments|..] == rest
  {
    var b := Header(p, crcField) + rest;
    var h1 := CAPTURE + [0, p.flags];
    var h2 := h1 + Le(p.granule, 8);
    var h3 := h2 + Le(p.serial, 4);
    var h4 := h3 + Le(p.seqno, 4);
    var h5 := h4 + crcField;
    assert b[..6] == h1 && b[6..14] == Le(p.granule, 8);
    assert b[14..18] == Le(p.serial, 4);
    assert b[18..22] == Le(p.seqno, 4);
    assert b[..26] == h5;
    assert h1[..4] == CAPTURE && b[..4] == b[..6][..4];
  }

  function HeaderFront(p: Page): (r: bytes)
    ensures |r| == 22
  {
    CAPTURE + [0, p.flags] + Le(p.granule, 8) + Le(p.serial, 4) + Le(p.seqno, 4)
  }

  lemma HeaderApart(p: Page, crcField: bytes)
    requires Encodable(p) && |crcField| == 4
    ensures Header(p, crcField) == HeaderFront(p) + crcField + ([|p.segments|] + p.segments)
  {}

  lemma SpliceOut(front: bytes, field: bytes, back: bytes, payload: bytes)
    requires |front| == 22 && |field| == 4 && |back| >= 1
    ensures Zeroed(front + field + back + payload) == front + CRC_PLACEHOLDER + back + payload
    ensures (front + field + back + payload)[22..26] == field
  {}

  lemma ZeroedEncode(p: Page)
    requires Encodable(p)
    ensures |Encode(p)| == 27 + |p.segments| + |p.payload|
    ensures Zeroed(Encode(p)) == Header(p, CRC_PLACEHOLDER) + p.payload
    ensures ChecksumOk(Encode(p))
  {
    var zero := Header(p, CRC_PLACEHOLDER) + p.payload;
    var field := Le(Crc(zero), 4);
    LeRoundTrip(Crc(zero), 4);
    HeaderApart(p, field);
    HeaderApart(p, CRC_PLACEHOLDER);
    hide Header, HeaderFront, Le, LeValue, Crc;
    SpliceOut(HeaderFront(p), field, [|p.segments|] + p.segments, p.payload);
  }

  lemma EncodeSlices(p: Page, rest: bytes)
    requires Encodable(p)
    ensures var b, start := Encode(p) + rest, 27 + |p.segments|;
            && |Encode(p)| == start + |p.payload|
            && b[..4] == CAPTURE && b[4] == 0 && b[5] == p.flags
            && b[6..14] == Le(p.granule, 8) && b[14..18] == Le(p.serial, 4) && b[18..22] == Le(p.seqno, 4)
            && b[26] == |p.segments| && b[27..start] == p.segments
            && b[start..start + |p.payload|] == p.payload
            && b[..start + |p.payload|] == Encode(p) && b[start + |p.payload|..] == rest
  {
    var field := Le(Crc(Header(p, CRC_PLACEHOLDER) + p.payload), 4);
    var b := Encode(p) + rest;
    var start := 27 + |p.segments|;
    HeaderLayout(p, field, p.payload + rest);
    Assoc(Header(p, field), p.payload, rest);
    hide Header, Le, Crc;
    assert b[start..start + |p.payload|] == b[start..][..|p.payload|] == p.payload;
  }

  lemma ParseEncode(p: Page, rest: bytes)
    requires Encodable(p) && Sum(p.segments) == |p.payload|
    ensures ParsePage(Encode(p) + rest) == Some((p, rest))
  {
    ZeroedEncode(p);
    EncodeSlices(p, rest);
    HeaderValues(p);
    hide Header, Encode, Le, LeValue, Crc, ChecksumOk, Sum;
  }

  lemma HeaderValues(p: Page)
    requires Encodable(p)
    ensures LeValue(Le(p.granule, 8)) == p.granule
    ensures LeValue(Le(p.serial, 4)) == p.serial
    ensures LeValue(Le(p.seqno, 4)) == p.seqno
  {
    Widths();
    LeRoundTrip(p.granule, 8);
    LeRoundTrip(p.serial, 4);
    LeRoundTrip(p.seqno, 4);
  }

  function EncodeAll(pages: seq<Page>): bytes
    requires forall p <- pages :: Encodable(p)
  {
    if pages == [] then [] else Encode(pages[0]) + EncodeAll(pages[1..])
  }

  lemma {:induction false} EncodeAllSnoc(pages: seq<Page>, p: Page)
    requires forall q <- pages :: Encodable(q)
    requires Encodable(p)
    ensures EncodeAll(pages + [p]) == EncodeAll(pages) + Encode(p)
  {
    hide Encode;
    if pages == [] {
      assert [p][1..] == [] && [] + Encode(p) == Encode(p) + [] == Encode(p);
      assert pages + [p] == [p];
    } else {
      assert (pages + [p])[1..] == pages[1..] + [p];
      EncodeAllSnoc(pages[1..], p);
    }
  }

  lemma {:induction false} ParseEncodeAll(pages: seq<Page>)
    requires forall p <- pages :: Encodable(p) && Sum(p.segments) == |p.payload|
    ensures ParsePages(EncodeAll(pages)) == Some(pages)
  {
    if pages != [] {
      ZeroedEncode(pages[0]);
      ParseEncode(pages[0], EncodeAll(pages[1..]));
      ParseEncodeAll(pages[1..]);
      hide Encode, ParsePage, Encodable, Sum;
      assert [pages[0]] + pages[1..] == pages;
    }
  }

  // ---------------------------------------------------------------------
  // Damage
  // ---------------------------------------------------------------------

  /** Same length, different, and equal outside one window of four bytes. */
  predicate BurstDamage(a: bytes, b: bytes, at: nat) {
    && |a| == |b| && a != b
    && at <= |a|
    && a[..at] == b[..at]
    && (at + 4 <= |a| ==> a[at + 4..] == b[at + 4..])
  }

  lemma SpliceInjective(a: bytes, b: bytes)
    requires |a| == |b| >= 27 && Zeroed(a) == Zeroed(b) && a[22..26] == b[22..26]
    ensures a == b
  {
    assert a[..22] == Zeroed(a)[..22] == Zeroed(b)[..22] == b[..22];
    assert a[26..] == Zeroed(a)[26..] == Zeroed(b)[26..] == b[26..];
    assert a == a[..22] + a[22..26] + a[26..];
    assert b == b[..22] + b[22..26] + b[26..];
  }

  lemma ZeroedAt(a: bytes, i: nat)
    requires i < |a| && 27 <= |a|
    ensures |Zeroed(a)| == |a| && Zeroed(a)[i] == if 22 <= i < 26 then 0 else a[i]
  {}

  lemma ZeroedBits(a: bytes, i: nat)
    requires i < 8 * |a| && 27 <= |a|
    ensures |Zeroed(a)| == |a|
    ensures MessageBits(Zeroed(a))[i] == if 22 <= i / 8 < 26 then Bits(0, 8)[i % 8] else MessageBits(a)[i]
  {
    hide MessageBits, Bits;
    ZeroedAt(a, i / 8);
    BitOfByte(a, i);
    BitOfByte(Zeroed(a), i);
  }

  lemma ZeroedBitDamage(a: bytes, b: bytes, at: nat)
    requires 27 <= |a| && BitDamage(a, b, at) && a[22..26] == b[22..26]
    ensures BitDamage(Zeroed(a), Zeroed(b), at)
  {
    hide MessageBits, Bits;
    ZeroedAt(a, 0);
    ZeroedAt(b, 0);
    forall i | 0 <= i < 8 * |a| && !(at <= i < at + 32)
      ensures MessageBits(Zeroed(a))[i] == MessageBits(Zeroed(b))[i]
    {
      ZeroedBits(a, i);
      ZeroedBits(b, i);
    }
    hide Zeroed;
    if Zeroed(a) == Zeroed(b) {
      SpliceInjective(a, b);
    }
  }

  /** Same-length damage within 32 consecutive bits, checksum field untouched, never passes the page's check. */
  lemma BitDamageDetected(p: Page, damaged: bytes, at: nat)
    requires Encodable(p)
    requires BitDamage(Encode(p), damaged, at)
    requires Encode(p)[22..26] == damaged[22..26]
    ensures ChecksumOk(Encode(p)) && !ChecksumOk(damaged)
  {
    hide MessageBits, Zeroed;
    ZeroedEncode(p);
    ZeroedBitDamage(Encode(p), damaged, at);
    BitDamageChangesCrc(Zeroed(Encode(p)), Zeroed(damaged), at);
  }

  lemma BytesToBits(a: bytes, b: bytes, at: nat)
    requires BurstDamage(a, b, at)
    ensures BitDamage(a, b, 8 * at)
  {
    hide MessageBits, Bits;
    forall i | 0 <= i < 8 * |a| && !(8 * at <= i < 8 * at + 32)
      ensures MessageBits(a)[i] == MessageBits(b)[i]
    {
      BitOfByte(a, i);
      BitOfByte(b, i);
      if i < 8 * at {
        assert a[..at][i / 8] == b[..at][i / 8];
      } else {
        assert a[at + 4..][i / 8 - at - 4] == b[at + 4..][i / 8 - at - 4];
      }
    }
  }

  /** In particular, same-length damage within four bytes. */
  lemma DamageDetected(p: Page, damaged: bytes, at: nat)
    requires Encodable(p)
    requires BurstDamage(Encode(p), damaged, at)
    requires Encode(p)[22..26] == damaged[22..26]
    ensures ChecksumOk(Encode(p)) && !ChecksumOk(damaged)
  {
    hide BurstDamage, BitDamage;
    BytesToBits(Encode(p), damaged, at);
    BitDamageDetected(p, damaged, 8 * at);
  }
}
