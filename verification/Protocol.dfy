/**
  * The wire protocol (server/protocol.py): length-prefixed frames, RTP audio and control frames.
  *
  * A `text` is the ASCII bytes of a Python str.
  */
module Protocol {
  import opened Bytes

  type text = bytes

  const MAX_FRAME := 0xFFFF
  const RTP_HEADER_LEN := 12
  const FRAME_SAMPLES := 960

  const COLON: byte := 0x3A
  /** "HELLO:" */
  const HELLO_PREFIX: bytes := [0x48, 0x45, 0x4C, 0x4C, 0x4F, 0x3A]
  /** "AUTH:" */
  const AUTH_PREFIX: bytes := [0x41, 0x55, 0x54, 0x48, 0x3A]
  /** "STAT:" */
  const STAT_PREFIX: bytes := [0x53, 0x54, 0x41, 0x54, 0x3A]
  /** "CHALLENGE:" */
  const CHALLENGE_PREFIX: bytes := [0x43, 0x48, 0x41, 0x4C, 0x4C, 0x45, 0x4E, 0x47, 0x45, 0x3A]
  /** "unknown" */
  const UNKNOWN: text := [0x75, 0x6E, 0x6B, 0x6E, 0x6F, 0x77, 0x6E]

  /** What the length prefix can carry. */
  type payload = b: bytes | |b| <= MAX_FRAME witness []

  // ---------------------------------------------------------------------
  // Framing
  // ---------------------------------------------------------------------

  function Frame(p: payload): bytes {
    Be(|p|, 2) + p
  }

  /** `frame`: None where the payload exceeds what the prefix can carry. */
  function FrameChecked(b: bytes): (r: Option<bytes>)
    ensures r.Some? <==> |b| <= MAX_FRAME
    ensures r.Some? ==> Parse(r.value) == ([b], [])
  {
    if |b| > MAX_FRAME then None else
      var p: payload := b;
      assert Frame(p) + [] == Frame(p);
      ParseOne(p, []);
      Some(Frame(p))
  }

  function FrameAll(ps: seq<payload>): bytes {
    if ps == [] then [] else Frame(ps[0]) + FrameAll(ps[1..])
  }

  function LengthPrefix(b: bytes): (n: nat)
    requires |b| >= 2
    ensures n <= MAX_FRAME
  {
    b[0] as int * 256 + b[1] as int
  }

  /** No complete frame at the front. */
  predicate Incomplete(b: bytes) {
    |b| < 2 || |b| < 2 + LengthPrefix(b)
  }

  /** The complete frames of a buffer and the partial tail. */
  function Parse(buf: bytes): (r: (seq<payload>, bytes))
    decreases |buf|
  {
    if Incomplete(buf) then ([], buf) else
      var n := LengthPrefix(buf);
      var (frames, rest) := Parse(buf[2 + n..]);
      ([buf[2..2 + n]] + frames, rest)
  }

  lemma FramePrefix(p: payload, rest: bytes)
    ensures |Frame(p)| == 2 + |p| && LengthPrefix(Frame(p) + rest) == |p|
    ensures (Frame(p) + rest)[2..2 + |p|] == p && (Frame(p) + rest)[2 + |p|..] == rest
  {
    var n := |p|;
    assert Be(n, 2) == Be(n / 256, 1) + [n % 256];
    assert Be(n / 256, 1) == Be(n / 256 / 256, 0) + [n / 256 % 256];
  }

  lemma FrameOfPrefix(b: bytes)
    requires !Incomplete(b)
    ensures var n := LengthPrefix(b);
            b == Frame(b[2..2 + n]) + b[2 + n..]
  {
    var n := LengthPrefix(b);
    assert Be(n, 2) == Be(n / 256, 1) + [n % 256];
    assert Be(n / 256, 1) == Be(n / 256 / 256, 0) + [n / 256 % 256];
    assert Be(n, 2) == [b[0], b[1]];
  }

  /** Parsing inverts framing; whatever cannot start a frame is the remainder. */
  lemma {:induction false} ParseFramed(ps: seq<payload>, rest: bytes)
    requires Incomplete(rest)
    ensures Parse(FrameAll(ps) + rest) == (ps, rest)
  {
    if ps == [] {
      assert FrameAll(ps) + rest == rest;
    } else {
      Assoc(Frame(ps[0]), FrameAll(ps[1..]), rest);
      FramePrefix(ps[0], FrameAll(ps[1..]) + rest);
      ParseFramed(ps[1..], rest);
      assert FrameAll(ps) + rest == Frame(ps[0]) + (FrameAll(ps[1..]) + rest);
      assert [ps[0]] + ps[1..] == ps;
    }
  }

  /** The consumed frames re-framed plus the remainder are the buffer, and the remainder is short. */
  lemma {:induction false} ParseRebuilds(buf: bytes)
    ensures FrameAll(Parse(buf).0) + Parse(buf).1 == buf
    ensures Incomplete(Parse(buf).1) && |Parse(buf).1| <= 0x1_0000
    decreases |buf|
  {
    if Incomplete(buf) {
      assert FrameAll([]) + buf == buf;
    } else {
      var n := LengthPrefix(buf);
      FrameOfPrefix(buf);
      ParseRebuilds(buf[2 + n..]);
      var tail := Parse(buf[2 + n..]);
      assert Parse(buf).0 == [buf[2..2 + n]] + tail.0 && Parse(buf).1 == tail.1;
      assert Parse(buf).0[1..] == tail.0;
      Assoc(Frame(buf[2..2 + n]), FrameAll(tail.0), tail.1);
      assert FrameAll(Parse(buf).0) == Frame(buf[2..2 + n]) + FrameAll(tail.0);
    }
  }

  lemma {:induction false} FrameAllConcat(a: seq<payload>, b: seq<payload>)
    ensures FrameAll(a + b) == FrameAll(a) + FrameAll(b)
  {
    if a == [] {
      assert a + b == b;
    } else {
      assert (a + b)[1..] == a[1..] + b;
      FrameAllConcat(a[1..], b);
    }
  }

  lemma OneFrameAll(p: payload)
    ensures FrameAll([p]) == Frame(p)
  {
    assert FrameAll([p]) == Frame(p) + FrameAll([p][1..]);
  }

  lemma ParseOne(p: payload, rest: bytes)
    requires Incomplete(rest)
    ensures Parse(Frame(p) + rest) == ([p], rest)
  {
    OneFrameAll(p);
    ParseFramed([p], rest);
  }

  /** Parsing in two reads equals parsing at once, wherever the cut falls. */
  lemma ParseSplit(a: bytes, b: bytes)
    ensures Parse(a + b).0 == Parse(a).0 + Parse(Parse(a).1 + b).0
    ensures Parse(a + b).1 == Parse(Parse(a).1 + b).1
  {
    var first := Parse(a);
    var second := Parse(first.1 + b);
    ParseRebuilds(a);
    ParseRebuilds(first.1 + b);
    FrameAllConcat(first.0, second.0);
    Assoc(FrameAll(first.0), first.1, b);
    Assoc(FrameAll(first.0), FrameAll(second.0), second.1);
    ParseFramed(first.0 + second.0, second.1);
  }

  lemma NextFrame(buf: bytes, off: nat, frames: seq<payload>)
    requires off <= |buf| && !Incomplete(buf[off..]) && FrameAll(frames) == buf[..off]
    ensures var n := LengthPrefix(buf[off..]);
            FrameAll(frames + [buf[off + 2..off + 2 + n]]) == buf[..off + 2 + n]
  {
    var tail := buf[off..];
    var n := LengthPrefix(tail);
    var p := buf[off + 2..off + 2 + n];
    FrameOfPrefix(tail);
    FrameAllConcat(frames, [p]);
    assert p == tail[2..2 + n];
    hide Frame, LengthPrefix;
    assert FrameAll([p]) == Frame(p) + FrameAll([p][1..]) == Frame(p);
    assert tail[..|Frame(p)|] == Frame(p);
    assert |Frame(p)| == 2 + n by {
      assert |tail| == |Frame(p)| + |tail[2 + n..]|;
    }
    assert buf[..off] + tail[..2 + n] == buf[..off + 2 + n];
  }

  method IterFrames(buf: bytes) returns (frames: seq<payload>, rest: bytes)
    ensures FrameAll(frames) + rest == buf && Incomplete(rest)
    ensures (frames, rest) == Parse(buf)
  {
    frames := [];
    var off := 0;
    var n := |buf|;
    while n - off >= 2
      invariant 0 <= off <= n
      invariant FrameAll(frames) == buf[..off]
    {
      var ln := buf[off] as int * 256 + buf[off + 1] as int;
      if n - off < 2 + ln {
        break;
      }
      NextFrame(buf, off, frames);
      frames := frames + [buf[off + 2..off + 2 + ln]];
      off := off + 2 + ln;
    }
    rest := buf[off..];
    ParseFramed(frames, rest);
  }

  // ---------------------------------------------------------------------
  // RTP audio
  // ---------------------------------------------------------------------

  function RtpHeader(seqno: nat, ts: nat, ssrc: nat): (r: bytes)
    ensures |r| == RTP_HEADER_LEN
  {
    [0x80, 111] + Be(seqno % 0x1_0000, 2) + Be(ts % 0x1_0000_0000, 4) + Be(ssrc % 0x1_0000_0000, 4)
  }

  function BuildAudio(opus: bytes, seqno: nat, ts: nat, ssrc: nat): (r: bytes)
    ensures |r| == RTP_HEADER_LEN + |opus|
  {
    RtpHeader(seqno, ts, ssrc) + opus
  }

  datatype Rtp = Rtp(seqno: nat, ts: nat, ssrc: nat, opus: bytes)

  /** None where the frame has no Opus payload. */
  function ParseAudio(b: bytes): Option<Rtp> {
    if |b| <= RTP_HEADER_LEN then None
    else Some(Rtp(BeValue(b[2..4]), BeValue(b[4..8]), BeValue(b[8..12]), b[12..]))
  }

  /** Audio survives the RTP header, with the sequence number and clock reduced to their widths. */
  lemma AudioRoundTrip(opus: bytes, seqno: nat, ts: nat, ssrc: nat)
    ensures ParseAudio(BuildAudio(opus, seqno, ts, ssrc))
            == if opus == [] then None
               else Some(Rtp(seqno % 0x1_0000, ts % 0x1_0000_0000, ssrc % 0x1_0000_0000, opus))
  {
    var b := BuildAudio(opus, seqno, ts, ssrc);
    Widths();
    BeRoundTrip(seqno % 0x1_0000, 2);
    BeRoundTrip(ts % 0x1_0000_0000, 4);
    BeRoundTrip(ssrc % 0x1_0000_0000, 4);
    hide Be, BeValue;
    assert b[2..4] == Be(seqno % 0x1_0000, 2);
    assert b[4..8] == Be(ts % 0x1_0000_0000, 4);
    assert b[8..12] == Be(ssrc % 0x1_0000_0000, 4);
    assert b[12..] == opus;
  }

  // ---------------------------------------------------------------------
  // Text
  // ---------------------------------------------------------------------

  /** `b[n:]` */
  function Drop(b: bytes, n: nat): bytes {
    if |b| < n then [] else b[n..]
  }

  /** `decode("ascii", "ignore")` */
  function AsciiOnly(b: bytes): text {
    if b == [] then [] else (if b[0] < 128 then [b[0]] else []) + AsciiOnly(b[1..])
  }

  predicate IsAscii(b: bytes) {
    forall c <- b :: c < 128
  }

  /** The ASCII characters that str.strip removes. */
  predicate IsSpace(c: byte) {
    9 <= c <= 13 || 28 <= c <= 32
  }

  function LStrip(s: text): text {
    if s != [] && IsSpace(s[0]) then LStrip(s[1..]) else s
  }

  function RStrip(s: text): text {
    if s != [] && IsSpace(s[|s| - 1]) then RStrip(s[..|s| - 1]) else s
  }

  function Strip(s: text): text {
    RStrip(LStrip(s))
  }

  lemma {:induction false} AsciiOnlyId(b: bytes)
    requires IsAscii(b)
    ensures AsciiOnly(b) == b
  {
    if b != [] {
      assert b[0] in b && forall c <- b[1..] :: c in b;
      AsciiOnlyId(b[1..]);
    }
  }

  lemma {:induction false} StripShorter(s: text)
    ensures |LStrip(s)| <= |s| && |RStrip(s)| <= |s|
  {
    if s != [] {
      StripShorter(s[1..]);
      StripShorter(s[..|s| - 1]);
    }
  }

  /** Text without surrounding white space is what strip leaves alone. */
  lemma StripKeeps(s: text)
    ensures Strip(s) == s <==> s == [] || (!IsSpace(s[0]) && !IsSpace(s[|s| - 1]))
  {
    StripShorter(LStrip(s));
    if s != [] {
      StripShorter(s[1..]);
      StripShorter(s[..|s| - 1]);
    }
  }

  /** No white space at either end. */
  predicate Trimmed(s: text) {
    s != [] ==> !IsSpace(s[0]) && !IsSpace(s[|s| - 1])
  }

  predicate AllSpaces(s: text) {
    forall c <- s :: IsSpace(c)
  }

  lemma {:induction false} LStripSpaces(a: text, s: text)
    requires AllSpaces(a)
    ensures LStrip(a + s) == LStrip(s)
  {
    if a == [] {
      assert a + s == s;
    } else {
      assert a[0] in a && forall c <- a[1..] :: c in a;
      assert (a + s)[0] == a[0] && (a + s)[1..] == a[1..] + s;
      LStripSpaces(a[1..], s);
    }
  }

  lemma {:induction false} RStripSpaces(s: text, b: text)
    requires AllSpaces(b)
    ensures RStrip(s + b) == RStrip(s)
  {
    if b == [] {
      assert s + b == s;
    } else {
      var n := |b| - 1;
      assert b[n] in b && forall c <- b[..n] :: c in b;
      assert (s + b)[|s| + n] == b[n] && (s + b)[..|s| + n] == s + b[..n];
      RStripSpaces(s, b[..n]);
    }
  }

  /** Strip takes the white space at both ends and nothing else. */
  lemma StripIs(a: text, s: text, b: text)
    requires AllSpaces(a) && AllSpaces(b) && Trimmed(s)
    ensures Strip(a + s + b) == s
  {
    Assoc(a, s, b);
    LStripSpaces(a, s + b);
    if s == [] {
      assert s + b == b && b + [] == b;
      LStripSpaces(b, []);
    } else {
      assert (s + b)[0] == s[0];
      assert LStrip(s + b) == s + b;
      RStripSpaces(s, b);
      StripKeeps(s);
      assert LStrip(s) == s;
    }
  }

  /** Bytes beyond ASCII are dropped wherever they stand, all others kept in order. */
  lemma {:induction false} AsciiOnlyConcat(a: bytes, b: bytes)
    ensures AsciiOnly(a + b) == AsciiOnly(a) + AsciiOnly(b)
    ensures forall c: byte :: AsciiOnly([c]) == if c < 128 then [c] else []
  {
    if a == [] {
      assert a + b == b;
    } else {
      assert (a + b)[0] == a[0] && (a + b)[1..] == a[1..] + b;
      AsciiOnlyConcat(a[1..], b);
    }
  }

  // ---------------------------------------------------------------------
  // Challenge
  // ---------------------------------------------------------------------

  function HexDigit(n: nat): byte
    requires n < 16
  {
    if n < 10 then 48 + n else 87 + n
  }

  function HexValue(c: byte): (r: Option<nat>)
    ensures r.Some? ==> r.value < 16
  {
    if 48 <= c <= 57 then Some(c - 48)
    else if 97 <= c <= 102 then Some(c - 87)
    else if 65 <= c <= 70 then Some(c - 55)
    else None
  }

  function ToHex(b: bytes): text {
    if b == [] then [] else [HexDigit(b[0] / 16), HexDigit(b[0] % 16)] + ToHex(b[1..])
  }

  /** `bytes.fromhex`: pairs of digits, white space allowed before each pair and at the end. */
  function FromHex(s: text): Option<bytes> {
    if s == [] then Some([])
    else if 9 <= s[0] <= 13 || s[0] == 32 then FromHex(s[1..])
    else if |s| < 2 || HexValue(s[0]).None? || HexValue(s[1]).None? then None
    else
      match FromHex(s[2..])
      case None => None
      case Some(rest) =>
        var high, low := HexValue(s[0]).value, HexValue(s[1]).value;
        Some([16 * high + low] + rest)
  }

  function BuildChallenge(nonce: bytes): bytes {
    CHALLENGE_PREFIX + ToHex(nonce)
  }

  function ParseChallenge(b: bytes): Option<bytes> {
    FromHex(Drop(b, |CHALLENGE_PREFIX|))
  }

  lemma HexDigitValue(n: nat)
    requires n < 16
    ensures HexValue(HexDigit(n)) == Some(n) && HexDigit(n) > 32
  {}

  lemma FromHexPair(high: byte, low: byte, rest: text)
    requires high > 32 && HexValue(high).Some? && HexValue(low).Some? && FromHex(rest).Some?
    ensures FromHex([high, low] + rest)
            == Some([16 * HexValue(high).value + HexValue(low).value] + FromHex(rest).value)
  {
    hide HexValue;
    var all := [high, low] + rest;
    assert all[0] == high && all[1] == low && all[2..] == rest;
  }

  lemma NoHexDigits()
    ensures FromHex(ToHex([])) == Some([])
  {}

  lemma {:induction false} HexRoundTrip(b: bytes)
    ensures FromHex(ToHex(b)) == Some(b)
  {
    hide FromHex, HexDigit, HexValue;
    if b == [] {
      NoHexDigits();
    } else {
      var high: nat, low: nat := b[0] / 16, b[0] % 16;
      HexDigitValue(high);
      HexDigitValue(low);
      HexRoundTrip(b[1..]);
      FromHexPair(HexDigit(high), HexDigit(low), ToHex(b[1..]));
      assert 16 * high + low == b[0];
      assert [b[0]] + b[1..] == b;
    }
  }

  /** The digits of a text, in lower case. */
  function Digits(s: text): text {
    if s == [] then [] else
      (if 9 <= s[0] <= 13 || s[0] == 32 then [] else [if 65 <= s[0] <= 90 then s[0] + 32 else s[0]]) + Digits(s[1..])
  }

  lemma HexPairText(high: byte, low: byte)
    requires HexValue(high).Some? && HexValue(low).Some?
    ensures ToHex([16 * HexValue(high).value + HexValue(low).value]) == Digits([high, low])
  {
    var h: nat, l: nat := HexValue(high).value, HexValue(low).value;
    var b: byte := 16 * h + l;
    assert b / 16 == h && b % 16 == l;
    assert ToHex([b]) == [HexDigit(h), HexDigit(l)] + ToHex([b][1..]);
    assert [high, low][1..] == [low] && [low][1..] == [];
    assert Digits([high, low]) == Digits([high]) + Digits([low]) == [HexDigit(h)] + [HexDigit(l)] by {
      assert Digits([low]) == [HexDigit(l)] + Digits([]);
    }
  }

  /** Whatever text is accepted as hex spells the bytes it yields. */
  lemma {:induction false} FromHexSpells(s: text)
    requires FromHex(s).Some?
    ensures ToHex(FromHex(s).value) == Digits(s)
  {
    if s != [] {
      if 9 <= s[0] <= 13 || s[0] == 32 {
        FromHexSpells(s[1..]);
      } else {
        var rest := FromHex(s[2..]).value;
        var b: byte := 16 * HexValue(s[0]).value + HexValue(s[1]).value;
        FromHexSpells(s[2..]);
        HexPairText(s[0], s[1]);
        assert s == [s[0], s[1]] + s[2..];
        DigitsConcat([s[0], s[1]], s[2..]);
        hide Digits, HexDigit, HexValue;
        assert ([b] + rest)[1..] == rest && [b][1..] == [];
        assert ToHex([b] + rest) == ToHex([b]) + ToHex(rest) by {
          assert ToHex([b]) == [HexDigit(b / 16), HexDigit(b % 16)] + ToHex([]);
        }
      }
    }
  }

  lemma {:induction false} DigitsConcat(a: text, b: text)
    ensures Digits(a + b) == Digits(a) + Digits(b)
  {
    if a == [] {
      assert a + b == b;
    } else {
      assert (a + b)[0] == a[0] && (a + b)[1..] == a[1..] + b;
      DigitsConcat(a[1..], b);
    }
  }

  lemma ChallengeRoundTrip(nonce: bytes)
    ensures ParseChallenge(BuildChallenge(nonce)) == Some(nonce)
  {
    HexRoundTrip(nonce);
    assert Drop(BuildChallenge(nonce), |CHALLENGE_PREFIX|) == ToHex(nonce);
  }

  // ---------------------------------------------------------------------
  // AUTH
  // ---------------------------------------------------------------------

  /** Index of the first colon, or the length when there is none. */
  function FindColon(s: text): (k: nat)
    ensures k <= |s|
    ensures k < |s| ==> s[k] == COLON
    ensures forall i | 0 <= i < k :: s[i] != COLON
  {
    if s == [] || s[0] == COLON then 0 else 1 + FindColon(s[1..])
  }

  function BuildAuth(id: text, mac: text): bytes {
    AUTH_PREFIX + (id + [COLON] + mac)
  }

  /** None where the code raises ProtocolError. */
  function ParseAuth(b: bytes): Option<(text, text)> {
    var body := AsciiOnly(Drop(b, |AUTH_PREFIX|));
    var k := FindColon(body);
    if k == |body| then None else
      var id, mac := Strip(body[..k]), Strip(body[k + 1..]);
      if id == [] || mac == [] then None else Some((id, mac))
  }

  /** The text can be recovered only from between the first colon and the ends, trimmed. */
  predicate CleanAuth(id: text, mac: text) {
    && COLON !in id && id != [] && mac != []
    && !IsSpace(id[0]) && !IsSpace(id[|id| - 1])
    && !IsSpace(mac[0]) && !IsSpace(mac[|mac| - 1])
  }

  lemma AuthBody(id: text, mac: text)
    requires IsAscii(id) && IsAscii(mac)
    ensures AsciiOnly(Drop(BuildAuth(id, mac), |AUTH_PREFIX|)) == id + [COLON] + mac
  {
    assert Drop(BuildAuth(id, mac), |AUTH_PREFIX|) == id + [COLON] + mac;
    AsciiOnlyId(id + [COLON] + mac);
  }

  lemma FirstColon(id: text, mac: text)
    ensures COLON in id ==> FindColon(id + [COLON] + mac) < |id|
    ensures COLON !in id ==> FindColon(id + [COLON] + mac) == |id|
  {
    var body := id + [COLON] + mac;
    assert body[|id|] == COLON;
    assert forall i | 0 <= i < |id| :: body[i] == id[i];
    assert COLON !in id ==> forall i | 0 <= i < |id| :: body[i] != COLON;
  }

  /** An AUTH frame gives back its two parts exactly when neither is ambiguous on the wire. */
  lemma AuthRoundTrip(id: text, mac: text)
    requires IsAscii(id) && IsAscii(mac)
    ensures ParseAuth(BuildAuth(id, mac)) == Some((id, mac)) <==> CleanAuth(id, mac)
  {
    var body := id + [COLON] + mac;
    AuthBody(id, mac);
    FirstColon(id, mac);
    hide AsciiOnly, BuildAuth, Drop, LStrip, RStrip;
    if COLON in id {
      var front := body[..FindColon(body)];
      StripShorter(front);
      StripShorter(LStrip(front));
    } else {
      assert body[..|id|] == id && body[|id| + 1..] == mac;
      StripKeeps(id);
      StripKeeps(mac);
    }
  }

  // ---------------------------------------------------------------------
  // Classification
  // ---------------------------------------------------------------------

  /** What `json.loads` makes of a STAT body. */
  datatype Json = Invalid | Object | NotObject

  datatype Kind =
    | Hello(id: text)
    | Auth(device: text, mac: text)
    | Stat(doc: bytes, isObject: bool)
    | Audio(frame: bytes)
    | Malformed

  function Classify(json: bytes -> Json, b: bytes): Kind {
    if HELLO_PREFIX <= b then
      var id := Strip(AsciiOnly(b[|HELLO_PREFIX|..]));
      Hello(if id == [] then UNKNOWN else id)
    else if AUTH_PREFIX <= b then
      match ParseAuth(b)
      case None => Malformed
      case Some((id, mac)) => Auth(id, mac)
    else if STAT_PREFIX <= b then
      var doc := b[|STAT_PREFIX|..];
      match json(doc)
      case Invalid => Malformed
      case Object => Stat(doc, true)
      case NotObject => Stat(doc, false)
    else Audio(b)
  }

  /** The id of the last HELLO among these frames. */
  function LastHello(json: bytes -> Json, frames: seq<payload>): Option<text> {
    if frames == [] then None else
      var kind := Classify(json, frames[|frames| - 1]);
      if kind.Hello? then Some(kind.id) else LastHello(json, frames[..|frames| - 1])
  }

  function BuildHello(id: text): bytes {
    HELLO_PREFIX + id
  }

  function BuildStat(doc: bytes): bytes {
    STAT_PREFIX + doc
  }

  /** A frame built with an RTP header can never be taken for a control frame. */
  lemma ClassifyAudio(json: bytes -> Json, opus: bytes, seqno: nat, ts: nat, ssrc: nat)
    ensures Classify(json, BuildAudio(opus, seqno, ts, ssrc)) == Audio(BuildAudio(opus, seqno, ts, ssrc))
  {
    var b := BuildAudio(opus, seqno, ts, ssrc);
    assert b[0] == 0x80;
  }

  lemma ClassifyHello(json: bytes -> Json, id: text)
    requires IsAscii(id)
    ensures Classify(json, BuildHello(id)).Hello?
    ensures Strip(id) == id != [] ==> Classify(json, BuildHello(id)) == Hello(id)
  {
    assert BuildHello(id)[|HELLO_PREFIX|..] == id;
    AsciiOnlyId(id);
  }

  lemma ClassifyAuth(json: bytes -> Json, id: text, response: text)
    requires IsAscii(id) && IsAscii(response) && CleanAuth(id, response)
    ensures Classify(json, BuildAuth(id, response)) == Auth(id, response)
  {
    var b := BuildAuth(id, response);
    AuthRoundTrip(id, response);
    assert b[0] == 0x41 && HELLO_PREFIX[0] == 0x48;
    assert b[..|AUTH_PREFIX|] == AUTH_PREFIX;
    hide BuildAuth, ParseAuth, CleanAuth;
    assert AUTH_PREFIX <= b && !(HELLO_PREFIX <= b);
  }

  lemma ClassifyStat(json: bytes -> Json, doc: bytes)
    ensures Classify(json, BuildStat(doc))
            == if json(doc) == Invalid then Malformed else Stat(doc, json(doc) == Object)
  {
    var b := BuildStat(doc);
    assert b[0] == 0x53 && b[|STAT_PREFIX|..] == doc;
  }

  lemma {:induction false} AsciiOnlyIsAscii(b: bytes)
    ensures IsAscii(AsciiOnly(b))
  {
    if b != [] {
      AsciiOnlyIsAscii(b[1..]);
    }
  }

  lemma {:induction false} LStripTrims(s: text)
    ensures LStrip(s) != [] ==> !IsSpace(LStrip(s)[0])
    ensures forall c <- LStrip(s) :: c in s
  {
    if s != [] {
      LStripTrims(s[1..]);
    }
  }

  lemma {:induction false} RStripTrims(s: text)
    ensures RStrip(s) <= s
    ensures RStrip(s) != [] ==> !IsSpace(RStrip(s)[|RStrip(s)| - 1])
  {
    if s != [] {
      RStripTrims(s[..|s| - 1]);
    }
  }

  lemma StripTrims(s: text)
    ensures Trimmed(Strip(s)) && forall c <- Strip(s) :: c in s
  {
    LStripTrims(s);
    RStripTrims(LStrip(s));
  }

  lemma StripOfAscii(s: text)
    requires IsAscii(s)
    ensures IsAscii(Strip(s)) && Trimmed(Strip(s))
  {
    StripTrims(s);
  }

  /** Whatever bytes arrive, an id taken from a frame is non-empty trimmed ASCII, and an AUTH id has no colon. */
  lemma ClassifiedIdsAreClean(json: bytes -> Json, b: bytes)
    ensures var kind := Classify(json, b);
            && (kind.Hello? ==> kind.id != [] && IsAscii(kind.id) && Trimmed(kind.id))
            && (kind.Auth? ==> IsAscii(kind.device) && IsAscii(kind.mac) && CleanAuth(kind.device, kind.mac))
  {
    if HELLO_PREFIX <= b {
      AsciiOnlyIsAscii(b[|HELLO_PREFIX|..]);
      StripOfAscii(AsciiOnly(b[|HELLO_PREFIX|..]));
    } else if AUTH_PREFIX <= b {
      ParsedAuthIsClean(b);
    }
  }

  lemma ParsedAuthIsClean(b: bytes)
    ensures ParseAuth(b).Some? ==>
              && IsAscii(ParseAuth(b).value.0) && IsAscii(ParseAuth(b).value.1)
              && CleanAuth(ParseAuth(b).value.0, ParseAuth(b).value.1)
  {
    var body := AsciiOnly(Drop(b, |AUTH_PREFIX|));
    var k := FindColon(body);
    AsciiOnlyIsAscii(Drop(b, |AUTH_PREFIX|));
    if k < |body| {
      var front, back := body[..k], body[k + 1..];
      assert forall c <- front :: c in body;
      assert forall c <- back :: c in body;
      assert COLON !in front;
      StripTrims(front);
      StripTrims(back);
    }
  }

  // ---------------------------------------------------------------------
  // Every frame has its kind
  // ---------------------------------------------------------------------

  lemma WireNames()
    ensures HELLO_PREFIX == Ascii("HELLO:") && AUTH_PREFIX == Ascii("AUTH:") && STAT_PREFIX == Ascii("STAT:")
    ensures CHALLENGE_PREFIX == Ascii("CHALLENGE:") && UNKNOWN == Ascii("unknown") && [COLON] == Ascii(":")
  {}

  /** RTP version 2 and dynamic payload type 111. */
  lemma RtpStarts(opus: bytes, seqno: nat, ts: nat, ssrc: nat)
    ensures BuildAudio(opus, seqno, ts, ssrc)[..2] == [0x80, 111]
  {}

  /** A HELLO names its device whatever white space stands around the id, and "unknown" when it names none. */
  lemma ClassifyPaddedHello(json: bytes -> Json, a: text, id: text, b: text)
    requires AllSpaces(a) && AllSpaces(b) && IsAscii(id) && Trimmed(id)
    ensures Classify(json, Ascii("HELLO:") + (a + id + b)) == Hello(if id == [] then Ascii("unknown") else id)
  {
    WireNames();
    var body := a + id + b;
    var frame := HELLO_PREFIX + body;
    assert frame[..|HELLO_PREFIX|] == HELLO_PREFIX && frame[|HELLO_PREFIX|..] == body;
    assert IsAscii(body);
    AsciiOnlyId(body);
    StripIs(a, id, b);
  }

  /** An AUTH frame splits at its first colon; each part is trimmed and must not be empty. */
  lemma ParseAuthIs(id: text, mac: text)
    requires IsAscii(id) && IsAscii(mac) && COLON !in id
    ensures ParseAuth(Ascii("AUTH:") + (id + Ascii(":") + mac))
            == if Strip(id) == [] || Strip(mac) == [] then None else Some((Strip(id), Strip(mac)))
  {
    WireNames();
    var body := id + [COLON] + mac;
    AuthBody(id, mac);
    FirstColon(id, mac);
    hide AsciiOnly, Drop, Strip;
    assert body[..|id|] == id && body[|id| + 1..] == mac;
  }

  lemma {:induction false} NoColonAtAll(s: text)
    requires COLON !in s
    ensures FindColon(s) == |s|
  {
    if s != [] {
      NoColonAtAll(s[1..]);
    }
  }

  lemma AuthNeedsColon(body: text)
    requires IsAscii(body) && COLON !in body
    ensures ParseAuth(Ascii("AUTH:") + body).None?
  {
    WireNames();
    assert Drop(AUTH_PREFIX + body, |AUTH_PREFIX|) == body;
    AsciiOnlyId(body);
    NoColonAtAll(body);
  }

  /** A frame is malformed exactly when it is an AUTH frame that does not parse or a STAT frame without valid JSON. */
  lemma MalformedExactly(json: bytes -> Json, b: bytes)
    ensures Classify(json, b).Malformed? <==>
              || (Ascii("AUTH:") <= b && ParseAuth(b).None?)
              || (Ascii("STAT:") <= b && json(b[5..]) == Invalid)
  {
    WireNames();
    hide ParseAuth;
    PrefixesApart(b);
  }

  /** Everything without one of the three prefixes is audio, and nothing else is. */
  lemma AudioExactly(json: bytes -> Json, b: bytes)
    ensures Classify(json, b) == Audio(b) <==>
              !(Ascii("HELLO:") <= b) && !(Ascii("AUTH:") <= b) && !(Ascii("STAT:") <= b)
    ensures Classify(json, b).Audio? ==> Classify(json, b) == Audio(b)
  {
    WireNames();
    hide ParseAuth;
  }

  lemma PrefixesApart(b: bytes)
    ensures !(HELLO_PREFIX <= b && AUTH_PREFIX <= b) && !(HELLO_PREFIX <= b && STAT_PREFIX <= b)
    ensures !(AUTH_PREFIX <= b && STAT_PREFIX <= b)
  {
    assert HELLO_PREFIX[0] != AUTH_PREFIX[0] && HELLO_PREFIX[0] != STAT_PREFIX[0] && AUTH_PREFIX[0] != STAT_PREFIX[0];
  }
}
