/** Loss accounting of the reference receiver (server/sink.py; RFC 3550, section 5.1 and appendix A.3). */
module Sink {
  import opened Bytes
  import opened Protocol

  const WRAP := 0x1_0000

  // ---------------------------------------------------------------------
  // One arrival
  // ---------------------------------------------------------------------

  datatype Loss = Loss(lost: nat, reordered: nat, lastSeq: Option<nat>)

  const NO_LOSS := Loss(0, 0, None)

  /** `note_seq` on a 16-bit sequence number. */
  function Note(s: Loss, seqno: nat): Loss {
    if s.lastSeq.None? then s.(lastSeq := Some(seqno)) else
      var gap := (seqno - s.lastSeq.value - 1) % WRAP;
      if gap == 0 then s.(lastSeq := Some(seqno))
      else if gap < 0x8000 then s.(lost := s.lost + gap, lastSeq := Some(seqno))
      else s.(reordered := s.reordered + 1)
  }

  /** The same accounting on sequence numbers that never wrap. */
  datatype Exact = Exact(lost: nat, late: nat, max: Option<int>) {
    function Wrapped(): Loss {
      Loss(lost, late, if max.None? then None else Some(max.value % WRAP))
    }
  }

  function NoteExact(s: Exact, u: int): Exact {
    if s.max.None? then s.(max := Some(u))
    else if u > s.max.value then s.(lost := s.lost + (u - s.max.value - 1), max := Some(u))
    else s.(late := s.late + 1)
  }

  /** At most 0x8000 ahead of the maximum; behind it, less than half a wrap away modulo 2^16. */
  predicate InWindow(max: Option<int>, u: int) {
    max.None? || if u > max.value then u - max.value <= 0x8000 else (max.value - u) % WRAP <= 0x7FFF
  }

  lemma WrappedGap(u: int, m: int)
    ensures (u % WRAP - m % WRAP - 1) % WRAP == (u - m - 1) % WRAP
  {
    var a, b := u / WRAP, m / WRAP;
    assert u == WRAP * a + u % WRAP && m == WRAP * b + m % WRAP;
    ModShift(u % WRAP - m % WRAP - 1, a - b);
  }

  lemma ModShift(x: int, k: int)
    ensures (x + WRAP * k) % WRAP == x % WRAP
  {}

  lemma ModOfGap(d: int)
    ensures d > 0 ==> ((d - 1) % WRAP == d - 1 <==> d <= WRAP)
    ensures d <= 0 ==> (d - 1) % WRAP == WRAP - 1 - (-d) % WRAP
  {
    if d <= 0 {
      var q, r := (-d) / WRAP, (-d) % WRAP;
      assert d - 1 == (WRAP - 1 - r) + WRAP * (-q - 1);
      ModShift(WRAP - 1 - r, -q - 1);
    }
  }

  /** A 16-bit receiver does the unwrapped accounting exactly for arrivals inside the window. */
  lemma NoteIsExactIff(s: Exact, u: int)
    ensures Note(s.Wrapped(), u % WRAP) == NoteExact(s, u).Wrapped() <==> InWindow(s.max, u)
  {
    if s.max.Some? {
      WrappedGap(u, s.max.value);
      ModOfGap(u - s.max.value);
      var d := u - s.max.value;
      var gap := (d - 1) % WRAP;
      assert 0 <= gap < WRAP;
      if d > 0 {
        GapAhead(d);
      }
    }
  }

  lemma GapAhead(d: int)
    requires d > 0
    ensures (d - 1) % WRAP <= d - 1
    ensures d <= 0x8000 ==> (d - 1) % WRAP == d - 1
    ensures d > 0x8000 ==> (d - 1) % WRAP >= 0x8000 || (d - 1) % WRAP < d - 1
  {
    var q := (d - 1) / WRAP;
    assert d - 1 == WRAP * q + (d - 1) % WRAP;
    if d > WRAP {
      assert q >= 1;
    }
  }

  // ---------------------------------------------------------------------
  // Whole runs
  // ---------------------------------------------------------------------

  function NoteAll(us: seq<int>): Loss {
    if us == [] then NO_LOSS else Note(NoteAll(us[..|us| - 1]), us[|us| - 1] % WRAP)
  }

  function Max(us: seq<int>): int
    requires us != []
  {
    if |us| == 1 then us[0] else
      var m := Max(us[..|us| - 1]);
      if us[|us| - 1] > m then us[|us| - 1] else m
  }

  function MaxBefore(us: seq<int>): Option<int> {
    if us == [] then None else Some(Max(us))
  }

  /** Arrivals that are not above everything before them. */
  function LateCount(us: seq<int>): (n: nat)
    ensures n <= |us|
  {
    if |us| <= 1 then 0 else
      LateCount(us[..|us| - 1]) + if us[|us| - 1] <= Max(us[..|us| - 1]) then 1 else 0
  }

  predicate AllInWindow(us: seq<int>) {
    forall i | 0 <= i < |us| :: InWindow(MaxBefore(us[..i]), us[i])
  }

  lemma {:induction false} MaxIsGreatest(us: seq<int>)
    requires us != []
    ensures Max(us) in us && forall u <- us :: u <= Max(us)
  {
    if |us| > 1 {
      MaxIsGreatest(us[..|us| - 1]);
      assert us == us[..|us| - 1] + [us[|us| - 1]];
    }
  }

  lemma AllInWindowPrefix(us: seq<int>, n: nat)
    requires AllInWindow(us) && n <= |us|
    ensures AllInWindow(us[..n])
  {
    forall i | 0 <= i < n ensures InWindow(MaxBefore(us[..n][..i]), us[..n][i]) {
      assert us[..n][..i] == us[..i];
    }
  }

  /**
    * After any run inside the window: the last number is the maximum modulo 2^16, `reordered`
    * counts exactly the arrivals not above the running maximum, and losses plus first-time arrivals
    * cover the whole range from the first number to the maximum.
    */
  lemma {:induction false} Unwraps(us: seq<int>)
    requires us != [] && AllInWindow(us)
    ensures var s := NoteAll(us);
            && s.lastSeq == Some(Max(us) % WRAP)
            && s.reordered == LateCount(us)
            && s.lost + |us| - s.reordered == Max(us) - us[0] + 1
    decreases |us|
  {
    var n := |us| - 1;
    var init, u := us[..n], us[n];
    assert InWindow(MaxBefore(us[..n]), us[n]);
    if n == 0 {
      assert NoteAll([]) == NO_LOSS;
    } else {
      AllInWindowPrefix(us, n);
      Unwraps(init);
      var before := NoteAll(init);
      var exact := Exact(before.lost, before.reordered, Some(Max(init)));
      assert exact.Wrapped() == before;
      NoteIsExactIff(exact, u);
    }
  }

  // ---------------------------------------------------------------------
  // Missing numbers
  // ---------------------------------------------------------------------

  function Interval(from: int, to: int): set<int>
    decreases if from < to then to - from else 0
  {
    if from >= to then {} else Interval(from, to - 1) + {to - 1}
  }

  lemma {:induction false} IntervalIs(from: int, to: int)
    ensures forall n :: n in Interval(from, to) <==> from <= n < to
    ensures |Interval(from, to)| == if from <= to then to - from else 0
    decreases if from < to then to - from else 0
  {
    if from < to {
      IntervalIs(from, to - 1);
    }
  }

  /** The numbers from the first arrival to the greatest that have not arrived. */
  function Missing(us: seq<int>): set<int>
    requires us != []
  {
    set n | n in Interval(us[0], Max(us) + 1) && n !in us
  }

  /** Late arrivals that fill a gap: not below the first number, not seen before. */
  function Fills(us: seq<int>): (n: nat)
    ensures n <= |us|
  {
    if |us| <= 1 then 0 else
      var init, u := us[..|us| - 1], us[|us| - 1];
      Fills(init) + if us[0] <= u <= Max(init) && u !in init then 1 else 0
  }

  lemma MissingIff(us: seq<int>, n: int)
    requires us != []
    ensures n in Missing(us) <==> us[0] <= n <= Max(us) && n !in us
  {
    IntervalIs(us[0], Max(us) + 1);
    hide Max, Interval;
  }

  lemma MaxNext(init: seq<int>, u: int)
    requires init != []
    ensures Max(init + [u]) == if u > Max(init) then u else Max(init)
    ensures LateCount(init + [u]) == LateCount(init) + if u <= Max(init) then 1 else 0
    ensures Fills(init + [u]) == Fills(init) + if init[0] <= u <= Max(init) && u !in init then 1 else 0
  {
    assert (init + [u])[..|init|] == init;
  }

  lemma DisjointSize(a: set<int>, b: set<int>, n: int)
    requires (forall k <- a :: k <= n) && (forall k <- b :: k > n)
    ensures |a + b| == |a| + |b|
  {
    forall k | k in a ensures k !in b {}
    assert a !! b;
  }

  lemma MissingAheadIff(init: seq<int>, u: int, n: int)
    requires init != [] && u > Max(init)
    ensures n in Missing(init + [u]) <==> n in Missing(init) || Max(init) < n < u
    ensures n in Missing(init) ==> n <= Max(init)
  {
    MaxIsGreatest(init);
    MaxNext(init, u);
    hide Max, Missing;
    assert (init + [u])[0] == init[0] && init[0] in init;
    assert n in init + [u] <==> n in init || n == u;
    MissingIff(init, n);
    MissingIff(init + [u], n);
  }

  /** A new maximum opens a gap before it. */
  lemma MissingAhead(init: seq<int>, u: int)
    requires init != [] && u > Max(init)
    ensures |Missing(init + [u])| == |Missing(init)| + (u - Max(init) - 1)
  {
    var m := Max(init);
    IntervalIs(m + 1, u);
    hide Max, Missing, Interval;
    var before, gap := Missing(init), Interval(m + 1, u);
    forall n
      ensures n in Missing(init + [u]) <==> n in before + gap
      ensures n in before ==> n <= m
    {
      MissingAheadIff(init, u, n);
    }
    assert Missing(init + [u]) == before + gap;
    DisjointSize(before, gap, m);
  }

  /** Any other arrival closes at most its own number. */
  lemma MissingBehind(init: seq<int>, u: int)
    requires init != [] && u <= Max(init)
    ensures Missing(init + [u]) == Missing(init) - {u}
  {
    MaxNext(init, u);
    hide Max, Missing;
    forall n ensures n in Missing(init + [u]) <==> n in Missing(init) - {u} {
      MissingIff(init, n);
      MissingIff(init + [u], n);
    }
  }

  lemma OneArrival(u: int)
    ensures NoteAll([u]).lost == 0 && Missing([u]) == {} && Fills([u]) == 0
  {
    assert NoteAll([u][..0]) == NO_LOSS;
    hide Missing;
    forall n ensures n !in Missing([u]) {
      MissingIff([u], n);
    }
  }

  /**
    * After any run inside the window the loss count is the number of missing numbers plus the late
    * arrivals that filled a gap: a loss once counted is never taken back.
    */
  lemma {:induction false} LostIsMissingPlusFilled(us: seq<int>)
    requires us != [] && AllInWindow(us)
    ensures NoteAll(us).lost == |Missing(us)| + Fills(us)
  {
    hide NoteAll, AllInWindow, Missing, Max, Fills, LateCount;
    var n := |us| - 1;
    var init, u := us[..n], us[n];
    assert us == init + [u];
    if n == 0 {
      assert us == [u];
      OneArrival(u);
    } else {
      AllInWindowPrefix(us, n);
      LostIsMissingPlusFilled(init);
      Unwraps(init);
      Unwraps(us);
      MaxNext(init, u);
      if u > Max(init) {
        MissingAhead(init, u);
      } else {
        MissingBehind(init, u);
        MissingIff(init, u);
      }
    }
  }

  /** So the count is exact if and only if no arrival came late into a gap. */
  lemma LossExactIff(us: seq<int>)
    requires us != [] && AllInWindow(us)
    ensures NoteAll(us).lost == |Missing(us)| <==> Fills(us) == 0
  {
    LostIsMissingPlusFilled(us);
  }

  lemma NothingMissing()
    ensures Missing([0, 2, 1]) == {}
  {
    MaxNext([0], 2);
    MaxNext([0, 2], 1);
    hide Max, Missing, Fills, LateCount;
    var us: seq<int> := [0, 2, 1];
    assert [0] + [2] == [0, 2] && [0, 2] + [1] == us;
    forall n ensures n !in Missing(us) {
      MissingIff(us, n);
    }
  }

  lemma NoteThree(a: int, b: int, c: int)
    ensures NoteAll([a, b, c]) == Note(Note(Note(NO_LOSS, a % WRAP), b % WRAP), c % WRAP)
  {
    hide Note;
    var one, two, three: seq<int> := [a], [a, b], [a, b, c];
    assert three[..2] == two && two[..1] == one && one[..0] == [];
    assert NoteAll(one) == Note(NO_LOSS, a % WRAP);
  }

  /** Numbers 0, 2, 1: nothing is missing, yet one is counted lost. */
  lemma LateArrivalStaysLost()
    ensures Missing([0, 2, 1]) == {} && NoteAll([0, 2, 1]) == Loss(1, 1, Some(2))
  {
    hide Missing, NoteAll;
    NothingMissing();
    NoteThree(0, 2, 1);
  }

  /** Numbers 0 and 0x8001: 0x8000 are missing, none is counted lost. */
  lemma LongGapIsReordering()
    ensures NoteAll([0, 0x8001]) == Loss(0, 1, Some(0))
  {
    var one, two: seq<int> := [0], [0, 0x8001];
    assert two[..1] == one && one[..0] == [];
  }

  predicate Increasing(us: seq<int>) {
    forall i, j | 0 <= i < j < |us| :: us[i] < us[j]
  }

  /** Fewer than 0x8000 numbers are missing in a row. */
  predicate ShortGaps(us: seq<int>) {
    forall i | 0 < i < |us| :: us[i] - us[i - 1] <= 0x8000
  }

  /** What the receiver holds after in-order arrivals: the truth, or a number already wrong for good. */
  ghost predicate InOrderState(us: seq<int>)
    requires us != []
  {
    var s, n := NoteAll(us), |us|;
    var missing := us[n - 1] - us[0] + 1 - n;
    if ShortGaps(us) then s == Loss(if missing >= 0 then missing else 0, 0, Some(us[n - 1] % WRAP)) && missing >= 0
    else s.reordered > 0 || (s.lost < missing && s.lastSeq == Some(us[n - 1] % WRAP))
  }

  lemma {:induction false} InOrder(us: seq<int>)
    requires us != [] && Increasing(us)
    ensures InOrderState(us)
  {
    var n := |us| - 1;
    var init, u := us[..n], us[n];
    if n == 0 {
      assert NoteAll([]) == NO_LOSS && us[..0] == [];
    } else {
      InOrder(init);
      var d := u - us[n - 1];
      assert ShortGaps(us) <==> ShortGaps(init) && d <= 0x8000;
      GapAhead(d);
      WrappedGap(u, us[n - 1]);
    }
  }

  /**
    * In-order arrivals with gaps are counted exactly, none as reordered, if and only if fewer than
    * 0x8000 numbers are missing in a row.
    */
  lemma InOrderLossIff(us: seq<int>)
    requires us != [] && Increasing(us)
    ensures NoteAll(us).reordered == 0 && NoteAll(us).lost == us[|us| - 1] - us[0] + 1 - |us| <==> ShortGaps(us)
  {
    InOrder(us);
  }

  // ---------------------------------------------------------------------
  // The receiver
  // ---------------------------------------------------------------------

  datatype Device = Device(frames: nat, bytesIn: nat, statsRx: nat, headerErrors: nat, loss: Loss)

  const NEW_DEVICE := Device(0, 0, 0, 0, NO_LOSS)

  class DeviceStats {
    var frames: nat
    var bytesIn: nat
    var statsRx: nat
    var headerErrors: nat
    var lost: nat
    var reordered: nat
    var lastSeq: Option<nat>

    function State(): Device
      reads this
    {
      Device(frames, bytesIn, statsRx, headerErrors, Loss(lost, reordered, lastSeq))
    }

    constructor ()
      ensures State() == NEW_DEVICE
    {
      frames, bytesIn, statsRx, headerErrors := 0, 0, 0, 0;
      lost, reordered, lastSeq := 0, 0, None;
    }

    method NoteSeq(seqno: nat)
      modifies this
      ensures State() == old(State()).(loss := Note(old(State()).loss, seqno))
    {
      if lastSeq.Some? {
        var gap := (seqno - lastSeq.value - 1) % 0x1_0000;
        if gap == 0 {
        } else if gap < 0x8000 {
          lost := lost + gap;
        } else {
          reordered := reordered + 1;
          return;
        }
      }
      lastSeq := Some(seqno);
    }

    method NoteFrame(frame: payload)
      modifies this
      ensures State() == Counted(old(State()), frame)
    {
      frames := frames + 1;
      bytesIn := bytesIn + |frame|;
      var rtp := ParseAudio(frame);
      if rtp.None? {
        headerErrors := headerErrors + 1;
      } else {
        NoteSeq(rtp.value.seqno);
      }
    }
  }

  /** A frame taken as audio. */
  function Counted(d: Device, frame: payload): Device {
    var counted := d.(frames := d.frames + 1, bytesIn := d.bytesIn + |frame|);
    match ParseAudio(frame)
    case None => counted.(headerErrors := d.headerErrors + 1)
    case Some(rtp) => counted.(loss := Note(d.loss, rtp.seqno))
  }

  /** A connection of the receiver: whose frames these are, and whether an exception has ended it. */
  datatype Receiver = Receiver(imei: text, devices: map<text, Device>, raised: bool) {
    function Find(id: text): Device {
      if id in devices then devices[id] else NEW_DEVICE
    }
  }

  /**
    * One frame in `handle`. An AUTH frame has no branch of its own and is counted as audio; a frame
    * that `classify` rejects ends the connection.
    */
  function Receive(json: bytes -> Json, r: Receiver, frame: payload): Receiver {
    if r.raised then r else
      match Classify(json, frame)
      case Malformed => r.(raised := true)
      case Hello(id) => Receiver(id, r.devices[id := r.Find(id)], false)
      case Stat(_, _) =>
        r.(devices := r.devices[r.imei := r.Find(r.imei).(statsRx := r.Find(r.imei).statsRx + 1)])
      case _ => r.(devices := r.devices[r.imei := Counted(r.Find(r.imei), frame)])
  }

  function ReceiveAll(json: bytes -> Json, r: Receiver, frames: seq<payload>): Receiver {
    if frames == [] then r else
      Receive(json, ReceiveAll(json, r, frames[..|frames| - 1]), frames[|frames| - 1])
  }

  /** The read loop of `handle`: each read completes some frames. */
  function ReceiveReads(json: bytes -> Json, r: Receiver, buf: bytes, rs: seq<bytes>): Receiver
    decreases |rs|
  {
    if rs == [] || rs[0] == [] || r.raised then r else
      var (frames, rest) := Parse(buf + rs[0]);
      ReceiveReads(json, ReceiveAll(json, r, frames), rest, rs[1..])
  }

  class Sink {
    var devices: map<text, DeviceStats>
    var connections: nat

    /** No two ids share their counters. */
    ghost predicate Valid()
      reads this
    {
      forall a, b | a in devices && b in devices && a != b :: devices[a] != devices[b]
    }

    ghost function Table(): map<text, Device>
      reads this, devices.Values
    {
      map id | id in devices :: devices[id].State()
    }

    constructor ()
      ensures Valid() && Table() == map[] && connections == 0
    {
      devices, connections := map[], 0;
    }

    method Dev(id: text) returns (d: DeviceStats)
      requires Valid()
      modifies this`devices
      ensures Valid() && id in devices && devices[id] == d
      ensures devices.Values <= old(devices.Values) + {d}
      ensures fresh(devices.Values - old(devices.Values))
      ensures Table() == old(Table())[id := Receiver(id, old(Table()), false).Find(id)]
    {
      if id !in devices {
        var created := new DeviceStats();
        devices := devices[id := created];
      }
      d := devices[id];
    }

    /** The body of the frame loop; `raised` where an exception leaves it. */
    method HandleFrame(json: bytes -> Json, claimed: text, frame: payload) returns (imei: text, raised: bool)
      requires Valid()
      modifies this`devices, devices.Values
      ensures Valid() && fresh(devices.Values - old(devices.Values))
      ensures Receiver(imei, Table(), raised) == Receive(json, Receiver(claimed, old(Table()), false), frame)
    {
      hide Classify, Counted, Receiver.Find;
      imei, raised := claimed, false;
      var kind := Classify(json, frame);
      if kind.Malformed? {
        raised := true;
      } else if kind.Hello? {
        imei := kind.id;
        var d := Dev(imei);
        FindAnywhere(imei, claimed, old(Table()));
      } else if kind.Stat? {
        CountStat(imei);
      } else {
        CountFrame(imei, frame);
      }
    }

    method CountStat(id: text)
      requires Valid()
      modifies this`devices, devices.Values
      ensures Valid() && fresh(devices.Values - old(devices.Values))
      ensures var d := Receiver(id, old(Table()), false).Find(id);
              Table() == old(Table())[id := d.(statsRx := d.statsRx + 1)]
    {
      var d := Dev(id);
      NoteStatFor(d, id);
    }

    method CountFrame(id: text, frame: payload)
      requires Valid()
      modifies this`devices, devices.Values
      ensures Valid() && fresh(devices.Values - old(devices.Values))
      ensures Table() == old(Table())[id := Counted(Receiver(id, old(Table()), false).Find(id), frame)]
    {
      hide Counted;
      var d := Dev(id);
      NoteFrameFor(d, id, frame);
    }

    method NoteStatFor(d: DeviceStats, id: text)
      requires Valid() && id in devices && devices[id] == d
      modifies d
      ensures Valid() && Table() == old(Table())[id := old(d.State()).(statsRx := old(d.State()).statsRx + 1)]
    {
      d.statsRx := d.statsRx + 1;
      assert forall other | other in devices && other != id :: devices[other].State() == old(devices[other].State());
    }

    method NoteFrameFor(d: DeviceStats, id: text, frame: payload)
      requires Valid() && id in devices && devices[id] == d
      modifies d
      ensures Valid() && Table() == old(Table())[id := Counted(old(d.State()), frame)]
    {
      hide Counted;
      d.NoteFrame(frame);
      assert forall other | other in devices && other != id :: devices[other].State() == old(devices[other].State());
    }

    method HandleFrames(json: bytes -> Json, claimed: text, frames: seq<payload>) returns (imei: text, raised: bool)
      requires Valid()
      modifies this`devices, devices.Values
      ensures Valid() && fresh(devices.Values - old(devices.Values))
      ensures Receiver(imei, Table(), raised) == ReceiveAll(json, Receiver(claimed, old(Table()), false), frames)
    {
      hide Receive;
      ghost var start := Receiver(claimed, Table(), false);
      imei, raised := claimed, false;
      for k := 0 to |frames|
        invariant Valid() && !raised && fresh(devices.Values - old(devices.Values))
        invariant Receiver(imei, Table(), raised) == ReceiveAll(json, start, frames[..k])
      {
        assert frames[..k + 1][..k] == frames[..k];
        imei, raised := HandleFrame(json, imei, frames[k]);
        if raised {
          RaisedStays(json, start, frames, k + 1);
          return;
        }
      }
      assert frames[..|frames|] == frames;
    }

    method Handle(json: bytes -> Json, rs: seq<bytes>) returns (imei: text, raised: bool)
      requires Valid()
      modifies this, devices.Values
      ensures Valid() && connections == old(connections) + 1
      ensures Receiver(imei, Table(), raised) == ReceiveReads(json, Receiver(UNKNOWN, old(Table()), false), [], rs)
    {
      connections := connections + 1;
      assert Table() == old(Table());
      imei, raised := ReadLoop(json, rs);
    }

    /** Until an empty read, an exception, or a time-out once the reads are used up. */
    method ReadLoop(json: bytes -> Json, rs: seq<bytes>) returns (imei: text, raised: bool)
      requires Valid()
      modifies this`devices, devices.Values
      ensures Valid()
      ensures Receiver(imei, Table(), raised) == ReceiveReads(json, Receiver(UNKNOWN, old(Table()), false), [], rs)
    {
      hide Parse, ReceiveAll;
      ghost var start := Receiver(UNKNOWN, Table(), false);
      imei, raised := UNKNOWN, false;
      var buf, k := [], 0;
      assert rs[0..] == rs;
      while k < |rs| && rs[k] != [] && !raised
        invariant k <= |rs| && Valid() && fresh(devices.Values - old(devices.Values))
        invariant ReceiveReads(json, start, [], rs) == ReceiveReads(json, Receiver(imei, Table(), raised), buf, rs[k..])
      {
        var frames;
        frames, buf := IterFrames(buf + rs[k]);
        imei, raised := HandleFrames(json, imei, frames);
        assert rs[k..][1..] == rs[k + 1..];
        k := k + 1;
      }
    }
  }

  lemma FindAnywhere(id: text, other: text, devices: map<text, Device>)
    ensures Receiver(id, devices, false).Find(id) == Receiver(other, devices, false).Find(id)
  {}

  lemma {:induction false} RaisedStays(json: bytes -> Json, r: Receiver, frames: seq<payload>, k: nat)
    requires k <= |frames| && ReceiveAll(json, r, frames[..k]).raised
    ensures ReceiveAll(json, r, frames) == ReceiveAll(json, r, frames[..k])
  {
    if k == |frames| {
      assert frames[..k] == frames;
    } else {
      assert frames[..|frames| - 1][..k] == frames[..k];
      RaisedStays(json, r, frames[..|frames| - 1], k);
    }
  }

  // ---------------------------------------------------------------------
  // Whole connections
  // ---------------------------------------------------------------------

  lemma {:induction false} ReceiveConcat(json: bytes -> Json, r: Receiver, a: seq<payload>, b: seq<payload>)
    ensures ReceiveAll(json, r, a + b) == ReceiveAll(json, ReceiveAll(json, r, a), b)
  {
    hide Receive;
    if b == [] {
      assert a + b == a;
    } else {
      assert (a + b)[..|a + b| - 1] == a + b[..|b| - 1];
      ReceiveConcat(json, r, a, b[..|b| - 1]);
    }
  }

  lemma NothingAfterRaise(json: bytes -> Json, r: Receiver, frames: seq<payload>)
    requires r.raised
    ensures ReceiveAll(json, r, frames) == r
  {
    RaisedStays(json, r, frames, 0);
  }

  /** However the bytes are divided into reads, the receiver ends as if it had parsed them at once. */
  lemma {:induction false} ReadsJoin(json: bytes -> Json, r: Receiver, buf: bytes, chunks: seq<bytes>)
    requires Incomplete(buf) && NonEmptyChunks(chunks)
    ensures ReceiveReads(json, r, buf, chunks) == ReceiveAll(json, r, Parse(buf + Flatten(chunks)).0)
    decreases |chunks|
  {
    if r.raised {
      NothingAfterRaise(json, r, Parse(buf + Flatten(chunks)).0);
    } else if chunks == [] {
      assert buf + Flatten(chunks) == buf;
    } else {
      var all, later := buf + chunks[0], Flatten(chunks[1..]);
      var (frames, rest) := Parse(all);
      assert chunks[0] in chunks && forall c <- chunks[1..] :: c in chunks;
      Assoc(buf, chunks[0], later);
      ParseRebuilds(all);
      ParseSplit(all, later);
      hide Parse, Flatten, ReceiveAll, Incomplete;
      ReadsJoin(json, ReceiveAll(json, r, frames), rest, chunks[1..]);
      ReceiveConcat(json, r, frames, Parse(rest + later).0);
    }
  }

  /** The receiver's connection dies exactly when some frame is one that `classify` rejects. */
  lemma ReceiveRaisesIff(json: bytes -> Json, r: Receiver, f: payload)
    ensures Receive(json, r, f).raised <==> r.raised || Classify(json, f).Malformed?
  {
    hide Classify, Counted, Receiver.Find;
  }

  lemma {:induction false} RaisesIffMalformed(json: bytes -> Json, r: Receiver, frames: seq<payload>)
    requires !r.raised
    ensures ReceiveAll(json, r, frames).raised <==> exists f <- frames :: Classify(json, f).Malformed?
  {
    if frames != [] {
      hide Classify, Receive;
      var init, last := frames[..|frames| - 1], frames[|frames| - 1];
      assert frames == init + [last];
      RaisesIffMalformed(json, r, init);
      ReceiveRaisesIff(json, ReceiveAll(json, r, init), last);
    }
  }

  // ---------------------------------------------------------------------
  // Whose frames these are
  // ---------------------------------------------------------------------

  /** The 16-bit number in an RTP header. */
  function SeqOf(f: payload): nat {
    if |f| < 4 then 0 else BeValue(f[2..4])
  }

  /** Arrival by arrival, on the 16-bit numbers of audio frames. */
  function NoteFrames(l: Loss, audio: seq<payload>): Loss {
    if audio == [] then l else Note(NoteFrames(l, audio[..|audio| - 1]), SeqOf(audio[|audio| - 1]))
  }

  lemma NoteSnoc(l: Loss, audio: seq<payload>, f: payload)
    ensures NoteFrames(l, audio + [f]) == Note(NoteFrames(l, audio), SeqOf(f))
  {
    assert (audio + [f])[..|audio|] == audio;
    hide Note, SeqOf;
  }

  lemma ReceiveSnoc(json: bytes -> Json, r: Receiver, frames: seq<payload>, f: payload)
    ensures ReceiveAll(json, r, []) == r
    ensures ReceiveAll(json, r, frames + [f]) == Receive(json, ReceiveAll(json, r, frames), f)
  {
    hide Receive;
    assert (frames + [f])[..|frames|] == frames;
  }

  /** Who the connection is after these frames. */
  function Speaker(json: bytes -> Json, start: text, frames: seq<payload>): text {
    if LastHello(json, frames).None? then start else LastHello(json, frames).value
  }

  /** Frames taken as audio while the connection was this device. */
  function AudioOf(json: bytes -> Json, start: text, frames: seq<payload>, id: text): seq<payload> {
    if frames == [] then [] else
      var init, last := frames[..|frames| - 1], frames[|frames| - 1];
      var kind := Classify(json, last);
      AudioOf(json, start, init, id)
      + if (kind.Audio? || kind.Auth?) && Speaker(json, start, init) == id then [last] else []
  }

  function StatsOf(json: bytes -> Json, start: text, frames: seq<payload>, id: text): nat {
    if frames == [] then 0 else
      var init, last := frames[..|frames| - 1], frames[|frames| - 1];
      StatsOf(json, start, init, id)
      + if Classify(json, last).Stat? && Speaker(json, start, init) == id then 1 else 0
  }

  function TotalBytes(frames: seq<payload>): nat {
    if frames == [] then 0 else TotalBytes(frames[..|frames| - 1]) + |frames[|frames| - 1]|
  }

  /** Frames with something behind the RTP header. */
  function WithPayload(frames: seq<payload>): (r: seq<payload>)
    ensures |r| <= |frames|
  {
    if frames == [] then [] else
      var last := frames[|frames| - 1];
      WithPayload(frames[..|frames| - 1]) + if |last| > 12 then [last] else []
  }

  /** A device's counters after these frames were counted for it, beside `stats` telemetry frames. */
  function Tallied(d: Device, audio: seq<payload>, stats: nat): Device {
    Device(d.frames + |audio|, d.bytesIn + TotalBytes(audio), d.statsRx + stats,
           d.headerErrors + |audio| - |WithPayload(audio)|, NoteFrames(d.loss, WithPayload(audio)))
  }

  lemma TalliedNothing(d: Device)
    ensures Tallied(d, [], 0) == d
  {}

  lemma TalliedOneMore(d: Device, audio: seq<payload>, stats: nat, f: payload)
    ensures Tallied(d, audio + [f], stats) == Counted(Tallied(d, audio, stats), f)
  {
    assert (audio + [f])[..|audio|] == audio;
    hide Note, BeValue;
    if |f| > 12 {
      NoteSnoc(d.loss, WithPayload(audio), f);
    } else {
      assert WithPayload(audio) + [] == WithPayload(audio);
    }
  }

  /** What one frame does: to the connection's id, and to the device it is counted for. */
  lemma ReceiveEffect(json: bytes -> Json, r: Receiver, f: payload, id: text)
    requires !r.raised && !Classify(json, f).Malformed?
    ensures var kind, after := Classify(json, f), Receive(json, r, f);
            && !after.raised && after.imei == (if kind.Hello? then kind.id else r.imei)
            && after.Find(id)
               == (if id != r.imei || kind.Hello? then r.Find(id)
                   else if kind.Stat? then r.Find(id).(statsRx := r.Find(id).statsRx + 1)
                   else Counted(r.Find(id), f))
            && (id in after.devices <==> id in r.devices || id == after.imei)
  {
    hide Classify, Counted;
  }

  lemma SpeakerNext(json: bytes -> Json, start: text, init: seq<payload>, f: payload, id: text)
    ensures var kind, who := Classify(json, f), Speaker(json, start, init);
            && Speaker(json, start, init + [f]) == (if kind.Hello? then kind.id else who)
            && AudioOf(json, start, init + [f], id)
               == AudioOf(json, start, init, id) + (if (kind.Audio? || kind.Auth?) && who == id then [f] else [])
            && StatsOf(json, start, init + [f], id)
               == StatsOf(json, start, init, id) + (if kind.Stat? && who == id then 1 else 0)
  {
    hide Classify;
    assert (init + [f])[..|init|] == init;
  }

  /**
    * After any frames that do not raise, the connection is the device of the last HELLO, and every
    * device's counters have grown by exactly the frames that came while the connection was it:
    * frames, bytes, telemetry, frames without payload, and the sequence numbers of the others.
    */
  lemma {:induction false} FramesCountForSpeaker(json: bytes -> Json, r: Receiver, frames: seq<payload>, id: text)
    requires !r.raised && forall f <- frames :: !Classify(json, f).Malformed?
    ensures var after := ReceiveAll(json, r, frames);
            && !after.raised && after.imei == Speaker(json, r.imei, frames)
            && after.Find(id)
               == Tallied(r.Find(id), AudioOf(json, r.imei, frames, id), StatsOf(json, r.imei, frames, id))
  {
    hide Classify, Receive, ReceiveAll, Receiver.Find, Speaker, AudioOf, StatsOf, Tallied, Counted;
    if frames == [] {
      NoFramesYet(json, r, id);
    } else {
      var init, f := frames[..|frames| - 1], frames[|frames| - 1];
      assert frames == init + [f];
      FramesCountForSpeaker(json, r, init, id);
      ReceiveSnoc(json, r, init, f);
      ReceiveEffect(json, ReceiveAll(json, r, init), f, id);
      SpeakerNext(json, r.imei, init, f, id);
      var audio, stats := AudioOf(json, r.imei, init, id), StatsOf(json, r.imei, init, id);
      TalliedOneMore(r.Find(id), audio, stats, f);
      TalliedStat(r.Find(id), audio, stats);
      assert audio + [] == audio;
    }
  }

  lemma TalliedStat(d: Device, audio: seq<payload>, stats: nat)
    ensures var t := Tallied(d, audio, stats);
            Tallied(d, audio, stats + 1) == t.(statsRx := t.statsRx + 1)
  {
    hide TotalBytes, WithPayload, NoteFrames;
  }

  lemma NoFramesYet(json: bytes -> Json, r: Receiver, id: text)
    ensures ReceiveAll(json, r, []) == r && Speaker(json, r.imei, []) == r.imei
    ensures Tallied(r.Find(id), AudioOf(json, r.imei, [], id), StatsOf(json, r.imei, [], id)) == r.Find(id)
  {
    TalliedNothing(r.Find(id));
  }

  /** Everyone the connection was while a frame came. */
  function Speakers(json: bytes -> Json, start: text, frames: seq<payload>): set<text> {
    if frames == [] then {} else Speakers(json, start, frames[..|frames| - 1]) + {Speaker(json, start, frames)}
  }

  /** The table gains exactly the devices something was received for: a HELLO, telemetry or audio. */
  lemma {:induction false} TableListsSpeakers(json: bytes -> Json, r: Receiver, frames: seq<payload>, id: text)
    requires !r.raised && forall f <- frames :: !Classify(json, f).Malformed?
    ensures id in ReceiveAll(json, r, frames).devices <==> id in r.devices || id in Speakers(json, r.imei, frames)
  {
    hide Classify, Receive, Speaker, Receiver.Find;
    if frames != [] {
      var init, f := frames[..|frames| - 1], frames[|frames| - 1];
      assert frames == init + [f];
      TableListsSpeakers(json, r, init, id);
      FramesCountForSpeaker(json, r, init, id);
      ReceiveEffect(json, ReceiveAll(json, r, init), f, id);
      FramesCountForSpeaker(json, r, frames, id);
    }
  }

  /** The first malformed frame ends the connection with everything before it counted. */
  lemma FramesUpToMalformed(json: bytes -> Json, r: Receiver, frames: seq<payload>, k: nat)
    requires !r.raised && k < |frames| && Classify(json, frames[k]).Malformed?
    requires forall f <- frames[..k] :: !Classify(json, f).Malformed?
    ensures ReceiveAll(json, r, frames) == ReceiveAll(json, r, frames[..k]).(raised := true)
  {
    assert frames[..k + 1] == frames[..k] + [frames[k]];
    hide Classify, ReceiveAll;
    FramesCountForSpeaker(json, r, frames[..k], r.imei);
    ReceiveSnoc(json, r, frames[..k], frames[k]);
    RaisedStays(json, r, frames, k + 1);
  }

  /** An empty read ends the connection, whatever would follow. */
  lemma {:induction false} EmptyReadEnds(json: bytes -> Json, r: Receiver, buf: bytes, chunks: seq<bytes>, more: seq<bytes>)
    ensures ReceiveReads(json, r, buf, chunks + [[]] + more) == ReceiveReads(json, r, buf, chunks)
    decreases |chunks|
  {
    var rs := chunks + [[]] + more;
    if chunks != [] && chunks[0] != [] && !r.raised {
      hide Parse, ReceiveAll;
      assert rs[0] == chunks[0] && rs[1..] == chunks[1..] + [[]] + more;
      var (frames, rest) := Parse(buf + chunks[0]);
      EmptyReadEnds(json, ReceiveAll(json, r, frames), rest, chunks[1..], more);
    }
  }

  // ---------------------------------------------------------------------
  // AUTH frames
  // ---------------------------------------------------------------------

  /** Bytes 2 and 3 of "AUTH", read as a sequence number. */
  const AUTH_NUMBER := 0x5448

  predicate SixteenBit(l: Loss) {
    l.lastSeq.Some? ==> l.lastSeq.value < WRAP
  }

  lemma TwoBytes(b: bytes)
    requires |b| == 2
    ensures BeValue(b) == 256 * b[0] as int + b[1] as int < WRAP
  {
    assert BeValue(b[..1]) == 256 * BeValue(b[..1][..0]) + b[0];
  }

  lemma NumberStaysSixteenBit(json: bytes -> Json, r: Receiver, f: payload, id: text)
    requires SixteenBit(r.Find(r.imei).loss) && SixteenBit(r.Find(id).loss)
    ensures SixteenBit(Receive(json, r, f).Find(id).loss)
  {
    hide Classify, BeValue;
    if |f| >= 4 {
      TwoBytes(f[2..4]);
    }
  }

  /** The last number a receiver remembers is always one of 16 bits. */
  lemma {:induction false} NumbersStaySixteenBit(json: bytes -> Json, r: Receiver, frames: seq<payload>)
    requires forall id :: SixteenBit(r.Find(id).loss)
    ensures forall id :: SixteenBit(ReceiveAll(json, r, frames).Find(id).loss)
  {
    if frames != [] {
      hide Receive, Receiver.Find, SixteenBit;
      var init, f := frames[..|frames| - 1], frames[|frames| - 1];
      NumbersStaySixteenBit(json, r, init);
      forall id ensures SixteenBit(ReceiveAll(json, r, frames).Find(id).loss) {
        NumberStaysSixteenBit(json, ReceiveAll(json, r, init), f, id);
      }
    }
  }

  lemma AuthShape(json: bytes -> Json, f: payload)
    requires Classify(json, f).Auth?
    ensures |f| >= 5 && f[2] == 0x54 && f[3] == 0x48
  {
    assert AUTH_PREFIX <= f;
    assert f[2] == AUTH_PREFIX[2] && f[3] == AUTH_PREFIX[3];
  }

  lemma NoteAlwaysShows(l: Loss, seqno: nat)
    requires SixteenBit(l) && seqno < WRAP
    ensures Note(l, seqno) != l
  {}

  /**
    * An AUTH frame leaves the loss count alone if and only if it is too short to pass for audio;
    * any longer one is counted as the arrival of number 21576, whatever numbers the device uses.
    */
  lemma AuthFrameCorruptsIff(json: bytes -> Json, r: Receiver, f: payload)
    requires !r.raised && Classify(json, f).Auth? && SixteenBit(r.Find(r.imei).loss)
    ensures Receive(json, r, f).Find(r.imei).loss == r.Find(r.imei).loss <==> |f| <= RTP_HEADER_LEN
    ensures |f| > RTP_HEADER_LEN ==>
              Receive(json, r, f).Find(r.imei).loss == Note(r.Find(r.imei).loss, AUTH_NUMBER)
    ensures !Receive(json, r, f).raised && Receive(json, r, f).imei == r.imei
  {
    AuthShape(json, f);
    TwoBytes(f[2..4]);
    NoteAlwaysShows(r.Find(r.imei).loss, AUTH_NUMBER);
    hide Classify, Note, BeValue, SixteenBit;
  }

  lemma AudioIsNoted(json: bytes -> Json, r: Receiver, opus: bytes, seqno: nat, ts: nat, ssrc: nat)
    requires !r.raised && opus != [] && |opus| <= MAX_FRAME - RTP_HEADER_LEN
    ensures Receive(json, r, BuildAudio(opus, seqno, ts, ssrc)).Find(r.imei).loss
            == Note(r.Find(r.imei).loss, seqno % WRAP)
  {
    ClassifyAudio(json, opus, seqno, ts, ssrc);
    AudioRoundTrip(opus, seqno, ts, ssrc);
    hide Classify, BuildAudio, ParseAudio, Note;
  }

  lemma ReceiveTwo(json: bytes -> Json, r: Receiver, a: payload, b: payload)
    ensures ReceiveAll(json, r, [a, b]) == Receive(json, Receive(json, r, a), b)
  {
    var both: seq<payload> := [a, b];
    assert both[..1] == [a];
    hide Receive;
    assert ReceiveAll(json, r, [a]) == Receive(json, r, a);
  }

  /** The first audio frame after an AUTH frame is judged against number 21576. */
  lemma AudioAfterAuth(json: bytes -> Json, r: Receiver, auth: payload, opus: bytes, seqno: nat, ts: nat, ssrc: nat)
    requires !r.raised && r.Find(r.imei).loss == NO_LOSS
    requires Classify(json, auth).Auth? && |auth| > RTP_HEADER_LEN
    requires opus != [] && |opus| <= MAX_FRAME - RTP_HEADER_LEN
    ensures ReceiveAll(json, r, [auth, BuildAudio(opus, seqno, ts, ssrc)]).Find(r.imei).loss
            == Note(Loss(0, 0, Some(AUTH_NUMBER)), seqno % WRAP)
  {
    hide Receive, Receiver.Find, Classify, BuildAudio;
    AuthFrameCorruptsIff(json, r, auth);
    AudioIsNoted(json, Receive(json, r, auth), opus, seqno, ts, ssrc);
    ReceiveTwo(json, r, auth, BuildAudio(opus, seqno, ts, ssrc));
  }

  /** "aaa" and "bbbb" */
  const SAMPLE_ID: text := [0x61, 0x61, 0x61]
  const SAMPLE_MAC: text := [0x62, 0x62, 0x62, 0x62]

  lemma SampleAuth(json: bytes -> Json)
    ensures |BuildAuth(SAMPLE_ID, SAMPLE_MAC)| == 13
    ensures Classify(json, BuildAuth(SAMPLE_ID, SAMPLE_MAC)) == Auth(SAMPLE_ID, SAMPLE_MAC)
  {
    hide Classify, ParseAuth, AsciiOnly, Strip;
    ClassifyAuth(json, SAMPLE_ID, SAMPLE_MAC);
  }

  /** "AUTH:aaa:bbbb" before the audio frame numbered 0: that frame counts as reordered and 21576 stays the last number. */
  lemma AuthFrameSpoilsCount(json: bytes -> Json, r: Receiver)
    requires !r.raised && r.Find(r.imei).loss == NO_LOSS
    ensures |BuildAuth(SAMPLE_ID, SAMPLE_MAC)| <= MAX_FRAME
    ensures ReceiveAll(json, r, [BuildAuth(SAMPLE_ID, SAMPLE_MAC), BuildAudio([1], 0, 0, 0)]).Find(r.imei).loss
            == Loss(0, 1, Some(AUTH_NUMBER))
  {
    hide Classify, ParseAuth, BuildAuth, BuildAudio, ReceiveAll, Receiver.Find;
    SampleAuth(json);
    AudioAfterAuth(json, r, BuildAuth(SAMPLE_ID, SAMPLE_MAC), [1], 0, 0, 0);
  }
}
