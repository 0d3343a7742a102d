/** Device authentication and the per-address connection limiter (server/auth.py). */
module Auth {
  import opened Bytes
  import opened Protocol

  // ---------------------------------------------------------------------
  // The MAC check
  // ---------------------------------------------------------------------

  const MAC_HEX_LEN := 64

  /** `sign`: the hex digest of a MAC that is left uninterpreted. */
  type Mac = (bytes, bytes) -> text

  function LowerChar(c: byte): byte {
    if 65 <= c <= 90 then c + 32 else c
  }

  function Lower(s: text): text {
    seq(|s|, i requires 0 <= i < |s| => LowerChar(s[i]))
  }

  /** An absent key is the empty key. */
  predicate Verify(mac: Mac, key: bytes, nonce: bytes, response: text) {
    && key != [] && |response| == MAC_HEX_LEN
    && Lower(Strip(response)) == mac(key, nonce)
  }

  predicate IsHexDigest(s: text) {
    |s| == 64 && forall c <- s :: 48 <= c <= 57 || 97 <= c <= 102
  }

  /** Trimming never rescues a response: exactly the digest, in either letter case, is accepted. */
  lemma VerifyExactly(mac: Mac, key: bytes, nonce: bytes, response: text)
    requires IsHexDigest(mac(key, nonce))
    ensures Verify(mac, key, nonce, response) <==> key != [] && Lower(response) == mac(key, nonce)
  {
    var digest := mac(key, nonce);
    StripShorter(response);
    StripShorter(LStrip(response));
    LStripFull(response);
    RStripFull(LStrip(response));
    if Lower(response) == digest {
      assert digest[0] in digest && digest[63] in digest;
      StripKeeps(response);
    }
  }

  lemma LStripFull(s: text)
    ensures |LStrip(s)| == |s| ==> LStrip(s) == s
  {
    if s != [] {
      StripShorter(s[1..]);
    }
  }

  lemma RStripFull(s: text)
    ensures |RStrip(s)| == |s| ==> RStrip(s) == s
  {
    if s != [] {
      StripShorter(s[..|s| - 1]);
    }
  }

  /** A device that holds the key is always let in. */
  lemma VerifyAcceptsSigner(mac: Mac, key: bytes, nonce: bytes)
    requires key != [] && IsHexDigest(mac(key, nonce))
    ensures Verify(mac, key, nonce, mac(key, nonce))
  {
    var d := mac(key, nonce);
    VerifyExactly(mac, key, nonce, d);
    forall i | 0 <= i < |d| ensures Lower(d)[i] == d[i] {
      assert d[i] in d;
    }
  }

  /** Hex digits in capitals. */
  function Upper(s: text): text {
    seq(|s|, i requires 0 <= i < |s| => if 97 <= s[i] <= 102 then s[i] - 32 else s[i])
  }

  /** The digest is accepted in capitals too. */
  lemma VerifyAcceptsCapitals(mac: Mac, key: bytes, nonce: bytes)
    requires key != [] && IsHexDigest(mac(key, nonce))
    ensures Verify(mac, key, nonce, Upper(mac(key, nonce)))
  {
    var d := mac(key, nonce);
    VerifyExactly(mac, key, nonce, Upper(d));
    forall i | 0 <= i < |d| ensures Lower(Upper(d))[i] == d[i] {
      assert d[i] in d;
    }
  }

  // ---------------------------------------------------------------------
  // Limiter state
  // ---------------------------------------------------------------------

  datatype Caps = Caps(maxConcurrent: int, maxPerMinute: int)

  /** `_live`, `_recent` and `rejected`; reading a missing key creates it, as a defaultdict does. */
  datatype Limits = Limits(live: map<text, int>, recent: map<text, seq<real>>, rejected: nat) {
    function Live(ip: text): int {
      if ip in live then live[ip] else 0
    }

    function Window(ip: text): seq<real> {
      if ip in recent then recent[ip] else []
    }
  }

  const NO_LIMITS := Limits(map[], map[], 0)

  /** `popleft` while the oldest admission is more than 60 seconds back. */
  function Prune(w: seq<real>, now: real): seq<real> {
    if w != [] && now - w[0] > 60.0 then Prune(w[1..], now) else w
  }

  function AllowStep(c: Caps, s: Limits, ip: text, now: real): (Limits, bool) {
    var w := Prune(s.Window(ip), now);
    var seen := s.(recent := s.recent[ip := w], live := s.live[ip := s.Live(ip)]);
    if s.Live(ip) >= c.maxConcurrent || |w| >= c.maxPerMinute
    then (seen.(rejected := s.rejected + 1), false)
    else (seen.(recent := s.recent[ip := w + [now]], live := s.live[ip := s.Live(ip) + 1]), true)
  }

  function ReleaseStep(s: Limits, ip: text): Limits {
    if s.Live(ip) == 0 then s
    else if s.Live(ip) <= 1 then s.(live := s.live - {ip})
    else s.(live := s.live[ip := s.Live(ip) - 1])
  }

  class ConnectionLimiter {
    const caps: Caps
    var live: map<text, int>
    var recent: map<text, seq<real>>
    var rejected: nat

    function State(): Limits
      reads this
    {
      Limits(live, recent, rejected)
    }

    constructor (maxConcurrent: int, maxPerMinute: int)
      ensures caps == Caps(maxConcurrent, maxPerMinute) && State() == NO_LIMITS
    {
      caps := Caps(maxConcurrent, maxPerMinute);
      live, recent, rejected := map[], map[], 0;
    }

    /** A missing `now`, or 0, means the clock. */
    method Allow(ip: text, given: Option<real>, clock: real) returns (ok: bool)
      modifies this
      ensures var now := if given.None? || given.value == 0.0 then clock else given.value;
              (State(), ok) == AllowStep(caps, old(State()), ip, now)
    {
      var now := if given.None? || given.value == 0.0 then clock else given.value;
      var window := if ip in recent then recent[ip] else [];
      while window != [] && now - window[0] > 60.0
        invariant Prune(window, now) == Prune(old(State()).Window(ip), now)
        decreases |window|
      {
        window := window[1..];
      }
      recent := recent[ip := window];
      if ip !in live {
        live := live[ip := 0];
      }
      assert live == old(live)[ip := old(State()).Live(ip)];
      if live[ip] >= caps.maxConcurrent {
        rejected := rejected + 1;
        return false;
      }
      if |window| >= caps.maxPerMinute {
        rejected := rejected + 1;
        return false;
      }
      recent := recent[ip := window + [now]];
      live := live[ip := live[ip] + 1];
      assert live == old(live)[ip := old(State()).Live(ip) + 1];
      assert recent == old(recent)[ip := window + [now]];
      return true;
    }

    method Release(ip: text)
      modifies this
      ensures State() == ReleaseStep(old(State()), ip)
    {
      if ip in live && live[ip] != 0 {
        live := live[ip := live[ip] - 1];
        if live[ip] <= 0 {
          live := live - {ip};
        }
      }
    }
  }

  // ---------------------------------------------------------------------
  // Whole runs
  // ---------------------------------------------------------------------

  datatype Call = Allow(ip: text, now: real) | Release(ip: text)

  function Run(c: Caps, calls: seq<Call>): Limits {
    if calls == [] then NO_LIMITS else
      var s := Run(c, calls[..|calls| - 1]);
      match calls[|calls| - 1]
      case Allow(ip, now) => AllowStep(c, s, ip, now).0
      case Release(ip) => ReleaseStep(s, ip)
  }

  /** The times at which connections from `ip` were admitted, in order. */
  function Admitted(c: Caps, calls: seq<Call>, ip: text): seq<real> {
    if calls == [] then [] else
      var init, last := calls[..|calls| - 1], calls[|calls| - 1];
      var before := Admitted(c, init, ip);
      if last.Allow? && last.ip == ip && AllowStep(c, Run(c, init), ip, last.now).1
      then before + [last.now] else before
  }

  /** The clock as `allow` last saw it for `ip`. */
  function LastSeen(calls: seq<Call>, ip: text): Option<real> {
    if calls == [] then None else
      var last := calls[|calls| - 1];
      if last.Allow? && last.ip == ip then Some(last.now) else LastSeen(calls[..|calls| - 1], ip)
  }

  predicate ClockNonDecreasing(calls: seq<Call>, ip: text) {
    calls == [] ||
      var init, last := calls[..|calls| - 1], calls[|calls| - 1];
      && ClockNonDecreasing(init, ip)
      && (last.Allow? && last.ip == ip && LastSeen(init, ip).Some? ==> LastSeen(init, ip).value <= last.now)
  }

  function CountWithin(times: seq<real>, from: real, to: real): (n: nat)
    ensures n <= |times|
  {
    if times == [] then 0 else
      var last := times[|times| - 1];
      CountWithin(times[..|times| - 1], from, to) + if from <= last <= to then 1 else 0
  }

  predicate Sorted(times: seq<real>) {
    forall i, j | 0 <= i < j < |times| :: times[i] <= times[j]
  }

  /** The window holds the latest admissions; all others are more than 60 seconds before `now`. */
  ghost predicate WindowCovers(times: seq<real>, w: seq<real>, now: real) {
    && |w| <= |times|
    && times[|times| - |w|..] == w
    && Sorted(times)
    && (forall t <- times :: t <= now)
    && forall i | 0 <= i < |times| - |w| :: times[i] < now - 60.0
  }

  lemma {:induction false} CountConcat(a: seq<real>, b: seq<real>, from: real, to: real)
    ensures CountWithin(a + b, from, to) == CountWithin(a, from, to) + CountWithin(b, from, to)
  {
    if b == [] {
      assert a + b == a;
    } else {
      assert (a + b)[..|a + b| - 1] == a + b[..|b| - 1];
      CountConcat(a, b[..|b| - 1], from, to);
    }
  }

  lemma {:induction false} CountNone(times: seq<real>, from: real, to: real)
    requires forall i | 0 <= i < |times| :: times[i] < from
    ensures CountWithin(times, from, to) == 0
  {
    if times != [] {
      CountNone(times[..|times| - 1], from, to);
    }
  }

  lemma {:induction false} CountAll(times: seq<real>, from: real, to: real)
    requires forall i | 0 <= i < |times| :: from <= times[i] <= to
    ensures CountWithin(times, from, to) == |times|
  {
    if times != [] {
      CountAll(times[..|times| - 1], from, to);
    }
  }

  lemma {:induction false} PruneCovers(times: seq<real>, w: seq<real>, before: real, now: real)
    requires WindowCovers(times, w, before) && before <= now
    ensures WindowCovers(times, Prune(w, now), now)
    ensures forall i | 0 <= i < |Prune(w, now)| :: now - 60.0 <= Prune(w, now)[i]
    decreases |w|
  {
    assert WindowCovers(times, w, now);
    if w != [] && now - w[0] > 60.0 {
      var k := |times| - |w|;
      assert times[k] == w[0] && times[k + 1..] == w[1..];
      PruneCovers(times, w[1..], now, now);
    } else {
      forall i | 0 <= i < |w| ensures now - 60.0 <= w[i] {
        assert w[i] == times[|times| - |w| + i];
      }
    }
  }

  /** After pruning, the window is exactly the admissions of the last 60 seconds. */
  lemma PrunedIsLastMinute(times: seq<real>, w: seq<real>, now: real, from: real)
    requires WindowCovers(times, w, now)
    requires forall i | 0 <= i < |w| :: now - 60.0 <= w[i]
    requires now - 60.0 <= from
    ensures CountWithin(times, now - 60.0, now) == |w|
    ensures CountWithin(times, from, from + 60.0) <= |w|
  {
    var k := |times| - |w|;
    var expired := times[..k];
    assert times == expired + w;
    forall i | 0 <= i < |w| ensures w[i] <= now {
      assert times[k..] == w && w[i] == times[k + i];
      assert times[k + i] in times;
    }
    hide CountWithin, WindowCovers;
    CountConcat(expired, w, now - 60.0, now);
    CountNone(expired, now - 60.0, now);
    CountAll(w, now - 60.0, now);
    CountConcat(expired, w, from, from + 60.0);
    CountNone(expired, from, from + 60.0);
  }

  ghost predicate Tracked(c: Caps, calls: seq<Call>, ip: text) {
    var times, w := Admitted(c, calls, ip), Run(c, calls).Window(ip);
    if LastSeen(calls, ip).None? then times == [] && w == []
    else WindowCovers(times, w, LastSeen(calls, ip).value)
  }

  lemma CoverOneMore(times: seq<real>, w: seq<real>, now: real)
    requires WindowCovers(times, w, now)
    ensures WindowCovers(times + [now], w + [now], now)
  {
    assert (times + [now])[|times| - |w|..] == times[|times| - |w|..] + [now];
    assert forall i | 0 <= i < |times| :: (times + [now])[i] == times[i] && times[i] in times;
  }

  lemma {:induction false} WindowTracksAdmissions(c: Caps, calls: seq<Call>, ip: text)
    requires ClockNonDecreasing(calls, ip)
    ensures Tracked(c, calls, ip)
  {
    if calls != [] {
      var init, last := calls[..|calls| - 1], calls[|calls| - 1];
      WindowTracksAdmissions(c, init, ip);
      if last.Allow? && last.ip == ip {
        BeforeDecision(c, init, ip, last.now);
        CoverOneMore(Admitted(c, init, ip), Prune(Run(c, init).Window(ip), last.now), last.now);
      } else {
        hide WindowCovers;
        assert Run(c, calls).Window(ip) == Run(c, init).Window(ip);
      }
    }
  }

  /** What `allow` knows when it decides. */
  lemma BeforeDecision(c: Caps, calls: seq<Call>, ip: text, now: real)
    requires Tracked(c, calls, ip)
    requires LastSeen(calls, ip).Some? ==> LastSeen(calls, ip).value <= now
    ensures var w := Prune(Run(c, calls).Window(ip), now);
            && WindowCovers(Admitted(c, calls, ip), w, now)
            && forall i | 0 <= i < |w| :: now - 60.0 <= w[i]
  {
    if LastSeen(calls, ip).Some? {
      PruneCovers(Admitted(c, calls, ip), Run(c, calls).Window(ip), LastSeen(calls, ip).value, now);
    }
  }

  /**
    * A request is refused exactly when the live cap is reached or the last 60 seconds, ends
    * included, already hold `maxPerMinute` admissions.
    */
  lemma RefusedExactlyWhen(c: Caps, calls: seq<Call>, ip: text, now: real)
    requires ClockNonDecreasing(calls + [Allow(ip, now)], ip)
    ensures !AllowStep(c, Run(c, calls), ip, now).1 <==>
              || Run(c, calls).Live(ip) >= c.maxConcurrent
              || CountWithin(Admitted(c, calls, ip), now - 60.0, now) >= c.maxPerMinute
  {
    assert (calls + [Allow(ip, now)])[..|calls|] == calls;
    WindowTracksAdmissions(c, calls, ip);
    BeforeDecision(c, calls, ip, now);
    PrunedIsLastMinute(Admitted(c, calls, ip), Prune(Run(c, calls).Window(ip), now), now, now - 60.0);
  }

  /** Refused requests of all addresses. */
  function Refusals(c: Caps, calls: seq<Call>): nat {
    if calls == [] then 0 else
      var init, last := calls[..|calls| - 1], calls[|calls| - 1];
      Refusals(c, init) + if last.Allow? && !AllowStep(c, Run(c, init), last.ip, last.now).1 then 1 else 0
  }

  lemma {:induction false} RejectedCountsRefusals(c: Caps, calls: seq<Call>)
    ensures Run(c, calls).rejected == Refusals(c, calls)
  {
    if calls != [] {
      hide Prune;
      RejectedCountsRefusals(c, calls[..|calls| - 1]);
    }
  }

  lemma AdmissionHasRoom(c: Caps, s: Limits, ip: text, now: real)
    requires AllowStep(c, s, ip, now).1
    ensures |Prune(s.Window(ip), now)| < c.maxPerMinute
  {}

  /** No closed 60-second interval of any run admits more than `maxPerMinute` connections of one address. */
  lemma {:induction false} AtMostPerMinute(c: Caps, calls: seq<Call>, ip: text, from: real)
    requires ClockNonDecreasing(calls, ip)
    ensures CountWithin(Admitted(c, calls, ip), from, from + 60.0) <= if c.maxPerMinute < 0 then 0 else c.maxPerMinute
  {
    hide AllowStep, Run, Prune, WindowCovers, Limits.Window, LastSeen;
    if calls != [] {
      var init, last := calls[..|calls| - 1], calls[|calls| - 1];
      AtMostPerMinute(c, init, ip, from);
      if last.Allow? && last.ip == ip && AllowStep(c, Run(c, init), ip, last.now).1 {
        var times := Admitted(c, init, ip);
        WindowTracksAdmissions(c, init, ip);
        BeforeDecision(c, init, ip, last.now);
        AdmissionHasRoom(c, Run(c, init), ip, last.now);
        if last.now - 60.0 <= from {
          PrunedIsLastMinute(times, Prune(Run(c, init).Window(ip), last.now), last.now, from);
        }
        assert (times + [last.now])[..|times|] == times;
      }
    }
  }
}
