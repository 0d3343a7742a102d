/** Per-second level buckets (server/levels.py), on exact integers instead of floats. */
module Levels {
  import opened Bytes

  /** A 16-bit PCM sample. */
  type sample = x: int | -32768 <= x <= 32767

  function Abs(x: int): nat {
    if x < 0 then -x else x
  }

  function Energy(pcm: seq<sample>): nat {
    if pcm == [] then 0 else Energy(pcm[..|pcm| - 1]) + Abs(pcm[|pcm| - 1]) * Abs(pcm[|pcm| - 1])
  }

  function Peak(pcm: seq<sample>): nat {
    if pcm == [] then 0 else
      var p := Peak(pcm[..|pcm| - 1]);
      if Abs(pcm[|pcm| - 1]) > p then Abs(pcm[|pcm| - 1]) else p
  }

  function Max(a: nat, b: nat): nat {
    if a > b then a else b
  }

  /** Python's `int()` on a clock reading: towards zero. */
  function Second(now: real): int {
    if now >= 0.0 then now.Floor else -((-now).Floor)
  }

  /**
    * A bucket. The record keeps the sums from which the two decibel values are computed:
    * `db` from `sumSq / n` and `pk` from `peak`.
    */
  datatype Bucket = Bucket(sec: Option<int>, sumSq: nat, n: nat, peak: nat, frames: nat)
  datatype Record = Record(t: int, sumSq: nat, n: nat, peak: nat, f: nat)

  const EMPTY := Bucket(None, 0, 0, 0, 0)

  /** `emit`: a bucket without samples yields nothing and keeps its frame count. */
  function Emit(b: Bucket): (Bucket, Option<Record>)
    requires b.sec.Some?
  {
    if b.n == 0 then (b, None)
    else (Bucket(b.sec, 0, 0, 0, 0), Some(Record(b.sec.value, b.sumSq, b.n, b.peak, b.frames)))
  }

  function AddFrame(b: Bucket, pcm: seq<sample>, now: real): (Bucket, Option<Record>) {
    var sec := Second(now);
    var (b1, out) := if b.sec.Some? && b.sec.value != sec then Emit(b) else (b, None);
    (Bucket(Some(sec), b1.sumSq + Energy(pcm), b1.n + |pcm|, Max(b1.peak, Peak(pcm)), b1.frames + 1), out)
  }

  class Meter {
    var sec: Option<int>
    var sumSq: nat
    var n: nat
    var peak: nat
    var frames: nat

    function State(): Bucket
      reads this
    {
      Bucket(sec, sumSq, n, peak, frames)
    }

    constructor ()
      ensures State() == EMPTY
    {
      sec, sumSq, n, peak, frames := None, 0, 0, 0, 0;
    }

    method Add(pcm: seq<sample>, now: real) returns (out: Option<Record>)
      modifies this
      ensures (State(), out) == AddFrame(old(State()), pcm, now)
    {
      var second := Second(now);
      out := None;
      if sec.None? {
        sec := Some(second);
      } else if second != sec.value {
        out := EmitRecord();
        sec := Some(second);
      }
      if |pcm| > 0 {
        var energy, loudest := Measure(pcm);
        sumSq := sumSq + energy;
        n := n + |pcm|;
        peak := Max(peak, loudest);
      }
      frames := frames + 1;
    }

    method EmitRecord() returns (out: Option<Record>)
      requires sec.Some?
      modifies this
      ensures (State(), out) == Emit(old(State()))
    {
      if n == 0 {
        return None;
      }
      out := Some(Record(sec.value, sumSq, n, peak, frames));
      sumSq, n, peak, frames := 0, 0, 0, 0;
    }
  }

  /** The dot product and the maximum of the absolute samples. */
  method Measure(pcm: seq<sample>) returns (energy: nat, loudest: nat)
    ensures energy == Energy(pcm) && loudest == Peak(pcm)
  {
    energy, loudest := 0, 0;
    for i := 0 to |pcm|
      invariant energy == Energy(pcm[..i]) && loudest == Peak(pcm[..i])
    {
      assert pcm[..i + 1][..i] == pcm[..i];
      energy := energy + Abs(pcm[i]) * Abs(pcm[i]);
      loudest := Max(loudest, Abs(pcm[i]));
    }
    assert pcm[..|pcm|] == pcm;
  }

  // ---------------------------------------------------------------------
  // Whole runs
  // ---------------------------------------------------------------------

  datatype Frame = Frame(pcm: seq<sample>, now: real)

  datatype Run = Run(bucket: Bucket, records: seq<Record>)

  function Play(fs: seq<Frame>): Run {
    if fs == [] then Run(EMPTY, []) else
      var r, f := Play(fs[..|fs| - 1]), fs[|fs| - 1];
      var (b, out) := AddFrame(r.bucket, f.pcm, f.now);
      Run(b, r.records + match out { case None => [] case Some(rec) => [rec] })
  }

  function FramesReported(records: seq<Record>): nat {
    if records == [] then 0 else FramesReported(records[..|records| - 1]) + records[|records| - 1].f
  }

  function TotalEnergy(fs: seq<Frame>): nat {
    if fs == [] then 0 else TotalEnergy(fs[..|fs| - 1]) + Energy(fs[|fs| - 1].pcm)
  }

  function TotalSamples(fs: seq<Frame>): nat {
    if fs == [] then 0 else TotalSamples(fs[..|fs| - 1]) + |fs[|fs| - 1].pcm|
  }

  function Loudest(fs: seq<Frame>): nat {
    if fs == [] then 0 else Max(Loudest(fs[..|fs| - 1]), Peak(fs[|fs| - 1].pcm))
  }

  /** These sums are taken over exactly these frames. */
  predicate Measures(fs: seq<Frame>, sumSq: nat, n: nat, peak: nat, frames: nat) {
    sumSq == TotalEnergy(fs) && n == TotalSamples(fs) && peak == Loudest(fs) && frames == |fs|
  }

  /** The frames fall into consecutive runs: one per record, in order, then the open bucket. */
  predicate Partitions(fs: seq<Frame>, records: seq<Record>, b: Bucket) {
    if records == [] then Measures(fs, b.sumSq, b.n, b.peak, b.frames) else
      var r := records[0];
      && r.f <= |fs|
      && Measures(fs[..r.f], r.sumSq, r.n, r.peak, r.f)
      && Partitions(fs[r.f..], records[1..], b)
  }

  lemma ReportedSnoc(records: seq<Record>, r: Record)
    ensures FramesReported(records + [r]) == FramesReported(records) + r.f
  {
    assert (records + [r])[..|records|] == records;
  }

  lemma MeasuresSnoc(fs: seq<Frame>, f: Frame, sumSq: nat, n: nat, peak: nat, frames: nat)
    requires Measures(fs, sumSq, n, peak, frames)
    ensures Measures(fs + [f], sumSq + Energy(f.pcm), n + |f.pcm|, Max(peak, Peak(f.pcm)), frames + 1)
  {
    assert (fs + [f])[..|fs|] == fs;
    hide Energy, Peak, Max;
  }

  /** The bucket after a frame, in an already chosen second. */
  function Extended(b: Bucket, f: Frame): Bucket {
    Bucket(b.sec, b.sumSq + Energy(f.pcm), b.n + |f.pcm|, Max(b.peak, Peak(f.pcm)), b.frames + 1)
  }

  lemma {:induction false} SamePending(fs: seq<Frame>, f: Frame, records: seq<Record>, b: Bucket)
    requires Partitions(fs, records, b)
    ensures Partitions(fs + [f], records, Extended(b, f))
    decreases |records|
  {
    if records == [] {
      MeasuresSnoc(fs, f, b.sumSq, b.n, b.peak, b.frames);
    } else {
      hide Measures, Energy, Peak, Max;
      var k := records[0].f;
      assert (fs + [f])[..k] == fs[..k] && (fs + [f])[k..] == fs[k..] + [f];
      SamePending(fs[k..], f, records[1..], b);
    }
  }

  lemma {:induction false} PendingReported(fs: seq<Frame>, records: seq<Record>, b: Bucket, r: Record)
    requires Partitions(fs, records, b)
    requires r.sumSq == b.sumSq && r.n == b.n && r.peak == b.peak && r.f == b.frames
    ensures Partitions(fs, records + [r], Bucket(b.sec, 0, 0, 0, 0))
    decreases |records|
  {
    if records == [] {
      assert fs[..r.f] == fs && fs[r.f..] == [] && [r][1..] == [];
    } else {
      hide Measures;
      assert (records + [r])[1..] == records[1..] + [r];
      PendingReported(fs[records[0].f..], records[1..], b, r);
    }
  }

  lemma {:induction false} OnlySecMatters(fs: seq<Frame>, records: seq<Record>, b: Bucket, sec: Option<int>)
    requires Partitions(fs, records, b)
    ensures Partitions(fs, records, b.(sec := sec))
    decreases |records|
  {
    if records != [] {
      OnlySecMatters(fs[records[0].f..], records[1..], b, sec);
    }
  }

  lemma FrameReportsOrExtends(b: Bucket, f: Frame)
    ensures var (b', out) := AddFrame(b, f.pcm, f.now);
            if out.Some?
            then out.value == Record(out.value.t, b.sumSq, b.n, b.peak, b.frames)
                 && b' == Extended(Bucket(b.sec, 0, 0, 0, 0), f).(sec := b'.sec)
            else b' == Extended(b, f).(sec := b'.sec)
  {
    hide Energy, Peak, Max, Second;
  }

  lemma FrameReports(fs: seq<Frame>, records: seq<Record>, b: Bucket, f: Frame)
    requires Partitions(fs, records, b)
    ensures var (b', out) := AddFrame(b, f.pcm, f.now);
            Partitions(fs + [f], records + (if out.Some? then [out.value] else []), b')
  {
    hide Partitions, AddFrame, Extended;
    var (b', out) := AddFrame(b, f.pcm, f.now);
    FrameReportsOrExtends(b, f);
    if out.Some? {
      var empty := Bucket(b.sec, 0, 0, 0, 0);
      PendingReported(fs, records, b, out.value);
      SamePending(fs, f, records + [out.value], empty);
      OnlySecMatters(fs + [f], records + [out.value], Extended(empty, f), b'.sec);
    } else {
      assert records + [] == records;
      SamePending(fs, f, records, b);
      OnlySecMatters(fs + [f], records, Extended(b, f), b'.sec);
    }
  }

  /**
    * Nothing is lost, counted twice or mixed up: the frames of any run divide into consecutive
    * stretches, one for each record and one pending, and each carries exactly the energy, sample
    * count, peak and frame count of its stretch, also across seconds that report nothing.
    */
  lemma {:induction false} RecordsPartitionFrames(fs: seq<Frame>)
    ensures Partitions(fs, Play(fs).records, Play(fs).bucket)
  {
    if fs != [] {
      var init, f := fs[..|fs| - 1], fs[|fs| - 1];
      RecordsPartitionFrames(init);
      hide Partitions, AddFrame;
      FrameReports(init, Play(init).records, Play(init).bucket, f);
      assert init + [f] == fs;
    }
  }

  /** Reported frames plus pending frames are the frames added. */
  lemma {:induction false} FramesConserved(fs: seq<Frame>)
    ensures FramesReported(Play(fs).records) + Play(fs).bucket.frames == |fs|
  {
    if fs != [] {
      var r, f := Play(fs[..|fs| - 1]), fs[|fs| - 1];
      FramesConserved(fs[..|fs| - 1]);
      hide Energy, Peak, Second;
      var out := AddFrame(r.bucket, f.pcm, f.now).1;
      if out.Some? {
        ReportedSnoc(r.records, out.value);
      } else {
        assert r.records + [] == r.records;
      }
    }
  }

  // ---------------------------------------------------------------------
  // RMS never exceeds peak
  // ---------------------------------------------------------------------

  lemma SquareMono(a: nat, b: nat)
    requires a <= b
    ensures a * a <= b * b
  {
    assert a * a <= a * b <= b * b;
  }

  lemma ScaledMono(n: nat, a: nat, b: nat)
    requires a <= b
    ensures n * a <= n * b
  {}

  lemma {:induction false} EnergyBound(pcm: seq<sample>)
    ensures Energy(pcm) <= |pcm| * (Peak(pcm) * Peak(pcm))
  {
    if pcm != [] {
      var init, x := pcm[..|pcm| - 1], Abs(pcm[|pcm| - 1]);
      EnergyBound(init);
      var p, q := Peak(init), Peak(pcm);
      hide Energy, Peak, Abs;
      SquareMono(p, q);
      SquareMono(x, q);
      ScaledMono(|init|, p * p, q * q);
      assert |pcm| * (q * q) == |init| * (q * q) + q * q;
    }
  }

  ghost predicate Bounded(sumSq: nat, n: nat, peak: nat) {
    sumSq <= n * (peak * peak)
  }

  lemma BoundedSum(s: nat, n: nat, p: nat, s': nat, n': nat, p': nat)
    requires Bounded(s, n, p) && Bounded(s', n', p')
    ensures Bounded(s + s', n + n', Max(p, p'))
  {
    var q := Max(p, p');
    SquareMono(p, q);
    SquareMono(p', q);
    ScaledMono(n, p * p, q * q);
    ScaledMono(n', p' * p', q * q);
    assert (n + n') * (q * q) == n * (q * q) + n' * (q * q);
  }

  /** In every reachable bucket and every record the summed squares are at most n times the squared peak. */
  lemma {:induction false} LevelsBounded(fs: seq<Frame>)
    ensures Bounded(Play(fs).bucket.sumSq, Play(fs).bucket.n, Play(fs).bucket.peak)
    ensures forall r <- Play(fs).records :: r.n > 0 && Bounded(r.sumSq, r.n, r.peak)
  {
    if fs != [] {
      var r, f := Play(fs[..|fs| - 1]), fs[|fs| - 1];
      LevelsBounded(fs[..|fs| - 1]);
      EnergyBound(f.pcm);
      BoundedSum(r.bucket.sumSq, r.bucket.n, r.bucket.peak, Energy(f.pcm), |f.pcm|, Peak(f.pcm));
      assert Bounded(0, 0, 0);
      BoundedSum(0, 0, 0, Energy(f.pcm), |f.pcm|, Peak(f.pcm));
      hide Energy, Peak, Second, Bounded;
    }
  }

  lemma MulPos(a: real, b: real)
    requires a > 0.0 && b > 0.0
    ensures a * b > 0.0
  {}

  lemma SquareReal(a: real, b: real)
    requires 0.0 <= a < b
    ensures a * a < b * b
  {
    MulPos(b - a, b + a);
    assert b * b - a * a == (b - a) * (b + a);
  }

  lemma RootMono(a: real, b: real)
    requires 0.0 <= a && 0.0 <= b && a * a <= b * b
    ensures a <= b
  {
    if b < a {
      SquareReal(b, a);
    }
  }

  lemma CancelReal(a: real, b: real, n: real)
    requires n > 0.0 && a * n <= b * n
    ensures a <= b
  {
    if b < a {
      MulPos(a - b, n);
    }
  }

  lemma RootBelowPeak(r: Record, rms: real)
    requires r.n > 0 && Bounded(r.sumSq, r.n, r.peak)
    requires rms >= 0.0 && rms * rms * r.n as real == r.sumSq as real
    ensures rms <= r.peak as real
  {
    var p, n := r.peak as real, r.n as real;
    var square := r.peak * r.peak;
    assert square as real == p * p;
    assert (r.n * square) as real == p * p * n;
    CancelReal(rms * rms, p * p, n);
    RootMono(rms, p);
  }

  /**
    * In every record of every run the two levels are the same increasing function, of max(rms, 1)
    * and max(peak, 1), and the first never exceeds the second.
    */
  lemma RmsBelowPeak(fs: seq<Frame>, r: Record, rms: real)
    requires r in Play(fs).records
    requires rms >= 0.0 && rms * rms * r.n as real == r.sumSq as real
    ensures r.n > 0 && (if rms > 1.0 then rms else 1.0) <= Max(r.peak, 1) as real
  {
    LevelsBounded(fs);
    hide Play, Bounded;
    RootBelowPeak(r, rms);
  }

  // ---------------------------------------------------------------------
  // Time
  // ---------------------------------------------------------------------

  predicate ClockNonDecreasing(fs: seq<Frame>) {
    forall i, j | 0 <= i < j < |fs| :: fs[i].now <= fs[j].now
  }

  /** Frames that arrived in second `t` or earlier. */
  function ArrivedBy(fs: seq<Frame>, t: int): nat {
    if fs == [] then 0 else ArrivedBy(fs[..|fs| - 1], t) + if Second(fs[|fs| - 1].now) <= t then 1 else 0
  }

  lemma SecondMonotone(a: real, b: real)
    requires a <= b
    ensures Second(a) <= Second(b)
  {}

  lemma {:induction false} AllArrivedBy(fs: seq<Frame>, t: int)
    requires forall f <- fs :: Second(f.now) <= t
    ensures ArrivedBy(fs, t) == |fs|
  {
    if fs != [] {
      AllArrivedBy(fs[..|fs| - 1], t);
    }
  }

  /** Record by record: the frames reported so far are those that arrived by its second. */
  ghost predicate Caught(fs: seq<Frame>, records: seq<Record>) {
    forall k | 0 <= k < |records| :: FramesReported(records[..k + 1]) == ArrivedBy(fs, records[k].t)
  }

  ghost predicate SecondsRise(records: seq<Record>) {
    forall i, j | 0 <= i < j < |records| :: records[i].t < records[j].t
  }

  /** The bucket is that of the latest frame, and all records are older. */
  ghost predicate BucketCurrent(fs: seq<Frame>) {
    var run := Play(fs);
    if fs == [] then run == Run(EMPTY, []) else
      && run.bucket.sec == Some(Second(fs[|fs| - 1].now))
      && (forall i | 0 <= i < |run.records| :: run.records[i].t < run.bucket.sec.value)
  }

  /**
    * For a clock that never runs backwards: reported seconds strictly increase, and each record
    * brings the reported count to exactly the frames that arrived by the end of its second. A
    * record therefore counts the frames of its own second plus those of silent seconds since the
    * record before it.
    */
  lemma {:induction false} SecondsIncrease(fs: seq<Frame>)
    requires ClockNonDecreasing(fs)
    ensures BucketCurrent(fs) && SecondsRise(Play(fs).records) && Caught(fs, Play(fs).records)
  {
    hide Play, Second, ClockNonDecreasing, ArrivedBy, FramesReported, Caught, BucketCurrent, SecondsRise;
    if fs == [] {
      NothingPlayed();
    } else {
      var init, f := fs[..|fs| - 1], fs[|fs| - 1];
      ClockPrefix(fs);
      SecondsIncrease(init);
      FramesConserved(init);
      var out := NextRun(init, f);
      var records := Play(init).records;
      CaughtLater(init, f, records);
      if out.Some? {
        OlderFrames(init, f, out.value.t);
        CaughtOneMore(init + [f], records, out.value);
        RiseOneMore(records, out.value);
      }
      assert init + [f] == fs;
    }
  }

  lemma NothingPlayed()
    ensures BucketCurrent([]) && SecondsRise(Play([]).records) && Caught([], Play([]).records)
  {}

  lemma RiseOneMore(records: seq<Record>, r: Record)
    requires SecondsRise(records) && forall i | 0 <= i < |records| :: records[i].t < r.t
    ensures SecondsRise(records + [r])
  {}

  lemma ClockPrefix(fs: seq<Frame>)
    requires ClockNonDecreasing(fs) && fs != []
    ensures ClockNonDecreasing(fs[..|fs| - 1])
    ensures |fs| > 1 ==> Second(fs[|fs| - 2].now) <= Second(fs[|fs| - 1].now)
  {
    LatestIsGreatest(fs);
    hide Second;
  }

  /** What one frame does to a run. */
  lemma NextRun(init: seq<Frame>, f: Frame) returns (out: Option<Record>)
    requires BucketCurrent(init)
    requires init != [] ==> Second(init[|init| - 1].now) <= Second(f.now)
    ensures BucketCurrent(init + [f])
    ensures forall i | 0 <= i < |Play(init).records| :: Play(init).records[i].t < Second(f.now)
    ensures out.None? ==> Play(init + [f]).records == Play(init).records
    ensures out.Some? ==>
              && init != [] && out.value.t == Second(init[|init| - 1].now) < Second(f.now)
              && out.value.f == Play(init).bucket.frames
              && Play(init + [f]).records == Play(init).records + [out.value]
              && forall i | 0 <= i < |Play(init).records| :: Play(init).records[i].t < out.value.t
  {
    assert (init + [f])[..|init|] == init;
    hide Energy, Peak, Second;
    var before := Play(init);
    out := AddFrame(before.bucket, f.pcm, f.now).1;
    if out.None? {
      assert before.records + [] == before.records;
    }
  }

  lemma OlderFrames(init: seq<Frame>, f: Frame, t: int)
    requires init != [] && t == Second(init[|init| - 1].now) && t < Second(f.now)
    requires ClockNonDecreasing(init)
    ensures ArrivedBy(init + [f], t) == |init|
  {
    LatestIsGreatest(init);
    AllArrivedBy(init, t);
    assert (init + [f])[..|init|] == init;
  }

  /** Frames after a record's second do not change what it caught up with. */
  lemma CaughtLater(init: seq<Frame>, f: Frame, records: seq<Record>)
    requires Caught(init, records)
    requires forall i | 0 <= i < |records| :: records[i].t < Second(f.now)
    ensures Caught(init + [f], records)
  {
    assert (init + [f])[..|init|] == init;
    hide Second;
  }

  lemma CaughtOneMore(fs: seq<Frame>, records: seq<Record>, r: Record)
    requires Caught(fs, records) && FramesReported(records) + r.f == ArrivedBy(fs, r.t)
    ensures Caught(fs, records + [r])
  {
    ReportedSnoc(records, r);
    hide FramesReported, ArrivedBy;
    forall k | 0 <= k < |records| + 1
      ensures FramesReported((records + [r])[..k + 1]) == ArrivedBy(fs, (records + [r])[k].t)
    {
      if k < |records| {
        assert (records + [r])[..k + 1] == records[..k + 1];
      } else {
        assert (records + [r])[..k + 1] == records + [r];
      }
    }
  }

  lemma LatestIsGreatest(fs: seq<Frame>)
    requires ClockNonDecreasing(fs) && fs != []
    ensures forall f <- fs :: Second(f.now) <= Second(fs[|fs| - 1].now)
  {
    forall i | 0 <= i < |fs| ensures Second(fs[i].now) <= Second(fs[|fs| - 1].now) {
      SecondMonotone(fs[i].now, fs[|fs| - 1].now);
    }
  }

  /** Frames that arrived in second `t`. */
  function InSecond(fs: seq<Frame>, t: int): nat {
    if fs == [] then 0 else InSecond(fs[..|fs| - 1], t) + if Second(fs[|fs| - 1].now) == t then 1 else 0
  }

  lemma {:induction false} ArrivedInSecond(fs: seq<Frame>, t: int)
    ensures ArrivedBy(fs, t) == ArrivedBy(fs, t - 1) + InSecond(fs, t)
  {
    if fs != [] {
      ArrivedInSecond(fs[..|fs| - 1], t);
    }
  }

  lemma {:induction false} ArrivedBetween(fs: seq<Frame>, a: int, b: int)
    requires a <= b
    ensures ArrivedBy(fs, a) <= ArrivedBy(fs, b)
    ensures ArrivedBy(fs, a) < ArrivedBy(fs, b) <==> exists f <- fs :: a < Second(f.now) <= b
    ensures ArrivedBy(fs, b) > 0 <==> exists f <- fs :: Second(f.now) <= b
  {
    if fs != [] {
      var init, last := fs[..|fs| - 1], fs[|fs| - 1];
      assert fs == init + [last];
      hide Second;
      ArrivedBetween(init, a, b);
    }
  }

  /** What was reported before the k-th record, and by it. */
  lemma RecordAdds(fs: seq<Frame>, k: nat)
    requires ClockNonDecreasing(fs) && k < |Play(fs).records|
    ensures var records := Play(fs).records;
            && (k > 0 ==> records[k - 1].t < records[k].t)
            && (if k == 0 then 0 else ArrivedBy(fs, records[k - 1].t)) + records[k].f == ArrivedBy(fs, records[k].t)
  {
    SecondsIncrease(fs);
    var records := Play(fs).records;
    hide Play, ArrivedBy, ClockNonDecreasing, BucketCurrent;
    assert records[..k + 1] == records[..k] + [records[k]];
    ReportedSnoc(records[..k], records[k]);
    assert FramesReported(records[..k + 1]) == ArrivedBy(fs, records[k].t);
    if k > 0 {
      assert FramesReported(records[..k - 1 + 1]) == ArrivedBy(fs, records[k - 1].t);
    }
  }

  /** Some frame came after the previous record's second but before this record's. */
  predicate FrameBetween(fs: seq<Frame>, records: seq<Record>, k: nat)
    requires k < |records|
  {
    exists f <- fs :: (k == 0 || records[k - 1].t < Second(f.now)) && Second(f.now) < records[k].t
  }

  /**
    * For a clock that never runs backwards, a record's `f` is the number of frames of its second if
    * and only if no frame arrived in a second between it and the record before: such a second had no
    * samples, and its frames are counted into this record.
    */
  lemma RecordCountsItsSecondIff(fs: seq<Frame>, k: nat)
    requires ClockNonDecreasing(fs) && k < |Play(fs).records|
    ensures var records := Play(fs).records;
            records[k].f == InSecond(fs, records[k].t) <==> !FrameBetween(fs, records, k)
  {
    RecordAdds(fs, k);
    var records := Play(fs).records;
    var t := records[k].t;
    hide Play, Second, ArrivedBy, InSecond, ClockNonDecreasing;
    ArrivedInSecond(fs, t);
    ArrivedBetween(fs, if k > 0 then records[k - 1].t else t - 1, t - 1);
  }

  lemma PlaySnoc(fs: seq<Frame>, f: Frame)
    ensures var (b, out) := AddFrame(Play(fs).bucket, f.pcm, f.now);
            Play(fs + [f]) == Run(b, Play(fs).records + if out.Some? then [out.value] else [])
  {
    assert (fs + [f])[..|fs|] == fs;
    hide AddFrame;
  }

  lemma SampleLevels()
    ensures Energy([]) == 0 && Peak([]) == 0 && Energy([1]) == 1 && Peak([1]) == 1
    ensures Second(0.0) == 0 && Second(1.0) == 1 && Second(2.0) == 2 && Second(3.0) == 3
  {}

  /** A frame without samples in second 1: the record of second 2 counts it beside its own single frame. */
  lemma SilentFrameMiscounted()
    ensures var a, b, c, d := Frame([1], 0.0), Frame([], 1.0), Frame([1], 2.0), Frame([1], 3.0);
            Play([a, b, c, d]).records == [Record(0, 1, 1, 1, 1), Record(2, 1, 1, 1, 2)]
  {
    var a, b, c, d := Frame([1], 0.0), Frame([], 1.0), Frame([1], 2.0), Frame([1], 3.0);
    assert Play([]) == Run(EMPTY, []);
    PlaySnoc([], a);
    PlaySnoc([a], b);
    PlaySnoc([a, b], c);
    PlaySnoc([a, b, c], d);
    hide Play, Peak, Energy, Second;
    SampleLevels();
    assert [] + [a] == [a] && [a] + [b] == [a, b] && [a, b] + [c] == [a, b, c] && [a, b, c] + [d] == [a, b, c, d];
  }

  // ---------------------------------------------------------------------
  // Which seconds are reported
  // ---------------------------------------------------------------------

  /** Towards zero: the whole seconds of a reading. */
  lemma SecondIs(now: real)
    ensures now >= 0.0 ==> Second(now) as real <= now < (Second(now) + 1) as real
    ensures now < 0.0 ==> (Second(now) - 1) as real < now <= Second(now) as real
  {}

  /** The peak is the greatest absolute sample. */
  lemma {:induction false} PeakIs(pcm: seq<sample>)
    ensures forall x <- pcm :: Abs(x) <= Peak(pcm)
    ensures pcm != [] ==> exists x <- pcm :: Abs(x) == Peak(pcm)
    ensures forall x: sample :: (x >= 0 ==> Abs(x) == x) && (x < 0 ==> Abs(x) == 0 - (x as int))
  {
    if pcm != [] {
      var init, x := pcm[..|pcm| - 1], pcm[|pcm| - 1];
      assert pcm == init + [x];
      PeakIs(init);
      NothingLouder(init);
      hide Abs;
    }
  }

  lemma NothingLouder(pcm: seq<sample>)
    ensures pcm == [] ==> Peak(pcm) == 0
    ensures forall x: sample :: Abs(x) >= 0
  {}

  /** The energy is the sum of the squares. */
  lemma {:induction false} EnergyIs(a: seq<sample>, b: seq<sample>)
    ensures Energy(a + b) == Energy(a) + Energy(b)
    ensures forall x: sample :: Energy([x]) == x * x
  {
    if b == [] {
      assert a + b == a;
      forall x: sample ensures Energy([x]) == x * x {
        assert [x][..0] == [];
      }
    } else {
      assert (a + b)[..|a + b| - 1] == a + b[..|b| - 1];
      hide Abs;
      EnergyIs(a, b[..|b| - 1]);
    }
  }

  lemma BucketOfLast(fs: seq<Frame>)
    requires fs != []
    ensures Play(fs).bucket.sec == Some(Second(fs[|fs| - 1].now)) && Play(fs).bucket.n >= |fs[|fs| - 1].pcm|
  {
    hide Energy, Peak, Second, Max;
  }

  /** A record comes out whenever a second that just had samples is left, for that second, with all that was pending. */
  lemma LeavingReports(fs: seq<Frame>, f: Frame)
    requires fs != [] && fs[|fs| - 1].pcm != [] && Second(f.now) != Second(fs[|fs| - 1].now)
    ensures var before, after := Play(fs), Play(fs + [f]);
            after.records == before.records
                             + [Record(Second(fs[|fs| - 1].now), before.bucket.sumSq, before.bucket.n,
                                       before.bucket.peak, before.bucket.frames)]
  {
    PlaySnoc(fs, f);
    BucketOfLast(fs);
    hide Play, Energy, Peak, Second, Max;
  }

  datatype Sums = Sums(sumSq: nat, n: nat, peak: nat)

  /** The sums of the open bucket. */
  function Open(b: Bucket): Sums {
    Sums(b.sumSq, b.n, b.peak)
  }

  /** These sums with one more frame. */
  function WithFrame(s: Sums, f: Frame): Sums {
    Sums(s.sumSq + Energy(f.pcm), s.n + |f.pcm|, Max(s.peak, Peak(f.pcm)))
  }

  /** The samples of one second. */
  function SumsIn(fs: seq<Frame>, t: int): Sums {
    if fs == [] then Sums(0, 0, 0) else
      var f, before := fs[|fs| - 1], SumsIn(fs[..|fs| - 1], t);
      if Second(f.now) == t then WithFrame(before, f) else before
  }

  lemma SumsNext(fs: seq<Frame>, f: Frame, t: int)
    ensures var before := SumsIn(fs, t);
            SumsIn(fs + [f], t)
            == if Second(f.now) == t then WithFrame(before, f) else before
  {
    assert (fs + [f])[..|fs|] == fs;
    hide Energy, Peak, Max, Second;
  }

  /** The samples that arrived in second `t`, in order. */
  function SamplesIn(fs: seq<Frame>, t: int): seq<sample> {
    if fs == [] then [] else
      SamplesIn(fs[..|fs| - 1], t) + if Second(fs[|fs| - 1].now) == t then fs[|fs| - 1].pcm else []
  }

  lemma {:induction false} PeakConcat(a: seq<sample>, b: seq<sample>)
    ensures Peak(a + b) == Max(Peak(a), Peak(b))
  {
    if b == [] {
      assert a + b == a;
    } else {
      assert (a + b)[..|a + b| - 1] == a + b[..|b| - 1];
      hide Abs;
      PeakConcat(a, b[..|b| - 1]);
    }
  }

  /** Summing frame by frame is summing the second's samples as one piece. */
  lemma {:induction false} SumsAreOfSamples(fs: seq<Frame>, t: int)
    ensures var pcm := SamplesIn(fs, t);
            SumsIn(fs, t) == Sums(Energy(pcm), |pcm|, Peak(pcm))
  {
    if fs != [] {
      var init, f := fs[..|fs| - 1], fs[|fs| - 1];
      SumsAreOfSamples(init, t);
      EnergyIs(SamplesIn(init, t), f.pcm);
      PeakConcat(SamplesIn(init, t), f.pcm);
      hide Energy, Peak, Max, Second;
      assert SamplesIn(init, t) + [] == SamplesIn(init, t);
    }
  }

  lemma {:induction false} NoSamplesNoSums(fs: seq<Frame>, t: int)
    ensures SumsIn(fs, t).n == 0 ==> SumsIn(fs, t) == Sums(0, 0, 0)
  {
    if fs != [] {
      NoSamplesNoSums(fs[..|fs| - 1], t);
      hide Second;
    }
  }

  lemma {:induction false} NothingIn(fs: seq<Frame>, t: int)
    requires forall f <- fs :: Second(f.now) < t
    ensures SumsIn(fs, t) == Sums(0, 0, 0)
  {
    hide Second, Energy, Peak, Max;
    if fs != [] {
      NothingIn(fs[..|fs| - 1], t);
    }
  }

  ghost predicate IsSecond(fs: seq<Frame>, r: Record) {
    r.n > 0 && Sums(r.sumSq, r.n, r.peak) == SumsIn(fs, r.t)
  }

  /** Each record is one second's samples, no finished second with samples is missing, and the open bucket is the latest second. */
  ghost predicate ReportsSeconds(fs: seq<Frame>) {
    var run := Play(fs);
    if fs == [] then run == Run(EMPTY, []) else
      var now, b := Second(fs[|fs| - 1].now), run.bucket;
      && b.sec == Some(now) && Open(b) == SumsIn(fs, now)
      && (forall r <- run.records :: IsSecond(fs, r) && r.t < now)
      && (forall t | t < now && SumsIn(fs, t).n > 0 :: exists r <- run.records :: r.t == t)
  }

  lemma AddNext(b: Bucket, f: Frame)
    requires b.sec.Some?
    ensures var (after, out) := AddFrame(b, f.pcm, f.now);
            && after.sec == Some(Second(f.now))
            && (out.Some? <==> b.sec.value != Second(f.now) && b.n > 0)
            && (out.Some? ==> out.value == Record(b.sec.value, b.sumSq, b.n, b.peak, b.frames))
            && Open(after) == WithFrame(if out.Some? then Sums(0, 0, 0) else Open(b), f)
  {
    hide Energy, Peak, Second, Max;
  }

  lemma PlayNext(fs: seq<Frame>, f: Frame)
    requires fs != []
    ensures var b, after := Play(fs).bucket, Play(fs + [f]);
            var last, now := Second(fs[|fs| - 1].now), Second(f.now);
            && after.bucket.sec == Some(now)
            && if last != now && b.n > 0 then
                 && after.records == Play(fs).records + [Record(last, b.sumSq, b.n, b.peak, b.frames)]
                 && Open(after.bucket) == WithFrame(Sums(0, 0, 0), f)
               else after.records == Play(fs).records && Open(after.bucket) == WithFrame(Open(b), f)
  {
    hide Play, AddFrame, Open, WithFrame, Second;
    PlaySnoc(fs, f);
    BucketOfLast(fs);
    AddNext(Play(fs).bucket, f);
    assert Play(fs).records + [] == Play(fs).records;
  }

  lemma BucketNext(fs: seq<Frame>, f: Frame)
    requires fs != [] && ReportsSeconds(fs) && Second(fs[|fs| - 1].now) <= Second(f.now)
    requires forall g <- fs :: Second(g.now) <= Second(fs[|fs| - 1].now)
    ensures Open(Play(fs + [f]).bucket) == SumsIn(fs + [f], Second(f.now))
  {
    var last, now := Second(fs[|fs| - 1].now), Second(f.now);
    PlayNext(fs, f);
    SumsNext(fs, f, now);
    NoSamplesNoSums(fs, last);
    hide Play, Energy, Peak, Second, Max, SumsIn;
    if last < now {
      NothingIn(fs, now);
    }
  }

  lemma RecordsNext(fs: seq<Frame>, f: Frame, r: Record)
    requires fs != [] && ReportsSeconds(fs) && Second(fs[|fs| - 1].now) <= Second(f.now)
    requires r in Play(fs + [f]).records
    ensures IsSecond(fs + [f], r) && r.t < Second(f.now)
  {
    PlayNext(fs, f);
    SumsNext(fs, f, r.t);
    hide Play, Energy, Peak, Second, Max, SumsIn;
  }

  lemma FinishedNext(fs: seq<Frame>, f: Frame, t: int)
    requires fs != [] && ReportsSeconds(fs) && Second(fs[|fs| - 1].now) <= Second(f.now)
    requires forall g <- fs :: Second(g.now) <= Second(fs[|fs| - 1].now)
    requires t < Second(f.now) && SumsIn(fs + [f], t).n > 0
    ensures exists r <- Play(fs + [f]).records :: r.t == t
  {
    var last, b, records := Second(fs[|fs| - 1].now), Play(fs).bucket, Play(fs).records;
    PlayNext(fs, f);
    SumsNext(fs, f, t);
    hide Play, Energy, Peak, Second, Max, SumsIn;
    if t < last {
      var r :| r in records && r.t == t;
      assert r in Play(fs + [f]).records;
    } else if t == last {
      var r := Record(last, b.sumSq, b.n, b.peak, b.frames);
      assert Play(fs + [f]).records[|records|] == r;
    } else {
      NothingIn(fs, t);
      assert false;
    }
  }

  lemma ReportsNext(fs: seq<Frame>, f: Frame)
    requires fs != [] && ReportsSeconds(fs) && Second(fs[|fs| - 1].now) <= Second(f.now)
    requires forall g <- fs :: Second(g.now) <= Second(fs[|fs| - 1].now)
    ensures ReportsSeconds(fs + [f])
  {
    PlayNext(fs, f);
    BucketNext(fs, f);
    forall r | r in Play(fs + [f]).records ensures IsSecond(fs + [f], r) && r.t < Second(f.now) {
      RecordsNext(fs, f, r);
    }
    forall t | t < Second(f.now) && SumsIn(fs + [f], t).n > 0 ensures exists r <- Play(fs + [f]).records :: r.t == t {
      FinishedNext(fs, f, t);
    }
    hide Play, Energy, Peak, Second, Max, SumsIn, IsSecond;
  }

  /**
    * For a clock that never runs backwards, the records are exactly the finished seconds that had
    * samples, each with exactly the energy, sample count and peak of its own second.
    */
  lemma {:induction false} RecordsAreSeconds(fs: seq<Frame>)
    requires ClockNonDecreasing(fs)
    ensures ReportsSeconds(fs)
  {
    if fs == [] {
      assert Play(fs) == Run(EMPTY, []);
    } else {
      var init, f := fs[..|fs| - 1], fs[|fs| - 1];
      assert init + [f] == fs;
      ClockPrefix(fs);
      if init == [] {
        FirstFrame(f);
      } else {
        RecordsAreSeconds(init);
        LatestIsGreatest(init);
        hide ReportsSeconds, Second, Play;
        ReportsNext(init, f);
      }
    }
  }

  /** So each record holds exactly the energy, count and peak of the samples of its second. */
  lemma RecordMeasuresItsSecond(fs: seq<Frame>, r: Record)
    requires ClockNonDecreasing(fs) && r in Play(fs).records
    ensures var pcm := SamplesIn(fs, r.t);
            pcm != [] && r.sumSq == Energy(pcm) && r.n == |pcm| && r.peak == Peak(pcm)
  {
    RecordsAreSeconds(fs);
    SumsAreOfSamples(fs, r.t);
    hide Play, SumsIn, SamplesIn, Energy, Peak, Second;
    assert fs != [];
  }

  lemma FirstFrame(f: Frame)
    ensures ReportsSeconds([f])
  {
    var now := Second(f.now);
    PlaySnoc([], f);
    assert [] + [f] == [f];
    assert Play([]) == Run(EMPTY, []);
    hide Play, Energy, Peak, Second;
    forall t ensures SumsIn([f], t) == if now == t then WithFrame(Sums(0, 0, 0), f) else Sums(0, 0, 0) {
      SumsNext([], f, t);
    }
  }
}
