/** What the searches over the queue find, said with the sizes and timestamps of the buffers themselves, for
    queues in which every buffer has a timestamp and timestamps do not increase with the index. */
module BurstMeasures {
  import opened Prelude
  import opened BurstLimits
  import opened BurstModel
  import BurstKeeping

  /** The bytes of a stretch of buffers. */
  function Total(q: seq<Buffer>): nat {
    if q == [] then 0 else q[0].size + Total(q[1..])
  }

  /** The bytes of the newest buffers up to and including buffer k. */
  function BytesTo(q: seq<Buffer>, k: nat): nat
    requires k < |q|
  {
    Total(q[..k + 1])
  }

  predicate Stamped(q: seq<Buffer>) {
    && (forall i | 0 <= i < |q| :: q[i].ts.Some? && q[i].ts.value < 0x8000_0000_0000_0000)
    && (forall i, j | 0 <= i < j < |q| :: q[i].ts.value >= q[j].ts.value)
  }

  /** How much older than the newest buffer buffer k is. */
  function Lag(q: seq<Buffer>, k: nat): nat
    requires Stamped(q) && k < |q|
  {
    q[0].ts.value - q[k].ts.value
  }

  predicate IsTime(limit: int) {
    -1 <= limit < 0x8000_0000_0000_0000
  }

  // ---------- the measures ----------

  lemma {:induction false} TotalGrows(q: seq<Buffer>, b: Buffer)
    ensures Total(q + [b]) == Total(q) + b.size
  {
    if q == [] {
      assert (q + [b])[1..] == [];
    } else {
      assert (q + [b])[1..] == q[1..] + [b];
      TotalGrows(q[1..], b);
    }
  }

  lemma {:induction false} PrefixIsTotal(q: seq<Buffer>, n: nat)
    requires n <= |q|
    ensures PrefixBytes(q, n) == Total(q[..n])
  {
    if n > 0 {
      PrefixIsTotal(q, n - 1);
      TotalGrows(q[..n - 1], q[n - 1]);
      assert q[..n] == q[..n - 1] + [q[n - 1]];
    }
  }

  /** The base is the timestamp of the first buffer that has one. */
  lemma {:induction false} BaseIsFirst(q: seq<Buffer>, f: nat, n: nat)
    requires f < n <= |q| && q[f].ts.Some? && forall i | 0 <= i < f :: q[i].ts.None?
    ensures BaseTs(q, n) == q[f].ts
  {
    if n > f + 1 {
      BaseIsFirst(q, f, n - 1);
    } else {
      NoBase(q, f);
    }
  }

  lemma {:induction false} NoBase(q: seq<Buffer>, n: nat)
    requires n <= |q| && forall i | 0 <= i < n :: q[i].ts.None?
    ensures BaseTs(q, n) == None
  {
    if n > 0 {
      NoBase(q, n - 1);
    }
  }

  lemma TimeMeans(q: seq<Buffer>, k: nat, limit: int)
    requires Stamped(q) && k < |q| && 0 <= limit && IsTime(limit)
    ensures TimeReached(q, k, limit) <==> Lag(q, k) >= limit
    ensures Beyond(q, k, Time, limit) <==> Lag(q, k) > limit
  {
    BaseIsFirst(q, 0, k + 1);
    assert Age(q, k) == q[0].ts.value - q[k].ts.value;
  }

  lemma BytesMean(q: seq<Buffer>, k: nat, limit: int)
    requires k < |q|
    ensures BytesReached(q, k, limit) <==> BytesTo(q, k) >= limit
    ensures Beyond(q, k, Bytes, limit) <==> BytesTo(q, k) > limit
  {
    PrefixIsTotal(q, k + 1);
  }

  lemma MeasuresGrow(q: seq<Buffer>, j: nat, k: nat)
    requires j <= k < |q|
    ensures BytesTo(q, j) <= BytesTo(q, k)
    ensures Stamped(q) ==> Lag(q, j) <= Lag(q, k)
  {
    PrefixIsTotal(q, j + 1);
    PrefixIsTotal(q, k + 1);
    PrefixBytesMonotone(q, j + 1, k + 1);
  }

  // ---------- the searches ----------

  predicate AtMaximum(q: seq<Buffer>, k: nat, bytesMax: int, timeMax: int)
    requires Stamped(q) && k < |q|
  {
    (bytesMax != -1 && BytesTo(q, k) >= bytesMax) || (timeMax != -1 && Lag(q, k) >= timeMax)
  }

  predicate AtMinima(q: seq<Buffer>, k: nat, bytesMin: int, timeMin: int)
    requires Stamped(q) && k < |q|
  {
    (bytesMin == -1 || BytesTo(q, k) >= bytesMin) && (timeMin == -1 || Lag(q, k) >= timeMin)
  }

  predicate Times(lim: Limits) {
    IsTime(lim.timeMin) && IsTime(lim.timeMax)
  }

  lemma HitMeans(q: seq<Buffer>, k: nat, lim: Limits)
    requires Stamped(q) && k < |q| && Times(lim)
    ensures MaxHit(q, k, lim) <==> AtMaximum(q, k, lim.bytesMax, lim.timeMax)
    ensures MinMet(q, k, lim) <==> AtMinima(q, k, lim.bytesMin, lim.timeMin)
  {
    BytesMean(q, k, lim.bytesMax);
    if lim.timeMax != -1 {
      TimeMeans(q, k, lim.timeMax);
    }
    BytesMetMeans(q, k, lim.bytesMin);
    TimeMetMeans(q, k, lim.timeMin);
  }

  lemma BytesMetMeans(q: seq<Buffer>, k: nat, bytesMin: int)
    requires k < |q|
    ensures BytesMet(q, k, bytesMin) <==> bytesMin == -1 || BytesTo(q, k) >= bytesMin
  {
    BytesMean(q, k, bytesMin);
    if bytesMin != -1 && BytesMet(q, k, bytesMin) {
      var j :| 0 <= j <= k && BytesReached(q, j, bytesMin);
      BytesMean(q, j, bytesMin);
      MeasuresGrow(q, j, k);
    }
  }

  lemma TimeMetMeans(q: seq<Buffer>, k: nat, timeMin: int)
    requires Stamped(q) && k < |q| && IsTime(timeMin)
    ensures TimeMet(q, k, timeMin) <==> timeMin == -1 || Lag(q, k) >= timeMin
  {
    if timeMin != -1 {
      TimeMeans(q, k, timeMin);
      if TimeMet(q, k, timeMin) {
        var j :| 0 <= j <= k && TimeReached(q, j, timeMin);
        TimeMeans(q, j, timeMin);
        MeasuresGrow(q, j, k);
      }
    }
  }

  /** The limit search, measured: the maximum index is the first whose prefix holds the bytes or spans the
      time of a maximum, or the last; the minimum index the first whose prefix holds the bytes and spans the
      time of the minima, or the maximum index; both are the last if there are fewer buffers than demanded. */
  lemma LimitsMeasured(q: seq<Buffer>, lim: Limits)
    requires |q| > 0 && Stamped(q) && Times(lim)
    ensures MinIdx(q, lim) <= MaxIdx(q, lim) < |q|
    ensures lim.buffersMin != -1 && |q| < lim.buffersMin ==> MinIdx(q, lim) == MaxIdx(q, lim) == |q| - 1
    ensures lim.buffersMin == -1 || |q| >= lim.buffersMin ==>
              var lo, hi := MinIdx(q, lim), MaxIdx(q, lim);
              && (forall j | 0 <= j < hi :: !AtMaximum(q, j, lim.bytesMax, lim.timeMax))
              && (hi < |q| - 1 ==> AtMaximum(q, hi, lim.bytesMax, lim.timeMax))
              && (forall j | 0 <= j < lo :: !AtMinima(q, j, lim.bytesMin, lim.timeMin))
              && (lo < hi ==> AtMinima(q, lo, lim.bytesMin, lim.timeMin))
    ensures LimitsFound(q, lim) <==>
            && (lim.buffersMin == -1 || |q| >= lim.buffersMin)
            && MaxIdx(q, lim) < |q| - 1 && AtMinima(q, MaxIdx(q, lim), lim.bytesMin, lim.timeMin)
  {
    forall k | 0 <= k < |q|
      ensures MaxHit(q, k, lim) <==> AtMaximum(q, k, lim.bytesMax, lim.timeMax)
      ensures MinMet(q, k, lim) <==> AtMinima(q, k, lim.bytesMin, lim.timeMin)
    {
      HitMeans(q, k, lim);
    }
    if !TooShort(q, lim) {
      LimitSearch(q, lim);
    }
  }

  /** A lag limit as a number of buffers, measured: the buffers before the last one counted are within it, and
      that one, if it is in the queue, is beyond. A limit given in buffers is that number. */
  lemma LagLimitMeasured(q: seq<Buffer>, format: Format, max: int)
    ensures var n := BuffersMax(q, format, max);
            && (format == Bytes ==>
                  && 1 <= n <= |q| + 1 && (forall k | 0 <= k < n - 1 :: BytesTo(q, k) <= max)
                  && (n <= |q| ==> BytesTo(q, n - 1) > max))
            && (format == Time && Stamped(q) && 0 <= max && IsTime(max) ==>
                  && 1 <= n <= |q| + 1 && (forall k | 0 <= k < n - 1 :: Lag(q, k) <= max)
                  && (n <= |q| ==> Lag(q, n - 1) > max))
            && (format != Bytes && format != Time && -0x8000_0000 <= max < 0x8000_0000 ==> n == max)
  {
    if format == Bytes {
      forall k | 0 <= k < |q| ensures Beyond(q, k, Bytes, max) <==> BytesTo(q, k) > max {
        BytesMean(q, k, max);
      }
    } else if format == Time && Stamped(q) && 0 <= max && IsTime(max) {
      forall k | 0 <= k < |q| ensures Beyond(q, k, Time, max) <==> Lag(q, k) > max {
        TimeMeans(q, k, max);
      }
    }
  }

  // ---------- what is kept ----------

  lemma NoMaximum(q: seq<Buffer>, lim: Limits)
    requires |q| > 0 && lim.bytesMax == lim.timeMax == -1
    ensures MaxIdx(q, lim) == |q| - 1
    ensures !MinMet(q, |q| - 1, lim) ==> MinIdx(q, lim) == |q| - 1
  {
    var lo := MinIdx(q, lim);
    if !TooShort(q, lim) && lo < |q| - 1 {
      MinMetMonotone(q, lo, |q| - 1, lim);
    }
  }

  /** Retention, measured. A queue that holds the bytes, or spans the time, of a minimum of the cache still
      does after trimming, each minimum for itself; and a queue shorter than the minimum in buffers is kept. */
  lemma RetentionMeasured(q: seq<Buffer>, cfg: Config, top: nat)
    requires |q| > 0 && Stamped(q) && IsTime(cfg.timeMin)
    ensures var t := Trimmed(q, cfg, top);
            && 0 < |t| <= |q| && t == q[..|t|]
            && (cfg.bytesMin != -1 ==> (Total(t) >= cfg.bytesMin <==> Total(q) >= cfg.bytesMin))
            && (cfg.timeMin != -1 ==> (Lag(q, |t| - 1) >= cfg.timeMin <==> Lag(q, |q| - 1) >= cfg.timeMin))
            && (cfg.buffersMin != -1 && |q| < cfg.buffersMin ==> t == q)
  {
    var lim, t := CacheLimits(cfg), Trimmed(q, cfg, top);
    var last := |t| - 1;
    MeasuresGrow(q, last, |q| - 1);
    assert BytesTo(q, last) == Total(t) && BytesTo(q, |q| - 1) == Total(q) by {
      assert q[..last + 1] == t && q[..|q|] == q;
    }
    if TooShort(q, lim) || !MinMet(q, |q| - 1, lim) {
      NoMaximum(q, lim);
      assert t == q;
    } else {
      NoMaximum(q, lim);
      KeptMinima(q, cfg, top);
      HitMeans(q, last, lim);
    }
  }

  /** So it is after every queueing step. */
  lemma StepRetains<Id>(s: Cache<Id>, s': Cache<Id>, buf: Buffer, now: int)
    requires QueueStep(s, s', buf, now) && Stamped([buf] + s.queue) && IsTime(s.cfg.timeMin)
    ensures var q, t, cfg := [buf] + s.queue, s'.queue, s.cfg;
            && 0 < |t| <= |q| && t == q[..|t|]
            && (cfg.bytesMin != -1 ==> (Total(t) >= cfg.bytesMin <==> Total(q) >= cfg.bytesMin))
            && (cfg.timeMin != -1 ==> (Lag(q, |t| - 1) >= cfg.timeMin <==> Lag(q, |q| - 1) >= cfg.timeMin))
            && (cfg.buffersMin != -1 && |q| < cfg.buffersMin ==> t == q)
  {
    var top := BurstKeeping.StepTrims(s, s', buf, now);
    RetentionMeasured([buf] + s.queue, s.cfg, top);
  }

  lemma KeptMinima(q: seq<Buffer>, cfg: Config, top: nat)
    requires |q| > 0 && !TooShort(q, CacheLimits(cfg)) && MinMet(q, |q| - 1, CacheLimits(cfg))
    ensures 0 < |Trimmed(q, cfg, top)| <= |q| && MinMet(q, |Trimmed(q, cfg, top)| - 1, CacheLimits(cfg))
  {
    var lim, lo := CacheLimits(cfg), MinIdx(q, CacheLimits(cfg));
    assert MinMet(q, lo, lim);
    MinMetMonotone(q, lo, |Trimmed(q, cfg, top)| - 1, lim);
  }

  // ---------- bursts ----------

  /** Where each burst starts, exactly, given the two indices of the search. */
  lemma BurstExact(q: seq<Buffer>, r: Reader)
    requires CanPosition(q, r) && IsBurst(r.start)
    ensures var p, lo, hi := StartPosition(q, r), MinIdx(q, ReaderLimits(r)), MaxIdx(q, ReaderLimits(r));
            var between := exists k | lo <= k < hi :: IsKeyframe(q[k]);
            // a keyframe between the bounds: the newest of them
            && (!r.start.Burst? && between ==>
                  lo <= p < hi && IsKeyframe(q[p]) && forall k | lo <= k < p :: !IsKeyframe(q[k]))
            // otherwise a burst that has to start with a keyframe goes to the oldest up to the minimum
            && (r.start.BurstKeyframe? && !between ==>
                  && -1 <= p <= lo && (p >= 0 ==> IsKeyframe(q[p]))
                  && (forall k | p < k <= lo :: !IsKeyframe(q[k])))
            // and the others to the minimum, or to one buffer short of the maximum
            && (r.start.Burst? || (r.start.BurstWithKeyframe? && !between) ==>
                  if lo < hi then p == lo else p == 0 == hi || p == hi - 1)
  {
  }

  /** A burst that has to start with a keyframe and finds none, neither between the bounds nor up to the
      minimum, waits for the next keyframe; every other burst starts at once. */
  lemma BurstWaits(q: seq<Buffer>, n: int, r: Reader)
    requires CanPosition(q, r) && IsBurst(r.start) && r.newReader
    ensures var r', lo, hi := Positioned(q, n, r), MinIdx(q, ReaderLimits(r)), MaxIdx(q, ReaderLimits(r));
            && (r'.newReader <==>
                  r.start.BurstKeyframe? && forall k | 0 <= k < |q| && (k <= lo || k < hi) :: !IsKeyframe(q[k]))
            && (r'.newReader ==> r'.bufpos == -1 && r'.start == NextKeyframe && r'.ready == r.ready)
            && (!r'.newReader ==>
                  0 <= r'.bufpos < |q| && r'.start == r.start && r'.ready && r'.trace.origin == n - 1 - r'.bufpos)
  {
    BurstExact(q, r);
  }

  /** Too little data for a burst: if the queue holds fewer bytes than both bounds of a burst in bytes, what is
      sent is not all there is, but all except the oldest buffer. */
  lemma ShortBurst(q: seq<Buffer>, r: Reader)
    requires |q| > 0 && CanPosition(q, r) && r.start.Burst? && r.minFormat == Bytes == r.maxFormat
    requires Total(q) < r.minValue <= r.maxValue < 0x8000_0000
    ensures StartPosition(q, r) == if |q| == 1 then 0 else |q| - 2
  {
    var lim := ReaderLimits(r);
    forall k | 0 <= k < |q| ensures !MaxHit(q, k, lim) && !MinMet(q, k, lim) {
      MeasuresGrow(q, k, |q| - 1);
      assert BytesTo(q, |q| - 1) == Total(q) by {
        assert q[..|q|] == q;
      }
      BytesMean(q, k, lim.bytesMax);
      BytesMetMeans(q, k, lim.bytesMin);
    }
  }

  /** The same if the minimum is a number of buffers the queue does not have, whatever the maximum is. */
  lemma ShortBurstOfBuffers(q: seq<Buffer>, r: Reader)
    requires |q| > 0 && CanPosition(q, r) && r.start.Burst? && r.minFormat == Buffers
    requires |q| < r.minValue < 0x8000_0000
    ensures StartPosition(q, r) == if |q| == 1 then 0 else |q| - 2
  {
    assert TooShort(q, ReaderLimits(r));
  }

  /** What a burst in bytes promises: less than the maximum is sent, unless a single buffer exceeds it; and at
      least the minimum, if that can be had below the maximum without the oldest buffer. */
  lemma BurstBytes(q: seq<Buffer>, r: Reader)
    requires CanPosition(q, r) && r.start.Burst? && r.minFormat == Bytes == r.maxFormat
    requires r.minValue < 0x8000_0000 && r.maxValue < 0x8000_0000
    ensures var p := StartPosition(q, r);
            && 0 <= p < |q|
            && (p > 0 ==> BytesTo(q, p) < r.maxValue)
            && ((exists k | 0 <= k < |q| - 1 :: r.minValue <= BytesTo(q, k) < r.maxValue) ==>
                  && BytesTo(q, p) >= r.minValue
                  && forall k | 0 <= k < p :: BytesTo(q, k) < r.minValue)
  {
    var lim := ReaderLimits(r);
    forall k | 0 <= k < |q|
      ensures MaxHit(q, k, lim) <==> BytesTo(q, k) >= r.maxValue
      ensures MinMet(q, k, lim) <==> BytesTo(q, k) >= r.minValue
    {
      BytesMean(q, k, lim.bytesMax);
      BytesMetMeans(q, k, lim.bytesMin);
    }
    if k :| 0 <= k < |q| - 1 && r.minValue <= BytesTo(q, k) < r.maxValue {
      forall j | 0 <= j <= k ensures BytesTo(q, j) <= BytesTo(q, k) {
        MeasuresGrow(q, j, k);
      }
      assert MaxIdx(q, lim) > k >= MinIdx(q, lim);
    }
  }

  /** The same of a burst in time. */
  lemma BurstTime(q: seq<Buffer>, r: Reader)
    requires CanPosition(q, r) && Stamped(q) && r.start.Burst? && r.minFormat == Time == r.maxFormat
    requires IsTime(r.minValue) && IsTime(r.maxValue)
    ensures var p := StartPosition(q, r);
            && 0 <= p < |q|
            && (p > 0 ==> Lag(q, p) < r.maxValue)
            && ((exists k | 0 <= k < |q| - 1 :: r.minValue <= Lag(q, k) < r.maxValue) ==>
                  Lag(q, p) >= r.minValue && forall k | 0 <= k < p :: Lag(q, k) < r.minValue)
  {
    var lim := ReaderLimits(r);
    forall k | 0 <= k < |q|
      ensures MaxHit(q, k, lim) <==> Lag(q, k) >= r.maxValue
      ensures MinMet(q, k, lim) <==> Lag(q, k) >= r.minValue
    {
      HitMeans(q, k, lim);
    }
    if k :| 0 <= k < |q| - 1 && r.minValue <= Lag(q, k) < r.maxValue {
      forall j | 0 <= j <= k ensures Lag(q, j) <= Lag(q, k) {
        MeasuresGrow(q, j, k);
      }
      assert MaxIdx(q, lim) > k >= MinIdx(q, lim);
    }
  }
}
