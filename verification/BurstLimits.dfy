/** How the burst cache measures its queue: the searches over buffers, newest at index 0.

    Timestamps are 64-bit and their differences wrap; a limit of -1 means "unset". */
module BurstLimits {
  import opened Prelude

  datatype Buffer = Buffer(size: nat, ts: Option<nat>, deltaUnit: bool, header: bool)

  datatype Format = Undefined | DefaultFormat | Bytes | Time | Buffers

  /** The arguments of the limit search; the maximum in buffers is accepted and ignored by the program. */
  datatype Limits = Limits(bytesMin: int, buffersMin: int, timeMin: int, bytesMax: int, timeMax: int)

  predicate IsKeyframe(b: Buffer) {
    !b.deltaUnit && !b.header
  }

  // ---------- keyframes ----------

  /** First keyframe at or after index i, or -1. */
  function NextKey(q: seq<Buffer>, i: nat): (k: int)
    ensures -1 <= k < |q|
    ensures k == -1 ==> forall j | i <= j < |q| :: !IsKeyframe(q[j])
    ensures k != -1 ==> i <= k && IsKeyframe(q[k]) && forall j | i <= j < k :: !IsKeyframe(q[j])
    decreases |q| - i
  {
    if i >= |q| then -1 else if IsKeyframe(q[i]) then i else NextKey(q, i + 1)
  }

  /** Last keyframe at or before index i, or -1. */
  function PrevKey(q: seq<Buffer>, i: int): (k: int)
    requires -1 <= i < |q|
    ensures -1 <= k <= i
    ensures k == -1 ==> forall j | 0 <= j <= i :: !IsKeyframe(q[j])
    ensures k != -1 ==> IsKeyframe(q[k]) && forall j | k < j <= i :: !IsKeyframe(q[j])
    decreases i + 1
  {
    if i == -1 || IsKeyframe(q[i]) then i else PrevKey(q, i - 1)
  }

  // ---------- amounts ----------

  function PrefixBytes(q: seq<Buffer>, n: nat): nat
    requires n <= |q|
  {
    if n == 0 then 0 else PrefixBytes(q, n - 1) + q[n - 1].size
  }

  /** Timestamp of the first buffer among the first n that has one. */
  function BaseTs(q: seq<Buffer>, n: nat): (t: Option<nat>)
    requires n <= |q|
    ensures n > 0 && q[n - 1].ts.Some? ==> t.Some?
  {
    if n == 0 then None
    else if BaseTs(q, n - 1).Some? then BaseTs(q, n - 1) else q[n - 1].ts
  }

  /** Distance in time from the base timestamp to buffer k, before any reduction. */
  function Age(q: seq<Buffer>, k: nat): int
    requires k < |q| && q[k].ts.Some?
  {
    BaseTs(q, k + 1).value - q[k].ts.value
  }

  predicate TimeReached(q: seq<Buffer>, k: nat, limit: int)
    requires k < |q|
  {
    q[k].ts.Some? && Age(q, k) % TWO_64 >= limit % TWO_64
  }

  predicate BytesReached(q: seq<Buffer>, k: nat, limit: int)
    requires k < |q|
  {
    PrefixBytes(q, k + 1) >= limit
  }

  // ---------- find_limits ----------

  predicate MaxHit(q: seq<Buffer>, k: nat, lim: Limits)
    requires k < |q|
  {
    || (lim.timeMax != -1 && TimeReached(q, k, lim.timeMax))
    || (lim.bytesMax != -1 && BytesReached(q, k, lim.bytesMax))
  }

  predicate BytesMet(q: seq<Buffer>, k: nat, bytesMin: int)
    requires k < |q|
  {
    bytesMin == -1 || exists j | 0 <= j <= k :: BytesReached(q, j, bytesMin)
  }

  predicate TimeMet(q: seq<Buffer>, k: nat, timeMin: int)
    requires k < |q|
  {
    timeMin == -1 || exists j | 0 <= j <= k :: TimeReached(q, j, timeMin)
  }

  predicate MinMet(q: seq<Buffer>, k: nat, lim: Limits)
    requires k < |q|
  {
    BytesMet(q, k, lim.bytesMin) && TimeMet(q, k, lim.timeMin)
  }

  /** First index at or after i that hits a maximum, else the last index. */
  function FirstMax(q: seq<Buffer>, lim: Limits, i: nat): (hi: nat)
    requires i < |q|
    ensures i <= hi < |q|
    ensures forall j | i <= j < hi :: !MaxHit(q, j, lim)
    ensures hi < |q| - 1 ==> MaxHit(q, hi, lim)
    decreases |q| - i
  {
    if i == |q| - 1 || MaxHit(q, i, lim) then i else FirstMax(q, lim, i + 1)
  }

  /** First index from i up to hi that meets both minima, else hi. */
  function FirstMin(q: seq<Buffer>, lim: Limits, i: nat, hi: nat): (lo: nat)
    requires i <= hi < |q|
    ensures i <= lo <= hi
    ensures forall j | i <= j < lo :: !MinMet(q, j, lim)
    ensures lo < hi ==> MinMet(q, lo, lim)
    decreases hi - i
  {
    if i == hi || MinMet(q, i, lim) then i else FirstMin(q, lim, i + 1, hi)
  }

  predicate TooShort(q: seq<Buffer>, lim: Limits) {
    lim.buffersMin != -1 && |q| < lim.buffersMin
  }

  function MaxIdx(q: seq<Buffer>, lim: Limits): (hi: nat)
    requires |q| > 0
    ensures hi < |q|
  {
    if TooShort(q, lim) then |q| - 1 else FirstMax(q, lim, 0)
  }

  function MinIdx(q: seq<Buffer>, lim: Limits): (lo: nat)
    requires |q| > 0
    ensures lo <= MaxIdx(q, lim)
  {
    if TooShort(q, lim) then |q| - 1 else FirstMin(q, lim, 0, FirstMax(q, lim, 0))
  }

  /** The program reports success only when a maximum stopped the search before the last buffer. */
  predicate LimitsFound(q: seq<Buffer>, lim: Limits)
    requires |q| > 0
  {
    !TooShort(q, lim) && MaxIdx(q, lim) < |q| - 1 && MinMet(q, MaxIdx(q, lim), lim)
  }

  lemma {:induction false} PrefixBytesMonotone(q: seq<Buffer>, m: nat, n: nat)
    requires m <= n <= |q|
    ensures PrefixBytes(q, m) <= PrefixBytes(q, n)
    decreases n
  {
    if m < n {
      PrefixBytesMonotone(q, m, n - 1);
    }
  }

  lemma MetStep(q: seq<Buffer>, k: nat, bytesMin: int, timeMin: int)
    requires k < |q|
    ensures BytesMet(q, k, bytesMin)
       <==> bytesMin == -1 || (k > 0 && BytesMet(q, k - 1, bytesMin)) || BytesReached(q, k, bytesMin)
    ensures TimeMet(q, k, timeMin)
       <==> timeMin == -1 || (k > 0 && TimeMet(q, k - 1, timeMin)) || TimeReached(q, k, timeMin)
  {
  }

  lemma MinMetMonotone(q: seq<Buffer>, j: nat, k: nat, lim: Limits)
    requires j <= k < |q| && MinMet(q, j, lim)
    ensures MinMet(q, k, lim)
  {
  }

  /** Measures depend only on the buffers up to the index they are taken at. */
  lemma {:induction false} PrefixMeasures(q: seq<Buffer>, n: nat, m: nat)
    requires m <= n <= |q|
    ensures PrefixBytes(q[..n], m) == PrefixBytes(q, m)
    ensures BaseTs(q[..n], m) == BaseTs(q, m)
    decreases m
  {
    if m > 0 {
      PrefixMeasures(q, n, m - 1);
      assert q[..n][m - 1] == q[m - 1];
    }
  }

  lemma PrefixMinMet(q: seq<Buffer>, n: nat, k: nat, lim: Limits)
    requires k < n <= |q|
    ensures MinMet(q[..n], k, lim) <==> MinMet(q, k, lim)
  {
    var p := q[..n];
    forall j | 0 <= j <= k
      ensures BytesReached(p, j, lim.bytesMin) == BytesReached(q, j, lim.bytesMin)
      ensures p[j].ts.Some? ==> TimeReached(p, j, lim.timeMin) == TimeReached(q, j, lim.timeMin)
    {
      PrefixMeasures(q, n, j + 1);
    }
  }

  /** The limit search in full, for every queue and every setting without a buffer-count minimum
      that the queue misses: where the two indices lie and what singles them out. */
  lemma LimitSearch(q: seq<Buffer>, lim: Limits)
    requires |q| > 0 && !TooShort(q, lim)
    ensures 0 <= MinIdx(q, lim) <= MaxIdx(q, lim) < |q|
    // the maximum index is the first prefix that reaches a maximum, or the last index
    ensures forall k | 0 <= k < |q| ::
              k == MaxIdx(q, lim) <==>
              (k == |q| - 1 || MaxHit(q, k, lim)) && forall j | 0 <= j < k :: !MaxHit(q, j, lim)
    // the minimum index is the first prefix that meets both minima, or the maximum index
    ensures forall k | 0 <= k <= MaxIdx(q, lim) ::
              k == MinIdx(q, lim) <==>
              (k == MaxIdx(q, lim) || MinMet(q, k, lim)) && forall j | 0 <= j < k :: !MinMet(q, j, lim)
    // a byte minimum is a test of the whole prefix: reaching it is never undone
    ensures forall k | 0 <= k < |q| :: BytesMet(q, k, lim.bytesMin)
                                  <==> lim.bytesMin == -1 || BytesReached(q, k, lim.bytesMin)
  {
    forall k | 0 <= k < |q|
      ensures BytesMet(q, k, lim.bytesMin) <==> lim.bytesMin == -1 || BytesReached(q, k, lim.bytesMin)
    {
      if BytesMet(q, k, lim.bytesMin) && lim.bytesMin != -1 {
        var j :| 0 <= j <= k && BytesReached(q, j, lim.bytesMin);
        PrefixBytesMonotone(q, j + 1, k + 1);
      }
    }
  }

  // ---------- get_buffers_max ----------

  /** Buffer k lies beyond the amount `max` of lag, in a unit that is not a count. */
  predicate Beyond(q: seq<Buffer>, k: nat, format: Format, max: int)
    requires k < |q|
  {
    if format == Time then q[k].ts.Some? && ToInt64(Age(q, k)) > max
    else PrefixBytes(q, k + 1) > max
  }

  /** One more than the first index at or after i beyond the limit, or one more than the length. */
  function FirstBeyond(q: seq<Buffer>, format: Format, max: int, i: nat): (n: int)
    requires i <= |q|
    ensures i + 1 <= n <= |q| + 1
    ensures n <= |q| ==> Beyond(q, n - 1, format, max)
    ensures forall j | i <= j < n - 1 :: !Beyond(q, j, format, max)
    decreases |q| - i
  {
    if i == |q| then |q| + 1
    else if Beyond(q, i, format, max) then i + 1
    else FirstBeyond(q, format, max, i + 1)
  }

  /** A lag limit as a number of buffers. A limit that is already a count is narrowed to 32 bits. */
  function BuffersMax(q: seq<Buffer>, format: Format, max: int): int {
    if format == Time || format == Bytes then FirstBeyond(q, format, max, 0) else ToInt32(max)
  }

  /** A larger limit never allows fewer buffers, in every unit, as long as counts fit 32 bits. */
  lemma BuffersMaxMonotone(q: seq<Buffer>, format: Format, max: int, max': int)
    requires max <= max'
    requires format == Time || format == Bytes || (-0x8000_0000 <= max && max' < 0x8000_0000)
    ensures BuffersMax(q, format, max) <= BuffersMax(q, format, max')
  {
    if format == Time || format == Bytes {
      var n := FirstBeyond(q, format, max', 0);
      if n <= |q| {
        assert Beyond(q, n - 1, format, max);
      }
    }
  }
}
