/** What the burst cache keeps: readers that lag, the configured minima, and the newest keyframe. */
module BurstKeeping {
  import opened Prelude
  import opened BurstLimits
  import opened BurstModel
  import opened BurstRuns

  // ---------- lagging readers ----------

  /** Limits that are ordered and positive, and that fit the type positions have if they are counts. */
  predicate OrderedLimits(cfg: Config) {
    && 0 < cfg.softMax && (cfg.max <= 0 || cfg.softMax <= cfg.max)
    && (cfg.format == Time || cfg.format == Bytes || (cfg.softMax < 0x8000_0000 && cfg.max < 0x8000_0000))
  }

  /** Who is removed for lag, policy by policy, when the soft limit does not exceed the hard one. */
  lemma LagEviction(queue: seq<Buffer>, buf: Buffer, cfg: Config, r: Reader)
    requires OrderedLimits(cfg) && -1 <= r.bufpos < |queue|
    ensures var q := [buf] + queue; var hard := HardBuffers(q, cfg);
            TooSlow(q, cfg, r) <==>
            && 0 < hard <= r.bufpos + 1
            && (cfg.recover.RecoverNone?
                || ((cfg.recover.ResyncSoftLimit? || cfg.recover.RecoverUnknown?) && SoftBuffers(q, cfg) == hard))
  {
    var q := [buf] + queue;
    if cfg.max > 0 {
      BuffersMaxMonotone(q, cfg.format, cfg.softMax, cfg.max);
    }
    if 0 < SoftBuffers(q, cfg) <= r.bufpos + 1 {
      RecoveryNeverRaises(q, cfg, r.bufpos + 1);
    }
  }

  /** No eviction under recovery. With ordered limits and the latest or keyframe policy, no queueing
      step of any run removes a reader that has not timed out. */
  lemma NoEvictionUnderRecovery<Id>(ss: seq<Cache<Id>>, es: seq<Event<Id>>, i: nat, id: Id)
    requires Run(ss, es) && i < |es| && es[i].Queued?
    requires OrderedLimits(ss[i].cfg) && (ss[i].cfg.recover.ResyncLatest? || ss[i].cfg.recover.ResyncKeyframe?)
    requires id in ss[i].readers
    ensures id in ss[i + 1].readers <==> !TimedOut(ss[i].readers[id], es[i].now)
  {
    RangeSafety(ss, es, i);
    assert ReaderOk(ss[i], id);
    LagEviction(ss[i].queue, es[i].buf, ss[i].cfg, ss[i].readers[id]);
    assert Next(ss[i], es[i], ss[i + 1]);
  }

  /** No reader of any queue can lag so far that it is removed for it. */
  ghost predicate NeverTooSlow(cfg: Config) {
    forall q: seq<Buffer>, r: Reader {:trigger TooSlow(q, cfg, r)} | -1 <= r.bufpos < |q| - 1 :: !TooSlow(q, cfg, r)
  }

  /** Counts are narrowed to 32 bits, and so limits that are ordered as given may end up in any order. The
      latest and keyframe policies keep every reader exactly if there is no hard limit left, or both limits
      are left and in order. */
  lemma CountLimits(cfg: Config)
    requires cfg.format != Time && cfg.format != Bytes && 0 < cfg.softMax <= cfg.max
    requires cfg.recover.ResyncLatest? || cfg.recover.ResyncKeyframe?
    ensures NeverTooSlow(cfg) <==> ToInt32(cfg.max) <= 0 || 0 < ToInt32(cfg.softMax) <= ToInt32(cfg.max)
  {
    var hard, soft := ToInt32(cfg.max), ToInt32(cfg.softMax);
    if hard <= 0 || 0 < soft <= hard {
      forall q: seq<Buffer>, r: Reader | -1 <= r.bufpos < |q| - 1 ensures !TooSlow(q, cfg, r) {
        if 0 < soft <= r.bufpos + 1 {
          RecoveryNeverRaises(q, cfg, r.bufpos + 1);
        }
      }
    } else {
      var q := seq(hard + 1, _ => PLAIN);
      var r := FRESH_READER.(bufpos := hard - 1);
      assert TooSlow(q, cfg, r);
    }
  }

  const PLAIN := Buffer(1, None, false, false)
  const DELTA := Buffer(1, None, true, false)
  const FRESH_READER := Reader(-1, -1, true, false, Latest, Undefined, 0, Undefined, 0, 0, 0, 0, false, NO_TRACE)

  /** A hard limit of 2^32 + 1 buffers over a soft limit of 2: left are 1 and 2. */
  const HUGE_LIMIT := Config(Buffers, 0x1_0000_0001, 2, ResyncLatest, -1, -1, -1)

  const UNLINKED: Cache<int> := Cache(HUGE_LIMIT, [], map[], [])
  const LINKED: Cache<int> := Cache(HUGE_LIMIT, [], map[0 := FRESH_READER], [])
  const FIRST_READ := FRESH_READER.(newReader := false, bufpos := 0, ready := true)
  const STARTED: Cache<int> := Cache(HUGE_LIMIT, [PLAIN], map[0 := FIRST_READ], [PLAIN])
  const EVICTED: Cache<int> := Cache(HUGE_LIMIT, [PLAIN, PLAIN], map[], [PLAIN, PLAIN])

  lemma ReaderAdded()
    ensures Next(UNLINKED, Added(0, FRESH_READER), LINKED)
  {
    assert Positioned([], 0, FRESH_READER) == FRESH_READER;
  }

  lemma ReaderStarts()
    ensures Next(LINKED, Queued(PLAIN, 0), STARTED)
  {
    assert Moved([PLAIN], HUGE_LIMIT, FRESH_READER) == FRESH_READER.(bufpos := 0);
    assert Hooked([PLAIN], 1, HUGE_LIMIT, FRESH_READER) == FIRST_READ;
    assert Pushed(LINKED, PLAIN) == [PLAIN] && LINKED.log + [PLAIN] == [PLAIN];
    assert Trimmed([PLAIN], HUGE_LIMIT, 0) == [PLAIN];
    QueueStepFrom(LINKED, STARTED, PLAIN, 0, 0);
  }

  lemma ReaderEvicted()
    ensures Next(STARTED, Queued(PLAIN, 0), EVICTED)
  {
    assert Pushed(STARTED, PLAIN) == [PLAIN, PLAIN] && STARTED.log + [PLAIN] == [PLAIN, PLAIN];
    assert TooSlow([PLAIN, PLAIN], HUGE_LIMIT, FIRST_READ);
    TwoPlainKept(HUGE_LIMIT);
    QueueStepFrom(STARTED, EVICTED, PLAIN, 0, 0);
  }

  /** A run in which a reader is removed for lag, under ordered limits and the latest policy: it is linked,
      and two buffers are queued. */
  lemma HugeLimitEvicts() returns (ss: seq<Cache<int>>, es: seq<Event<int>>)
    ensures Run(ss, es) && es == [Added(0, FRESH_READER), Queued(PLAIN, 0), Queued(PLAIN, 0)]
    ensures forall i | 0 <= i < |ss| :: ss[i].cfg == HUGE_LIMIT
    ensures 0 < HUGE_LIMIT.softMax <= HUGE_LIMIT.max && ToInt32(HUGE_LIMIT.max) < ToInt32(HUGE_LIMIT.softMax)
    ensures 0 in ss[2].readers && !TimedOut(ss[2].readers[0], 0) && 0 !in ss[3].readers
  {
    ReaderAdded();
    ReaderStarts();
    ReaderEvicted();
    var queued := Queued(PLAIN, 0);
    ThreeSteps(UNLINKED, Added(0, FRESH_READER), LINKED, queued, STARTED, queued, EVICTED);
    ss, es := [UNLINKED, LINKED, STARTED, EVICTED], [Added(0, FRESH_READER), queued, queued];
  }

  lemma TwoPlainKept(cfg: Config)
    requires cfg.bytesMin == cfg.timeMin == cfg.buffersMin == -1
    ensures Trimmed([PLAIN, PLAIN], cfg, 0) == [PLAIN, PLAIN]
  {
    var q, lim := [PLAIN, PLAIN], CacheLimits(cfg);
    assert MinMet(q, 0, lim) && MinIdx(q, lim) == 0;
  }

  /** Recovery to a keyframe puts a lagging reader on the oldest keyframe within the soft limit, and on
      nothing at all exactly when there is none. */
  lemma KeyframeRecovery(q: seq<Buffer>, cfg: Config, p: int)
    requires 0 <= p < |q| && 0 < SoftBuffers(q, cfg) <= p && cfg.recover.ResyncKeyframe?
    ensures var to, soft := RecoverPosition(q, cfg, p), SoftBuffers(q, cfg);
            && (to == -1 <==> forall k | 0 <= k < soft :: !IsKeyframe(q[k]))
            && (to != -1 ==> 0 <= to < soft && IsKeyframe(q[to]) && forall k | to < k < soft :: !IsKeyframe(q[k]))
  {
    var to, soft := RecoverPosition(q, cfg, p), SoftBuffers(q, cfg);
    assert soft == BuffersMax(q, cfg.format, cfg.softMax) && to == PrevKey(q, soft - 1);
  }

  // ---------- keyframe starts ----------

  /** The newest keyframe starts a latest-keyframe reader; the oldest keyframe that arrived since it was
      last positioned starts a next-keyframe reader; without one they wait for the next keyframe. */
  lemma PlainKeyframeStart(q: seq<Buffer>, n: int, r: Reader)
    requires CanPosition(q, r) && r.newReader && (r.start.LatestKeyframe? || r.start.NextKeyframe?)
    ensures var r' := Positioned(q, n, r); var p := r'.bufpos;
            var seen := if r.start.LatestKeyframe? then |q| else r.bufpos + 1;
            && (r'.newReader <==> forall k | 0 <= k < seen :: !IsKeyframe(q[k]))
            && (r'.newReader ==> p == -1 && r'.start.NextKeyframe? && r'.ready == r.ready)
            && (!r'.newReader ==> 0 <= p < seen && IsKeyframe(q[p]) && r'.start == r.start && r'.ready)
            && (!r'.newReader && r.start.LatestKeyframe? ==> forall k | 0 <= k < p :: !IsKeyframe(q[k]))
            && (!r'.newReader && r.start.NextKeyframe? ==> forall k | p < k < seen :: !IsKeyframe(q[k]))
  {
    var p := StartPosition(q, r);
    assert p == if r.start.LatestKeyframe? then NextKey(q, 0) else PrevKey(q, r.bufpos);
  }

  // ---------- bursts ----------

  /** What a burst start promises, when the queue does not miss a buffer-count minimum. Nothing up to
      the start hits a maximum (a keyframe burst may start on the buffer that does); the minima are met if they
      can be met below the maximum; and a keyframe between the bounds is used by both keyframe bursts. */
  lemma BurstStart(q: seq<Buffer>, r: Reader)
    requires CanPosition(q, r) && IsBurst(r.start) && !TooShort(q, ReaderLimits(r))
    ensures var p, lim := StartPosition(q, r), ReaderLimits(r);
            && (forall j | 0 <= j < p :: !MaxHit(q, j, lim))
            && (p > 0 && !r.start.BurstKeyframe? ==> !MaxHit(q, p, lim))
            && (MinIdx(q, lim) < MaxIdx(q, lim) && !r.start.BurstKeyframe? ==> MinMet(q, p, lim))
            && (!r.start.Burst? && (exists k | MinIdx(q, lim) <= k < MaxIdx(q, lim) :: IsKeyframe(q[k])) ==>
                  MinIdx(q, lim) <= p < MaxIdx(q, lim) && IsKeyframe(q[p]) && MinMet(q, p, lim)
                  && forall k | MinIdx(q, lim) <= k < p :: !IsKeyframe(q[k]))
            && (p == -1 ==> r.start.BurstKeyframe? && forall k | 0 <= k <= MinIdx(q, lim) :: !IsKeyframe(q[k]))
  {
    var p, lim := StartPosition(q, r), ReaderLimits(r);
    if MinIdx(q, lim) < MaxIdx(q, lim) && p >= MinIdx(q, lim) {
      MinMetMonotone(q, MinIdx(q, lim), p, lim);
    }
  }

  // ---------- the minima ----------

  /** Queueing trims to the highest position of the readers it leaves. */
  lemma StepTrims<Id>(s: Cache<Id>, s': Cache<Id>, buf: Buffer, now: int) returns (top: nat)
    requires QueueStep(s, s', buf, now)
    ensures IsTop(s'.readers, top) && s'.queue == Trimmed(Pushed(s, buf), s.cfg, top)
  {
    top :| IsTop(s'.readers, top) && s'.queue == Trimmed(Pushed(s, buf), s.cfg, top);
  }

  lemma TrimmedMinima(q: seq<Buffer>, cfg: Config, top: nat)
    requires |q| > 0
    ensures var lim := CacheLimits(cfg); var n := |Trimmed(q, cfg, top)|;
            && 0 < n <= |q|
            && (MinMet(q, n - 1, lim) <==> MinMet(q, |q| - 1, lim))
            && (TooShort(q, lim) ==> n == |q|)
  {
    var lim := CacheLimits(cfg);
    var n := |Trimmed(q, cfg, top)|;
    if MinMet(q, |q| - 1, lim) && !TooShort(q, lim) {
      assert MinMet(q, MinIdx(q, lim), lim);
      MinMetMonotone(q, MinIdx(q, lim), n - 1, lim);
    }
    if MinMet(q, n - 1, lim) {
      MinMetMonotone(q, n - 1, |q| - 1, lim);
    }
  }

  lemma TrimmedPrefix(q: seq<Buffer>, cfg: Config, top: nat)
    requires |q| > 0
    ensures var lim := CacheLimits(cfg); var t := Trimmed(q, cfg, top); var n := |t|;
            && 0 < n <= |q| && t == q[..n]
            && (MinMet(t, n - 1, lim) <==> MinMet(q, |q| - 1, lim))
            && (TooShort(q, lim) ==> t == q)
  {
    TrimmedMinima(q, cfg, top);
    var n := |Trimmed(q, cfg, top)|;
    PrefixMinMet(q, n, n - 1, CacheLimits(cfg));
  }

  /** Retention of the minima. The trimmed queue is a prefix, and it meets the byte and time minima
      exactly when the untrimmed queue did; while the buffer-count minimum is missed nothing is trimmed. */
  lemma Retention<Id>(s: Cache<Id>, s': Cache<Id>, buf: Buffer, now: int)
    requires QueueStep(s, s', buf, now)
    ensures var q := Pushed(s, buf); var lim := CacheLimits(s.cfg); var n := |s'.queue|;
            && 0 < n <= |q| && s'.queue == q[..n]
            && (MinMet(s'.queue, n - 1, lim) <==> MinMet(q, |q| - 1, lim))
            && (TooShort(q, lim) ==> s'.queue == q)
  {
    var top := StepTrims(s, s', buf, now);
    TrimmedPrefix(Pushed(s, buf), s.cfg, top);
  }

  /** Nothing more is kept than what a reader, a minimum (plus one buffer) or the newest keyframe needs. */
  lemma NothingExtraKept<Id>(s: Cache<Id>, s': Cache<Id>, buf: Buffer, now: int)
    requires QueueStep(s, s', buf, now) && |s'.queue| > 1
    ensures var q := Pushed(s, buf); var last := |s'.queue| - 1;
            || (exists id | id in s'.readers :: s'.readers[id].bufpos == last)
            || last == MinIdx(q, CacheLimits(s.cfg)) + 1
            || last == |q| - 1
            || last == NextKey(q, 0)
  {
    var top := StepTrims(s, s', buf, now);
  }

  // ---------- the newest keyframe ----------

  predicate HasKey(q: seq<Buffer>) {
    exists i | 0 <= i < |q| :: IsKeyframe(q[i])
  }

  lemma KeyInTrimmed(q: seq<Buffer>, cfg: Config, top: nat)
    requires HasKey(q)
    ensures HasKey(Trimmed(q, cfg, top)) <==>
            SoftBuffers(q, cfg) <= 0 || NextKey(q, 0) < SoftBuffers(q, cfg) || NextKey(q, 0) <= Needed(q, cfg, top)
  {
    var key := NextKey(q, 0);
    var t := Trimmed(q, cfg, top);
    assert 0 <= key < |q|;
    if key < |t| {
      assert IsKeyframe(t[key]);
    } else {
      assert forall i | 0 <= i < |t| :: t[i] == q[i];
    }
  }

  /** The newest keyframe of the queue, when a buffer is queued, is kept exactly if there is no soft
      limit, or it lies within the soft limit, or a minimum or a reader reaches that far anyway. */
  lemma NewestKeyframeKept<Id>(s: Cache<Id>, s': Cache<Id>, buf: Buffer, now: int)
    requires QueueStep(s, s', buf, now)
    ensures var q := Pushed(s, buf); var key, soft := NextKey(q, 0), SoftBuffers(q, s.cfg);
            HasKey(s'.queue) <==>
            && HasKey(q)
            && (soft <= 0 || key < soft || key <= MinIdx(q, CacheLimits(s.cfg)) + 1
                || exists id | id in s'.readers :: s'.readers[id].bufpos >= key)
  {
    var q := Pushed(s, buf);
    var top := StepTrims(s, s', buf, now);
    if HasKey(q) {
      KeyInTrimmed(q, s.cfg, top);
    } else {
      assert forall i | 0 <= i < |s'.queue| :: s'.queue[i] == q[i];
    }
  }

  lemma KeySurvivesQueueing<Id>(s: Cache<Id>, s': Cache<Id>, buf: Buffer, now: int)
    requires Inv(s) && QueueStep(s, s', buf, now) && s.cfg.softMax <= 0
    requires HasKey(s.log) ==> HasKey(s.queue)
    requires HasKey(s'.log)
    ensures HasKey(s'.queue)
  {
    var q := Pushed(s, buf);
    if IsKeyframe(buf) {
      assert IsKeyframe(q[0]);
    } else {
      var k :| 0 <= k < |s'.log| && IsKeyframe(s'.log[k]);
      assert IsKeyframe(s.log[k]);
      var m :| 0 <= m < |s.queue| && IsKeyframe(s.queue[m]);
      assert IsKeyframe(q[m + 1]);
    }
    NewestKeyframeKept(s, s', buf, now);
  }

  lemma NewestInWindow(queue: seq<Buffer>, log: seq<Buffer>)
    requires Window(queue, log) && HasKey(queue)
    ensures var key := NextKey(queue, 0);
            && key >= 0 && queue[key] == log[|log| - 1 - key]
            && (forall k | |log| - 1 - key < k < |log| :: !IsKeyframe(log[k]))
  {
    var key := NextKey(queue, 0);
    forall k | |log| - 1 - key < k < |log|
      ensures !IsKeyframe(log[k])
    {
      assert queue[|log| - 1 - k] == log[k];
    }
  }

  lemma KeySurvivesStep<Id>(s: Cache<Id>, e: Event<Id>, s': Cache<Id>)
    requires Inv(s) && Next(s, e, s') && s.cfg.softMax <= 0 && !e.Flushed?
    requires HasKey(s.log) ==> HasKey(s.queue)
    ensures HasKey(s'.log) ==> HasKey(s'.queue)
  {
    if e.Queued? && HasKey(s'.log) {
      KeySurvivesQueueing(s, s', e.buf, e.now);
    } else if !e.Queued? {
      assert s'.log == s.log && s'.queue == s.queue;
    }
  }

  lemma {:induction false} KeyAlwaysKept<Id>(ss: seq<Cache<Id>>, es: seq<Event<Id>>, i: nat)
    requires Run(ss, es) && i < |ss|
    requires forall j | 0 <= j < i :: ss[j].cfg.softMax <= 0 && !es[j].Flushed?
    ensures HasKey(ss[i].log) ==> HasKey(ss[i].queue)
    decreases i
  {
    if i > 0 {
      KeyAlwaysKept(ss, es, i - 1);
      RangeSafety(ss, es, i - 1);
      KeySurvivesStep(ss[i - 1], es[i - 1], ss[i]);
    }
  }

  /** Without a soft limit the newest keyframe ever queued is always in the queue, over every run
      that does not empty the queue. */
  lemma NewestKeyframeAlwaysKept<Id>(ss: seq<Cache<Id>>, es: seq<Event<Id>>, i: nat)
    requires Run(ss, es) && i < |ss|
    requires forall j | 0 <= j < i :: ss[j].cfg.softMax <= 0 && !es[j].Flushed?
    requires HasKey(ss[i].log)
    ensures var s := ss[i]; var key := NextKey(s.queue, 0);
            && key >= 0 && |s.queue| <= |s.log|
            && s.queue[key] == s.log[|s.log| - 1 - key]
            && (forall k | |s.log| - 1 - key < k < |s.log| :: !IsKeyframe(s.log[k]))
  {
    KeyAlwaysKept(ss, es, i);
    RangeSafety(ss, es, i);
    NewestInWindow(ss[i].queue, ss[i].log);
  }

  const SOFT_LIMIT_OF_ONE := Config(Buffers, -1, 1, ResyncLatest, -1, -1, -1)

  /** The documentation promises at least one cached keyframe always. With a soft limit that fails: at a
      soft limit of one buffer and no readers, a run that queues a keyframe and two others loses it. */
  lemma KeyframeLostUnderSoftLimit() returns (ss: seq<Cache<int>>, es: seq<Event<int>>)
    ensures Run(ss, es) && es == [Queued(PLAIN, 0), Queued(DELTA, 0), Queued(DELTA, 0)]
    ensures forall i | 0 <= i < |ss| :: ss[i].cfg == SOFT_LIMIT_OF_ONE
    ensures HasKey(ss[3].log) && HasKey(ss[2].queue) && !HasKey(ss[3].queue)
  {
    ss, es := ThreeQueued(SOFT_LIMIT_OF_ONE, PLAIN, DELTA, DELTA);
    var q2, q3 := [DELTA, PLAIN], [DELTA, DELTA, PLAIN];
    MetAtOnce([PLAIN], SOFT_LIMIT_OF_ONE);
    MetAtOnce(q2, SOFT_LIMIT_OF_ONE);
    MetAtOnce(q3, SOFT_LIMIT_OF_ONE);
    assert ss[1].queue == [PLAIN];
    assert Pushed(ss[1], DELTA) == q2 && ss[2].queue == q2;
    assert Pushed(ss[2], DELTA) == q3;
    assert NextKey(q3, 0) == 2 by {
      assert !IsKeyframe(q3[0]) && !IsKeyframe(q3[1]) && IsKeyframe(q3[2]);
    }
    assert ss[3].queue == [DELTA, DELTA];
    assert IsKeyframe(ss[3].log[0]) && IsKeyframe(q2[1]);
  }

  lemma MetAtOnce(q: seq<Buffer>, cfg: Config)
    requires q != [] && cfg.bytesMin == cfg.timeMin == -1 && (cfg.buffersMin == -1 || cfg.buffersMin <= |q|)
    ensures MinIdx(q, CacheLimits(cfg)) == 0
  {
    assert MinMet(q, 0, CacheLimits(cfg));
  }

  /** A run that queues three buffers, with no readers. */
  lemma ThreeQueued(cfg: Config, a: Buffer, b: Buffer, c: Buffer) returns (ss: seq<Cache<int>>, es: seq<Event<int>>)
    ensures Run(ss, es) && es == [Queued(a, 0), Queued(b, 0), Queued(c, 0)]
    ensures forall i | 0 <= i < |ss| :: ss[i].cfg == cfg
    ensures ss[1].queue == Trimmed([a], cfg, 0)
    ensures ss[2].queue == Trimmed(Pushed(ss[1], b), cfg, 0)
    ensures ss[3].queue == Trimmed(Pushed(ss[2], c), cfg, 0) && ss[3].log == [a, b, c]
  {
    var s0: Cache<int> := Cache(cfg, [], map[], []);
    var s1 := s0.(queue := Trimmed(Pushed(s0, a), cfg, 0), log := s0.log + [a]);
    var s2 := s1.(queue := Trimmed(Pushed(s1, b), cfg, 0), log := s1.log + [b]);
    var s3 := s2.(queue := Trimmed(Pushed(s2, c), cfg, 0), log := s2.log + [c]);
    assert Pushed(s0, a) == [a];
    QueueAlone(s0, a, 0);
    QueueAlone(s1, b, 0);
    QueueAlone(s2, c, 0);
    ThreeSteps(s0, Queued(a, 0), s1, Queued(b, 0), s2, Queued(c, 0), s3);
    ss, es := [s0, s1, s2, s3], [Queued(a, 0), Queued(b, 0), Queued(c, 0)];
  }

  // ---------- the minimum in buffers ----------

  /** The minimum in buffers is kept, once it can be, exactly if a reader, the other minima or the newest
      keyframe reach that far anyway: it does not count itself. */
  lemma CountMinimumKept<Id>(s: Cache<Id>, s': Cache<Id>, buf: Buffer, now: int)
    requires QueueStep(s, s', buf, now) && 0 < s.cfg.buffersMin <= |s.queue| + 1
    ensures var q, n := Pushed(s, buf), s.cfg.buffersMin;
            |s'.queue| >= n <==>
            || (exists id | id in s'.readers :: s'.readers[id].bufpos >= n - 1)
            || MinIdx(q, CacheLimits(s.cfg)) + 1 >= n - 1
            || n - 1 <= NextKey(q, 0) < KeySearch(q, s.cfg)
  {
    var q, n := Pushed(s, buf), s.cfg.buffersMin;
    var top := StepTrims(s, s', buf, now);
    TrimmedCount(q, s.cfg, top);
  }

  lemma TrimmedCount(q: seq<Buffer>, cfg: Config, top: nat)
    requires 0 < cfg.buffersMin <= |q|
    ensures |Trimmed(q, cfg, top)| >= cfg.buffersMin <==>
            || top >= cfg.buffersMin - 1
            || MinIdx(q, CacheLimits(cfg)) + 1 >= cfg.buffersMin - 1
            || cfg.buffersMin - 1 <= NextKey(q, 0) < KeySearch(q, cfg)
  {
  }

  const MINIMUM_OF_THREE := Config(Buffers, -1, -1, RecoverNone, -1, -1, 3)

  /** A run in which it is not: of three keyframes, under a minimum of three, two are kept. */
  lemma CountMinimumMissed() returns (ss: seq<Cache<int>>, es: seq<Event<int>>)
    ensures Run(ss, es) && es == [Queued(PLAIN, 0), Queued(PLAIN, 0), Queued(PLAIN, 0)]
    ensures forall i | 0 <= i < |ss| :: ss[i].cfg == MINIMUM_OF_THREE
    ensures |ss[3].log| == 3 && |ss[3].queue| == 2 < MINIMUM_OF_THREE.buffersMin
  {
    ss, es := ThreeQueued(MINIMUM_OF_THREE, PLAIN, PLAIN, PLAIN);
    var q3 := [PLAIN, PLAIN, PLAIN];
    assert ss[1].queue == [PLAIN];
    assert Pushed(ss[1], PLAIN) == [PLAIN, PLAIN] && ss[2].queue == [PLAIN, PLAIN];
    MetAtOnce(q3, MINIMUM_OF_THREE);
    assert Pushed(ss[2], PLAIN) == q3 && IsKeyframe(q3[0]);
  }
}
