/** What a reader is given, event by event: the buffers returned to it, what draining and recovery do to it,
    and when a new reader starts. Everything here is said with the log and the positions. */
module BurstDelivery {
  import opened Prelude
  import opened BurstLimits
  import opened BurstModel
  import opened BurstRuns
  import BurstKeeping

  // ---------- one event ----------

  /** The delivery an event makes to a reader, if it makes one. */
  function Made<Id(==)>(s: Cache<Id>, e: Event<Id>, id: Id): seq<Delivery>
    requires id in s.readers
  {
    if e.Got? && e.id == id && e.res.Ok? then
      [Delivery(|s.log| - 1 - s.readers[id].bufpos, s.readers[id].dropped, e.res.buf)]
    else []
  }

  /** The history goes on with what was delivered, and what is left to drain goes down by it. */
  predicate Advances(r: Reader, r': Reader, made: seq<Delivery>) {
    && r'.trace.received == r.trace.received + made
    && r'.dropped >= r.dropped
    && (!r.newReader ==> !r'.newReader && r'.trace.origin == r.trace.origin)
    && (r.draincount != -1 ==> r'.draincount == r.draincount - |made| != -1)
  }

  lemma MovedTrace(q: seq<Buffer>, n: int, cfg: Config, r: Reader)
    requires -1 <= r.bufpos < |q| - 1 && (r.newReader ==> CanPosition(q, Moved(q, cfg, r)))
    ensures var r' := Hooked(q, n, cfg, r);
            && r'.trace.received == r.trace.received && r'.draincount == r.draincount
            && r'.dropped >= r.dropped
            && (!r.newReader ==> !r'.newReader && r'.trace.origin == r.trace.origin)
  {
    var to := MovedForm(q, cfg, r);
  }

  lemma QueueTrace<Id>(s: Cache<Id>, s': Cache<Id>, buf: Buffer, now: int, id: Id)
    requires Inv(s) && QueueStep(s, s', buf, now) && id in s'.readers
    ensures id in s.readers
    ensures var r, r' := s.readers[id], s'.readers[id];
            && r'.trace.received == r.trace.received && r'.draincount == r.draincount
            && r'.dropped >= r.dropped
            && (!r.newReader ==> !r'.newReader && r'.trace.origin == r.trace.origin)
  {
    var q := Pushed(s, buf);
    QueueOutcome(s, s', buf, now, id);
    assert ReaderOk(s, id);
    MovedTrace(q, |s.log| + 1, s.cfg, s.readers[id]);
  }

  /** What one event does to the history of a reader that stays linked. */
  lemma TraceStep<Id>(s: Cache<Id>, e: Event<Id>, s': Cache<Id>, id: Id)
    requires Inv(s) && Next(s, e, s') && id in s.readers && id in s'.readers
    ensures Advances(s.readers[id], s'.readers[id], Made(s, e, id))
    ensures e == DrainAsked(id) && s.readers[id].draincount == -1 ==>
              s'.readers[id].draincount == s.readers[id].bufpos + 1 && s'.readers[id].dropped == s.readers[id].dropped
  {
    assert ReaderOk(s, id);
    if e.Queued? {
      QueueTrace(s, s', e.buf, e.now, id);
    }
  }

  lemma LogStep<Id>(s: Cache<Id>, e: Event<Id>, s': Cache<Id>)
    requires Next(s, e, s')
    ensures s.log <= s'.log
  {
  }

  /** The buffer returned. Over every run, get_buffer gives a reader at position p the p-th newest buffer ever
      queued, if it is not drained; that buffer is what the history records, and the position goes down by
      one. It is told to wait exactly without a position, and that it is done exactly with a position and
      nothing left to drain; then nothing changes. The first buffer of a keyframe start is a keyframe. */
  lemma Returned<Id>(ss: seq<Cache<Id>>, es: seq<Event<Id>>, i: nat, id: Id)
    requires Run(ss, es) && i < |es| && es[i].Got? && es[i].id == id
    ensures id in ss[i].readers && id in ss[i + 1].readers
    ensures var r, r', n, res := ss[i].readers[id], ss[i + 1].readers[id], |ss[i].log|, es[i].res;
            && (res.Wait? <==> r.bufpos == -1)
            && (res.Eos? <==> r.bufpos >= 0 && r.draincount == 0)
            && (res.Ok? ==>
                  && 0 <= r.bufpos < n && res.buf == ss[i].log[n - 1 - r.bufpos]
                  && r'.trace.received ==
                     r.trace.received + [Delivery(n - 1 - r.bufpos, r.dropped, res.buf)]
                  && r'.bufpos == r.bufpos - 1)
            && (!res.Ok? ==> r'.trace == r.trace && r'.bufpos == r.bufpos && r'.draincount == r.draincount)
            && (res.Ok? && r.start in {NextKeyframe, LatestKeyframe, BurstKeyframe} && r.dropped == 0
                && r.trace.received == []
                ==> !res.buf.deltaUnit && !res.buf.header)
  {
    RangeSafety(ss, es, i);
    assert Next(ss[i], es[i], ss[i + 1]);
    assert ReaderOk(ss[i], id);
  }

  /** In every state of a run the books of a linked reader are balanced. */
  lemma BooksBalance<Id>(ss: seq<Cache<Id>>, es: seq<Event<Id>>, i: nat, id: Id)
    requires Run(ss, es) && i < |ss| && id in ss[i].readers
    ensures ReaderInv(ss[i].queue, ss[i].log, ss[i].readers[id]) && Window(ss[i].queue, ss[i].log)
  {
    RangeSafety(ss, es, i);
    assert ReaderOk(ss[i], id);
  }

  /** One step of a run as a reader that stays linked sees it. */
  predicate Stepped<Id(==)>(ss: seq<Cache<Id>>, es: seq<Event<Id>>, i: nat, id: Id)
    requires i < |es| && i + 1 < |ss|
  {
    && id in ss[i].readers && id in ss[i + 1].readers
    && Advances(ss[i].readers[id], ss[i + 1].readers[id], Made(ss[i], es[i], id))
    && ss[i].log <= ss[i + 1].log
  }

  lemma RunStep<Id>(ss: seq<Cache<Id>>, es: seq<Event<Id>>, i: nat, id: Id)
    requires Run(ss, es) && i < |es| && id in ss[i].readers && id in ss[i + 1].readers
    ensures Stepped(ss, es, i, id)
    ensures es[i] == DrainAsked(id) && ss[i].readers[id].draincount == -1 ==>
              && ss[i + 1].readers[id].draincount == ss[i].readers[id].bufpos + 1
              && ss[i + 1].readers[id].dropped == ss[i].readers[id].dropped
  {
    RangeSafety(ss, es, i);
    BooksBalance(ss, es, i, id);
    assert Next(ss[i], es[i], ss[i + 1]);
    TraceStep(ss[i], es[i], ss[i + 1], id);
    LogStep(ss[i], es[i], ss[i + 1]);
  }

  // ---------- over a run ----------

  ghost predicate Linked<Id>(ss: seq<Cache<Id>>, i: nat, n: nat, id: Id)
    requires n < |ss|
  {
    forall m | i <= m <= n :: id in ss[m].readers
  }

  /** The buffers returned to a reader by the events from i up to, not including, n. */
  function Results<Id(==)>(es: seq<Event<Id>>, id: Id, i: nat, n: nat): (bufs: seq<Buffer>)
    requires i <= n <= |es|
  {
    if i == n then []
    else
      Results(es, id, i, n - 1) +
      if es[n - 1].Got? && es[n - 1].id == id && es[n - 1].res.Ok? then [es[n - 1].res.buf] else []
  }

  /** What happens to a reader between two states: `received` is continued by what was returned. */
  predicate Continued(r: Reader, r': Reader, results: seq<Buffer>) {
    var k, got := |r.trace.received|, r'.trace.received;
    && |got| == k + |results| && got[..k] == r.trace.received
    && r.dropped <= r'.dropped
    && (forall m | k <= m < |got| :: got[m].buf == results[m - k] && r.dropped <= got[m].dropped <= r'.dropped)
    && (!r.newReader ==> !r'.newReader && r'.trace.origin == r.trace.origin)
    && (r.draincount != -1 ==> r'.draincount == r.draincount - |results| != -1)
  }

  lemma ContinuedStep(r0: Reader, r: Reader, results: seq<Buffer>, r': Reader, made: seq<Delivery>)
    requires Continued(r0, r, results) && Advances(r, r', made)
    requires |made| <= 1 && forall j | 0 <= j < |made| :: made[j].dropped == r.dropped
    ensures Continued(r0, r', results + if made == [] then [] else [made[0].buf])
  {
    var k, got, got' := |r0.trace.received|, r.trace.received, r'.trace.received;
    assert got'[..k] == got[..k];
  }

  lemma RunContinues<Id>(ss: seq<Cache<Id>>, es: seq<Event<Id>>, i: nat, n: nat, id: Id)
    requires Run(ss, es) && i <= n < |ss| && Linked(ss, i, n, id)
    ensures Continued(ss[i].readers[id], ss[n].readers[id], Results(es, id, i, n))
    ensures ss[i].log <= ss[n].log
  {
    forall m | i <= m < n ensures Stepped(ss, es, m, id) {
      RunStep(ss, es, m, id);
    }
    StepsContinue(ss, es, i, n, id);
  }

  lemma {:induction false} StepsContinue<Id>(ss: seq<Cache<Id>>, es: seq<Event<Id>>, i: nat, n: nat, id: Id)
    requires |ss| == |es| + 1 && i <= n < |ss| && id in ss[i].readers
    requires forall m | i <= m < n :: Stepped(ss, es, m, id)
    ensures id in ss[n].readers && Continued(ss[i].readers[id], ss[n].readers[id], Results(es, id, i, n))
    ensures ss[i].log <= ss[n].log
    decreases n
  {
    if i < n {
      StepsContinue(ss, es, i, n - 1, id);
      assert Stepped(ss, es, n - 1, id);
      ContinuedStep(ss[i].readers[id], ss[n - 1].readers[id], Results(es, id, i, n - 1), ss[n].readers[id],
                    Made(ss[n - 1], es[n - 1], id));
    }
  }

  /** Results in the order of the log, from number `at` on: each ahead of the one before by one and by what
      was dropped in between, which the history tells. */
  predicate InOrder(log: seq<Buffer>, at: int, r: Reader, r': Reader, res: seq<Buffer>) {
    var k, all := |r.trace.received|, r'.trace.received;
    && |all| == k + |res|
    && (forall m | k <= m < |all| ::
          && r.dropped <= all[m].dropped <= r'.dropped
          && all[m].num == at + (m - k) + (all[m].dropped - r.dropped)
          && 0 <= all[m].num < |log| && res[m - k] == log[all[m].num])
    && (forall j, m | k <= j < m < |all| :: all[j].dropped <= all[m].dropped)
  }

  lemma AccountedInOrder(log: seq<Buffer>, at: int, r: Reader, r': Reader, res: seq<Buffer>)
    requires Continued(r, r', res) && Accounted(log, r') && !r.newReader
    requires at == r.trace.origin + |r.trace.received| + r.dropped
    ensures InOrder(log, at, r, r', res)
  {
  }

  lemma Contiguous(log: seq<Buffer>, at: int, r: Reader, r': Reader, res: seq<Buffer>)
    requires InOrder(log, at, r, r', res) && r'.dropped == r.dropped && 0 <= at <= |log|
    ensures Stretch(log, at, res)
  {
    var k, all := |r.trace.received|, r'.trace.received;
    forall j | 0 <= j < |res| ensures at + j < |log| && res[j] == log[at + j] {
      var m := k + j;
      assert all[m].num == at + j && res[m - k] == res[j];
    }
    if res != [] {
      var m := |all| - 1;
      assert all[m].num == at + |res| - 1;
    }
  }

  /** A contiguous stretch of the log. */
  predicate Stretch(log: seq<Buffer>, at: int, bufs: seq<Buffer>) {
    0 <= at && at + |bufs| <= |log| && bufs == log[at..at + |bufs|]
  }

  /** What was returned to a reader while it went from state r to state r': buffers of the log from its cursor
      on; without recovery in between, a contiguous stretch. */
  predicate Served(log: seq<Buffer>, r: Reader, log': seq<Buffer>, r': Reader, res: seq<Buffer>) {
    var at := |log| - 1 - r.bufpos;
    InOrder(log', at, r, r', res) && (r'.dropped == r.dropped ==> Stretch(log', at, res))
  }

  lemma ServedFrom(queue: seq<Buffer>, log: seq<Buffer>, r: Reader, queue': seq<Buffer>, log': seq<Buffer>,
                   r': Reader, res: seq<Buffer>)
    requires Window(queue, log) && ReaderInv(queue, log, r) && ReaderInv(queue', log', r') && log <= log'
    requires !r.newReader && Continued(r, r', res)
    ensures Served(log, r, log', r', res)
  {
    var at := |log| - 1 - r.bufpos;
    AccountedInOrder(log', at, r, r', res);
    if r'.dropped == r.dropped {
      Contiguous(log', at, r, r', res);
    }
  }

  /** Results in order. From the moment a reader has a position, and for as long as it is linked, the buffers
      returned to it are those of the log from its cursor on, each ahead of the one before by one and by
      exactly what recovery dropped in between; without recovery they are a contiguous stretch of the log. */
  lemma ResultsInOrder<Id>(ss: seq<Cache<Id>>, es: seq<Event<Id>>, i: nat, n: nat, id: Id)
    requires Run(ss, es) && i <= n < |ss| && Linked(ss, i, n, id) && !ss[i].readers[id].newReader
    ensures Served(ss[i].log, ss[i].readers[id], ss[n].log, ss[n].readers[id], Results(es, id, i, n))
  {
    RunContinues(ss, es, i, n, id);
    BooksBalance(ss, es, i, id);
    BooksBalance(ss, es, n, id);
    ServedFrom(ss[i].queue, ss[i].log, ss[i].readers[id], ss[n].queue, ss[n].log, ss[n].readers[id],
               Results(es, id, i, n));
  }

  // ---------- draining ----------

  /** What draining promises a reader in state r whose request is made when the log is `log`: what was
      returned since and what is left to drain are its outstanding buffers together; without recovery what was
      returned is the log from its cursor on, and all of the log once none is left. */
  predicate Drains(log: seq<Buffer>, r: Reader, r': Reader, res: seq<Buffer>) {
    var at := |log| - 1 - r.bufpos;
    && |res| + r'.draincount == r.bufpos + 1 && r'.draincount >= 0
    && 0 <= at <= |log|
    && (r'.dropped == r.dropped ==> Stretch(log, at, res) && (r'.draincount == 0 ==> res == log[at..]))
  }

  lemma DrainsFrom(queue: seq<Buffer>, log: seq<Buffer>, r: Reader, queue': seq<Buffer>, log': seq<Buffer>, r': Reader,
                   res: seq<Buffer>)
    requires Window(queue, log) && ReaderInv(queue, log, r) && ReaderInv(queue', log', r') && log <= log'
    requires |res| + r'.draincount == r.bufpos + 1 && r'.draincount != -1
    requires !r.newReader ==> Served(log, r, log', r', res)
    ensures Drains(log, r, r', res)
  {
    var at := |log| - 1 - r.bufpos;
    if r.newReader {
      assert res == [] && log[at..at] == [];
    } else if r'.dropped == r.dropped {
      assert log[at..at + |res|] == log'[at..at + |res|];
    }
  }

  /** Draining delivers what was outstanding. Let a reader be asked to drain for the first time. In every later
      state until which it is linked, the buffers returned to it since are those it had outstanding at the
      request, in the order of the log; none queued later, unless recovery intervened; and once none is left
      to drain they are all of them. */
  lemma DrainDelivers<Id>(ss: seq<Cache<Id>>, es: seq<Event<Id>>, i: nat, n: nat, id: Id)
    requires Run(ss, es) && i < n < |ss| && es[i] == DrainAsked(id) && Linked(ss, i, n, id)
    requires ss[i].readers[id].draincount == -1
    ensures Drains(ss[i].log, ss[i].readers[id], ss[n].readers[id], Results(es, id, i, n))
  {
    BooksBalance(ss, es, i, id);
    BooksBalance(ss, es, n, id);
    RunContinues(ss, es, i, n, id);
    DrainLeft(ss, es, i, n, id);
    if !ss[i].readers[id].newReader {
      ResultsInOrder(ss, es, i, n, id);
    }
    DrainsFrom(ss[i].queue, ss[i].log, ss[i].readers[id], ss[n].queue, ss[n].log, ss[n].readers[id],
               Results(es, id, i, n));
  }

  lemma DrainLeft<Id>(ss: seq<Cache<Id>>, es: seq<Event<Id>>, i: nat, n: nat, id: Id)
    requires Run(ss, es) && i < n < |ss| && es[i] == DrainAsked(id) && Linked(ss, i, n, id)
    requires ss[i].readers[id].draincount == -1
    ensures |Results(es, id, i, n)| + ss[n].readers[id].draincount == ss[i].readers[id].bufpos + 1
    ensures ss[n].readers[id].draincount != -1
  {
    BooksBalance(ss, es, i, id);
    RunStep(ss, es, i, id);
    RunContinues(ss, es, i + 1, n, id);
    SkipFirst(es, id, i, n);
  }

  lemma {:induction false} SkipFirst<Id>(es: seq<Event<Id>>, id: Id, i: nat, n: nat)
    requires i < n <= |es| && !es[i].Got?
    ensures Results(es, id, i, n) == Results(es, id, i + 1, n)
    decreases n
  {
    if i + 1 < n {
      SkipFirst(es, id, i, n - 1);
    } else {
      assert Results(es, id, i, i) == [];
    }
  }

  /** A second request to drain changes nothing. */
  lemma SecondDrainIgnored<Id>(s: Cache<Id>, s': Cache<Id>, id: Id)
    requires Next(s, DrainAsked(id), s') && s.readers[id].draincount != -1
    ensures s' == s
  {
    assert s.readers[id := s.readers[id]] == s.readers;
  }

  // ---------- recovery ----------

  /** What queueing a buffer does to a positioned reader that stays linked. Below the soft limit, or without
      one, its position goes up by one. At the limit: the latest policy puts it past the newest buffer, the
      soft-limit policy on the limit, the keyframe policy on the oldest keyframe within it if there is one and
      past the newest otherwise, and no policy leaves it. The drop count grows by the buffers passed over, and
      a discontinuity is marked exactly when the position jumped. */
  lemma RecoveryEffect<Id>(s: Cache<Id>, s': Cache<Id>, buf: Buffer, now: int, id: Id)
    requires Inv(s) && QueueStep(s, s', buf, now) && id in s'.readers && !s.readers[id].newReader
    ensures var r, r', soft := s.readers[id], s'.readers[id], SoftBuffers(Pushed(s, buf), s.cfg);
            var q, recover, lags := [buf] + s.queue, s.cfg.recover, 0 < soft <= r.bufpos + 1;
            && (!lags || recover.RecoverNone? ==> r'.bufpos == r.bufpos + 1)
            && (lags && recover.ResyncLatest? ==>
                  r'.bufpos == -1 && |s'.log| - 1 - r'.bufpos == |s'.log| && r'.dropped == r.dropped + r.bufpos + 2)
            && (lags && (recover.ResyncSoftLimit? || recover.RecoverUnknown?) ==> r'.bufpos == soft)
            && (lags && recover.ResyncKeyframe? ==>
                  && -1 <= r'.bufpos < soft < |q|
                  && (r'.bufpos >= 0 ==> !q[r'.bufpos].deltaUnit && !q[r'.bufpos].header)
                  && (forall k | r'.bufpos < k < soft :: q[k].deltaUnit || q[k].header))
            && r'.dropped == r.dropped + (r.bufpos + 1 - r'.bufpos)
            && (r'.discont <==> r.discont || r'.bufpos != r.bufpos + 1)
  {
    var q, r, soft := Pushed(s, buf), s.readers[id], SoftBuffers(Pushed(s, buf), s.cfg);
    QueueOutcome(s, s', buf, now, id);
    assert ReaderOk(s, id);
    MoveEffect(q, |s.log| + 1, s.cfg, r);
  }

  lemma MoveEffect(q: seq<Buffer>, n: int, cfg: Config, r: Reader)
    requires -1 <= r.bufpos < |q| - 1 && !r.newReader
    ensures var r', soft := Hooked(q, n, cfg, r), SoftBuffers(q, cfg);
            var recover, lags := cfg.recover, 0 < soft <= r.bufpos + 1;
            && (!lags || recover.RecoverNone? ==> r'.bufpos == r.bufpos + 1)
            && (lags && recover.ResyncLatest? ==> r'.bufpos == -1)
            && (lags && (recover.ResyncSoftLimit? || recover.RecoverUnknown?) ==> r'.bufpos == soft)
            && (lags && recover.ResyncKeyframe? ==>
                  && -1 <= r'.bufpos < soft
                  && (r'.bufpos >= 0 ==> IsKeyframe(q[r'.bufpos]))
                  && (forall k | r'.bufpos < k < soft :: !IsKeyframe(q[k])))
            && r'.dropped == r.dropped + (r.bufpos + 1 - r'.bufpos)
            && (r'.discont <==> r.discont || r'.bufpos != r.bufpos + 1)
  {
    var soft := SoftBuffers(q, cfg);
    if 0 < soft <= r.bufpos + 1 && cfg.recover.ResyncKeyframe? {
      assert RecoverPosition(q, cfg, r.bufpos + 1) == PrevKey(q, soft - 1);
    }
  }

  // ---------- new readers ----------

  /** A reader started on the latest buffer takes the first one queued after it was linked; one started on the
      next keyframe, the first keyframe queued after that. Until then they wait unchanged. */
  lemma NewReaderStarts<Id>(s: Cache<Id>, s': Cache<Id>, buf: Buffer, now: int, id: Id)
    requires Inv(s) && QueueStep(s, s', buf, now) && id in s'.readers && s.readers[id].newReader
    requires s.readers[id].start in {Latest, StartUnknown, NextKeyframe}
    ensures var r, r' := s.readers[id], s'.readers[id];
            && (r'.newReader <==> r.start.NextKeyframe? && (buf.deltaUnit || buf.header))
            && (r'.newReader ==> r' == r)
            && (!r'.newReader ==> r'.ready && |s'.log| - 1 - r'.bufpos == |s.log| == r'.trace.origin)
  {
    var q, r := Pushed(s, buf), s.readers[id];
    QueueOutcome(s, s', buf, now, id);
    assert ReaderOk(s, id);
    MoveNewReader(s.queue, s.cfg, r, buf);
    assert q[0] == buf;
    assert PrevKey(q, 0) == if IsKeyframe(buf) then 0 else -1;
  }

  lemma AddedWaits<Id>(s: Cache<Id>, s': Cache<Id>, id: Id, r: Reader)
    requires Next(s, Added(id, r), s') && r.start in {Latest, StartUnknown, NextKeyframe}
    ensures s'.readers[id] == r && r.newReader && r.bufpos == -1
  {
  }

  // ---------- removal ----------

  /** Who is removed for being idle: time is unsigned, so one since whose last activity more than the timeout
      has passed; and, if the clock was set back, nearly everyone. */
  lemma IdleRemoval<Id>(s: Cache<Id>, s': Cache<Id>, buf: Buffer, now: int, id: Id)
    requires QueueStep(s, s', buf, now) && id in s.readers && s.cfg.max <= 0
    requires 0 <= now < TWO_64 && 0 <= s.readers[id].lastActivity < TWO_64
    ensures var r := s.readers[id];
            id in s'.readers <==>
            || r.timeout <= 0
            || (now >= r.lastActivity && now - r.lastActivity <= r.timeout)
            || (now < r.lastActivity && r.lastActivity - now >= TWO_64 - r.timeout)
  {
    QueueOutcome(s, s', buf, now, id);
    IdleMeans(s.readers[id], now);
  }

  lemma QueueOutcome<Id>(s: Cache<Id>, s': Cache<Id>, buf: Buffer, now: int, id: Id)
    requires QueueStep(s, s', buf, now) && id in s.readers
    ensures id in s'.readers <==> !Evicted(Pushed(s, buf), s.cfg, s.readers[id], now)
    ensures id in s'.readers ==>
              && (s.readers[id].newReader ==> CanPosition(Pushed(s, buf), Moved(Pushed(s, buf), s.cfg, s.readers[id])))
              && s'.readers[id] == Hooked(Pushed(s, buf), |s.log| + 1, s.cfg, s.readers[id])
  {
    assert id in Outcomes(s, buf, now);
  }

  lemma IdleMeans(r: Reader, now: int)
    requires 0 <= now < TWO_64 && 0 <= r.lastActivity < TWO_64
    ensures !TimedOut(r, now) <==>
            || r.timeout <= 0
            || (now >= r.lastActivity && now - r.lastActivity <= r.timeout)
            || (now < r.lastActivity && r.lastActivity - now >= TWO_64 - r.timeout)
  {
    Elapsed(now, r.lastActivity);
  }

  lemma Elapsed(now: int, since: int)
    requires 0 <= now < TWO_64 && 0 <= since < TWO_64
    ensures (now - since) % TWO_64 == if now >= since then now - since else TWO_64 - (since - now)
  {
  }

  /** No eviction under recovery, in the times themselves: with ordered limits and the latest or keyframe
      policy, a reader is kept exactly while it is not idle for longer than its timeout. */
  lemma KeptUnderRecovery<Id>(ss: seq<Cache<Id>>, es: seq<Event<Id>>, i: nat, id: Id)
    requires Run(ss, es) && i < |es| && es[i].Queued? && id in ss[i].readers
    requires BurstKeeping.OrderedLimits(ss[i].cfg)
    requires ss[i].cfg.recover.ResyncLatest? || ss[i].cfg.recover.ResyncKeyframe?
    requires 0 <= ss[i].readers[id].lastActivity <= es[i].now < TWO_64
    ensures id in ss[i + 1].readers <==>
            ss[i].readers[id].timeout <= 0
            || es[i].now - ss[i].readers[id].lastActivity <= ss[i].readers[id].timeout
  {
    BurstKeeping.NoEvictionUnderRecovery(ss, es, i, id);
    IdleMeans(ss[i].readers[id], es[i].now);
  }
}
