/** What holds over every run of the burst cache. */
module BurstRuns {
  import opened Prelude
  import opened BurstLimits
  import opened BurstModel

  // ---------- one step ----------

  /** Recovery applies only at or beyond the soft limit, and then moves the reader to a newer
      buffer or leaves it: never to an older one, and never before the newest. */
  lemma RecoveryNeverRaises(q: seq<Buffer>, cfg: Config, p: int)
    requires 0 <= p < |q| && 0 < SoftBuffers(q, cfg) <= p
    ensures -1 <= RecoverPosition(q, cfg, p) <= p
    ensures cfg.recover.ResyncLatest? || cfg.recover.ResyncKeyframe? ==>
              RecoverPosition(q, cfg, p) < SoftBuffers(q, cfg)
  {
  }

  lemma WindowGrows(queue: seq<Buffer>, log: seq<Buffer>, buf: Buffer, n: nat)
    requires Window(queue, log) && n <= |queue| + 1
    ensures Window(([buf] + queue)[..n], log + [buf])
  {
  }

  lemma ShiftKeepsBooks(queue: seq<Buffer>, log: seq<Buffer>, r: Reader, buf: Buffer)
    requires Window(queue, log) && Books(queue, log, r) && !r.newReader
    ensures Books([buf] + queue, log + [buf], r.(bufpos := r.bufpos + 1))
  {
  }

  lemma JumpKeepsBooks(q: seq<Buffer>, log: seq<Buffer>, r: Reader, to: int)
    requires Books(q, log, r) && !r.newReader && -1 <= to <= r.bufpos
    ensures Books(q, log, r.(bufpos := to, dropped := r.dropped + r.bufpos - to, discont := true))
  {
    assert Accounted(log, r.(bufpos := to, dropped := r.dropped + r.bufpos - to, discont := true));
  }

  lemma PositionKeepsReader(q: seq<Buffer>, log: seq<Buffer>, r: Reader)
    requires Window(q, log) && CanPosition(q, r)
    requires r.newReader && r.dropped == 0 && r.trace.received == [] && r.trace.origin >= 0
    requires r.draincount == -1 || (r.draincount == 0 && r.trace.drainMark == -1)
    ensures ReaderInv(q, log, Positioned(q, |log|, r))
  {
  }

  lemma BooksIgnoreReady(q: seq<Buffer>, log: seq<Buffer>, r: Reader)
    requires Books(q, log, r)
    ensures Books(q, log, r.(ready := true))
  {
  }

  /** A queued buffer shifts a reader by one and may then recover it towards the newest buffer. */
  lemma MovedForm(q: seq<Buffer>, cfg: Config, r: Reader) returns (to: int)
    requires -1 <= r.bufpos < |q| - 1
    ensures -1 <= to <= r.bufpos + 1
    ensures Moved(q, cfg, r) == r.(bufpos := r.bufpos + 1)
         || Moved(q, cfg, r) == r.(bufpos := to, dropped := r.dropped + r.bufpos + 1 - to, discont := true)
  {
    var p := r.bufpos + 1;
    to := p;
    if SoftBuffers(q, cfg) > 0 && p >= SoftBuffers(q, cfg) {
      RecoveryNeverRaises(q, cfg, p);
      to := RecoverPosition(q, cfg, p);
    }
  }

  /** A position that shifts and recovers keeps the books: what the cursor gains is what was dropped. */
  lemma MoveKeepsBooks(queue: seq<Buffer>, log: seq<Buffer>, cfg: Config, r: Reader, buf: Buffer)
    requires Window(queue, log) && Books(queue, log, r) && !r.newReader
    ensures Books([buf] + queue, log + [buf], Moved([buf] + queue, cfg, r))
  {
    var to := MovedForm([buf] + queue, cfg, r);
    ShiftKeepsBooks(queue, log, r, buf);
    JumpKeepsBooks([buf] + queue, log + [buf], r.(bufpos := r.bufpos + 1), to);
  }

  lemma MoveNewReader(queue: seq<Buffer>, cfg: Config, r: Reader, buf: Buffer)
    requires r.newReader && r.bufpos == -1
    ensures Moved([buf] + queue, cfg, r) == r.(bufpos := 0)
  {
  }

  /** A queued buffer keeps a reader that stays linked in range and its books balanced. */
  lemma HookKeepsReader(queue: seq<Buffer>, log: seq<Buffer>, cfg: Config, r: Reader, buf: Buffer)
    requires Window(queue, log) && ReaderInv(queue, log, r)
    ensures var q := [buf] + queue;
            && (r.newReader ==> CanPosition(q, Moved(q, cfg, r)))
            && ReaderInv(q, log + [buf], Hooked(q, |log| + 1, cfg, r))
  {
    var q := [buf] + queue;
    if r.newReader {
      MoveNewReader(queue, cfg, r, buf);
      assert Window(q, log + [buf]);
      PositionKeepsReader(q, log + [buf], r.(bufpos := 0));
    } else {
      MoveKeepsBooks(queue, log, cfg, r, buf);
      BooksIgnoreReady(q, log + [buf], Moved(q, cfg, r));
    }
  }

  lemma TrimKeepsReader(q: seq<Buffer>, log: seq<Buffer>, r: Reader, n: nat)
    requires ReaderInv(q, log, r) && r.bufpos < n <= |q|
    ensures ReaderInv(q[..n], log, r)
  {
  }

  lemma DeliveryAccounted(log: seq<Buffer>, r: Reader, r': Reader, d: Delivery)
    requires Accounted(log, r) && r.dropped >= 0 && r'.dropped == r.dropped
    requires r'.trace == r.trace.(received := r.trace.received + [d])
    requires d.num == r.trace.origin + |r.trace.received| + r.dropped && d.dropped == r.dropped
    requires 0 <= d.num < |log| && d.buf == log[d.num]
    ensures Accounted(log, r')
  {
  }

  lemma GetKeepsReader(queue: seq<Buffer>, log: seq<Buffer>, r: Reader)
    requires Window(queue, log) && ReaderInv(queue, log, r)
    ensures ReaderInv(queue, log, Get(queue, |log|, r).1)
  {
    var (res, r') := Get(queue, |log|, r);
    if res.Ok? {
      DeliveryAccounted(log, r, r', Delivery(Cursor(|log|, r), r.dropped, queue[r.bufpos]));
    } else if res.Wait? {
      assert Accounted(log, r');
    }
  }

  lemma DrainKeepsReader(queue: seq<Buffer>, log: seq<Buffer>, r: Reader)
    requires ReaderInv(queue, log, r)
    ensures ReaderInv(queue, log, Drained(|log|, r))
  {
    assert Accounted(log, Drained(|log|, r));
  }

  lemma ActivityKeepsReader(queue: seq<Buffer>, log: seq<Buffer>, r: Reader, lastActivity: int, timeout: int)
    requires ReaderInv(queue, log, r)
    ensures ReaderInv(queue, log, r.(lastActivity := lastActivity, timeout := timeout))
  {
    assert Accounted(log, r.(lastActivity := lastActivity, timeout := timeout));
  }

  lemma FlushKeepsReader(queue: seq<Buffer>, log: seq<Buffer>, r: Reader)
    requires ReaderInv(queue, log, r)
    ensures ReaderInv([], log, r) <==> r.bufpos == -1
  {
  }

  lemma HooksCanRun<Id>(s: Cache<Id>, buf: Buffer)
    requires Inv(s)
    ensures CanQueue(s, buf)
  {
    forall id | id in s.readers && s.readers[id].newReader
      ensures CanPosition(Pushed(s, buf), Moved(Pushed(s, buf), s.cfg, s.readers[id]))
    {
      assert ReaderOk(s, id);
      HookKeepsReader(s.queue, s.log, s.cfg, s.readers[id], buf);
    }
  }

  lemma QueueStepFrom<Id>(s: Cache<Id>, s': Cache<Id>, buf: Buffer, now: int, top: nat)
    requires CanQueue(s, buf)
    requires s'.cfg == s.cfg && s'.log == s.log + [buf]
    requires Survive(s'.readers, Outcomes(s, buf, now)) && IsTop(s'.readers, top)
    requires s'.queue == Trimmed(Pushed(s, buf), s.cfg, top)
    ensures QueueStep(s, s', buf, now)
  {
  }

  lemma ReadersInRange<Id>(s: Cache<Id>, id: Id)
    requires Inv(s) && id in s.readers
    ensures CanGet(s, id)
  {
    assert ReaderOk(s, id);
  }

  lemma PutKeepsInv<Id>(s: Cache<Id>, id: Id, r: Reader)
    requires Inv(s) && ReaderInv(s.queue, s.log, r)
    ensures Inv(s.(readers := s.readers[id := r]))
  {
    var s' := s.(readers := s.readers[id := r]);
    forall i | i in s'.readers ensures ReaderOk(s', i) {
      if i != id {
        assert ReaderOk(s, i);
      }
    }
  }

  lemma SameQueueKeepsInv<Id>(s: Cache<Id>, s': Cache<Id>)
    requires Inv(s) && s'.queue == s.queue && s'.log == s.log
    requires forall id | id in s'.readers :: id in s.readers && s'.readers[id] == s.readers[id]
    ensures Inv(s')
  {
    forall id | id in s'.readers ensures ReaderOk(s', id) {
      assert ReaderOk(s, id);
    }
  }

  lemma FlushKeepsInv<Id>(s: Cache<Id>)
    requires Inv(s)
    ensures Inv(s.(queue := [])) <==> forall id | id in s.readers :: s.readers[id].bufpos == -1
  {
    forall id | id in s.readers
      ensures ReaderOk(s.(queue := []), id) <==> s.readers[id].bufpos == -1
    {
      assert ReaderOk(s, id);
      FlushKeepsReader(s.queue, s.log, s.readers[id]);
    }
  }

  lemma TrimmedCovers(q: seq<Buffer>, cfg: Config, top: nat, p: int)
    requires |q| > 0 && p <= top && p < |q|
    ensures 0 < |Trimmed(q, cfg, top)| <= |q| && p < |Trimmed(q, cfg, top)|
  {
  }

  lemma HookedReaders<Id>(s: Cache<Id>, s': Cache<Id>, buf: Buffer, now: int, id: Id)
    requires Inv(s) && QueueStep(s, s', buf, now) && id in s'.readers
    ensures ReaderInv(Pushed(s, buf), s'.log, s'.readers[id])
  {
    assert ReaderOk(s, id);
    HookKeepsReader(s.queue, s.log, s.cfg, s.readers[id], buf);
  }

  /** After trimming, every reader left is within the queue. */
  lemma TrimKeepsReaders<Id>(s: Cache<Id>, s': Cache<Id>, buf: Buffer, now: int, id: Id)
    requires Inv(s) && QueueStep(s, s', buf, now) && id in s'.readers
    ensures ReaderInv(s'.queue, s'.log, s'.readers[id])
  {
    var q, r := Pushed(s, buf), s'.readers[id];
    HookedReaders(s, s', buf, now, id);
    assert r.bufpos < |q|;
    var top: nat :| IsTop(s'.readers, top) && s'.queue == Trimmed(q, s.cfg, top);
    TrimmedCovers(q, s.cfg, top, r.bufpos);
    TrimKeepsReader(q, s'.log, r, |s'.queue|);
  }

  lemma QueueKeepsInv<Id>(s: Cache<Id>, s': Cache<Id>, buf: Buffer, now: int)
    requires Inv(s) && QueueStep(s, s', buf, now)
    ensures Inv(s')
  {
    WindowGrows(s.queue, s.log, buf, |s'.queue|);
    forall id | id in s'.readers ensures ReaderOk(s', id) {
      TrimKeepsReaders(s, s', buf, now, id);
    }
  }

  /** Every transition keeps every reader in range and its books balanced. */
  lemma StepKeepsInv<Id>(s: Cache<Id>, e: Event<Id>, s': Cache<Id>)
    requires Inv(s) && Next(s, e, s')
    ensures Inv(s')
  {
    match e
    case Queued(buf, now) => QueueKeepsInv(s, s', buf, now);
    case Got(id, _) =>
      assert ReaderOk(s, id);
      GetKeepsReader(s.queue, s.log, s.readers[id]);
      PutKeepsInv(s, id, Get(s.queue, |s.log|, s.readers[id]).1);
    case Added(id, r) =>
      PositionKeepsReader(s.queue, s.log, r);
      PutKeepsInv(s, id, Positioned(s.queue, |s.log|, r));
    case DrainAsked(id) =>
      assert ReaderOk(s, id);
      DrainKeepsReader(s.queue, s.log, s.readers[id]);
      PutKeepsInv(s, id, Drained(|s.log|, s.readers[id]));
    case Removed(id) => SameQueueKeepsInv(s, s');
    case Configured(cfg) => SameQueueKeepsInv(s, s');
    case Active(id, lastActivity, timeout) =>
      assert ReaderOk(s, id);
      ActivityKeepsReader(s.queue, s.log, s.readers[id], lastActivity, timeout);
      PutKeepsInv(s, id, s.readers[id].(lastActivity := lastActivity, timeout := timeout));
    case Flushed =>
      FlushKeepsInv(s);
  }

  // ---------- runs ----------

  /** Range safety. In every state of every run each reader's position is -1 or an index of the
      queue, a reader still new has no position, and neither queueing nor reading can trip an assertion. */
  lemma {:induction false} RangeSafety<Id>(ss: seq<Cache<Id>>, es: seq<Event<Id>>, i: nat)
    requires Run(ss, es) && i < |ss|
    ensures Inv(ss[i])
    ensures forall id | id in ss[i].readers :: CanGet(ss[i], id)
    ensures forall id | id in ss[i].readers && ss[i].readers[id].newReader :: ss[i].readers[id].bufpos == -1
    ensures forall buf :: CanQueue(ss[i], buf)
    decreases i
  {
    if i > 0 {
      RangeSafety(ss, es, i - 1);
      StepKeepsInv(ss[i - 1], es[i - 1], ss[i]);
    }
    forall id | id in ss[i].readers
      ensures CanGet(ss[i], id) && (ss[i].readers[id].newReader ==> ss[i].readers[id].bufpos == -1)
    {
      assert ReaderOk(ss[i], id);
    }
    forall buf ensures CanQueue(ss[i], buf) {
      HooksCanRun(ss[i], buf);
    }
  }

  /** Cursor refinement. Over every run, what a reader received is an increasing run of the arrival
      order: buffer contents are those that arrived with that number, and the gap between any two
      deliveries is exactly their distance plus what recovery dropped in between. The next delivery
      continues from the last one in the same way. */
  lemma CursorRefinement<Id>(ss: seq<Cache<Id>>, es: seq<Event<Id>>, i: nat, id: Id)
    requires Run(ss, es) && i < |ss| && id in ss[i].readers
    ensures var r := ss[i].readers[id]; var got := r.trace.received; var n := |ss[i].log|;
            && (forall j | 0 <= j < |got| :: 0 <= got[j].num < n && ss[i].log[got[j].num] == got[j].buf)
            && (forall j, k | 0 <= j < k < |got| ::
                  && got[j].num < got[k].num
                  && got[k].num - got[j].num == (k - j) + (got[k].dropped - got[j].dropped))
            && (got != [] ==>
                  Cursor(n, r) - got[|got| - 1].num == 1 + (r.dropped - got[|got| - 1].dropped))
            && -1 <= r.bufpos < |ss[i].queue| <= n
            && (r.bufpos >= 0 ==> ss[i].queue[r.bufpos] == ss[i].log[Cursor(n, r)])
  {
    RangeSafety(ss, es, i);
    var r := ss[i].readers[id];
    assert ReaderOk(ss[i], id);
    if r.trace.received != [] {
      assert !r.newReader;
    }
  }

  /** Queueing a buffer moves a positioned reader's cursor only by what recovery adds to its drop
      count, never backwards, and recovery is the only cause. */
  lemma CursorStep<Id>(s: Cache<Id>, s': Cache<Id>, buf: Buffer, now: int, id: Id)
    requires Inv(s) && QueueStep(s, s', buf, now) && id in s'.readers && !s.readers[id].newReader
    ensures var r, r' := s.readers[id], s'.readers[id];
            var soft := SoftBuffers(Pushed(s, buf), s.cfg);
            && Cursor(|s'.log|, r') - Cursor(|s.log|, r) == r'.dropped - r.dropped >= 0
            && r'.trace == r.trace
            && (r'.dropped != r.dropped ==> 0 < soft <= r.bufpos + 1)
  {
    assert ReaderOk(s, id);
    var q := Pushed(s, buf);
    if SoftBuffers(q, s.cfg) > 0 && s.readers[id].bufpos + 1 >= SoftBuffers(q, s.cfg) {
      RecoveryNeverRaises(q, s.cfg, s.readers[id].bufpos + 1);
    }
  }

  /** Keyframe start. A reader started on the next, latest or burst keyframe receives a keyframe
      first, however many buffers arrived since it was positioned, unless recovery moved it before that. */
  lemma KeyframeStart<Id>(ss: seq<Cache<Id>>, es: seq<Event<Id>>, i: nat, id: Id)
    requires Run(ss, es) && i < |ss| && id in ss[i].readers
    requires var r := ss[i].readers[id];
             IsKeyStart(r.start) && r.trace.received != [] && r.trace.received[0].dropped == 0
    ensures var b := ss[i].readers[id].trace.received[0].buf; !b.deltaUnit && !b.header
  {
    RangeSafety(ss, es, i);
    assert ReaderOk(ss[i], id);
  }

  /** Drain accounting, exact. After a drain request a reader never receives more than it had
      outstanding; what it received is consecutive up to recovery; and a buffer queued after the
      request is delivered exactly when recovery dropped more than the buffers still to come. */
  lemma DrainExact<Id>(ss: seq<Cache<Id>>, es: seq<Event<Id>>, i: nat, id: Id, j: nat)
    requires Run(ss, es) && i < |ss| && id in ss[i].readers
    requires var r := ss[i].readers[id]; r.draincount != -1 && r.trace.drainMark != -1
    requires ss[i].readers[id].trace.drainAt <= j < |ss[i].readers[id].trace.received|
    ensures var r := ss[i].readers[id]; var t := r.trace;
            var lost := t.received[j].dropped - t.drainDropped;
            var still := |t.received| - 1 - j + r.draincount;
            && lost >= 0
            && t.received[j].num == t.drainMark - 1 - still + lost
            && (t.received[j].num >= t.drainMark <==> lost > still)
  {
    RangeSafety(ss, es, i);
    assert ReaderOk(ss[i], id);
  }

  /** Exact drain. Without recovery since the request, exactly the outstanding buffers are
      delivered, in order, none queued later; when none is left the reader is told it is done
      (or to wait, while nothing new has arrived). */
  lemma ExactDrain<Id>(ss: seq<Cache<Id>>, es: seq<Event<Id>>, i: nat, id: Id)
    requires Run(ss, es) && i < |ss| && id in ss[i].readers
    requires var r := ss[i].readers[id];
             r.draincount != -1 && (r.trace.drainMark != -1 ==> r.dropped == r.trace.drainDropped)
    ensures var r := ss[i].readers[id]; var t := r.trace;
            && (t.drainMark != -1 ==>
                  && t.drainAt <= |t.received|
                  // each delivery since the request, counted back from the request
                  && (forall j | t.drainAt <= j < |t.received| ::
                        t.received[j].num == t.drainMark - r.draincount - |t.received| + j < t.drainMark)
                  // the cursor stops at the first buffer queued after the request
                  && Cursor(|ss[i].log|, r) + r.draincount == t.drainMark
                  // arrivals since the request
                  && r.bufpos + 1 - r.draincount == |ss[i].log| - t.drainMark)
            && (t.drainMark == -1 ==> t.received == [])
            && CanGet(ss[i], id)
            && (Get(ss[i].queue, |ss[i].log|, r).0.Ok? <==> r.draincount > 0)
  {
    RangeSafety(ss, es, i);
    assert ReaderOk(ss[i], id);
  }

  /** No lost wake-up. In every state of every run a reader with data has been called back since it
      was last told to wait. */
  lemma NoLostWakeup<Id>(ss: seq<Cache<Id>>, es: seq<Event<Id>>, i: nat, id: Id)
    requires Run(ss, es) && i < |ss| && id in ss[i].readers
    ensures var r := ss[i].readers[id];
            && CanGet(ss[i], id)
            && (r.bufpos >= 0 ==> r.ready)
            && (!r.ready ==> Get(ss[i].queue, |ss[i].log|, r) == (Wait, r))
  {
    RangeSafety(ss, es, i);
    assert ReaderOk(ss[i], id);
  }

  /** Emptying the queue does not touch reader positions, so it is safe exactly when no reader has one. */
  lemma FlushSafe<Id>(s: Cache<Id>)
    requires Inv(s)
    ensures (forall id | id in s.readers :: CanGet(s.(queue := []), id))
       <==> (forall id | id in s.readers :: s.readers[id].bufpos == -1)
  {
    FlushKeepsInv(s);
    if forall id | id in s.readers :: CanGet(s.(queue := []), id) {
      forall id | id in s.readers ensures s.readers[id].bufpos == -1 {
        assert CanGet(s.(queue := []), id);
        assert ReaderOk(s, id);
      }
    }
  }

  // ---------- building runs ----------

  lemma ThreeSteps<Id>(s0: Cache<Id>, e0: Event<Id>, s1: Cache<Id>, e1: Event<Id>, s2: Cache<Id>, e2: Event<Id>,
                       s3: Cache<Id>)
    requires Init(s0) && Next(s0, e0, s1) && Next(s1, e1, s2) && Next(s2, e2, s3)
    ensures Run([s0, s1, s2, s3], [e0, e1, e2])
  {
    var ss, es := [s0, s1, s2, s3], [e0, e1, e2];
    forall i | 0 <= i < |es| ensures Next(ss[i], es[i], ss[i + 1]) {
      if i == 0 {
      } else if i == 1 {
      } else {
      }
    }
  }

  /** Queueing when no reader is linked. */
  lemma QueueAlone<Id>(s: Cache<Id>, buf: Buffer, now: int)
    requires s.readers == map[]
    ensures Next(s, Queued(buf, now), s.(queue := Trimmed(Pushed(s, buf), s.cfg, 0), log := s.log + [buf]))
  {
    var s' := s.(queue := Trimmed(Pushed(s, buf), s.cfg, 0), log := s.log + [buf]);
    QueueStepFrom(s, s', buf, now, 0);
  }

  // ---------- after an unsafe flush ----------

  /** A reader whose position lies beyond the queue. */
  predicate Lost<Id>(s: Cache<Id>, id: Id) {
    id in s.readers && !s.readers[id].newReader && s.readers[id].bufpos >= |s.queue|
  }

  /** Without a recovery a queued buffer shifts a positioned reader by exactly one. */
  lemma ShiftedByOne(q: seq<Buffer>, n: int, cfg: Config, r: Reader)
    requires !r.newReader && Hooked(q, n, cfg, r).dropped == r.dropped
    ensures Hooked(q, n, cfg, r).bufpos == r.bufpos + 1 && !Hooked(q, n, cfg, r).newReader
  {
  }

  lemma QueueStaysLost<Id>(s: Cache<Id>, s': Cache<Id>, buf: Buffer, now: int, id: Id)
    requires QueueStep(s, s', buf, now) && Lost(s, id) && id in s'.readers
    requires s'.readers[id].dropped == s.readers[id].dropped
    ensures Lost(s', id)
  {
    var q, r := Pushed(s, buf), s.readers[id];
    assert Outcomes(s, buf, now)[id] == Some(s'.readers[id]);
    ShiftedByOne(q, |s.log| + 1, s.cfg, r);
    var top: nat :| IsTop(s'.readers, top) && s'.queue == Trimmed(q, s.cfg, top);
  }

  lemma StepStaysLost<Id>(s: Cache<Id>, e: Event<Id>, s': Cache<Id>, id: Id)
    requires Next(s, e, s') && Lost(s, id) && id in s'.readers
    requires s'.readers[id].dropped == s.readers[id].dropped
    ensures Lost(s', id) && !(e.Got? && e.id == id) && !e.Flushed?
  {
    if e.Queued? {
      QueueStaysLost(s, s', e.buf, e.now, id);
    }
  }

  /** Any number of transitions, from any state. */
  ghost predicate Steps<Id>(ss: seq<Cache<Id>>, es: seq<Event<Id>>) {
    |ss| == |es| + 1 && forall i | 0 <= i < |es| :: Next(ss[i], es[i], ss[i + 1])
  }

  /** The reader stays linked up to state n, and recovery does not move it. */
  ghost predicate Untouched<Id>(ss: seq<Cache<Id>>, n: nat, id: Id, dropped: int)
    requires n < |ss|
  {
    forall i | 0 <= i <= n :: id in ss[i].readers && ss[i].readers[id].dropped == dropped
  }

  /** The lasting effect of emptying the queue under a reader that holds a position: for as long as it stays
      linked and is not recovered, it lies beyond the queue after every step, and cannot be served. */
  lemma LostForGood<Id>(ss: seq<Cache<Id>>, es: seq<Event<Id>>, n: nat, id: Id, dropped: int)
    requires Steps(ss, es) && n < |ss| && Lost(ss[0], id) && Untouched(ss, n, id, dropped)
    ensures Lost(ss[n], id) && !CanGet(ss[n], id)
  {
    forall i | 0 <= i < n && Lost(ss[i], id) ensures Lost(ss[i + 1], id) {
      LostStep(ss, es, i, id, dropped);
    }
    LostThroughout(ss, n, id);
  }

  lemma {:induction false} LostThroughout<Id>(ss: seq<Cache<Id>>, n: nat, id: Id)
    requires n < |ss| && Lost(ss[0], id) && forall i | 0 <= i < n && Lost(ss[i], id) :: Lost(ss[i + 1], id)
    ensures Lost(ss[n], id)
  {
    if n > 0 {
      LostThroughout(ss, n - 1, id);
      assert Lost(ss[n - 1], id);
    }
  }

  lemma LostStep<Id>(ss: seq<Cache<Id>>, es: seq<Event<Id>>, i: nat, id: Id, dropped: int)
    requires Steps(ss, es) && i < |es| && Lost(ss[i], id) && Untouched(ss, i + 1, id, dropped)
    ensures Lost(ss[i + 1], id) && !(es[i].Got? && es[i].id == id) && !es[i].Flushed?
  {
    assert id in ss[i].readers && id in ss[i + 1].readers;
    assert Next(ss[i], es[i], ss[i + 1]);
    StepStaysLost(ss[i], es[i], ss[i + 1], id);
  }

  /** Emptying the queue makes every positioned reader such a reader. */
  lemma FlushLoses<Id>(s: Cache<Id>, id: Id)
    requires Inv(s) && id in s.readers
    ensures Lost(s.(queue := []), id) <==> s.readers[id].bufpos >= 0
  {
    assert ReaderOk(s, id);
  }
}
