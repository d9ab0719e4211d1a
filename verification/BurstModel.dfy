/** The burst cache as a state machine: one shared queue, and readers whose position shifts with it.

    Buffers are numbered by arrival: `log` is every buffer ever queued, and the buffer at index i of
    a queue whose log has n entries has number n - 1 - i. A reader's `trace` is a history variable:
    what it received, where it started, and where a drain was requested. */
module BurstModel {
  import opened Prelude
  import opened BurstLimits

  datatype Recover = RecoverNone | ResyncLatest | ResyncSoftLimit | ResyncKeyframe | RecoverUnknown

  datatype Start =
    | Latest | NextKeyframe | LatestKeyframe
    | Burst | BurstKeyframe | BurstWithKeyframe | StartUnknown

  datatype Config = Config(
    format: Format, max: int, softMax: int, recover: Recover,
    bytesMin: int, timeMin: int, buffersMin: int)

  /** A delivered buffer, its number, and how many buffers the reader had dropped by then. */
  datatype Delivery = Delivery(num: int, dropped: int, buf: Buffer)

  datatype Trace = Trace(
    origin: int,              // number of the buffer the reader was first positioned on
    received: seq<Delivery>,
    drainAt: nat,             // deliveries made before the drain request
    drainMark: int,           // first number arriving after the drain request, -1 if not yet positioned
    drainDropped: int)

  const NO_TRACE := Trace(0, [], 0, -1, 0)

  /** `ready`: the data callback ran and the reader has not been told to wait since. */
  datatype Reader = Reader(
    bufpos: int, draincount: int, newReader: bool, discont: bool,
    start: Start, minFormat: Format, minValue: nat, maxFormat: Format, maxValue: nat,
    dropped: int, lastActivity: int, timeout: int, ready: bool, trace: Trace)

  datatype Result = Ok(buf: Buffer) | Wait | Eos

  datatype Cache<!Id> = Cache(cfg: Config, queue: seq<Buffer>, readers: map<Id, Reader>, log: seq<Buffer>)

  // ---------- positioning a new reader ----------

  predicate IsBurst(start: Start) {
    start.Burst? || start.BurstKeyframe? || start.BurstWithKeyframe?
  }

  predicate IsKeyStart(start: Start) {
    start.NextKeyframe? || start.LatestKeyframe? || start.BurstKeyframe?
  }

  /** The burst bounds of a reader, each assigned to the unit it is given in. */
  function ReaderLimits(r: Reader): Limits {
    Limits(
      if r.minFormat == Bytes then ToInt32(r.minValue) else -1,
      if r.minFormat == Buffers then ToInt32(r.minValue) else -1,
      if r.minFormat == Time then ToInt64(r.minValue) else -1,
      if r.maxFormat == Bytes then ToInt32(r.maxValue) else -1,
      if r.maxFormat == Time then ToInt64(r.maxValue) else -1)
  }

  predicate CanPosition(q: seq<Buffer>, r: Reader) {
    -1 <= r.bufpos < |q| && (IsBurst(r.start) ==> |q| > 0)
  }

  /** Where a new reader starts; -1 when it has to wait. */
  function StartPosition(q: seq<Buffer>, r: Reader): (p: int)
    requires CanPosition(q, r)
    ensures -1 <= p < |q|
    ensures IsKeyStart(r.start) && p >= 0 ==> IsKeyframe(q[p])
  {
    var lim := ReaderLimits(r);
    match r.start
    case Latest => r.bufpos
    case StartUnknown => r.bufpos
    case NextKeyframe => PrevKey(q, r.bufpos)
    case LatestKeyframe => NextKey(q, 0)
    case Burst =>
      if MaxIdx(q, lim) <= MinIdx(q, lim) then Max(MaxIdx(q, lim) - 1, 0) else MinIdx(q, lim)
    case BurstKeyframe =>
      var next := NextKey(q, MinIdx(q, lim));
      if next != -1 && next < MaxIdx(q, lim) then next else PrevKey(q, MinIdx(q, lim))
    case BurstWithKeyframe =>
      var next := NextKey(q, MinIdx(q, lim));
      if next != -1 && next < MaxIdx(q, lim) then next
      else if MaxIdx(q, lim) <= MinIdx(q, lim) then Max(MaxIdx(q, lim) - 1, 0)
      else MinIdx(q, lim)
  }

  /** A new reader after the decision; n is the number of buffers ever queued. */
  function Positioned(q: seq<Buffer>, n: int, r: Reader): Reader
    requires CanPosition(q, r)
  {
    var p := StartPosition(q, r);
    if p >= 0 then
      r.(newReader := false, bufpos := p, ready := true, trace := r.trace.(origin := n - 1 - p))
    else if r.start.LatestKeyframe? || r.start.BurstKeyframe? then
      r.(bufpos := -1, start := NextKeyframe)
    else
      r.(bufpos := -1)
  }

  // ---------- queueing ----------

  function SoftBuffers(q: seq<Buffer>, cfg: Config): int {
    if cfg.softMax > 0 then BuffersMax(q, cfg.format, cfg.softMax) else -1
  }

  function HardBuffers(q: seq<Buffer>, cfg: Config): int {
    if cfg.max > 0 then BuffersMax(q, cfg.format, cfg.max) else -1
  }

  /** Where the recovery policy puts a reader that lags at index p. */
  function RecoverPosition(q: seq<Buffer>, cfg: Config, p: int): int {
    match cfg.recover
    case RecoverNone => p
    case ResyncLatest => -1
    case ResyncSoftLimit => BuffersMax(q, cfg.format, cfg.softMax)
    case RecoverUnknown => BuffersMax(q, cfg.format, cfg.softMax)
    case ResyncKeyframe =>
      var from := Min(|q| - 1, BuffersMax(q, cfg.format, cfg.softMax) - 1);
      if from >= -1 then PrevKey(q, from) else from
  }

  /** A reader after its position shifted by one and after recovery, if that applies. */
  function Moved(q: seq<Buffer>, cfg: Config, r: Reader): Reader {
    var p := r.bufpos + 1;
    var soft := SoftBuffers(q, cfg);
    if soft > 0 && p >= soft && RecoverPosition(q, cfg, p) != p then
      var to := RecoverPosition(q, cfg, p);
      r.(bufpos := to, dropped := r.dropped + p - to, discont := true)
    else
      r.(bufpos := p)
  }

  predicate TooSlow(q: seq<Buffer>, cfg: Config, r: Reader) {
    HardBuffers(q, cfg) > 0 && Moved(q, cfg, r).bufpos >= HardBuffers(q, cfg)
  }

  /** The idle time is an unsigned 64-bit difference. */
  predicate TimedOut(r: Reader, now: int) {
    r.timeout > 0 && (now - r.lastActivity) % TWO_64 > r.timeout
  }

  predicate Evicted(q: seq<Buffer>, cfg: Config, r: Reader, now: int) {
    TooSlow(q, cfg, r) || TimedOut(r, now)
  }

  /** A reader that stays linked, after a buffer was queued. */
  function Hooked(q: seq<Buffer>, n: int, cfg: Config, r: Reader): Reader
    requires r.newReader ==> CanPosition(q, Moved(q, cfg, r))
  {
    var m := Moved(q, cfg, r);
    if m.newReader then Positioned(q, n, m)
    else if m.bufpos == 0 then m.(ready := true)
    else m
  }

  function CacheLimits(cfg: Config): Limits {
    Limits(cfg.bytesMin, cfg.buffersMin, cfg.timeMin, -1, -1)
  }

  /** How far a keyframe is searched for: the queue, or the soft limit if there is one. */
  function KeySearch(q: seq<Buffer>, cfg: Config): int {
    if SoftBuffers(q, cfg) > 0 then Min(|q|, SoftBuffers(q, cfg)) else |q|
  }

  /** Last index needed for the readers, whose highest position is `top`, and for the minima. */
  function Needed(q: seq<Buffer>, cfg: Config, top: int): int
    requires |q| > 0
  {
    Max(top, MinIdx(q, CacheLimits(cfg)) + 1)
  }

  /** Last index that survives trimming: also the newest keyframe, if the search reaches it. */
  function Usage(q: seq<Buffer>, cfg: Config, top: int): int
    requires |q| > 0
  {
    var key := NextKey(q, 0);
    if 0 <= key < KeySearch(q, cfg) then Max(Needed(q, cfg, top), key) else Needed(q, cfg, top)
  }

  function Trimmed(q: seq<Buffer>, cfg: Config, top: nat): seq<Buffer>
    requires |q| > 0
  {
    q[..Min(|q|, Usage(q, cfg, top) + 1)]
  }

  /** `top` is the highest position of any reader, or 0. */
  ghost predicate IsTop<Id>(readers: map<Id, Reader>, top: int) {
    && top >= 0
    && (forall id | id in readers :: readers[id].bufpos <= top)
    && (top == 0 || exists id | id in readers :: readers[id].bufpos == top)
  }

  // ---------- reading ----------

  function Get(q: seq<Buffer>, n: int, r: Reader): (res: (Result, Reader))
    requires -1 <= r.bufpos < |q|
  {
    if r.bufpos == -1 then (Wait, r.(ready := false))
    else if r.draincount == 0 then (Eos, r)
    else
      (Ok(q[r.bufpos]),
       r.(bufpos := r.bufpos - 1,
          draincount := if r.draincount != -1 then r.draincount - 1 else -1,
          trace := r.trace.(received := r.trace.received +
                                        [Delivery(n - 1 - r.bufpos, r.dropped, q[r.bufpos])])))
  }

  /** A drain request counts what is outstanding, once. */
  function Drained(n: int, r: Reader): Reader {
    if r.draincount != -1 then r
    else
      r.(draincount := r.bufpos + 1,
         trace := r.trace.(drainAt := |r.trace.received|,
                           drainMark := if r.newReader then -1 else n,
                           drainDropped := r.dropped))
  }

  /** A reader as it is created, with any burst settings and timeouts. */
  predicate Fresh(r: Reader) {
    r.bufpos == -1 && r.draincount == -1 && r.newReader && r.dropped == 0 && !r.ready && r.trace == NO_TRACE
  }

  // ---------- the transitions ----------

  datatype Event<!Id> =
    | Queued(buf: Buffer, now: int)
    | Got(id: Id, res: Result)
    | Added(id: Id, reader: Reader)
    | DrainAsked(id: Id)
    | Removed(id: Id)
    | Configured(cfg: Config)
    | Active(id: Id, lastActivity: int, timeout: int)
    | Flushed

  function Pushed<Id>(s: Cache<Id>, buf: Buffer): seq<Buffer> {
    [buf] + s.queue
  }

  /** The program's own demands while it positions new readers: otherwise an assertion stops it. */
  ghost predicate CanQueue<Id>(s: Cache<Id>, buf: Buffer) {
    forall id {:trigger s.readers[id]} | id in s.readers ::
      s.readers[id].newReader ==> CanPosition(Pushed(s, buf), Moved(Pushed(s, buf), s.cfg, s.readers[id]))
  }

  /** What becomes of one reader when a buffer is queued: None if it is removed. */
  function Outcome(q: seq<Buffer>, n: int, cfg: Config, r: Reader, now: int): Option<Reader>
    requires r.newReader ==> CanPosition(q, Moved(q, cfg, r))
  {
    if Evicted(q, cfg, r, now) then None else Some(Hooked(q, n, cfg, r))
  }

  ghost function Outcomes<Id>(s: Cache<Id>, buf: Buffer, now: int): map<Id, Option<Reader>>
    requires CanQueue(s, buf)
  {
    map id | id in s.readers :: Outcome(Pushed(s, buf), |s.log| + 1, s.cfg, s.readers[id], now)
  }

  /** The readers left are those with an outcome, and each is in the state its hook leaves. */
  ghost predicate Survive<Id>(readers: map<Id, Reader>, outcomes: map<Id, Option<Reader>>) {
    && (forall id | id in readers :: id in outcomes)
    && (forall id | id in outcomes :: outcomes[id] == if id in readers then Some(readers[id]) else None)
  }

  ghost predicate QueueStep<Id>(s: Cache<Id>, s': Cache<Id>, buf: Buffer, now: int) {
    var q := Pushed(s, buf);
    && CanQueue(s, buf)
    && s'.cfg == s.cfg
    && s'.log == s.log + [buf]
    && Survive(s'.readers, Outcomes(s, buf, now))
    && exists top: nat :: IsTop(s'.readers, top) && s'.queue == Trimmed(q, s.cfg, top)
  }

  /** A reader can be served: its position is an index of the queue, or it has none. */
  predicate CanGet<Id>(s: Cache<Id>, id: Id) {
    id in s.readers && -1 <= s.readers[id].bufpos < |s.queue|
  }

  ghost predicate Next<Id>(s: Cache<Id>, e: Event<Id>, s': Cache<Id>) {
    match e
    case Queued(buf, now) => QueueStep(s, s', buf, now)
    case Got(id, res) =>
      CanGet(s, id) && res == Get(s.queue, |s.log|, s.readers[id]).0 &&
      s' == s.(readers := s.readers[id := Get(s.queue, |s.log|, s.readers[id]).1])
    case Added(id, r) =>
      id !in s.readers && Fresh(r) && (IsBurst(r.start) ==> |s.queue| > 0) &&
      s' == s.(readers := s.readers[id := Positioned(s.queue, |s.log|, r)])
    case DrainAsked(id) =>
      id in s.readers && s' == s.(readers := s.readers[id := Drained(|s.log|, s.readers[id])])
    case Removed(id) => s' == s.(readers := s.readers - {id})
    case Configured(cfg) => s' == s.(cfg := cfg)
    case Active(id, lastActivity, timeout) =>
      id in s.readers &&
      s' == s.(readers := s.readers[id := s.readers[id].(lastActivity := lastActivity, timeout := timeout)])
    case Flushed => (forall id | id in s.readers :: s.readers[id].bufpos == -1) && s' == s.(queue := [])
  }

  ghost predicate Init<Id>(s: Cache<Id>) {
    s.queue == [] && s.log == [] && s.readers == map[]
  }

  /** A run: an initial state and any number of transitions. */
  ghost predicate Run<Id>(ss: seq<Cache<Id>>, es: seq<Event<Id>>) {
    && |ss| == |es| + 1
    && Init(ss[0])
    && forall i | 0 <= i < |es| :: Next(ss[i], es[i], ss[i + 1])
  }

  // ---------- the invariant ----------

  /** The queue holds the newest buffers of the log, newest first. */
  predicate Window(queue: seq<Buffer>, log: seq<Buffer>) {
    |queue| <= |log| && forall i | 0 <= i < |queue| :: queue[i] == log[|log| - 1 - i]
  }

  /** The number of the next buffer a positioned reader will take. */
  function Cursor(n: int, r: Reader): int {
    n - 1 - r.bufpos
  }

  /** Deliveries are accounted for: each is the origin, plus those before it, plus what was dropped by then. */
  predicate Accounted(log: seq<Buffer>, r: Reader) {
    var got := r.trace.received;
    && r.trace.origin >= 0
    && (forall j | 0 <= j < |got| ::
          && got[j].num == r.trace.origin + j + got[j].dropped
          && 0 <= got[j].dropped <= r.dropped
          && 0 <= got[j].num < |log|
          && got[j].buf == log[got[j].num])
    && (forall i, j | 0 <= i < j < |got| :: got[i].dropped <= got[j].dropped)
  }

  predicate DrainAccounted(n: int, r: Reader) {
    var t := r.trace;
    if t.drainMark == -1 then r.draincount == 0 && t.received == []
    else
      && !r.newReader
      && t.drainAt <= |t.received|
      && 0 <= t.drainDropped <= r.dropped
      && t.drainMark <= n
      && t.origin + |t.received| + t.drainDropped + r.draincount == t.drainMark
      && (forall j | 0 <= j < |t.received| ::
            if j < t.drainAt then t.received[j].dropped <= t.drainDropped
            else t.drainDropped <= t.received[j].dropped)
  }

  /** A reader's position is in range and its books are balanced. */
  predicate Books(queue: seq<Buffer>, log: seq<Buffer>, r: Reader) {
    && -1 <= r.bufpos < |queue|
    && r.dropped >= 0
    && r.draincount >= -1
    && (r.newReader ==> r.bufpos == -1 && r.dropped == 0 && r.trace.received == [])
    && (!r.newReader ==> r.trace.origin + |r.trace.received| + r.dropped == Cursor(|log|, r))
    && Accounted(log, r)
    && (!r.newReader && IsKeyStart(r.start) ==> r.trace.origin < |log| && IsKeyframe(log[r.trace.origin]))
    && (r.draincount != -1 ==> DrainAccounted(|log|, r))
  }

  predicate ReaderInv(queue: seq<Buffer>, log: seq<Buffer>, r: Reader) {
    Books(queue, log, r) && (r.bufpos >= 0 ==> r.ready)
  }

  predicate ReaderOk<Id>(s: Cache<Id>, id: Id)
    requires id in s.readers
  {
    ReaderInv(s.queue, s.log, s.readers[id])
  }

  ghost predicate Inv<Id>(s: Cache<Id>) {
    && Window(s.queue, s.log)
    && forall id {:trigger ReaderOk(s, id)} | id in s.readers :: ReaderOk(s, id)
  }
}
