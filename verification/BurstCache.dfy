/** The burst cache itself: the queue and the readers, updated in place.

    Every method is tied to the state machine of BurstModel: `View` is the machine's state, and each
    operation is one of its transitions. */
module BurstCache {
  import opened Prelude
  import opened BurstLimits
  import opened BurstModel
  import opened BurstRuns

  class BurstReader {
    var bufpos: int
    var draincount: int
    var newReader: bool
    var discont: bool
    var startMethod: Start
    var minFormat: Format
    var minValue: nat
    var maxFormat: Format
    var maxValue: nat
    var dropped: int
    var lastActivity: int
    var timeout: int
    var ready: bool           // the data callback ran since the reader was last told to wait
    ghost var trace: Trace

    ghost function State(): Reader
      reads this
    {
      Reader(bufpos, draincount, newReader, discont, startMethod, minFormat, minValue, maxFormat, maxValue,
             dropped, lastActivity, timeout, ready, trace)
    }

    constructor (now: int)
      ensures Fresh(State()) && startMethod == Latest && timeout == 0 && lastActivity == now
      ensures minFormat == maxFormat == Undefined && minValue == maxValue == 0
    {
      bufpos, draincount := -1, -1;
      newReader, discont := true, false;
      startMethod := Latest;
      minFormat, minValue, maxFormat, maxValue := Undefined, 0, Undefined, 0;
      dropped, lastActivity, timeout, ready := 0, now, 0, false;
      trace := NO_TRACE;
    }

    /** Configures the burst; refused when both bounds are in one unit, set, and the wrong way round. */
    method SetBurst(start: Start, minFormat: Format, minValue: nat, maxFormat: Format, maxValue: nat)
      returns (ok: bool)
      modifies this
      ensures ok <==> !WrongBounds(minFormat, minValue, maxFormat, maxValue)
      ensures State() == if !ok then old(State()) else
        old(State()).(start := start, minFormat := minFormat, minValue := minValue,
                      maxFormat := maxFormat, maxValue := maxValue)
    {
      if minFormat == maxFormat {
        if maxValue != TWO_64 - 1 && minValue != TWO_64 - 1 && maxValue < minValue {
          return false;
        }
      }
      this.startMethod := start;
      this.minFormat := minFormat;
      this.minValue := minValue;
      this.maxFormat := maxFormat;
      this.maxValue := maxValue;
      return true;
    }
  }

  predicate WrongBounds(minFormat: Format, minValue: nat, maxFormat: Format, maxValue: nat) {
    minFormat == maxFormat && minValue != TWO_64 - 1 && maxValue != TWO_64 - 1 && maxValue < minValue
  }

  ghost predicate Distinct<T>(s: seq<T>) {
    forall i, j | 0 <= i < j < |s| :: s[i] != s[j]
  }

  lemma WithoutOne<T>(s: seq<T>, i: nat)
    requires Distinct(s) && i < |s|
    ensures Distinct(s[..i] + s[i + 1..])
    ensures forall x :: x in s[..i] + s[i + 1..] <==> x in s && x != s[i]
  {
    forall x | x in s && x != s[i] ensures x in s[..i] + s[i + 1..] {
      var j :| 0 <= j < |s| && s[j] == x;
      assert x == (s[..i] + s[i + 1..])[if j < i then j else j - 1];
    }
  }

  class BurstCache {
    var bufqueue: seq<Buffer>
    var readers: seq<BurstReader>
    var limitFormat: Format
    var limitMax: int
    var limitSoftMax: int
    var recover: Recover
    var bytesMin: int
    var timeMin: int
    var buffersMin: int
    var buffersQueued: int
    ghost var log: seq<Buffer>

    ghost function Cfg(): Config
      reads this
    {
      Config(limitFormat, limitMax, limitSoftMax, recover, bytesMin, timeMin, buffersMin)
    }

    ghost function View(): Cache<BurstReader>
      reads this, readers
    {
      Cache(Cfg(), bufqueue, map r | r in readers :: r.State(), log)
    }

    ghost predicate Valid()
      reads this, readers
    {
      Distinct(readers) && Inv(View())
    }

    constructor ()
      ensures Valid() && Init(View())
      ensures Cfg() == Config(Buffers, -1, -1, RecoverNone, -1, -1, -1)
    {
      bufqueue, readers, log := [], [], [];
      limitFormat, limitMax, limitSoftMax, recover := Buffers, -1, -1, RecoverNone;
      bytesMin, timeMin, buffersMin, buffersQueued := -1, -1, -1, 0;
    }

    method SetLimits(format: Format, max: int, softMax: int, recover: Recover)
      requires Valid()
      modifies this
      ensures Valid()
      ensures Next(old(View()), Configured(old(Cfg()).(format := format, max := max, softMax := softMax,
                                                       recover := recover)), View())
    {
      ghost var s := View();
      limitFormat, limitMax, limitSoftMax, this.recover := format, max, softMax, recover;
      SameQueueKeepsInv(s, View());
    }

    method SetMinAmount(bytesMin: int, timeMin: int, buffersMin: int)
      requires Valid()
      modifies this
      ensures Valid()
      ensures Next(old(View()), Configured(old(Cfg()).(bytesMin := bytesMin, timeMin := timeMin,
                                                       buffersMin := buffersMin)), View())
    {
      ghost var s := View();
      this.bytesMin, this.timeMin, this.buffersMin := bytesMin, timeMin, buffersMin;
      SameQueueKeepsInv(s, View());
    }

    // ---------- searches ----------

    method FindKeyframe(idx: int, direction: int) returns (result: int)
      requires direction == 1 || direction == -1
      ensures direction == 1 && idx >= 0 ==> result == NextKey(bufqueue, idx)
      ensures direction == -1 && -1 <= idx < |bufqueue| ==> result == PrevKey(bufqueue, idx)
    {
      var len := |bufqueue|;
      result := -1;
      var i := idx;
      while 0 <= i < len
        invariant direction == 1 && idx >= 0 ==> i >= 0 && NextKey(bufqueue, i) == NextKey(bufqueue, idx)
        invariant direction == -1 && -1 <= idx < len ==>
                    -1 <= i < len && PrevKey(bufqueue, i) == PrevKey(bufqueue, idx)
        decreases if direction == 1 then len - i else i
      {
        if IsKeyframe(bufqueue[i]) {
          result := i;
          break;
        }
        i := i + direction;
      }
    }

    method GetBuffersMax(format: Format, max: int) returns (n: int)
      ensures n == BuffersMax(bufqueue, format, max)
    {
      if format == Time {
        var first: Option<nat> := None;
        var len := |bufqueue|;
        var i := 0;
        while i < len
          invariant 0 <= i <= len
          invariant first == BaseTs(bufqueue, i)
          invariant FirstBeyond(bufqueue, format, max, i) == FirstBeyond(bufqueue, format, max, 0)
        {
          var ts := bufqueue[i].ts;
          if ts.Some? {
            if first.None? {
              first := ts;
            }
            var diff := ToInt64(first.value - ts.value);
            if diff > max {
              return i + 1;
            }
          }
          i := i + 1;
        }
        return len + 1;
      } else if format == Bytes {
        var acc := 0;
        var len := |bufqueue|;
        var i := 0;
        while i < len
          invariant 0 <= i <= len
          invariant acc == PrefixBytes(bufqueue, i)
          invariant FirstBeyond(bufqueue, format, max, i) == FirstBeyond(bufqueue, format, max, 0)
        {
          acc := acc + bufqueue[i].size;
          if acc > max {
            return i + 1;
          }
          i := i + 1;
        }
        return len + 1;
      } else {
        return ToInt32(max);
      }
    }

    /** One pass over the queue, new to old; a minimum that is reached is unset, and a maximum that
        is reached ends the search one round later. */
    method FindLimits(lim: Limits) returns (minIdx: int, maxIdx: int, result: bool)
      requires |bufqueue| > 0
      ensures minIdx == MinIdx(bufqueue, lim) && maxIdx == MaxIdx(bufqueue, lim)
      ensures result <==> LimitsFound(bufqueue, lim)
    {
      var len := |bufqueue|;
      if lim.buffersMin != -1 && len < lim.buffersMin {
        return len - 1, len - 1, false;
      }
      result := false;
      var first: Option<nat> := None;
      var bytes := 0;
      var bytesMin, timeMin := lim.bytesMin, lim.timeMin;
      minIdx, maxIdx := -1, -1;
      var maxHit := false;
      var i := 0;
      while i < len
        invariant 0 <= i <= len
        invariant bytes == PrefixBytes(bufqueue, i) && first == BaseTs(bufqueue, i)
        invariant maxIdx == -1 && !result
        invariant bytesMin == if i > 0 && BytesMet(bufqueue, i - 1, lim.bytesMin) then -1 else lim.bytesMin
        invariant timeMin == if i > 0 && TimeMet(bufqueue, i - 1, lim.timeMin) then -1 else lim.timeMin
        invariant forall j | 0 <= j < i - 1 :: !MaxHit(bufqueue, j, lim)
        invariant maxHit <==> i > 0 && MaxHit(bufqueue, i - 1, lim)
        invariant -1 <= minIdx < Max(i, 1)
        invariant minIdx != -1 ==> minIdx < Max(1, i - 1) && MinMet(bufqueue, minIdx, lim)
        invariant minIdx == -1 ==> forall j | 0 <= j < i - 1 :: !MinMet(bufqueue, j, lim)
        invariant minIdx != -1 ==> forall j | 0 <= j < minIdx :: !MinMet(bufqueue, j, lim)
      {
        if bytesMin == -1 && timeMin == -1 && minIdx == -1 {
          minIdx := Max(i - 1, 0);
        }
        if maxHit {
          maxIdx := i - 1;
          result := minIdx != -1;
          break;
        }
        first, bytes, bytesMin, timeMin, maxHit := TakeIn(lim, i, first, bytes, bytesMin, timeMin);
        i := i + 1;
      }
      if maxIdx == -1 {
        maxIdx := len - 1;
      }
      if minIdx == -1 {
        minIdx := maxIdx;
      }
    }

    /** Takes one more buffer into the totals: a minimum that is now reached is unset, and a maximum that is
        reached is reported. */
    method TakeIn(lim: Limits, i: nat, first: Option<nat>, bytes: nat, bytesMin: int, timeMin: int)
      returns (first': Option<nat>, bytes': nat, bytesMin': int, timeMin': int, maxHit: bool)
      requires i < |bufqueue| && bytes == PrefixBytes(bufqueue, i) && first == BaseTs(bufqueue, i)
      requires bytesMin == if i > 0 && BytesMet(bufqueue, i - 1, lim.bytesMin) then -1 else lim.bytesMin
      requires timeMin == if i > 0 && TimeMet(bufqueue, i - 1, lim.timeMin) then -1 else lim.timeMin
      ensures bytes' == PrefixBytes(bufqueue, i + 1) && first' == BaseTs(bufqueue, i + 1)
      ensures bytesMin' == if BytesMet(bufqueue, i, lim.bytesMin) then -1 else lim.bytesMin
      ensures timeMin' == if TimeMet(bufqueue, i, lim.timeMin) then -1 else lim.timeMin
      ensures maxHit <==> MaxHit(bufqueue, i, lim)
    {
      MetStep(bufqueue, i, lim.bytesMin, lim.timeMin);
      bytesMin', timeMin', maxHit := bytesMin, timeMin, false;
      var buf := bufqueue[i];
      bytes', first' := bytes + buf.size, first;
      if buf.ts.Some? {
        if first'.None? {
          first' := buf.ts;
        }
        var age := first'.value - buf.ts.value;
        if timeMin' != -1 && age % TWO_64 >= timeMin' % TWO_64 {
          timeMin' := -1;
        }
        if lim.timeMax != -1 && age % TWO_64 >= lim.timeMax % TWO_64 {
          maxHit := true;
        }
      }
      if bytesMin' != -1 {
        if bytes' >= bytesMin' {
          bytesMin' := -1;
        }
      }
      if lim.bytesMax != -1 {
        if bytes' >= lim.bytesMax {
          maxHit := true;
        }
      }
    }

    method CountBurstUnit(minFormat: Format, minValue: nat, maxFormat: Format, maxValue: nat, ghost r: Reader)
      returns (minIdx: int, maxIdx: int, result: bool)
      requires |bufqueue| > 0
      requires (r.minFormat, r.minValue, r.maxFormat, r.maxValue) == (minFormat, minValue, maxFormat, maxValue)
      ensures minIdx == MinIdx(bufqueue, ReaderLimits(r)) && maxIdx == MaxIdx(bufqueue, ReaderLimits(r))
      ensures result <==> LimitsFound(bufqueue, ReaderLimits(r))
    {
      var bytesMin, buffersMin, timeMin := AssignValue(minFormat, minValue);
      var bytesMax, buffersMax, timeMax := AssignValue(maxFormat, maxValue);
      minIdx, maxIdx, result := FindLimits(Limits(bytesMin, buffersMin, timeMin, bytesMax, timeMax));
    }

    // ---------- readers ----------

    /** Enough data for the minimum, but less than the maximum. */
    method BurstPosition(reader: BurstReader) returns (position: int)
      requires reader.startMethod == Burst && CanPosition(bufqueue, reader.State())
      ensures position == StartPosition(bufqueue, reader.State())
    {
      var max, ok;
      position, max, ok := CountBurstUnit(reader.minFormat, reader.minValue, reader.maxFormat, reader.maxValue,
                                          reader.State());
      if max != -1 && max <= position {
        position := Max(max - 1, 0);
      }
    }

    /** Always a keyframe: within the bounds, else the last one before the minimum, else none yet. */
    method BurstKeyframePosition(reader: BurstReader) returns (position: int)
      requires reader.startMethod == BurstKeyframe && CanPosition(bufqueue, reader.State())
      ensures position == StartPosition(bufqueue, reader.State())
    {
      var minIdx, maxIdx, ok := CountBurstUnit(reader.minFormat, reader.minValue,
                                               reader.maxFormat, reader.maxValue, reader.State());
      var next := FindKeyframe(minIdx, 1);
      if next != -1 && next < maxIdx {
        return next;
      }
      position := FindKeyframe(minIdx, -1);
    }

    /** A keyframe within the bounds if there is one, else the minimum. */
    method BurstWithKeyframePosition(reader: BurstReader) returns (position: int)
      requires reader.startMethod == BurstWithKeyframe && CanPosition(bufqueue, reader.State())
      ensures position == StartPosition(bufqueue, reader.State())
    {
      var minIdx, maxIdx, ok := CountBurstUnit(reader.minFormat, reader.minValue,
                                               reader.maxFormat, reader.maxValue, reader.State());
      var next := FindKeyframe(minIdx, 1);
      if next != -1 && next < maxIdx {
        return next;
      }
      if maxIdx != -1 && maxIdx <= minIdx {
        position := Max(maxIdx - 1, 0);
      } else {
        position := minIdx;
      }
    }

    /** Decides where a new reader starts, and calls it back if it can start now. */
    method HandleNewReader(reader: BurstReader)
      requires CanPosition(bufqueue, reader.State())
      modifies reader
      ensures reader.State() == Positioned(bufqueue, |log|, old(reader.State()))
    {
      var position: int;
      match reader.startMethod {
        case Latest => position := reader.bufpos;
        case NextKeyframe =>
          position := FindKeyframe(reader.bufpos, -1);
          if position == -1 {
            reader.bufpos := -1;
          }
        case LatestKeyframe =>
          position := FindKeyframe(0, 1);
          if position == -1 {
            reader.bufpos := -1;
            reader.startMethod := NextKeyframe;
          }
        case Burst => position := BurstPosition(reader);
        case BurstKeyframe =>
          position := BurstKeyframePosition(reader);
          if position == -1 {
            reader.bufpos := -1;
            reader.startMethod := NextKeyframe;
          }
        case BurstWithKeyframe => position := BurstWithKeyframePosition(reader);
        case StartUnknown => position := reader.bufpos;
      }
      StartReader(reader, position);
    }

    /** Starts a reader at a valid spot in the queue, and signals that it is ready. */
    method StartReader(reader: BurstReader, position: int)
      modifies reader
      ensures reader.State() == if position < 0 then old(reader.State()) else
        old(reader.State()).(newReader := false, bufpos := position, ready := true,
                             trace := old(reader.trace).(origin := |log| - 1 - position))
    {
      if position >= 0 {
        reader.newReader := false;
        reader.bufpos := position;
        reader.trace := reader.trace.(origin := |log| - 1 - position);
        reader.ready := true;
      }
    }

    /** Links a reader; a reader that is not new, or whose bounds are the wrong way round, is refused. */
    method AddReader(reader: BurstReader) returns (ok: bool)
      requires Valid() && reader !in readers
      requires reader.newReader ==> Fresh(reader.State())
      requires IsBurst(reader.startMethod) ==> |bufqueue| > 0
      modifies this, reader
      ensures Valid()
      ensures ok <==> old(reader.newReader) && !WrongBounds(old(reader.minFormat), old(reader.minValue),
                                                             old(reader.maxFormat), old(reader.maxValue))
      ensures !ok ==> View() == old(View()) && reader.State() == old(reader.State())
      ensures ok ==> Next(old(View()), Added(reader, old(reader.State())), View())
    {
      if !reader.newReader {
        return false;
      }
      if reader.minFormat == reader.maxFormat {
        if reader.maxValue != TWO_64 - 1 && reader.minValue != TWO_64 - 1 && reader.maxValue < reader.minValue {
          return false;
        }
      }
      Link(reader);
      return true;
    }

    /** Positions a new reader and links it. */
    method Link(reader: BurstReader)
      requires Valid() && reader !in readers && Fresh(reader.State())
      requires IsBurst(reader.startMethod) ==> |bufqueue| > 0
      modifies this`readers, reader
      ensures Valid() && Next(old(View()), Added(reader, old(reader.State())), View())
    {
      ghost var s, r := View(), reader.State();
      HandleNewReader(reader);
      AddLink(reader);
      StepKeepsInv(s, Added(reader, r), View());
    }

    method AddLink(reader: BurstReader)
      requires Distinct(readers) && reader !in readers
      modifies this`readers
      ensures Distinct(readers)
      ensures View() == old(View()).(readers := old(View()).readers[reader := reader.State()])
    {
      ghost var before := View();
      readers := [reader] + readers;
      assert View().readers == before.readers[reader := reader.State()];
    }

    method Unlink(reader: BurstReader)
      requires Valid() && reader in readers
      modifies this, reader
      ensures Valid() && reader.bufpos == -1
      ensures Next(old(View()), Removed(reader), View())
    {
      ghost var s := View();
      reader.bufpos := -1;
      RemoveLink(reader);
      assert View().readers == s.readers - {reader};
      StepKeepsInv(s, Removed(reader), View());
    }

    method RemoveLink(reader: BurstReader)
      requires Distinct(readers) && reader in readers
      modifies this`readers
      ensures Distinct(readers)
      ensures forall r :: r in readers <==> r in old(readers) && r != reader
    {
      var i :| 0 <= i < |readers| && readers[i] == reader;
      WithoutOne(readers, i);
      readers := readers[..i] + readers[i + 1..];
    }

    /** Removes a reader now, or asks it to drain; false if it is not linked. */
    method RemoveReader(reader: BurstReader, drain: bool) returns (ok: bool)
      requires Valid()
      modifies this, reader
      ensures Valid() && (ok <==> reader in old(readers))
      ensures ok ==> Next(old(View()), if drain then DrainAsked(reader) else Removed(reader), View())
      ensures !ok ==> View() == old(View()) && reader.State() == old(reader.State())
    {
      if reader !in readers {
        return false;
      }
      if drain {
        StartDrain(reader);
      } else {
        Unlink(reader);
      }
      return true;
    }

    /** Marks a reader as draining what is outstanding, unless it already is. */
    method StartDrain(reader: BurstReader)
      requires Valid() && reader in readers
      modifies reader
      ensures Valid() && Next(old(View()), DrainAsked(reader), View())
    {
      ghost var s := View();
      MarkDraining(reader);
      assert View().readers == s.readers[reader := reader.State()];
      StepKeepsInv(s, DrainAsked(reader), View());
    }

    method MarkDraining(reader: BurstReader)
      modifies reader
      ensures reader.State() == Drained(|log|, old(reader.State()))
    {
      if reader.draincount == -1 {
        reader.draincount := reader.bufpos + 1;
        reader.trace := reader.trace.(drainAt := |reader.trace.received|,
                                      drainMark := if reader.newReader then -1 else |log|,
                                      drainDropped := reader.dropped);
      }
    }

    /** Takes the next buffer of a reader. */
    method GetBuffer(reader: BurstReader) returns (res: Result)
      requires Valid() && reader in readers
      modifies reader
      ensures Valid() && readers == old(readers)
      ensures Next(old(View()), Got(reader, res), View())
      ensures res == Get(bufqueue, |log|, old(reader.State())).0
    {
      ghost var s := View();
      ReadersInRange(s, reader);
      res := Take(reader);
      assert View().readers == s.readers[reader := reader.State()];
      StepKeepsInv(s, Got(reader, res), View());
    }

    method Take(reader: BurstReader) returns (res: Result)
      requires -1 <= reader.bufpos < |bufqueue|
      modifies reader
      ensures (res, reader.State()) == Get(bufqueue, |log|, old(reader.State()))
    {
      if reader.bufpos == -1 {
        reader.ready := false;
        return Wait;
      }
      if reader.draincount == 0 {
        return Eos;
      }
      var buf := bufqueue[reader.bufpos];
      reader.trace := reader.trace.(received := reader.trace.received +
                                    [Delivery(|log| - 1 - reader.bufpos, reader.dropped, buf)]);
      reader.bufpos := reader.bufpos - 1;
      if reader.draincount != -1 {
        reader.draincount := reader.draincount - 1;
      }
      return Ok(buf);
    }

    /** Empties the queue without looking at the readers: safe when none holds a position. */
    method RemoveBuffers()
      requires Valid()
      modifies this
      ensures bufqueue == [] && readers == old(readers) && View() == old(View()).(queue := [])
      ensures Valid() <==> forall r | r in readers :: r.bufpos == -1
    {
      ghost var s := View();
      bufqueue := [];
      FlushKeepsInv(s);
      assert View() == s.(queue := []);
      assert forall r | r in readers :: s.readers[r].bufpos == r.bufpos;
    }

    // ---------- queueing ----------

    method RecoverReader(reader: BurstReader) returns (newpos: int)
      ensures newpos == RecoverPosition(bufqueue, Cfg(), reader.bufpos)
    {
      match recover {
        case RecoverNone => newpos := reader.bufpos;
        case ResyncLatest => newpos := -1;
        case ResyncSoftLimit => newpos := GetBuffersMax(limitFormat, limitSoftMax);
        case RecoverUnknown => newpos := GetBuffersMax(limitFormat, limitSoftMax);
        case ResyncKeyframe =>
          var soft := GetBuffersMax(limitFormat, limitSoftMax);
          newpos := Min(|bufqueue| - 1, soft - 1);
          ghost var from := newpos;
          while newpos >= 0
            invariant newpos <= from < |bufqueue|
            invariant from >= -1 ==> newpos >= -1 && PrevKey(bufqueue, newpos) == PrevKey(bufqueue, from)
            invariant from < -1 ==> newpos == from
          {
            if IsKeyframe(bufqueue[newpos]) {
              break;
            }
            newpos := newpos - 1;
          }
      }
    }

    /** Moves one reader for a queued buffer; false removes it. */
    method QueueHook(reader: BurstReader, softMax: int, hardMax: int, now: int, usage: int,
                     ghost outcome: Option<Reader>)
      returns (keep: bool, usage': int)
      requires softMax == SoftBuffers(bufqueue, Cfg()) && hardMax == HardBuffers(bufqueue, Cfg())
      requires reader.newReader ==> CanPosition(bufqueue, Moved(bufqueue, Cfg(), reader.State()))
      requires outcome == Outcome(bufqueue, |log|, Cfg(), reader.State(), now)
      modifies reader
      ensures outcome == if keep then Some(reader.State()) else None
      ensures usage' == if keep then Max(usage, reader.bufpos) else usage
    {
      usage' := usage;
      MoveReader(reader, softMax);
      if hardMax > 0 && reader.bufpos >= hardMax {
        reader.bufpos := -1;
        return false, usage;
      }
      if reader.timeout > 0 && (now - reader.lastActivity) % TWO_64 > reader.timeout {
        reader.bufpos := -1;
        return false, usage;
      }
      if reader.newReader {
        HandleNewReader(reader);
      } else if reader.bufpos == 0 {
        reader.ready := true;
      }
      if reader.bufpos > usage' {
        usage' := reader.bufpos;
      }
      keep := true;
    }

    /** Shifts a reader by one and recovers it at the soft limit. */
    method MoveReader(reader: BurstReader, softMax: int)
      requires softMax == SoftBuffers(bufqueue, Cfg())
      modifies reader
      ensures reader.State() == Moved(bufqueue, Cfg(), old(reader.State()))
    {
      reader.bufpos := reader.bufpos + 1;
      if softMax > 0 && reader.bufpos >= softMax {
        var newpos := RecoverReader(reader);
        if newpos != reader.bufpos {
          reader.dropped := reader.dropped + reader.bufpos - newpos;
          reader.bufpos := newpos;
          reader.discont := true;
        }
      }
    }

    /** `outcomes` says what is to become of a reader. */
    ghost predicate Due(r: BurstReader, outcomes: map<BurstReader, Option<Reader>>, now: int)
      reads this, r
    {
      && (r.newReader ==> CanPosition(bufqueue, Moved(bufqueue, Cfg(), r.State())))
      && r in outcomes && outcomes[r] == Outcome(bufqueue, |log|, Cfg(), r.State(), now)
    }

    ghost predicate Foreseen(outcomes: map<BurstReader, Option<Reader>>, now: int)
      reads this, readers
    {
      forall r | r in readers :: Due(r, outcomes, now)
    }

    lemma OutcomesForeseen(s: Cache<BurstReader>, buffer: Buffer, now: int)
      requires CanQueue(s, buffer) && View() == s.(queue := Pushed(s, buffer), log := s.log + [buffer])
      ensures Foreseen(Outcomes(s, buffer, now), now)
    {
      forall r | r in readers ensures r in s.readers && s.readers[r] == r.State() {
        assert r in View().readers;
      }
    }

    lemma ReadersLeft(outcomes: map<BurstReader, Option<Reader>>, usage: int)
      requires forall r | r in readers :: r in outcomes
      requires forall r | r in outcomes :: outcomes[r] == if r in readers then Some(r.State()) else None
      requires usage >= 0 && (forall r | r in readers :: r.bufpos <= usage)
      requires usage == 0 || exists r | r in readers :: r.bufpos == usage
      ensures Survive(View().readers, outcomes) && IsTop(View().readers, usage)
    {
      if usage != 0 {
        var r :| r in readers && r.bufpos == usage;
        assert r in View().readers && View().readers[r].bufpos == usage;
      }
    }

    /** The hooks of the readers `done` have run, `kept` are those they keep, and `usage` is the highest
        position of these. */
    ghost predicate Handled(done: seq<BurstReader>, kept: seq<BurstReader>, usage: int,
                            outcomes: map<BurstReader, Option<Reader>>)
      reads done
    {
      && Distinct(kept) && (forall r | r in kept :: r in done)
      && (forall r | r in done :: r in outcomes && outcomes[r] == if r in kept then Some(r.State()) else None)
      && usage >= 0 && (forall r | r in kept :: r.bufpos <= usage)
      && (usage == 0 || exists r | r in kept :: r.bufpos == usage)
    }

    lemma HandledOneMore(done: seq<BurstReader>, kept: seq<BurstReader>, usage: int,
                         outcomes: map<BurstReader, Option<Reader>>, reader: BurstReader, keep: bool)
      requires Handled(done, kept, usage, outcomes) && reader !in done
      requires reader in outcomes && outcomes[reader] == if keep then Some(reader.State()) else None
      ensures Handled(done + [reader], if keep then kept + [reader] else kept,
                      if keep then Max(usage, reader.bufpos) else usage, outcomes)
    {
      if keep && usage != 0 {
        var r :| r in kept && r.bufpos == usage;
        assert r in kept + [reader];
      }
    }

    /** Runs the hook of every reader and drops those it removes; the result is the highest position
        left. `outcomes` is what is to become of each reader. */
    method RunHooks(softMax: int, hardMax: int, now: int, ghost outcomes: map<BurstReader, Option<Reader>>)
      returns (usage: int)
      requires Distinct(readers)
      requires softMax == SoftBuffers(bufqueue, Cfg()) && hardMax == HardBuffers(bufqueue, Cfg())
      requires Foreseen(outcomes, now)
      modifies this`readers, readers
      ensures Distinct(readers) && (forall r | r in readers :: r in old(readers))
      ensures forall r | r in old(readers) :: outcomes[r] == if r in readers then Some(r.State()) else None
      ensures usage >= 0 && (forall r | r in readers :: r.bufpos <= usage)
      ensures usage == 0 || exists r | r in readers :: r.bufpos == usage
    {
      var kept;
      kept, usage := HookAll(readers, softMax, hardMax, now, outcomes);
      readers := kept;
    }

    method HookAll(all: seq<BurstReader>, softMax: int, hardMax: int, now: int,
                   ghost outcomes: map<BurstReader, Option<Reader>>)
      returns (kept: seq<BurstReader>, usage: int)
      requires Distinct(all) && forall j | 0 <= j < |all| :: Due(all[j], outcomes, now)
      requires softMax == SoftBuffers(bufqueue, Cfg()) && hardMax == HardBuffers(bufqueue, Cfg())
      modifies all
      ensures Handled(all, kept, usage, outcomes)
    {
      kept, usage := [], 0;
      var i := 0;
      while i < |all|
        invariant 0 <= i <= |all|
        invariant forall j | i <= j < |all| :: Due(all[j], outcomes, now)
        invariant Handled(all[..i], kept, usage, outcomes)
      {
        kept, usage := RunHook(all, i, kept, usage, softMax, hardMax, now, outcomes);
        i := i + 1;
      }
      assert all[..i] == all;
    }

    method RunHook(all: seq<BurstReader>, i: nat, kept: seq<BurstReader>, usage: int,
                   softMax: int, hardMax: int, now: int, ghost outcomes: map<BurstReader, Option<Reader>>)
      returns (kept': seq<BurstReader>, usage': int)
      requires Distinct(all) && i < |all| && Handled(all[..i], kept, usage, outcomes)
      requires softMax == SoftBuffers(bufqueue, Cfg()) && hardMax == HardBuffers(bufqueue, Cfg())
      requires Due(all[i], outcomes, now)
      modifies all[i]
      ensures Handled(all[..i + 1], kept', usage', outcomes)
    {
      var reader := all[i];
      assert reader !in all[..i] && all[..i + 1] == all[..i] + [reader];
      var keep;
      keep, usage' := QueueHook(reader, softMax, hardMax, now, usage, outcomes[reader]);
      HandledOneMore(all[..i], kept, usage, outcomes, reader, keep);
      kept' := if keep then kept + [reader] else kept;
    }

    /** Queues a buffer: newest first, then every reader moves, and what nobody needs is dropped. */
    method QueueBuffer(buffer: Buffer, now: int)
      requires Valid()
      modifies this, readers
      ensures Valid() && (forall r | r in readers :: r in old(readers))
      ensures Next(old(View()), Queued(buffer, now), View())
    {
      ghost var s := View();
      HooksCanRun(s, buffer);
      InsertAndMove(buffer, now, s);
      QueueKeepsInv(s, View(), buffer, now);
    }

    method InsertAndMove(buffer: Buffer, now: int, ghost s: Cache<BurstReader>)
      requires Distinct(readers) && s == View() && CanQueue(s, buffer)
      modifies this, readers
      ensures Distinct(readers) && (forall r | r in readers :: r in old(readers))
      ensures QueueStep(s, View(), buffer, now)
    {
      bufqueue := [buffer] + bufqueue;
      log := log + [buffer];
      assert View() == s.(queue := Pushed(s, buffer), log := s.log + [buffer]);
      var softMax, usage := MoveReaders(buffer, now, s);
      DropUnneeded(softMax, usage);
      QueueStepFrom(s, View(), buffer, now, usage);
    }

    /** Updates all reader positions for the buffer just inserted. */
    method MoveReaders(buffer: Buffer, now: int, ghost s: Cache<BurstReader>) returns (softMax: int, usage: int)
      requires Distinct(readers) && CanQueue(s, buffer)
      requires View() == s.(queue := Pushed(s, buffer), log := s.log + [buffer])
      modifies this`readers, readers
      ensures Distinct(readers) && (forall r | r in readers :: r in old(readers))
      ensures View() == old(View()).(readers := View().readers)
      ensures Survive(View().readers, Outcomes(s, buffer, now)) && IsTop(View().readers, usage)
      ensures softMax == SoftBuffers(bufqueue, Cfg())
    {
      var hardMax;
      softMax, hardMax := LagLimits();
      ghost var outcomes := Outcomes(s, buffer, now);
      OutcomesForeseen(s, buffer, now);
      assert forall r :: r in outcomes <==> r in View().readers;
      usage := RunHooks(softMax, hardMax, now, outcomes);
      ReadersLeft(outcomes, usage);
    }

    method LagLimits() returns (softMax: int, hardMax: int)
      ensures softMax == SoftBuffers(bufqueue, Cfg()) && hardMax == HardBuffers(bufqueue, Cfg())
    {
      hardMax := -1;
      if limitMax > 0 {
        hardMax := GetBuffersMax(limitFormat, limitMax);
      }
      softMax := -1;
      if limitSoftMax > 0 {
        softMax := GetBuffersMax(limitFormat, limitSoftMax);
      }
    }

    /** Trims the queue to what the readers, the minima and the newest keyframe need. */
    method DropUnneeded(softMax: int, top: int)
      requires |bufqueue| > 0 && top >= 0 && softMax == SoftBuffers(bufqueue, Cfg())
      modifies this`bufqueue, this`buffersQueued
      ensures View() == old(View()).(queue := Trimmed(old(bufqueue), Cfg(), top))
      ensures buffersQueued == Usage(old(bufqueue), Cfg(), top)
    {
      var usage := ExtendUsage(softMax, top);
      Trim(usage);
      buffersQueued := usage;
    }

    /** Extends the usage of the readers to respect the minima, and then to the newest keyframe. */
    method ExtendUsage(softMax: int, top: int) returns (usage: int)
      requires |bufqueue| > 0 && top >= 0 && softMax == SoftBuffers(bufqueue, Cfg())
      ensures usage == Usage(bufqueue, Cfg(), top)
    {
      var minIdx, maxIdx, ok := FindLimits(Limits(bytesMin, buffersMin, timeMin, -1, -1));
      usage := Max(top, minIdx + 1);
      var limit := |bufqueue|;
      if softMax > 0 {
        limit := Min(limit, softMax);
      }
      usage := ExtendToKeyframe(usage, limit);
    }

    method ExtendToKeyframe(usage: int, limit: int) returns (usage': int)
      requires limit <= |bufqueue|
      ensures usage' == if 0 <= NextKey(bufqueue, 0) < limit then Max(usage, NextKey(bufqueue, 0)) else usage
    {
      usage' := usage;
      var i := 0;
      while i < limit
        invariant 0 <= i
        invariant usage' == usage && NextKey(bufqueue, i) == NextKey(bufqueue, 0)
      {
        if IsKeyframe(bufqueue[i]) {
          usage' := Max(usage', i);
          break;
        }
        i := i + 1;
      }
    }

    method Trim(usage: int)
      requires usage >= 0
      modifies this`bufqueue
      ensures bufqueue == old(bufqueue)[..Min(|old(bufqueue)|, usage + 1)]
    {
      var i := |bufqueue| - 1;
      while i > usage
        invariant i == |bufqueue| - 1
        invariant i < usage ==> bufqueue == old(bufqueue)
        invariant |bufqueue| <= |old(bufqueue)| && bufqueue == old(bufqueue)[..|bufqueue|]
        invariant i >= Min(|old(bufqueue)| - 1, usage)
      {
        bufqueue := bufqueue[..i];
        i := i - 1;
      }
    }
  }

  /** Assigns a value to the variable of its unit; the others stay unset. */
  method AssignValue(format: Format, value: nat) returns (bytes: int, buffers: int, time: int)
    ensures bytes == if format == Bytes then ToInt32(value) else -1
    ensures buffers == if format == Buffers then ToInt32(value) else -1
    ensures time == if format == Time then ToInt64(value) else -1
  {
    bytes, buffers, time := -1, -1, -1;
    match format {
      case Buffers => buffers := ToInt32(value);
      case Time => time := ToInt64(value);
      case Bytes => bytes := ToInt32(value);
      case _ =>
    }
  }
}
