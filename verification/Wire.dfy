/** One direction of a connection over time: messages written into the sender's buffer, flushed, arriving in
    chunks in the receiver's buffer, and taken out of it. */
module Wire {
  import opened Framing

  /** `written` and `received` are history. The bytes are where the methods of a connection buffer put them:
      `out` is the sender's contents, `pending` the socket's, `unread` the receiver's. */
  datatype State = State(written: seq<Message>, out: seq<byte>, pending: seq<byte>, unread: seq<byte>,
                         received: seq<Message>)

  datatype Event =
    | Wrote(m: Message)
    | Flushed(sent: nat)     // the system accepts that many bytes
    | Arrived(n: nat)        // that many bytes are read in one go
    | Taken                  // the next message

  predicate Next(s: State, e: Event, s': State) {
    match e
    case Wrote(m) => Fits(m) && s' == s.(written := s.written + [m], out := s.out + Frame(m))
    case Flushed(sent) =>
      sent <= |s.out| && s' == s.(pending := s.pending + s.out[..sent], out := s.out[..|s.out| - sent])
    case Arrived(n) =>
      0 < n <= |s.pending| && s' == s.(unread := s.unread + s.pending[..n], pending := s.pending[n..])
    case Taken =>
      HasMessage(s.unread) &&
      s' == s.(received := s.received + [FirstMessage(s.unread)], unread := s.unread[8 + SizeOf(s.unread)..])
  }

  const IDLE := State([], [], [], [], [])

  ghost predicate Run(ss: seq<State>, es: seq<Event>) {
    |ss| == |es| + 1 && ss[0] == IDLE && forall i | 0 <= i < |es| :: Next(ss[i], es[i], ss[i + 1])
  }

  /** The flush sends all there is. */
  predicate Complete(s: State, e: Event) {
    e.Flushed? ==> e.sent == |s.out|
  }

  function Stream(s: State): seq<byte> {
    s.unread + (s.pending + s.out)
  }

  /** Nothing is lost, added or reordered: what was written is what was received and what the stream holds. */
  predicate Intact(s: State) {
    Framed(Stream(s)) && s.received + Decode(Stream(s)) == s.written
  }

  /** A whole message in front, and a stream behind what follows it. */
  lemma DecodeCons(s: seq<byte>, more: seq<byte>)
    requires HasMessage(s) && Framed(s[8 + SizeOf(s)..] + more)
    ensures Framed(s + more) && Decode(s + more) == [FirstMessage(s)] + Decode(s[8 + SizeOf(s)..] + more)
  {
    MessageInPrefix(s, more);
    DropFront(s, more, 8 + SizeOf(s));
  }

  lemma {:induction false} DecodeAppends(s: seq<byte>, m: Message)
    requires Framed(s) && Fits(m)
    ensures Framed(s + Frame(m)) && Decode(s + Frame(m)) == Decode(s) + [m]
    decreases |s|
  {
    if s == [] {
      DecodeStep(m, []);
      assert s + Frame(m) == Frame(m) + [];
    } else {
      var rest := s[8 + SizeOf(s)..];
      DecodeAppends(rest, m);
      DecodeCons(s, Frame(m));
      assert Decode(s) == [FirstMessage(s)] + Decode(rest);
      assert [FirstMessage(s)] + (Decode(rest) + [m]) == [FirstMessage(s)] + Decode(rest) + [m];
    }
  }

  lemma WroteKeeps(s: State, m: Message, s': State)
    requires Intact(s) && Next(s, Wrote(m), s')
    ensures Intact(s')
  {
    DecodeAppends(Stream(s), m);
    assert Stream(s') == Stream(s) + Frame(m);
  }

  lemma DecodeTakes(unread: seq<byte>, rest: seq<byte>)
    requires HasMessage(unread) && Framed(unread + rest)
    ensures var left := unread[8 + SizeOf(unread)..] + rest;
            Framed(left) && Decode(unread + rest) == [FirstMessage(unread)] + Decode(left)
  {
    MessageInPrefix(unread, rest);
    DropFront(unread, rest, 8 + SizeOf(unread));
  }

  lemma TakenKeeps(s: State, s': State)
    requires Intact(s) && Next(s, Taken, s')
    ensures Intact(s')
  {
    DecodeTakes(s.unread, s.pending + s.out);
    Regroup(s.received, FirstMessage(s.unread), Decode(Stream(s')));
  }

  /** Flushing everything, and arriving, only move the boundaries within the stream. */
  lemma BytesMove(s: State, e: Event, s': State)
    requires Next(s, e, s') && Complete(s, e) && (e.Flushed? || e.Arrived?)
    ensures Stream(s') == Stream(s) && s'.received == s.received && s'.written == s.written
  {
    if e.Flushed? {
      assert s.out[..e.sent] == s.out && s'.out == [];
    } else {
      assert s.pending == s.pending[..e.n] + s.pending[e.n..];
    }
  }

  lemma StepKeepsIntact(s: State, e: Event, s': State)
    requires Intact(s) && Next(s, e, s') && Complete(s, e)
    ensures Intact(s')
  {
    match e
    case Wrote(m) => WroteKeeps(s, m, s');
    case Flushed(_) => BytesMove(s, e, s');
    case Arrived(_) => BytesMove(s, e, s');
    case Taken => TakenKeeps(s, s');
  }

  /** Messages are delivered. Over every run whose flushes are complete, what was received is a prefix of what
      was written; once nothing is on the way it is all of it; and as long as there is something more, a
      message is at hand or bytes are still to be flushed or to arrive. */
  lemma {:induction false} Delivered(ss: seq<State>, es: seq<Event>, i: nat)
    requires Run(ss, es) && i < |ss| && forall j | 0 <= j < i :: Complete(ss[j], es[j])
    ensures Intact(ss[i]) && ss[i].received <= ss[i].written
    ensures Stream(ss[i]) == [] <==> ss[i].received == ss[i].written
    ensures Stream(ss[i]) == [] || HasMessage(ss[i].unread) || ss[i].pending != [] || ss[i].out != []
    decreases i
  {
    if i > 0 {
      Delivered(ss, es, i - 1);
      StepKeepsIntact(ss[i - 1], es[i - 1], ss[i]);
    }
    var s := ss[i];
    if Stream(s) != [] {
      assert |Decode(Stream(s))| > 0;
      if s.pending == [] && s.out == [] {
        assert Stream(s) == s.unread;
      }
    }
  }

  // ---------- a flush cut short ----------

  const SHORT := Message(1, 0, [])

  lemma Extended(ss: seq<State>, es: seq<Event>, e: Event, s: State)
    requires Run(ss, es) && Next(ss[|es|], e, s)
    ensures Run(ss + [s], es + [e])
  {
  }

  lemma ShortFrame()
    ensures Frame(SHORT) == [1, 0, 0, 0, 0, 0, 0, 0]
    ensures !HasMessage([1, 0, 0, 0, 1, 0, 0, 0])
  {
    assert Bytes(1, 4) == [1, 0, 0, 0] && Bytes(0, 4) == [0, 0, 0, 0];
    var s: seq<byte> := [1, 0, 0, 0, 1, 0, 0, 0];
    assert s[4..8] == Bytes(1, 4);
    WordRoundTrip(1);
  }

  /** A run in which the flush of one message is cut short after its first half: that half is sent twice. */
  lemma FirstHalfTwice(m: Message, a: seq<byte>, b: seq<byte>) returns (ss: seq<State>, es: seq<Event>)
    requires Fits(m) && Frame(m) == a + b && |a| == |b|
    ensures Run(ss, es) && es == [Wrote(m), Flushed(|a|), Flushed(|a|), Arrived(2 * |a|)]
    ensures ss[4] == State([m], [], [], a + a, [])
  {
    var n := |a|;
    var s1, s2 := State([m], Frame(m), [], [], []), State([m], a, a, [], []);
    var s3, s4 := State([m], [], a + a, [], []), State([m], [], [], a + a, []);
    ss, es := [IDLE], [];
    Extended(ss, es, Wrote(m), s1);
    ss, es := ss + [s1], es + [Wrote(m)];
    assert s1.out[..n] == a && [] + a == a;
    Extended(ss, es, Flushed(n), s2);
    ss, es := ss + [s2], es + [Flushed(n)];
    assert s2.out[..n] == a && s2.out[..0] == [];
    Extended(ss, es, Flushed(n), s3);
    ss, es := ss + [s3], es + [Flushed(n)];
    assert s3.pending[..2 * n] == a + a && [] + (a + a) == a + a && s3.pending[2 * n..] == [];
    Extended(ss, es, Arrived(2 * n), s4);
    ss, es := ss + [s4], es + [Arrived(2 * n)];
  }

  /** So a flush that is cut short in the middle of a header leaves the receiver with all the bytes that
      will ever come and no message in them. */
  lemma PartialFlushLoses() returns (ss: seq<State>, es: seq<Event>)
    ensures Run(ss, es) && |es| == 4 && es[1] == Flushed(4) && |ss[1].out| == 8
    ensures var s := ss[4]; s.written == [SHORT] && s.received == [] && s.out == s.pending == []
                            && !HasMessage(s.unread)
  {
    ShortFrame();
    var a: seq<byte>, b: seq<byte> := [1, 0, 0, 0], [0, 0, 0, 0];
    assert Frame(SHORT) == a + b;
    ss, es := FirstHalfTwice(SHORT, a, b);
    assert Next(ss[0], es[0], ss[1]);
    assert a + a == [1, 0, 0, 0, 1, 0, 0, 0];
  }
}
