/** The type-id protocol: a sender numbers its types as it meets them, and before every message tells
    the receiver the names of the numbers it has not told yet. */
module TypeProtocol {
  import opened Prelude
  import opened IdMaps
  import opened TypeMapper
  import opened Pods
  import opened PodRemap

  datatype Msg = UpdateTypes(first: nat, names: seq<string>) | Data(pod: Pod)

  /** One direction of a connection. `told` is how many types the sender has announced, `table` the
      receiver's own id for each number of the sender's. */
  datatype Link = Link(sender: seq<string>, told: nat, channel: seq<Msg>, receiver: seq<string>, table: seq<word>)

  // ---------- what the program does ----------

  /** The message that announces what is missing, if anything is. */
  function Announcement(sender: seq<string>, told: nat): seq<Msg>
    requires told <= |sender|
  {
    if |sender| == told then [] else [UpdateTypes(told, sender[told..])]
  }

  /** Storing one entry: overwriting, appending, or refused beyond the end. */
  function Stored(table: seq<word>, at: nat, id: word): seq<word> {
    if at < |table| then table[at := id] else if at == |table| then table + [id] else table
  }

  predicate Room(receiver: seq<string>, names: seq<string>) {
    |receiver| + |names| <= 0x8000_0000
  }

  /** The receiver's names after the first k names of an announcement. */
  function Learned(receiver: seq<string>, names: seq<string>, k: nat): (r: seq<string>)
    requires k <= |names|
    ensures |r| <= |receiver| + k && (k > 0 ==> names[k - 1] in r)
  {
    if k == 0 then receiver else Intern(Learned(receiver, names, k - 1), names[k - 1])
  }

  /** The receiver's table after the first k names of an announcement. */
  function Translated(receiver: seq<string>, table: seq<word>, first: nat, names: seq<string>, k: nat): seq<word>
    requires k <= |names| && Room(receiver, names)
  {
    if k == 0 then table
    else
      Stored(Translated(receiver, table, first, names, k - 1), first + k - 1,
             IdOf(Learned(receiver, names, k), names[k - 1]))
  }

  datatype Event = SenderMeets(name: string) | ReceiverMeets(name: string) | Send(pod: Pod) | Deliver

  predicate Next(s: Link, e: Event, s': Link) {
    match e
    case SenderMeets(name) => s' == s.(sender := Intern(s.sender, name))
    case ReceiverMeets(name) => s' == s.(receiver := Intern(s.receiver, name))
    case Send(pod) =>
      && s.told <= |s.sender| && WellFormed(pod)
      && (forall id | id in TypeIds(pod) :: id < |s.sender|)
      && s' == s.(channel := s.channel + Announcement(s.sender, s.told) + [Data(pod)], told := |s.sender|)
    case Deliver =>
      && s.channel != []
      && match s.channel[0]
         case Data(pod) => s' == s.(channel := s.channel[1..])
         case UpdateTypes(first, names) =>
           Room(s.receiver, names) &&
           s' == s.(channel := s.channel[1..], receiver := Learned(s.receiver, names, |names|),
                    table := Translated(s.receiver, s.table, first, names, |names|))
  }

  predicate Init(s: Link) {
    s.told == 0 && s.channel == [] && s.table == [] && DistinctNames(s.sender) && DistinctNames(s.receiver)
  }

  ghost predicate Run(ss: seq<Link>, es: seq<Event>) {
    |ss| == |es| + 1 && Init(ss[0]) && forall i | 0 <= i < |es| :: Next(ss[i], es[i], ss[i + 1])
  }

  // ---------- what holds in every state ----------

  /** Reading the channel in order from a table of n entries: announcements continue it with the
      sender's names, messages stay within it, and the last entry is the last type told. */
  predicate Covers(sender: seq<string>, n: nat, channel: seq<Msg>, told: nat)
    decreases |channel|
  {
    if channel == [] then n == told
    else
      match channel[0]
      case UpdateTypes(first, names) =>
        && first == n && n + |names| <= |sender| && names == sender[n..n + |names|]
        && Covers(sender, n + |names|, channel[1..], told)
      case Data(pod) =>
        && WellFormed(pod) && (forall id | id in TypeIds(pod) :: id < n)
        && Covers(sender, n, channel[1..], told)
  }

  predicate Inv(s: Link) {
    && DistinctNames(s.sender) && DistinctNames(s.receiver)
    && s.told <= |s.sender|
    && Covers(s.sender, |s.table|, s.channel, s.told)
    && Translates(s.table, s.sender, s.receiver)
  }

  lemma {:induction false} CoversLonger(sender: seq<string>, more: seq<string>, n: nat, channel: seq<Msg>, told: nat)
    requires Covers(sender, n, channel, told) && sender <= more
    ensures Covers(more, n, channel, told)
    decreases |channel|
  {
    if channel != [] {
      match channel[0]
      case UpdateTypes(first, names) =>
        assert more[n..n + |names|] == sender[n..n + |names|];
        CoversLonger(sender, more, n + |names|, channel[1..], told);
      case Data(pod) => CoversLonger(sender, more, n, channel[1..], told);
    }
  }

  lemma {:induction false} CoversSend(sender: seq<string>, n: nat, channel: seq<Msg>, told: nat, pod: Pod)
    requires Covers(sender, n, channel, told) && told <= |sender|
    requires WellFormed(pod) && forall id | id in TypeIds(pod) :: id < |sender|
    ensures Covers(sender, n, channel + Announcement(sender, told) + [Data(pod)], |sender|)
    decreases |channel|
  {
    var more := Announcement(sender, told) + [Data(pod)];
    assert channel + Announcement(sender, told) + [Data(pod)] == channel + more;
    if channel == [] {
      assert channel + more == more;
      assert Covers(sender, |sender|, [Data(pod)], |sender|) by {
        assert [Data(pod)][1..] == [];
      }
      if told < |sender| {
        assert more[1..] == [Data(pod)];
      }
    } else {
      assert (channel + more)[1..] == channel[1..] + more;
      assert channel[1..] + Announcement(sender, told) + [Data(pod)] == channel[1..] + more;
      match channel[0]
      case UpdateTypes(_, names) => CoversSend(sender, n + |names|, channel[1..], told, pod);
      case Data(_) => CoversSend(sender, n, channel[1..], told, pod);
    }
  }

  lemma {:induction false} LearnedDistinct(receiver: seq<string>, names: seq<string>, k: nat)
    requires k <= |names| && DistinctNames(receiver)
    ensures DistinctNames(Learned(receiver, names, k))
  {
    if k > 0 {
      LearnedDistinct(receiver, names, k - 1);
      InternKeeps(Learned(receiver, names, k - 1), names[k - 1]);
    }
  }

  /** An announcement that continues the table extends it entry by entry, each with the receiver's
      own id for the name. */
  lemma {:induction false} AnnouncementTranslates(sender: seq<string>, receiver: seq<string>, table: seq<word>,
                                                  names: seq<string>, k: nat)
    requires k <= |names| && Room(receiver, names)
    requires |table| + |names| <= |sender| && names == sender[|table|..|table| + |names|]
    requires Translates(table, sender, receiver)
    ensures |Translated(receiver, table, |table|, names, k)| == |table| + k
    ensures Translates(Translated(receiver, table, |table|, names, k), sender, Learned(receiver, names, k))
  {
    if k > 0 {
      AnnouncementTranslates(sender, receiver, table, names, k - 1);
      EntryTranslates(sender, Learned(receiver, names, k - 1), Translated(receiver, table, |table|, names, k - 1),
                      names[k - 1]);
    }
  }

  /** One more entry, at the end of the table: the receiver's own id for the sender's next name. */
  lemma EntryTranslates(sender: seq<string>, receiver: seq<string>, table: seq<word>, name: string)
    requires |receiver| < 0x8000_0000
    requires Translates(table, sender, receiver) && |table| < |sender| && name == sender[|table|]
    ensures var receiver' := Intern(receiver, name); var table' := Stored(table, |table|, IdOf(receiver', name));
            |table'| == |table| + 1 && Translates(table', sender, receiver')
  {
  }

  lemma StepKeepsInv(s: Link, e: Event, s': Link)
    requires Inv(s) && Next(s, e, s')
    ensures Inv(s')
  {
    match e
    case SenderMeets(name) =>
      InternKeeps(s.sender, name);
      CoversLonger(s.sender, s'.sender, |s.table|, s.channel, s.told);
    case ReceiverMeets(name) => InternKeeps(s.receiver, name);
    case Send(pod) => CoversSend(s.sender, |s.table|, s.channel, s.told, pod);
    case Deliver => DeliverKeepsInv(s, s');
  }

  lemma DeliverKeepsInv(s: Link, s': Link)
    requires Inv(s) && Next(s, Deliver, s')
    ensures Inv(s')
  {
    if s.channel[0].UpdateTypes? {
      var names := s.channel[0].names;
      CoversAnnouncement(s.sender, |s.table|, s.channel, s.told);
      LearnedDistinct(s.receiver, names, |names|);
      AnnouncementTranslates(s.sender, s.receiver, s.table, names, |names|);
    }
  }

  lemma CoversAnnouncement(sender: seq<string>, n: nat, channel: seq<Msg>, told: nat)
    requires Covers(sender, n, channel, told) && channel != [] && channel[0].UpdateTypes?
    ensures var first, names := channel[0].first, channel[0].names;
            && first == n && n + |names| <= |sender| && names == sender[n..n + |names|]
            && Covers(sender, n + |names|, channel[1..], told)
  {
  }

  lemma {:induction false} Reachable(ss: seq<Link>, es: seq<Event>, i: nat)
    requires Run(ss, es) && i < |ss|
    ensures Inv(ss[i])
    decreases i
  {
    if i > 0 {
      Reachable(ss, es, i - 1);
      StepKeepsInv(ss[i - 1], es[i - 1], ss[i]);
    }
  }

  lemma IdIsIndex(names: seq<string>, i: nat)
    requires DistinctNames(names) && i < |names|
    ensures IdOf(names, names[i]) == i
  {
    var j := IdOf(names, names[i]);
    assert names[j] == names[i];
  }

  /** Type table coverage. Over every run, when a message is about to be read, every type id it
      carries has an entry in the receiver's table, and the entry is the receiver's own id for the
      name the sender gave that number. */
  lemma TableCoversMessage(ss: seq<Link>, es: seq<Event>, i: nat)
    requires Run(ss, es) && i < |ss| && ss[i].channel != [] && ss[i].channel[0].Data?
    ensures var s, pod := ss[i], ss[i].channel[0].pod;
            forall id | id in TypeIds(pod) ::
              && id < |s.table| && id < |s.sender|
              && s.sender[id] in s.receiver && s.table[id] == IdOf(s.receiver, s.sender[id])
  {
    Reachable(ss, es, i);
    var s, pod := ss[i], ss[i].channel[0].pod;
    forall id | id in TypeIds(pod)
      ensures id < |s.table| && s.sender[id] in s.receiver && s.table[id] == IdOf(s.receiver, s.sender[id])
    {
      IdIsIndex(s.receiver, s.table[id]);
    }
  }

  /** Which messages are readable, exactly: those in which no translated id uses the name the receiver
      interned first, whose id 0 reads as no entry. In what is readable every translated id means on the
      receiving side what it meant to the sender; the message as a whole does exactly if the ids passed
      over happen to. */
  lemma MessageMeaning(ss: seq<Link>, es: seq<Event>, i: nat)
    requires Run(ss, es) && i < |ss| && ss[i].channel != [] && ss[i].channel[0].Data?
    ensures var s, pod := ss[i], ss[i].channel[0].pod; var r := Remapped(s.table, pod);
            && WellFormed(pod)
            && (AllKnown(s.table, TypeIds(pod))
                <==> forall id | id in TypeIds(pod) ::
                       id < |s.sender| && |s.receiver| > 0 && s.sender[id] != s.receiver[0])
            && (AllKnown(s.table, TypeIds(pod)) ==>
                  && SameNames(TypeIds(pod), s.sender, TypeIds(r), s.receiver)
                  && (SameNames(TypeIds(pod) + SkippedIds(pod), s.sender, TypeIds(r) + SkippedIds(r), s.receiver)
                      <==> SameNames(SkippedIds(pod), s.sender, SkippedIds(pod), s.receiver)))
  {
    Reachable(ss, es, i);
    TableCoversMessage(ss, es, i);
    var s, pod := ss[i], ss[i].channel[0].pod;
    assert WellFormed(pod);
    if AllKnown(s.table, TypeIds(pod)) {
      RemapKeepsMeaning(s.table, s.sender, s.receiver, pod);
    }
  }

  /** An array of one id, padded. */
  function ArrayOfId(id: word): Pod {
    Other(T_ARRAY, 12, [4, T_ID, id, 0])
  }

  lemma ArrayIsSkipped(id: word)
    ensures WellFormed(ArrayOfId(id)) && TypeIds(ArrayOfId(id)) == [] && SkippedIds(ArrayOfId(id)) == [id]
  {
    var w: seq<word> := [4, T_ID, id];
    assert UpTo([4, T_ID, id, 0], 3) == w && w[2..] == [id];
    HeldByIdValues([id]);
  }

  lemma LearnsOne(known: string, name: string)
    requires known != name
    ensures Learned([known], [name], 1) == [known, name]
    ensures Translated([known], [], 0, [name], 1) == [1]
  {
    assert Learned([known], [name], 0) == [known];
    assert [known, name][1..] == [name];
    assert IdOf([known, name], name) == 1;
  }

  lemma ArraySent(a: string, b: string, pod: Pod)
    requires WellFormed(pod) && TypeIds(pod) == []
    ensures Next(Link([a], 0, [], [b], []), Send(pod), Link([a], 1, [UpdateTypes(0, [a]), Data(pod)], [b], []))
  {
    assert Announcement([a], 0) == [UpdateTypes(0, [a])];
  }

  lemma ArrayAnnounced(a: string, b: string, pod: Pod)
    requires a != b
    ensures Next(Link([a], 1, [UpdateTypes(0, [a]), Data(pod)], [b], []), Deliver,
                 Link([a], 1, [Data(pod)], [b, a], [1]))
  {
    LearnsOne(b, a);
    var channel := [UpdateTypes(0, [a]), Data(pod)];
    assert channel[1..] == [Data(pod)];
  }

  lemma Extended(ss: seq<Link>, es: seq<Event>, e: Event, s: Link)
    requires Run(ss, es) && Next(ss[|es|], e, s)
    ensures Run(ss + [s], es + [e])
  {
  }

  lemma TwoNamesMet(a: string, b: string) returns (ss: seq<Link>, es: seq<Event>)
    ensures Run(ss, es) && |es| == 2 && ss[2] == Link([a], 0, [], [b], [])
  {
    var s0, s1, s2 := Link([], 0, [], [], []), Link([a], 0, [], [], []), Link([a], 0, [], [b], []);
    Extended([s0], [], SenderMeets(a), s1);
    Extended([s0] + [s1], [] + [SenderMeets(a)], ReceiverMeets(b), s2);
    ss, es := [s0] + [s1] + [s2], [] + [SenderMeets(a)] + [ReceiverMeets(b)];
  }

  /** A run in which an id in an array names one thing to the sender and another to the receiver: each has
      interned one name of its own before the array is sent. */
  lemma ArrayMisread(a: string, b: string) returns (ss: seq<Link>, es: seq<Event>)
    requires a != b
    ensures Run(ss, es) && |es| == 4
    ensures ss[4] == Link([a], 1, [Data(ArrayOfId(0))], [b, a], [1])
    ensures TypeIds(ArrayOfId(0)) == [] && SkippedIds(Remapped([1], ArrayOfId(0))) == [0]
    ensures !SameNames([0], [a], [0], [b, a])
  {
    var pod := ArrayOfId(0);
    ArrayIsSkipped(0);
    ss, es := TwoNamesMet(a, b);
    ArraySent(a, b, pod);
    var s3, s4 := Link([a], 1, [UpdateTypes(0, [a]), Data(pod)], [b], []), Link([a], 1, [Data(pod)], [b, a], [1]);
    Extended(ss, es, Send(pod), s3);
    ss, es := ss + [s3], es + [Send(pod)];
    ArrayAnnounced(a, b, pod);
    Extended(ss, es, Deliver, s4);
    ss, es := ss + [s4], es + [Deliver];
    NamesDiffer(a, b);
  }

  lemma NamesDiffer(a: string, b: string)
    requires a != b
    ensures !SameNames([0], [a], [0], [b, a])
  {
    var ids: seq<word> := [0];
    assert ids[0] == 0 && [a][0] != [b, a][0];
  }
}
