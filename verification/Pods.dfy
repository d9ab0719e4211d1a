/** Serialised values ("PODs") as trees, and as the 32-bit words they are laid out in.

    A POD is its body size in bytes, its type, and its body, padded to 8 bytes. Type ids occur as values,
    as property keys, as object types, as pointer types, and inside arrays and the values of properties. */
module Pods {
  import opened Prelude

  type word = x: int | 0 <= x < 0x1_0000_0000

  const T_ID: word := 3
  const T_POINTER: word := 10
  const T_ARRAY: word := 14
  const T_STRUCT: word := 15
  const T_OBJECT: word := 16
  const T_PROP: word := 17

  /** Properties whose values are ids are told apart, since only those values are translated. The values of
      any other property, and the bodies of arrays and plain values, are words. */
  datatype Pod =
    | Id(value: word, pad: word)
    | IdProp(key: word, flags: word, values: seq<word>, ppad: word)
    | OtherProp(key: word, flags: word, vsize: word, vtype: word, tail: seq<word>, tailBytes: nat)
    | Object(id: word, otype: word, props: PodList)
    | Struct(kids: PodList)
    | Other(ptype: word, bytes: nat, words: seq<word>)

  datatype PodList = Nil | Cons(head: Pod, rest: PodList)

  /** The words that a body of n bytes occupies, padded to 8 bytes. */
  function WordsFor(n: nat): nat {
    (n + 7) / 8 * 2
  }

  /** An even number of words that holds n bytes and less than 8 more. */
  predicate Pads(words: nat, n: nat) {
    words % 2 == 0 && n <= 4 * words < n + 8
  }

  lemma WordsForPads(n: nat)
    ensures Pads(WordsFor(n), n)
    ensures forall w: nat | Pads(w, n) :: w == WordsFor(n)
  {
    var k := (n + 7) / 8;
    assert 8 * k <= n + 7 < 8 * k + 8;
    forall w: nat | Pads(w, n) ensures w == 2 * k {
      assert w == 2 * (w / 2);
    }
  }

  function Padding(n: nat, pad: word): seq<word> {
    if n % 2 == 0 then [] else [pad]
  }

  function Type(p: Pod): word {
    match p
    case Id(_, _) => T_ID
    case IdProp(_, _, _, _) => T_PROP
    case OtherProp(_, _, _, _, _, _) => T_PROP
    case Object(_, _, _) => T_OBJECT
    case Struct(_) => T_STRUCT
    case Other(t, _, _) => t
  }

  /** Size of the body in bytes, without the padding that follows it. */
  function Size(p: Pod): nat {
    match p
    case Id(_, _) => 4
    case IdProp(_, _, values, _) => 16 + 4 * |values|
    case OtherProp(_, _, _, _, _, n) => 16 + n
    case Object(_, _, props) => 8 + 4 * |ListWords(props)|
    case Struct(kids) => 4 * |ListWords(kids)|
    case Other(_, n, _) => n
  }

  function Body(p: Pod): seq<word> {
    match p
    case Id(v, pad) => [v, pad]
    case IdProp(key, flags, values, pad) => [key, flags, 4, T_ID] + values + Padding(|values|, pad)
    case OtherProp(key, flags, vsize, vtype, tail, _) => [key, flags, vsize, vtype] + tail
    case Object(id, otype, props) => [id, otype] + ListWords(props)
    case Struct(kids) => ListWords(kids)
    case Other(_, _, words) => words
  }

  function ListWords(ps: PodList): seq<word> {
    match ps
    case Nil => []
    case Cons(p, rest) => [Size(p) % 0x1_0000_0000, Type(p)] + Body(p) + ListWords(rest)
  }

  /** What the builder guarantees of what it writes. */
  predicate WellFormed(p: Pod) {
    && Size(p) < 0x1_0000_0000
    && match p
       case IdProp(_, _, values, pad) => |values| >= 1 && (|values| % 2 == 0 ==> pad == 0)
       case OtherProp(_, _, _, vtype, tail, n) => vtype != T_ID && Pads(|tail|, n)
       case Object(_, _, props) => WellFormedList(props)
       case Struct(kids) => WellFormedList(kids)
       case Other(t, n, words) => t !in {T_ID, T_PROP, T_OBJECT, T_STRUCT} && Pads(|words|, n)
       case _ => true
  }

  predicate WellFormedList(ps: PodList) {
    ps.Cons? ==> WellFormed(ps.head) && WellFormedList(ps.rest)
  }

  lemma PaddedWords(n: nat)
    ensures WordsFor(4 * n) == n + n % 2
    ensures WordsFor(8 + 4 * n) == 2 + n + n % 2
    ensures WordsFor(16 + 4 * n) == 4 + n + n % 2
  {
    var m := n / 2;
    assert n == 2 * m || n == 2 * m + 1;
  }

  lemma BodyWords(p: Pod)
    requires WellFormed(p)
    ensures |Body(p)| == WordsFor(Size(p))
  {
    match p
    case Id(_, _) =>
    case IdProp(_, _, values, pad) => PaddedWords(|values|);
    case OtherProp(_, _, _, _, tail, n) =>
      WordsForPads(n);
      WordsForPads(16 + n);
    case Object(_, _, props) =>
      ListLengthEven(props);
      PaddedWords(|ListWords(props)|);
    case Struct(kids) =>
      ListLengthEven(kids);
      PaddedWords(|ListWords(kids)|);
    case Other(_, n, _) => WordsForPads(n);
  }

  lemma {:induction false} ListLengthEven(ps: PodList)
    requires WellFormedList(ps)
    ensures |ListWords(ps)| % 2 == 0
  {
    if ps.Cons? {
      BodyWords(ps.head);
      ListLengthEven(ps.rest);
    }
  }

  /** A POD with its header is what the iteration macros step over: the least multiple of 8 bytes that is not
      below 8 and the size. */
  lemma BodyLength(p: Pod)
    requires WellFormed(p)
    ensures var step := 4 * (2 + |Body(p)|); step % 8 == 0 && 8 + Size(p) <= step < 8 + Size(p) + 8
  {
    BodyWords(p);
    WordsForPads(Size(p));
  }

  // ---------- remapping ----------

  /** The receiver's id for a sender's id; an entry of 0 reads as absent. */
  predicate Known(table: seq<word>, id: word) {
    id < |table| && table[id] != 0
  }

  function To(table: seq<word>, id: word): word {
    if Known(table, id) then table[id] else id
  }

  function MapIds(table: seq<word>, ids: seq<word>): (r: seq<word>)
    ensures |r| == |ids| && forall i | 0 <= i < |ids| :: r[i] == To(table, ids[i])
  {
    seq(|ids|, i requires 0 <= i < |ids| => To(table, ids[i]))
  }

  function Remapped(table: seq<word>, p: Pod): Pod {
    match p
    case Id(v, pad) => Id(To(table, v), pad)
    case IdProp(key, flags, values, pad) => IdProp(To(table, key), flags, MapIds(table, values), pad)
    case OtherProp(key, flags, vsize, vtype, tail, n) => OtherProp(To(table, key), flags, vsize, vtype, tail, n)
    case Object(id, otype, props) => Object(id, To(table, otype), RemappedList(table, props))
    case Struct(kids) => Struct(RemappedList(table, kids))
    case _ => p
  }

  function RemappedList(table: seq<word>, ps: PodList): PodList {
    match ps
    case Nil => Nil
    case Cons(p, rest) => Cons(Remapped(table, p), RemappedList(table, rest))
  }

  /** The type ids the program translates, in the order it meets them. */
  function TypeIds(p: Pod): seq<word> {
    match p
    case Id(v, _) => [v]
    case IdProp(key, _, values, _) => [key] + values
    case OtherProp(key, _, _, _, _, _) => [key]
    case Object(_, otype, props) => [otype] + ListTypeIds(props)
    case Struct(kids) => ListTypeIds(kids)
    case _ => []
  }

  function ListTypeIds(ps: PodList): seq<word> {
    match ps
    case Nil => []
    case Cons(p, rest) => TypeIds(p) + ListTypeIds(rest)
  }

  // ---------- the ids in the words of a POD ----------

  function UpTo(w: seq<word>, n: nat): (r: seq<word>)
    ensures |r| == Min(n, |w|)
  {
    if n <= |w| then w[..n] else w
  }

  /** The type ids held by a value of type t that occupies the words w, read off the words alone. */
  function Held(t: word, w: seq<word>): seq<word>
    decreases |w|, 1
  {
    if t == T_STRUCT then HeldByList(w)
    else if |w| == 0 then []
    else if t == T_ID || t == T_POINTER then [w[0]]
    else if t == T_ARRAY && |w| >= 2 then HeldByValues(w[1], w[0], w[2..])
    else if t == T_PROP && |w| >= 4 then [w[0]] + HeldByValues(w[3], w[2], w[4..])
    else if t == T_OBJECT && |w| >= 2 then [w[1]] + HeldByList(w[2..])
    else []
  }

  /** The ids in values of one type and size, one behind the other without headers. */
  function HeldByValues(t: word, size: word, w: seq<word>): seq<word>
    decreases |w|, 2
  {
    if size == 0 || size % 4 != 0 || |w| < size / 4 then []
    else Held(t, w[..size / 4]) + HeldByValues(t, size, w[size / 4..])
  }

  /** The ids in PODs, one behind the other with headers and padding. */
  function HeldByList(w: seq<word>): seq<word>
    decreases |w|, 0
  {
    if |w| < 2 || |w| < 2 + WordsFor(w[0]) then []
    else Held(w[1], w[2..2 + w[0] / 4]) + HeldByList(w[2 + WordsFor(w[0])..])
  }

  /** The type ids the program passes over: in arrays, in pointers, and in property values that hold ids
      without being ids themselves. */
  function SkippedIds(p: Pod): seq<word> {
    match p
    case OtherProp(_, _, vsize, vtype, tail, n) => HeldByValues(vtype, vsize, UpTo(tail, n / 4))
    case Object(_, _, props) => ListSkippedIds(props)
    case Struct(kids) => ListSkippedIds(kids)
    case Other(t, n, words) => Held(t, UpTo(words, n / 4))
    case _ => []
  }

  function ListSkippedIds(ps: PodList): seq<word> {
    match ps
    case Nil => []
    case Cons(p, rest) => SkippedIds(p) + ListSkippedIds(rest)
  }

  lemma {:induction false} HeldByIdValues(values: seq<word>)
    ensures HeldByValues(T_ID, 4, values) == values
    decreases |values|
  {
    if values != [] {
      HeldByIdValues(values[1..]);
      assert values == values[..1] + values[1..];
    }
  }

  lemma HeldByProp(p: Pod)
    requires (p.IdProp? || p.OtherProp?) && WellFormed(p)
    ensures Held(T_PROP, UpTo(Body(p), Size(p) / 4)) == TypeIds(p) + SkippedIds(p)
  {
    BodyWords(p);
    var w := UpTo(Body(p), Size(p) / 4);
    if p.IdProp? {
      assert w == [p.key, p.flags, 4, T_ID] + p.values && w[4..] == p.values;
      HeldByIdValues(p.values);
    } else {
      assert w == [p.key, p.flags, p.vsize, p.vtype] + UpTo(p.tail, p.tailBytes / 4);
      assert w[4..] == UpTo(p.tail, p.tailBytes / 4);
    }
  }

  /** Every id in the words of a POD is either translated or passed over, and is counted once. */
  predicate Split(p: Pod) {
    multiset(Held(Type(p), UpTo(Body(p), Size(p) / 4))) == multiset(TypeIds(p)) + multiset(SkippedIds(p))
  }

  predicate ListSplit(ps: PodList) {
    multiset(HeldByList(ListWords(ps))) == multiset(ListTypeIds(ps)) + multiset(ListSkippedIds(ps))
  }

  lemma PropSplits(p: Pod)
    requires (p.IdProp? || p.OtherProp?) && WellFormed(p)
    ensures Split(p)
  {
    HeldByProp(p);
  }

  lemma IdSplits(p: Pod)
    requires p.Id?
    ensures Split(p)
  {
    assert UpTo([p.value, p.pad], 1) == [p.value];
  }

  lemma HeldByObject(id: word, otype: word, w: seq<word>)
    ensures Held(T_OBJECT, [id, otype] + w) == [otype] + HeldByList(w)
  {
    assert ([id, otype] + w)[2..] == w;
  }

  lemma WholeBody(w: seq<word>)
    ensures UpTo(w, 4 * |w| / 4) == w
  {
  }

  lemma ObjectSplits(p: Pod)
    requires p.Object? && ListSplit(p.props)
    ensures Split(p)
  {
    var w := ListWords(p.props);
    WholeBody([p.id, p.otype] + w);
    HeldByObject(p.id, p.otype, w);
    assert Size(p) == 4 * |Body(p)|;
    assert multiset([p.otype] + HeldByList(w)) == multiset([p.otype]) + multiset(HeldByList(w));
    assert TypeIds(p) == [p.otype] + ListTypeIds(p.props);
  }

  lemma StructSplits(p: Pod)
    requires p.Struct? && ListSplit(p.kids)
    ensures Split(p)
  {
    WholeBody(ListWords(p.kids));
  }

  lemma {:induction false} IdsSplit(p: Pod)
    requires WellFormed(p)
    ensures multiset(Held(Type(p), UpTo(Body(p), Size(p) / 4))) == multiset(TypeIds(p)) + multiset(SkippedIds(p))
  {
    assert Split(p) by {
      if p.Id? {
        IdSplits(p);
      } else if p.IdProp? || p.OtherProp? {
        PropSplits(p);
      } else if p.Object? {
        ListIdsSplit(p.props);
        ObjectSplits(p);
      } else if p.Struct? {
        ListIdsSplit(p.kids);
        StructSplits(p);
      }
    }
  }

  lemma HeldByCons(ps: PodList)
    requires WellFormedList(ps) && ps.Cons?
    ensures HeldByList(ListWords(ps)) ==
            Held(Type(ps.head), UpTo(Body(ps.head), Size(ps.head) / 4)) + HeldByList(ListWords(ps.rest))
  {
    var h, body, rest := ConsParts(ps);
    HeldByParts(h, body, rest);
  }

  lemma HeldByParts(h: seq<word>, body: seq<word>, rest: seq<word>)
    requires |h| == 2 && |body| == WordsFor(h[0])
    ensures HeldByList(h + (body + rest)) == Held(h[1], UpTo(body, h[0] / 4)) + HeldByList(rest)
  {
    var w, n := h + (body + rest), WordsFor(h[0]);
    assert w[0] == h[0] && w[1] == h[1];
    assert w[2..2 + h[0] / 4] == body[..h[0] / 4];
    assert w[2 + n..] == rest;
  }

  lemma {:induction false} ListIdsSplit(ps: PodList)
    requires WellFormedList(ps)
    ensures ListSplit(ps)
  {
    if ps.Cons? {
      HeldByCons(ps);
      IdsSplit(ps.head);
      ListIdsSplit(ps.rest);
    }
  }

  /** An id inside a structure that is the value of a property is passed over, and counted. */
  lemma NestedIdSkipped(key: word, id: word)
    ensures var p := OtherProp(key, 0, 16, T_STRUCT, [4, T_ID, id, 0], 16);
            WellFormed(p) && TypeIds(p) == [key] && SkippedIds(p) == [id]
  {
    var w: seq<word> := [4, T_ID, id, 0];
    assert UpTo(w, 4) == w == w[..4] && w[2..3] == [id] && w[4..] == [];
    assert HeldByList(w) == Held(T_ID, [id]) + HeldByList([]);
    assert HeldByValues(T_STRUCT, 16, w) == HeldByList(w) + HeldByValues(T_STRUCT, 16, []);
    assert HeldByValues(T_STRUCT, 16, []) == [];
  }

  /** The words determine the POD: there is one reading of a type, a size and a body. */
  lemma {:induction false} OneReading(p: Pod, p': Pod)
    requires WellFormed(p) && WellFormed(p')
    requires Type(p) == Type(p') && Size(p) == Size(p') && Body(p) == Body(p')
    ensures p == p'
  {
    BodyWords(p);
    BodyWords(p');
    var w, w' := Body(p), Body(p');
    match p
    case Id(v, pad) =>
      assert w[0] == w'[0] && w[1] == w'[1];
    case IdProp(key, flags, values, pad) =>
      OneProp(p, p');
    case OtherProp(key, flags, vsize, vtype, tail, n) =>
      OneProp(p, p');
    case Object(id, otype, props) =>
      assert w[0] == w'[0] && w[1] == w'[1] && w[2..] == w'[2..];
      OneListReading(props, p'.props);
    case Struct(kids) => OneListReading(kids, p'.kids);
    case Other(_, _, _) =>
  }

  lemma OneProp(p: Pod, p': Pod)
    requires WellFormed(p) && WellFormed(p') && Type(p) == T_PROP == Type(p')
    requires Size(p) == Size(p') && Body(p) == Body(p')
    ensures p == p'
  {
    var w, w' := Body(p), Body(p');
    assert w[0] == w'[0] && w[1] == w'[1] && w[2] == w'[2] && w[3] == w'[3] && w[4..] == w'[4..];
    if p.IdProp? {
      var n := |p.values|;
      assert p'.IdProp? && |p'.values| == n;
      assert w[4..] == p.values + Padding(n, p.ppad) && w'[4..] == p'.values + Padding(n, p'.ppad);
      assert w[4..][..n] == p.values && w'[4..][..n] == p'.values;
      assert w[4..][n..] == Padding(n, p.ppad) && w'[4..][n..] == Padding(n, p'.ppad);
    } else {
      assert w[4..] == p.tail && w'[4..] == p'.tail;
    }
  }

  lemma {:induction false} OneListReading(ps: PodList, ps': PodList)
    requires WellFormedList(ps) && WellFormedList(ps') && ListWords(ps) == ListWords(ps')
    ensures ps == ps'
  {
    if ps.Cons? {
      assert |ListWords(ps')| > 0;
      OneHeadReading(ps, ps');
      OneReading(ps.head, ps'.head);
      OneListReading(ps.rest, ps'.rest);
    }
  }

  lemma OneHeadReading(ps: PodList, ps': PodList)
    requires WellFormedList(ps) && WellFormedList(ps') && ps.Cons? && ps'.Cons? && ListWords(ps) == ListWords(ps')
    ensures Size(ps.head) == Size(ps'.head) && Type(ps.head) == Type(ps'.head) && Body(ps.head) == Body(ps'.head)
    ensures ListWords(ps.rest) == ListWords(ps'.rest)
  {
    var h, b, r := ConsParts(ps);
    var h', b', r' := ConsParts(ps');
    SameParts(h, b + r, h', b' + r');
    assert h[0] == h'[0] && h[1] == h'[1];
    SameParts(b, r, b', r');
  }

  lemma ConsParts(ps: PodList) returns (h: seq<word>, body: seq<word>, rest: seq<word>)
    requires WellFormedList(ps) && ps.Cons?
    ensures |h| == 2 && h[0] == Size(ps.head) && h[1] == Type(ps.head)
    ensures body == Body(ps.head) && |body| == WordsFor(Size(ps.head)) && rest == ListWords(ps.rest)
    ensures ListWords(ps) == h + (body + rest)
  {
    BodyWords(ps.head);
    h, body, rest := [Size(ps.head), Type(ps.head)], Body(ps.head), ListWords(ps.rest);
    assert h + body + rest == h + (body + rest);
  }

  lemma SameParts(a: seq<word>, b: seq<word>, a': seq<word>, b': seq<word>)
    requires |a| == |a'| && a + b == a' + b'
    ensures a == a' && b == b'
  {
    assert a == (a + b)[..|a|] && b == (a + b)[|a|..];
    assert a' == (a' + b')[..|a|] && b' == (a' + b')[|a|..];
  }

  predicate AllKnown(table: seq<word>, ids: seq<word>) {
    forall id | id in ids :: Known(table, id)
  }

  lemma AllKnownSplits(table: seq<word>, a: seq<word>, b: seq<word>)
    ensures AllKnown(table, a + b) <==> AllKnown(table, a) && AllKnown(table, b)
  {
    assert forall id :: id in a + b <==> id in a || id in b;
  }

  /** Everything but the translated ids. */
  function Shape(p: Pod): Pod {
    match p
    case Id(_, pad) => Id(0, pad)
    case IdProp(_, flags, values, pad) => IdProp(0, flags, seq(|values|, i => 0), pad)
    case OtherProp(_, flags, vsize, vtype, tail, n) => OtherProp(0, flags, vsize, vtype, tail, n)
    case Object(id, _, props) => Object(id, 0, ListShape(props))
    case Struct(kids) => Struct(ListShape(kids))
    case _ => p
  }

  function ListShape(ps: PodList): PodList {
    match ps
    case Nil => Nil
    case Cons(p, rest) => Cons(Shape(p), ListShape(rest))
  }

  lemma MapIdsSplits(table: seq<word>, a: seq<word>, b: seq<word>)
    ensures MapIds(table, a + b) == MapIds(table, a) + MapIds(table, b)
  {
  }

  /** Remapping keeps shape, sizes and layout, and touches exactly the translated ids, each through the table. */
  lemma {:induction false} RemapKeepsShape(table: seq<word>, p: Pod)
    requires WellFormed(p)
    ensures var r := Remapped(table, p);
            && WellFormed(r) && Type(r) == Type(p) && Size(r) == Size(p) && |Body(r)| == |Body(p)|
            && Shape(r) == Shape(p)
            && TypeIds(r) == MapIds(table, TypeIds(p))
            && SkippedIds(r) == SkippedIds(p)
  {
    match p
    case Id(_, _) =>
    case IdProp(_, _, _, _) => PropKeepsShape(table, p);
    case OtherProp(_, _, _, _, _, _) => PropKeepsShape(table, p);
    case Object(_, otype, props) =>
      RemapKeepsListShape(table, props);
      MapIdsSplits(table, [otype], ListTypeIds(props));
    case Struct(kids) => RemapKeepsListShape(table, kids);
    case Other(_, _, _) =>
  }

  lemma PropKeepsShape(table: seq<word>, p: Pod)
    requires WellFormed(p) && (p.IdProp? || p.OtherProp?)
    ensures var r := Remapped(table, p);
            && WellFormed(r) && Type(r) == Type(p) && Size(r) == Size(p) && |Body(r)| == |Body(p)|
            && Shape(r) == Shape(p)
            && TypeIds(r) == MapIds(table, TypeIds(p))
            && SkippedIds(r) == SkippedIds(p)
  {
    if p.IdProp? {
      MapIdsSplits(table, [p.key], p.values);
    }
  }

  lemma {:induction false} RemapKeepsListShape(table: seq<word>, ps: PodList)
    requires WellFormedList(ps)
    ensures var r := RemappedList(table, ps);
            && WellFormedList(r) && |ListWords(r)| == |ListWords(ps)|
            && ListShape(r) == ListShape(ps)
            && ListTypeIds(r) == MapIds(table, ListTypeIds(ps))
            && ListSkippedIds(r) == ListSkippedIds(ps)
  {
    if ps.Cons? {
      RemapKeepsShape(table, ps.head);
      RemapKeepsListShape(table, ps.rest);
      MapIdsSplits(table, TypeIds(ps.head), ListTypeIds(ps.rest));
    }
  }

  /** Of each word either nothing is changed, or it is replaced by its entry in the table. */
  predicate Mapped(table: seq<word>, w: seq<word>, w': seq<word>) {
    |w'| == |w| && forall i | 0 <= i < |w| :: w'[i] == w[i] || w'[i] == To(table, w[i])
  }

  lemma MappedJoin(table: seq<word>, a: seq<word>, a': seq<word>, b: seq<word>, b': seq<word>)
    requires Mapped(table, a, a') && Mapped(table, b, b')
    ensures Mapped(table, a + b, a' + b')
  {
  }

  /** Remapping changes words of the layout only through the table. */
  lemma {:induction false} RemapMapsWords(table: seq<word>, p: Pod)
    requires WellFormed(p)
    ensures Mapped(table, Body(p), Body(Remapped(table, p)))
  {
    match p
    case IdProp(key, flags, values, pad) =>
      MappedJoin(table, [key, flags, 4, T_ID], [To(table, key), flags, 4, T_ID], values, MapIds(table, values));
      MappedJoin(table, [key, flags, 4, T_ID] + values, [To(table, key), flags, 4, T_ID] + MapIds(table, values),
                 Padding(|values|, pad), Padding(|values|, pad));
    case Object(_, _, props) => RemapMapsListWords(table, props);
    case Struct(kids) => RemapMapsListWords(table, kids);
    case _ =>
  }

  lemma {:induction false} RemapMapsListWords(table: seq<word>, ps: PodList)
    requires WellFormedList(ps)
    ensures Mapped(table, ListWords(ps), ListWords(RemappedList(table, ps)))
  {
    if ps.Cons? {
      var r := RemappedList(table, ps);
      RemapMapsWords(table, ps.head);
      RemapMapsListWords(table, ps.rest);
      RemapKeepsShape(table, ps.head);
      var h: seq<word> := [Size(ps.head), Type(ps.head)];
      MappedJoin(table, h, h, Body(ps.head), Body(r.head));
      MappedJoin(table, h + Body(ps.head), h + Body(r.head), ListWords(ps.rest), ListWords(r.rest));
    }
  }

  // ---------- meaning ----------

  /** The receiver's table and names agree with the sender's names. */
  predicate Translates(table: seq<word>, sender: seq<string>, receiver: seq<string>) {
    |table| <= |sender| && forall i | 0 <= i < |table| :: table[i] < |receiver| && receiver[table[i]] == sender[i]
  }

  predicate SameNames(a: seq<word>, names: seq<string>, b: seq<word>, names': seq<string>) {
    && |a| == |b|
    && forall i | 0 <= i < |a| ::
         if a[i] < |names| then b[i] < |names'| && names'[b[i]] == names[a[i]] else b[i] >= |names'|
  }

  /** Remap preserves meaning. When every translated id is known, each of them names, in the
      receiver's table, the string it named in the sender's. The ids passed over are left as they are, so
      the whole POD keeps its meaning exactly if those happen to mean the same on both sides. */
  lemma RemapKeepsMeaning(table: seq<word>, sender: seq<string>, receiver: seq<string>, p: Pod)
    requires WellFormed(p) && Translates(table, sender, receiver) && AllKnown(table, TypeIds(p))
    ensures var r := Remapped(table, p);
            && SameNames(TypeIds(p), sender, TypeIds(r), receiver)
            && (SameNames(TypeIds(p) + SkippedIds(p), sender, TypeIds(r) + SkippedIds(r), receiver)
                <==> SameNames(SkippedIds(p), sender, SkippedIds(p), receiver))
  {
    var r := Remapped(table, p);
    RemapKeepsShape(table, p);
    forall i | 0 <= i < |TypeIds(p)|
      ensures TypeIds(r)[i] < |receiver| && receiver[TypeIds(r)[i]] == sender[TypeIds(p)[i]]
    {
      assert Known(table, TypeIds(p)[i]);
    }
    SameNamesSplits(TypeIds(p), SkippedIds(p), sender, TypeIds(r), SkippedIds(r), receiver);
  }

  lemma SameNamesSplits(a: seq<word>, a': seq<word>, names: seq<string>,
                        b: seq<word>, b': seq<word>, names': seq<string>)
    requires |a| == |b| && |a'| == |b'|
    ensures SameNames(a + a', names, b + b', names')
       <==> SameNames(a, names, b, names') && SameNames(a', names, b', names')
  {
    if SameNames(a + a', names, b + b', names') {
      assert forall i | 0 <= i < |a| :: (a + a')[i] == a[i] && (b + b')[i] == b[i];
      assert forall i | 0 <= i < |a'| :: (a + a')[|a| + i] == a'[i] && (b + b')[|a| + i] == b'[i];
    }
  }
}
