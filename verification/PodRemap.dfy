/** The in-place rewriting of the type ids of a received POD, word by word in the message buffer. */
module PodRemap {
  import opened Prelude
  import opened IdMaps
  import opened Pods

  /** A table of type ids kept in an id map: entry i holds twice the receiver's id, as a pointer. */
  ghost predicate Holds(types: IdMap, table: seq<word>)
    reads types
  {
    && types.Valid() && types.ids.free == [] && |table| == |types.items|
    && forall i | 0 <= i < |table| :: table[i] < 0x8000_0000 && types.items[i] == Word(2 * table[i], 0)
  }

  function Nodes(p: Pod): nat {
    match p
    case Object(_, _, props) => 1 + ListNodes(props)
    case Struct(kids) => 1 + ListNodes(kids)
    case _ => 1
  }

  function ListNodes(ps: PodList): nat {
    match ps
    case Nil => 0
    case Cons(p, rest) => 1 + Nodes(p) + ListNodes(rest)
  }

  /** Outside the words from `at` up to `end`, memory is as it was. */
  ghost predicate SameOutside(now: seq<word>, before: seq<word>, at: int, end: int) {
    |now| == |before| && forall i | 0 <= i < |now| && !(at <= i < end) :: now[i] == before[i]
  }

  lemma SliceKept(now: seq<word>, before: seq<word>, at: int, end: int, i: nat, j: nat)
    requires SameOutside(now, before, at, end) && i <= j <= |now| && (j <= at || end <= i)
    ensures now[i..j] == before[i..j]
  {
  }

  /** A stretch of memory that holds three runs of words: where the middle one is. */
  lemma Middle(m: seq<word>, at: nat, a: seq<word>, b: seq<word>, c: seq<word>)
    requires at + |a| + |b| + |c| <= |m| && m[at..at + |a| + |b| + |c|] == a + b + c
    ensures m[at..at + |a|] == a
    ensures m[at + |a|..at + |a| + |b|] == b
    ensures m[at + |a| + |b|..at + |a| + |b| + |c|] == c
  {
    var w, i, j, l := m[at..at + |a| + |b| + |c|], at + |a|, at + |a| + |b|, at + |a| + |b| + |c|;
    assert m[at..i] == w[..|a|] && m[i..j] == w[|a|..|a| + |b|] && m[j..l] == w[|a| + |b|..];
    assert (a + b + c)[..|a|] == a && (a + b + c)[|a|..|a| + |b|] == b && (a + b + c)[|a| + |b|..] == c;
  }

  /** Rewriting the middle run leaves the other two. */
  lemma Replaced(m: seq<word>, now: seq<word>, at: nat, a: seq<word>, b: seq<word>, b': seq<word>, c: seq<word>)
    requires at + |a| + |b| + |c| <= |m| && m[at..at + |a| + |b| + |c|] == a + b + c
    requires |b'| == |b| && SameOutside(now, m, at + |a|, at + |a| + |b|)
    requires now[at + |a|..at + |a| + |b|] == b'
    ensures now[at..at + |a| + |b| + |c|] == a + b' + c
  {
    var i, j, l := at + |a|, at + |a| + |b|, at + |a| + |b| + |c|;
    Middle(m, at, a, b, c);
    SliceKept(now, m, i, j, at, i);
    SliceKept(now, m, i, j, j, l);
    assert now[at..l] == now[at..i] + now[i..j] + now[j..l];
  }

  lemma Behind(m: seq<word>, at: nat, a: seq<word>, b: seq<word>)
    requires at + |a| + |b| <= |m| && m[at..at + |a| + |b|] == a + b
    ensures m[at..at + |a|] == a && m[at + |a|..at + |a| + |b|] == b
  {
    assert a + b + [] == a + b;
    Middle(m, at, a, b, []);
  }

  lemma ReplacedBehind(m: seq<word>, now: seq<word>, at: nat, a: seq<word>, b: seq<word>, b': seq<word>)
    requires at + |a| + |b| <= |m| && m[at..at + |a| + |b|] == a + b
    requires |b'| == |b| && SameOutside(now, m, at + |a|, at + |a| + |b|)
    requires now[at + |a|..at + |a| + |b|] == b'
    ensures now[at..at + |a| + |b|] == a + b'
  {
    assert a + b + [] == a + b && a + b' + [] == a + b';
    Replaced(m, now, at, a, b, b', []);
  }

  lemma Joined(m: seq<word>, at: nat, iter: nat, next: nat, x: seq<word>)
    requires at <= iter <= next <= |m|
    ensures m[at..next] + x == m[at..iter] + (m[iter..next] + x)
  {
  }

  /** Rewrites one id; false, and no change, if the table has no entry for it or the entry is 0. */
  method RemapId(mem: array<word>, at: nat, types: IdMap, ghost table: seq<word>) returns (ok: bool)
    requires at < mem.Length && Holds(types, table)
    modifies mem
    ensures SameOutside(mem[..], old(mem[..]), at, at + 1)
    ensures mem[at] == To(table, old(mem[at])) && (ok <==> Known(table, old(mem[at])))
  {
    assert types.ids.free == [];
    var t := types.Lookup(mem[at]);
    if t == NULL {
      return false;
    }
    mem[at] := t.lo / 2;
    ok := true;
  }

  /** Rewrites the id at `at`, in a stretch of memory from `base` with `a` before it and `c` behind it. */
  method RemapWord(mem: array<word>, at: nat, types: IdMap, ghost table: seq<word>,
                   ghost base: nat, ghost a: seq<word>, ghost b: word, ghost c: seq<word>) returns (ok: bool)
    requires Holds(types, table) && at == base + |a| && at + 1 + |c| <= mem.Length
    requires mem[base..at + 1 + |c|] == a + [b] + c
    modifies mem
    ensures SameOutside(mem[..], old(mem[..]), at, at + 1)
    ensures (ok <==> Known(table, b)) && mem[base..at + 1 + |c|] == a + [To(table, b)] + c
  {
    ghost var start := mem[..];
    Middle(start, base, a, [b], c);
    assert mem[at] == start[at..at + 1][0];
    ok := RemapId(mem, at, types, table);
    Replaced(start, mem[..], base, a, [b], [To(table, b)], c);
  }

  /** From the POD whose size is at word i the next one starts at word `next`: the header and the body, in
      bytes, rounded up to a multiple of 8. */
  predicate StepsOver(m: seq<word>, i: nat, next: nat) {
    i < next && i < |m| && 4 * (next - i) % 8 == 0 && 8 + m[i] as int <= 4 * (next - i) < 16 + m[i] as int
  }

  /** PODs start at these words, one behind the other, from `at` up to `end`. */
  predicate Walk(m: seq<word>, at: nat, end: nat, starts: seq<nat>) {
    && |starts| >= 1 && starts[0] == at && starts[|starts| - 1] == end
    && forall j | 0 <= j < |starts| - 1 :: StepsOver(m, starts[j], starts[j + 1])
  }

  lemma WalkOn(m: seq<word>, at: nat, end: nat, starts: seq<nat>, next: nat)
    requires Walk(m, at, end, starts) && StepsOver(m, end, next)
    ensures Walk(m, at, next, starts + [next])
  {
    var more := starts + [next];
    forall j | 0 <= j < |more| - 1 ensures StepsOver(m, more[j], more[j + 1]) {
      assert more[j] == starts[j];
    }
  }

  /** Rewrites the ids of a run of PODs from word `at` up to, not including, word `end`: it visits one POD
      after the other, at these starts. */
  method RemapList(mem: array<word>, at: nat, end: nat, types: IdMap, ghost table: seq<word>, ghost ps: PodList)
    returns (ok: bool, ghost starts: seq<nat>)
    requires at <= end <= mem.Length && Holds(types, table) && WellFormedList(ps)
    requires mem[at..end] == ListWords(ps)
    modifies mem
    ensures SameOutside(mem[..], old(mem[..]), at, end)
    ensures ok <==> AllKnown(table, ListTypeIds(ps))
    ensures ok ==> mem[at..end] == ListWords(RemappedList(table, ps)) && Walk(old(mem[..]), at, end, starts)
    decreases ListNodes(ps), 2
  {
    var iter := at;
    ghost var rest := ps;
    starts := [at];
    while iter < end
      invariant at <= iter <= end && WellFormedList(rest) && ListNodes(rest) <= ListNodes(ps)
      invariant SameOutside(mem[..], old(mem[..]), at, iter)
      invariant mem[iter..end] == ListWords(rest)
      invariant AllKnown(table, ListTypeIds(ps)) <==> AllKnown(table, ListTypeIds(rest))
      invariant mem[at..iter] + ListWords(RemappedList(table, rest)) == ListWords(RemappedList(table, ps))
      invariant Walk(old(mem[..]), at, iter, starts)
    {
      ghost var before := mem[..];
      var next;
      ok, next := RemapFirst(mem, iter, end, types, table, rest);
      AllKnownSplits(table, TypeIds(rest.head), ListTypeIds(rest.rest));
      if !ok {
        return;
      }
      SliceKept(mem[..], before, iter, next, at, iter);
      Joined(mem[..], at, iter, next, ListWords(RemappedList(table, rest.rest)));
      WalkOn(old(mem[..]), at, iter, starts, next);
      starts, iter, rest := starts + [next], next, rest.rest;
    }
    ok := true;
  }

  /** Rewrites the first POD of a run, and says where the next one starts. */
  method RemapFirst(mem: array<word>, iter: nat, end: nat, types: IdMap, ghost table: seq<word>, ghost ps: PodList)
    returns (ok: bool, next: nat)
    requires iter < end <= mem.Length && Holds(types, table) && WellFormedList(ps)
    requires mem[iter..end] == ListWords(ps)
    modifies mem
    ensures ps.Cons? && iter < next <= end && SameOutside(mem[..], old(mem[..]), iter, next)
    ensures StepsOver(old(mem[..]), iter, next)
    ensures mem[next..end] == ListWords(ps.rest)
    ensures ok <==> AllKnown(table, TypeIds(ps.head))
    ensures ok ==> mem[iter..next] + ListWords(RemappedList(table, ps.rest)) == ListWords(RemappedList(table, ps))
    decreases ListNodes(ps), 1
  {
    ghost var start := mem[..];
    HeadAt(ps, start, iter, end);
    var size, ptype := mem[iter], mem[iter + 1];
    next := iter + 2 + WordsFor(size);
    WordsForPads(size);
    ok := RemapData(ptype, mem, iter + 2, size, types, table, ps.head);
    SliceKept(mem[..], start, iter + 2, next, iter, iter + 2);
    SliceKept(mem[..], start, iter + 2, next, next, end);
    if ok {
      RemapKeepsShape(table, ps.head);
      HeadDone(table, ps, mem[..], iter, next);
    }
  }

  /** The head of a run: its size and type, its body, and where the rest begins. */
  lemma HeadAt(ps: PodList, m: seq<word>, iter: nat, end: nat)
    requires WellFormedList(ps) && iter < end <= |m| && m[iter..end] == ListWords(ps)
    ensures ps.Cons? && iter + 2 + WordsFor(Size(ps.head)) <= end && |Body(ps.head)| == WordsFor(Size(ps.head))
    ensures m[iter] == Size(ps.head) && m[iter + 1] == Type(ps.head)
    ensures m[iter..iter + 2] == [Size(ps.head), Type(ps.head)]
    ensures m[iter + 2..iter + 2 + WordsFor(Size(ps.head))] == Body(ps.head)
    ensures m[iter + 2 + WordsFor(Size(ps.head))..end] == ListWords(ps.rest)
  {
    assert |ListWords(ps)| > 0;
    HeadWords(ps);
    var header := [Size(ps.head), Type(ps.head)];
    Middle(m, iter, header, Body(ps.head), ListWords(ps.rest));
    assert m[iter..iter + 2] == [m[iter], m[iter + 1]];
  }

  lemma HeadWords(ps: PodList)
    requires WellFormedList(ps) && ps.Cons?
    ensures Size(ps.head) < 0x1_0000_0000 && |Body(ps.head)| == WordsFor(Size(ps.head))
    ensures ListWords(ps) == [Size(ps.head), Type(ps.head)] + Body(ps.head) + ListWords(ps.rest)
  {
    BodyWords(ps.head);
  }

  lemma HeadDone(table: seq<word>, ps: PodList, now: seq<word>, iter: nat, next: nat)
    requires WellFormedList(ps) && ps.Cons? && iter + 2 <= next <= |now|
    requires now[iter..iter + 2] == [Size(ps.head), Type(ps.head)]
    requires now[iter + 2..next] == Body(Remapped(table, ps.head))
    ensures now[iter..next] + ListWords(RemappedList(table, ps.rest)) == ListWords(RemappedList(table, ps))
  {
    RemapKeepsShape(table, ps.head);
    assert now[iter..next] == now[iter..iter + 2] + now[iter + 2..next];
  }

  /** Rewrites every type id in the body of a POD, stopping at the first unknown one. */
  method RemapData(ptype: word, mem: array<word>, at: nat, size: word, types: IdMap,
                   ghost table: seq<word>, ghost p: Pod) returns (ok: bool)
    requires Holds(types, table) && WellFormed(p) && ptype == Type(p) && size == Size(p)
    requires at + |Body(p)| <= mem.Length && mem[at..at + |Body(p)|] == Body(p)
    modifies mem
    ensures SameOutside(mem[..], old(mem[..]), at, at + |Body(p)|)
    ensures ok <==> AllKnown(table, TypeIds(p))
    ensures ok ==> mem[at..at + |Body(p)|] == Body(Remapped(table, p))
    decreases Nodes(p), 1
  {
    if ptype == T_ID {
      assert mem[at..at + 2] == [p.value, p.pad] && mem[at] == mem[at..at + 2][0] && mem[at + 1] == mem[at..at + 2][1];
      ok := RemapId(mem, at, types, table);
      assert mem[at..at + 2] == [To(table, p.value), p.pad] && p.value in TypeIds(p);
    } else if ptype == T_PROP {
      ok := RemapProp(mem, at, size, types, table, p);
    } else if ptype == T_OBJECT {
      ok := RemapObject(mem, at, size, types, table, p);
    } else if ptype == T_STRUCT {
      ghost var starts;
      ok, starts := RemapList(mem, at, at + size / 4, types, table, p.kids);
    } else {
      ok := true;
    }
  }

  /** An object: its type, then its properties. */
  method RemapObject(mem: array<word>, at: nat, size: word, types: IdMap, ghost table: seq<word>, ghost p: Pod)
    returns (ok: bool)
    requires Holds(types, table) && WellFormed(p) && p.Object? && size == Size(p)
    requires at + |Body(p)| <= mem.Length && mem[at..at + |Body(p)|] == Body(p)
    modifies mem
    ensures SameOutside(mem[..], old(mem[..]), at, at + |Body(p)|)
    ensures ok <==> AllKnown(table, TypeIds(p))
    ensures ok ==> mem[at..at + |Body(p)|] == Body(Remapped(table, p))
    decreases Nodes(p), 0
  {
    ghost var kids := ListWords(p.props);
    ObjectParts(table, p);
    ok := RemapWord(mem, at + 1, types, table, at, [p.id], p.otype, kids);
    if !ok {
      return;
    }
    ok := RemapObjectProps(mem, at, size, types, table, [p.id] + [To(table, p.otype)], p.props);
  }

  lemma ObjectParts(table: seq<word>, p: Pod)
    requires p.Object? && WellFormed(p)
    ensures var kids, r := ListWords(p.props), Remapped(table, p);
            && Body(p) == [p.id] + [p.otype] + kids && |Body(r)| == |Body(p)|
            && Body(r) == [p.id] + [To(table, p.otype)] + ListWords(RemappedList(table, p.props))
            && (AllKnown(table, TypeIds(p)) <==> Known(table, p.otype) && AllKnown(table, ListTypeIds(p.props)))
  {
    RemapKeepsShape(table, p);
    AllKnownSplits(table, [p.otype], ListTypeIds(p.props));
    assert p.otype in [p.otype];
  }

  /** The properties of an object, behind its id and type. */
  method RemapObjectProps(mem: array<word>, at: nat, size: word, types: IdMap, ghost table: seq<word>,
                          ghost front: seq<word>, ghost props: PodList)
    returns (ok: bool)
    requires Holds(types, table) && WellFormedList(props) && |front| == 2 && size == 8 + 4 * |ListWords(props)|
    requires at + 2 + |ListWords(props)| <= mem.Length
    requires mem[at..at + 2 + |ListWords(props)|] == front + ListWords(props)
    modifies mem
    ensures SameOutside(mem[..], old(mem[..]), at + 2, at + 2 + |ListWords(props)|)
    ensures ok <==> AllKnown(table, ListTypeIds(props))
    ensures ok ==> mem[at..at + 2 + |ListWords(props)|] == front + ListWords(RemappedList(table, props))
    decreases ListNodes(props), 3
  {
    ghost var start := mem[..];
    Behind(start, at, front, ListWords(props));
    ghost var starts;
    ok, starts := RemapList(mem, at + 2, at + size / 4, types, table, props);
    if ok {
      RemapKeepsListShape(table, props);
      ReplacedBehind(start, mem[..], at, front, ListWords(props), ListWords(RemappedList(table, props)));
    }
  }

  /** The values of a property that are ids; the words behind them. */
  function IdValues(p: Pod): seq<word> {
    if p.IdProp? then p.values else []
  }

  function Tail(p: Pod): seq<word>
    requires p.IdProp? || p.OtherProp?
  {
    if p.IdProp? then Padding(|p.values|, p.ppad) else p.tail
  }

  lemma PropBody(p: Pod)
    requires (p.IdProp? || p.OtherProp?) && WellFormed(p)
    ensures Body(p) == [p.key] + Fixed(p) + IdValues(p) + Tail(p)
    ensures TypeIds(p) == [p.key] + IdValues(p)
  {
  }

  /** The flags, and the size and type of the values. */
  function Fixed(p: Pod): seq<word>
    requires p.IdProp? || p.OtherProp?
  {
    if p.IdProp? then [p.flags, 4, T_ID] else [p.flags, p.vsize, p.vtype]
  }

  lemma PropParts(table: seq<word>, p: Pod)
    requires (p.IdProp? || p.OtherProp?) && WellFormed(p)
    ensures Body(p) == [p.key] + Fixed(p) + IdValues(p) + Tail(p)
    ensures Body(Remapped(table, p)) == [To(table, p.key)] + Fixed(p) + MapIds(table, IdValues(p)) + Tail(p)
    ensures AllKnown(table, TypeIds(p)) <==> Known(table, p.key) && AllKnown(table, IdValues(p))
  {
    var r := Remapped(table, p);
    PropBody(p);
    PropBody(r);
    assert Fixed(r) == Fixed(p) && Tail(r) == Tail(p) && IdValues(r) == MapIds(table, IdValues(p));
    AllKnownSplits(table, [p.key], IdValues(p));
    assert p.key in [p.key];
  }

  /** A property: its key, and if its values are ids, each of them. */
  method RemapProp(mem: array<word>, at: nat, size: word, types: IdMap, ghost table: seq<word>, ghost p: Pod)
    returns (ok: bool)
    requires Holds(types, table) && WellFormed(p) && (p.IdProp? || p.OtherProp?) && size == Size(p)
    requires at + |Body(p)| <= mem.Length && mem[at..at + |Body(p)|] == Body(p)
    modifies mem
    ensures SameOutside(mem[..], old(mem[..]), at, at + |Body(p)|)
    ensures ok <==> AllKnown(table, TypeIds(p))
    ensures ok ==> mem[at..at + |Body(p)|] == Body(Remapped(table, p))
  {
    PropParts(table, p);
    ok := RemapPropWords(mem, at, size, types, table, p.key, Fixed(p), IdValues(p), Tail(p));
  }

  method RemapPropWords(mem: array<word>, at: nat, size: word, types: IdMap, ghost table: seq<word>,
                        ghost key: word, ghost fixed: seq<word>, ghost values: seq<word>, ghost tail: seq<word>)
    returns (ok: bool)
    requires Holds(types, table) && |fixed| == 3
    requires fixed[2] == T_ID ==> fixed[1] == 4 && |values| >= 1 && size == 16 + 4 * |values|
    requires fixed[2] != T_ID ==> values == []
    requires at + 4 + |values| + |tail| <= mem.Length
    requires mem[at..at + 4 + |values| + |tail|] == [key] + fixed + values + tail
    modifies mem
    ensures SameOutside(mem[..], old(mem[..]), at, at + 4 + |values|)
    ensures ok <==> Known(table, key) && AllKnown(table, values)
    ensures ok ==> mem[at..at + 4 + |values| + |tail|] == [To(table, key)] + fixed + MapIds(table, values) + tail
  {
    ghost var front := [To(table, key)] + fixed;
    assert [key] + fixed + values + tail == [] + [key] + (fixed + values + tail);
    ok := RemapWord(mem, at, types, table, at, [], key, fixed + values + tail);
    if !ok {
      return;
    }
    ghost var keyed := mem[..];
    assert [] + [To(table, key)] + (fixed + values + tail) == front + values + tail;
    Middle(keyed, at, front, values, tail);
    assert mem[at + 2] == keyed[at..at + 4][2] && mem[at + 3] == keyed[at..at + 4][3];
    if mem[at + 3] == T_ID {
      ok := RemapValues(mem, at, size, mem[at + 2], types, table, values);
      if ok {
        Replaced(keyed, mem[..], at, front, values, MapIds(table, values), tail);
      }
    }
  }

  /** The value and the alternatives of a property that holds ids. */
  method RemapValues(mem: array<word>, at: nat, size: word, vsize: word, types: IdMap,
                     ghost table: seq<word>, ghost values: seq<word>) returns (ok: bool)
    requires Holds(types, table) && |values| >= 1 && size == 16 + 4 * |values| && vsize == 4
    requires at + 4 + |values| <= mem.Length && mem[at + 4..at + 4 + |values|] == values
    modifies mem
    ensures SameOutside(mem[..], old(mem[..]), at + 4, at + 4 + |values|)
    ensures ok <==> AllKnown(table, values)
    ensures ok ==> mem[at + 4..at + 4 + |values|] == MapIds(table, values)
  {
    ghost var first, start := at + 4, mem[..];
    assert mem[first] == values[0] && values[0] in values;
    ok := RemapId(mem, at + 4, types, table);
    if !ok {
      return;
    }
    var alt := at + 4 + vsize / 4;
    while alt <= at + (size - vsize) / 4
      invariant first < alt <= first + |values|
      invariant SameOutside(mem[..], start, first, alt)
      invariant forall i | first <= i < alt :: mem[i] == To(table, start[i]) && Known(table, start[i])
    {
      assert start[alt] == start[first..first + |values|][alt - first] == values[alt - first];
      ok := RemapId(mem, alt, types, table);
      if !ok {
        return;
      }
      alt := alt + vsize / 4;
    }
    ok := true;
    forall k | 0 <= k < |values|
      ensures mem[first..first + |values|][k] == MapIds(table, values)[k] && Known(table, values[k])
    {
      assert start[first + k] == start[first..first + |values|][k] == values[k];
    }
  }
}
