/** The type map: names interned in an append-only arena of C strings, ids dense from 0. */
module TypeMapper {
  import opened Prelude
  import opened IdMaps

  const NUL: char := '\0'
  const ID_INVALID := 0xffff_ffff

  // ---------- interning, as a table of names ----------

  predicate DistinctNames(names: seq<string>) {
    forall i, j | 0 <= i < j < |names| :: names[i] != names[j]
  }

  function Intern(names: seq<string>, s: string): seq<string> {
    if s in names then names else names + [s]
  }

  /** The id of a name in a table. */
  function IdOf(names: seq<string>, s: string): (id: nat)
    requires s in names
    ensures id < |names| && names[id] == s && forall j | 0 <= j < id :: names[j] != s
  {
    if names[0] == s then 0 else 1 + IdOf(names[1..], s)
  }

  function InternAll(names: seq<string>, ss: seq<string>): seq<string>
    decreases |ss|
  {
    if ss == [] then names else InternAll(Intern(names, ss[0]), ss[1..])
  }

  lemma InternKeeps(names: seq<string>, s: string)
    requires DistinctNames(names)
    ensures DistinctNames(Intern(names, s)) && names <= Intern(names, s) && s in Intern(names, s)
  {
  }

  lemma {:induction false} InternAllKeeps(names: seq<string>, ss: seq<string>)
    requires DistinctNames(names)
    ensures var t := InternAll(names, ss);
            && DistinctNames(t) && names <= t
            && (forall s | s in ss :: s in t)
            && (forall i | |names| <= i < |t| :: t[i] in ss)
    decreases |ss|
  {
    if ss != [] {
      InternKeeps(names, ss[0]);
      InternAllKeeps(Intern(names, ss[0]), ss[1..]);
      assert ss == [ss[0]] + ss[1..];
    }
  }

  lemma IdKept(names: seq<string>, more: seq<string>, s: string)
    requires names <= more && s in names
    ensures IdOf(more, s) == IdOf(names, s)
  {
    var i, j := IdOf(names, s), IdOf(more, s);
    assert more[i] == names[i] == s;
    assert more[j] == s;
    assert j < |names| ==> names[j] == more[j];
  }

  /** Interning round trip, over any sequence of lookups: every name looked up names its id; ids are
      equal exactly for equal names; no id exists that was not asked for; and ids given out earlier keep
      their names. */
  lemma InterningRoundTrip(names: seq<string>, ss: seq<string>)
    requires DistinctNames(names)
    ensures var t := InternAll(names, ss);
            && DistinctNames(t) && names <= t
            && (forall s | s in ss :: s in t && t[IdOf(t, s)] == s)
            && (forall a, b | a in t && b in t :: IdOf(t, a) == IdOf(t, b) <==> a == b)
            && (forall s | s in names :: s in t && IdOf(t, s) == IdOf(names, s))
            && (forall i | |names| <= i < |t| :: t[i] in ss)
  {
    var t := InternAll(names, ss);
    InternAllKeeps(names, ss);
    forall a, b | a in t && b in t ensures IdOf(t, a) == IdOf(t, b) <==> a == b {
      assert t[IdOf(t, a)] == a && t[IdOf(t, b)] == b;
    }
    forall s | s in names ensures s in t && IdOf(t, s) == IdOf(names, s) {
      InPrefix(names, t, s);
      IdKept(names, t, s);
    }
  }

  lemma InPrefix(names: seq<string>, more: seq<string>, s: string)
    requires names <= more && s in names
    ensures s in more
  {
    assert more == names + more[|names|..];
  }

  // ---------- the arena ----------

  /** The C string `name` lies in the arena at offset o. */
  predicate StringAt(arena: seq<char>, o: nat, name: string) {
    && o + |name| < |arena|
    && arena[o..o + |name|] == name
    && arena[o + |name|] == NUL
    && NUL !in name
  }

  lemma StringStays(arena: seq<char>, more: seq<char>, o: nat, name: string)
    requires StringAt(arena, o, name)
    ensures StringAt(arena + more, o, name)
  {
    assert (arena + more)[o..o + |name|] == arena[o..o + |name|];
  }

  /** A string with its terminator, padded to an even length with whatever is there. */
  function Padded(s: string, pad: char): (p: seq<char>)
    ensures s + [NUL] <= p && |p| % 2 == 0
  {
    s + [NUL] + if |s| % 2 == 0 then [pad] else []
  }

  /** Slot i of the map holds the even offset of the i-th name. */
  predicate Named(items: seq<Word>, strings: seq<char>, names: seq<string>) {
    && |names| == |items|
    && forall i | 0 <= i < |names| ::
         items[i].hi == 0 && Aligned(items[i]) && StringAt(strings, items[i].lo, names[i])
  }

  lemma NamedGrows(items: seq<Word>, strings: seq<char>, names: seq<string>, s: string, more: seq<char>)
    requires Named(items, strings, names) && |strings| % 2 == 0
    requires NUL !in s && s + [NUL] <= more
    ensures Named(items + [Word(|strings|, 0)], strings + more, names + [s])
  {
    forall i | 0 <= i < |names| ensures StringAt(strings + more, items[i].lo, names[i]) {
      StringStays(strings, more, items[i].lo, names[i]);
    }
    assert (strings + more)[|strings|..|strings| + |s|] == more[..|s|] == (s + [NUL])[..|s|];
    assert (strings + more)[|strings| + |s|] == more[|s|] == (s + [NUL])[|s|];
  }

  class TypeMap {
    var strings: seq<char>
    const types: IdMap
    ghost var names: seq<string>

    ghost predicate Valid()
      reads this, types
    {
      && types.Valid() && types.ids.free == []
      && |strings| % 2 == 0 && DistinctNames(names)
      && Named(types.items, strings, names)
    }

    constructor ()
      ensures Valid() && names == [] && fresh(types)
    {
      strings, names := [], [];
      types := new IdMap();
    }

    /** Compares the C string at an offset with a name. */
    method StrEqual(o: nat, s: string, ghost name: string) returns (equal: bool)
      requires StringAt(strings, o, name) && NUL !in s
      ensures equal <==> name == s
    {
      var i := 0;
      while i < |s|
        invariant 0 <= i <= |s| && i <= |name| && s[..i] == name[..i]
      {
        assert i < |name| ==> strings[o + i] == strings[o..o + |name|][i] == name[i];
        if strings[o + i] != s[i] {
          return false;
        }
        i := i + 1;
      }
      assert i < |name| ==> strings[o + i] == strings[o..o + |name|][i] == name[i];
      assert s[..i] == s;
      equal := strings[o + i] == NUL;
    }

    /** The id of a name: that of the first equal entry, or a new one. No name at all gets id 0. */
    method GetId(name: Option<string>) returns (id: nat)
      requires Valid() && (name.Some? ==> NUL !in name.value)
      modifies this, types
      ensures Valid()
      ensures name.None? ==> id == 0 && names == old(names)
      ensures name.Some? ==> names == Intern(old(names), name.value) && id == IdOf(names, name.value)
    {
      id := 0;
      if name.Some? {
        var s := name.value;
        while id < |types.items|
          invariant Valid() && names == old(names)
          invariant 0 <= id <= |names| && s !in names[..id]
        {
          var o := types.items[id].lo;
          var equal := StrEqual(o, s, names[id]);
          if equal {
            return;
          }
          id := id + 1;
        }
        id := Append(s);
      }
    }

    /** Appends a string to the arena, padded to an even length, and gives its offset an id. */
    method Append(s: string) returns (id: nat)
      requires Valid() && s !in names && NUL !in s
      modifies this, types
      ensures Valid() && names == old(names) + [s] && id == |old(names)|
    {
      var o := |strings|;
      var pad: char := *;
      var more := Padded(s, pad);
      NamedGrows(types.items, strings, names, s, more);
      InternKeeps(names, s);
      strings := strings + more;
      id := types.InsertNew(Word(o, 0));
      assert types.items == old(types.items) + [Word(o, 0)];
      names := names + [s];
    }

    /** The name of an id; nothing for the invalid id or one never given out. */
    method GetType(id: nat) returns (name: Option<string>)
      requires Valid()
      ensures name == if id != ID_INVALID && id < |names| then Some(names[id]) else None
    {
      if id == ID_INVALID {
        return None;
      }
      if id < |types.items| {
        var s := ReadString(types.items[id].lo, names[id]);
        return Some(s);
      }
      return None;
    }

    method ReadString(o: nat, ghost name: string) returns (s: string)
      requires StringAt(strings, o, name)
      ensures s == name
    {
      var end := o;
      while strings[end] != NUL
        invariant o <= end <= o + |name|
        invariant forall i | o <= i < end :: strings[i] != NUL
        decreases o + |name| - end
      {
        end := end + 1;
      }
      s := strings[o..end];
    }
  }
}
