/** The two ends of the type-id protocol: announcing new types before a message, and learning them. */
module TypeEnds {
  import opened Prelude
  import opened IdMaps
  import opened TypeMapper
  import opened Pods
  import opened PodRemap
  import opened TypeProtocol

  class Sender {
    const typeMap: TypeMap
    var nTypes: nat           // how many types the other side has been told
    var connection: seq<Msg>

    ghost predicate Valid()
      reads this, typeMap, typeMap.types
    {
      typeMap.Valid() && nTypes <= |typeMap.names| < ID_INVALID
    }

    constructor (typeMap: TypeMap)
      requires typeMap.Valid() && |typeMap.names| < ID_INVALID
      ensures Valid() && this.typeMap == typeMap && nTypes == 0 && connection == []
    {
      this.typeMap := typeMap;
      nTypes, connection := 0, [];
    }

    /** Tells the other side the types it does not know yet. */
    method UpdateMap()
      requires Valid()
      modifies this
      ensures Valid() && nTypes == |typeMap.names|
      ensures connection == old(connection) + Announcement(typeMap.names, old(nTypes))
    {
      var base := nTypes;
      var diff := |typeMap.types.items| - base;
      if diff == 0 {
        assert connection + [] == connection;
        return;
      }
      var types: seq<string> := [];
      var i := 0;
      while i < diff
        invariant 0 <= i <= diff && base == nTypes + i && |typeMap.names| == nTypes + diff
        invariant Valid() && nTypes == old(nTypes) && connection == old(connection)
        invariant types == typeMap.names[nTypes..base]
      {
        var name := typeMap.GetType(base);
        types := types + [name.value];
        i, base := i + 1, base + 1;
      }
      assert types == typeMap.names[nTypes..];
      connection := connection + [UpdateTypes(nTypes, types)];
      nTypes := nTypes + diff;
    }

    /** Sends a message: the missing types first. */
    method Marshal(pod: Pod)
      requires Valid()
      modifies this
      ensures Valid() && nTypes == |typeMap.names|
      ensures connection == old(connection) + Announcement(typeMap.names, old(nTypes)) + [Data(pod)]
    {
      UpdateMap();
      connection := connection + [Data(pod)];
    }
  }

  class Receiver {
    const typeMap: TypeMap
    const types: IdMap
    ghost var table: seq<word>

    ghost predicate Valid()
      reads this, typeMap, typeMap.types, types
    {
      typeMap.Valid() && types != typeMap.types && Holds(types, table)
    }

    constructor (typeMap: TypeMap, types: IdMap)
      requires typeMap.Valid() && types != typeMap.types && types.Valid() && types.ids == Ids(0, [])
      ensures Valid() && this.typeMap == typeMap && this.types == types && table == []
    {
      this.typeMap, this.types, this.table := typeMap, types, [];
    }

    method Learn(id: nat, name: string)
      requires Valid() && NUL !in name && |typeMap.names| < 0x8000_0000
      modifies this, typeMap, typeMap.types, types
      ensures Valid() && typeMap.names == Intern(old(typeMap.names), name)
      ensures table == Stored(old(table), id, IdOf(typeMap.names, name))
    {
      var thisId := typeMap.GetId(Some(name));
      var ok := types.InsertAt(id, Word(2 * thisId, 0));
      table := Stored(table, id, thisId);
    }

    method LearnEntry(id: nat, names: seq<string>, i: nat,
                      ghost names0: seq<string>, ghost table0: seq<word>, ghost first: nat)
      requires Valid() && i < |names| && NUL !in names[i] && Room(names0, names) && id == first + i
      requires typeMap.names == Learned(names0, names, i) && table == Translated(names0, table0, first, names, i)
      modifies this, typeMap, typeMap.types, types
      ensures Valid() && typeMap.names == Learned(names0, names, i + 1)
      ensures table == Translated(names0, table0, first, names, i + 1)
    {
      Learn(id, names[i]);
    }

    /** Gives each announced name the receiver's own id, and stores it under the sender's number. */
    method UpdateTypes(first: nat, names: seq<string>)
      requires Valid() && Room(typeMap.names, names)
      requires forall i | 0 <= i < |names| :: NUL !in names[i]
      modifies this, typeMap, typeMap.types, types
      ensures Valid()
      ensures typeMap.names == Learned(old(typeMap.names), names, |names|)
      ensures table == Translated(old(typeMap.names), old(table), first, names, |names|)
    {
      var i, id := 0, first;
      while i < |names|
        invariant 0 <= i <= |names| && id == first + i
        invariant Valid()
        invariant typeMap.names == Learned(old(typeMap.names), names, i)
        invariant table == Translated(old(typeMap.names), old(table), first, names, i)
      {
        LearnEntry(id, names, i, old(typeMap.names), old(table), first);
        i, id := i + 1, id + 1;
      }
    }

    /** Translates a received message in place; it is rejected if it uses an id without an entry. */
    method Receive(mem: array<word>, size: word, ghost pod: Pod) returns (ok: bool)
      requires Valid() && WellFormed(pod) && pod.Struct? && size == Size(pod)
      requires |Body(pod)| <= mem.Length && mem[0..|Body(pod)|] == Body(pod)
      modifies mem
      ensures ok <==> AllKnown(table, TypeIds(pod))
      ensures ok ==> mem[0..|Body(pod)|] == Body(Remapped(table, pod))
    {
      ok := RemapData(T_STRUCT, mem, 0, size, types, table, pod);
    }
  }
}
