/** The id map: a growing array of slots in which the free list is threaded through the free slots.

    A slot is one 64-bit word. A live slot holds a pointer; a freed one has its low half overwritten
    by the link to the slot freed before it, which is odd, or 0 at the end of the list. */
module IdMaps {
  import opened Prelude

  datatype Word = Word(lo: nat, hi: nat)

  const NULL := Word(0, 0)

  predicate Aligned(w: Word) {
    w.lo % 2 == 0
  }

  // ---------- which ids are in use ----------

  /** The number of slots, and the freed ids, last freed first. */
  datatype Ids = Ids(size: nat, free: seq<nat>)

  predicate Proper(d: Ids) {
    && (forall i | 0 <= i < |d.free| :: d.free[i] < d.size)
    && (forall i, j | 0 <= i < j < |d.free| :: d.free[i] != d.free[j])
  }

  predicate Live(d: Ids, id: nat) {
    id < d.size && id !in d.free
  }

  function NewId(d: Ids): nat {
    if d.free != [] then d.free[0] else d.size
  }

  function Taken(d: Ids): Ids {
    if d.free != [] then Ids(d.size, d.free[1..]) else Ids(d.size + 1, [])
  }

  function Released(d: Ids, id: nat): Ids {
    Ids(d.size, [id] + d.free)
  }

  lemma TakenIsProper(d: Ids)
    requires Proper(d)
    ensures Proper(Taken(d)) && !Live(d, NewId(d)) && Live(Taken(d), NewId(d))
    ensures forall id: nat | id != NewId(d) :: Live(Taken(d), id) <==> Live(d, id)
  {
    if d.free != [] {
      assert d.free == [d.free[0]] + d.free[1..];
      assert forall i | 0 <= i < |d.free| - 1 :: d.free[1..][i] == d.free[i + 1];
    }
  }

  lemma ReleasedIsProper(d: Ids, id: nat)
    requires Proper(d) && Live(d, id)
    ensures Proper(Released(d, id)) && !Live(Released(d, id), id)
    ensures forall i: nat | i != id :: Live(Released(d, id), i) <==> Live(d, i)
  {
    var f := Released(d, id).free;
    assert forall i | 0 < i < |f| :: f[i] == d.free[i - 1];
    assert forall i: nat :: i in f <==> i == id || i in d.free;
  }

  // ---------- the map ----------

  /** Following the links from `head` visits exactly these slots and then ends. */
  predicate Chained(items: seq<Word>, head: nat, free: seq<nat>)
    decreases |free|
  {
    if free == [] then head == 0
    else head == 2 * free[0] + 1 && free[0] < |items| && Chained(items, items[free[0]].lo, free[1..])
  }

  lemma {:induction false} ChainIgnores(items: seq<Word>, items': seq<Word>, head: nat, free: seq<nat>)
    requires Chained(items, head, free) && |items| <= |items'|
    requires forall i | 0 <= i < |free| :: free[i] < |items| ==> items'[free[i]] == items[free[i]]
    ensures Chained(items', head, free)
    decreases |free|
  {
    if free != [] {
      assert forall i | 0 <= i < |free| - 1 :: free[1..][i] == free[i + 1];
      ChainIgnores(items, items', items[free[0]].lo, free[1..]);
    }
  }

  /** Every freed slot but the one at the end of the chain is marked. */
  lemma {:induction false} ChainMarks(items: seq<Word>, head: nat, free: seq<nat>, i: nat)
    requires Chained(items, head, free) && i < |free|
    ensures free[i] < |items|
    ensures if i == |free| - 1 then items[free[i]].lo == 0 else !Aligned(items[free[i]])
    decreases |free|
  {
    if i > 0 {
      ChainMarks(items, items[free[0]].lo, free[1..], i - 1);
    }
  }

  /** Overwriting a freed slot leaves the chain as it is exactly if it leaves the link as it is. */
  lemma {:induction false} ChainNeeds(items: seq<Word>, head: nat, free: seq<nat>, k: nat, data: Word)
    requires Chained(items, head, free) && k < |free| && free[k] < |items|
    requires forall i, j | 0 <= i < j < |free| :: free[i] != free[j]
    ensures Chained(items[free[k] := data], head, free) <==> data.lo == items[free[k]].lo
    decreases |free|
  {
    var items', rest := items[free[k] := data], free[1..];
    assert forall i | 0 <= i < |rest| :: rest[i] == free[i + 1];
    if k == 0 {
      if data.lo == items[free[0]].lo {
        ChainIgnores(items, items', data.lo, rest);
      }
    } else {
      ChainNeeds(items, items[free[0]].lo, rest, k - 1, data);
    }
  }

  class IdMap {
    var items: seq<Word>
    var freeList: nat
    ghost var ids: Ids

    ghost predicate Valid()
      reads this
    {
      ids.size == |items| && Proper(ids) && Chained(items, freeList, ids.free)
    }

    constructor ()
      ensures Valid() && items == [] && ids == Ids(0, [])
    {
      items, freeList, ids := [], 0, Ids(0, []);
    }

    /** Stores a value at the id freed last, or at a new one. */
    method InsertNew(data: Word) returns (id: nat)
      requires Valid()
      modifies this
      ensures Valid() && ids == Taken(old(ids)) && id == NewId(old(ids))
      ensures items == if id < |old(items)| then old(items)[id := data] else old(items) + [data]
      ensures !Live(old(ids), id) && Live(ids, id)
    {
      TakenIsProper(ids);
      ghost var before := items;
      if freeList != 0 {
        id := freeList / 2;
        freeList := items[id].lo;
        items := items[id := data];
      } else {
        id := |items|;
        items := items + [data];
      }
      ghost var free := ids.free;
      ids := Taken(ids);
      if free != [] {
        assert forall i | 0 <= i < |ids.free| :: ids.free[i] == free[i + 1] && free[i + 1] != free[0];
        ChainIgnores(before, items, freeList, ids.free);
      }
    }

    /** Stores a value at a given id, which may be the next new one but none beyond. Storing at a freed id
        cuts the free list, unless the value happens to hold the link. */
    method InsertAt(id: nat, data: Word) returns (ok: bool)
      requires Valid()
      modifies this
      ensures ok <==> id <= |old(items)|
      ensures items == if id < |old(items)| then old(items)[id := data]
                       else if ok then old(items) + [data] else old(items)
      ensures freeList == old(freeList) && ids == old(ids).(size := |items|)
      ensures Valid() <==> (id in old(ids.free) && id < |old(items)| ==> data.lo == old(items)[id].lo)
    {
      var size := |items|;
      ghost var before := items;
      if id > size {
        return false;
      } else if id == size {
        items := items + [data];
      } else {
        items := items[id := data];
      }
      ids := ids.(size := |items|);
      if id !in ids.free {
        ChainIgnores(before, items, freeList, ids.free);
      } else {
        var k :| 0 <= k < |ids.free| && ids.free[k] == id;
        ChainNeeds(before, freeList, ids.free, k, data);
      }
      return true;
    }

    /** Frees an id: its slot becomes the head of the free list. */
    method Remove(id: nat)
      requires Valid() && Live(ids, id)
      modifies this
      ensures Valid() && ids == Released(old(ids), id) && |items| == |old(items)|
      ensures items == old(items)[id := Word(old(freeList), old(items)[id].hi)]
    {
      ReleasedIsProper(ids, id);
      ghost var before := items;
      items := items[id := items[id].(lo := freeList)];
      ChainIgnores(before, items, freeList, ids.free);
      freeList := 2 * id + 1;
      ids := Released(ids, id);
      assert ids.free[1..] == old(ids).free;
    }

    /** The value at an id. A live id gives back the aligned pointer stored there and an id out of range
        gives NULL. So does a freed id, except the one that ends the free list: it gives its slot, in which
        the link is 0 and the upper half is what it was. */
    method Lookup(id: nat) returns (data: Word)
      requires Valid()
      ensures Live(ids, id) ==> data == if Aligned(items[id]) then items[id] else NULL
      ensures id >= |items| ==> data == NULL
      ensures id in ids.free && id != ids.free[|ids.free| - 1] ==> data == NULL
      ensures id in ids.free && id == ids.free[|ids.free| - 1] ==> data == Word(0, items[id].hi)
    {
      data := NULL;
      if id < |items| {
        ghost var free := ids.free;
        if id in free {
          var i :| 0 <= i < |free| && free[i] == id;
          ChainMarks(items, freeList, free, i);
        }
        if Aligned(items[id]) {
          data := items[id];
        }
      }
    }
  }

  /** On a 64-bit machine the upper half of a pointer is rarely zero: insert one, remove it, look it up. */
  method LookupRemoved(data: Word) returns (found: Word)
    requires Aligned(data)
    ensures found == Word(0, data.hi) && (found == NULL <==> data.hi == 0)
  {
    var m := new IdMap();
    var id := m.InsertNew(data);
    m.Remove(id);
    found := m.Lookup(id);
  }

  // ---------- over any sequence of insertions and removals ----------

  datatype Op = New | Remove(id: nat)

  predicate Steps(d: Ids, op: Op, d': Ids) {
    match op
    case New => d' == Taken(d)
    case Remove(id) => Live(d, id) && d' == Released(d, id)
  }

  ghost predicate Run(ds: seq<Ids>, ops: seq<Op>) {
    && |ds| == |ops| + 1 && ds[0] == Ids(0, [])
    && forall i | 0 <= i < |ops| :: Steps(ds[i], ops[i], ds[i + 1])
  }

  function InUse(d: Ids): int {
    d.size - |d.free|
  }

  /** The map is never larger than needed: its size is the peak number of ids in use at once. */
  lemma {:induction false} SizeIsPeak(ds: seq<Ids>, ops: seq<Op>, n: nat) returns (peak: nat)
    requires Run(ds, ops) && n < |ds|
    ensures Proper(ds[n])
    ensures peak <= n && InUse(ds[peak]) == ds[n].size
    ensures forall i | 0 <= i <= n :: InUse(ds[i]) <= ds[n].size
    decreases n
  {
    peak := 0;
    if n > 0 {
      peak := SizeIsPeak(ds, ops, n - 1);
      var d := ds[n - 1];
      assert Steps(d, ops[n - 1], ds[n]);
      if ops[n - 1].New? {
        TakenIsProper(d);
        if d.free == [] {
          peak := n;
        }
      } else {
        ReleasedIsProper(d, ops[n - 1].id);
      }
    }
  }

  /** An id is handed out again only after it was removed: between two insertions that return the
      same id there is its removal. */
  lemma {:induction false} NoDoubleAllocation(ds: seq<Ids>, ops: seq<Op>, i: nat, j: nat)
    requires Run(ds, ops) && i < j < |ops| && ops[i].New? && ops[j].New?
    requires NewId(ds[i]) == NewId(ds[j])
    ensures exists k | i < k < j :: ops[k] == Remove(NewId(ds[i]))
  {
    var id := NewId(ds[i]);
    var peak := SizeIsPeak(ds, ops, i);
    TakenIsProper(ds[i]);
    if forall k | i < k < j :: ops[k] != Remove(id) {
      StaysLive(ds, ops, i + 1, j, id);
      peak := SizeIsPeak(ds, ops, j);
      TakenIsProper(ds[j]);
    }
  }

  lemma {:induction false} StaysLive(ds: seq<Ids>, ops: seq<Op>, i: nat, j: nat, id: nat)
    requires Run(ds, ops) && i <= j < |ds| && Live(ds[i], id)
    requires forall k | i <= k < j :: ops[k] != Remove(id)
    ensures Live(ds[j], id)
    decreases j
  {
    if i < j {
      StaysLive(ds, ops, i, j - 1, id);
      var peak := SizeIsPeak(ds, ops, j - 1);
      assert Steps(ds[j - 1], ops[j - 1], ds[j]);
      if ops[j - 1].New? {
        TakenIsProper(ds[j - 1]);
      } else {
        ReleasedIsProper(ds[j - 1], ops[j - 1].id);
      }
    }
  }
}
