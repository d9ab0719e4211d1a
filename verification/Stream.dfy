/** A stream and its buffers, updated in place. */
module Stream {
  import opened Prelude
  import opened StreamModel

  class Stream {
    var bufferIds: seq<BufferId>
    var free: seq<nat>             // places of the free buffers, longest free first
    var inOrder: bool
    var output: Option<nat>        // the output the other side has not taken yet
    const outputs: bool            // the direction
    ghost var clock: nat
    ghost var since: seq<nat>

    ghost function View(): Pool
      reads this
    {
      Pool(bufferIds, free, inOrder, output, clock, since)
    }

    ghost predicate Valid()
      reads this
    {
      Inv(View())
    }

    constructor (outputs: bool)
      ensures Valid() && Init(View()) && this.outputs == outputs
    {
      bufferIds, free, inOrder, output := [], [], false, None;
      this.outputs := outputs;
      clock, since := 0, [];
      new;
      InitIsValid(View());
    }

    /** The place of a buffer, or one past the others: then what is found there is not a buffer. */
    method Find(id: nat) returns (f: Find)
      ensures f == FindBuffer(View(), id)
    {
      if inOrder && id < SIZEOF_BUFFER_ID * |bufferIds| / SIZEOF_SIZE_T {
        return if id < |bufferIds| then Found(id) else Stray;
      }
      var i := 0;
      while i < |bufferIds|
        invariant 0 <= i <= |bufferIds| && Search(bufferIds, id, i) == Search(bufferIds, id, 0)
      {
        if bufferIds[i].id == id {
          return Found(i);
        }
        i := i + 1;
      }
      return Missing;
    }

    method ClearBuffers()
      modifies this
      ensures View() == Cleared(old(View()))
    {
      bufferIds, free, inOrder := [], [], true;
      since := [];
    }

    /** Replaces the buffers; `ids` has no entry where the memory of a buffer is unknown. */
    method UseBuffers(ids: seq<Option<nat>>)
      requires Valid() && DistinctIds(ids)
      modifies this
      ensures Valid() && Next(old(View()), StreamModel.UseBuffers(ids, outputs), View())
    {
      ghost var p := View();
      ClearBuffers();
      AddBuffers(ids);
      StepKeepsInv(p, StreamModel.UseBuffers(ids, outputs), View());
    }

    method AddBuffers(ids: seq<Option<nat>>)
      modifies this
      ensures View() == AddAll(old(View()), ids, outputs, |ids|)
    {
      var i := 0;
      while i < |ids|
        invariant 0 <= i <= |ids| && View() == AddAll(old(View()), ids, outputs, i)
      {
        if ids[i].Some? {
          AddBuffer(ids[i].value);
        }
        i := i + 1;
      }
    }

    method AddBuffer(id: nat)
      modifies this
      ensures View() == Add(old(View()), id, outputs)
    {
      var len := |bufferIds|;
      if outputs {
        bufferIds := bufferIds + [BufferId(id, false)];
        free := free + [len];
      } else {
        bufferIds := bufferIds + [BufferId(id, true)];
      }
      since, clock := since + [clock], clock + 1;
      if id != len {
        inOrder := false;
      }
    }

    /** The id of an empty buffer to fill, if there is one. */
    method GetEmptyBuffer() returns (id: Option<nat>)
      requires Valid()
      ensures id == EmptyBuffer(View())
    {
      if free == [] {
        return None;
      }
      return Some(bufferIds[free[0]].id);
    }

    /** Gives a buffer back; false if it is unknown or not in use. */
    method RecycleBuffer(id: nat) returns (ok: bool)
      requires Valid() && !FindBuffer(View(), id).Stray?
      modifies this
      ensures Valid() && (View(), ok) == Recycle(old(View()), id)
      ensures ok <==> BufferId(id, true) in old(bufferIds)
      ensures output == old(output)
      ensures Next(old(View()), Recycled(id), View())
    {
      ghost var p := View();
      KnownIsHas(p, id);
      var f := Find(id);
      if f.Missing? || !bufferIds[f.at].used {
        return false;
      }
      bufferIds := bufferIds[f.at := bufferIds[f.at].(used := false)];
      free := free + [f.at];
      since, clock := since[f.at := clock], clock + 1;
      StepKeepsInv(p, Recycled(id), View());
      return true;
    }

    /** Sends a buffer; false only while an earlier one has not been taken. */
    method SendBuffer(id: nat) returns (handled: bool)
      requires Valid() && (output.None? ==> !FindBuffer(View(), id).Stray?)
      modifies this
      ensures Valid() && (View(), handled) == Send(old(View()), id)
      ensures handled <==> old(output).None?
      ensures output == if handled && BufferId(id, false) in old(bufferIds) then Some(id) else old(output)
      ensures Next(old(View()), Sent(id), View())
    {
      ghost var p := View();
      if output.Some? {
        return false;
      }
      KnownIsHas(p, id);
      var f := Find(id);
      if f.Found? && !bufferIds[f.at].used {
        bufferIds := bufferIds[f.at := bufferIds[f.at].(used := true)];
        Unlink(f.at);
        output := Some(id);
      }
      StepKeepsInv(p, Sent(id), View());
      return true;
    }

    /** Removes a place from the free list, wherever it is. */
    method Unlink(at: nat)
      modifies this`free
      ensures free == Without(old(free), at)
    {
      var k := 0;
      while k < |free| && free[k] != at
        invariant 0 <= k <= |free| && free == old(free) && at !in free[..k]
      {
        k := k + 1;
      }
      assert free == free[..k] + free[k..];
      WithoutSkips(free[..k], free[k..], at);
      if k < |free| {
        assert free[k..][1..] == free[k + 1..];
        free := free[..k] + free[k + 1..];
      }
    }

    /** The other side asks for input: it hands back the output it took, and the port is empty again. */
    method NeedInput(returned: Option<nat>)
      requires Valid() && (returned.Some? ==> !FindBuffer(View(), returned.value).Stray?)
      modifies this
      ensures Valid()
      ensures View() == (if returned.Some? then Recycle(old(View()), returned.value).0
                         else old(View())).(output := None)
    {
      if returned.Some? {
        var ok := RecycleBuffer(returned.value);
      }
      ghost var p := View();
      output := None;
      StepKeepsInv(p, OutputTaken, View());
    }
  }
}
