/** The buffers of a stream: which are in use, and the list of the free ones in the order they became free.

    A buffer is named by its place in the array of buffers. `clock` and `since` are history: when each
    buffer became free. */
module StreamModel {
  import opened Prelude

  const SIZEOF_BUFFER_ID := 40
  const SIZEOF_SIZE_T := 8
  const MAX_BUFFERS := 64

  datatype BufferId = BufferId(id: nat, used: bool)

  datatype Pool = Pool(
    buffers: seq<BufferId>, free: seq<nat>, inOrder: bool, output: Option<nat>,
    clock: nat, since: seq<nat>)

  /** `Stray`: an element that does not exist. */
  datatype Find = Found(at: nat) | Missing | Stray

  // ---------- finding ----------

  function Search(buffers: seq<BufferId>, id: nat, from: nat): (f: Find)
    requires from <= |buffers|
    ensures f.Found? ==> from <= f.at < |buffers| && buffers[f.at].id == id
                         && forall j | from <= j < f.at :: buffers[j].id != id
    ensures f.Missing? <==> forall j | from <= j < |buffers| :: buffers[j].id != id
    ensures !f.Stray?
    decreases |buffers| - from
  {
    if from == |buffers| then Missing
    else if buffers[from].id == id then Found(from)
    else Search(buffers, id, from + 1)
  }

  /** While ids are in order the id is the index. The bounds test divides the size of the array in
      bytes by that of a `size_t`, not by that of an element. */
  function FindBuffer(p: Pool, id: nat): Find {
    if p.inOrder && id < SIZEOF_BUFFER_ID * |p.buffers| / SIZEOF_SIZE_T then
      if id < |p.buffers| then Found(id) else Stray
    else Search(p.buffers, id, 0)
  }

  /** A known buffer that is in use: recycling it succeeds. */
  predicate InUse(p: Pool, id: nat) {
    var f := FindBuffer(p, id);
    f.Found? && p.buffers[f.at].used
  }

  predicate IsFree(p: Pool, id: nat) {
    var f := FindBuffer(p, id);
    f.Found? && !p.buffers[f.at].used
  }

  // ---------- changes ----------

  /** A buffer becomes free: last in the list. */
  function Release(p: Pool, at: nat): Pool
    requires at < |p.buffers| == |p.since|
  {
    p.(buffers := p.buffers[at := p.buffers[at].(used := false)], free := p.free + [at],
       since := p.since[at := p.clock], clock := p.clock + 1)
  }

  function Without(free: seq<nat>, at: nat): seq<nat> {
    if free == [] then [] else if free[0] == at then free[1..] else [free[0]] + Without(free[1..], at)
  }

  /** A buffer is taken from wherever it is in the list. */
  function Take(p: Pool, at: nat): Pool
    requires at < |p.buffers|
  {
    p.(buffers := p.buffers[at := p.buffers[at].(used := true)], free := Without(p.free, at))
  }

  /** Recycling, and reuse on behalf of the other side, change a buffer that is in use. */
  function Recycle(p: Pool, id: nat): (Pool, bool)
    requires |p.since| == |p.buffers|
  {
    if InUse(p, id) then (Release(p, FindBuffer(p, id).at), true) else (p, false)
  }

  /** Sending is refused while an output is pending; otherwise a free buffer becomes the output. */
  function Send(p: Pool, id: nat): (Pool, bool) {
    if p.output.Some? then (p, false)
    else if IsFree(p, id) then (Take(p, FindBuffer(p, id).at).(output := Some(id)), true)
    else (p, true)
  }

  /** The longest-free buffer's id. */
  function EmptyBuffer(p: Pool): Option<nat>
    requires p.free != [] ==> p.free[0] < |p.buffers|
  {
    if p.free == [] then None else Some(p.buffers[p.free[0]].id)
  }

  function Cleared(p: Pool): Pool {
    p.(buffers := [], free := [], inOrder := true, since := [])
  }

  /** A new buffer: free on a stream that outputs, in use on one that inputs. */
  function Add(p: Pool, id: nat, outputs: bool): Pool {
    var at := |p.buffers|;
    p.(buffers := p.buffers + [BufferId(id, !outputs)], free := if outputs then p.free + [at] else p.free,
       inOrder := p.inOrder && id == at, since := p.since + [p.clock], clock := p.clock + 1)
  }

  /** The first k of the new buffers; one whose memory is unknown is skipped. */
  function AddAll(p: Pool, ids: seq<Option<nat>>, outputs: bool, k: nat): Pool
    requires k <= |ids|
  {
    if k == 0 then p
    else
      var p' := AddAll(p, ids, outputs, k - 1);
      if ids[k - 1].Some? then Add(p', ids[k - 1].value, outputs) else p'
  }

  datatype Event =
    | UseBuffers(ids: seq<Option<nat>>, outputs: bool)
    | Recycled(id: nat)       // by the application, or because the other side is done with it
    | Sent(id: nat)
    | OutputTaken             // the other side has taken the output

  predicate DistinctIds(ids: seq<Option<nat>>) {
    |ids| <= MAX_BUFFERS && forall i, j | 0 <= i < j < |ids| && ids[i].Some? :: ids[i] != ids[j]
  }

  predicate Next(p: Pool, e: Event, p': Pool) {
    match e
    case UseBuffers(ids, outputs) => DistinctIds(ids) && p' == AddAll(Cleared(p), ids, outputs, |ids|)
    case Recycled(id) => |p.since| == |p.buffers| && p' == Recycle(p, id).0
    case Sent(id) => p' == Send(p, id).0
    case OutputTaken => p' == p.(output := None)
  }

  predicate Init(p: Pool) {
    p.buffers == [] && p.free == [] && p.since == [] && p.output == None && !p.inOrder
  }

  ghost predicate Run(ps: seq<Pool>, es: seq<Event>) {
    |ps| == |es| + 1 && Init(ps[0]) && forall i | 0 <= i < |es| :: Next(ps[i], es[i], ps[i + 1])
  }

  // ---------- the invariant ----------

  /** The list holds exactly the buffers not in use. */
  predicate Listed(buffers: seq<BufferId>, free: seq<nat>) {
    && (forall j | 0 <= j < |free| :: free[j] < |buffers| && !buffers[free[j]].used)
    && (forall i | 0 <= i < |buffers| && !buffers[i].used :: i in free)
  }

  /** The list is in the order of the times, so no buffer is in it twice. */
  predicate Ordered(free: seq<nat>, since: seq<nat>) {
    && (forall j | 0 <= j < |free| :: free[j] < |since|)
    && (forall j, k | 0 <= j < k < |free| :: since[free[j]] < since[free[k]])
  }

  /** Times lie in the past, ids are distinct, and they are the indices while that is recorded. */
  predicate Numbered(buffers: seq<BufferId>, inOrder: bool, clock: nat, since: seq<nat>) {
    && (forall i | 0 <= i < |since| :: since[i] < clock)
    && (forall i, j | 0 <= i < j < |buffers| :: buffers[i].id != buffers[j].id)
    && (inOrder ==> forall i | 0 <= i < |buffers| :: buffers[i].id == i)
  }

  predicate Inv(p: Pool) {
    && |p.since| == |p.buffers|
    && Listed(p.buffers, p.free) && Ordered(p.free, p.since)
    && Numbered(p.buffers, p.inOrder, p.clock, p.since)
  }

  lemma InitIsValid(p: Pool)
    requires Init(p)
    ensures Inv(p)
  {
  }

  lemma {:induction false} WithoutSkips(a: seq<nat>, b: seq<nat>, at: nat)
    requires at !in a
    ensures Without(a + b, at) == a + Without(b, at)
  {
    if a == [] {
      assert a + b == b;
    } else {
      assert (a + b)[1..] == a[1..] + b;
      WithoutSkips(a[1..], b, at);
    }
  }

  lemma {:induction false} WithoutOne(free: seq<nat>, k: nat)
    requires k < |free| && forall i, j | 0 <= i < j < |free| :: free[i] != free[j]
    ensures Without(free, free[k]) == free[..k] + free[k + 1..]
  {
    if k > 0 {
      WithoutOne(free[1..], k - 1);
      assert free[1..][..k - 1] == free[1..k] && free[1..][k..] == free[k + 1..];
      assert free[..k] == [free[0]] + free[1..k];
    }
  }

  lemma WithoutMembers(free: seq<nat>, k: nat)
    requires k < |free| && forall i, j | 0 <= i < j < |free| :: free[i] != free[j]
    ensures var rest := Without(free, free[k]);
            && |rest| == |free| - 1
            && (forall j | 0 <= j < |rest| :: rest[j] == free[if j < k then j else j + 1])
            && (forall x | x in free && x != free[k] :: x in rest)
  {
    WithoutOne(free, k);
    MembersAround(free, k);
  }

  lemma MembersAround(free: seq<nat>, k: nat)
    requires k < |free|
    ensures var rest := free[..k] + free[k + 1..];
            && (forall j | 0 <= j < |rest| :: rest[j] == free[if j < k then j else j + 1])
            && (forall x | x in free && x != free[k] :: x in rest)
  {
    assert free == free[..k] + [free[k]] + free[k + 1..];
  }

  lemma WithoutKeepsListed(buffers: seq<BufferId>, free: seq<nat>, k: nat)
    requires Listed(buffers, free) && k < |free| && forall i, j | 0 <= i < j < |free| :: free[i] != free[j]
    ensures Listed(buffers[free[k] := buffers[free[k]].(used := true)], Without(free, free[k]))
  {
    WithoutMembers(free, k);
    var rest := Without(free, free[k]);
    forall j | 0 <= j < |rest| ensures rest[j] < |buffers| && !buffers[rest[j]].used && rest[j] != free[k] {
      var j' := if j < k then j else j + 1;
      assert rest[j] == free[j'];
    }
  }

  lemma WithoutKeepsOrder(free: seq<nat>, since: seq<nat>, k: nat)
    requires Ordered(free, since) && k < |free| && forall i, j | 0 <= i < j < |free| :: free[i] != free[j]
    ensures Ordered(Without(free, free[k]), since)
  {
    WithoutMembers(free, k);
  }

  lemma ReleaseKeepsInv(p: Pool, at: nat)
    requires Inv(p) && at < |p.buffers| && p.buffers[at].used
    ensures Inv(Release(p, at))
  {
    var p' := Release(p, at);
    assert forall j | 0 <= j < |p.free| :: p.free[j] != at && p'.since[p.free[j]] == p.since[p.free[j]] < p.clock;
    assert p'.free[|p.free|] == at;
    assert Listed(p'.buffers, p'.free) by {
      assert forall i | 0 <= i < |p.buffers| && !p'.buffers[i].used && i != at :: i in p.free;
    }
  }

  lemma TakeKeepsInv(p: Pool, at: nat)
    requires Inv(p) && at < |p.buffers| && !p.buffers[at].used
    ensures Inv(Take(p, at))
  {
    forall i, j | 0 <= i < j < |p.free| ensures p.free[i] != p.free[j] {
      assert p.since[p.free[i]] < p.since[p.free[j]];
    }
    var k :| 0 <= k < |p.free| && p.free[k] == at;
    WithoutKeepsListed(p.buffers, p.free, k);
    WithoutKeepsOrder(p.free, p.since, k);
  }

  lemma AddKeepsInv(p: Pool, id: nat, outputs: bool)
    requires Inv(p) && forall i | 0 <= i < |p.buffers| :: p.buffers[i].id != id
    ensures Inv(Add(p, id, outputs))
  {
    var b := BufferId(id, !outputs);
    AddKeepsListed(p.buffers, p.free, b);
    AddKeepsOrder(p.free, p.since, p.clock, outputs);
    AddKeepsNumbers(p, b);
    if outputs {
      assert Add(p, id, outputs).free == p.free + [|p.buffers|];
    } else {
      assert Add(p, id, outputs).free == p.free;
    }
  }

  lemma AddKeepsNumbers(p: Pool, b: BufferId)
    requires Numbered(p.buffers, p.inOrder, p.clock, p.since)
    requires forall i | 0 <= i < |p.buffers| :: p.buffers[i].id != b.id
    ensures Numbered(p.buffers + [b], p.inOrder && b.id == |p.buffers|, p.clock + 1, p.since + [p.clock])
  {
  }

  lemma AddKeepsOrder(free: seq<nat>, since: seq<nat>, clock: nat, freed: bool)
    requires Ordered(free, since) && forall i | 0 <= i < |since| :: since[i] < clock
    ensures Ordered(if freed then free + [|since|] else free, since + [clock])
  {
    var free', since' := if freed then free + [|since|] else free, since + [clock];
    forall j | 0 <= j < |free| ensures free'[j] == free[j] && since'[free[j]] == since[free[j]] {
    }
  }

  lemma AddKeepsListed(buffers: seq<BufferId>, free: seq<nat>, b: BufferId)
    requires Listed(buffers, free)
    ensures Listed(buffers + [b], if b.used then free else free + [|buffers|])
  {
    var buffers', free' := buffers + [b], if b.used then free else free + [|buffers|];
    forall j | 0 <= j < |free'| ensures free'[j] < |buffers'| && !buffers'[free'[j]].used {
      if j < |free| {
        assert free'[j] == free[j] && buffers'[free[j]] == buffers[free[j]];
      }
    }
    forall i | 0 <= i < |buffers'| && !buffers'[i].used ensures i in free' {
      if i < |buffers| {
        assert buffers'[i] == buffers[i] && i in free;
      } else {
        assert free'[|free|] == i;
      }
    }
  }

  predicate OneOf(id: nat, ids: seq<Option<nat>>, k: nat)
    requires k <= |ids|
  {
    exists j | 0 <= j < k :: ids[j] == Some(id)
  }

  /** Every buffer has one of the first k ids. */
  predicate From(buffers: seq<BufferId>, ids: seq<Option<nat>>, k: nat)
    requires k <= |ids|
  {
    forall i | 0 <= i < |buffers| :: OneOf(buffers[i].id, ids, k)
  }

  lemma {:induction false} AddAllKeepsInv(p: Pool, ids: seq<Option<nat>>, outputs: bool, k: nat)
    requires Inv(p) && p.buffers == [] && k <= |ids| && DistinctIds(ids)
    ensures Inv(AddAll(p, ids, outputs, k)) && From(AddAll(p, ids, outputs, k).buffers, ids, k)
  {
    if k > 0 {
      AddAllKeepsInv(p, ids, outputs, k - 1);
      var p' := AddAll(p, ids, outputs, k - 1);
      FromMore(p'.buffers, ids, k - 1, !outputs);
      if ids[k - 1].Some? {
        AddKeepsInv(p', ids[k - 1].value, outputs);
      }
    }
  }

  lemma FromMore(buffers: seq<BufferId>, ids: seq<Option<nat>>, k: nat, used: bool)
    requires k < |ids| && DistinctIds(ids) && From(buffers, ids, k)
    ensures From(buffers, ids, k + 1)
    ensures ids[k].Some? ==> From(buffers + [BufferId(ids[k].value, used)], ids, k + 1)
    ensures ids[k].Some? ==> forall i | 0 <= i < |buffers| :: buffers[i].id != ids[k].value
  {
    forall i | 0 <= i < |buffers| ensures OneOf(buffers[i].id, ids, k + 1) && ids[k] != Some(buffers[i].id) {
      assert OneOf(buffers[i].id, ids, k);
    }
  }

  lemma StepKeepsInv(p: Pool, e: Event, p': Pool)
    requires Inv(p) && Next(p, e, p')
    ensures Inv(p')
  {
    match e
    case UseBuffers(ids, outputs) => AddAllKeepsInv(Cleared(p), ids, outputs, |ids|);
    case Recycled(id) =>
      if Recycle(p, id).1 {
        ReleaseKeepsInv(p, FindBuffer(p, id).at);
      }
    case Sent(id) =>
      var f := FindBuffer(p, id);
      if p.output.None? && f.Found? && !p.buffers[f.at].used {
        TakeKeepsInv(p, f.at);
      }
    case OutputTaken =>
  }

  /** Stream buffer pool. In every state of every run the free list holds exactly the buffers not in
      use, once each, and in the order they became free. */
  lemma {:induction false} PoolInvariant(ps: seq<Pool>, es: seq<Event>, i: nat)
    requires Run(ps, es) && i < |ps|
    ensures Inv(ps[i])
    decreases i
  {
    if i == 0 {
      InitIsValid(ps[0]);
    } else {
      PoolInvariant(ps, es, i - 1);
      StepKeepsInv(ps[i - 1], es[i - 1], ps[i]);
    }
  }

  /** An empty buffer is offered whenever one is free, and it is the one free for longest. */
  lemma LongestFreeFirst(ps: seq<Pool>, es: seq<Event>, i: nat)
    requires Run(ps, es) && i < |ps|
    ensures var p := ps[i];
            && (p.free != [] ==> p.free[0] < |p.buffers|)
            && (EmptyBuffer(p).None? <==> forall k | 0 <= k < |p.buffers| :: p.buffers[k].used)
            && (EmptyBuffer(p).Some? ==>
                  exists at | 0 <= at < |p.buffers| == |p.since| ::
                    && p.buffers[at].id == EmptyBuffer(p).value && !p.buffers[at].used
                    && forall k | 0 <= k < |p.buffers| && !p.buffers[k].used && k != at :: p.since[at] < p.since[k])
  {
    PoolInvariant(ps, es, i);
    var p := ps[i];
    if p.free != [] {
      var at := p.free[0];
      assert at in p.free;
      forall k | 0 <= k < |p.buffers| && !p.buffers[k].used && k != at ensures p.since[at] < p.since[k] {
        assert k in p.free;
      }
    } else {
      assert forall k | 0 <= k < |p.buffers| :: k !in p.free;
    }
  }

  /** The short cut of finding a buffer by its index agrees with a search, in every state of every run,
      exactly for the ids outside the range its bounds test lets through in error. */
  lemma FindAgrees(ps: seq<Pool>, es: seq<Event>, i: nat, id: nat)
    requires Run(ps, es) && i < |ps|
    ensures var p := ps[i];
            FindBuffer(p, id) == Search(p.buffers, id, 0)
            <==> !(p.inOrder && |p.buffers| <= id < 5 * |p.buffers|)
  {
    PoolInvariant(ps, es, i);
    var p := ps[i];
    assert SIZEOF_BUFFER_ID * |p.buffers| / SIZEOF_SIZE_T == 5 * |p.buffers|;
    if p.inOrder && id < |p.buffers| {
      assert p.buffers[id].id == id;
      assert Search(p.buffers, id, 0).Found?;
    }
  }

  /** The event puts this buffer into use: it is sent while no output is pending. */
  predicate Sends(p: Pool, e: Event, id: nat) {
    e == Sent(id) && p.output.None?
  }

  /** Nothing but sending this buffer puts it back into use: between two successful recyclings of it, it
      was sent while no output was pending, or the buffers were replaced. */
  lemma RecycleNeedsSend(ps: seq<Pool>, es: seq<Event>, i: nat, j: nat, id: nat)
    requires Run(ps, es) && i < j < |es| && es[i] == Recycled(id) && es[j] == Recycled(id)
    requires InUse(ps[i], id) && InUse(ps[j], id)
    ensures exists k | i < k < j :: es[k].UseBuffers? || Sends(ps[k], es[k], id)
  {
    if forall k | i < k < j :: !es[k].UseBuffers? && !Sends(ps[k], es[k], id) {
      OneStep(ps, es, i, id);
      StaysFree(ps, es, i + 1, j, id);
    }
  }

  /** And sending does: a buffer that was sent while free, with no output pending, can be recycled until
      that is done or the buffers are replaced. */
  lemma SendAllowsRecycle(ps: seq<Pool>, es: seq<Event>, i: nat, j: nat, id: nat)
    requires Run(ps, es) && i < j < |es| && Sends(ps[i], es[i], id) && IsFree(ps[i], id)
    requires forall k | i < k < j :: !es[k].UseBuffers? && es[k] != Recycled(id)
    ensures InUse(ps[j], id) && |ps[j].since| == |ps[j].buffers| && Recycle(ps[j], id).1
  {
    OneStep(ps, es, i, id);
    StaysInUse(ps, es, i + 1, j, id);
    PoolInvariant(ps, es, j);
  }

  /** Both ways, for a free buffer: it can be recycled later, without the buffers being replaced, only and
      always after it was sent more recently than it was recycled. */
  lemma RecycleExactly(ps: seq<Pool>, es: seq<Event>, i: nat, j: nat, id: nat)
    requires Run(ps, es) && i <= j < |ps| && IsFree(ps[i], id)
    requires forall k | i <= k < j :: !es[k].UseBuffers?
    ensures InUse(ps[j], id) <==> exists k | i <= k < j :: Sends(ps[k], es[k], id)
                                     && forall m | k < m < j :: es[m] != Recycled(id)
  {
    FreeOrSent(ps, es, i, j, id);
    if k :| i <= k < j && Sends(ps[k], es[k], id) && forall m | k < m < j :: es[m] != Recycled(id) {
      FreeOrSent(ps, es, i, k, id);
      OneStep(ps, es, k, id);
      StaysInUse(ps, es, k + 1, j, id);
    }
  }

  /** A buffer that was free is still known; it is in use only if it was sent and not recycled since. */
  lemma {:induction false} FreeOrSent(ps: seq<Pool>, es: seq<Event>, i: nat, j: nat, id: nat)
    requires Run(ps, es) && i <= j < |ps| && IsFree(ps[i], id)
    requires forall k | i <= k < j :: !es[k].UseBuffers?
    ensures IsFree(ps[j], id) || InUse(ps[j], id)
    ensures InUse(ps[j], id) ==> exists k | i <= k < j :: Sends(ps[k], es[k], id)
                                    && forall m | k < m < j :: es[m] != Recycled(id)
    decreases j
  {
    if i < j {
      FreeOrSent(ps, es, i, j - 1, id);
      OneStep(ps, es, j - 1, id);
    }
  }

  /** What one step of a run does to a known buffer, unless the buffers are replaced. */
  lemma OneStep(ps: seq<Pool>, es: seq<Event>, i: nat, id: nat)
    requires Run(ps, es) && i < |es| && !es[i].UseBuffers? && (IsFree(ps[i], id) || InUse(ps[i], id))
    ensures IsFree(ps[i], id) && !Sends(ps[i], es[i], id) ==> IsFree(ps[i + 1], id)
    ensures InUse(ps[i], id) && es[i] != Recycled(id) ==> InUse(ps[i + 1], id)
    ensures InUse(ps[i], id) && es[i] == Recycled(id) ==> IsFree(ps[i + 1], id)
    ensures Sends(ps[i], es[i], id) ==> InUse(ps[i + 1], id)
  {
    PoolInvariant(ps, es, i);
    StepEffect(ps[i], es[i], ps[i + 1], id);
  }

  lemma StepEffect(p: Pool, e: Event, p': Pool, id: nat)
    requires Inv(p) && Next(p, e, p') && !e.UseBuffers? && (IsFree(p, id) || InUse(p, id))
    ensures IsFree(p, id) && !Sends(p, e, id) ==> IsFree(p', id)
    ensures InUse(p, id) && e != Recycled(id) ==> InUse(p', id)
    ensures InUse(p, id) && e == Recycled(id) ==> IsFree(p', id)
    ensures Sends(p, e, id) ==> InUse(p', id)
  {
    if IsFree(p, id) {
      if Sends(p, e, id) {
        SendUses(p, id);
      } else {
        StepLeavesFree(p, e, p', id);
      }
    } else if e == Recycled(id) {
      RecycleFrees(p, id);
    } else {
      StepLeavesInUse(p, e, p', id);
    }
  }

  lemma RecycleFrees(p: Pool, id: nat)
    requires Inv(p) && InUse(p, id)
    ensures IsFree(Recycle(p, id).0, id)
  {
    SearchByIds(p.buffers, Recycle(p, id).0.buffers, id, 0);
  }

  lemma SendUses(p: Pool, id: nat)
    requires Inv(p) && IsFree(p, id) && p.output.None?
    ensures InUse(Send(p, id).0, id)
  {
    SearchByIds(p.buffers, Send(p, id).0.buffers, id, 0);
  }

  lemma {:induction false} StaysFree(ps: seq<Pool>, es: seq<Event>, i: nat, j: nat, id: nat)
    requires Run(ps, es) && i <= j < |ps| && IsFree(ps[i], id)
    requires forall k | i <= k < j :: !es[k].UseBuffers? && !Sends(ps[k], es[k], id)
    ensures IsFree(ps[j], id)
    decreases j
  {
    if i < j {
      StaysFree(ps, es, i, j - 1, id);
      OneStep(ps, es, j - 1, id);
    }
  }

  lemma {:induction false} StaysInUse(ps: seq<Pool>, es: seq<Event>, i: nat, j: nat, id: nat)
    requires Run(ps, es) && i <= j < |ps| && InUse(ps[i], id)
    requires forall k | i <= k < j :: !es[k].UseBuffers? && es[k] != Recycled(id)
    ensures InUse(ps[j], id)
    decreases j
  {
    if i < j {
      StaysInUse(ps, es, i, j - 1, id);
      OneStep(ps, es, j - 1, id);
    }
  }

  /** What is found under an id has it. */
  lemma FoundHasId(p: Pool, id: nat)
    requires Inv(p) && FindBuffer(p, id).Found?
    ensures p.buffers[FindBuffer(p, id).at].id == id
  {
  }

  lemma StepLeavesFree(p: Pool, e: Event, p': Pool, id: nat)
    requires Inv(p) && Next(p, e, p') && !e.UseBuffers? && !Sends(p, e, id) && IsFree(p, id)
    ensures IsFree(p', id)
  {
    FoundHasId(p, id);
    if e.Sent? && FindBuffer(p, e.id).Found? {
      FoundHasId(p, e.id);
    }
    SearchByIds(p.buffers, p'.buffers, id, 0);
  }

  lemma StepLeavesInUse(p: Pool, e: Event, p': Pool, id: nat)
    requires Inv(p) && Next(p, e, p') && !e.UseBuffers? && e != Recycled(id) && InUse(p, id)
    ensures InUse(p', id)
  {
    FoundHasId(p, id);
    if e.Recycled? && FindBuffer(p, e.id).Found? {
      FoundHasId(p, e.id);
    }
    SearchByIds(p.buffers, p'.buffers, id, 0);
  }

  // ---------- the output ----------

  /** There is a buffer of this id that is free, or in use: said of the buffers alone. */
  predicate Has(p: Pool, id: nat, used: bool) {
    exists at | 0 <= at < |p.buffers| :: p.buffers[at] == BufferId(id, used)
  }

  lemma HasMeans(p: Pool, id: nat)
    requires Inv(p)
    ensures IsFree(p, id) <==> Has(p, id, false) && !FindBuffer(p, id).Stray?
    ensures InUse(p, id) <==> Has(p, id, true) && !FindBuffer(p, id).Stray?
    ensures FindBuffer(p, id).Stray? ==> forall at | 0 <= at < |p.buffers| :: p.buffers[at].id != id
  {
    var f := FindBuffer(p, id);
    if f.Found? {
      FoundHasId(p, id);
      assert p.buffers[f.at] == BufferId(id, p.buffers[f.at].used);
    }
  }

  lemma KnownIsHas(p: Pool, id: nat)
    requires Inv(p)
    ensures IsFree(p, id) <==> Has(p, id, false)
    ensures InUse(p, id) <==> Has(p, id, true)
  {
    HasMeans(p, id);
  }

  /** What sending does. With an output pending it is refused and changes nothing. Otherwise it is handled, and
      the port holds that very buffer, now in use, if it was free; and nothing changes if it was not. */
  lemma SendFillsPort(ps: seq<Pool>, es: seq<Event>, i: nat, id: nat)
    requires Run(ps, es) && i < |es| && es[i] == Sent(id)
    ensures var p, p' := ps[i], ps[i + 1];
            && (Send(p, id).1 <==> p.output.None?)
            && (p.output.Some? || !Has(p, id, false) ==> p' == p)
            && (p.output.None? && Has(p, id, false) ==> p'.output == Some(id) && Has(p', id, true))
  {
    PoolInvariant(ps, es, i);
    PoolInvariant(ps, es, i + 1);
    KnownIsHas(ps[i], id);
    KnownIsHas(ps[i + 1], id);
    assert Next(ps[i], es[i], ps[i + 1]);
    if ps[i].output.None? && IsFree(ps[i], id) {
      SendUses(ps[i], id);
    }
  }

  /** What recycling answers: true exactly for a buffer that is in use, and then it is free; otherwise nothing
      changes. */
  lemma RecycleAnswers(ps: seq<Pool>, es: seq<Event>, i: nat, id: nat)
    requires Run(ps, es) && i < |es| && es[i] == Recycled(id)
    ensures var p, p' := ps[i], ps[i + 1];
            && |p.since| == |p.buffers| && (Recycle(p, id).1 <==> Has(p, id, true))
            && (Has(p, id, true) ==> Has(p', id, false) && p'.output == p.output)
            && (!Has(p, id, true) ==> p' == p)
  {
    PoolInvariant(ps, es, i);
    PoolInvariant(ps, es, i + 1);
    KnownIsHas(ps[i], id);
    KnownIsHas(ps[i + 1], id);
    assert Next(ps[i], es[i], ps[i + 1]);
    if InUse(ps[i], id) {
      RecycleFrees(ps[i], id);
    }
  }

  /** The port changes only when it is taken, which empties it, and when a free buffer is sent while it is
      empty, which fills it. */
  lemma OutputChanges(ps: seq<Pool>, es: seq<Event>, i: nat)
    requires Run(ps, es) && i < |es|
    ensures var p, p' := ps[i], ps[i + 1];
            && (es[i].OutputTaken? ==> p' == p.(output := None))
            && (p'.output != p.output && !es[i].OutputTaken? ==>
                  es[i].Sent? && p.output.None? && Has(p, es[i].id, false) && p'.output == Some(es[i].id))
  {
    assert Next(ps[i], es[i], ps[i + 1]);
    if es[i].Sent? {
      SendFillsPort(ps, es, i, es[i].id);
    } else if es[i].UseBuffers? {
      AddAllKeepsOutput(Cleared(ps[i]), es[i].ids, es[i].outputs, |es[i].ids|);
    }
  }

  lemma {:induction false} AddAllKeepsOutput(p: Pool, ids: seq<Option<nat>>, outputs: bool, k: nat)
    requires k <= |ids|
    ensures AddAll(p, ids, outputs, k).output == p.output
  {
    if k > 0 {
      AddAllKeepsOutput(p, ids, outputs, k - 1);
    }
  }

  /** What is pending. Over every run a pending output names a buffer that was free when it was sent, since when
      the port was not taken; and that buffer is in use, unless it was recycled or the buffers were
      replaced since. */
  lemma {:induction false} PendingWasSent(ps: seq<Pool>, es: seq<Event>, n: nat) returns (i: nat)
    requires Run(ps, es) && n < |ps| && ps[n].output.Some?
    ensures i < n && es[i] == Sent(ps[n].output.value) && ps[i].output.None?
    ensures Has(ps[i], ps[n].output.value, false)
    ensures forall k | i < k < n :: !es[k].OutputTaken?
    ensures forall k | i < k <= n :: ps[k].output == ps[n].output
    ensures (forall k | i < k < n :: !es[k].UseBuffers? && es[k] != Recycled(ps[n].output.value)) ==>
              Has(ps[n], ps[n].output.value, true)
    decreases n
  {
    var id := ps[n].output.value;
    OutputChanges(ps, es, n - 1);
    if ps[n - 1].output == Some(id) {
      i := PendingWasSent(ps, es, n - 1);
    } else {
      i := n - 1;
      SendFillsPort(ps, es, i, id);
    }
    if forall k | i < k < n :: !es[k].UseBuffers? && es[k] != Recycled(id) {
      SentStaysInUse(ps, es, i, n, id);
    }
  }

  lemma SentStaysInUse(ps: seq<Pool>, es: seq<Event>, i: nat, n: nat, id: nat)
    requires Run(ps, es) && i < n < |ps| && es[i] == Sent(id) && ps[i].output.None? && Has(ps[i], id, false)
    requires forall k | i < k < n :: !es[k].UseBuffers? && es[k] != Recycled(id)
    ensures Has(ps[n], id, true)
  {
    PoolInvariant(ps, es, i);
    KnownIsHas(ps[i], id);
    OneStep(ps, es, i, id);
    StaysInUse(ps, es, i + 1, n, id);
    PoolInvariant(ps, es, n);
    KnownIsHas(ps[n], id);
  }

  /** The ids that are there. */
  function Known(ids: seq<Option<nat>>): seq<nat> {
    if ids == [] then []
    else Known(ids[..|ids| - 1]) + if ids[|ids| - 1].Some? then [ids[|ids| - 1].value] else []
  }

  /** New buffers: exactly those whose memory is known, in their order, all free on a stream that outputs, in
      their order, and all in use on one that inputs. */
  lemma BuffersReplaced(ps: seq<Pool>, es: seq<Event>, i: nat)
    requires Run(ps, es) && i < |es| && es[i].UseBuffers?
    ensures var p', ids, outputs := ps[i + 1], Known(es[i].ids), es[i].outputs;
            && |p'.buffers| == |ids|
            && (forall k | 0 <= k < |ids| :: p'.buffers[k] == BufferId(ids[k], !outputs))
            && |p'.free| == (if outputs then |ids| else 0)
            && (forall k | 0 <= k < |p'.free| :: p'.free[k] == k)
  {
    assert Next(ps[i], es[i], ps[i + 1]);
    AllAdded(Cleared(ps[i]), es[i].ids, es[i].outputs, |es[i].ids|);
    assert es[i].ids[..|es[i].ids|] == es[i].ids;
  }

  lemma {:induction false} AllAdded(p: Pool, ids: seq<Option<nat>>, outputs: bool, k: nat)
    requires p.buffers == [] && p.free == [] && k <= |ids|
    ensures var p', known := AddAll(p, ids, outputs, k), Known(ids[..k]);
            && |p'.buffers| == |known|
            && (forall j | 0 <= j < |known| :: p'.buffers[j] == BufferId(known[j], !outputs))
            && |p'.free| == (if outputs then |known| else 0)
            && (forall j | 0 <= j < |p'.free| :: p'.free[j] == j)
  {
    if k > 0 {
      AllAdded(p, ids, outputs, k - 1);
      assert ids[..k][..k - 1] == ids[..k - 1];
    }
  }

  // ---------- two short runs ----------

  lemma Extended(ps: seq<Pool>, es: seq<Event>, e: Event, p: Pool)
    requires Run(ps, es) && Next(ps[|es|], e, p)
    ensures Run(ps + [p], es + [e])
  {
  }

  const EMPTY_POOL := Pool([], [], false, None, 0, [])

  lemma OneBuffer(outputs: bool) returns (ps: seq<Pool>, es: seq<Event>)
    ensures Run(ps, es) && es == [UseBuffers([Some(0)], outputs)]
    ensures ps[1] == Pool([BufferId(0, !outputs)], if outputs then [0] else [], true, None, 1, [0])
  {
    var ids: seq<Option<nat>> := [Some(0)];
    var p := AddAll(Cleared(EMPTY_POOL), ids, outputs, 1);
    assert AddAll(Cleared(EMPTY_POOL), ids, outputs, 0) == Cleared(EMPTY_POOL);
    Extended([EMPTY_POOL], [], UseBuffers(ids, outputs), p);
    ps, es := [EMPTY_POOL] + [p], [] + [UseBuffers(ids, outputs)];
  }

  /** An input stream with one buffer: the first recycling succeeds and the second is refused, and so it
      stays for as long as the stream does not send and keeps its buffers. */
  lemma InputRecycledOnce() returns (ps: seq<Pool>, es: seq<Event>)
    ensures Run(ps, es) && es == [UseBuffers([Some(0)], false), Recycled(0), Recycled(0)]
    ensures InUse(ps[1], 0) && IsFree(ps[2], 0) && ps[3] == ps[2]
  {
    ps, es := OneBuffer(false);
    var p := Recycle(ps[1], 0).0;
    Extended(ps, es, Recycled(0), p);
    ps, es := ps + [p], es + [Recycled(0)];
    Extended(ps, es, Recycled(0), p);
    ps, es := ps + [p], es + [Recycled(0)];
  }

  /** With one buffer, id 1 leads the shortcut to an element that does not exist, where a search finds nothing. */
  lemma StrayElement() returns (ps: seq<Pool>, es: seq<Event>)
    ensures Run(ps, es) && |es| == 1
    ensures FindBuffer(ps[1], 1) == Stray && Search(ps[1].buffers, 1, 0) == Missing
  {
    ps, es := OneBuffer(true);
  }

  lemma {:induction false} SearchByIds(a: seq<BufferId>, b: seq<BufferId>, id: nat, from: nat)
    requires |a| == |b| && from <= |a| && forall k | 0 <= k < |a| :: a[k].id == b[k].id
    ensures Search(a, id, from) == Search(b, id, from)
    decreases |a| - from
  {
    if from < |a| {
      SearchByIds(a, b, id, from + 1);
    }
  }
}
