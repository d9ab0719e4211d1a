/** The object-id protocol: the client picks the id of a new object, the server stores a resource
    there, and tells the client when the id is free again. Two queues run between them. */
module ObjectIds {
  import opened Prelude
  import opened IdMaps

  /** `server` says of each slot of the server's map whether a resource is stored there. */
  datatype System = System(client: Ids, server: seq<bool>, requests: seq<nat>, removals: seq<nat>)

  datatype Event =
    | Allocate              // the client creates a proxy and asks for an object with its id
    | ServeNew              // the server creates a resource for the request at hand
    | ServeMissing          // the request names no known global: the slot is marked, the id returned
    | Destroy(id: nat)      // the server destroys a resource
    | ClientRemove          // the client learns that an id is free again

  /** Storing into the server's map: refused beyond the next new slot. */
  function Put(server: seq<bool>, id: nat, stored: bool): seq<bool> {
    if id < |server| then server[id := stored]
    else if id == |server| then server + [stored]
    else server
  }

  predicate Next(s: System, e: Event, s': System) {
    match e
    case Allocate => s' == s.(client := Taken(s.client), requests := s.requests + [NewId(s.client)])
    case ServeNew =>
      s.requests != [] &&
      s' == s.(requests := s.requests[1..], server := Put(s.server, s.requests[0], true))
    case ServeMissing =>
      s.requests != [] &&
      s' == s.(requests := s.requests[1..], server := Put(s.server, s.requests[0], false),
               removals := s.removals + [s.requests[0]])
    case Destroy(id) =>
      id < |s.server| && s.server[id] &&
      s' == s.(server := Put(s.server, id, false), removals := s.removals + [id])
    case ClientRemove =>
      s.removals != [] &&
      s' == s.(removals := s.removals[1..],
               client := if Live(s.client, s.removals[0]) then Released(s.client, s.removals[0]) else s.client)
  }

  /** Both sides start with the core object at id 0. */
  predicate Init(s: System) {
    s == System(Ids(1, []), [true], [], [])
  }

  ghost predicate Run(ss: seq<System>, es: seq<Event>) {
    |ss| == |es| + 1 && Init(ss[0]) && forall i | 0 <= i < |es| :: Next(ss[i], es[i], ss[i + 1])
  }

  /** The places an id is in: requests, removals, or a stored resource. */
  function Places(s: System, id: nat): nat {
    multiset(s.requests)[id] + multiset(s.removals)[id] + (if id < |s.server| && s.server[id] then 1 else 0)
  }

  /** A map of n slots accepts these requests one after the other and ends with m slots. */
  predicate Accepts(n: nat, requests: seq<nat>, m: nat)
    decreases |requests|
  {
    if requests == [] then n == m
    else requests[0] <= n && Accepts(if requests[0] == n then n + 1 else n, requests[1..], m)
  }

  /** Every id the client holds is in exactly one place, any other in none; and the server's map
      grows with the requests to the size of the client's. */
  ghost predicate Inv(s: System) {
    && Proper(s.client)
    && (forall id: nat :: Places(s, id) == if Live(s.client, id) then 1 else 0)
    && Accepts(|s.server|, s.requests, s.client.size)
  }

  lemma {:induction false} AcceptsMore(n: nat, requests: seq<nat>, m: nat, id: nat)
    requires Accepts(n, requests, m) && id <= m
    ensures Accepts(n, requests + [id], if id == m then m + 1 else m)
    decreases |requests|
  {
    if requests == [] {
      assert ([] + [id])[1..] == [];
    } else {
      assert (requests + [id])[1..] == requests[1..] + [id];
      AcceptsMore(if requests[0] == n then n + 1 else n, requests[1..], m, id);
    }
  }

  /** The server's map never outgrows the client's. */
  lemma {:induction false} AcceptsGrows(n: nat, requests: seq<nat>, m: nat)
    requires Accepts(n, requests, m)
    ensures n <= m
    decreases |requests|
  {
    if requests != [] {
      AcceptsGrows(if requests[0] == n then n + 1 else n, requests[1..], m);
    }
  }

  lemma RequestsInBounds(s: System)
    requires Inv(s)
    ensures |s.server| <= s.client.size
  {
    AcceptsGrows(|s.server|, s.requests, s.client.size);
  }

  lemma AllocateKeepsInv(s: System, s': System)
    requires Inv(s) && Next(s, Allocate, s')
    ensures Inv(s')
  {
    var id := NewId(s.client);
    TakenIsProper(s.client);
    AcceptsMore(|s.server|, s.requests, s.client.size, id);
    forall i: nat ensures Places(s', i) == Places(s, i) + if i == id then 1 else 0 {
    }
  }

  lemma ServeKeepsInv(s: System, e: Event, s': System)
    requires Inv(s) && (e.ServeNew? || e.ServeMissing?) && Next(s, e, s')
    ensures Inv(s')
  {
    HeadLeaves(s.requests);
    forall i: nat ensures Places(s', i) == Places(s, i) {
      assert Places(s, s.requests[0]) <= 1;
    }
  }

  lemma ClientRemoveKeepsInv(s: System, s': System)
    requires Inv(s) && Next(s, ClientRemove, s')
    ensures Inv(s')
  {
    var id := s.removals[0];
    HeadLeaves(s.removals);
    assert Places(s, id) >= 1;
    ReleasedIsProper(s.client, id);
    forall i: nat ensures Places(s', i) + (if i == id then 1 else 0) == Places(s, i) {
    }
  }

  lemma StepKeepsInv(s: System, e: Event, s': System)
    requires Inv(s) && Next(s, e, s')
    ensures Inv(s')
  {
    match e
    case Allocate => AllocateKeepsInv(s, s');
    case ServeNew => ServeKeepsInv(s, e, s');
    case ServeMissing => ServeKeepsInv(s, e, s');
    case Destroy(id) =>
      forall i: nat ensures Places(s', i) == Places(s, i) {
      }
    case ClientRemove => ClientRemoveKeepsInv(s, s');
  }

  lemma HeadLeaves(q: seq<nat>)
    requires q != []
    ensures forall id: nat :: multiset(q)[id] == multiset(q[1..])[id] + if id == q[0] then 1 else 0
  {
    assert q == [q[0]] + q[1..];
  }

  lemma InitIsValid(s: System)
    requires Init(s)
    ensures Inv(s)
  {
    assert forall id: nat :: Places(s, id) == if id == 0 then 1 else 0;
  }

  lemma {:induction false} Reachable(ss: seq<System>, es: seq<Event>, i: nat)
    requires Run(ss, es) && i < |ss|
    ensures Inv(ss[i])
    decreases i
  {
    if i > 0 {
      Reachable(ss, es, i - 1);
      assert Next(ss[i - 1], es[i - 1], ss[i]);
      StepKeepsInv(ss[i - 1], es[i - 1], ss[i]);
    } else {
      InitIsValid(ss[0]);
    }
  }

  lemma RequestIsAccepted(s: System)
    requires Inv(s) && s.requests != []
    ensures var id := s.requests[0];
            && id <= |s.server| && id < s.client.size
            && (id < |s.server| ==> !s.server[id])
            && Put(s.server, id, true) != s.server
  {
    HeadLeaves(s.requests);
    assert Places(s, s.requests[0]) <= 1;
  }

  lemma RemovedIsLive(s: System)
    requires Inv(s) && s.removals != []
    ensures var id := s.removals[0];
            && Live(s.client, id) && id !in s.requests && id !in s.removals[1..]
            && !(id < |s.server| && s.server[id])
  {
    HeadLeaves(s.removals);
    assert Places(s, s.removals[0]) == 1;
  }

  /** No live overwrite, and acceptance. Over every interleaving, the id of a request about to be
      served is one the server's map accepts, and no resource is stored at it. */
  lemma NoLiveOverwrite(ss: seq<System>, es: seq<Event>, i: nat)
    requires Run(ss, es) && i < |ss| && ss[i].requests != []
    ensures var id := ss[i].requests[0];
            && id <= |ss[i].server|
            && (id < |ss[i].server| ==> !ss[i].server[id])
            && Put(ss[i].server, id, true) != ss[i].server
  {
    Reachable(ss, es, i);
    RequestIsAccepted(ss[i]);
  }

  /** The client never frees an id twice, and never one the server still uses: a removal about to
      arrive names an id that is live at the client, empty at the server, and not requested again. */
  lemma RemovalIsLive(ss: seq<System>, es: seq<Event>, i: nat)
    requires Run(ss, es) && i < |ss| && ss[i].removals != []
    ensures var s := ss[i]; var id := s.removals[0];
            && Live(s.client, id) && id !in s.requests && id !in s.removals[1..]
            && !(id < |s.server| && s.server[id])
  {
    Reachable(ss, es, i);
    RemovedIsLive(ss[i]);
  }

  /** Once both queues are empty, the two sides agree: the ids in use at the client are exactly those
      with a resource at the server, and their maps are of one size. */
  lemma QuiescentAgreement(ss: seq<System>, es: seq<Event>, i: nat)
    requires Run(ss, es) && i < |ss| && ss[i].requests == [] && ss[i].removals == []
    ensures var s := ss[i];
            && |s.server| == s.client.size
            && forall id: nat | id < |s.server| :: s.server[id] <==> Live(s.client, id)
  {
    Reachable(ss, es, i);
    forall id: nat | id < |ss[i].server| ensures ss[i].server[id] <==> Live(ss[i].client, id) {
      assert Places(ss[i], id) == if Live(ss[i].client, id) then 1 else 0;
    }
  }

  // ---------- a request answered without storing anything ----------

  /** What the server does with a request to create a node, and with a bind it cannot carry out: an
      error, no slot, no removal. */
  function ServedByError(s: System): System
    requires s.requests != []
  {
    s.(requests := s.requests[1..])
  }

  /** Answering a request that way keeps later ids acceptable exactly if the id was not a new one:
      otherwise the server's map stays one slot short of what the following requests count on. */
  lemma UnstoredRequest(s: System)
    requires Inv(s) && s.requests != []
    ensures var s' := ServedByError(s);
            Accepts(|s'.server|, s'.requests + [s'.client.size], s'.client.size + 1)
            <==> s.requests[0] < |s.server|
  {
    var s', m := ServedByError(s), s.client.size;
    if s.requests[0] < |s.server| {
      AcceptsMore(|s'.server|, s'.requests, m, m);
    } else {
      HeadLeaves(s.requests);
      assert Places(s, s.requests[0]) <= 1;
      AcceptsFromFewer(|s.server|, s'.requests, m);
    }
  }

  /** A run that meets this: the first object asked for is not created, and the next is refused. */
  lemma FreshIdRefused() returns (ss: seq<System>, es: seq<Event>, s: System)
    ensures Run(ss, es) && es == [Allocate]
    ensures ss[1].requests == [1] && Next(ServedByError(ss[1]), Allocate, s)
    ensures s.requests == [2] && |s.server| < 2 && Put(s.server, s.requests[0], true) == s.server
  {
    var s0 := System(Ids(1, []), [true], [], []);
    var s1 := System(Ids(2, []), [true], [1], []);
    s := System(Ids(3, []), [true], [2], []);
    assert Next(s0, Allocate, s1);
    ss, es := [s0, s1], [Allocate];
    assert s1.requests[1..] == [];
  }

  /** Requests that grow a map of n + 1 slots to m do not fit a map of n, once the next new id follows. */
  lemma {:induction false} AcceptsFromFewer(n: nat, requests: seq<nat>, m: nat)
    requires Accepts(n + 1, requests, m)
    requires forall i | 0 <= i < |requests| :: requests[i] != n
    ensures !Accepts(n, requests + [m], m + 1)
    decreases |requests|
  {
    if requests == [] {
      assert (requests + [m])[0] == m == n + 1;
    } else {
      assert (requests + [m])[0] == requests[0] && (requests + [m])[1..] == requests[1..] + [m];
      if requests[0] < n {
        AcceptsFromFewer(n, requests[1..], m);
      }
    }
  }
}
