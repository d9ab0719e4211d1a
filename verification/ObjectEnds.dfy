/** The two ends of the object-id protocol: proxies of the client, resources of the server, and the session
    that connects them. */
module ObjectEnds {
  import opened Prelude
  import opened IdMaps
  import opened ObjectIds

  const ID_INVALID := 0xffff_ffff

  predicate IsObject(w: Word) {
    w != NULL && Aligned(w)
  }

  class Client {
    const objects: IdMap

    /** Every id in use has a proxy. */
    ghost predicate Valid()
      reads this, objects
    {
      objects.Valid() && forall id | 0 <= id < |objects.items| && Live(objects.ids, id) :: IsObject(objects.items[id])
    }

    constructor (objects: IdMap)
      requires objects.Valid() && objects.ids == Ids(0, [])
      ensures Valid() && this.objects == objects
    {
      this.objects := objects;
    }

    /** A new proxy: at the id freed last or at a new one, or at a given id if that is within reach. */
    method NewProxy(given: nat, proxy: Word) returns (id: Option<nat>)
      requires Valid() && IsObject(proxy)
      modifies objects
      ensures given == ID_INVALID ==>
                && Valid() && id == Some(NewId(old(objects.ids))) && objects.ids == Taken(old(objects.ids))
                && id.value < |objects.items| && objects.items[id.value] == proxy
      ensures given != ID_INVALID ==>
                && id == (if given <= |old(objects.items)| then Some(given) else None)
                && (id.Some? ==> given < |objects.items| && objects.items[given] == proxy)
                && (given !in old(objects.ids.free) ==> Valid())
    {
      if given == ID_INVALID {
        var slot := objects.InsertNew(proxy);
        TakenIsProper(old(objects.ids));
        return Some(slot);
      }
      var ok := objects.InsertAt(given, proxy);
      return if ok then Some(given) else None;
    }

    /** The slot of a freed id still looks like a proxy: it ends the free list, and its upper half stayed. */
    ghost predicate Dangling(id: nat)
      reads objects
      requires objects.Valid()
    {
      id in objects.ids.free && id == objects.ids.free[|objects.ids.free| - 1] && objects.items[id].hi != 0
    }

    /** Destroys the proxy of an id the server has let go, if there is one. */
    method RemoveId(id: nat) returns (destroyed: bool)
      requires Valid() && !Dangling(id)
      modifies objects
      ensures Valid() && (destroyed <==> Live(old(objects.ids), id))
      ensures objects.ids == if destroyed then Released(old(objects.ids), id) else old(objects.ids)
    {
      var proxy := objects.Lookup(id);
      destroyed := proxy != NULL;
      if destroyed {
        ReleasedIsProper(objects.ids, id);
        objects.Remove(id);
      }
    }
  }

  class Server {
    const objects: IdMap
    var removals: seq<nat>

    ghost predicate Valid()
      reads this, objects
    {
      && objects.Valid() && objects.ids.free == [] && |objects.items| < ID_INVALID
      && forall i | 0 <= i < |objects.items| :: Aligned(objects.items[i])
    }

    /** Which slots hold a resource. */
    ghost function Stored(): (s: seq<bool>)
      reads objects
      ensures |s| == |objects.items|
    {
      seq(|objects.items|, i requires 0 <= i < |objects.items| reads objects => objects.items[i] != NULL)
    }

    constructor (objects: IdMap)
      requires objects.Valid() && objects.ids == Ids(0, []) && objects.items == []
      ensures Valid() && this.objects == objects && removals == [] && Stored() == []
    {
      this.objects, this.removals := objects, [];
    }

    /** Stores a new resource at the id its client chose, refused if the map has no such slot yet; or, without
        an id, at a new slot. The id returned is the one the resource keeps: the one it was given. */
    method NewResource(id: nat, resource: Word) returns (kept: Option<nat>)
      requires Valid() && IsObject(resource) && |objects.items| + 1 < ID_INVALID
      modifies objects
      ensures Valid()
      ensures id != ID_INVALID ==>
                && kept == (if id <= |old(objects.items)| then Some(id) else None)
                && Stored() == Put(old(Stored()), id, true)
                && (kept.Some? ==> objects.items[id] == resource)
      ensures id == ID_INVALID ==>
                && kept == Some(ID_INVALID) && Stored() == old(Stored()) + [true]
                && objects.items == old(objects.items) + [resource]
    {
      if id == ID_INVALID {
        var slot := objects.InsertNew(resource);
        assert Stored() == old(Stored()) + [true];
        return Some(id);
      }
      var ok := objects.InsertAt(id, resource);
      assert Stored() == Put(old(Stored()), id, true);
      return if ok then Some(id) else None;
    }

    /** Clears the slot of a resource, then lets the client have the id again. A resource made without an id
        kept the invalid id, which clears nothing: its slot stays filled. */
    method DestroyResource(id: nat)
      requires Valid() && (id == ID_INVALID || (id < |objects.items| && objects.items[id] != NULL))
      modifies this, objects
      ensures Valid() && removals == old(removals) + [id]
      ensures Stored() == Put(old(Stored()), id, false)
      ensures id == ID_INVALID ==> Stored() == old(Stored())
    {
      var ok := objects.InsertAt(id, NULL);
      removals := removals + [id];
      assert Stored() == Put(old(Stored()), id, false);
    }

    /** Binds a known global to a new id; for an unknown one the slot is marked as used, and returned. */
    method Bind(globals: seq<nat>, global: nat, newId: nat, resource: Word)
      requires Valid() && IsObject(resource) && newId != ID_INVALID && |objects.items| + 1 < ID_INVALID
      modifies this, objects
      ensures Valid()
      ensures Stored() == Put(old(Stored()), newId, global in globals)
      ensures removals == if global in globals then old(removals) else old(removals) + [newId]
      ensures newId <= |old(objects.items)| ==>
                newId < |objects.items| && objects.items[newId] == if global in globals then resource else NULL
    {
      var i := 0;
      while i < |globals| && globals[i] != global
        invariant 0 <= i <= |globals| && global !in globals[..i]
      {
        i := i + 1;
      }
      if i < |globals| {
        var kept := NewResource(newId, resource);
      } else {
        Reject(newId);
      }
    }

    /** Marks the slot of an id as used and freed, and lets the client have the id again. */
    method Reject(newId: nat)
      requires Valid() && newId != ID_INVALID && |objects.items| + 1 < ID_INVALID
      modifies this, objects
      ensures Valid() && removals == old(removals) + [newId]
      ensures Stored() == Put(old(Stored()), newId, false)
      ensures newId <= |old(objects.items)| ==> newId < |objects.items| && objects.items[newId] == NULL
    {
      var ok := objects.InsertAt(newId, NULL);
      assert Stored() == Put(old(Stored()), newId, false);
      removals := removals + [newId];
    }
  }

  /** A client and a server with the requests between them: the protocol, step by step. */
  class Session {
    const client: Client
    const server: Server
    var requests: seq<nat>

    ghost function View(): System
      reads this, client, client.objects, server, server.objects
    {
      System(client.objects.ids, server.Stored(), requests, server.removals)
    }

    ghost predicate Valid()
      reads this, client, client.objects, server, server.objects
    {
      && client.objects != server.objects && client.Valid() && server.Valid()
      && client.objects.ids.size < ID_INVALID - 1
      && Inv(View())
    }

    constructor (client: Client, server: Server)
      requires client.objects != server.objects && client.Valid() && server.Valid()
      requires client.objects.ids == Ids(1, []) && server.Stored() == [true] && server.removals == []
      ensures Valid() && Init(View()) && this.client == client && this.server == server
    {
      this.client, this.server, this.requests := client, server, [];
      new;
      InitIsValid(View());
    }

    /** The client creates a proxy and asks for an object with its id. */
    method Create(proxy: Word)
      requires Valid() && IsObject(proxy) && client.objects.ids.size + 1 < ID_INVALID - 1
      modifies this, client.objects
      ensures Valid() && Next(old(View()), Allocate, View())
      ensures requests != []
      ensures var id := requests[|requests| - 1];
              id < |client.objects.items| && client.objects.items[id] == proxy
    {
      ghost var s := View();
      var id := client.NewProxy(ID_INVALID, proxy);
      requests := requests + [id.value];
      StepKeepsInv(s, Allocate, View());
    }

    /** The server serves the next request, to bind a global: with a resource, if there is such a global. */
    method Serve(globals: seq<nat>, global: nat, resource: Word)
      requires Valid() && IsObject(resource) && requests != []
      modifies this, server, server.objects
      ensures Valid() && Next(old(View()), if global in globals then ServeNew else ServeMissing, View())
      ensures var id := old(requests)[0];
              id < |server.objects.items| && server.objects.items[id] == if global in globals then resource else NULL
    {
      ghost var s := View();
      RequestIsAccepted(s);
      RequestsInBounds(s);
      var id := requests[0];
      requests := requests[1..];
      server.Bind(globals, global, id, resource);
      StepKeepsInv(s, if global in globals then ServeNew else ServeMissing, View());
    }

    /** The server destroys a resource. */
    method Destroy(id: nat)
      requires Valid() && id < |server.objects.items| && server.objects.items[id] != NULL
      modifies server, server.objects
      ensures Valid() && Next(old(View()), ObjectIds.Destroy(id), View())
    {
      ghost var s := View();
      server.DestroyResource(id);
      StepKeepsInv(s, ObjectIds.Destroy(id), View());
    }

    /** The client handles the next removal; there is always a proxy to destroy. */
    method Remove() returns (destroyed: bool)
      requires Valid() && server.removals != []
      modifies server, client.objects
      ensures Valid() && destroyed && Next(old(View()), ClientRemove, View())
    {
      ghost var s := View();
      RemovedIsLive(s);
      var id := server.removals[0];
      server.removals := server.removals[1..];
      destroyed := client.RemoveId(id);
      StepKeepsInv(s, ClientRemove, View());
    }
  }
}
