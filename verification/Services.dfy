/** The registry of service providers, samlidp/service.go: an index in memory over what is stored. */
module Services {
  import opened Wrappers
  import opened Store

  // ---------------------------------------------------------------- metadata

  /** The zero time, which counts as no limit, or a time. */
  datatype Time = Zero | At(t: int)

  datatype SPSSODescriptor = SPSSODescriptor(validUntil: Option<Time>, keyUses: seq<string>, details: string)

  datatype EntityDescriptor =
    EntityDescriptor(entityID: string, validUntil: Time, spssoDescriptors: seq<SPSSODescriptor>)

  predicate Expired(validUntil: Time, now: int) {
    validUntil.At? && validUntil.t <= now
  }

  predicate DescriptorExpired(d: SPSSODescriptor, now: int) {
    d.validUntil.Some? && Expired(d.validUntil.value, now)
  }

  function Unexpired(ds: seq<SPSSODescriptor>, now: int): seq<SPSSODescriptor> {
    if ds == [] then []
    else if DescriptorExpired(ds[0], now) then Unexpired(ds[1..], now)
    else [ds[0]] + Unexpired(ds[1..], now)
  }

  /** `currentMetadata`. */
  function CurrentMetadata(metadata: EntityDescriptor, now: int): Option<EntityDescriptor> {
    if Expired(metadata.validUntil, now) then None
    else
      var current := Unexpired(metadata.spssoDescriptors, now);
      if current == [] then None else Some(metadata.(spssoDescriptors := current))
  }

  lemma {:induction false} UnexpiredLater(ds: seq<SPSSODescriptor>, t: int, u: int)
    requires t <= u
    ensures Unexpired(Unexpired(ds, t), u) == Unexpired(ds, u)
  {
    if ds != [] {
      UnexpiredLater(ds[1..], t, u);
    }
  }

  /** What is current later is current now: looking at what was current at an earlier time gives the
      same answer, and what has expired stays expired. */
  lemma CurrentLater(metadata: EntityDescriptor, t: int, u: int)
    requires t <= u
    ensures CurrentMetadata(metadata, u) ==
              if CurrentMetadata(metadata, t).None? then None else CurrentMetadata(CurrentMetadata(metadata, t).value, u)
  {
    UnexpiredLater(metadata.spssoDescriptors, t, u);
  }

  /** The descriptors that are kept are exactly those without a time limit, or with one that is later than now, in their
      order. The zero time is no limit. */
  lemma {:induction false} UnexpiredPlaces(ds: seq<SPSSODescriptor>, now: int) returns (places: seq<nat>)
    ensures |places| == |Unexpired(ds, now)|
    ensures forall t :: 0 <= t < |places| ==> places[t] < |ds| && Unexpired(ds, now)[t] == ds[places[t]]
    ensures forall t, u :: 0 <= t < u < |places| ==> places[t] < places[u]
    ensures forall i: nat :: i < |ds| ==>
              (i in places <==> ds[i].validUntil.None? || ds[i].validUntil.value.Zero? || now < ds[i].validUntil.value.t)
    decreases |ds|
  {
    if ds == [] {
      places := [];
    } else {
      var k := |ds| - 1;
      places := UnexpiredPlaces(ds[..k], now);
      UnexpiredAppend(ds[..k], ds[k], now);
      assert ds == ds[..k] + [ds[k]];
      if !DescriptorExpired(ds[k], now) {
        ghost var before := places;
        places := places + [k];
        assert forall i :: i in places <==> i in before || i == k;
      }
    }
  }

  lemma {:induction false} UnexpiredAppend(ds: seq<SPSSODescriptor>, d: SPSSODescriptor, now: int)
    ensures Unexpired(ds + [d], now) == Unexpired(ds, now) + (if DescriptorExpired(d, now) then [] else [d])
  {
    hide DescriptorExpired;
    if ds == [] {
      assert [] + [d] == [d] && [d][1..] == [];
    } else {
      assert (ds + [d])[0] == ds[0] && (ds + [d])[1..] == ds[1..] + [d];
      UnexpiredAppend(ds[1..], d, now);
    }
  }

  /** There is current metadata if and only if its own time limit, if it has one, is later than now, and so is that of
      some descriptor, or that has none. Only descriptors go. */
  lemma CurrentExactly(metadata: EntityDescriptor, now: int)
    ensures CurrentMetadata(metadata, now).Some? <==>
              && (metadata.validUntil.Zero? || now < metadata.validUntil.t)
              && exists d :: d in metadata.spssoDescriptors
                   && (d.validUntil.None? || d.validUntil.value.Zero? || now < d.validUntil.value.t)
    ensures CurrentMetadata(metadata, now).Some? ==>
              CurrentMetadata(metadata, now).value
              == metadata.(spssoDescriptors := Unexpired(metadata.spssoDescriptors, now))
  {
    var ds := metadata.spssoDescriptors;
    var places := UnexpiredPlaces(ds, now);
    if d :| d in ds && (d.validUntil.None? || d.validUntil.value.Zero? || now < d.validUntil.value.t) {
      var i: nat :| i < |ds| && ds[i] == d;
      assert i in places;
    }
    if places != [] {
      assert places[0] in places;
      assert ds[places[0]] in ds;
    }
  }

  // ---------------------------------------------------------------- the registry as a value

  /** What is stored by service name, and the two maps by entity ID. */
  datatype Registry = Registry(
    stored: map<string, EntityDescriptor>,
    providers: map<string, EntityDescriptor>,
    ids: map<string, string>)

  /** The maps are the inverse of what is stored: every stored service, and nothing else, is registered
      under its entity ID with its own metadata. */
  ghost predicate Indexed(r: Registry) {
    && (forall id :: id in r.stored ==> Registered(r, id))
    && (forall entityID :: entityID in r.ids ==>
          r.ids[entityID] in r.stored && r.stored[r.ids[entityID]].entityID == entityID)
    && r.providers.Keys == r.ids.Keys
    && (forall entityID :: entityID in r.ids ==> r.providers[entityID] == r.stored[r.ids[entityID]])
  }

  predicate Registered(r: Registry, id: string)
    requires id in r.stored
  {
    r.stored[id].entityID in r.ids && r.ids[r.stored[id].entityID] == id
  }

  ghost predicate DistinctEntities(stored: map<string, EntityDescriptor>) {
    forall i, j :: i in stored && j in stored && stored[i].entityID == stored[j].entityID ==> i == j
  }

  datatype Status = NoContent | BadRequest | Conflict | ServerError

  /** Each call of the store may fail, without effect. */
  datatype Faults = Faults(get: bool, put: bool, delete: bool)

  predicate Acceptable(metadata: EntityDescriptor, now: int) {
    && (forall d :: d in metadata.spssoDescriptors ==> forall use :: use in d.keyUses ==> use in ["", "encryption", "signing"])
    && CurrentMetadata(metadata, now).Some?
  }

  predicate RegisteredByAnother(r: Registry, entityID: string, id: string) {
    entityID in r.providers && !(entityID in r.ids && r.ids[entityID] == id)
  }

  /** `deregisterServiceProvider`. */
  function Deregister(r: Registry, id: string, entityID: string): Registry {
    if entityID in r.ids && r.ids[entityID] == id then
      r.(providers := r.providers - {entityID}, ids := r.ids - {entityID})
    else r
  }

  function Register(r: Registry, id: string, metadata: EntityDescriptor): Registry {
    r.(providers := r.providers[metadata.entityID := metadata], ids := r.ids[metadata.entityID := id])
  }

  function PutResult(r: Registry, id: string, metadata: EntityDescriptor): Registry {
    var s := r.(stored := r.stored[id := metadata]);
    Register(if id in r.stored then Deregister(s, id, r.stored[id].entityID) else s, id, metadata)
  }

  function DeleteResult(r: Registry, id: string): Registry
    requires id in r.stored
  {
    Deregister(r.(stored := r.stored - {id}), id, r.stored[id].entityID)
  }

  lemma PutKeepsIndexed(r: Registry, id: string, metadata: EntityDescriptor)
    requires Indexed(r) && !RegisteredByAnother(r, metadata.entityID, id)
    ensures Indexed(PutResult(r, id, metadata))
  {
    var s := PutResult(r, id, metadata);
    forall i | i in s.stored ensures Registered(s, i) {
      if i != id { assert Registered(r, i); }
      if id in r.stored { assert Registered(r, id); }
    }
    if id in r.stored { assert Registered(r, id); }
  }

  lemma DeleteKeepsIndexed(r: Registry, id: string)
    requires Indexed(r) && id in r.stored
    ensures Indexed(DeleteResult(r, id))
  {
    var s := DeleteResult(r, id);
    assert Registered(r, id);
    forall i | i in s.stored ensures Registered(s, i) {
      assert Registered(r, i);
    }
  }

  /** What is stored decides the index, and has no two services with one entity ID. */
  lemma IndexUnique(r: Registry, s: Registry)
    requires Indexed(r) && Indexed(s) && r.stored == s.stored
    ensures r == s && DistinctEntities(r.stored)
  {
    forall id | id in r.stored ensures Registered(r, id) && Registered(s, id) {}
    assert r.ids.Keys == s.ids.Keys;
    assert r.ids == s.ids;
    assert r.providers == s.providers;
  }

  // ---------------------------------------------------------------- runs

  datatype Operation =
    | Put(id: string, metadata: Option<EntityDescriptor>, now: int, faults: Faults)
    | Delete(id: string, faults: Faults)

  /** The registry after an operation, and the answer to the request. */
  function Step(r: Registry, op: Operation): (Registry, Status) {
    match op
    case Put(id, metadata, now, faults) =>
      if metadata.None? || !Acceptable(metadata.value, now) then (r, BadRequest)
      else if RegisteredByAnother(r, metadata.value.entityID, id) then (r, Conflict)
      else if faults.get || faults.put then (r, ServerError)
      else (PutResult(r, id, metadata.value), NoContent)
    case Delete(id, faults) =>
      if faults.get || id !in r.stored || faults.delete then (r, ServerError)
      else (DeleteResult(r, id), NoContent)
  }

  /** What a put does: it is refused if the metadata cannot be read, has a key for an unknown use, or is not current; if
      another service has the entity ID; or if the store fails. Otherwise, and only then, the service is stored. */
  lemma PutExactly(r: Registry, id: string, metadata: Option<EntityDescriptor>, now: int, faults: Faults)
    requires Indexed(r)
    ensures var (s, status) := Step(r, Put(id, metadata, now, faults));
            && Indexed(s)
            && (status == BadRequest <==>
                  || metadata.None?
                  || (exists d, use :: d in metadata.value.spssoDescriptors && use in d.keyUses
                                    && use != "" && use != "encryption" && use != "signing")
                  || CurrentMetadata(metadata.value, now).None?)
            && (status != BadRequest ==>
                  (status == Conflict <==>
                     exists other :: other in r.stored && other != id && r.stored[other].entityID == metadata.value.entityID))
            && (status != BadRequest && status != Conflict ==> (status == ServerError <==> faults.get || faults.put))
            && (status == NoContent ==> s.stored == r.stored[id := metadata.value])
            && (status != NoContent ==> s == r)
  {
    hide CurrentMetadata;
    StepKeepsIndexed(r, Put(id, metadata, now, faults));
    if metadata.Some? {
      TakenExactly(r, metadata.value.entityID, id);
    }
  }

  lemma TakenExactly(r: Registry, entityID: string, id: string)
    requires Indexed(r)
    ensures RegisteredByAnother(r, entityID, id) <==>
              exists other :: other in r.stored && other != id && r.stored[other].entityID == entityID
  {
    if other :| other in r.stored && other != id && r.stored[other].entityID == entityID {
      assert Registered(r, other);
    }
  }

  /** What a delete does: it fails if there is no such service or the store fails, and otherwise the service is gone. */
  lemma DeleteExactly(r: Registry, id: string, faults: Faults)
    requires Indexed(r)
    ensures var (s, status) := Step(r, Delete(id, faults));
            && Indexed(s)
            && (status == NoContent <==> id in r.stored && !faults.get && !faults.delete)
            && (status != NoContent ==> status == ServerError && s == r)
            && (status == NoContent ==> s.stored == r.stored - {id})
  {
    StepKeepsIndexed(r, Delete(id, faults));
  }

  function Run(r: Registry, ops: seq<Operation>): Registry
    decreases |ops|
  {
    if ops == [] then r else Run(Step(r, ops[0]).0, ops[1..])
  }

  lemma StepKeepsIndexed(r: Registry, op: Operation)
    requires Indexed(r)
    ensures Indexed(Step(r, op).0)
  {
    match op
    case Put(id, metadata, now, faults) =>
      if Step(r, op).1.NoContent? { PutKeepsIndexed(r, id, metadata.value); }
    case Delete(id, faults) =>
      if Step(r, op).1.NoContent? { DeleteKeepsIndexed(r, id); }
  }

  /** After any run, with stores that fail at any time, the maps are still the index of what is stored. */
  lemma {:induction false} RunKeepsIndexed(r: Registry, ops: seq<Operation>)
    requires Indexed(r)
    ensures Indexed(Run(r, ops))
    decreases |ops|
  {
    if ops != [] {
      StepKeepsIndexed(r, ops[0]);
      RunKeepsIndexed(Step(r, ops[0]).0, ops[1..]);
    }
  }

  /** No operation on one service takes the registration of another, or changes what it stored. */
  lemma NeverDisplaces(r: Registry, op: Operation, other: string)
    requires Indexed(r) && other in r.stored && other != op.id
    ensures var s := Step(r, op).0;
            && other in s.stored && s.stored[other] == r.stored[other] && Registered(s, other)
            && s.providers[r.stored[other].entityID] == r.stored[other]
  {
    StepKeepsIndexed(r, op);
    assert Registered(Step(r, op).0, other);
  }

  // ---------------------------------------------------------------- the server

  const SERVICES := "/services/"

  class Server {
    const store: MemoryStore<EntityDescriptor>
    var serviceProviders: map<string, EntityDescriptor>
    var serviceIDs: map<string, string>

    constructor (store: MemoryStore<EntityDescriptor>)
      ensures this.store == store && serviceProviders == map[] && serviceIDs == map[]
    {
      this.store := store;
      serviceProviders, serviceIDs := map[], map[];
    }

    ghost function State(): Registry
      reads this, store
    {
      Registry(Under(store.data, SERVICES), serviceProviders, serviceIDs)
    }

    /** `GetServiceProvider`: None stands for os.ErrNotExist. */
    method GetServiceProvider(entityID: string, now: int) returns (current: Option<EntityDescriptor>)
      requires Indexed(State())
      ensures current.Some? <==>
                exists id :: && id in State().stored && State().stored[id].entityID == entityID
                             && CurrentMetadata(State().stored[id], now).Some?
      ensures forall id :: id in State().stored && State().stored[id].entityID == entityID ==>
                current == CurrentMetadata(State().stored[id], now)
      ensures forall id :: id in State().stored && State().stored[id].entityID == entityID ==>
                var metadata := State().stored[id];
                current.Some? <==>
                  && (metadata.validUntil.Zero? || now < metadata.validUntil.t)
                  && exists d :: d in metadata.spssoDescriptors
                       && (d.validUntil.None? || d.validUntil.value.Zero? || now < d.validUntil.value.t)
    {
      forall id | id in State().stored
        ensures CurrentMetadata(State().stored[id], now).Some? <==>
                  && (State().stored[id].validUntil.Zero? || now < State().stored[id].validUntil.t)
                  && exists d :: d in State().stored[id].spssoDescriptors
                       && (d.validUntil.None? || d.validUntil.value.Zero? || now < d.validUntil.value.t)
      {
        CurrentExactly(State().stored[id], now);
      }
      hide CurrentMetadata;
      forall id | id in State().stored ensures Registered(State(), id) {}
      if entityID !in serviceProviders {
        return None;
      }
      current := CurrentMetadata(serviceProviders[entityID], now);
      assert serviceIDs[entityID] in State().stored;
    }

    /** `HandlePutService`, under the lock. `metadata` is None when the body cannot be read. */
    method HandlePutService(id: string, metadata: Option<EntityDescriptor>, now: int, faults: Faults)
      returns (status: Status)
      requires Indexed(State())
      modifies this, store
      ensures Indexed(State())
      ensures (State(), status) == Step(old(State()), Put(id, metadata, now, faults))
    {
      hide Under, Indexed, Acceptable, CurrentMetadata;
      StepKeepsIndexed(State(), Put(id, metadata, now, faults));
      if metadata.None? || !Acceptable(metadata.value, now) {
        return BadRequest;
      }
      var service := metadata.value;
      if service.entityID in serviceProviders && !(service.entityID in serviceIDs && serviceIDs[service.entityID] == id) {
        return Conflict;
      }
      if faults.get {
        return ServerError;
      }
      var previous := store.Get(SERVICES + id);
      UnderHas(store.data, SERVICES, id);
      if faults.put {
        return ServerError;
      }
      PutUnder(store.data, SERVICES, id, service);
      store.Put(SERVICES + id, service);
      if previous.Some? {
        DeregisterServiceProvider(id, previous.value.entityID);
      }
      serviceProviders := serviceProviders[service.entityID := service];
      serviceIDs := serviceIDs[service.entityID := id];
      status := NoContent;
    }

    /** `HandleDeleteService`, under the lock. */
    method HandleDeleteService(id: string, faults: Faults) returns (status: Status)
      requires Indexed(State())
      modifies this, store
      ensures Indexed(State())
      ensures (State(), status) == Step(old(State()), Delete(id, faults))
    {
      hide Under, Indexed;
      StepKeepsIndexed(State(), Delete(id, faults));
      if faults.get {
        return ServerError;
      }
      var service := store.Get(SERVICES + id);
      UnderHas(store.data, SERVICES, id);
      if service.None? || faults.delete {
        return ServerError;
      }
      DeleteUnder(store.data, SERVICES, id);
      store.Delete(SERVICES + id);
      DeregisterServiceProvider(id, service.value.entityID);
      status := NoContent;
    }

    method DeregisterServiceProvider(id: string, entityID: string)
      modifies this
      ensures State() == Deregister(old(State()), id, entityID)
    {
      if !(entityID in serviceIDs && serviceIDs[entityID] == id) {
        return;
      }
      serviceProviders := serviceProviders - {entityID};
      serviceIDs := serviceIDs - {entityID};
    }

    /** `initializeServices` of a server that has just been made. It succeeds if and only if the store can be
        listed, every record can be read and no two have the same entity ID, and then the index is complete. */
    method InitializeServices(listFails: bool, unreadable: set<string>) returns (ok: bool)
      requires serviceProviders == map[] && serviceIDs == map[]
      modifies this
      ensures ok <==> !listFails && DistinctEntities(State().stored) && State().stored.Keys !! unreadable
      ensures ok ==> Indexed(State())
      ensures State().stored == old(State().stored)
    {
      hide Indexed, DistinctEntities, Under;
      if listFails {
        return false;
      }
      var names := store.List(SERVICES);
      ghost var stored := Under(store.data, SERVICES);
      NothingIndexed(stored);
      for i := 0 to |names|
        invariant forall k :: 0 <= k < i ==> names[k] !in unreadable
        invariant Indexed(Registry(Part(stored, names[..i]), serviceProviders, serviceIDs))
      {
        assert names[i] in names;
        UnderHas(store.data, SERVICES, names[i]);
        if names[i] in unreadable {
          return false;
        }
        var service := store.Get(SERVICES + names[i]);
        var metadata := service.value;
        assert names[i] !in names[..i];
        PartNext(stored, names, i, serviceProviders, serviceIDs);
        if metadata.entityID in serviceIDs {
          return false;
        }
        serviceProviders := serviceProviders[metadata.entityID := metadata];
        serviceIDs := serviceIDs[metadata.entityID := names[i]];
      }
      ok := true;
      assert Part(stored, names[..|names|]) == stored;
      IndexUnique(State(), State());
    }
  }

  ghost function Part(stored: map<string, EntityDescriptor>, names: seq<string>): map<string, EntityDescriptor> {
    map id | id in stored && id in names :: stored[id]
  }

  lemma NothingIndexed(stored: map<string, EntityDescriptor>)
    ensures Indexed(Registry(Part(stored, []), map[], map[]))
  {
  }

  /** One round of the loop over the stored names. */
  lemma PartNext(stored: map<string, EntityDescriptor>, names: seq<string>, i: nat,
                 providers: map<string, EntityDescriptor>, ids: map<string, string>)
    requires i < |names| && names[i] in stored && names[i] !in names[..i]
    requires Indexed(Registry(Part(stored, names[..i]), providers, ids))
    ensures var metadata := stored[names[i]];
            if metadata.entityID in ids then !DistinctEntities(stored)
            else Indexed(Registry(Part(stored, names[..i + 1]), providers[metadata.entityID := metadata],
                                  ids[metadata.entityID := names[i]]))
  {
    var r := Registry(Part(stored, names[..i]), providers, ids);
    var metadata := stored[names[i]];
    assert names[..i + 1] == names[..i] + [names[i]];
    assert Part(stored, names[..i + 1]) == r.stored[names[i] := metadata];
    if metadata.entityID in ids {
      var other := ids[metadata.entityID];
      assert other in stored && stored[other].entityID == metadata.entityID && other != names[i];
    } else {
      PutKeepsIndexed(r, names[i], metadata);
    }
  }

  lemma DeleteUnder<V>(data: map<string, V>, prefix: string, name: string)
    ensures Under(data - {prefix + name}, prefix) == Under(data, prefix) - {name}
  {
    var data' := data - {prefix + name};
    forall n ensures n in Under(data', prefix) <==> n in Under(data, prefix) - {name} {
      UnderHas(data', prefix, n);
      UnderHas(data, prefix, n);
      if prefix + n == prefix + name { assert n == (prefix + n)[|prefix|..] == name; }
    }
    forall n | n in Under(data', prefix) ensures Under(data', prefix)[n] == Under(data, prefix)[n] {
      UnderHas(data', prefix, n);
      UnderHas(data, prefix, n);
    }
  }

  /** Restarting after any run succeeds, and gives the same maps. */
  lemma RestartRebuilds(r: Registry, ops: seq<Operation>, restarted: Registry)
    requires Indexed(r) && Indexed(restarted) && restarted.stored == Run(r, ops).stored
    ensures DistinctEntities(Run(r, ops).stored) && restarted == Run(r, ops)
  {
    RunKeepsIndexed(r, ops);
    IndexUnique(restarted, Run(r, ops));
  }
}
