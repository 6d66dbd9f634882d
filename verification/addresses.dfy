/**
  The address allocator (models/node.go:104-267) over the cache of module NodeCache. Mutexes are not modelled:
  each operation is one step.
 */
module Addresses {
  import opened Nocan
  import opened NodeCache

  // ---------- The registry as a value ----------

  /** A node seen from outside: its address and its device. */
  datatype Lease = Lease(id: NodeId, udid: Udid)

  datatype Registry = Registry(slots: seq<Option<Lease>>, byUdid: map<Udid, Lease>, cache: Cache)

  /** Addresses are table indices. */
  ghost predicate Shaped(r: Registry) {
    |r.slots| == NODE_COUNT && forall s :: s in r.cache.ids ==> 0 <= r.cache.ids[s] < NODE_COUNT
  }

  function Find(r: Registry, id: NodeId): Option<Lease> {
    if 0 <= id < |r.slots| then r.slots[id] else None
  }

  function Lookup(r: Registry, u: Udid): Option<Lease> {
    if u in r.byUdid then Some(r.byUdid[u]) else None
  }

  /** The first address from i on whose slot is empty and, if asked, that no device has in the cache. */
  function FirstFrom(r: Registry, i: nat, unreserved: bool): (f: nat)
    requires Shaped(r) && i <= NODE_COUNT
    ensures i <= f <= NODE_COUNT
    ensures f < NODE_COUNT ==> r.slots[f].None? && (unreserved ==> f !in r.cache.udids)
    ensures forall k :: i <= k < f ==> r.slots[k].Some? || (unreserved && k in r.cache.udids)
    decreases NODE_COUNT - i
  {
    if i == NODE_COUNT || (r.slots[i].None? && !(unreserved && i in r.cache.udids)) then i
    else FirstFrom(r, i + 1, unreserved)
  }

  function Install(r: Registry, u: Udid, id: NodeId): Registry
    requires Shaped(r) && 0 <= id < NODE_COUNT
  {
    Registry(r.slots[id := Some(Lease(id, u))], r.byUdid[u := Lease(id, u)], WithEntry(r.cache, Text(u), id))
  }

  datatype Outcome = Rejected | Renewed(id: NodeId) | Restored(id: NodeId) | Granted(id: NodeId) | Evicting(id: NodeId)

  /** The address for a device that is not live. */
  function Choice(r: Registry, u: Udid): (out: Outcome)
    requires Shaped(r)
    ensures !out.Rejected? ==> !out.Renewed? && 0 <= out.id < NODE_COUNT && r.slots[out.id].None?
  {
    var cached := LookupKey(r.cache, Text(u));
    var unreserved := FirstFrom(r, 1, true);
    var empty := FirstFrom(r, 1, false);
    if cached != 0 && r.slots[cached].None? then Restored(cached)
    else if unreserved < NODE_COUNT then Granted(unreserved)
    else if empty < NODE_COUNT then Evicting(empty)
    else Rejected
  }

  function Register(r: Registry, u: Udid): (Registry, Outcome)
    requires Shaped(r)
  {
    if u == NULL_UDID then (r, Rejected)
    else if u in r.byUdid then (r, Renewed(r.byUdid[u].id))
    else
      var out := Choice(r, u);
      if out.Rejected? then (r, out) else (Install(r, u, out.id), out)
  }

  /** Unregister removes the node's entries without looking whether they are its own. */
  function Unregister(r: Registry, l: Lease): Registry
    requires |r.slots| == NODE_COUNT && 0 <= l.id < NODE_COUNT
  {
    Registry(r.slots[l.id := None], r.byUdid - {l.udid}, r.cache)
  }

  function Clear(r: Registry): Registry {
    Registry(seq(|r.slots|, _ => None), map[], r.cache)
  }

  // ---------- Invariants ----------

  /** Table and map undo each other, every node sits at its own address, and address 0 is the master's. */
  ghost predicate Agrees(r: Registry) {
    && |r.slots| == NODE_COUNT && r.slots[0].None? && NULL_UDID !in r.byUdid
    && (forall i :: 0 <= i < NODE_COUNT && r.slots[i].Some? ==>
          r.slots[i].value.id == i && Lookup(r, r.slots[i].value.udid) == r.slots[i])
    && (forall u :: u in r.byUdid ==> r.byUdid[u].udid == u && Find(r, r.byUdid[u].id) == Some(r.byUdid[u]))
  }

  ghost predicate SoundCache(c: Cache) {
    Bijective(c) && KeysAreUdids(c) && forall s :: s in c.ids ==> 1 <= c.ids[s] < NODE_COUNT
  }

  /** Every live node's cache entry is its own address. */
  ghost predicate Coupled(r: Registry) {
    forall i :: 0 <= i < |r.slots| && r.slots[i].Some? ==> LookupKey(r.cache, Text(r.slots[i].value.udid)) == i
  }

  ghost predicate Inv(r: Registry) { Agrees(r) && SoundCache(r.cache) && Coupled(r) }

  /** A device with a cached address that is not live finds its slot empty: the guard on that slot never fails. */
  lemma CachedSlotIsEmpty(r: Registry, u: Udid)
    requires Inv(r) && u !in r.byUdid && Text(u) in r.cache.ids
    ensures r.slots[r.cache.ids[Text(u)]].None?
  {
    var i := r.cache.ids[Text(u)];
    if r.slots[i].Some? {
      var v := r.slots[i].value.udid;
      assert r.cache.udids[i] == Text(v);
      TextIsInjective(u, v);
    }
  }

  lemma InstallKeepsCache(r: Registry, u: Udid, id: NodeId)
    requires SoundCache(r.cache) && Shaped(r) && 1 <= id < NODE_COUNT
    requires Text(u) !in r.cache.ids || r.cache.ids[Text(u)] == id
    ensures SoundCache(Install(r, u, id).cache)
  {
    var c := Install(r, u, id).cache;
    SetEntryKeepsBijection(r.cache, Text(u), id);
    forall s | s in c.ids ensures exists v: Udid :: s == Text(v) {
      assert s != Text(u) ==> s in r.cache.ids;
    }
  }

  lemma InstallKeepsAgreement(r: Registry, u: Udid, id: NodeId)
    requires Agrees(r) && Shaped(r) && u !in r.byUdid && u != NULL_UDID && 1 <= id < NODE_COUNT && r.slots[id].None?
    ensures Agrees(Install(r, u, id))
  {
    var q := Install(r, u, id);
    forall v | v in q.byUdid ensures q.byUdid[v].udid == v && Find(q, q.byUdid[v].id) == Some(q.byUdid[v]) {
      assert v != u ==> Find(r, r.byUdid[v].id) == Some(r.byUdid[v]);
    }
  }

  lemma InstallKeepsInv(r: Registry, u: Udid, id: NodeId)
    requires Inv(r) && u !in r.byUdid && u != NULL_UDID && 1 <= id < NODE_COUNT && r.slots[id].None?
    requires Text(u) !in r.cache.ids || r.cache.ids[Text(u)] == id
    ensures Inv(Install(r, u, id))
  {
    InstallKeepsCache(r, u, id);
    InstallKeepsAgreement(r, u, id);
    var q := Install(r, u, id);
    forall i | 0 <= i < NODE_COUNT && q.slots[i].Some? ensures LookupKey(q.cache, Text(q.slots[i].value.udid)) == i {
      if i != id {
        var v := r.slots[i].value.udid;
        TextIsInjective(u, v);
        assert r.cache.udids[i] == Text(v);
      }
    }
  }

  /** All invariants are kept; the address is in 1..127, from now on the device's own, and the one it had in the
      cache if it had one. */
  lemma RegisterSound(r: Registry, u: Udid)
    requires Inv(r)
    ensures var (q, out) := Register(r, u);
            && Inv(q)
            && (out.Rejected? ==> q == r)
            && (!out.Rejected? ==> 1 <= out.id < NODE_COUNT && q.cache.ids[Text(u)] == out.id
                                   && q.slots[out.id] == Some(Lease(out.id, u)) == Lookup(q, u))
            && (!out.Rejected? && Text(u) in r.cache.ids ==> out.id == r.cache.ids[Text(u)])
  {
    var (q, out) := Register(r, u);
    if u in r.byUdid {
      assert Find(r, r.byUdid[u].id) == Some(r.byUdid[u]);
    } else if !out.Rejected? {
      if Text(u) in r.cache.ids {
        CachedSlotIsEmpty(r, u);
      }
      InstallKeepsInv(r, u, out.id);
    }
  }

  /** A registration fails exactly for the null device, or for a new one when 127 nodes are live. */
  lemma RegisterFailsExactlyWhen(r: Registry, u: Udid)
    requires Inv(r)
    ensures Register(r, u).1.Rejected?
       <==> u == NULL_UDID || (u !in r.byUdid && forall i :: 1 <= i < NODE_COUNT ==> r.slots[i].Some?)
  {
    if u != NULL_UDID && u !in r.byUdid && Text(u) in r.cache.ids {
      CachedSlotIsEmpty(r, u);
    }
  }

  /** The fallback is taken exactly for a new device when all 127 addresses are in the cache and one is not live; and
      it takes the least of those. */
  predicate Evicts(r: Registry, u: Udid, id: NodeId)
    requires Shaped(r)
  {
    && u != NULL_UDID && u !in r.byUdid && Text(u) !in r.cache.ids
    && (forall i :: 1 <= i < NODE_COUNT ==> i in r.cache.udids)
    && id == FirstFrom(r, 1, false) < NODE_COUNT
  }

  lemma EvictsExactlyWhen(r: Registry, u: Udid, id: NodeId)
    requires Inv(r)
    ensures Register(r, u).1 == Evicting(id) <==> Evicts(r, u, id)
  {
    if Register(r, u).1 == Evicting(id) {
      if Text(u) in r.cache.ids {
        CachedSlotIsEmpty(r, u);
      }
      forall i | 1 <= i < NODE_COUNT ensures i in r.cache.udids {
        if r.slots[i].Some? {
          assert LookupKey(r.cache, Text(r.slots[i].value.udid)) == i;
        }
      }
    }
  }

  /** Unregistering any node object, live or stale, keeps table and map in agreement if and only if its device and
      its address lead to the same entry. */
  lemma UnregisterKeepsAgreement(r: Registry, l: Lease)
    requires Agrees(r) && 0 <= l.id < NODE_COUNT
    ensures Agrees(Unregister(r, l)) <==> Lookup(r, l.udid) == Find(r, l.id)
  {
    var q := Unregister(r, l);
    if Lookup(r, l.udid) == Find(r, l.id) {
      forall i | 0 <= i < NODE_COUNT && q.slots[i].Some?
        ensures q.slots[i].value.id == i && Lookup(q, q.slots[i].value.udid) == q.slots[i]
      {
        assert Lookup(r, r.slots[i].value.udid) == r.slots[i];
      }
      forall u | u in q.byUdid ensures q.byUdid[u].udid == u && Find(q, q.byUdid[u].id) == Some(q.byUdid[u]) {
        assert Find(r, r.byUdid[u].id) == Some(r.byUdid[u]);
      }
    } else if Lookup(r, l.udid).Some? {
      var i := r.byUdid[l.udid].id;
      assert q.slots[i] == r.slots[i] == Some(r.byUdid[l.udid]) && Lookup(q, l.udid) == None;
    } else {
      var u := r.slots[l.id].value.udid;
      assert u in q.byUdid && q.byUdid[u].id == l.id && Find(q, l.id) == None;
    }
  }

  /** The device has this address in the cache. */
  predicate Holds(c: Cache, u: Udid, id: NodeId) { Text(u) in c.ids && c.ids[Text(u)] == id }

  /** Nothing is registered. */
  ghost predicate Deserted(r: Registry) {
    (forall i :: Find(r, i) == None) && (forall u :: Lookup(r, u) == None)
  }

  /** q differs from r at most in what address id and device u lead to. */
  ghost predicate SameBut(r: Registry, q: Registry, u: Udid, id: NodeId) {
    && (forall i :: i != id ==> Find(q, i) == Find(r, i))
    && (forall v :: v != u ==> Lookup(q, v) == Lookup(r, v))
  }

  /** Unregister of any node object: afterwards its address and its device lead nowhere, all others lead where they
      did, and the cache is the same. */
  lemma UnregisterRemoves(r: Registry, l: Lease)
    requires |r.slots| == NODE_COUNT && 0 <= l.id < NODE_COUNT
    ensures var q := Unregister(r, l);
            Find(q, l.id) == None && Lookup(q, l.udid) == None && SameBut(r, q, l.udid, l.id) && q.cache == r.cache
  {
  }

  lemma ClearRemovesAll(r: Registry)
    ensures Deserted(Clear(r)) && Clear(r).cache == r.cache
  {
  }

  /** A registration that succeeds leaves all other nodes and their cached addresses as they are, but for the one
      device that loses its cached address to a fallback. */
  lemma RegisterKeepsOthers(r: Registry, u: Udid)
    requires Inv(r)
    ensures var (q, out) := Register(r, u);
            && (out.Rejected? || out.Renewed? ==> q == r)
            && (!out.Rejected? ==>
                  Find(q, out.id) == Lookup(q, u) == Some(Lease(out.id, u)) && SameBut(r, q, u, out.id))
  {
    RegisterSound(r, u);
  }

  /** The least address that is empty and that no device has in the cache. */
  ghost predicate LeastUnreserved(r: Registry, id: NodeId) {
    && 1 <= id < NODE_COUNT && Find(r, id) == None && id !in r.cache.udids
    && forall k :: 1 <= k < id ==> Find(r, k) != None || k in r.cache.udids
  }

  /** Each outcome of a registration, by what can be seen before it. */
  lemma OutcomeExactlyWhen(r: Registry, u: Udid, id: NodeId)
    requires Inv(r)
    ensures var out := Register(r, u).1;
            && (out == Renewed(id) <==> u != NULL_UDID && Lookup(r, u) == Some(Lease(id, u)))
            && (out == Restored(id) <==> u != NULL_UDID && Lookup(r, u) == None && Holds(r.cache, u, id))
            && (out == Granted(id) <==> u != NULL_UDID && Lookup(r, u) == None && Text(u) !in r.cache.ids
                                        && LeastUnreserved(r, id))
            && (out == Evicting(id) <==> Evicts(r, u, id))
  {
    EvictsExactlyWhen(r, u, id);
    if u in r.byUdid {
      assert Find(r, r.byUdid[u].id) == Some(r.byUdid[u]);
    } else if Text(u) in r.cache.ids {
      CachedSlotIsEmpty(r, u);
    }
    LeastIsFirst(r, id);
  }

  lemma LeastIsFirst(r: Registry, id: NodeId)
    requires Shaped(r)
    ensures LeastUnreserved(r, id) <==> id == FirstFrom(r, 1, true) < NODE_COUNT
  {
    var f := FirstFrom(r, 1, true);
    assert 1 <= f < NODE_COUNT ==> Find(r, f) == None;
    assert 1 <= id < NODE_COUNT ==> Find(r, id) == r.slots[id];
  }

  // ---------- Runs ----------

  /** The running program, the cache file, what the cache was when that was written, and whether the cache has changed
      since the program started. */
  datatype Host = Host(registry: Registry, file: seq<Entry>, saved: Cache, dirty: bool)

  datatype Op = Registering(udid: Udid) | Unregistering(lease: Lease) | Clearing
              | Saving(listing: seq<Entry>) | Restarting

  /** The registry is sound; the file is a listing of a sound cache, and of the present one while nothing changed. */
  ghost predicate Sound(h: Host) {
    && Inv(h.registry) && SoundCache(h.saved) && Lists(h.file, h.saved.ids)
    && (!h.dirty ==> h.saved == h.registry.cache)
  }

  /** A node that is unregistered is live, or has gone and nothing has taken its place; a save walks the cache in some
      order. */
  ghost predicate Legal(h: Host, op: Op) {
    match op
    case Registering(_) => true
    case Unregistering(l) => 0 <= l.id < NODE_COUNT && Lookup(h.registry, l.udid) == Find(h.registry, l.id)
    case Clearing => true
    case Saving(es) => Lists(es, h.registry.cache.ids)
    case Restarting => true
  }

  /** Save writes only what has changed. A restart may come at any time, and finds the file as it was last saved. */
  function Apply(h: Host, op: Op): Host
    requires Shaped(h.registry) && (op.Unregistering? ==> 0 <= op.lease.id < NODE_COUNT)
  {
    var r := h.registry;
    match op
    case Registering(u) =>
      var q := Register(r, u).0;
      h.(registry := q, dirty := h.dirty || q.cache != r.cache)
    case Unregistering(l) => h.(registry := Unregister(r, l))
    case Clearing => h.(registry := Clear(r))
    case Saving(es) => if h.dirty then h.(file := es, saved := r.cache) else h
    case Restarting =>
      h.(registry := Registry(seq(NODE_COUNT, _ => None), map[], Loaded(EMPTY, h.file).0), dirty := false)
  }

  lemma StepKeepsSound(h: Host, op: Op)
    requires Sound(h) && Legal(h, op)
    ensures Sound(Apply(h, op))
  {
    match op {
      case Registering(u) => RegisterSound(h.registry, u);
      case Unregistering(l) => UnregisterKeepsAgreement(h.registry, l);
      case Clearing =>
      case Saving(es) =>
      case Restarting => LoadUndoesSave(h.saved, h.file);
    }
  }

  ghost predicate LegalRun(h: Host, ops: seq<Op>)
    requires Sound(h)
    decreases |ops|
  {
    ops == [] || (Legal(h, ops[0]) && (StepKeepsSound(h, ops[0]); LegalRun(Apply(h, ops[0]), ops[1..])))
  }

  ghost function RunOps(h: Host, ops: seq<Op>): (g: Host)
    requires Sound(h) && LegalRun(h, ops)
    ensures Sound(g)
    decreases |ops|
  {
    if ops == [] then h else StepKeepsSound(h, ops[0]); RunOps(Apply(h, ops[0]), ops[1..])
  }

  ghost function Start(): (h: Host)
    ensures Sound(h)
  {
    Host(Registry(seq(NODE_COUNT, _ => None), map[], EMPTY), [], EMPTY, false)
  }

  /** Every run from an empty registry and no file, of any length, with saves and restarts anywhere, keeps the four
      structures in agreement. */
  lemma RunsStaySound(ops: seq<Op>)
    requires LegalRun(Start(), ops)
    ensures var r := RunOps(Start(), ops).registry; Agrees(r) && Bijective(r.cache) && Coupled(r)
  {
  }

  /** A device that is not live stays so until it registers. */
  lemma {:induction false} GoneUntilRegistered(h: Host, ops: seq<Op>, u: Udid)
    requires Sound(h) && LegalRun(h, ops) && Registering(u) !in ops && Lookup(h.registry, u) == None
    ensures Lookup(RunOps(h, ops).registry, u) == None
    decreases |ops|
  {
    if ops == [] {
    } else {
      var g := Apply(h, ops[0]);
      StepKeepsSound(h, ops[0]);
      assert ops[0] in ops && forall op :: op in ops[1..] ==> op in ops;
      if ops[0].Registering? {
        RegisterKeepsOthers(h.registry, ops[0].udid);
      }
      assert Lookup(g.registry, u) == None;
      GoneUntilRegistered(g, ops[1..], u);
    }
  }

  /** The steps that take a cached address from its device: a fallback registration that gives it to another, and a
      restart from a file saved before the device had it. */
  predicate Loses(h: Host, op: Op, u: Udid, id: NodeId)
    requires Shaped(h.registry)
  {
    || (op.Registering? && Evicts(h.registry, op.udid, id))
    || (op.Restarting? && !Holds(h.saved, u, id))
  }

  /** One step leaves a cached address with its device if and only if it is none of these. */
  lemma StepKeepsAddress(h: Host, op: Op, u: Udid, id: NodeId)
    requires Sound(h) && Legal(h, op) && Holds(h.registry.cache, u, id)
    ensures Holds(Apply(h, op).registry.cache, u, id) <==> !Loses(h, op, u, id)
  {
    if op.Registering? {
      RegisterKeepsAddress(h.registry, op.udid, u, id);
    } else if op.Restarting? {
      LoadUndoesSave(h.saved, h.file);
    }
  }

  lemma EntryKeepsAddress(c: Cache, v: Udid, i: NodeId, u: Udid, id: NodeId)
    requires Bijective(c) && Holds(c, u, id) && u != v
    ensures Holds(WithEntry(c, Text(v), i), u, id) <==> i != id
  {
    TextIsInjective(u, v);
    assert c.udids[id] == Text(u);
  }

  lemma RegisterKeepsAddress(r: Registry, v: Udid, u: Udid, id: NodeId)
    requires Inv(r) && Holds(r.cache, u, id)
    ensures Holds(Register(r, v).0.cache, u, id) <==> !Evicts(r, v, id)
  {
    var (q, out) := Register(r, v);
    if v == u {
      RegisterSound(r, v);
    } else {
      EvictsExactlyWhen(r, v, id);
      TextIsInjective(u, v);
      if !out.Rejected? && !out.Renewed? {
        EntryKeepsAddress(r.cache, v, out.id, u, id);
        assert out.Granted? ==> out.id !in r.cache.udids;
      }
    }
  }

  ghost predicate NeverLost(h: Host, ops: seq<Op>, u: Udid, id: NodeId)
    requires Sound(h) && LegalRun(h, ops)
    decreases |ops|
  {
    ops == [] || (!Loses(h, ops[0], u, id)
                  && (StepKeepsSound(h, ops[0]); NeverLost(Apply(h, ops[0]), ops[1..], u, id)))
  }

  /** Sticky addresses: a device that was given an address gets it back from every later Register, across Unregister,
      Clear, saves and restarts, as long as no step took that address. */
  lemma {:induction false} AddressesStick(h: Host, ops: seq<Op>, u: Udid, id: NodeId)
    requires Sound(h) && LegalRun(h, ops) && NeverLost(h, ops, u, id)
    requires u != NULL_UDID && Holds(h.registry.cache, u, id)
    ensures var (_, out) := Register(RunOps(h, ops).registry, u); !out.Rejected? && out.id == id
    decreases |ops|
  {
    if ops == [] {
      RegisterSound(h.registry, u);
      if u !in h.registry.byUdid {
        CachedSlotIsEmpty(h.registry, u);
      }
    } else {
      StepKeepsSound(h, ops[0]);
      StepKeepsAddress(h, ops[0], u, id);
      AddressesStick(Apply(h, ops[0]), ops[1..], u, id);
    }
  }

  ghost predicate NeverEvicted(h: Host, ops: seq<Op>, id: NodeId)
    requires Sound(h) && LegalRun(h, ops)
    decreases |ops|
  {
    ops == [] || (!(ops[0].Registering? && Evicts(h.registry, ops[0].udid, id))
                  && (StepKeepsSound(h, ops[0]); NeverEvicted(Apply(h, ops[0]), ops[1..], id)))
  }

  /** Once saved, an address sticks through any restarts: only a fallback registration can take it. */
  lemma {:induction false} SavedAddressesStick(h: Host, ops: seq<Op>, u: Udid, id: NodeId)
    requires Sound(h) && LegalRun(h, ops) && NeverEvicted(h, ops, id)
    requires u != NULL_UDID && Holds(h.registry.cache, u, id) && Holds(h.saved, u, id)
    ensures NeverLost(h, ops, u, id)
    ensures var (_, out) := Register(RunOps(h, ops).registry, u); !out.Rejected? && out.id == id
    decreases |ops|
  {
    if ops == [] {
    } else {
      StepKeepsSound(h, ops[0]);
      StepKeepsAddress(h, ops[0], u, id);
      SavedAddressesStick(Apply(h, ops[0]), ops[1..], u, id);
    }
    AddressesStick(h, ops, u, id);
  }

  /** A node that is unregistered is gone; and when its device registers again, whatever has happened in between to
      others, it is given its old address as a new node: it is restored, never renewed. */
  lemma {:induction false} UnregisteredIsRestored(h: Host, l: Lease, ops: seq<Op>)
    requires Sound(h) && Find(h.registry, l.id) == Some(l) && Legal(h, Unregistering(l))
    requires Sound(Apply(h, Unregistering(l))) && LegalRun(Apply(h, Unregistering(l)), ops)
    requires Registering(l.udid) !in ops && NeverLost(Apply(h, Unregistering(l)), ops, l.udid, l.id)
    ensures var r := RunOps(Apply(h, Unregistering(l)), ops).registry;
            Lookup(r, l.udid) == None && Register(r, l.udid).1 == Restored(l.id)
  {
    var g := Apply(h, Unregistering(l));
    var r := RunOps(g, ops).registry;
    UnregisterRemoves(h.registry, l);
    GoneUntilRegistered(g, ops, l.udid);
    assert Holds(g.registry.cache, l.udid, l.id);
    AddressesStick(g, ops, l.udid, l.id);
    OutcomeExactlyWhen(r, l.udid, l.id);
    AddressIsHeld(g, ops, l.udid, l.id);
  }

  lemma {:induction false} AddressIsHeld(h: Host, ops: seq<Op>, u: Udid, id: NodeId)
    requires Sound(h) && LegalRun(h, ops) && NeverLost(h, ops, u, id) && Holds(h.registry.cache, u, id)
    ensures Holds(RunOps(h, ops).registry.cache, u, id)
    decreases |ops|
  {
    if ops == [] {
    } else {
      StepKeepsSound(h, ops[0]);
      StepKeepsAddress(h, ops[0], u, id);
      AddressIsHeld(Apply(h, ops[0]), ops[1..], u, id);
    }
  }

  /** Right after Clear and after a restart nothing is registered. */
  lemma ClearedIsDeserted(h: Host, op: Op)
    requires Sound(h) && (op.Clearing? || op.Restarting?)
    ensures Deserted(Apply(h, op).registry)
  {
    ClearRemovesAll(h.registry);
  }

  function OneEntry(u: Udid): Cache { Cache(map[Text(u) := 1], map[1 := Text(u)]) }

  lemma FirstGrant(u: Udid)
    requires u != NULL_UDID
    ensures var h := Apply(Start(), Registering(u)); Sound(h) && h.dirty && h.registry.cache == OneEntry(u)
  {
    assert FirstFrom(Start().registry, 1, true) == 1;
    StepKeepsSound(Start(), Registering(u));
  }

  lemma SavedThenRestarted(h: Host, u: Udid)
    requires Sound(h) && h.dirty && h.registry.cache == OneEntry(u)
    ensures var ops := [Saving([Entry(Text(u), 1)]), Restarting];
            LegalRun(h, ops) && RunOps(h, ops).registry.cache == OneEntry(u) && RunOps(h, ops).registry.byUdid == map[]
  {
    var es := [Entry(Text(u), 1)];
    assert es[0].udid == Text(u) && Lists(es, h.registry.cache.ids);
    var saved := Apply(h, Saving(es));
    StepKeepsSound(h, Saving(es));
    LoadUndoesSave(saved.saved, es);
    StepKeepsSound(saved, Restarting);
    assert [Saving(es), Restarting][1..] == [Restarting] && [Restarting][1..] == [];
    assert LegalRun(saved, [Restarting]) && RunOps(saved, [Restarting]) == Apply(saved, Restarting);
  }

  /** The smallest case: the first device of all is given address 1, and once the cache has been saved it has that
      address back after a restart. */
  lemma FirstDeviceKeepsOne(u: Udid)
    requires u != NULL_UDID
    ensures var ops := [Registering(u), Saving([Entry(Text(u), 1)]), Restarting];
            LegalRun(Start(), ops) && Register(RunOps(Start(), ops).registry, u).1 == Restored(1)
  {
    var h := Apply(Start(), Registering(u));
    var rest := [Saving([Entry(Text(u), 1)]), Restarting];
    FirstGrant(u);
    SavedThenRestarted(h, u);
    assert ([Registering(u)] + rest)[1..] == rest && [Registering(u)] + rest == [Registering(u), rest[0], rest[1]];
  }
}
