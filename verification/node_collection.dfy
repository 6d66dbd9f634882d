/** NodeCollection in memory (models/node.go:104-115 and 155-267), proved to be the registry of module Addresses. */
module NodeCollection {
  import opened Nocan
  import opened NodeCache
  import opened Addresses

  datatype NodeState = Unknown | Connecting | Connected | Bootloader | Running | Programming | Unresponsive

  class Node {
    const Id: NodeId
    const Udid: Udid
    var State: NodeState
    var FirmwareVersion: byte

    constructor (id: NodeId, udid: Udid, version: byte)
      ensures Id == id && Udid == udid && State == Unknown && FirmwareVersion == version
    {
      Id, Udid, State, FirmwareVersion := id, udid, Unknown, version;
    }

    function AsLease(): Lease { Lease(Id, Udid) }
  }

  class Collection {
    const Nodes: array<Node?>
    var Udids: map<Udid, Node>
    const cache: Store

    ghost function Value(): Registry
      reads this, Nodes, cache
    {
      Registry(Slots(Nodes[..]), ByUdid(Udids), cache.Value())
    }

    static ghost function LeaseOf(node: Node?): Option<Lease> { if node == null then None else Some(node.AsLease()) }

    static ghost function Slots(nodes: seq<Node?>): (r: seq<Option<Lease>>)
      ensures |r| == |nodes| && forall i :: 0 <= i < |nodes| ==> r[i] == LeaseOf(nodes[i])
    {
      seq(|nodes|, i requires 0 <= i < |nodes| => LeaseOf(nodes[i]))
    }

    static ghost function ByUdid(udids: map<Udid, Node>): map<Udid, Lease> {
      map u | u in udids :: udids[u].AsLease()
    }

    ghost predicate Valid()
      reads this, Nodes, cache
    {
      Shaped(Value())
    }

    /** Table and map hold the very same objects, each under its own address and device. */
    static ghost predicate SameObjects(nodes: seq<Node?>, udids: map<Udid, Node>) {
      && (forall i :: 0 <= i < |nodes| && nodes[i] != null ==>
            nodes[i].Id == i && nodes[i].Udid in udids && udids[nodes[i].Udid] == nodes[i])
      && (forall u :: u in udids ==> udids[u].Udid == u && 0 <= udids[u].Id < |nodes| && nodes[udids[u].Id] == udids[u])
    }

    static lemma Installing(nodes: seq<Node?>, udids: map<Udid, Node>, node: Node)
      requires 0 <= node.Id < |nodes|
      ensures Slots(nodes[node.Id := node]) == Slots(nodes)[node.Id := Some(node.AsLease())]
      ensures ByUdid(udids[node.Udid := node]) == ByUdid(udids)[node.Udid := node.AsLease()]
      ensures SameObjects(nodes, udids) && node.Udid !in udids && nodes[node.Id] == null
          ==> SameObjects(nodes[node.Id := node], udids[node.Udid := node])
    {
    }

    static lemma Removing(nodes: seq<Node?>, udids: map<Udid, Node>, node: Node)
      requires 0 <= node.Id < |nodes|
      ensures Slots(nodes[node.Id := null]) == Slots(nodes)[node.Id := None]
      ensures ByUdid(udids - {node.Udid}) == ByUdid(udids) - {node.Udid}
      ensures SameObjects(nodes, udids) && nodes[node.Id] == node ==>
                SameObjects(nodes[node.Id := null], udids - {node.Udid})
    {
    }

    constructor (cache: Store)
      requires forall s :: s in cache.nodeCache ==> 0 <= cache.nodeCache[s] < NODE_COUNT
      ensures Valid() && fresh(Nodes) && this.cache == cache && SameObjects(Nodes[..], Udids)
      ensures Value() == Registry(seq(NODE_COUNT, _ => None), map[], cache.Value())
    {
      Nodes := new Node?[NODE_COUNT](_ => null);
      Udids := map[];
      this.cache := cache;
    }

    /** The node at an address is the one its device leads to; there is none exactly when no device leads to one with
        that address. */
    method Find(id: NodeId) returns (node: Node?)
      requires Valid() && id < NODE_COUNT
      ensures LeaseOf(node) == Addresses.Find(Value(), id) && (0 <= id ==> node == Nodes[id])
      ensures SameObjects(Nodes[..], Udids) ==>
                && (node != null ==> node.Id == id && node.Udid in Udids && Udids[node.Udid] == node)
                && (node == null <==> forall u :: u in Udids ==> Udids[u].Id != id)
    {
      node := if id < 0 then null else Nodes[id];
    }

    /** The node of a device sits at its own address; there is none exactly when none in the table is of that device. */
    method Lookup(udid: Udid) returns (node: Node?)
      ensures LeaseOf(node) == Addresses.Lookup(Value(), udid) && (node != null ==> node == Udids[udid])
      ensures SameObjects(Nodes[..], Udids) ==>
                && (node != null ==> node.Udid == udid && 0 <= node.Id < Nodes.Length && Nodes[node.Id] == node)
                && (node == null <==> forall n: Node :: n in Nodes[..] ==> n.Udid != udid)
    {
      node := if udid in Udids then Udids[udid] else null;
    }

    /** The common end of Register's three branches. */
    method Install(udid: Udid, version: byte, id: NodeId) returns (node: Node)
      requires Valid() && 0 <= id < NODE_COUNT
      modifies this`Udids, Nodes, cache
      ensures Valid() && fresh(node) && Value() == Addresses.Install(old(Value()), udid, id)
      ensures node.AsLease() == Lease(id, udid) && node.State == Unknown && node.FirmwareVersion == version
      ensures old(SameObjects(Nodes[..], Udids) && udid !in Udids && Nodes[id] == null) ==>
                SameObjects(Nodes[..], Udids)
    {
      node := new Node(id, udid, version);
      Nodes[id] := node;
      Udids := Udids[udid := node];
      var _ := cache.SetEntry(udid, id);
      assert Nodes[..] == old(Nodes[..])[id := node];
      Installing(old(Nodes[..]), old(Udids), node);
    }

    /** The two search loops of Register, which differ only in whether they skip cached addresses. */
    method Search(unreserved: bool) returns (f: nat)
      requires Valid()
      ensures f == FirstFrom(Value(), 1, unreserved)
    {
      for i := 1 to NODE_COUNT
        invariant FirstFrom(Value(), 1, unreserved) == FirstFrom(Value(), i, unreserved)
      {
        var reserved := cache.ReverseLookup(i);
        if Nodes[i] == null && !(unreserved && reserved) {
          return i;
        }
      }
      return NODE_COUNT;
    }

    /** Lines 210-246: the cached address if its slot is empty, else the two searches; 128 when all fail. */
    method Choose(udid: Udid) returns (id: NodeId)
      requires Valid()
      ensures 0 <= id <= NODE_COUNT && (id == NODE_COUNT <==> Choice(Value(), udid).Rejected?)
      ensures id < NODE_COUNT ==> Choice(Value(), udid).id == id && Nodes[id] == null
    {
      id := cache.Lookup(udid);
      if id != 0 {
        if Nodes[id] == null {
          return;
        }
      }
      id := Search(true);
      if id == NODE_COUNT {
        id := Search(false);
      }
    }

    method Register(udid: Udid, version: byte) returns (node: Node?)
      requires Valid()
      modifies this`Udids, Nodes, cache, if udid in Udids then {Udids[udid]} else {}
      ensures Valid()
      ensures var (q, out) := Addresses.Register(old(Value()), udid);
              && Value() == q
              && (node == null <==> out.Rejected?)
              && (node != null ==> node.FirmwareVersion == version)
              && (out.Renewed? ==> node == old(Udids)[udid] && node.State == Connecting)
              && (node != null && !out.Renewed? ==>
                    fresh(node) && node.AsLease() == Lease(out.id, udid) && node.State == Unknown)
      ensures old(SameObjects(Nodes[..], Udids)) ==> SameObjects(Nodes[..], Udids)
    {
      if udid == NULL_UDID {
        return null;
      }
      node := Lookup(udid);
      if node != null {
        node.State := Connecting;
        node.FirmwareVersion := version;
        return;
      }
      var id := Choose(udid);
      if id < NODE_COUNT {
        node := Install(udid, version, id);
      }
    }

    method Unregister(node: Node) returns (own: bool)
      requires Valid() && 0 <= node.Id < NODE_COUNT
      modifies this`Udids, Nodes
      ensures Valid() && Value() == Addresses.Unregister(old(Value()), node.AsLease())
      ensures own <==> old(Nodes[node.Id]) == node
      ensures Nodes[..] == old(Nodes[..])[node.Id := null] && Udids == old(Udids) - {node.Udid}
      ensures old(SameObjects(Nodes[..], Udids)) && own ==> SameObjects(Nodes[..], Udids)
    {
      own := Nodes[node.Id] == node;
      Udids := Udids - {node.Udid};
      Nodes[node.Id] := null;
      assert Nodes[..] == old(Nodes[..])[node.Id := null];
      Removing(old(Nodes[..]), old(Udids), node);
    }

    method Clear()
      requires Valid()
      modifies this`Udids, Nodes
      ensures Valid() && Value() == Addresses.Clear(old(Value())) && SameObjects(Nodes[..], Udids)
      ensures Udids == map[] && forall i :: 0 <= i < Nodes.Length ==> Nodes[i] == null
    {
      Udids := map[];
      for i := 0 to Nodes.Length
        invariant Udids == map[] && forall k :: 0 <= k < i ==> Nodes[k] == null
      {
        Nodes[i] := null;
      }
    }
  }
}
