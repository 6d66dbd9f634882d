/**
  Two handlers of client requests (controllers/event_server.go): channel updates, on the channel directory, and
  firmware uploads. What they send is recorded in order.
 */
module EventServer {
  import opened Nocan
  import opened Channels
  import Addresses
  import Bootloader
  import ChannelCollection
  import EventTypes
  import NodeCollection

  datatype AckCode = Success | BadRequest | NotFound | GeneralFailure

  /** An ack to the client, an event to all other clients, or a message on the bus. */
  datatype Effect = Ack(code: AckCode) | Broadcast(name: string, id: ChannelId, status: byte, value: seq<byte>)
                  | Publish(id: ChannelId, data: seq<byte>)

  const CREATED: byte := 0
  const UPDATED: byte := 1
  const DESTROYED: byte := 2

  datatype Request = Request(status: byte, id: ChannelId, name: string, value: seq<byte>)

  // ---------- Channel updates ----------

  /** The channel meant by a request other than a creation. */
  function Target(d: Directory, r: Request): Option<ChannelId> {
    if r.name == "" then (if r.id in d.byId then Some(r.id) else None) else Lookup(d, r.name)
  }

  /** NewMessage keeps 64 bytes. */
  function Cut(data: seq<byte>): seq<byte> { if |data| > MAX_PAYLOAD then data[..MAX_PAYLOAD] else data }

  predicate CanServe(d: Directory, r: Request) { r.status == CREATED && Full(d) ==> r.name == "" || r.name in d.byName }

  function Served(d: Directory, r: Request): (Directory, seq<Effect>)
    requires NamesOwned(d) && CanServe(d, r)
  {
    if r.status == CREATED then
      if r.name in d.byName then (d, [Ack(Success)])
      else
        var (e, id) := Channels.Register(d, r.name);
        if id.None? then (e, [Ack(GeneralFailure)])
        else (e, [Broadcast(r.name, id.value, CREATED, []), Ack(Success)])
    else
      var t := Target(d, r);
      if t.None? then (d, [Ack(NotFound)])
      else
        var name := d.byId[t.value];
        if r.status == UPDATED then
          (d, [Publish(t.value, Cut(r.value)), Broadcast(name, t.value, UPDATED, r.value), Ack(Success)])
        else if r.status == DESTROYED then (Unregister(d, name, t.value), [Ack(GeneralFailure)])
        else (d, [Ack(GeneralFailure)])
  }

  /** Every request is answered by one ack, and that comes last. */
  lemma AckedOnce(d: Directory, r: Request)
    requires NamesOwned(d) && CanServe(d, r)
    ensures var es := Served(d, r).1;
            es != [] && forall k :: 0 <= k < |es| ==> (es[k].Ack? <==> k == |es| - 1)
  {
  }

  function AckOf(d: Directory, r: Request): AckCode
    requires NamesOwned(d) && CanServe(d, r)
  {
    AckedOnce(d, r);
    var es := Served(d, r).1;
    es[|es| - 1].code
  }

  /** Success is acked exactly for a creation with a name and for an update of a channel that exists. */
  lemma SuccessExactlyWhen(d: Directory, r: Request)
    requires NamesOwned(d) && CanServe(d, r)
    ensures AckOf(d, r) == Success
       <==> (r.status == CREATED && (r.name != "" || r.name in d.byName)) || (r.status == UPDATED && Target(d, r).Some?)
  {
  }

  /** A request that changes the directory is acked as a success unless it destroys a channel: that takes effect and
      is acked as a failure. */
  lemma ChangeIsDeniedExactlyWhen(d: Directory, r: Request)
    requires Inverse(d) && CanServe(d, r)
    ensures Served(d, r).0 != d && AckOf(d, r) != Success <==> r.status == DESTROYED && Target(d, r).Some?
  {
    if r.status == DESTROYED && Target(d, r).Some? {
      assert Target(d, r).value !in Served(d, r).0.byId;
    }
  }

  /** The directory stays sound through every request. */
  lemma ServingKeepsInverse(d: Directory, r: Request)
    requires Inverse(d) && CanServe(d, r)
    ensures Inverse(Served(d, r).0)
  {
    if r.status == CREATED {
      if r.name != "" && r.name !in d.byName {
        InsertKeepsInverse(d, r.name);
      }
    } else if r.status == DESTROYED && Target(d, r).Some? {
      UnregisterKeepsInverse(d, d.byId[Target(d, r).value], Target(d, r).value);
    }
  }

  /** The request is about channel i: by name if it gives one, whatever id it gives, and by id otherwise. */
  predicate Means(d: Directory, r: Request, i: ChannelId) {
    i in d.byId && if r.name == "" then i == r.id else d.byId[i] == r.name
  }

  function Publishes(es: seq<Effect>): seq<Effect> {
    if es == [] then [] else (if es[0].Publish? then [es[0]] else []) + Publishes(es[1..])
  }

  /** An update of an existing channel is published on the bus, once, with at most the first 64 bytes of its value, and
      broadcast, once, with the whole value; and nothing else ever is published. Only it gets these three effects. */
  lemma UpdateReachesTheBus(d: Directory, r: Request)
    requires Inverse(d) && CanServe(d, r)
    ensures Publishes(Served(d, r).1) != [] <==> r.status == UPDATED && exists i :: Means(d, r, i)
    ensures forall i :: Means(d, r, i) && r.status == UPDATED ==>
              && Served(d, r).0 == d
              && Served(d, r).1
                 == [Publish(i, if |r.value| <= MAX_PAYLOAD then r.value else r.value[..MAX_PAYLOAD]),
                     Broadcast(d.byId[i], i, UPDATED, r.value), Ack(Success)]
  {
    TargetIsMeant(d, r);
    var es := Served(d, r).1;
    PublishesFirst(es);
  }

  lemma PublishesFirst(es: seq<Effect>)
    requires 1 <= |es| <= 3 && forall k :: 0 < k < |es| ==> !es[k].Publish?
    ensures Publishes(es) == if es[0].Publish? then [es[0]] else []
  {
    NoPublishes(es[1..]);
  }

  lemma {:induction false} NoPublishes(es: seq<Effect>)
    requires forall k :: 0 <= k < |es| ==> !es[k].Publish?
    ensures Publishes(es) == []
  {
    if es == [] {
    } else {
      NoPublishes(es[1..]);
    }
  }

  lemma TargetIsMeant(d: Directory, r: Request)
    requires Inverse(d)
    ensures forall i: ChannelId :: Means(d, r, i) <==> Target(d, r) == Some(i)
  {
  }

  /** A creation is broadcast, once and without a value, exactly when it makes a new channel, under the id the name then
      leads to; no other creation has an effect but its ack. */
  lemma CreationIsTold(d: Directory, r: Request)
    requires Inverse(d) && CanServe(d, r) && r.status == CREATED
    ensures var (e, es) := Served(d, r);
            if r.name != "" && Lookup(d, r.name) == None
            then Lookup(e, r.name).Some?
                 && es == [Broadcast(r.name, Lookup(e, r.name).value, CREATED, []), Ack(Success)]
            else e == d && es == [Ack(if r.name in d.byName then Success else GeneralFailure)]
  {
    RegisterGives(d, r.name);
  }

  /** NotFound is acked exactly when the request is not a creation and is about no channel; BadRequest never is. */
  lemma NotFoundExactlyWhen(d: Directory, r: Request)
    requires Inverse(d) && CanServe(d, r)
    ensures AckOf(d, r) == NotFound <==> r.status != CREATED && !exists i :: Means(d, r, i)
    ensures AckOf(d, r) != BadRequest
  {
    TargetIsMeant(d, r);
    if t :| Target(d, r) == Some(t) {
      assert Means(d, r, t);
    }
  }

  /** A request to destroy a channel removes that channel and nothing else, and is not broadcast. */
  lemma DestroyRemoves(d: Directory, r: Request, i: ChannelId)
    requires Inverse(d) && CanServe(d, r) && r.status == DESTROYED && Means(d, r, i)
    ensures var (e, es) := Served(d, r);
            && es == [Ack(GeneralFailure)] && i !in e.byId && d.byId[i] !in e.byName && e.top == d.top
            && (forall j :: j != i ==> (j in e.byId <==> j in d.byId) && (j in d.byId ==> e.byId[j] == d.byId[j]))
  {
    TargetIsMeant(d, r);
    UnregisterRemoves(d, d.byId[i], i);
  }

  // ---------- Sequences of requests ----------

  predicate CanServeAll(d: Directory, rs: seq<Request>)
    requires Inverse(d)
    decreases rs
  {
    rs == [] || (CanServe(d, rs[0]) && (ServingKeepsInverse(d, rs[0]); CanServeAll(Served(d, rs[0]).0, rs[1..])))
  }

  function ServedAll(d: Directory, rs: seq<Request>): (Directory, seq<Effect>)
    requires Inverse(d) && CanServeAll(d, rs)
    decreases rs
  {
    if rs == [] then (d, [])
    else
      ServingKeepsInverse(d, rs[0]);
      var (e, es) := Served(d, rs[0]);
      var (f, fs) := ServedAll(e, rs[1..]);
      (f, es + fs)
  }

  function Acks(es: seq<Effect>): seq<AckCode> {
    if es == [] then [] else (if es[0].Ack? then [es[0].code] else []) + Acks(es[1..])
  }

  lemma {:induction false} AcksJoin(es: seq<Effect>, fs: seq<Effect>)
    ensures Acks(es + fs) == Acks(es) + Acks(fs)
  {
    if es == [] {
      assert es + fs == fs;
    } else {
      assert (es + fs)[0] == es[0] && (es + fs)[1..] == es[1..] + fs;
      AcksJoin(es[1..], fs);
    }
  }

  lemma {:induction false} LastIsTheAck(es: seq<Effect>)
    requires es != [] && forall k :: 0 <= k < |es| ==> (es[k].Ack? <==> k == |es| - 1)
    ensures Acks(es) == [es[|es| - 1].code]
  {
    if |es| == 1 {
      assert es[1..] == [];
    } else {
      LastIsTheAck(es[1..]);
    }
  }

  function AcksDue(d: Directory, rs: seq<Request>): (acks: seq<AckCode>)
    requires Inverse(d) && CanServeAll(d, rs)
    ensures |acks| == |rs|
    decreases rs
  {
    if rs == [] then []
    else ServingKeepsInverse(d, rs[0]); [AckOf(d, rs[0])] + AcksDue(Served(d, rs[0]).0, rs[1..])
  }

  /** One ack for each request, in the order of the requests: the n-th ack is the answer to the n-th request. */
  lemma {:induction false} AnsweredInOrder(d: Directory, rs: seq<Request>)
    requires Inverse(d) && CanServeAll(d, rs)
    ensures Acks(ServedAll(d, rs).1) == AcksDue(d, rs) && Inverse(ServedAll(d, rs).0)
    decreases rs
  {
    if rs == [] {
    } else {
      ServingKeepsInverse(d, rs[0]);
      var (e, es) := Served(d, rs[0]);
      AnsweredInOrder(e, rs[1..]);
      AckedOnce(d, rs[0]);
      LastIsTheAck(es);
      AcksJoin(es, ServedAll(e, rs[1..]).1);
    }
  }

  lemma {:induction false} PublishesJoin(es: seq<Effect>, fs: seq<Effect>)
    ensures Publishes(es + fs) == Publishes(es) + Publishes(fs)
  {
    if es == [] {
      assert es + fs == fs;
    } else {
      assert (es + fs)[0] == es[0] && (es + fs)[1..] == es[1..] + fs;
      PublishesJoin(es[1..], fs);
    }
  }

  /** What the updates that are acked as successes put on the bus. */
  function PublishesDue(d: Directory, rs: seq<Request>): seq<Effect>
    requires Inverse(d) && CanServeAll(d, rs)
    decreases rs
  {
    if rs == [] then []
    else
      ServingKeepsInverse(d, rs[0]);
      var r := rs[0];
      (if r.status == UPDATED && AckOf(d, r) == Success
       then [Publish(Target(d, r).value, if |r.value| <= MAX_PAYLOAD then r.value else r.value[..MAX_PAYLOAD])]
       else [])
      + PublishesDue(Served(d, r).0, rs[1..])
  }

  /** Over any sequence of requests, the bus sees the successful updates and nothing else, in order. */
  lemma {:induction false} BusSeesUpdates(d: Directory, rs: seq<Request>)
    requires Inverse(d) && CanServeAll(d, rs)
    ensures Publishes(ServedAll(d, rs).1) == PublishesDue(d, rs)
    decreases rs
  {
    if rs == [] {
    } else {
      ServingKeepsInverse(d, rs[0]);
      var (e, es) := Served(d, rs[0]);
      BusSeesUpdates(e, rs[1..]);
      UpdateIsDue(d, rs[0]);
      PublishesJoin(es, ServedAll(e, rs[1..]).1);
    }
  }

  lemma UpdateIsDue(d: Directory, r: Request)
    requires Inverse(d) && CanServe(d, r)
    ensures Publishes(Served(d, r).1)
         == if r.status == UPDATED && AckOf(d, r) == Success
            then [Publish(Target(d, r).value, if |r.value| <= MAX_PAYLOAD then r.value else r.value[..MAX_PAYLOAD])]
            else []
  {
    UpdateReachesTheBus(d, r);
    TargetIsMeant(d, r);
    PublishesFirst(Served(d, r).1);
  }

  function Learns(m: map<ChannelId, string>, e: Effect): map<ChannelId, string> {
    if e.Broadcast? && e.status == CREATED then m[e.id := e.name] else m
  }

  /** The directory as another client sees it who adds every channel whose creation is broadcast. */
  function Mirrored(m: map<ChannelId, string>, es: seq<Effect>): map<ChannelId, string>
    decreases es
  {
    if es == [] then m else Mirrored(Learns(m, es[0]), es[1..])
  }

  predicate Destroys(d: Directory, r: Request) { r.status == DESTROYED && Target(d, r).Some? }

  /** Such a client keeps up with a request if and only if that does not destroy a channel. */
  lemma MirrorFollowsExactlyWhen(d: Directory, r: Request)
    requires Inverse(d) && CanServe(d, r)
    ensures Mirrored(d.byId, Served(d, r).1) == Served(d, r).0.byId <==> !Destroys(d, r)
  {
    var es := Served(d, r).1;
    MirrorInTurn(d.byId, es);
    if Destroys(d, r) {
      assert Target(d, r).value !in Served(d, r).0.byId;
    }
  }

  lemma MirrorInTurn(m: map<ChannelId, string>, es: seq<Effect>)
    requires 1 <= |es| <= 3
    ensures |es| == 1 ==> Mirrored(m, es) == Learns(m, es[0])
    ensures |es| == 2 ==> Mirrored(m, es) == Learns(Learns(m, es[0]), es[1])
    ensures |es| == 3 ==> Mirrored(m, es) == Learns(Learns(Learns(m, es[0]), es[1]), es[2])
  {
    var n := Learns(m, es[0]);
    if |es| == 1 {
    } else {
      var o, rest := Learns(n, es[1]), es[1..][1..];
      assert Mirrored(m, es) == Mirrored(n, es[1..]) == Mirrored(o, rest);
      if |es| == 3 {
        assert Mirrored(o, rest) == Mirrored(Learns(o, es[2]), rest[1..]);
      }
    }
  }

  lemma {:induction false} MirrorJoins(m: map<ChannelId, string>, es: seq<Effect>, fs: seq<Effect>)
    ensures Mirrored(m, es + fs) == Mirrored(Mirrored(m, es), fs)
    decreases es
  {
    if es == [] {
      assert es + fs == fs;
    } else {
      assert (es + fs)[0] == es[0] && (es + fs)[1..] == es[1..] + fs;
      MirrorJoins(Learns(m, es[0]), es[1..], fs);
    }
  }

  predicate NeverDestroys(d: Directory, rs: seq<Request>)
    requires Inverse(d) && CanServeAll(d, rs)
    decreases rs
  {
    rs == [] || (!Destroys(d, rs[0]) && (ServingKeepsInverse(d, rs[0]); NeverDestroys(Served(d, rs[0]).0, rs[1..])))
  }

  /** Until the first channel is destroyed, the broadcasts tell the whole directory. */
  lemma {:induction false} MirrorFollowsRun(d: Directory, rs: seq<Request>)
    requires Inverse(d) && CanServeAll(d, rs) && NeverDestroys(d, rs)
    ensures Mirrored(d.byId, ServedAll(d, rs).1) == ServedAll(d, rs).0.byId
    decreases rs
  {
    if rs == [] {
    } else {
      ServingKeepsInverse(d, rs[0]);
      var (e, es) := Served(d, rs[0]);
      MirrorFollowsExactlyWhen(d, rs[0]);
      MirrorFollowsRun(e, rs[1..]);
      MirrorJoins(d.byId, es, ServedAll(e, rs[1..]).1);
    }
  }

  // ---------- The channel update handler ----------

  /** clientChannelUpdateHandler. The channel's own content follows an update only up to 64 bytes, while the ack
      and the broadcast say the same in either case. */
  method ChannelUpdateHandler(channels: ChannelCollection.Collection, r: Request) returns (effects: seq<Effect>)
    requires channels.Valid() && CanServe(channels.Value(), r)
    modifies channels, set i | i in channels.ById :: channels.ById[i]
    ensures channels.Valid() && (channels.Value(), effects) == Served(old(channels.Value()), r)
    ensures r.status == UPDATED && Target(old(channels.Value()), r).Some? ==> channels.ById == old(channels.ById)
    ensures forall i :: i in old(channels.ById) ==>
              old(channels.ById)[i].Value
              == if r.status == UPDATED && Target(old(channels.Value()), r) == Some(i) && |r.value| <= MAX_PAYLOAD
                 then r.value else old(channels.ById[i].Value)
  {
    var channel;
    if r.status == CREATED {
      channel := channels.Lookup(r.name);
      if channel == null {
        channel := channels.Register(r.name);
        if channel == null {
          return [Ack(GeneralFailure)];
        }
        return [Broadcast(channel.Name, channel.Id, CREATED, []), Ack(Success)];
      }
      return [Ack(Success)];
    }
    if r.name == "" {
      channel := channels.Find(r.id);
    } else {
      channel := channels.Lookup(r.name);
    }
    if channel == null {
      return [Ack(NotFound)];
    }
    assert channels.ById[channel.Id] == channel;
    if r.status == UPDATED {
      var _ := channel.SetContent(r.value);
      return [Publish(channel.Id, Cut(r.value)), Broadcast(channel.Name, channel.Id, UPDATED, r.value), Ack(Success)];
    }
    if r.status == DESTROYED {
      var ok := channels.Unregister(channel);
      if !ok {
        return [Ack(GeneralFailure)];
      }
    }
    return [Ack(GeneralFailure)];
  }

  // ---------- Firmware uploads ----------

  /** A pendingFirmwareOperation, and what the handler sends. */
  datatype Operation = Upload(client: nat, firmware: EventTypes.Firmware)
  datatype Reply = BootRequest(node: int) | Answer(code: AckCode)

  predicate AllChecked(operations: seq<Option<Operation>>) {
    forall n :: 0 <= n < |operations| && operations[n].Some? ==> Bootloader.Passes(operations[n].value.firmware.code)
  }

  /** clientFirmwareUploadHandler: `booted` tells whether the boot request went out. The operation is left pending even
      when it did not. Whatever is pending has been checked, block by block, for offsets below the application area. */
  method FirmwareUploadHandler(nodes: NodeCollection.Collection, operations: array<Option<Operation>>,
                               client: nat, firmware: EventTypes.Firmware, booted: bool)
      returns (replies: seq<Reply>)
    requires nodes.Valid() && NodeCollection.Collection.SameObjects(nodes.Nodes[..], nodes.Udids)
    requires operations.Length == NODE_COUNT && operations as object != nodes.Nodes
    modifies operations
    ensures var known := Addresses.Find(nodes.Value(), firmware.id).Some?;
            var pending := known && Bootloader.Passes(firmware.code);
            && operations[..] == (if pending then old(operations[..])[firmware.id := Some(Upload(client, firmware))]
                                  else old(operations[..]))
            && replies == (if !Bootloader.Passes(firmware.code) then [Answer(BadRequest)]
                           else if !known then [Answer(NotFound)]
                           else [BootRequest(firmware.id), Answer(if booted then Success else GeneralFailure)])
    ensures old(AllChecked(operations[..])) ==> AllChecked(operations[..])
  {
    var code := firmware.code;
    for i := 0 to |code|
      invariant forall j :: 0 <= j < i ==> code[j].offset >= Bootloader.FLASH_APP_ORIGIN
    {
      if code[i].offset < Bootloader.FLASH_APP_ORIGIN {
        return [Answer(BadRequest)];
      }
    }
    var node := nodes.Find(firmware.id);
    if node == null {
      return [Answer(NotFound)];
    }
    operations[node.Id] := Some(Upload(client, firmware));
    replies := [BootRequest(node.Id)];
    if !booted {
      return replies + [Answer(GeneralFailure)];
    }
    return replies + [Answer(Success)];
  }
}
