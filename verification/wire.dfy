/**
  Events from sender to receiver: packed (module EventTypes), framed and read back (module Framing), and unpacked by
  the type their event id stands for (EncodeEvent and DecodeEvent, socket/event.go:85-220), for the six types of
  module EventTypes.
 */
module Wire {
  import opened Nocan
  import opened EventTypes
  import opened Framing

  const CHANNEL_FILTER: byte := 3
  const CHANNEL_UPDATE: byte := 9
  const CHANNEL_LIST: byte := 11
  const NODE_UPDATE: byte := 13
  const NODE_LIST: byte := 15
  const NODE_FIRMWARE: byte := 16

  datatype Content = Filter(channels: set<ChannelId>)
                   | Update(update: ChannelUpdate) | Updates(updates: seq<ChannelUpdate>)
                   | Node(node: NodeUpdate) | Nodes(nodes: seq<NodeUpdate>) | Code(firmware: Firmware)

  datatype Eventer = Eventer(msgId: MsgId, content: Content)

  /** The order in which Pack walks the map of a filter. */
  type Walk = set<ChannelId> -> seq<ChannelId>

  ghost predicate WalksAll(walk: Walk) { forall channels :: Enumerates(walk(channels), channels) }

  function Id(c: Content): byte {
    match c
    case Filter(_) => CHANNEL_FILTER
    case Update(_) => CHANNEL_UPDATE
    case Updates(_) => CHANNEL_LIST
    case Node(_) => NODE_UPDATE
    case Nodes(_) => NODE_LIST
    case Code(_) => NODE_FIRMWARE
  }

  function Pack(walk: Walk, c: Content): seq<byte> {
    match c
    case Filter(channels) => PackIds(walk(channels))
    case Update(cu) => PackUpdate(cu)
    case Updates(cus) => PackAll(PackUpdate, cus)
    case Node(nu) => PackNode(nu)
    case Nodes(nus) => PackAll(PackNode, nus)
    case Code(f) => PackFirmware(f)
  }

  function AsFilter(p: Parsed<set<ChannelId>>): Option<Content> { if p.Ok? then Some(Filter(p.value)) else None }
  function AsUpdate(p: Parsed<ChannelUpdate>): Option<Content> { if p.Ok? then Some(Update(p.value)) else None }
  function AsUpdates(p: Parsed<seq<ChannelUpdate>>): Option<Content> { if p.Ok? then Some(Updates(p.value)) else None }
  function AsNode(p: Parsed<NodeUpdate>): Option<Content> { if p.Ok? then Some(Node(p.value)) else None }
  function AsNodes(p: Parsed<seq<NodeUpdate>>): Option<Content> { if p.Ok? then Some(Nodes(p.value)) else None }
  function AsCode(p: Parsed<Firmware>): Option<Content> { if p.Ok? then Some(Code(p.value)) else None }

  /** None when Unpack fails, and for the ids of other types. */
  function Unpack(id: byte, b: seq<byte>): Option<Content> {
    UpdateCodec();
    NodeCodec();
    if id == CHANNEL_FILTER then AsFilter(UnpackIds(b))
    else if id == CHANNEL_UPDATE then AsUpdate(UnpackUpdate(b))
    else if id == CHANNEL_LIST then AsUpdates(UnpackAll(UnpackUpdate, b))
    else if id == NODE_UPDATE then AsNode(UnpackNode(b))
    else if id == NODE_LIST then AsNodes(UnpackAll(UnpackNode, b))
    else if id == NODE_FIRMWARE then AsCode(UnpackFirmware(b))
    else None
  }

  predicate GoodUpdates(cus: seq<ChannelUpdate>) { forall k :: 0 <= k < |cus| ==> GoodUpdate(cus[k]) }
  predicate GoodNodes(nus: seq<NodeUpdate>) { forall k :: 0 <= k < |nus| ==> GoodNode(nus[k]) }
  predicate GoodBlocks(code: seq<Block>) { forall k :: 0 <= k < |code| ==> GoodBlock(code[k]) }

  predicate Good(c: Content) {
    match c
    case Filter(_) => true
    case Update(cu) => GoodUpdate(cu)
    case Updates(cus) => GoodUpdates(cus)
    case Node(nu) => GoodNode(nu)
    case Nodes(nus) => GoodNodes(nus)
    case Code(f) => GoodBlocks(f.code)
  }

  lemma ListSurvivesExactlyWhen<T(!new)>(pack: T -> seq<byte>, unpack: seq<byte> -> Parsed<T>, good: T -> bool,
                                        xs: seq<T>)
    requires Codec(pack, unpack, good)
    ensures var r := UnpackAll(unpack, PackAll(pack, xs));
            r.Ok? && r.value == xs <==> forall k :: 0 <= k < |xs| ==> good(xs[k])
  {
    PackedListUnpacksExactlyWhen(pack, unpack, good, xs);
    if UnpackAll(unpack, PackAll(pack, xs)).Ok? {
      UnpackedListRepacks(pack, unpack, good, PackAll(pack, xs));
    }
  }

  lemma UpdateSurvives(cu: ChannelUpdate)
    ensures var r := UnpackUpdate(PackUpdate(cu)); r.Ok? && r.value == cu <==> GoodUpdate(cu)
  {
    var b := PackUpdate(cu);
    assert b + [] == b;
    UpdateSurvivesExactlyWhen(cu, []);
    if UnpackUpdate(b).Ok? {
      UnpackedUpdateRepacks(b);
    }
  }

  lemma NodeSurvives(nu: NodeUpdate)
    ensures var r := UnpackNode(PackNode(nu)); r.Ok? && r.value == nu <==> GoodNode(nu)
  {
    assert PackNode(nu) + [] == PackNode(nu);
    NodeSurvivesExactlyWhen(nu, []);
  }

  lemma FirmwareSurvives(f: Firmware)
    ensures var r := UnpackFirmware(PackFirmware(f));
            r.Ok? && r.value == f <==> GoodBlocks(f.code)
  {
    BlockCodec();
    FirmwareHead(f);
    ListSurvivesExactlyWhen(PackBlock, UnpackBlock, GoodBlock, f.code);
    UnpackedFirmware(PackFirmware(f), UnpackAll(UnpackBlock, PackAll(PackBlock, f.code)));
  }

  lemma UnpackedFirmware(b: seq<byte>, code: Parsed<seq<Block>>)
    requires |b| >= 6 && Advances(UnpackBlock) && code == UnpackAll(UnpackBlock, b[6..])
    ensures UnpackFirmware(b).Ok? <==> code.Ok?
    ensures code.Ok? ==>
              UnpackFirmware(b).value == Firmware(Int8Of(b[0]), b[1] != 0, Uint32Of(b[2..6]), code.value)
  {
  }

  /** The event survives: its packing, unpacked by its id, gives it back. */
  predicate Survives(walk: Walk, c: Content) { Unpack(Id(c), Pack(walk, c)) == Some(c) }

  lemma UpdatesSurvive(walk: Walk, cus: seq<ChannelUpdate>)
    ensures Survives(walk, Updates(cus)) <==> Good(Updates(cus))
  {
    UpdateCodec();
    ListSurvivesExactlyWhen(PackUpdate, UnpackUpdate, GoodUpdate, cus);
  }

  lemma NodeListUnpacks(nus: seq<NodeUpdate>)
    ensures Advances(UnpackNode)
    ensures AsNodes(UnpackAll(UnpackNode, PackAll(PackNode, nus))) == Some(Nodes(nus)) <==> GoodNodes(nus)
  {
    NodeCodec();
    ListSurvivesExactlyWhen(PackNode, UnpackNode, GoodNode, nus);
  }

  lemma UnpackNodes(b: seq<byte>)
    ensures Advances(UnpackNode) && Unpack(NODE_LIST, b) == AsNodes(UnpackAll(UnpackNode, b))
  {
    NodeCodec();
  }

  lemma PackedNodesUnpack(nus: seq<NodeUpdate>, b: seq<byte>)
    requires b == PackAll(PackNode, nus)
    ensures Unpack(NODE_LIST, b) == Some(Nodes(nus)) <==> GoodNodes(nus)
  {
    NodeListUnpacks(nus);
    UnpackNodes(b);
  }

  lemma NodesSurvive(walk: Walk, nus: seq<NodeUpdate>)
    ensures Survives(walk, Nodes(nus)) <==> GoodNodes(nus)
  {
    PackedNodesUnpack(nus, Pack(walk, Nodes(nus)));
  }

  lemma AloneSurvives(walk: Walk, c: Content)
    requires WalksAll(walk) && !c.Updates? && !c.Nodes?
    ensures Survives(walk, c) <==> Good(c)
  {
    match c {
      case Filter(channels) => FilterSurvives(walk(channels), channels);
      case Update(cu) => UpdateSurvives(cu);
      case Node(nu) => NodeSurvives(nu);
      case Code(f) => FirmwareSurvives(f);
    }
  }

  /** One event, packed and unpacked by its id, is the same if and only if its parts are in range. */
  lemma ContentSurvivesExactlyWhen(walk: Walk, c: Content)
    requires WalksAll(walk)
    ensures Survives(walk, c) <==> Good(c)
  {
    match c {
      case Updates(cus) => UpdatesSurvive(walk, cus);
      case Nodes(nus) => NodesSurvive(walk, nus);
      case _ => AloneSurvives(walk, c);
    }
  }

  // ---------- Streams ----------

  function InEnvelope(walk: Walk, e: Eventer): Envelope { Envelope(e.msgId, Id(e.content), Pack(walk, e.content)) }

  function Sent(walk: Walk, es: seq<Eventer>): (fs: seq<Envelope>)
    ensures |fs| == |es| && forall k :: 0 <= k < |es| ==> fs[k] == InEnvelope(walk, es[k])
  {
    seq(|es|, k requires 0 <= k < |es| => InEnvelope(walk, es[k]))
  }

  function Opened(f: Envelope): Option<Eventer> {
    var c := Unpack(f.eventId, f.payload);
    if c.None? then None else Some(Eventer(f.msgId, c.value))
  }

  function OpenedAll(fs: seq<Envelope>): Option<seq<Eventer>> {
    if fs == [] then Some([])
    else
      var first, rest := Opened(fs[0]), OpenedAll(fs[1..]);
      if first.None? || rest.None? then None else Some([first.value] + rest.value)
  }

  /** What a reader makes of all the bytes of a connection; None when one event fails. */
  function Received(s: seq<byte>): Option<seq<Eventer>> {
    var fs := DecodeAll(s);
    if fs.None? then None else OpenedAll(fs.value)
  }

  lemma EnvelopeOpens(walk: Walk, e: Eventer)
    requires WalksAll(walk)
    ensures Opened(InEnvelope(walk, e)) == Some(e) <==> Good(e.content)
  {
    ContentSurvivesExactlyWhen(walk, e.content);
  }

  lemma OpenedInTurn(fs: seq<Envelope>, es: seq<Eventer>)
    requires fs != [] && es != []
    ensures OpenedAll(fs) == Some(es) <==> Opened(fs[0]) == Some(es[0]) && OpenedAll(fs[1..]) == Some(es[1..])
  {
    assert es == [es[0]] + es[1..];
    if OpenedAll(fs) == Some(es) {
      assert es[1..] == OpenedAll(fs[1..]).value;
    }
  }

  lemma {:induction false} OpenedAllExactlyWhen(walk: Walk, es: seq<Eventer>)
    requires WalksAll(walk)
    ensures OpenedAll(Sent(walk, es)) == Some(es) <==> forall k :: 0 <= k < |es| ==> Good(es[k].content)
  {
    if es == [] {
    } else {
      EnvelopeOpens(walk, es[0]);
      OpenedAllExactlyWhen(walk, es[1..]);
      assert Sent(walk, es)[1..] == Sent(walk, es[1..]);
      OpenedInTurn(Sent(walk, es), es);
    }
  }

  /** Any number of events of any of the types, written one after the other to a connection, are received as the same
      events with the same message ids, in order, if and only if the parts of every one are in range. */
  lemma EventsArriveExactlyWhen(walk: Walk, es: seq<Eventer>)
    requires WalksAll(walk) && forall k :: 0 <= k < |es| ==> Small(InEnvelope(walk, es[k]))
    ensures Received(EncodeAll(Sent(walk, es))) == Some(es) <==> forall k :: 0 <= k < |es| ==> Good(es[k].content)
  {
    StreamReadsBack(Sent(walk, es));
    OpenedAllExactlyWhen(walk, es);
  }
}
