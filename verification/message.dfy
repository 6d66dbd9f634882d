/**
  NoCAN messages and CAN frames (models/nocan/message.go, models/can/can.go).

  A 29-bit CAN identifier carries, from the top: the FIRST flag (bit 28), the node (bits 21-27), the LAST flag
  (bit 20), the SYSTEM flag (bit 18) and 16 low bits (channel, or function and parameter). Bit 31 marks an
  extended frame.
 */
module Nocan {

  datatype Option<T> = None | Some(value: T)

  type byte = x: int | 0 <= x < 256
  type ChannelId = i: int | 0 <= i < 0x1_0000
  type MsgId = i: int | 0 <= i < 0x1_0000

  const MASK_FIRST: bv32 := 0x1000_0000
  const MASK_LAST: bv32 := 0x0010_0000
  const MASK_SYSTEM: bv32 := 0x0004_0000
  const MASK_EXTENDED: bv32 := 0x8000_0000
  const MAX_PAYLOAD := 64
  const NODE_COUNT := 128

  function NodeBits(canId: bv32): (b: bv32) { (canId >> 21) & 0x7F }

  function NodeOf(canId: bv32): (n: nat)
    ensures n < NODE_COUNT
  {
    var b := NodeBits(canId);
    assert b < 128;
    b as nat
  }

  predicate IsSystem(canId: bv32) { canId & MASK_SYSTEM != 0 }
  function Low16(canId: bv32): bv32 { canId & 0xFFFF }
  function Function(canId: bv32): bv32 { (canId >> 8) & 0xFF }
  function Param(canId: bv32): bv32 { canId & 0xFF }
  predicate IsFirst(canId: bv32) { canId & MASK_FIRST != 0 }
  predicate IsLast(canId: bv32) { canId & MASK_LAST != 0 }
  predicate IsExtended(canId: bv32) { canId & MASK_EXTENDED != 0 }

  /** uint32(node) for a NodeId, which is an int8: the sign is extended. */
  function WidenNode(node: bv8): bv32 {
    if node & 0x80 != 0 then (node as bv32) | 0xFFFF_FF00 else node as bv32
  }

  function SystemId(node: bv8, fn: bv8, param: bv8): bv32 {
    MASK_SYSTEM | (WidenNode(node) << 21) | ((fn as bv32) << 8) | (param as bv32)
  }

  function PublishId(node: bv8, channel: bv16): bv32 {
    (WidenNode(node) << 21) | (channel as bv32)
  }

  /** What a message means to its receiver: its identifier and its Dlc valid bytes. */
  datatype Packet = Packet(canId: bv32, bytes: seq<byte>)

  /** A CAN frame: eight data bytes are always present, the first dlc of them count. */
  datatype RawFrame = Frame(canId: bv32, dlc: byte, data: seq<byte>)
  type Frame = f: RawFrame | |f.data| == 8 witness Frame(0, 0, [0, 0, 0, 0, 0, 0, 0, 0])

  /** A message built by the constructors reads back the node, kind and low bits it was given. */
  lemma SystemIdReadsBack(node: bv8, fn: bv8, param: bv8)
    ensures var id := SystemId(node, fn, param);
            && IsSystem(id) && NodeBits(id) == (node as bv32) & 0x7F
            && Function(id) == (fn as bv32) && Param(id) == (param as bv32)
  {
    SignReachesFirst(node);
  }

  lemma PublishIdReadsBack(node: bv8, channel: bv16)
    ensures var id := PublishId(node, channel);
            !IsSystem(id) && NodeBits(id) == (node as bv32) & 0x7F && Low16(id) == (channel as bv32)
  {
    SignReachesFirst(node);
  }

  /** Such a message can be cut into frames (FIRST and LAST clear) exactly when its node is not negative: node -1 is
      UNDEFINED_NODE. */
  lemma BuiltIdsAreUnflaggedExactlyWhen(node: bv8, fn: bv8, param: bv8, channel: bv16)
    ensures !IsLast(SystemId(node, fn, param)) && !IsLast(PublishId(node, channel))
    ensures !IsFirst(SystemId(node, fn, param)) <==> node < 0x80
    ensures !IsFirst(PublishId(node, channel)) <==> node < 0x80
  {
    SignReachesFirst(node);
  }

  lemma SignReachesFirst(node: bv8)
    ensures (WidenNode(node) << 21) & MASK_FIRST == 0 <==> node < 0x80
    ensures (WidenNode(node) << 21) & MASK_LAST == 0
    ensures ((WidenNode(node) << 21) >> 21) & 0x7F == (node as bv32) & 0x7F
  {
  }

  /** models/nocan/message.go:35 */
  class Message {
    var CanId: bv32
    var Dlc: nat
    const Data: array<byte>

    ghost predicate Valid()
      reads this
    {
      Data.Length == MAX_PAYLOAD && Dlc <= MAX_PAYLOAD
    }

    ghost function Value(): Packet
      requires Valid()
      reads this, Data
    {
      Packet(CanId, Data[..Dlc])
    }

    /** NewMessage: at most 64 bytes of data are kept. */
    constructor (id: bv32, data: seq<byte>)
      ensures Valid() && fresh(Data)
      ensures Value() == Packet(id, if |data| > MAX_PAYLOAD then data[..MAX_PAYLOAD] else data)
    {
      CanId := id;
      var kept := if |data| > MAX_PAYLOAD then data[..MAX_PAYLOAD] else data;
      Dlc := |kept|;
      Data := new byte[MAX_PAYLOAD](i => if 0 <= i < |kept| then kept[i] else 0);
      new;
      assert Data[..Dlc] == kept;
    }

    /** Appends in place, or changes nothing when the result would not fit. */
    method AppendData(data: seq<byte>) returns (ok: bool)
      requires Valid()
      modifies this`Dlc, Data
      ensures Valid()
      ensures ok <==> |old(Value()).bytes| + |data| <= MAX_PAYLOAD
      ensures Value() == Appended(old(Value()), data)
      ensures CanId == old(CanId) && Data[..Dlc] == if ok then old(Data[..Dlc]) + data else old(Data[..Dlc])
    {
      if Dlc + |data| > MAX_PAYLOAD {
        return false;
      }
      forall i | 0 <= i < |data| {
        Data[Dlc + i] := data[i];
      }
      assert Data[..Dlc] == old(Data[..Dlc]);
      Dlc := Dlc + |data|;
      assert Data[..Dlc] == old(Data[..Dlc]) + data;
      return true;
    }
  }

  function Appended(p: Packet, data: seq<byte>): (r: Packet)
    ensures r.canId == p.canId && p.bytes <= r.bytes
    ensures |p.bytes| <= MAX_PAYLOAD ==> |r.bytes| <= MAX_PAYLOAD
  {
    if |p.bytes| + |data| > MAX_PAYLOAD then p else Packet(p.canId, p.bytes + data)
  }
}
