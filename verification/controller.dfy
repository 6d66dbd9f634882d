/**
  The network controller's state in memory and the loop that serves frames
  (controllers/network_controller.go:24-35 and 148-200), proved to be the slot machine of module Reassembly.
 */
module NetworkController {
  import opened Nocan
  import opened Reassembly

  class Controller {
    const pendingMessage: array<Message?>
    const inputQueue: array<seq<Packet>>
    const running: array<bool>
    /** The slots these arrays stand for. */
    ghost var slots: seq<Slot>
    ghost var Repr: set<object>

    ghost predicate Valid()
      reads this, Repr
    {
      && this in Repr && pendingMessage in Repr && inputQueue in Repr && running in Repr
      && pendingMessage.Length == inputQueue.Length == running.Length == NODE_COUNT == |slots|
      && inputQueue as object != running as object
      && (forall n :: 0 <= n < NODE_COUNT ==> Mirrors(n))
      && (forall m, n :: 0 <= m < n < NODE_COUNT && pendingMessage[m] != null && pendingMessage[n] != null ==>
            pendingMessage[m] != pendingMessage[n] && pendingMessage[m].Data != pendingMessage[n].Data)
    }

    /** Slot n is what the arrays hold at n. */
    ghost predicate Mirrors(n: nat)
      requires n < pendingMessage.Length && n < inputQueue.Length && n < running.Length && n < |slots|
      requires pendingMessage in Repr && inputQueue in Repr && running in Repr && this in Repr
      reads this, Repr
    {
      var m := pendingMessage[n];
      && slots[n].running == running[n] && slots[n].queue == inputQueue[n]
      && (m == null <==> slots[n].pending.None?)
      && (m != null ==> && m in Repr && m.Data in Repr && m.Data as object != pendingMessage
                        && m.Data as object != inputQueue && m.Data as object != running
                        && m.Valid() && slots[n].pending == Some(m.Value()))
    }

    constructor ()
      ensures Valid() && fresh(Repr)
      ensures slots == seq(NODE_COUNT, _ => Slot(false, None, []))
    {
      pendingMessage := new Message?[NODE_COUNT](_ => null);
      inputQueue := new seq<Packet>[NODE_COUNT](_ => []);
      running := new bool[NODE_COUNT](_ => false);
      slots := seq(NODE_COUNT, _ => Slot(false, None, []));
      new;
      Repr := {this, pendingMessage, inputQueue, running};
    }

    /** One turn of the loop in Serve. */
    method ReceiveFrame(frame: Frame)
      requires Valid()
      modifies Repr
      ensures Valid() && fresh(Repr - old(Repr))
      ensures slots == Step(old(slots), Arrival(frame))
      ensures !old(slots)[NodeOf(frame.canId)].running ==> slots == old(slots)
    {
      var n := NodeOf(frame.canId);
      assert Mirrors(n) && slots[n := slots[n]] == slots;
      if !IsExtended(frame.canId) || frame.dlc > 8 || !running[n] {
        return;
      }
      var ok := Collect(n, IsFirst(frame.canId), frame.canId, frame.data[..frame.dlc]);
      if ok && IsLast(frame.canId) {
        Deliver(n);
      }
    }

    /** Lines 180-192: a first frame starts a message, any other extends one; a frame out of place is dropped. */
    method Collect(n: nat, first: bool, canId: bv32, data: seq<byte>) returns (ok: bool)
      requires Valid() && n < NODE_COUNT && |data| <= 8
      modifies Repr
      ensures Valid() && fresh(Repr - old(Repr))
      ensures ok <==> first == old(slots)[n].pending.None?
      ensures !ok ==> slots == old(slots)
      ensures ok ==> slots == old(slots)[n := old(slots)[n].(pending :=
                       Some(if first then Packet(canId, data) else Appended(old(slots)[n].pending.value, data)))]
    {
      assert Mirrors(n);
      var msg := pendingMessage[n];
      if first {
        if msg != null {
          return false;
        }
        msg := new Message(canId, data);
        pendingMessage[n] := msg;
        Repr := Repr + {msg, msg.Data};
      } else {
        if msg == null {
          return false;
        }
        var _ := msg.AppendData(data);
      }
      slots := slots[n := slots[n].(pending := Some(msg.Value()))];
      KeepsMirroring(n);
      return true;
    }

    /** Lines 195-198: the pending message goes to the queue and its slot is cleared. */
    method Deliver(n: nat)
      requires Valid() && n < NODE_COUNT && slots[n].pending.Some?
      modifies Repr
      ensures Valid() && Repr == old(Repr)
      ensures var s := old(slots)[n];
              slots == old(slots)[n := s.(pending := None, queue := s.queue + [s.pending.value])]
    {
      assert Mirrors(n);
      var msg := pendingMessage[n];
      inputQueue[n] := inputQueue[n] + [Packet(msg.CanId, msg.Data[..msg.Dlc])];
      pendingMessage[n] := null;
      slots := slots[n := slots[n].(pending := None, queue := slots[n].queue + [slots[n].pending.value])];
      KeepsMirroring(n);
    }

    /** A change at n that leaves the other nodes' objects alone leaves them mirrored. */
    twostate lemma KeepsMirroring(n: nat)
      requires old(Valid()) && n < NODE_COUNT && |slots| == NODE_COUNT
      requires old(Repr) <= Repr && Mirrors(n)
      requires forall k :: 0 <= k < NODE_COUNT && k != n ==>
                 && slots[k] == old(slots[k]) && pendingMessage[k] == old(pendingMessage[k])
                 && inputQueue[k] == old(inputQueue[k]) && running[k] == old(running[k])
                 && (pendingMessage[k] != null ==> unchanged(pendingMessage[k]) && unchanged(pendingMessage[k].Data))
      ensures forall k :: 0 <= k < NODE_COUNT ==> Mirrors(k)
    {
      forall k | 0 <= k < NODE_COUNT ensures Mirrors(k) {
        assert old(Mirrors(k));
      }
    }

    /** Lines 229-231: the master gives node n a new queue; the pending message stays. */
    method Respawn(n: nat)
      requires Valid() && n < NODE_COUNT
      modifies Repr
      ensures Valid() && Repr == old(Repr)
      ensures slots == Step(old(slots), Input.Respawn(n))
      ensures slots == old(slots)[n := Slot(true, old(slots)[n].pending, [])]
    {
      assert Mirrors(n);
      running[n] := true;
      inputQueue[n] := [];
      slots := slots[n := slots[n].(running := true, queue := [])];
      KeepsMirroring(n);
    }

    /** Serve on the frames that come from the bus. */
    method Serve(frames: seq<Frame>)
      requires Valid()
      modifies Repr
      ensures Valid() && fresh(Repr - old(Repr))
      ensures slots == Run(old(slots), Arrivals(frames))
    {
      for k := 0 to |frames|
        invariant Valid() && fresh(Repr - old(Repr))
        invariant Run(slots, Arrivals(frames[k..])) == Run(old(slots), Arrivals(frames))
      {
        assert Arrivals(frames[k..])[1..] == Arrivals(frames[k + 1..]);
        ReceiveFrame(frames[k]);
      }
    }
  }
}
