/**
  Cutting messages into frames (SendMessage) and putting them together again, one slot per node (Serve), in
  controllers/network_controller.go. The frame channel is a sequence; the input queues are unbounded sequences.
 */
module Reassembly {
  import opened Nocan

  // ---------- Sending ----------

  function Flags(first: bool, last: bool): bv32 {
    if first then (if last then MASK_EXTENDED | MASK_FIRST | MASK_LAST else MASK_EXTENDED | MASK_FIRST)
    else if last then MASK_EXTENDED | MASK_LAST
    else MASK_EXTENDED
  }

  function FrameId(canId: bv32, first: bool, last: bool): bv32 { canId | Flags(first, last) }

  function ChunkSize(left: nat): (n: nat)
    ensures n <= left && n <= 8
  {
    if left > 8 then 8 else left
  }

  /** The frame for the bytes from pos on. The one frame buffer is reused, so the bytes past dlc are those of the
      frame before. */
  function FrameAt(p: Packet, pos: nat, buffer: seq<byte>): Frame
    requires pos <= |p.bytes| && |buffer| == 8
  {
    var left := |p.bytes| - pos;
    var n := ChunkSize(left);
    Frame(FrameId(p.canId, pos == 0, left <= 8), n, p.bytes[pos..pos + n] + buffer[n..])
  }

  /** The frames still to be sent once pos bytes are gone. */
  function FramesFrom(p: Packet, pos: nat, buffer: seq<byte>): (fs: seq<Frame>)
    requires pos <= |p.bytes| && |buffer| == 8
    ensures |fs| > 0 && fs[0] == FrameAt(p, pos, buffer)
    decreases |p.bytes| - pos
  {
    var f := FrameAt(p, pos, buffer);
    if |p.bytes| - pos <= 8 then [f] else [f] + FramesFrom(p, pos + 8, f.data)
  }

  const BLANK: seq<byte> := [0, 0, 0, 0, 0, 0, 0, 0]

  function Fragment(p: Packet): seq<Frame> { FramesFrom(p, 0, BLANK) }

  lemma {:induction false} FrameCount(p: Packet, pos: nat, buffer: seq<byte>)
    requires pos <= |p.bytes| && |buffer| == 8
    ensures |FramesFrom(p, pos, buffer)| == if pos == |p.bytes| then 1 else (|p.bytes| - pos + 7) / 8
    decreases |p.bytes| - pos
  {
    if |p.bytes| - pos <= 8 {
    } else {
      FrameCount(p, pos + 8, FrameAt(p, pos, buffer).data);
    }
  }

  lemma {:induction false} FrameAtIs(p: Packet, pos: nat, buffer: seq<byte>, j: nat)
    requires pos <= |p.bytes| && |buffer| == 8 && j < |FramesFrom(p, pos, buffer)|
    ensures var fs := FramesFrom(p, pos, buffer);
            && pos + 8 * j <= |p.bytes| && (j > 0 ==> pos + 8 * j < |p.bytes|)
            && fs[j] == FrameAt(p, pos + 8 * j, if j == 0 then buffer else fs[j - 1].data)
            && (j == |fs| - 1 <==> |p.bytes| - (pos + 8 * j) <= 8)
    decreases j
  {
    hide FrameAt;
    if |p.bytes| - pos <= 8 || j == 0 {
    } else {
      FrameAtIs(p, pos + 8, FrameAt(p, pos, buffer).data, j - 1);
    }
  }

  /** The frames of a message: frame j carries bytes 8 * j and on, FIRST exactly on the first and LAST on the last; what
      follows its bytes is left over from the frame before. */
  lemma FrameIs(p: Packet, j: nat)
    requires j < |Fragment(p)|
    ensures |Fragment(p)| == if p.bytes == [] then 1 else (|p.bytes| + 7) / 8
    ensures var fs, at := Fragment(p), 8 * j;
            && at <= |p.bytes| && fs[j].dlc == (if |p.bytes| - at > 8 then 8 else |p.bytes| - at)
            && fs[j].data[..fs[j].dlc] == p.bytes[at..at + fs[j].dlc]
            && fs[j].data[fs[j].dlc..] == (if j == 0 then BLANK else fs[j - 1].data)[fs[j].dlc..]
            && fs[j].canId == FrameId(p.canId, j == 0, j == |fs| - 1)
  {
    FrameCount(p, 0, BLANK);
    FrameAtIs(p, 0, BLANK, j);
  }

  lemma FrameIdIs(canId: bv32, first: bool, last: bool)
    ensures FrameId(canId, first, last)
         == canId | MASK_EXTENDED | (if first then MASK_FIRST else 0) | (if last then MASK_LAST else 0)
  {
  }

  /** SendMessage: the driver takes `accepted` frames and fails on the next one. */
  method SendMessage(msg: Message, accepted: nat) returns (ok: bool, sent: seq<Frame>)
    requires msg.Valid()
    ensures ok <==> |Fragment(msg.Value())| <= accepted
    ensures ok ==> sent == Fragment(msg.Value())
    ensures !ok ==> |sent| == accepted && sent < Fragment(msg.Value())
  {
    var buffer: seq<byte> := BLANK;
    var pos := 0;
    sent := [];
    ghost var p := msg.Value();
    while true
      invariant pos <= msg.Dlc && |buffer| == 8 && |sent| <= accepted
      invariant Fragment(p) == sent + FramesFrom(p, pos, buffer)
      decreases msg.Dlc - pos
    {
      var f := NextFrame(msg, pos, buffer);
      NextSent(p, pos, buffer, sent);
      if |sent| == accepted {
        return false, sent;
      }
      sent := sent + [f];
      buffer := f.data;
      pos := pos + f.dlc;
      if pos >= msg.Dlc {
        return true, sent;
      }
    }
  }

  lemma NextSent(p: Packet, pos: nat, buffer: seq<byte>, sent: seq<Frame>)
    requires pos <= |p.bytes| && |buffer| == 8
    ensures var f, all := FrameAt(p, pos, buffer), sent + FramesFrom(p, pos, buffer);
            && sent < all && sent + [f] <= all
            && (pos + f.dlc >= |p.bytes| ==> sent + [f] == all)
            && (pos + f.dlc < |p.bytes| ==> f.dlc == 8 && all == (sent + [f]) + FramesFrom(p, pos + 8, f.data))
  {
  }

  /** Lines 78-88 */
  method NextFrame(msg: Message, pos: nat, buffer: seq<byte>) returns (frame: Frame)
    requires msg.Valid() && pos <= msg.Dlc && |buffer| == 8
    ensures frame == FrameAt(msg.Value(), pos, buffer)
  {
    var left := msg.Dlc - pos;
    var dlc := if left > 8 then 8 else left;
    var chunk := msg.Data[pos..pos + dlc];
    assert chunk == msg.Value().bytes[pos..pos + dlc];
    frame := Frame(FrameId(msg.CanId, pos == 0, left <= 8), dlc, chunk + buffer[dlc..]);
  }

  // ---------- Receiving: one slot ----------

  /** What nodeContexts[n] holds for Serve. */
  datatype Slot = Slot(running: bool, pending: Option<Packet>, queue: seq<Packet>)

  /** A frame arrives from the bus, or the master gives node n a new queue (lines 229-231), which leaves a
      half-received message where it is. */
  datatype Input = Arrival(frame: Frame) | Respawn(node: nat)

  function Target(i: Input): nat {
    match i case Arrival(f) => NodeOf(f.canId) case Respawn(n) => n
  }

  function Payload(f: Frame): (b: seq<byte>)
    requires f.dlc <= 8
  {
    f.data[..f.dlc]
  }

  function SlotStep(s: Slot, i: Input): Slot {
    match i
    case Respawn(_) => s.(running := true, queue := [])
    case Arrival(f) =>
      if !IsExtended(f.canId) || f.dlc > 8 || !s.running || IsFirst(f.canId) == s.pending.Some? then s
      else
        var m := if IsFirst(f.canId) then Packet(f.canId, Payload(f)) else Appended(s.pending.value, Payload(f));
        if IsLast(f.canId) then s.(pending := None, queue := s.queue + [m]) else s.(pending := Some(m))
  }

  function SlotRun(s: Slot, inputs: seq<Input>): Slot
    decreases inputs
  {
    if inputs == [] then s else SlotRun(SlotStep(s, inputs[0]), inputs[1..])
  }

  // ---------- Receiving: all slots ----------

  type System = s: seq<Slot> | |s| == NODE_COUNT witness seq(NODE_COUNT, _ => Slot(false, None, []))

  function Step(sys: System, i: Input): System
    requires Target(i) < NODE_COUNT
  {
    sys[Target(i) := SlotStep(sys[Target(i)], i)]
  }

  predicate InRange(inputs: seq<Input>) { forall k :: 0 <= k < |inputs| ==> Target(inputs[k]) < NODE_COUNT }

  function Run(sys: System, inputs: seq<Input>): System
    requires InRange(inputs)
    decreases inputs
  {
    if inputs == [] then sys else Run(Step(sys, inputs[0]), inputs[1..])
  }

  /** The inputs that concern node n, in order. */
  function Project(inputs: seq<Input>, n: nat): seq<Input> {
    if inputs == [] then []
    else (if Target(inputs[0]) == n then [inputs[0]] else []) + Project(inputs[1..], n)
  }

  function Arrivals(fs: seq<Frame>): (r: seq<Input>)
    ensures |r| == |fs| && forall k :: 0 <= k < |fs| ==> r[k] == Arrival(fs[k])
  {
    seq(|fs|, k requires 0 <= k < |fs| => Arrival(fs[k]))
  }

  lemma ArrivalsSplit(a: seq<Frame>, b: seq<Frame>)
    ensures Arrivals(a + b) == Arrivals(a) + Arrivals(b)
    ensures a != [] ==> Arrivals(a + b)[1..] == Arrivals(a[1..] + b)
  {
  }

  /** Non-interference: node n ends up as if no other node existed, whatever was lost, repeated or misordered. */
  lemma {:induction false} RunProjects(sys: System, inputs: seq<Input>, n: nat)
    requires InRange(inputs) && n < NODE_COUNT
    ensures Run(sys, inputs)[n] == SlotRun(sys[n], Project(inputs, n))
    decreases inputs
  {
    if inputs == [] {
    } else {
      RunProjects(Step(sys, inputs[0]), inputs[1..], n);
      if Target(inputs[0]) == n {
        assert Project(inputs, n)[1..] == Project(inputs[1..], n);
      } else {
        assert Project(inputs, n) == Project(inputs[1..], n);
      }
    }
  }

  lemma {:induction false} SlotRunAppends(s: Slot, a: seq<Input>, b: seq<Input>)
    ensures SlotRun(s, a + b) == SlotRun(SlotRun(s, a), b)
    decreases a
  {
    if a == [] {
      assert a + b == b;
    } else {
      assert (a + b)[0] == a[0] && (a + b)[1..] == a[1..] + b;
      SlotRunAppends(SlotStep(s, a[0]), a[1..], b);
    }
  }

  // ---------- Any frame stream: what is not heard ----------

  /** Frames of a node without a handler are dropped: over any inputs the slot of node n changes, in its queue or in its
      pending message, only if n runs at first or is respawned among them. */
  lemma {:induction false} StoppedNodeIsNotHeard(sys: System, inputs: seq<Input>, n: nat)
    requires InRange(inputs) && n < NODE_COUNT && !sys[n].running && Respawn(n) !in inputs
    ensures Run(sys, inputs)[n] == sys[n]
    decreases inputs
  {
    if inputs == [] {
    } else {
      assert inputs[0] in inputs && forall i :: i in inputs[1..] ==> i in inputs;
      StoppedNodeIsNotHeard(Step(sys, inputs[0]), inputs[1..], n);
    }
  }

  /** A frame that Serve looks at: extended, and of at most eight bytes. */
  predicate Legible(i: Input) { i.Arrival? ==> IsExtended(i.frame.canId) && i.frame.dlc <= 8 }

  function Heard(inputs: seq<Input>): (r: seq<Input>)
    ensures forall k :: 0 <= k < |r| ==> r[k] in inputs
  {
    if inputs == [] then [] else (if Legible(inputs[0]) then [inputs[0]] else []) + Heard(inputs[1..])
  }

  /** All other frames might as well not have come. */
  lemma {:induction false} IllegibleFramesChangeNothing(sys: System, inputs: seq<Input>)
    requires InRange(inputs)
    ensures InRange(Heard(inputs)) && Run(sys, Heard(inputs)) == Run(sys, inputs)
    decreases inputs
  {
    if inputs == [] {
    } else {
      var t := Step(sys, inputs[0]);
      IllegibleFramesChangeNothing(t, inputs[1..]);
      if Legible(inputs[0]) {
        assert Heard(inputs)[1..] == Heard(inputs[1..]);
      } else {
        assert t == sys && Heard(inputs) == Heard(inputs[1..]);
      }
    }
  }

  // ---------- Any frame stream: what a slot can hold ----------

  predicate SoundPacket(p: Packet, n: nat) {
    |p.bytes| <= MAX_PAYLOAD && NodeOf(p.canId) == n && IsFirst(p.canId) && IsExtended(p.canId)
  }

  predicate SoundSlot(s: Slot, n: nat) {
    && (s.pending.Some? ==> SoundPacket(s.pending.value, n))
    && forall k :: 0 <= k < |s.queue| ==> SoundPacket(s.queue[k], n)
  }

  /** Whatever frames arrive, every pending or delivered message of slot n is at most 64 bytes, comes from node n
      and starts with a FIRST frame. */
  lemma {:induction false} SlotsStaySound(sys: System, inputs: seq<Input>)
    requires InRange(inputs) && forall n :: 0 <= n < NODE_COUNT ==> SoundSlot(sys[n], n)
    ensures forall n :: 0 <= n < NODE_COUNT ==> SoundSlot(Run(sys, inputs)[n], n)
    decreases inputs
  {
    if inputs == [] {
    } else {
      SlotsStaySound(Step(sys, inputs[0]), inputs[1..]);
    }
  }

  /** A slot with a message pending stays as it is through any frames marked FIRST. */
  lemma {:induction false} PendingSlotDropsFirstFrames(s: Slot, fs: seq<Frame>)
    requires s.pending.Some? && forall k :: 0 <= k < |fs| ==> IsFirst(fs[k].canId)
    ensures SlotRun(s, Arrivals(fs)) == s
  {
    if fs == [] {
    } else {
      assert Arrivals(fs)[1..] == Arrivals(fs[1..]);
      PendingSlotDropsFirstFrames(s, fs[1..]);
    }
  }

  lemma {:induction false} QueueOnlyGrows(s: Slot, fs: seq<Frame>)
    ensures s.queue <= SlotRun(s, Arrivals(fs)).queue
    decreases fs
  {
    if fs == [] {
    } else {
      assert Arrivals(fs)[1..] == Arrivals(fs[1..]);
      QueueOnlyGrows(SlotStep(s, Arrival(fs[0])), fs[1..]);
    }
  }

  /** A well-formed frame that ends a message begun before. */
  predicate Finishes(f: Frame) { IsExtended(f.canId) && f.dlc <= 8 && IsLast(f.canId) && !IsFirst(f.canId) }

  /** A slot with a message pending delivers again, whatever frames come, if and only if one of them is marked LAST
      but not FIRST. A node whose messages all fit in one frame sends none. */
  lemma {:induction false} PendingSlotRecoversExactlyWhen(s: Slot, fs: seq<Frame>)
    requires s.running && s.pending.Some?
    ensures s.queue < SlotRun(s, Arrivals(fs)).queue <==> exists k :: 0 <= k < |fs| && Finishes(fs[k])
    decreases fs
  {
    if fs == [] {
    } else {
      var t := SlotStep(s, Arrival(fs[0]));
      assert Arrivals(fs)[1..] == Arrivals(fs[1..]);
      if Finishes(fs[0]) {
        QueueOnlyGrows(t, fs[1..]);
      } else {
        PendingSlotRecoversExactlyWhen(t, fs[1..]);
        assert forall k :: 0 < k < |fs| ==> fs[k] == fs[1..][k - 1];
      }
    }
  }

  // ---------- Sending then receiving ----------

  /** What the receiver gets: the sender's message, with the flags of its first frame left in the identifier. */
  function Received(p: Packet): Packet { Packet(FrameId(p.canId, true, |p.bytes| <= 8), p.bytes) }

  predicate Unflagged(canId: bv32) { !IsFirst(canId) && !IsLast(canId) }

  /** One frame is enough, or the flags of the frames between can be told. */
  predicate Sendable(p: Packet) { |p.bytes| <= MAX_PAYLOAD && (|p.bytes| <= 8 || Unflagged(p.canId)) }

  lemma BothFlags(x: bv32)
    ensures IsFirst(FrameId(x, true, true)) && IsLast(FrameId(x, true, true))
  {
  }

  lemma FirstFlag(x: bv32)
    ensures IsFirst(FrameId(x, true, false)) && IsLast(FrameId(x, true, false)) == IsLast(x)
  {
  }

  lemma LastFlag(x: bv32)
    ensures IsFirst(FrameId(x, false, true)) == IsFirst(x) && IsLast(FrameId(x, false, true))
  {
  }

  lemma NoFlag(x: bv32)
    ensures IsFirst(FrameId(x, false, false)) == IsFirst(x) && IsLast(FrameId(x, false, false)) == IsLast(x)
  {
  }

  lemma FrameIdFlags(canId: bv32, first: bool, last: bool)
    ensures IsFirst(FrameId(canId, first, last)) == (first || IsFirst(canId))
    ensures IsLast(FrameId(canId, first, last)) == (last || IsLast(canId))
  {
    if first {
      if last {
        BothFlags(canId);
      } else {
        FirstFlag(canId);
      }
    } else {
      if last {
        LastFlag(canId);
      } else {
        NoFlag(canId);
      }
    }
  }

  lemma FrameIdIsExtended(canId: bv32, first: bool, last: bool)
    ensures IsExtended(FrameId(canId, first, last))
  {
  }

  lemma FrameIdKeepsNode(canId: bv32, first: bool, last: bool)
    ensures NodeBits(FrameId(canId, first, last)) == NodeBits(canId)
  {
  }

  lemma FrameIdKeepsSystem(canId: bv32, first: bool, last: bool)
    ensures IsSystem(FrameId(canId, first, last)) == IsSystem(canId)
  {
  }

  lemma FrameIdKeepsLowBits(canId: bv32, first: bool, last: bool)
    ensures Low16(FrameId(canId, first, last)) == Low16(canId)
  {
  }

  lemma FrameIdKeepsFields(canId: bv32, first: bool, last: bool)
    ensures var id := FrameId(canId, first, last);
            && NodeOf(id) == NodeOf(canId) && IsSystem(id) == IsSystem(canId) && Low16(id) == Low16(canId)
            && IsExtended(id)
            && IsFirst(id) == (first || IsFirst(canId)) && IsLast(id) == (last || IsLast(canId))
  {
    FrameIdKeepsNode(canId, first, last);
    FrameIdKeepsSystem(canId, first, last);
    FrameIdKeepsLowBits(canId, first, last);
    FrameIdFlags(canId, first, last);
    FrameIdIsExtended(canId, first, last);
  }

  /** The rest of a message, cut at pos, completes the half that is pending. */
  lemma {:induction false} RestCompletes(p: Packet, pos: nat, buffer: seq<byte>, s: Slot)
    requires 0 < pos < |p.bytes| <= MAX_PAYLOAD && |buffer| == 8 && Unflagged(p.canId)
    requires s.running && s.pending == Some(Packet(FrameId(p.canId, true, false), p.bytes[..pos]))
    ensures SlotRun(s, Arrivals(FramesFrom(p, pos, buffer)))
         == s.(pending := None, queue := s.queue + [Packet(FrameId(p.canId, true, false), p.bytes)])
    decreases |p.bytes| - pos
  {
    var fs := FramesFrom(p, pos, buffer);
    var f := fs[0];
    var n := ChunkSize(|p.bytes| - pos);
    FrameIdKeepsFields(p.canId, false, |p.bytes| - pos <= 8);
    assert Payload(f) == p.bytes[pos..pos + n];
    assert p.bytes[..pos] + Payload(f) == p.bytes[..pos + n];
    var t := SlotStep(s, Arrival(f));
    assert Arrivals(fs)[1..] == Arrivals(fs[1..]);
    if pos + n < |p.bytes| {
      assert fs[1..] == FramesFrom(p, pos + n, f.data);
      RestCompletes(p, pos + n, f.data, t);
    } else {
      assert p.bytes[..pos + n] == p.bytes;
      assert SlotRun(t, []) == t;
    }
  }

  lemma FirstFrame(p: Packet, s: Slot)
    requires s.running && s.pending.None? && |p.bytes| <= MAX_PAYLOAD
    ensures var fs := Fragment(p);
            && Arrivals(fs)[1..] == Arrivals(fs[1..])
            && SlotRun(s, Arrivals(fs)) == SlotRun(SlotStep(s, Arrival(fs[0])), Arrivals(fs[1..]))
    ensures |p.bytes| <= 8 ==>
              |Fragment(p)| == 1 && SlotStep(s, Arrival(Fragment(p)[0])) == s.(queue := s.queue + [Received(p)])
    ensures |p.bytes| > 8 ==>
              var m := Packet(FrameId(p.canId, true, false), p.bytes[..8]);
              && Fragment(p)[1..] == FramesFrom(p, 8, Fragment(p)[0].data)
              && SlotStep(s, Arrival(Fragment(p)[0]))
              == if IsLast(p.canId) then s.(queue := s.queue + [m]) else s.(pending := Some(m))
  {
    var fs := Fragment(p);
    FrameIdKeepsFields(p.canId, true, |p.bytes| <= 8);
    assert Arrivals(fs)[1..] == Arrivals(fs[1..]);
    var n := if |p.bytes| > 8 then 8 else |p.bytes|;
    assert Payload(fs[0]) == p.bytes[..n];
    if |p.bytes| <= 8 {
      assert p.bytes[..n] == p.bytes;
    }
  }

  lemma {:induction false} LaterFramesKeepFlags(p: Packet, pos: nat, buffer: seq<byte>)
    requires pos <= |p.bytes| && |buffer| == 8 && IsFirst(p.canId)
    ensures forall k :: 0 <= k < |FramesFrom(p, pos, buffer)| ==> IsFirst(FramesFrom(p, pos, buffer)[k].canId)
    decreases |p.bytes| - pos
  {
    FrameIdKeepsFields(p.canId, pos == 0, |p.bytes| - pos <= 8);
    var fs := FramesFrom(p, pos, buffer);
    if |p.bytes| - pos <= 8 {
    } else {
      LaterFramesKeepFlags(p, pos + 8, fs[0].data);
      forall k | 0 <= k < |fs| ensures IsFirst(fs[k].canId) {
        if k > 0 {
          assert fs[k] == FramesFrom(p, pos + 8, fs[0].data)[k - 1];
        }
      }
    }
  }

  predicate Arrives(p: Packet, s: Slot) {
    SlotRun(s, Arrivals(Fragment(p))) == s.(queue := s.queue + [Received(p)])
  }

  /** On an idle slot a message arrives whole if and only if it fits in one frame or its identifier came without
      FIRST and LAST. */
  lemma ArrivesExactlyWhen(p: Packet, s: Slot)
    requires |p.bytes| <= MAX_PAYLOAD && s.running && s.pending.None?
    ensures Arrives(p, s) <==> Sendable(p)
  {
    var fs := Fragment(p);
    FirstFrame(p, s);
    var t := SlotStep(s, Arrival(fs[0]));
    if |p.bytes| <= 8 {
      assert Arrivals(fs[1..]) == [];
    } else if IsLast(p.canId) {
      QueueOnlyGrows(t, fs[1..]);
      assert |t.queue[|s.queue|].bytes| == 8;
      assert SlotRun(s, Arrivals(fs)).queue[|s.queue|] == t.queue[|s.queue|];
    } else if IsFirst(p.canId) {
      LaterFramesKeepFlags(p, 8, fs[0].data);
      PendingSlotDropsFirstFrames(t, fs[1..]);
    } else {
      RestCompletes(p, 8, fs[0].data, t);
    }
  }

  lemma {:induction false} QueueIsNotLookedAt(s: Slot, inputs: seq<Frame>, q: seq<Packet>)
    ensures var r := SlotRun(s, Arrivals(inputs));
            SlotRun(s.(queue := q + s.queue), Arrivals(inputs)) == r.(queue := q + r.queue)
    decreases inputs
  {
    if inputs == [] {
    } else {
      assert Arrivals(inputs)[1..] == Arrivals(inputs[1..]);
      var t := SlotStep(s, Arrival(inputs[0]));
      QueueIsNotLookedAt(t, inputs[1..], q);
      assert SlotStep(s.(queue := q + s.queue), Arrival(inputs[0])) == t.(queue := q + t.queue);
    }
  }

  lemma {:induction false} NothingEnds(s: Slot, fs: seq<Frame>)
    requires forall k :: 0 <= k < |fs| ==> !IsLast(fs[k].canId)
    ensures var t := SlotRun(s, Arrivals(fs)); t.queue == s.queue && t.running == s.running
    decreases fs
  {
    if fs == [] {
    } else {
      assert Arrivals(fs)[1..] == Arrivals(fs[1..]);
      NothingEnds(SlotStep(s, Arrival(fs[0])), fs[1..]);
    }
  }

  lemma EarlierFramesAreNotLast(p: Packet, k: nat)
    requires Sendable(p) && k < |Fragment(p)|
    ensures forall j :: 0 <= j < k ==> !IsLast(Fragment(p)[..k][j].canId)
  {
    forall j | 0 <= j < k ensures !IsLast(Fragment(p)[j].canId) {
      FrameIs(p, j);
      FrameIdKeepsFields(p.canId, j == 0, j == |Fragment(p)| - 1);
    }
  }

  /** A node that is given a new queue in the middle of a message does not lose it: the message comes whole, to the new
      queue. */
  lemma RespawnKeepsMessage(p: Packet, s: Slot, k: nat, n: nat)
    requires Sendable(p) && s.running && s.pending.None? && k < |Fragment(p)|
    ensures var fs := Fragment(p);
            SlotRun(s, Arrivals(fs[..k]) + [Respawn(n)] + Arrivals(fs[k..])) == Slot(true, None, [Received(p)])
  {
    var fs := Fragment(p);
    var mid := SlotRun(s, Arrivals(fs[..k]));
    var renewed := SlotStep(mid, Respawn(n));
    SlotRunAppends(s, Arrivals(fs[..k]) + [Respawn(n)], Arrivals(fs[k..]));
    SlotRunAppends(s, Arrivals(fs[..k]), [Respawn(n)]);
    assert SlotRun(mid, [Respawn(n)]) == SlotRun(renewed, []);
    assert mid.queue == s.queue && mid.running by {
      EarlierFramesAreNotLast(p, k);
      NothingEnds(s, fs[..k]);
    }
    RestOfMessage(p, s, k, renewed);
  }

  /** The rest of a message ends it in the same way whatever the queue holds. */
  lemma RestOfMessage(p: Packet, s: Slot, k: nat, renewed: Slot)
    requires Sendable(p) && s.running && s.pending.None? && k < |Fragment(p)|
    requires var mid := SlotRun(s, Arrivals(Fragment(p)[..k]));
             mid.queue == s.queue && mid.running && renewed == mid.(queue := [])
    ensures SlotRun(renewed, Arrivals(Fragment(p)[k..])) == Slot(true, None, [Received(p)])
  {
    var fs := Fragment(p);
    assert fs[..k] + fs[k..] == fs;
    ArrivalsSplit(fs[..k], fs[k..]);
    SlotRunAppends(s, Arrivals(fs[..k]), Arrivals(fs[k..]));
    ArrivesExactlyWhen(p, s);
    QueueIsNotLookedAt(renewed, fs[k..], s.queue);
    assert renewed.(queue := s.queue + renewed.queue) == SlotRun(s, Arrivals(fs[..k]));
    hide SlotRun;
    hide Fragment;
    var q := SlotRun(renewed, Arrivals(fs[k..])).queue;
    assert s.queue + q == s.queue + [Received(p)];
    assert q == (s.queue + q)[|s.queue|..];
  }

  function FragmentAll(ps: seq<Packet>): seq<Frame> {
    if ps == [] then [] else Fragment(ps[0]) + FragmentAll(ps[1..])
  }

  function ReceivedAll(ps: seq<Packet>): (r: seq<Packet>)
    ensures |r| == |ps| && forall k :: 0 <= k < |ps| ==> r[k] == Received(ps[k])
  {
    seq(|ps|, k requires 0 <= k < |ps| => Received(ps[k]))
  }

  lemma ReceivedInTurn(queue: seq<Packet>, ps: seq<Packet>)
    requires ps != []
    ensures (queue + [Received(ps[0])]) + ReceivedAll(ps[1..]) == queue + ReceivedAll(ps)
  {
  }

  lemma {:induction false} StreamArrives(ps: seq<Packet>, s: Slot)
    requires s.running && s.pending.None? && forall k :: 0 <= k < |ps| ==> Sendable(ps[k])
    ensures SlotRun(s, Arrivals(FragmentAll(ps))) == s.(queue := s.queue + ReceivedAll(ps))
  {
    if ps == [] {
      assert s.queue + ReceivedAll(ps) == s.queue;
    } else {
      ArrivesExactlyWhen(ps[0], s);
      StreamArrives(ps[1..], s.(queue := s.queue + [Received(ps[0])]));
      ArrivalsSplit(Fragment(ps[0]), FragmentAll(ps[1..]));
      SlotRunAppends(s, Arrivals(Fragment(ps[0])), Arrivals(FragmentAll(ps[1..])));
      ReceivedInTurn(s.queue, ps);
    }
  }

  // ---------- Interleaving ----------

  type Streams = s: seq<seq<Frame>> | |s| == NODE_COUNT witness seq(NODE_COUNT, _ => [])

  /** out takes, again and again, the next frame of some node's stream until all streams are used up. */
  ghost predicate Interleaves(streams: Streams, out: seq<Frame>)
    decreases |out|
  {
    if out == [] then forall n :: 0 <= n < NODE_COUNT ==> streams[n] == []
    else exists n :: 0 <= n < NODE_COUNT && streams[n] != [] && streams[n][0] == out[0]
                  && Interleaves(streams[n := streams[n][1..]], out[1..])
  }

  predicate OwnFrames(streams: Streams) {
    forall n, k :: 0 <= n < NODE_COUNT && 0 <= k < |streams[n]| ==> NodeOf(streams[n][k].canId) == n
  }

  lemma TailsOwnFrames(streams: Streams, m: nat)
    requires OwnFrames(streams) && m < NODE_COUNT && streams[m] != []
    ensures OwnFrames(streams[m := streams[m][1..]]) && Target(Arrival(streams[m][0])) == m
  {
    var rest: Streams := streams[m := streams[m][1..]];
    forall n, k | 0 <= n < NODE_COUNT && 0 <= k < |rest[n]| ensures NodeOf(rest[n][k].canId) == n {
      if n == m {
        assert rest[n][k] == streams[n][k + 1];
      } else {
        assert rest[n][k] == streams[n][k];
      }
    }
    assert streams[m][0] in streams[m];
  }

  lemma ProjectFirst(out: seq<Frame>, n: nat)
    requires out != []
    ensures Project(Arrivals(out), n)
         == (if NodeOf(out[0].canId) == n then [Arrival(out[0])] else []) + Project(Arrivals(out[1..]), n)
  {
    assert Arrivals(out)[1..] == Arrivals(out[1..]);
  }

  /** Taking the first frame of stream m off both sides changes the projection on n only when m is n. */
  lemma TakeFirst(streams: Streams, out: seq<Frame>, m: nat, n: nat)
    requires OwnFrames(streams) && m < NODE_COUNT && n < NODE_COUNT
    requires streams[m] != [] && out != [] && streams[m][0] == out[0]
    requires Project(Arrivals(out[1..]), n) == Arrivals(streams[m := streams[m][1..]][n])
    ensures Project(Arrivals(out), n) == Arrivals(streams[n])
  {
    ProjectFirst(out, n);
    TailsOwnFrames(streams, m);
    if m == n {
      assert Arrivals(streams[n]) == [Arrival(out[0])] + Arrivals(streams[n][1..]);
    }
  }

  lemma {:induction false} InterleavingProjects(streams: Streams, out: seq<Frame>, n: nat)
    requires Interleaves(streams, out) && OwnFrames(streams) && n < NODE_COUNT
    ensures Project(Arrivals(out), n) == Arrivals(streams[n])
    decreases |out|
  {
    if out == [] {
    } else {
      var m :| 0 <= m < NODE_COUNT && streams[m] != [] && streams[m][0] == out[0]
            && Interleaves(streams[m := streams[m][1..]], out[1..]);
      TailsOwnFrames(streams, m);
      InterleavingProjects(streams[m := streams[m][1..]], out[1..], n);
      TakeFirst(streams, out, m, n);
    }
  }

  lemma {:induction false} FragmentsNameTheirNode(p: Packet, pos: nat, buffer: seq<byte>)
    requires pos <= |p.bytes| && |buffer| == 8
    ensures forall k :: 0 <= k < |FramesFrom(p, pos, buffer)| ==>
              NodeOf(FramesFrom(p, pos, buffer)[k].canId) == NodeOf(p.canId)
    decreases |p.bytes| - pos
  {
    FrameIdKeepsFields(p.canId, pos == 0, |p.bytes| - pos <= 8);
    var fs := FramesFrom(p, pos, buffer);
    if |p.bytes| - pos <= 8 {
    } else {
      FragmentsNameTheirNode(p, pos + 8, fs[0].data);
      forall k | 0 <= k < |fs| ensures NodeOf(fs[k].canId) == NodeOf(p.canId) {
        if k > 0 {
          assert fs[k] == FramesFrom(p, pos + 8, fs[0].data)[k - 1];
        }
      }
    }
  }

  lemma {:induction false} StreamNamesItsNode(ps: seq<Packet>, n: nat)
    requires forall k :: 0 <= k < |ps| ==> NodeOf(ps[k].canId) == n
    ensures forall k :: 0 <= k < |FragmentAll(ps)| ==> NodeOf(FragmentAll(ps)[k].canId) == n
  {
    if ps == [] {
    } else {
      FragmentsNameTheirNode(ps[0], 0, BLANK);
      StreamNamesItsNode(ps[1..], n);
    }
  }

  /** The main result. Nodes each send a list of messages; their frames are interleaved in any way that keeps each
      node's own order. The messages of a node whose handler runs and whose slot is empty are then delivered to its
      queue, all of them and in order, and its slot ends empty; whatever the others send, running or not. */
  lemma InterleavedMessagesArrive(sys: System, lists: seq<seq<Packet>>, out: seq<Frame>, n: nat)
    requires |lists| == NODE_COUNT && n < NODE_COUNT
    requires forall m, k :: 0 <= m < NODE_COUNT && 0 <= k < |lists[m]| ==> NodeOf(lists[m][k].canId) == m
    requires Interleaves(seq(NODE_COUNT, m requires 0 <= m < NODE_COUNT => FragmentAll(lists[m])), out)
    requires sys[n].running && sys[n].pending.None? && forall k :: 0 <= k < |lists[n]| ==> Sendable(lists[n][k])
    ensures Run(sys, Arrivals(out))[n] == Slot(true, None, sys[n].queue + ReceivedAll(lists[n]))
  {
    var streams: seq<seq<Frame>> := seq(NODE_COUNT, m requires 0 <= m < NODE_COUNT => FragmentAll(lists[m]));
    forall m | 0 <= m < NODE_COUNT
      ensures forall k :: 0 <= k < |streams[m]| ==> NodeOf(streams[m][k].canId) == m
    {
      StreamNamesItsNode(lists[m], m);
    }
    InterleavingProjects(streams, out, n);
    RunProjects(sys, Arrivals(out), n);
    StreamArrives(lists[n], sys[n]);
  }

  /** What a delivered message still says: sender, kind, low 16 bits and bytes. */
  lemma ReceivedReadsTheSame(p: Packet)
    ensures var r := Received(p);
            && NodeOf(r.canId) == NodeOf(p.canId) && IsSystem(r.canId) == IsSystem(p.canId)
            && Low16(r.canId) == Low16(p.canId) && r.bytes == p.bytes
  {
    FrameIdKeepsFields(p.canId, true, |p.bytes| <= 8);
  }
}
