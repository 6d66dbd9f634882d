/**
  Uploading and downloading firmware (controllers/firmware.go). The node's replies are a script, one entry for each
  wait, which ends in timeouts; the client takes a number of events (`patience`) and is then gone.
 */
module Firmware {
  import opened Nocan
  import opened BigEndian
  import opened EventTypes
  import opened Bootloader

  // ---------- The node's side and the client's side ----------

  const GET_SIGNATURE_ACK: byte := 19
  const SET_ADDRESS_ACK: byte := 21
  const WRITE_ACK: byte := 23
  const READ_ACK: byte := 25
  const ERASE_ACK: byte := 29

  /** What a wait for an answer ends with. */
  datatype Reply = Timeout | Message(system: bool, fn: byte, param: byte, bytes: seq<byte>)

  function ReplyAt(script: seq<Reply>, k: nat): Reply { if k < |script| then script[k] else Timeout }

  /** ExpectSystemMessage accepts the reply: anything else, and a timeout, is an error. */
  predicate Is(r: Reply, fn: byte) { r.Message? && r.system && r.fn == fn }

  /** checkDeviceSignature */
  predicate GoodSignature(r: Reply) {
    Is(r, GET_SIGNATURE_ACK) && 4 <= |r.bytes| <= 8 && r.bytes[0] == 0x10 && r.bytes[1] == 0x01 && r.bytes[3] == 0x05
  }

  const DEVICE_SIGNATURE: seq<byte> := [0x10, 0x01, 0x00, 0x05]

  /** Not only the device's signature passes: its third byte is not looked at. */
  lemma SignatureAcceptedExactlyWhen(r: Reply)
    ensures GoodSignature(r) <==>
              && Is(r, GET_SIGNATURE_ACK) && 4 <= |r.bytes| <= 8
              && r.bytes[..4][2 := DEVICE_SIGNATURE[2]] == DEVICE_SIGNATURE
    ensures GoodSignature(Message(true, GET_SIGNATURE_ACK, 0, [0x10, 0x01, 0xFF, 0x05]))
  {
    if r.Message? && |r.bytes| >= 4 {
      var s := r.bytes[..4][2 := DEVICE_SIGNATURE[2]];
      assert s == [r.bytes[0], r.bytes[1], 0x00, r.bytes[3]];
      assert s == DEVICE_SIGNATURE <==> s[0] == 0x10 && s[1] == 0x01 && s[3] == 0x05;
    }
  }

  /** The reply lets a transfer go on after the command. Nothing is awaited after the last one. */
  predicate Accepts(c: Command, r: Reply) {
    match c
    case GetSignature => GoodSignature(r)
    case SetAddress(_) => Is(r, SET_ADDRESS_ACK)
    case Erase => Is(r, ERASE_ACK)
    case Write(param, _) => Is(r, WRITE_ACK) && (param == 1 ==> r.param != 0xFF)
    case Read(_) => Is(r, READ_ACK)
    case Leave => true
  }

  /** Only a system message can be accepted, and only for commands of one kind: none is taken for the answer to
      another. */
  lemma RepliesAreNotMixedUp(c: Command, d: Command, r: Reply)
    requires !c.Leave? && !d.Leave? && Accepts(c, r)
    ensures r.Message? && r.system
    ensures Accepts(d, r) ==> && (c.GetSignature? <==> d.GetSignature?) && (c.SetAddress? <==> d.SetAddress?)
                              && (c.Erase? <==> d.Erase?) && (c.Write? <==> d.Write?) && (c.Read? <==> d.Read?)
  {
  }

  /** The number of commands that are accepted before the first refusal. */
  function Reached(cs: seq<Command>, script: seq<Reply>): (m: nat)
    ensures m <= |cs| && forall k :: 0 <= k < m ==> Accepts(cs[k], ReplyAt(script, k))
    ensures m < |cs| ==> !Accepts(cs[m], ReplyAt(script, m))
  {
    if cs == [] then 0
    else
      var last := |cs| - 1;
      var m := Reached(cs[..last], script);
      if m < last || !Accepts(cs[last], ReplyAt(script, last)) then m else |cs|
  }

  /** How many of the commands are sent: those accepted and the one that is not; but not more than `most`, when the
      client has gone by then. */
  function Sends(m: nat, all: nat, most: nat): nat
    requires m <= all
  {
    var asked := if m < all then m + 1 else all;
    if most < asked then most else asked
  }

  /** The commands cs come next in the trace, and what their last reply means for it. */
  predicate GoesOn(all: seq<Command>, script: seq<Reply>, at: nat, cs: seq<Command>) {
    && cs != [] && at + |cs| <= |all| && all[..at] + cs == all[..at + |cs|]
    && var last := at + |cs| - 1;
       if Accepts(cs[|cs| - 1], ReplyAt(script, last)) then Reached(all, script) > last
       else Reached(all, script) == last
  }

  lemma PartSent(all: seq<Command>, script: seq<Reply>, at: nat, part: seq<Command>, cs: seq<Command>)
    requires at + |part| <= |all| && all[at..at + |part|] == part && Reached(all, script) >= at
    requires 1 <= |cs| <= |part| && cs == part[..|cs|]
    requires forall i :: 0 <= i < |cs| - 1 ==> Accepts(cs[i], ReplyAt(script, at + i))
    ensures GoesOn(all, script, at, cs)
  {
    var last := at + |cs| - 1;
    forall i | 0 <= i < |cs| ensures all[at + i] == cs[i] {
      assert part[i] == all[at + i];
    }
    forall k | 0 <= k < last ensures Accepts(all[k], ReplyAt(script, k)) {
      assert k >= at ==> all[k] == cs[k - at];
    }
    ReachedIs(all, script, last);
    if Accepts(cs[|cs| - 1], ReplyAt(script, last)) {
      ReachedIs(all, script, last + 1);
    }
  }

  lemma ReachedIs(cs: seq<Command>, script: seq<Reply>, m: nat)
    requires m <= |cs| && forall k :: 0 <= k < m ==> Accepts(cs[k], ReplyAt(script, k))
    ensures Reached(cs, script) >= m
    ensures m < |cs| && !Accepts(cs[m], ReplyAt(script, m)) ==> Reached(cs, script) == m
  {
  }

  /** A NodeFirmwareProgressEvent as it was when it was sent. */
  datatype Event = Event(progress: byte, bytes: uint32)
  const SUCCESS: byte := 0xFE
  const FAILED: byte := 0xFF

  function Emitted(events: seq<Event>, patience: nat, e: Event): seq<Event> {
    if |events| < patience then events + [e] else events
  }

  /** What a client is told who takes only so many events. */
  function Taken(events: seq<Event>, patience: nat): seq<Event> {
    if |events| <= patience then events else events[..patience]
  }

  /** Progress reports are percentages. */
  predicate Percentages(events: seq<Event>) { forall k :: 0 <= k < |events| ==> events[k].progress <= 100 }

  /** Byte counts never go back. */
  predicate Rising(events: seq<Event>) { forall j, k :: 0 <= j < k < |events| ==> events[j].bytes <= events[k].bytes }

  /** Progress reports and then one terminal mark, which tells whether the transfer succeeded. */
  predicate Concluded(events: seq<Event>, ok: bool) {
    && events != []
    && events[|events| - 1].progress == (if ok then SUCCESS else FAILED)
    && Percentages(events[..|events| - 1])
  }

  // ---------- Upload ----------

  function Size(code: seq<Block>): nat { if code == [] then 0 else |code[0].data| + Size(code[1..]) }

  /** The bytes can be counted in 32 bits. */
  predicate Countable(code: seq<Block>) { Size(code) < 0x1_0000_0000 }

  lemma {:induction false} PackedSize(code: seq<Block>)
    ensures |PackAll(PackBlock, code)| == Size(code) + 8 * |code|
  {
    if code == [] {
    } else {
      PackedSize(code[1..]);
    }
  }

  /** Firmware that comes in one event always is: its payload is below 4 GiB. */
  lemma ReceivedIsCountable(payload: seq<byte>)
    requires |payload| < 0x1_0000_0000 && UnpackFirmware(payload).Ok?
    ensures Countable(UnpackFirmware(payload).value.code)
  {
    BlockCodec();
    UnpackedListRepacks(PackBlock, UnpackBlock, GoodBlock, payload[6..]);
    PackedSize(UnpackFirmware(payload).value.code);
  }

  /** page_offset after n turns of the page loop, in uint32. */
  function PageOffset(n: nat): uint32 { n * PAGE % 0x1_0000_0000 }

  /** The page loop of a block ends if and only if the block has at most 0xFFFFFFC0 bytes. */
  lemma PageLoopEndsExactlyWhen(blocksize: uint32)
    ensures (exists n: nat :: PageOffset(n) >= blocksize) <==> blocksize <= 0xFFFF_FFC0
  {
    assert PageOffset(0x3FF_FFFF) == 0xFFFF_FFC0;
  }

  /** (page_offset*100)/blocksize in uint32, as a byte. */
  function Percent(from: nat, size: nat): byte
    requires size > 0
  {
    from * 100 % 0x1_0000_0000 / size % 0x100
  }

  lemma QuotientBelow(a: nat, d: nat, q: nat)
    requires a < q * d
    ensures a / d < q
  {
    var x := a / d;
    assert x * d <= a < q * d;
    assert x >= q ==> (x - q) * d >= 0;
  }

  lemma QuotientIs(a: nat, d: nat) returns (q: nat)
    requires d > 0
    ensures q == a / d && q * d <= a < (q + 1) * d
  {
    q := a / d;
    assert a == q * d + a % d;
  }

  /** While from*100 fits 32 bits, it is the whole percentage of the block that comes before the page. */
  lemma PercentIs(from: nat, size: nat)
    requires from < size && from * 100 < 0x1_0000_0000
    ensures var p := Percent(from, size); p * size <= 100 * from < (p + 1) * size
  {
    var q := QuotientIs(from * 100, size);
    QuotientBelow(from * 100, size, 100);
    assert from * 100 % 0x1_0000_0000 == from * 100;
    assert Percent(from, size) == q;
  }

  /** Even where from*100 wraps around, for then the size is more than a hundredth of 4 GiB. */
  lemma PercentIsPercent(from: nat, size: nat)
    requires from < size < 0x1_0000_0000
    ensures Percent(from, size) < 100
  {
    QuotientBelow(from * 100 % 0x1_0000_0000, size, 100);
  }

  lemma {:induction false} PagesHoldTheBytes(code: seq<Block>)
    ensures Volume(Pages(code)) == Size(code)
  {
    if code == [] {
    } else {
      VolumeJoins(BlockPages(code[0], 0), Pages(code[1..]));
      BlockVolume(code[0], 0);
      PagesHoldTheBytes(code[1..]);
    }
  }

  // ---------- What an upload does ----------

  /** The bytes of the first j pages, in uint32. */
  function Counted(ps: seq<Page>, j: nat): uint32
    requires j <= |ps|
  {
    Volume(ps[..j]) % 0x1_0000_0000
  }

  /** The pages, and where they come from. */
  predicate Match(spots: seq<Spot>, ps: seq<Page>) {
    && |spots| == |ps|
    && forall j :: 0 <= j < |ps| ==>
         spots[j].from < |spots[j].block.data| && ps[j] == PageAt(spots[j].block, spots[j].from)
  }

  /** The report after each page: how much of its block comes before it, and how many bytes are sent by then. */
  function Reports(spots: seq<Spot>, ps: seq<Page>): (events: seq<Event>)
    requires Match(spots, ps)
    ensures |events| == |ps|
  {
    seq(|ps|, j requires 0 <= j < |ps| => Event(Percent(spots[j].from, |spots[j].block.data|), Counted(ps, j + 1)))
  }

  /** What an upload will do if all goes well: three commands, then three more and a report for each page, then
      Leave. */
  datatype Plan = Plan(commands: seq<Command>, reports: seq<Event>)

  predicate Whole(plan: Plan) {
    |plan.commands| == 3 + 3 * |plan.reports| + 1 && plan.commands[|plan.commands| - 1] == Leave
  }

  function PlanOf(crc: Crc, spots: seq<Spot>, ps: seq<Page>): (plan: Plan)
    requires Match(spots, ps)
    ensures Whole(plan)
  {
    OpeningIs(crc, ps);
    Plan(FlashTrace(crc, ps), Reports(spots, ps))
  }

  function UploadPlan(crc: Crc, code: seq<Block>): (plan: Plan)
    ensures Whole(plan)
  {
    PlanOf(crc, Spots(code), Pages(code))
  }

  /** The byte count of the last of the first j reports. */
  function Told(reports: seq<Event>, j: nat): uint32
    requires j <= |reports|
  {
    if j == 0 then 0 else reports[j - 1].bytes
  }

  /** The pages that m accepted commands have done. */
  function PagesDone(m: nat): nat { if m < 3 then 0 else (m - 3) / 3 }

  /** What a client is told who stays to the end, when m commands are accepted: the reports and then one mark, or at
      last 100 percent and the mark of success. */
  function UploadEvents(reports: seq<Event>, m: nat): (events: seq<Event>)
    requires m <= 3 + 3 * |reports| + 1
  {
    var done := PagesDone(m);
    if m == 3 + 3 * |reports| + 1 then reports + [Event(100, Told(reports, done)), Event(SUCCESS, Told(reports, done))]
    else reports[..done] + [Event(FAILED, Told(reports, done))]
  }

  method Uint32ToBytes(u: uint32, d: array<byte>)
    requires d.Length >= 4
    modifies d
    ensures d[..4] == Bytes(u, 4)
  {
    d[0] := u / 0x100_0000 % 0x100;
    d[1] := u / 0x1_0000 % 0x100;
    d[2] := u / 0x100 % 0x100;
    d[3] := u % 0x100;
    ghost var a := u / 0x100;
    ghost var b := a / 0x100;
    ghost var c := b / 0x100;
    assert u / 0x1_0000 == b && u / 0x100_0000 == c;
    assert Bytes(c, 1) == [c % 0x100] && Bytes(b, 2) == [c % 0x100, b % 0x100];
    assert Bytes(a, 3) == [c % 0x100, b % 0x100, a % 0x100];
    assert d[..4] == Bytes(a, 3) + [u % 0x100];
  }

  /** Lines 102-135 for the page of block k at `from`; the buffer is used for addresses, data and checksum in turn.
      The loop over parts of a page runs once, since a page is 64 bytes. */
  method UploadPage(crc: Crc, k: Block, from: nat, script: seq<Reply>, j: nat, data: array<byte>)
      returns (ok: bool, cs: seq<Command>, rlen: nat)
    requires from < |k.data| < 0x1_0000_0000 && data.Length == PAGE
    modifies data
    ensures 1 <= |cs| <= 3 && cs == PageTrace(crc, PageAt(k, from))[..|cs|]
    ensures forall i :: 0 <= i < |cs| - 1 ==> Accepts(cs[i], ReplyAt(script, 3 + 3 * j + i))
    ensures ok <==> |cs| == 3 && Accepts(cs[2], ReplyAt(script, 3 + 3 * j + 2))
    ensures !ok ==> !Accepts(cs[|cs| - 1], ReplyAt(script, 3 + 3 * j + |cs| - 1))
    ensures ok ==> rlen == |PageAt(k, from).data|
  {
    ok, rlen := false, 0;
    var used := 3 + 3 * j;
    Uint32ToBytes((k.offset + from) % 0x1_0000_0000, data);
    cs := [SetAddress(data[..4])];
    if !Is(ReplyAt(script, used), SET_ADDRESS_ACK) {
      return;
    }
    rlen := if |k.data| - from > PAGE then PAGE else |k.data| - from;
    forall i | 0 <= i < rlen { data[i] := k.data[from + i]; }
    assert data[..rlen] == Chunk(k.data, from);
    var sum := crc(data[..rlen]);
    cs := cs + [Write(0, data[..rlen])];
    if !Is(ReplyAt(script, used + 1), WRITE_ACK) {
      return;
    }
    Uint32ToBytes(sum, data);
    cs := cs + [Write(1, data[..4])];
    var response := ReplyAt(script, used + 2);
    if !Is(response, WRITE_ACK) || response.param == 0xFF {
      return;
    }
    ok := true;
  }

  /** What an upload has done: commands sent, events the client took, bytes uploaded and bytes last reported. */
  datatype Transfer = Transfer(sent: seq<Command>, events: seq<Event>, total: uint32, reported: uint32)

  /** Where an upload stands after j pages. */
  ghost predicate Standing(plan: Plan, script: seq<Reply>, patience: nat, j: nat, t: Transfer) {
    && Whole(plan) && j <= |plan.reports| && j <= patience
    && t.sent == plan.commands[..3 + 3 * j] && Reached(plan.commands, script) >= 3 + 3 * j
    && t.events == plan.reports[..j] && t.reported == t.total == Told(plan.reports, j)
  }

  /** How an upload has gone that has ended, with this result. */
  ghost predicate Ended(plan: Plan, script: seq<Reply>, patience: nat, ok: bool, sent: seq<Command>,
                        events: seq<Event>) {
    && Whole(plan)
    && var m := Reached(plan.commands, script);
    && (ok <==> m == |plan.commands| && |plan.reports| + 2 <= patience)
    && sent == plan.commands[..Sends(m, |plan.commands|, 6 + 3 * patience)]
    && events == Taken(UploadEvents(plan.reports, m), patience)
  }

  /** Page j of the plan is the page of block k at `from`. */
  ghost predicate Plans(crc: Crc, plan: Plan, j: nat, k: Block, from: nat) {
    && from < |k.data| && j < |plan.reports| && 3 + 3 * j + 3 <= |plan.commands|
    && plan.commands[3 + 3 * j..3 + 3 * j + 3] == PageTrace(crc, PageAt(k, from))
    && plan.reports[j] == Event(Percent(from, |k.data|),
                                (Told(plan.reports, j) + |PageAt(k, from).data|) % 0x1_0000_0000)
  }

  /** The pages of block k are those of the plan from page `first` on. */
  ghost predicate PlansBlock(crc: Crc, plan: Plan, first: nat, k: Block) {
    forall m: nat :: m * PAGE < |k.data| ==> Plans(crc, plan, first + m, k, m * PAGE)
  }

  lemma {:induction false} PlansAt(crc: Crc, plan: Plan, first: nat, k: Block, j: nat, from: nat)
    requires PlansBlock(crc, plan, first, k) && first <= j && from == (j - first) * PAGE < |k.data|
    ensures Plans(crc, plan, j, k, from)
  {
    assert Plans(crc, plan, first + (j - first), k, (j - first) * PAGE);
  }

  lemma RefusedEnds(plan: Plan, script: seq<Reply>, patience: nat, j: nat, t: Transfer, cs: seq<Command>)
    requires Standing(plan, script, patience, j, t) && j < |plan.reports| && 1 <= |cs| <= 3
    requires GoesOn(plan.commands, script, 3 + 3 * j, cs)
    requires !Accepts(cs[|cs| - 1], ReplyAt(script, 3 + 3 * j + |cs| - 1))
    ensures Ended(plan, script, patience, false, t.sent + cs,
                  Emitted(t.events, patience, Event(FAILED, t.reported)))
  {
    assert PagesDone(Reached(plan.commands, script)) == j;
  }

  lemma LeftEnds(plan: Plan, script: seq<Reply>, patience: nat, t: Transfer, cs: seq<Command>)
    requires Standing(plan, script, patience, patience, t) && patience < |plan.reports| && |cs| == 3
    requires GoesOn(plan.commands, script, 3 + 3 * patience, cs)
    requires Accepts(cs[2], ReplyAt(script, 3 + 3 * patience + 2))
    ensures Ended(plan, script, patience, false, t.sent + cs, t.events)
  {
    assert PagesDone(Reached(plan.commands, script)) >= patience + 1;
  }

  /** UploadPage, at its place in the plan. */
  method UploadNext(crc: Crc, k: Block, from: nat, script: seq<Reply>, j: nat, data: array<byte>,
                    ghost plan: Plan, ghost first: nat)
      returns (ok: bool, cs: seq<Command>, rlen: nat)
    requires data.Length == PAGE && |k.data| < 0x1_0000_0000
    requires PlansBlock(crc, plan, first, k) && first <= j && from == (j - first) * PAGE < |k.data|
    requires Reached(plan.commands, script) >= 3 + 3 * j
    modifies data
    ensures j < |plan.reports|
    ensures 1 <= |cs| <= 3 && GoesOn(plan.commands, script, 3 + 3 * j, cs)
    ensures ok <==> |cs| == 3 && Accepts(cs[2], ReplyAt(script, 3 + 3 * j + 2))
    ensures !ok ==> !Accepts(cs[|cs| - 1], ReplyAt(script, 3 + 3 * j + |cs| - 1))
    ensures ok ==> rlen == |PageAt(k, from).data|
  {
    PlansAt(crc, plan, first, k, j, from);
    ok, cs, rlen := UploadPage(crc, k, from, script, j, data);
    PartSent(plan.commands, script, 3 + 3 * j, PageTrace(crc, PageAt(k, from)), cs);
  }

  lemma {:induction false} ReportFollows(crc: Crc, plan: Plan, script: seq<Reply>, patience: nat, t: Transfer,
                                         k: Block, first: nat, from: nat, cs: seq<Command>, total: uint32)
    requires PlansBlock(crc, plan, first, k) && first <= |t.events|
    requires from == (|t.events| - first) * PAGE < |k.data| && Standing(plan, script, patience, |t.events|, t)
    requires |t.events| < patience && |cs| == 3 && GoesOn(plan.commands, script, 3 + 3 * |t.events|, cs)
    requires Accepts(cs[2], ReplyAt(script, 3 + 3 * |t.events| + 2))
    requires total == (t.total + |PageAt(k, from).data|) % 0x1_0000_0000
    ensures Standing(plan, script, patience, |t.events| + 1,
                     Transfer(t.sent + cs, t.events + [Event(Percent(from, |k.data|), total)], total, total))
  {
    hide Percent;
    hide Reached;
    hide PageTrace;
    hide PlansBlock;
    PlansAt(crc, plan, first, k, |t.events|, from);
  }

  /** Lines 102-140: one page and its report. */
  method UploadAndReport(crc: Crc, k: Block, from: nat, script: seq<Reply>, patience: nat, data: array<byte>,
                         ghost plan: Plan, ghost first: nat, t0: Transfer)
      returns (ok: bool, t: Transfer)
    requires data.Length == PAGE && |k.data| < 0x1_0000_0000 && PlansBlock(crc, plan, first, k)
    requires first <= |t0.events| && from == (|t0.events| - first) * PAGE < |k.data|
    requires Standing(plan, script, patience, |t0.events|, t0)
    modifies data
    ensures ok ==> Standing(plan, script, patience, |t0.events| + 1, t)
    ensures !ok ==> Ended(plan, script, patience, false, t.sent, t.events)
  {
    hide Ended;
    hide PlansBlock;
    hide GoesOn;
    hide Percent;
    hide PageAt;
    hide Accepts;
    var fine, cs, rlen := UploadNext(crc, k, from, script, |t0.events|, data, plan, first);
    if !fine {
      RefusedEnds(plan, script, patience, |t0.events|, t0, cs);
      return false, t0.(sent := t0.sent + cs, events := Emitted(t0.events, patience, Event(FAILED, t0.reported)));
    }
    var total := (t0.total + rlen) % 0x1_0000_0000;
    if |t0.events| == patience {
      LeftEnds(plan, script, patience, t0, cs);
      return false, Transfer(t0.sent + cs, t0.events, total, total);
    }
    ReportFollows(crc, plan, script, patience, t0, k, first, from, cs, total);
    return true, Transfer(t0.sent + cs, t0.events + [Event(Percent(from, |k.data|), total)], total, total);
  }

  /** Lines 98-141 for one block; its pages are those of the plan from page `first` on. */
  method UploadBlock(crc: Crc, k: Block, script: seq<Reply>, patience: nat, data: array<byte>,
                     ghost plan: Plan, ghost first: nat, t0: Transfer)
      returns (ok: bool, t: Transfer)
    requires data.Length == PAGE && |k.data| <= 0xFFFF_FFC0
    requires PlansBlock(crc, plan, first, k)
    requires Standing(plan, script, patience, first, t0)
    modifies data
    ensures ok ==> Standing(plan, script, patience, first + PagesOf(k), t)
    ensures !ok ==> Ended(plan, script, patience, false, t.sent, t.events)
  {
    hide Ended;
    hide PlansBlock;
    t := t0;
    var from := 0;
    while from < |k.data|
      invariant first <= |t.events| && from == (|t.events| - first) * PAGE < |k.data| + PAGE
      invariant Standing(plan, script, patience, |t.events|, t)
      decreases |k.data| - from
    {
      ok, t := UploadAndReport(crc, k, from, script, patience, data, plan, first, t);
      if !ok {
        return;
      }
      from := from + PAGE;
    }
    ok := true;
  }

  /** Lines 80-96: signature, address, erase; each failure marks the operation as failed. */
  method Open(crc: Crc, script: seq<Reply>, patience: nat, data: array<byte>, ghost plan: Plan)
      returns (ok: bool, t: Transfer)
    requires data.Length == PAGE && Whole(plan)
    requires plan.commands[..3] == [GetSignature, SetAddress(Bytes(FLASH_APP_ORIGIN, 4)), Erase]
    modifies data
    ensures ok ==> Standing(plan, script, patience, 0, t)
    ensures !ok ==> Ended(plan, script, patience, false, t.sent, t.events)
  {
    ghost var cs := plan.commands;
    assert cs[0] == cs[..3][0] && cs[1] == cs[..3][1] && cs[2] == cs[..3][2];
    ok, t := false, Transfer([GetSignature], Emitted([], patience, Event(FAILED, 0)), 0, 0);
    if !GoodSignature(ReplyAt(script, 0)) {
      ReachedIs(cs, script, 0);
      return;
    }
    Uint32ToBytes(FLASH_APP_ORIGIN, data);
    t := t.(sent := t.sent + [SetAddress(data[..4])]);
    if !Is(ReplyAt(script, 1), SET_ADDRESS_ACK) {
      ReachedIs(cs, script, 1);
      return;
    }
    t := t.(sent := t.sent + [Erase]);
    if !Is(ReplyAt(script, 2), ERASE_ACK) {
      ReachedIs(cs, script, 2);
      return;
    }
    ReachedIs(cs, script, 3);
    return true, t.(events := []);
  }

  /** The plan has the pages of all blocks in their order. */
  ghost predicate Follows(crc: Crc, plan: Plan, code: seq<Block>) {
    && Whole(plan) && PagesBefore(code, |code|) == |plan.reports|
    && plan.commands[..3] == [GetSignature, SetAddress(Bytes(FLASH_APP_ORIGIN, 4)), Erase]
    && forall i :: 0 <= i < |code| ==> PlansBlock(crc, plan, PagesBefore(code, i), code[i])
  }

  /** uploadFirmware, as it follows a plan. */
  method UploadBlocks(crc: Crc, code: seq<Block>, script: seq<Reply>, patience: nat, ghost plan: Plan)
      returns (ok: bool, sent: seq<Command>, events: seq<Event>)
    requires forall i :: 0 <= i < |code| ==> |code[i].data| <= 0xFFFF_FFC0
    requires Follows(crc, plan, code)
    ensures Ended(plan, script, patience, ok, sent, events)
  {
    hide Ended;
    hide PlansBlock;
    hide Bytes;
    var data := new byte[PAGE](_ => 0);
    var t;
    ok, t := Open(crc, script, patience, data, plan);
    if !ok {
      return false, t.sent, t.events;
    }
    for i := 0 to |code|
      invariant Standing(plan, script, patience, PagesBefore(code, i), t)
    {
      PagesBeforeNext(code, i);
      ok, t := UploadBlock(crc, code[i], script, patience, data, plan, PagesBefore(code, i), t);
      if !ok {
        return false, t.sent, t.events;
      }
    }
    AllAcceptedEnds(plan, script, patience, t);
    ok, events := Finish(t.events, t.total, patience);
    return ok, t.sent + [Leave], events;
  }

  /** uploadFirmware. For any script of replies and any client: the commands go out up to the first one refused, the
      client is told page by page, and the result is success exactly when nothing is refused and the client stays.
      The page loop counts in uint32 and ends for blocks of at most 0xFFFFFFC0 bytes. */
  method UploadFirmware(crc: Crc, code: seq<Block>, script: seq<Reply>, patience: nat)
      returns (ok: bool, sent: seq<Command>, events: seq<Event>)
    requires forall i :: 0 <= i < |code| ==> |code[i].data| <= 0xFFFF_FFC0
    ensures Ended(UploadPlan(crc, code), script, patience, ok, sent, events)
  {
    UploadPlanFollows(crc, code);
    ok, sent, events := UploadBlocks(crc, code, script, patience, UploadPlan(crc, code));
  }

  lemma AllAcceptedEnds(plan: Plan, script: seq<Reply>, patience: nat, t: Transfer)
    requires Standing(plan, script, patience, |plan.reports|, t)
    ensures Ended(plan, script, patience, |plan.reports| + 2 <= patience, t.sent + [Leave],
                  Taken(t.events + [Event(100, t.total), Event(SUCCESS, t.total)], patience))
  {
    ReachedIs(plan.commands, script, |plan.commands|);
    assert PagesDone(|plan.commands|) == |plan.reports|;
    assert plan.commands[..|plan.commands| - 1] + [Leave] == plan.commands;
    assert plan.reports[..|plan.reports|] == plan.reports;
  }

  lemma AllPagesBefore(code: seq<Block>)
    ensures PagesBefore(code, |code|) == |Pages(code)|
  {
    if code != [] {
      PagesBeforeNext(code, |code| - 1);
    }
  }

  lemma CountNext(ps: seq<Page>, j: nat)
    requires j < |ps|
    ensures Counted(ps, j + 1) == (Counted(ps, j) + |ps[j].data|) % 0x1_0000_0000
  {
    VolumeNext(ps, j);
  }

  lemma TellsCount(spots: seq<Spot>, ps: seq<Page>, j: nat)
    requires Match(spots, ps) && j <= |ps|
    ensures Told(Reports(spots, ps), j) == Counted(ps, j)
  {
    assert ps[..0] == [];
  }

  lemma {:induction false} PageIsPlanned(crc: Crc, spots: seq<Spot>, ps: seq<Page>, j: nat)
    requires Match(spots, ps) && j < |ps|
    ensures Plans(crc, PlanOf(crc, spots, ps), j, spots[j].block, spots[j].from)
  {
    hide Counted;
    hide Percent;
    hide FlashTrace;
    hide PageTrace;
    FlashTraceIs(crc, ps, j);
    CountNext(ps, j);
    TellsCount(spots, ps, j);
  }

  lemma {:induction false} UploadPlanFollows(crc: Crc, code: seq<Block>)
    ensures Follows(crc, UploadPlan(crc, code), code)
  {
    var plan := UploadPlan(crc, code);
    OpeningIs(crc, Pages(code));
    AllPagesBefore(code);
    forall i | 0 <= i < |code| ensures PlansBlock(crc, plan, PagesBefore(code, i), code[i]) {
      BlockIsPlanned(crc, code, i);
    }
  }

  lemma {:induction false} BlockIsPlanned(crc: Crc, code: seq<Block>, i: nat)
    requires i < |code|
    ensures PlansBlock(crc, UploadPlan(crc, code), PagesBefore(code, i), code[i])
  {
    hide UploadPlan;
    hide Plans;
    hide PagesBefore;
    forall m: nat | m * PAGE < |code[i].data|
      ensures Plans(crc, UploadPlan(crc, code), PagesBefore(code, i) + m, code[i], m * PAGE)
    {
      PageOfBlockIsPlanned(crc, code, i, m);
    }
  }

  lemma {:induction false} PageOfBlockIsPlanned(crc: Crc, code: seq<Block>, i: nat, m: nat)
    requires i < |code| && m * PAGE < |code[i].data|
    ensures Plans(crc, UploadPlan(crc, code), PagesBefore(code, i) + m, code[i], m * PAGE)
  {
    var plan := UploadPlan(crc, code);
    assert plan == PlanOf(crc, Spots(code), Pages(code));
    hide UploadPlan;
    hide PlanOf;
    hide Plans;
    hide Spots;
    hide Pages;
    hide PagesBefore;
    hide PageAt;
    hide Chunk;
    SpotIs(code, i, m);
    PageIsPlanned(crc, Spots(code), Pages(code), PagesBefore(code, i) + m);
  }

  /** Lines 145-146 */
  method Finish(before: seq<Event>, total: uint32, patience: nat) returns (ok: bool, events: seq<Event>)
    requires |before| <= patience
    ensures ok <==> |before| + 2 <= patience
    ensures events == Taken(before + [Event(100, total), Event(SUCCESS, total)], patience)
  {
    events := Emitted(before, patience, Event(100, total));
    ok := |events| < patience;
    events := Emitted(events, patience, Event(SUCCESS, total));
  }

  /** The report after page j counts the bytes of the pages up to it, and its percentage is the whole part of what
      comes before the page in its block, while a hundred times that fits 32 bits. */
  lemma ReportIs(spots: seq<Spot>, ps: seq<Page>, j: nat)
    requires Match(spots, ps) && j < |ps|
    ensures var e, from, size := Reports(spots, ps)[j], spots[j].from, |spots[j].block.data|;
            && e.bytes == Volume(ps[..j + 1]) % 0x1_0000_0000
            && (100 * from < 0x1_0000_0000 ==> e.progress * size <= 100 * from < (e.progress + 1) * size)
  {
    if 100 * spots[j].from < 0x1_0000_0000 {
      PercentIs(spots[j].from, |spots[j].block.data|);
    }
  }

  /** What a client is told who stays: percentages and then the mark that tells the result; the byte counts never go
      back, if they fit 32 bits, and end at the number of bytes of the code. */
  lemma UploadIsTold(crc: Crc, code: seq<Block>, m: nat)
    requires forall i :: 0 <= i < |code| ==> |code[i].data| < 0x1_0000_0000
    requires m <= 3 + 3 * |Pages(code)| + 1
    ensures var reports := UploadPlan(crc, code).reports;
            && Concluded(UploadEvents(reports, m), m == 3 + 3 * |Pages(code)| + 1)
            && (Countable(code) ==> Rising(UploadEvents(reports, m)) && Told(reports, |reports|) == Size(code))
  {
    var spots, ps := Spots(code), Pages(code);
    SpotsAreInBlocks(code);
    ReportsArePercentages(spots, ps);
    MarksConclude(Reports(spots, ps), m);
    PagesHoldTheBytes(code);
    if Countable(code) {
      ReportsRise(spots, ps);
      MarksRise(Reports(spots, ps), m);
    }
  }

  lemma MarksConclude(reports: seq<Event>, m: nat)
    requires Percentages(reports) && m <= 3 + 3 * |reports| + 1
    ensures Concluded(UploadEvents(reports, m), m == 3 + 3 * |reports| + 1)
  {
  }

  lemma MarksRise(reports: seq<Event>, m: nat)
    requires Rising(reports) && m <= 3 + 3 * |reports| + 1
    ensures Rising(UploadEvents(reports, m))
  {
  }

  lemma ReportsArePercentages(spots: seq<Spot>, ps: seq<Page>)
    requires Match(spots, ps) && forall j :: 0 <= j < |spots| ==> |spots[j].block.data| < 0x1_0000_0000
    ensures Percentages(Reports(spots, ps))
  {
    forall j | 0 <= j < |ps| ensures Reports(spots, ps)[j].progress <= 100 {
      PercentIsPercent(spots[j].from, |spots[j].block.data|);
    }
  }

  lemma {:induction false} CountsRise(ps: seq<Page>, i: nat, j: nat)
    requires i <= j <= |ps|
    ensures Volume(ps[..i]) <= Volume(ps[..j]) <= Volume(ps)
  {
    VolumeJoins(ps[..i], ps[i..j]);
    VolumeJoins(ps[..j], ps[j..]);
    assert ps[..i] + ps[i..j] == ps[..j] && ps[..j] + ps[j..] == ps;
  }

  lemma {:induction false} ReportsRise(spots: seq<Spot>, ps: seq<Page>)
    requires Match(spots, ps) && Volume(ps) < 0x1_0000_0000
    ensures Rising(Reports(spots, ps)) && Told(Reports(spots, ps), |ps|) == Volume(ps)
  {
    hide Reports;
    assert Volume([]) == 0;
    hide Volume;
    var events := Reports(spots, ps);
    forall i, j | 0 <= i < j < |events| ensures events[i].bytes <= events[j].bytes {
      LaterReportsCountMore(spots, ps, i, j);
    }
    hide Match;
    if ps != [] {
      CountIs(spots, ps, |ps| - 1);
      assert ps[..|ps|] == ps;
    }
  }

  lemma {:induction false} LaterReportsCountMore(spots: seq<Spot>, ps: seq<Page>, i: nat, j: nat)
    requires Match(spots, ps) && Volume(ps) < 0x1_0000_0000 && i <= j < |ps|
    ensures Reports(spots, ps)[i].bytes <= Reports(spots, ps)[j].bytes
  {
    hide Reports;
    hide Volume;
    CountIs(spots, ps, i);
    CountIs(spots, ps, j);
    CountsRise(ps, i + 1, j + 1);
  }

  lemma {:induction false} CountIs(spots: seq<Spot>, ps: seq<Page>, j: nat)
    requires Match(spots, ps) && Volume(ps) < 0x1_0000_0000 && j < |ps|
    ensures Reports(spots, ps)[j].bytes == Volume(ps[..j + 1])
  {
    hide Percent;
    hide Volume;
    CountsRise(ps, j + 1, |ps|);
  }

  lemma {:induction false} SpotsAreInBlocks(code: seq<Block>)
    ensures forall j :: 0 <= j < |Spots(code)| ==> Spots(code)[j].block in code
  {
    if code == [] {
    } else {
      BlockSpotsAreInBlock(code[0], 0);
      SpotsAreInBlocks(code[1..]);
    }
  }

  lemma {:induction false} BlockSpotsAreInBlock(k: Block, from: nat)
    ensures forall j :: 0 <= j < |BlockSpots(k, from)| ==> BlockSpots(k, from)[j].block == k
    decreases |k.data| - from
  {
    if from >= |k.data| {
    } else {
      BlockSpotsAreInBlock(k, from + PAGE);
    }
  }

  // ---------- Download ----------

  function MemLength(limit: uint32): (n: nat)
    ensures 0 < n <= FLASH_APP_LENGTH
  {
    if limit > FLASH_APP_LENGTH || limit == 0 then FLASH_APP_LENGTH else limit
  }

  function PageCount(length: nat): (n: nat)
    ensures (n - 1) * PAGE < length <= n * PAGE
  {
    (length + PAGE - 1) / PAGE
  }

  /** Every page that is read lies in the application area, so no address overflows. */
  function PageAddress(i: nat): (a: uint32)
    requires i * PAGE < FLASH_APP_LENGTH
    ensures FLASH_APP_ORIGIN <= a && a + PAGE <= FLASH_LENGTH
  {
    FLASH_APP_ORIGIN + i * PAGE
  }

  predicate Readable(n: nat) { n * PAGE <= FLASH_APP_LENGTH }

  function ReadPair(i: nat): seq<Command>
    requires i * PAGE < FLASH_APP_LENGTH
  {
    [SetAddress(Bytes(PageAddress(i), 4)), Read(PAGE)]
  }

  function Reads(n: nat): (cs: seq<Command>)
    requires Readable(n)
    ensures |cs| == 2 * n && forall k :: 0 <= k < |cs| ==> cs[k].SetAddress? || cs[k].Read?
  {
    if n == 0 then [] else Reads(n - 1) + ReadPair(n - 1)
  }

  lemma {:induction false} ReadsAt(n: nat, i: nat)
    requires Readable(n) && i < n
    ensures Reads(n)[2 * i..2 * i + 2] == ReadPair(i) && Reads(i + 1) <= Reads(n)
  {
    if i >= n - 1 {
    } else {
      ReadsAt(n - 1, i);
      assert Reads(n)[2 * i..2 * i + 2] == Reads(n - 1)[2 * i..2 * i + 2];
    }
  }

  function DownloadTrace(n: nat): (cs: seq<Command>)
    requires Readable(n)
    ensures |cs| == 2 * n + 1
  {
    Reads(n) + [Leave]
  }

  lemma PairSent(n: nat, script: seq<Reply>, i: nat, cs: seq<Command>)
    requires Readable(n) && i < n && Reached(DownloadTrace(n), script) >= 2 * i
    requires 1 <= |cs| <= 2 && cs == ReadPair(i)[..|cs|]
    requires forall k :: 0 <= k < |cs| - 1 ==> Accepts(cs[k], ReplyAt(script, 2 * i + k))
    ensures GoesOn(DownloadTrace(n), script, 2 * i, cs)
  {
    ReadsAt(n, i);
    assert DownloadTrace(n)[2 * i..2 * i + 2] == Reads(n)[2 * i..2 * i + 2];
    PartSent(DownloadTrace(n), script, 2 * i, ReadPair(i), cs);
  }

  /** The data of the i-th read answer, and of the first n. */
  function DataAt(script: seq<Reply>, i: nat): seq<byte> {
    var r := ReplyAt(script, 2 * i + 1);
    if r.Message? then r.bytes else []
  }

  function Collected(script: seq<Reply>, n: nat): seq<byte> {
    if n == 0 then [] else Collected(script, n - 1) + DataAt(script, n - 1)
  }

  /** ((address-FLASH_APP_ORIGIN)*100)/memlength, as a byte: no percentage when the length is not whole pages. */
  function Share(done: nat, memlength: nat): byte
    requires memlength > 0
  {
    done * 100 / memlength % 0x100
  }

  /** The report after each of the first n pages. */
  function PageReports(n: nat, memlength: nat): (events: seq<Event>)
    requires memlength > 0 && Readable(n)
    ensures |events| == n
  {
    seq(n, i requires 0 <= i < n => Event(Share((i + 1) * PAGE, memlength), (i + 1) * PAGE))
  }

  /** What a client is told who stays to the end, when m commands are accepted. */
  function DownloadEvents(memlength: nat, m: nat): (events: seq<Event>)
    requires 0 < memlength <= FLASH_APP_LENGTH && m <= 2 * PageCount(memlength) + 1
  {
    var n := PageCount(memlength);
    if m == 2 * n + 1 then PageReports(n, memlength) + [Event(100, memlength), Event(SUCCESS, memlength)]
    else PageReports(m / 2, memlength) + [Event(FAILED, m / 2 * PAGE)]
  }

  lemma NextReport(i: nat, memlength: nat)
    requires memlength > 0 && Readable(i + 1)
    ensures PageReports(i, memlength) + [Event(Share((i + 1) * PAGE, memlength), (i + 1) * PAGE)]
         == PageReports(i + 1, memlength)
  {
  }

  lemma RefusedDownloadEnds(memlength: nat, m: nat, patience: nat, i: nat)
    requires 0 < memlength <= FLASH_APP_LENGTH && i < PageCount(memlength) && i <= patience && 2 * i <= m < 2 * (i + 1)
    ensures Emitted(PageReports(i, memlength), patience, Event(FAILED, i * PAGE))
         == Taken(DownloadEvents(memlength, m), patience)
    ensures Sends(m, 2 * PageCount(memlength) + 1, 2 * (patience + 1)) == m + 1
  {
  }

  lemma LeftDownloadEnds(memlength: nat, m: nat, i: nat)
    requires 0 < memlength <= FLASH_APP_LENGTH && i < PageCount(memlength)
    requires 2 * (i + 1) <= m <= 2 * PageCount(memlength) + 1
    ensures Readable(i) && Taken(DownloadEvents(memlength, m), i) == PageReports(i, memlength)
    ensures Sends(m, 2 * PageCount(memlength) + 1, 2 * (i + 1)) == 2 * (i + 1)
  {
    var j := if m == 2 * PageCount(memlength) + 1 then PageCount(memlength) else m / 2;
    assert PageReports(j, memlength)[..i] == PageReports(i, memlength);
  }

  /** Lines 169-187: one page; the loop over its parts runs once. */
  method ReadPage(i: nat, script: seq<Reply>, data: array<byte>) returns (ok: bool, cs: seq<Command>, bytes: seq<byte>)
    requires i * PAGE < FLASH_APP_LENGTH && data.Length >= 4
    modifies data
    ensures 1 <= |cs| <= 2 && cs == ReadPair(i)[..|cs|]
    ensures forall k :: 0 <= k < |cs| - 1 ==> Accepts(cs[k], ReplyAt(script, 2 * i + k))
    ensures ok <==> |cs| == 2 && Accepts(cs[1], ReplyAt(script, 2 * i + 1))
    ensures !ok ==> !Accepts(cs[|cs| - 1], ReplyAt(script, 2 * i + |cs| - 1))
    ensures ok ==> bytes == DataAt(script, i)
  {
    Uint32ToBytes(PageAddress(i), data);
    cs := [SetAddress(data[..4])];
    if !Is(ReplyAt(script, 2 * i), SET_ADDRESS_ACK) {
      return false, cs, [];
    }
    cs := cs + [Read(PAGE)];
    var response := ReplyAt(script, 2 * i + 1);
    if !Is(response, READ_ACK) {
      return false, cs, [];
    }
    return true, cs, response.bytes;
  }

  /** What a download has done: commands sent, events the client took, data received. */
  datatype Reading = Reading(sent: seq<Command>, events: seq<Event>, block: seq<byte>)

  /** Where a download stands after i pages. */
  ghost predicate StandsAt(i: nat, memlength: nat, script: seq<Reply>, patience: nat, t: Reading)
    requires 0 < memlength <= FLASH_APP_LENGTH && i <= PageCount(memlength)
  {
    var cs := DownloadTrace(PageCount(memlength));
    && t.sent == cs[..2 * i] && Reached(cs, script) >= 2 * i && t.block == Collected(script, i)
    && i <= patience && t.events == PageReports(i, memlength)
  }

  /** How a download that returns an error has gone. */
  ghost predicate BrokenOff(memlength: nat, script: seq<Reply>, patience: nat, t: Reading)
    requires 0 < memlength <= FLASH_APP_LENGTH
  {
    var n := PageCount(memlength);
    var cs := DownloadTrace(n);
    var m := Reached(cs, script);
    && !(m == |cs| && n + 3 <= patience)
    && t.sent == cs[..Sends(m, |cs|, 2 * (patience + 1))] && t.events == Taken(DownloadEvents(memlength, m), patience)
  }

  lemma ReadRefused(i: nat, memlength: nat, script: seq<Reply>, patience: nat, t: Reading, cs: seq<Command>)
    requires 0 < memlength <= FLASH_APP_LENGTH && i < PageCount(memlength) && 1 <= |cs| <= 2
    requires StandsAt(i, memlength, script, patience, t)
    requires GoesOn(DownloadTrace(PageCount(memlength)), script, 2 * i, cs)
    requires !Accepts(cs[|cs| - 1], ReplyAt(script, 2 * i + |cs| - 1))
    ensures BrokenOff(memlength, script, patience,
                      Reading(t.sent + cs, Emitted(t.events, patience, Event(FAILED, i * PAGE)), t.block))
  {
    RefusedDownloadEnds(memlength, Reached(DownloadTrace(PageCount(memlength)), script), patience, i);
  }

  lemma ReaderLeft(i: nat, memlength: nat, script: seq<Reply>, t: Reading, cs: seq<Command>, block: seq<byte>)
    requires 0 < memlength <= FLASH_APP_LENGTH && i < PageCount(memlength) && |cs| == 2
    requires StandsAt(i, memlength, script, i, t)
    requires GoesOn(DownloadTrace(PageCount(memlength)), script, 2 * i, cs)
    requires Accepts(cs[1], ReplyAt(script, 2 * i + 1))
    ensures BrokenOff(memlength, script, i, Reading(t.sent + cs, t.events, block))
  {
    LeftDownloadEnds(memlength, Reached(DownloadTrace(PageCount(memlength)), script), i);
  }

  lemma ReadDone(i: nat, memlength: nat, script: seq<Reply>, patience: nat, t: Reading, cs: seq<Command>)
    requires 0 < memlength <= FLASH_APP_LENGTH && i < PageCount(memlength) && |cs| == 2 && i < patience
    requires StandsAt(i, memlength, script, patience, t)
    requires GoesOn(DownloadTrace(PageCount(memlength)), script, 2 * i, cs)
    requires Accepts(cs[1], ReplyAt(script, 2 * i + 1))
    ensures var e := Event(Share((i + 1) * PAGE, memlength), (i + 1) * PAGE);
            StandsAt(i + 1, memlength, script, patience,
                     Reading(t.sent + cs, t.events + [e], t.block + DataAt(script, i)))
  {
    NextReport(i, memlength);
  }

  /** Lines 169-190: one page and its report. */
  method DownloadPage(i: nat, memlength: nat, script: seq<Reply>, patience: nat, data: array<byte>, t0: Reading)
      returns (ok: bool, t: Reading)
    requires 0 < memlength <= FLASH_APP_LENGTH && i < PageCount(memlength) && data.Length >= 4
    requires StandsAt(i, memlength, script, patience, t0)
    modifies data
    ensures ok ==> StandsAt(i + 1, memlength, script, patience, t)
    ensures !ok ==> BrokenOff(memlength, script, patience, t)
  {
    var cs, bytes;
    ok, cs, bytes := ReadPage(i, script, data);
    PairSent(PageCount(memlength), script, i, cs);
    if !ok {
      ReadRefused(i, memlength, script, patience, t0, cs);
      return false, Reading(t0.sent + cs, Emitted(t0.events, patience, Event(FAILED, i * PAGE)), t0.block);
    }
    t := Reading(t0.sent + cs, t0.events, t0.block + bytes);
    if |t.events| == patience {
      ReaderLeft(i, memlength, script, t0, cs, t.block);
      return false, t;
    }
    ReadDone(i, memlength, script, patience, t0, cs);
    t := t.(events := t.events + [Event(Share((i + 1) * PAGE, memlength), (i + 1) * PAGE)]);
  }

  /** downloadFirmware; the firmware event that ends it counts as one more event. */
  method DownloadFirmware(limit: uint32, script: seq<Reply>, patience: nat)
      returns (ok: bool, sent: seq<Command>, events: seq<Event>, block: seq<byte>)
    ensures var n := PageCount(MemLength(limit));
            var cs := DownloadTrace(n);
            var m := Reached(cs, script);
            && (ok <==> m == |cs| && n + 3 <= patience) && (ok ==> block == Collected(script, n))
            && sent == cs[..Sends(m, |cs|, 2 * (patience + 1))]
            && events == Taken(DownloadEvents(MemLength(limit), m), patience)
  {
    hide BrokenOff;
    var memlength := MemLength(limit);
    var n := PageCount(memlength);
    var data := new byte[8](_ => 0);
    var t := Reading([], [], []);
    for i := 0 to n
      invariant StandsAt(i, memlength, script, patience, t)
    {
      ok, t := DownloadPage(i, memlength, script, patience, data, t);
      if !ok {
        return false, t.sent, t.events, t.block;
      }
    }
    AllReadEnds(memlength, script, patience, t);
    hide StandsAt;
    hide DownloadTrace;
    hide DownloadEvents;
    hide Reached;
    events := Emitted(t.events, patience, Event(100, memlength));
    events := Emitted(events, patience, Event(SUCCESS, memlength));
    return |events| < patience, t.sent + [Leave], events, t.block;
  }

  lemma AllReadEnds(memlength: nat, script: seq<Reply>, patience: nat, t: Reading)
    requires 0 < memlength <= FLASH_APP_LENGTH && StandsAt(PageCount(memlength), memlength, script, patience, t)
    ensures var n := PageCount(memlength);
            var cs := DownloadTrace(n);
            && Reached(cs, script) == |cs| && t.sent + [Leave] == cs && t.block == Collected(script, n)
            && |t.events| == n <= patience
            && DownloadEvents(memlength, |cs|) == t.events + [Event(100, memlength), Event(SUCCESS, memlength)]
  {
    var n := PageCount(memlength);
    ReachedIs(DownloadTrace(n), script, 2 * n + 1);
  }

  /** A report of a download gives the whole percentage of the length that is read, while that is below 256. */
  lemma ShareIs(done: nat, memlength: nat)
    requires memlength > 0 && done * 100 < 256 * memlength
    ensures var p := Share(done, memlength); p * memlength <= 100 * done < (p + 1) * memlength
  {
    var q := QuotientIs(done * 100, memlength);
    QuotientBelow(done * 100, memlength, 256);
    assert Share(done, memlength) == q;
  }

  lemma EarlierShares(done: nat, memlength: nat)
    requires done < memlength
    ensures Share(done, memlength) < 100
  {
    QuotientBelow(done * 100, memlength, 100);
  }

  lemma WholePages(memlength: nat)
    ensures PageCount(memlength) * PAGE == memlength <==> memlength % PAGE == 0
  {
  }

  function LastReports(memlength: nat): seq<Event>
    requires 0 < memlength <= FLASH_APP_LENGTH
  {
    PageReports(PageCount(memlength), memlength) + [Event(100, memlength), Event(SUCCESS, memlength)]
  }

  lemma CountsRiseExactlyWhen(memlength: nat)
    requires 0 < memlength <= FLASH_APP_LENGTH
    ensures Rising(LastReports(memlength)) <==> PageCount(memlength) * PAGE == memlength
  {
    var n, events := PageCount(memlength), LastReports(memlength);
    assert events[n - 1].bytes == n * PAGE && events[n].bytes == memlength;
  }

  lemma PercentagesExactlyWhen(memlength: nat)
    requires 0 < memlength <= FLASH_APP_LENGTH
    ensures Percentages(PageReports(PageCount(memlength), memlength))
       <==> Share(PageCount(memlength) * PAGE, memlength) <= 100
  {
    var n := PageCount(memlength);
    var events := PageReports(n, memlength);
    assert events[n - 1].progress == Share(n * PAGE, memlength);
    forall i | 0 <= i < n - 1 ensures events[i].progress <= 100 {
      EarlierShares((i + 1) * PAGE, memlength);
    }
  }

  /** A download that is told to the end: byte counts never go back exactly when the length is whole pages, for the
      last report gives the length itself; reports are percentages exactly when that of the last page is one, as it
      is for whole pages. */
  lemma DownloadReportsExactlyWhen(memlength: nat)
    requires 0 < memlength <= FLASH_APP_LENGTH
    ensures var events := DownloadEvents(memlength, 2 * PageCount(memlength) + 1);
            && (Rising(events) <==> memlength % PAGE == 0)
            && (Concluded(events, true) <==> Share(PageCount(memlength) * PAGE, memlength) <= 100)
    ensures memlength % PAGE == 0 ==> Share(PageCount(memlength) * PAGE, memlength) == 100
  {
    hide Share;
    hide PageReports;
    var n := PageCount(memlength);
    WholePages(memlength);
    CountsRiseExactlyWhen(memlength);
    PercentagesExactlyWhen(memlength);
    var before := LastReports(memlength)[..n + 1];
    assert before == PageReports(n, memlength) + [Event(100, memlength)];
    assert Percentages(before) ==> Percentages(before[..n]);
    assert before[..n] == PageReports(n, memlength);
    WholeShare(memlength);
  }

  lemma WholeShare(memlength: nat)
    requires memlength > 0
    ensures Share(memlength, memlength) == 100
  {
    var q := memlength * 100 / memlength;
    assert memlength * 100 == q * memlength + memlength * 100 % memlength;
    assert (100 - q) * memlength == memlength * 100 % memlength < memlength;
    QuotientBelow(memlength * 100, memlength, 101);
    assert 100 - q >= 1 ==> (100 - q) * memlength >= memlength;
  }

  // ---------- A working bootloader ----------

  function Answer(crc: Crc, b: Boot, c: Command): Reply {
    match c
    case GetSignature => Message(true, GET_SIGNATURE_ACK, 0, DEVICE_SIGNATURE)
    case SetAddress(_) => Message(true, SET_ADDRESS_ACK, 0, [])
    case Erase => Message(true, ERASE_ACK, 0, [])
    case Write(param, data) =>
      Message(true, WRITE_ACK, if param == 0 || data == Bytes(crc(b.page), 4) then 0 else 0xFF, [])
    case Read(n) =>
      Message(true, READ_ACK, 0, if b.pointer + n <= FLASH_LENGTH then b.memory[b.pointer..b.pointer + n] else [])
    case Leave => Timeout
  }

  /** Its answers to a trace. */
  function Answers(crc: Crc, b: Boot, cs: seq<Command>): (rs: seq<Reply>)
    ensures |rs| == |cs|
    decreases cs
  {
    if cs == [] then [] else [Answer(crc, b, cs[0])] + Answers(crc, Obey(crc, b, cs[0]), cs[1..])
  }

  lemma {:induction false} ReplayNext(crc: Crc, b: Boot, cs: seq<Command>, k: nat)
    requires k < |cs|
    ensures Replay(crc, b, cs[..k + 1]) == Obey(crc, Replay(crc, b, cs[..k]), cs[k])
    decreases k
  {
    assert cs[..k + 1][0] == cs[0] && cs[..k + 1][1..] == cs[1..][..k];
    if k == 0 {
    } else {
      assert cs[..k][0] == cs[0] && cs[..k][1..] == cs[1..][..k - 1];
      ReplayNext(crc, Obey(crc, b, cs[0]), cs[1..], k - 1);
    }
  }

  lemma {:induction false} AnswerAt(crc: Crc, b: Boot, cs: seq<Command>, k: nat)
    requires k < |cs|
    ensures Answers(crc, b, cs)[k] == Answer(crc, Replay(crc, b, cs[..k]), cs[k])
    decreases k
  {
    if k == 0 {
    } else {
      assert cs[..k][0] == cs[0] && cs[..k][1..] == cs[1..][..k - 1];
      AnswerAt(crc, Obey(crc, b, cs[0]), cs[1..], k - 1);
    }
  }

  /** Whether a node that computes checksums its own way accepts page j of an upload. */
  lemma ChecksumIsJudged(crc: Crc, node: Crc, b: Boot, ps: seq<Page>, j: nat)
    requires j < |ps|
    ensures var cs, k := FlashTrace(crc, ps), 3 + 3 * j;
            var rs := Answers(node, b, cs);
            && Accepts(cs[k], rs[k]) && Accepts(cs[k + 1], rs[k + 1])
            && (Accepts(cs[k + 2], rs[k + 2]) <==> node(ps[j].data) == crc(ps[j].data))
  {
    FlashTraceIs(crc, ps, j);
    TripleIsJudged(crc, node, b, FlashTrace(crc, ps), 3 + 3 * j, ps[j]);
  }

  lemma TripleIsJudged(crc: Crc, node: Crc, b: Boot, cs: seq<Command>, k: nat, p: Page)
    requires k + 3 <= |cs| && cs[k..k + 3] == PageTrace(crc, p)
    ensures var rs := Answers(node, b, cs);
            && Accepts(cs[k], rs[k]) && Accepts(cs[k + 1], rs[k + 1])
            && (Accepts(cs[k + 2], rs[k + 2]) <==> node(p.data) == crc(p.data))
  {
    var three := cs[k..k + 3];
    assert cs[k] == three[0] && cs[k + 1] == three[1] && cs[k + 2] == three[2];
    AnswerAt(node, b, cs, k);
    AnswerAt(node, b, cs, k + 1);
    AnswerAt(node, b, cs, k + 2);
    ReplayNext(node, b, cs, k);
    ReplayNext(node, b, cs, k + 1);
    assert Replay(node, b, cs[..k + 2]).page == [] + p.data == p.data;
    FourBytesDiffer(node(p.data), crc(p.data));
  }

  lemma FourBytesDiffer(a: uint32, b: uint32)
    ensures Bytes(a, 4) == Bytes(b, 4) <==> a == b
  {
    FitsWidths(a);
    FitsWidths(b);
    NumberOfBytes(a, 4);
    NumberOfBytes(b, 4);
  }

  lemma OthersAreAccepted(crc: Crc, node: Crc, b: Boot, ps: seq<Page>, k: nat)
    requires k < 3 || k == 3 + 3 * |ps|
    ensures var cs := FlashTrace(crc, ps); Accepts(cs[k], Answers(node, b, cs)[k])
  {
    OpeningIs(crc, ps);
    var cs := FlashTrace(crc, ps);
    assert k < 3 ==> cs[k] == cs[..3][k];
    AnswerAt(node, b, cs, k);
  }

  /** Every page's checksum is what the node computes. */
  predicate Agree(crc: Crc, node: Crc, ps: seq<Page>) {
    forall j :: 0 <= j < |ps| ==> node(ps[j].data) == crc(ps[j].data)
  }

  /** A working bootloader accepts the whole of an upload if and only if, for every page, the checksum it computes is
      the one it is sent: with its answers, and a client that stays, uploading then succeeds. */
  lemma UploadAcceptedExactlyWhen(crc: Crc, node: Crc, b: Boot, ps: seq<Page>)
    ensures var cs := FlashTrace(crc, ps); Reached(cs, Answers(node, b, cs)) == |cs| <==> Agree(crc, node, ps)
  {
    hide FlashTrace;
    hide Answers;
    hide Accepts;
    var cs := FlashTrace(crc, ps);
    var rs := Answers(node, b, cs);
    if Agree(crc, node, ps) {
      forall k | 0 <= k < |cs| ensures Accepts(cs[k], ReplyAt(rs, k)) {
        if k < 3 || k == |cs| - 1 {
          OthersAreAccepted(crc, node, b, ps, k);
        } else {
          ChecksumIsJudged(crc, node, b, ps, (k - 3) / 3);
        }
      }
      ReachedIs(cs, rs, |cs|);
    } else {
      var j :| 0 <= j < |ps| && node(ps[j].data) != crc(ps[j].data);
      ChecksumIsJudged(crc, node, b, ps, j);
      assert ReplyAt(rs, 3 + 3 * j + 2) == rs[3 + 3 * j + 2];
    }
  }

  predicate OnlyReads(cs: seq<Command>) { forall k :: 0 <= k < |cs| ==> cs[k].SetAddress? || cs[k].Read? }

  lemma {:induction false} ReadingKeepsMemory(crc: Crc, b: Boot, cs: seq<Command>)
    requires OnlyReads(cs)
    ensures Replay(crc, b, cs).memory == b.memory
    decreases cs
  {
    if cs == [] {
    } else {
      ReadingKeepsMemory(crc, Obey(crc, b, cs[0]), cs[1..]);
    }
  }

  function MemoryPage(b: Boot, i: nat): seq<byte> {
    if i * PAGE < FLASH_APP_LENGTH then b.memory[PageAddress(i)..PageAddress(i) + PAGE] else []
  }

  lemma PairInTrace(n: nat, i: nat)
    requires Readable(n) && i < n
    ensures var cs := DownloadTrace(n);
            && cs[2 * i] == SetAddress(Bytes(PageAddress(i), 4)) && cs[2 * i + 1] == Read(PAGE)
            && OnlyReads(cs[..2 * i + 1])
  {
    ReadsAt(n, i);
    var pair := Reads(n)[2 * i..2 * i + 2];
    assert Reads(n)[2 * i] == pair[0] && Reads(n)[2 * i + 1] == pair[1];
  }

  lemma ReadAnswers(crc: Crc, b: Boot, n: nat, i: nat)
    requires Readable(n) && i < n
    ensures var cs := DownloadTrace(n);
            var rs := Answers(crc, b, cs);
            && Accepts(cs[2 * i], rs[2 * i]) && Accepts(cs[2 * i + 1], rs[2 * i + 1])
            && DataAt(rs, i) == MemoryPage(b, i)
  {
    var cs := DownloadTrace(n);
    PairInTrace(n, i);
    AnswerAt(crc, b, cs, 2 * i);
    AnswerAt(crc, b, cs, 2 * i + 1);
    PointerAtRead(crc, b, n, i);
    hide Replay;
    hide Answers;
    hide DownloadTrace;
  }

  /** When a page is read the address register points at it, and the memory is as it was. */
  lemma PointerAtRead(crc: Crc, b: Boot, n: nat, i: nat)
    requires Readable(n) && i < n
    ensures var at := Replay(crc, b, DownloadTrace(n)[..2 * i + 1]);
            at.pointer == PageAddress(i) && at.memory == b.memory
  {
    var cs := DownloadTrace(n);
    PairInTrace(n, i);
    ReplayNext(crc, b, cs, 2 * i);
    ReadingKeepsMemory(crc, b, cs[..2 * i + 1]);
    FitsWidths(PageAddress(i));
    NumberOfBytes(PageAddress(i), 4);
  }

  function Joined(f: nat -> seq<byte>, n: nat): seq<byte> {
    if n == 0 then [] else Joined(f, n - 1) + f(n - 1)
  }

  lemma {:induction false} CollectedIsJoined(rs: seq<Reply>, f: nat -> seq<byte>, n: nat)
    requires forall i: nat :: i < n ==> DataAt(rs, i) == f(i)
    ensures Collected(rs, n) == Joined(f, n)
  {
    if n == 0 {
    } else {
      CollectedIsJoined(rs, f, n - 1);
      assert DataAt(rs, n - 1) == f(n - 1);
    }
  }

  lemma {:induction false} PagesAreMemory(b: Boot, n: nat)
    requires Readable(n)
    ensures Joined(i => MemoryPage(b, i), n) == b.memory[FLASH_APP_ORIGIN..FLASH_APP_ORIGIN + n * PAGE]
  {
    if n == 0 {
    } else {
      PagesAreMemory(b, n - 1);
      assert MemoryPage(b, n - 1) == b.memory[PageAddress(n - 1)..PageAddress(n - 1) + PAGE];
      JoinSlices(b.memory, FLASH_APP_ORIGIN, FLASH_APP_ORIGIN + (n - 1) * PAGE, FLASH_APP_ORIGIN + n * PAGE);
    }
  }

  lemma JoinSlices<T>(s: seq<T>, i: nat, j: nat, k: nat)
    requires i <= j <= k <= |s|
    ensures s[i..j] + s[j..k] == s[i..k] && s[i..k][..j - i] == s[i..j]
  {
  }

  /** What a download collects from a working bootloader is its memory. */
  lemma DownloadReadsMemory(crc: Crc, b: Boot, n: nat)
    requires Readable(n)
    ensures var cs := DownloadTrace(n);
            var rs := Answers(crc, b, cs);
            Reached(cs, rs) == |cs| && Collected(rs, n) == b.memory[FLASH_APP_ORIGIN..FLASH_APP_ORIGIN + n * PAGE]
  {
    var cs := DownloadTrace(n);
    var rs := Answers(crc, b, cs);
    var f := (i: nat) => MemoryPage(b, i);
    DownloadIsAnswered(crc, b, n);
    hide DownloadTrace;
    hide Answers;
    forall i: nat | i < n ensures DataAt(rs, i) == f(i) {
      ReadAnswers(crc, b, n, i);
    }
    CollectedIsJoined(rs, f, n);
    PagesAreMemory(b, n);
  }

  lemma DownloadIsAnswered(crc: Crc, b: Boot, n: nat)
    requires Readable(n)
    ensures var cs := DownloadTrace(n); Reached(cs, Answers(crc, b, cs)) == |cs|
  {
    var cs := DownloadTrace(n);
    var rs := Answers(crc, b, cs);
    hide Answers;
    forall k | 0 <= k < |cs| ensures Accepts(cs[k], ReplyAt(rs, k)) {
      if k < 2 * n {
        ReadAnswers(crc, b, n, k / 2);
      }
    }
    ReachedIs(cs, rs, |cs|);
  }

  /** For every limit: the memory from the beginning of the application area on, in whole pages; all of the area for a
      limit of 0 or one that is greater than the area. */
  lemma DownloadReturns(crc: Crc, b: Boot, limit: uint32)
    ensures var n := PageCount(MemLength(limit));
            var rs := Answers(crc, b, DownloadTrace(n));
            && Reached(DownloadTrace(n), rs) == 2 * n + 1
            && Collected(rs, n) == b.memory[FLASH_APP_ORIGIN..FLASH_APP_ORIGIN + n * PAGE]
            && (limit == 0 || limit > FLASH_APP_LENGTH ==> n * PAGE == FLASH_APP_LENGTH)
            && (0 < limit <= FLASH_APP_LENGTH ==> limit <= n * PAGE < limit + PAGE)
  {
    DownloadReadsMemory(crc, b, PageCount(MemLength(limit)));
  }

  /** Upload, then download with the image's length as limit: a working bootloader answers every read, and what comes
      back is whole pages that start with the image. */
  lemma UploadThenDownload(crc: Crc, b: Boot, image: seq<byte>)
    requires 0 < |image| <= FLASH_APP_LENGTH
    ensures var n := PageCount(MemLength(|image|));
            var c := Replay(crc, b, UploadTrace(crc, [Block(FLASH_APP_ORIGIN, image)]));
            var rs := Answers(crc, c, DownloadTrace(n));
            && Reached(DownloadTrace(n), rs) == 2 * n + 1
            && image <= Collected(rs, n) && |Collected(rs, n)| == PAGE * PageCount(|image|)
  {
    var code := [Block(FLASH_APP_ORIGIN, image)];
    var c := Replay(crc, b, UploadTrace(crc, code));
    var n := PageCount(|image|);
    InFlashLandsWhole(code[0]);
    UploadWritesImage(crc, b, code);
    assert code[1..] == [];
    var erased := ErasedFrom(b.memory, FLASH_APP_ORIGIN);
    assert c.memory == OverlayAll(Overlay(erased, FLASH_APP_ORIGIN, image), []);
    assert c.memory[FLASH_APP_ORIGIN..FLASH_APP_ORIGIN + |image|] == image;
    DownloadReadsMemory(crc, c, n);
    JoinSlices(c.memory, FLASH_APP_ORIGIN, FLASH_APP_ORIGIN + |image|, FLASH_APP_ORIGIN + n * PAGE);
  }
}
