/**
  The numbered request protocol between EventConn (socket/client.go) and runClient (socket/server.go): one
  connection, both links FIFO, no request expires. Ids are uint16; 0 marks events that answer nothing.
 */
module Session {
  import opened Nocan

  const LAST_ID: MsgId := 0xFFFF
  /** The number of ids a request can carry. */
  const ROUND := 0xFFFF

  /** Which request a response callback belongs to. */
  type Callback = nat

  // ---------- The two ends ----------

  datatype Client = Client(msgId: MsgId, pending: map<MsgId, Callback>)

  function Incremented(id: MsgId): MsgId { if id == LAST_ID then 0 else id + 1 }
  function NonZero(id: MsgId): (r: MsgId) { if id == 0 then 1 else id }

  /** SendAsync on an open connection; `written` tells whether the link took the event. */
  function Sent(c: Client, cb: Callback, written: bool): Client {
    var id := NonZero(c.msgId);
    if written then Client(Incremented(id), c.pending[id := cb]) else Client(id, c.pending - {id})
  }

  datatype Reaction = Unsolicited | Answers(cb: Callback) | Unexpected

  /** processNextEvent, up to the callback. */
  function Processed(c: Client, id: MsgId): (Client, Reaction) {
    if id == 0 then (c, Unsolicited)
    else if id in c.pending then (c.(pending := c.pending - {id}), Answers(c.pending[id]))
    else (c, Unexpected)
  }

  /** runClient's check of an incoming id against LastMsgId: the new LastMsgId, and whether they match. */
  function Checked(last: MsgId, id: MsgId): (MsgId, bool) {
    if id == 0 then (last, true)
    else var next := NonZero(Incremented(last)); (next, next == id)
  }

  class EventConn {
    var MsgId: MsgId
    var pendingRequests: map<MsgId, Callback>
    var Connected: bool

    ghost function Value(): Client
      reads this
    {
      Client(MsgId, pendingRequests)
    }

    /** dial: the hello takes id 1 and is answered before anything else is sent. */
    constructor ()
      ensures Value() == Client(2, map[]) && Connected
    {
      MsgId, pendingRequests, Connected := 2, map[], true;
    }

    /** id is 0 when nothing was sent; the caller's callback has then been told so. */
    method SendAsync(cb: Callback, written: bool) returns (id: MsgId)
      modifies this
      ensures Connected == old(Connected)
      ensures Value() == if Connected then Sent(old(Value()), cb, written) else old(Value())
      ensures id == if Connected && written then NonZero(old(MsgId)) else 0
    {
      if !Connected {
        return 0;
      }
      if MsgId == 0 {
        MsgId := 1;
      }
      pendingRequests := pendingRequests[MsgId := cb];
      if !written {
        pendingRequests := pendingRequests - {MsgId};
        return 0;
      }
      id := MsgId;
      MsgId := Incremented(MsgId);
    }

    method ProcessNextEvent(id: MsgId) returns (r: Reaction)
      modifies this`pendingRequests
      ensures (Value(), r) == Processed(old(Value()), id)
    {
      if id == 0 {
        return Unsolicited;
      }
      if id !in pendingRequests {
        return Unexpected;
      }
      r := Answers(pendingRequests[id]);
      pendingRequests := pendingRequests - {id};
    }
  }

  class ClientDescriptor {
    var LastMsgId: MsgId

    constructor (hello: MsgId)
      ensures LastMsgId == hello
    {
      LastMsgId := hello;
    }

    method CheckMsgId(id: MsgId) returns (ok: bool)
      modifies this
      ensures (LastMsgId, ok) == Checked(old(LastMsgId), id)
    {
      if id != 0 {
        LastMsgId := Incremented(LastMsgId);
        if LastMsgId == 0 {
          LastMsgId := 1;
        }
        if LastMsgId != id {
          return false;
        }
      }
      return true;
    }
  }

  // ---------- The connection ----------

  /** up and down are the links; sent and fired list the callbacks of requests written and of answers processed;
      refused and surprised tell whether an end ever found an id it did not expect. */
  datatype World = World(client: Client, last: MsgId, up: seq<MsgId>, down: seq<MsgId>,
                         sent: seq<Callback>, fired: seq<Callback>, refused: bool, surprised: bool)

  /** The client sends, the server serves the next request with one ack, the server sends an event of its own, or
      the client processes the next event. */
  datatype Step = Send(cb: Callback, written: bool) | Serve | Notify | Process

  function Advance(w: World, step: Step): World {
    match step
    case Send(cb, written) =>
      var c := Sent(w.client, cb, written);
      if written then w.(client := c, up := w.up + [NonZero(w.client.msgId)], sent := w.sent + [cb])
      else w.(client := c)
    case Serve =>
      if w.up == [] then w
      else
        var (last, ok) := Checked(w.last, w.up[0]);
        w.(last := last, up := w.up[1..], down := w.down + [last], refused := w.refused || !ok)
    case Notify => w.(down := w.down + [0])
    case Process =>
      if w.down == [] then w
      else
        var (c, r) := Processed(w.client, w.down[0]);
        w.(client := c, down := w.down[1..], fired := if r.Answers? then w.fired + [r.cb] else w.fired,
           surprised := w.surprised || r.Unexpected?)
  }

  const CONNECTED := World(Client(2, map[]), 1, [], [], [], [], false, false)

  /** A request may be sent while fewer than 65535 await their answer. */
  predicate Legal(w: World, step: Step) { step.Send? ==> |w.client.pending| < ROUND }

  predicate LegalRun(w: World, steps: seq<Step>)
    decreases steps
  {
    steps == [] || (Legal(w, steps[0]) && LegalRun(Advance(w, steps[0]), steps[1..]))
  }

  function Run(w: World, steps: seq<Step>): World
    decreases steps
  {
    if steps == [] then w else Run(Advance(w, steps[0]), steps[1..])
  }

  // ---------- The invariant ----------

  /** The id of request number n, the hello being number 0. */
  function IdOf(n: nat): (id: MsgId)
    ensures id != 0
  {
    if n == 0 then 1 else NonZero(Incremented(IdOf(n - 1)))
  }

  function Ids(from: nat, end: nat): (r: seq<MsgId>)
    requires from <= end
    ensures |r| == end - from && forall k :: 0 <= k < |r| ==> r[k] == IdOf(from + k)
    decreases end - from
  {
    if from == end then [] else [IdOf(from)] + Ids(from + 1, end)
  }

  lemma {:induction false} IdsExtend(from: nat, end: nat)
    requires from <= end
    ensures Ids(from, end + 1) == Ids(from, end) + [IdOf(end)]
    decreases end - from
  {
    hide IdOf;
    if from >= end {
      assert Ids(end, end + 1) == [IdOf(end)] + Ids(end + 1, end + 1);
    } else {
      IdsExtend(from + 1, end);
    }
  }

  /** The ids of the acks on a link, without the events that answer nothing. */
  function Acks(down: seq<MsgId>): seq<MsgId> {
    if down == [] then [] else (if down[0] == 0 then [] else [down[0]]) + Acks(down[1..])
  }

  /** The number of the next request, of the next one to serve and of the next one to answer. */
  function Written(w: World): nat { |w.sent| + 1 }
  function Served(w: World): int { Written(w) - |w.up| }
  function Answered(w: World): nat { |w.fired| + 1 }

  /** Requests before number Answered are done with, those before Served have their ack under way, those before
      Written wait for the server: three stretches of one cyclic run of ids. */
  ghost predicate Numbered(w: World) {
    && Answered(w) <= Served(w) && Written(w) - Answered(w) <= ROUND
    && NonZero(w.client.msgId) == IdOf(Written(w)) && w.last == IdOf(Served(w) - 1)
    && w.up == Ids(Served(w), Written(w)) && Acks(w.down) == Ids(Answered(w), Served(w))
  }

  ghost predicate Inv(w: World) {
    && Numbered(w) && Matches(w.client.pending, Answered(w), w.sent)
    && w.fired <= w.sent && !w.refused && !w.surprised
  }

  /** Exactly the requests from number `answered` on are pending, each with its own callback. */
  ghost predicate Matches(pending: map<MsgId, Callback>, answered: nat, sent: seq<Callback>) {
    && 1 <= answered <= |sent| + 1
    && (forall n :: answered <= n <= |sent| ==> IdOf(n) in pending && pending[IdOf(n)] == sent[n - 1])
    && (forall id :: id in pending ==> exists n :: answered <= n <= |sent| && IdOf(n) == id)
  }

  lemma {:induction false} IdsCycle(n: nat)
    ensures IdOf(n) == n % ROUND + 1
  {
    if n == 0 {
    } else {
      IdsCycle(n - 1);
      var q, r := (n - 1) / ROUND, (n - 1) % ROUND;
      assert n == if r == ROUND - 1 then (q + 1) * ROUND else q * ROUND + (r + 1);
    }
  }

  lemma IdsAreDistinct(m: nat, n: nat)
    requires m < n && IdOf(m) == IdOf(n)
    ensures n - m >= ROUND
  {
    IdsCycle(m);
    IdsCycle(n);
  }

  lemma IdComesRound(n: nat)
    ensures IdOf(n + ROUND) == IdOf(n)
  {
    IdsCycle(n);
    IdsCycle(n + ROUND);
    assert n + ROUND == (n / ROUND + 1) * ROUND + n % ROUND;
  }

  lemma {:induction false} PendingCount(pending: map<MsgId, Callback>, answered: nat, sent: seq<Callback>)
    requires Matches(pending, answered, sent) && |sent| + 1 - answered <= ROUND
    ensures |pending| == |sent| + 1 - answered
    decreases |sent| - answered
  {
    if answered == |sent| + 1 {
      assert pending == map[];
    } else {
      PendingShrinks(pending, answered, sent);
      PendingCount(pending - {IdOf(answered)}, answered + 1, sent);
      assert |pending.Keys - {IdOf(answered)}| == |pending.Keys| - 1;
      assert (pending - {IdOf(answered)}).Keys == pending.Keys - {IdOf(answered)};
    }
  }

  lemma PendingShrinks(pending: map<MsgId, Callback>, answered: nat, sent: seq<Callback>)
    requires Matches(pending, answered, sent) && answered <= |sent| && |sent| + 1 - answered <= ROUND
    ensures Matches(pending - {IdOf(answered)}, answered + 1, sent)
  {
    var rest := pending - {IdOf(answered)};
    forall n | answered + 1 <= n <= |sent| ensures IdOf(n) in rest && rest[IdOf(n)] == sent[n - 1] {
      if IdOf(n) == IdOf(answered) {
        IdsAreDistinct(answered, n);
      }
    }
    forall id | id in rest ensures exists n :: answered + 1 <= n <= |sent| && IdOf(n) == id {
      var n :| answered <= n <= |sent| && IdOf(n) == id;
    }
  }

  lemma PendingGrows(pending: map<MsgId, Callback>, answered: nat, sent: seq<Callback>, cb: Callback)
    requires Matches(pending, answered, sent) && |sent| + 1 - answered < ROUND
    ensures IdOf(|sent| + 1) !in pending
    ensures Matches(pending[IdOf(|sent| + 1) := cb], answered, sent + [cb])
  {
    var id := IdOf(|sent| + 1);
    if id in pending {
      var n :| answered <= n <= |sent| && IdOf(n) == id;
      IdsAreDistinct(n, |sent| + 1);
    }
    var more, all := pending[id := cb], sent + [cb];
    forall n | answered <= n <= |all| ensures IdOf(n) in more && more[IdOf(n)] == all[n - 1] {
      if n <= |sent| {
        assert all[n - 1] == sent[n - 1];
      }
    }
    forall i | i in more ensures exists n :: answered <= n <= |all| && IdOf(n) == i {
      if i == id {
        assert IdOf(|all|) == i;
      } else {
        var n :| answered <= n <= |sent| && IdOf(n) == i;
      }
    }
  }

  lemma {:induction false} AcksJoin(a: seq<MsgId>, id: MsgId)
    ensures Acks(a + [id]) == Acks(a) + (if id == 0 then [] else [id])
  {
    if a == [] {
      assert a + [id] == [id] && [id][1..] == [];
    } else {
      assert (a + [id])[0] == a[0] && (a + [id])[1..] == a[1..] + [id];
      AcksJoin(a[1..], id);
    }
  }

  // ---------- Steps keep the invariant ----------

  lemma SendKeepsNumbers(w: World, cb: Callback)
    requires Numbered(w) && Written(w) - Answered(w) < ROUND
    ensures Numbered(Advance(w, Send(cb, true)))
  {
    IdsExtend(Served(w), Written(w));
  }

  lemma SendKeeps(w: World, cb: Callback)
    requires Inv(w) && |w.client.pending| < ROUND
    ensures Inv(Advance(w, Send(cb, true)))
  {
    PendingCount(w.client.pending, Answered(w), w.sent);
    SendKeepsNumbers(w, cb);
    SendKeepsMatches(w, cb);
  }

  lemma SendKeepsMatches(w: World, cb: Callback)
    requires Inv(w) && Written(w) - Answered(w) < ROUND
    ensures var v := Advance(w, Send(cb, true));
            Matches(v.client.pending, Answered(v), v.sent) && v.fired <= v.sent && !v.refused && !v.surprised
  {
    PendingGrows(w.client.pending, Answered(w), w.sent, cb);
  }

  /** A send that fails only moves the counter on from 0. */
  function Nudged(w: World): World { w.(client := Client(NonZero(w.client.msgId), w.client.pending)) }

  lemma FailedSendNudges(w: World, cb: Callback)
    requires NonZero(w.client.msgId) !in w.client.pending
    ensures Advance(w, Send(cb, false)) == Nudged(w)
  {
    assert w.client.pending - {NonZero(w.client.msgId)} == w.client.pending;
  }

  lemma NudgedKeeps(w: World)
    requires Inv(w)
    ensures Inv(Nudged(w))
  {
    assert Numbered(Nudged(w));
  }

  lemma FailedSendKeeps(w: World, cb: Callback)
    requires Inv(w) && |w.client.pending| < ROUND
    ensures Inv(Advance(w, Send(cb, false)))
  {
    NextIdIsFreshExactlyWhen(w);
    FailedSendNudges(w, cb);
    NudgedKeeps(w);
  }

  lemma ServeKeepsNumbers(w: World)
    requires Numbered(w) && w.up != []
    ensures var v := Advance(w, Serve); Numbered(v) && v.refused == w.refused
  {
    AcksJoin(w.down, IdOf(Served(w)));
    IdsExtend(Answered(w), Served(w));
  }

  lemma ServeKeeps(w: World)
    requires Inv(w)
    ensures Inv(Advance(w, Serve))
  {
    if w.up != [] {
      ServeKeepsNumbers(w);
    }
  }

  lemma NotifyKeeps(w: World)
    requires Inv(w)
    ensures Inv(Advance(w, Notify))
  {
    AcksJoin(w.down, 0);
  }

  lemma NextAck(w: World)
    requires Numbered(w) && w.down != [] && w.down[0] != 0
    ensures Answered(w) < Served(w) && w.down[0] == IdOf(Answered(w))
    ensures Acks(w.down[1..]) == Ids(Answered(w) + 1, Served(w))
  {
    assert Acks(w.down) == [w.down[0]] + Acks(w.down[1..]);
    assert Ids(Answered(w), Served(w))[1..] == Acks(w.down[1..]);
  }

  /** The world after the oldest outstanding request has been answered. */
  function OneAnswered(w: World): World
    requires w.down != [] && |w.fired| < |w.sent|
  {
    w.(client := w.client.(pending := w.client.pending - {IdOf(Answered(w))}),
       down := w.down[1..], fired := w.fired + [w.sent[|w.fired|]])
  }

  lemma NextAckAnswersOldest(w: World)
    requires Inv(w) && w.down != [] && w.down[0] != 0
    ensures |w.fired| < |w.sent| && Advance(w, Process) == OneAnswered(w)
  {
    NextAck(w);
  }

  lemma OneAnsweredKeepsNumbers(w: World)
    requires Numbered(w) && w.down != [] && w.down[0] != 0 && |w.fired| < |w.sent|
    ensures Numbered(OneAnswered(w))
  {
    NextAck(w);
  }

  lemma OneAnsweredKeeps(w: World)
    requires Inv(w) && w.down != [] && w.down[0] != 0 && |w.fired| < |w.sent|
    ensures Inv(OneAnswered(w))
  {
    var v := OneAnswered(w);
    OneAnsweredKeepsNumbers(w);
    PendingShrinks(w.client.pending, Answered(w), w.sent);
    assert Answered(v) == Answered(w) + 1;
    assert v.fired == w.sent[..|v.fired|];
  }

  lemma ProcessKeeps(w: World)
    requires Inv(w)
    ensures Inv(Advance(w, Process))
  {
    if w.down != [] && w.down[0] != 0 {
      NextAckAnswersOldest(w);
      OneAnsweredKeeps(w);
    }
  }

  lemma StepKeeps(w: World, step: Step)
    requires Inv(w) && Legal(w, step)
    ensures Inv(Advance(w, step))
  {
    match step {
      case Send(cb, true) => SendKeeps(w, cb);
      case Send(cb, false) => FailedSendKeeps(w, cb);
      case Serve => ServeKeeps(w);
      case Notify => NotifyKeeps(w);
      case Process => ProcessKeeps(w);
    }
  }

  /** For every run, of any length and past any number of id wraps: the server refuses nothing, every ack finds its
      request, and the callbacks fire in the order of the requests, each once. */
  lemma {:induction false} RunsAgree(w: World, steps: seq<Step>)
    requires Inv(w) && LegalRun(w, steps)
    ensures var v := Run(w, steps); Inv(v) && !v.refused && !v.surprised && v.fired <= v.sent
    decreases steps
  {
    if steps == [] {
    } else {
      StepKeeps(w, steps[0]);
      RunsAgree(Advance(w, steps[0]), steps[1..]);
    }
  }

  lemma ConnectionStartsSound()
    ensures Inv(CONNECTED)
  {
    assert Ids(1, 1) == [];
  }

  lemma IdsContain(start: nat, end: nat, n: nat)
    requires start <= n < end
    ensures IdOf(n) in Ids(start, end)
  {
    assert Ids(start, end)[n - start] == IdOf(n);
  }

  lemma PendingContains(w: World, start: nat, end: nat, id: MsgId)
    requires Inv(w) && Answered(w) <= start <= end <= Written(w) && id in Ids(start, end)
    ensures id in w.client.pending
  {
    var k :| 0 <= k < end - start && Ids(start, end)[k] == id;
    assert IdOf(start + k) in w.client.pending;
  }

  /** The pending ids are exactly those of requests and of acks under way, and never 0. */
  lemma PendingIsUnderWay(w: World, id: MsgId)
    requires Inv(w)
    ensures id in w.client.pending <==> id in Acks(w.down) || id in w.up
    ensures id in w.client.pending ==> id != 0
    ensures |w.client.pending| == |Acks(w.down)| + |w.up|
  {
    PendingCount(w.client.pending, Answered(w), w.sent);
    if id in w.client.pending {
      var n :| Answered(w) <= n <= |w.sent| && IdOf(n) == id;
      if n < Served(w) {
        IdsContain(Answered(w), Served(w), n);
      } else {
        IdsContain(Served(w), Written(w), n);
      }
    } else if id in Acks(w.down) {
      PendingContains(w, Answered(w), Served(w), id);
    } else if id in w.up {
      PendingContains(w, Served(w), Written(w), id);
    }
  }

  /** The next id is unused if and only if fewer than 65535 requests are pending. */
  lemma NextIdIsFreshExactlyWhen(w: World)
    requires Inv(w)
    ensures NonZero(w.client.msgId) !in w.client.pending <==> |w.client.pending| < ROUND
  {
    var answered := Answered(w);
    PendingCount(w.client.pending, answered, w.sent);
    if |w.client.pending| < ROUND {
      PendingGrows(w.client.pending, answered, w.sent, 0);
    } else {
      IdComesRound(answered);
    }
  }

  /** With 65535 requests pending, one more takes the place of the oldest: the answer to the oldest will be given
      to the newcomer. */
  lemma OneTooManyTakesOver(w: World, cb: Callback)
    requires Inv(w) && |w.client.pending| == ROUND
    ensures var id := IdOf(|w.fired| + 1);
            && w.client.pending[id] == w.sent[|w.fired|]
            && Processed(Sent(w.client, cb, true), id).1 == Answers(cb)
  {
    var answered := Answered(w);
    PendingCount(w.client.pending, answered, w.sent);
    IdComesRound(answered);
  }

  /** From any last id exactly one other passes the server's check, the next of 1..65535 in a circle, and it becomes the
      last; id 0 always passes and changes nothing. */
  lemma OneIdPasses(last: MsgId, id: MsgId)
    ensures Checked(last, 0) == (last, true)
    ensures id != 0 ==> (Checked(last, id).1 <==> id == last % ROUND + 1)
    ensures Checked(last, id).1 && id != 0 ==> Checked(last, id).0 == id
  {
  }

  // ---------- Every request is answered ----------

  function Times(n: nat, step: Step): (steps: seq<Step>)
    ensures |steps| == n
  {
    if n == 0 then [] else [step] + Times(n - 1, step)
  }

  /** The server serves all that is on the link. */
  lemma {:induction false} AllIsServed(w: World)
    requires Inv(w)
    ensures var v := Run(w, Times(|w.up|, Serve));
            && Inv(v) && v.up == [] && |v.down| == |w.down| + |w.up|
            && v.sent == w.sent && v.fired == w.fired && v.client == w.client
    decreases |w.up|
  {
    hide Inv;
    if w.up == [] {
    } else {
      var v := Advance(w, Serve);
      ServeKeeps(w);
      AllIsServed(v);
      assert Times(|w.up|, Serve)[1..] == Times(|v.up|, Serve);
    }
  }

  lemma ProcessTakesOne(w: World)
    requires w.down != []
    ensures var v := Advance(w, Process); v.down == w.down[1..] && v.up == w.up && v.sent == w.sent
  {
  }

  /** The client processes all that is on the link. */
  lemma {:induction false} AllIsProcessed(w: World)
    requires Inv(w) && w.up == []
    ensures var v := Run(w, Times(|w.down|, Process));
            Inv(v) && v.up == v.down == [] && v.sent == w.sent
    decreases |w.down|
  {
    hide Inv;
    if w.down == [] {
    } else {
      var v := Advance(w, Process);
      ProcessKeeps(w);
      ProcessTakesOne(w);
      hide Advance;
      AllIsProcessed(v);
      assert Times(|w.down|, Process)[1..] == Times(|v.down|, Process);
    }
  }

  lemma {:induction false} RunsJoin(w: World, first: seq<Step>, more: seq<Step>)
    ensures Run(w, first + more) == Run(Run(w, first), more)
    decreases first
  {
    if first == [] {
      assert first + more == more;
    } else {
      assert (first + more)[0] == first[0] && (first + more)[1..] == first[1..] + more;
      RunsJoin(Advance(w, first[0]), first[1..], more);
    }
  }

  /** Whenever both ends do their work, every request that was sent is answered, each by its own callback, in order; and
      nothing is pending any more. */
  lemma EveryRequestIsAnswered(w: World)
    requires Inv(w)
    ensures var v := Run(w, Times(|w.up|, Serve) + Times(|w.down| + |w.up|, Process));
            v.fired == w.sent && v.client.pending == map[] && !v.refused && !v.surprised
  {
    hide Run;
    hide Times;
    AllIsServed(w);
    var mid := Run(w, Times(|w.up|, Serve));
    AllIsProcessed(mid);
    var v := Run(mid, Times(|mid.down|, Process));
    RunsJoin(w, Times(|w.up|, Serve), Times(|mid.down|, Process));
    assert !v.refused && !v.surprised;
    hide Inv;
    QuietIsAnswered(v);
  }

  lemma QuietIsAnswered(w: World)
    requires Inv(w) && w.up == w.down == []
    ensures w.fired == w.sent && w.client.pending == map[]
  {
    PendingCount(w.client.pending, Answered(w), w.sent);
  }
}
