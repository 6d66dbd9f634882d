/**
  The master goroutine and the goroutines it starts, one per registered node (handleMasterNode and handleBusNode,
  controllers/network_controller.go:203-265), as a state machine over every interleaving of their steps.

  Channels are numbers, 0 being nil; a signal channel is unbuffered, so sending on it is one step of two parties.
 */
module NodeHandlers {
  import opened Nocan

  type Chan = nat

  /** nodeContexts[n] as the goroutines use it. */
  datatype Context = Context(running: bool, queue: Chan, signal: Chan)

  /** handleMasterNode: waiting for a request; blocked on the signal channel it read; then about to run line 229,
      230, 231 or 232. */
  datatype Master = Waiting | Signalling(node: nat, signal: Chan)
                  | AtRunning(node: nat) | AtQueue(node: nat) | AtSignal(node: nat) | AtSpawn(node: nat)

  /** handleBusNode: not started; started with its queue read (244), then its signal (245); in its loop, at the
      select or busy with a message; terminated and about to close its queue; gone. */
  datatype Phase = Spawned | HasQueue(queue: Chan) | Selecting(queue: Chan, signal: Chan)
                 | Busy(queue: Chan, signal: Chan) | Closing(queue: Chan) | Gone(queue: Chan)

  datatype Handler = Handler(node: nat, phase: Phase)

  datatype World = World(contexts: seq<Context>, master: Master, handlers: seq<Handler>, next: Chan)

  datatype Action = Request(node: nat) | Meet(h: nat) | MasterGoes
                  | HandlerGoes(h: nat) | Take(h: nat) | Finish(h: nat)

  predicate Enabled(w: World, a: Action)
    requires |w.contexts| == NODE_COUNT
  {
    match a
    case Request(n) => w.master.Waiting? && 1 <= n < NODE_COUNT
    case Meet(h) => w.master.Signalling? && w.master.node < NODE_COUNT && h < |w.handlers|
                    && w.handlers[h].phase.Selecting? && w.handlers[h].phase.signal == w.master.signal
    case MasterGoes => !w.master.Waiting? && !w.master.Signalling? && w.master.node < NODE_COUNT
    case HandlerGoes(h) =>
      h < |w.handlers| && w.handlers[h].node < NODE_COUNT
      && (w.handlers[h].phase.Spawned? || w.handlers[h].phase.HasQueue? || w.handlers[h].phase.Closing?)
    case Take(h) => h < |w.handlers| && w.handlers[h].phase.Selecting?
    case Finish(h) => h < |w.handlers| && w.handlers[h].phase.Busy?
  }

  function WithPhase(w: World, h: nat, p: Phase): World
    requires h < |w.handlers|
  {
    w.(handlers := w.handlers[h := w.handlers[h].(phase := p)])
  }

  function Next(w: World, a: Action): (v: World)
    requires |w.contexts| == NODE_COUNT && Enabled(w, a)
    ensures |v.contexts| == NODE_COUNT
  {
    match a
    case Request(n) =>
      w.(master := if w.contexts[n].running then Signalling(n, w.contexts[n].signal) else AtRunning(n))
    case Meet(h) => WithPhase(w, h, Closing(w.handlers[h].phase.queue)).(master := AtRunning(w.master.node))
    case MasterGoes =>
      var n := w.master.node;
      var c := w.contexts[n];
      (match w.master
       case AtRunning(_) => w.(contexts := w.contexts[n := c.(running := true)], master := AtQueue(n))
       case AtQueue(_) =>
         w.(contexts := w.contexts[n := c.(queue := w.next)], next := w.next + 1, master := AtSignal(n))
       case AtSignal(_) =>
         w.(contexts := w.contexts[n := c.(signal := w.next)], next := w.next + 1, master := AtSpawn(n))
       case AtSpawn(_) => w.(handlers := w.handlers + [Handler(n, Spawned)], master := Waiting))
    case HandlerGoes(h) =>
      var c := w.contexts[w.handlers[h].node];
      (match w.handlers[h].phase
       case Spawned => WithPhase(w, h, HasQueue(c.queue))
       case HasQueue(q) => WithPhase(w, h, Selecting(q, c.signal))
       case Closing(q) => WithPhase(w, h, Gone(q)))
    case Take(h) => WithPhase(w, h, Busy(w.handlers[h].phase.queue, w.handlers[h].phase.signal))
    case Finish(h) => WithPhase(w, h, Selecting(w.handlers[h].phase.queue, w.handlers[h].phase.signal))
  }

  // ---------- The invariant ----------

  /** Not yet told to terminate. */
  predicate Live(h: Handler) { !h.phase.Closing? && !h.phase.Gone? }
  predicate Replacing(m: Master, n: nat) { !m.Waiting? && !m.Signalling? && m.node == n }
  /** The master is past line 230 for node n: its new queue has no handler yet. */
  predicate Renewed(m: Master, n: nat) { (m.AtSignal? || m.AtSpawn?) && m.node == n }

  /** owner[n] is the live handler of node n, if there is one. */
  ghost predicate Owners(w: World, owner: seq<Option<nat>>) {
    && |owner| == |w.contexts| == NODE_COUNT
    && (forall n :: 0 <= n < NODE_COUNT && owner[n].Some? ==>
          owner[n].value < |w.handlers| && w.handlers[owner[n].value].node == n && Live(w.handlers[owner[n].value]))
    && (forall h :: 0 <= h < |w.handlers| ==> 1 <= w.handlers[h].node < NODE_COUNT)
    && (forall h :: 0 <= h < |w.handlers| && Live(w.handlers[h]) ==> owner[w.handlers[h].node] == Some(h))
  }

  /** A node is marked running exactly when it has a live handler, except while the master is replacing it. */
  ghost predicate MasterFits(w: World, owner: seq<Option<nat>>)
    requires |owner| == |w.contexts| == NODE_COUNT
  {
    && (!w.master.Waiting? ==> 1 <= w.master.node < NODE_COUNT)
    && (w.master.AtQueue? || w.master.AtSignal? || w.master.AtSpawn? ==> w.contexts[w.master.node].running)
    && (forall n :: 1 <= n < NODE_COUNT ==> (owner[n].Some? <==> w.contexts[n].running && !Replacing(w.master, n)))
    && (w.master.Signalling? ==> owner[w.master.node].Some? && w.master.signal == w.contexts[w.master.node].signal)
  }

  /** What a live handler holds is what the context of its node holds. */
  ghost predicate Captured(w: World)
    requires |w.contexts| == NODE_COUNT
  {
    forall h :: 0 <= h < |w.handlers| && Live(w.handlers[h]) && w.handlers[h].node < NODE_COUNT ==>
      var c, p := w.contexts[w.handlers[h].node], w.handlers[h].phase;
      && (!p.Spawned? ==> p.queue == c.queue)
      && (p.Selecting? || p.Busy? ==> p.signal == c.signal)
  }

  /** Channels in use are all different and older than next. */
  ghost predicate ChannelsApart(w: World) {
    && 1 <= w.next
    && (forall n :: 0 <= n < |w.contexts| ==> w.contexts[n].queue < w.next && w.contexts[n].signal < w.next)
    && (forall m, n :: 0 <= m < n < |w.contexts| ==>
          && (w.contexts[m].queue == w.contexts[n].queue ==> w.contexts[m].queue == 0)
          && (w.contexts[m].signal == w.contexts[n].signal ==> w.contexts[m].signal == 0))
    && (forall n :: 0 <= n < |w.contexts| && InUse(w, n) ==> w.contexts[n].queue != 0)
    && (forall n :: 0 <= n < |w.contexts| && InUse(w, n) && w.master != AtSignal(n) ==> w.contexts[n].signal != 0)
  }

  /** The queue of a terminated handler is its own, and in no context that is in use. */
  ghost predicate QueuesApart(w: World) {
    && (forall h :: 0 <= h < |w.handlers| && !Live(w.handlers[h]) ==> 0 < w.handlers[h].phase.queue < w.next)
    && (forall g, h :: 0 <= g < h < |w.handlers| && !Live(w.handlers[g]) && !Live(w.handlers[h]) ==>
          w.handlers[g].phase.queue != w.handlers[h].phase.queue)
    && (forall h, n :: 0 <= h < |w.handlers| && 0 <= n < |w.contexts| && !Live(w.handlers[h]) && InUse(w, n) ==>
          w.handlers[h].phase.queue != w.contexts[n].queue)
  }

  predicate InUse(w: World, n: nat)
    requires n < |w.contexts|
  {
    (w.contexts[n].running && !Replacing(w.master, n)) || Renewed(w.master, n)
  }

  ghost predicate Inv(w: World, owner: seq<Option<nat>>) {
    Owners(w, owner) && MasterFits(w, owner) && Captured(w) && ChannelsApart(w) && QueuesApart(w)
  }

  const START := World(seq(NODE_COUNT, _ => Context(false, 0, 0)), Waiting, [], 1)

  lemma StartIsSound()
    ensures Inv(START, seq(NODE_COUNT, _ => None))
  {
  }

  // ---------- Steps keep it ----------

  /** The live handler map after a step. */
  function OwnersAfter(w: World, a: Action, owner: seq<Option<nat>>): seq<Option<nat>>
    requires |owner| == |w.contexts| == NODE_COUNT && Enabled(w, a)
  {
    if a.Meet? then owner[w.master.node := None]
    else if a.MasterGoes? && w.master.AtSpawn? then owner[w.master.node := Some(|w.handlers|)]
    else owner
  }

  /** Whoever answers the master's signal is the live handler of the node it was sent to. */
  lemma SignalReachesItsNode(w: World, owner: seq<Option<nat>>, h: nat)
    requires Inv(w, owner) && Enabled(w, Meet(h))
    ensures w.handlers[h].node == w.master.node && owner[w.master.node] == Some(h)
  {
    var m := w.handlers[h].node;
    assert w.contexts[m].signal == w.contexts[w.master.node].signal;
  }

  lemma OwnersAfterMeet(w: World, owner: seq<Option<nat>>, h: nat)
    requires Inv(w, owner) && Enabled(w, Meet(h))
    ensures Owners(Next(w, Meet(h)), OwnersAfter(w, Meet(h), owner))
  {
    SignalReachesItsNode(w, owner, h);
  }

  lemma OwnersAfterSpawn(w: World, owner: seq<Option<nat>>)
    requires Inv(w, owner) && Enabled(w, MasterGoes) && w.master.AtSpawn?
    ensures Owners(Next(w, MasterGoes), OwnersAfter(w, MasterGoes, owner))
  {
    assert owner[w.master.node].None?;
  }

  lemma OwnersKeep(w: World, owner: seq<Option<nat>>, a: Action)
    requires Inv(w, owner) && Enabled(w, a)
    ensures Owners(Next(w, a), OwnersAfter(w, a, owner))
  {
    if a.Meet? {
      OwnersAfterMeet(w, owner, a.h);
    } else if a.MasterGoes? && w.master.AtSpawn? {
      OwnersAfterSpawn(w, owner);
    } else {
      OthersKeepLiveness(w, a);
    }
  }

  lemma OthersKeepLiveness(w: World, a: Action)
    requires |w.contexts| == NODE_COUNT && Enabled(w, a) && !a.Meet? && !(a.MasterGoes? && w.master.AtSpawn?)
    ensures var v := Next(w, a);
            && |v.contexts| == |w.contexts| && |v.handlers| == |w.handlers|
            && forall h :: 0 <= h < |w.handlers| ==>
                 v.handlers[h].node == w.handlers[h].node && Live(v.handlers[h]) == Live(w.handlers[h])
  {
  }

  lemma MasterFitsKeeps(w: World, owner: seq<Option<nat>>, a: Action)
    requires Inv(w, owner) && Enabled(w, a)
    ensures MasterFits(Next(w, a), OwnersAfter(w, a, owner))
  {
  }

  lemma CapturedKeeps(w: World, owner: seq<Option<nat>>, a: Action)
    requires Inv(w, owner) && Enabled(w, a)
    ensures Captured(Next(w, a))
  {
    hide QueuesApart;
  }

  lemma ChannelsKeepApart(w: World, owner: seq<Option<nat>>, a: Action)
    requires Inv(w, owner) && Enabled(w, a)
    ensures ChannelsApart(Next(w, a))
  {
    if a.MasterGoes? {
      RenewalKeepsApart(w, owner);
    }
  }

  lemma RenewalKeepsApart(w: World, owner: seq<Option<nat>>)
    requires Inv(w, owner) && Enabled(w, MasterGoes)
    ensures ChannelsApart(Next(w, MasterGoes))
  {
    var v := Next(w, MasterGoes);
    forall n | 0 <= n < |v.contexts| && InUse(v, n)
      ensures v.contexts[n].queue != 0 && (v.master != AtSignal(n) ==> v.contexts[n].signal != 0)
    {
      assert n != w.master.node ==> InUse(w, n);
    }
  }

  lemma QueuesAfterMeet(w: World, owner: seq<Option<nat>>, h: nat)
    requires Inv(w, owner) && Enabled(w, Meet(h))
    ensures QueuesApart(Next(w, Meet(h)))
  {
    SignalReachesItsNode(w, owner, h);
    assert InUse(w, w.master.node) && w.handlers[h].phase.queue == w.contexts[w.master.node].queue;
    var v := Next(w, Meet(h));
    forall n | 0 <= n < |v.contexts| && InUse(v, n) ensures InUse(w, n) && n != w.master.node {
    }
  }

  lemma NoNewUse(w: World, owner: seq<Option<nat>>, a: Action)
    requires Inv(w, owner) && Enabled(w, a) && !a.Meet?
    ensures var v := Next(w, a);
            && |v.contexts| == |w.contexts|
            && forall n :: 0 <= n < |v.contexts| && InUse(v, n) ==>
                 v.contexts[n].queue == w.next || (InUse(w, n) && v.contexts[n].queue == w.contexts[n].queue)
  {
  }

  lemma NoNewRetired(w: World, a: Action)
    requires |w.contexts| == NODE_COUNT && Enabled(w, a) && !a.Meet?
    ensures var v := Next(w, a);
            && v.next >= w.next
            && forall h :: 0 <= h < |v.handlers| && !Live(v.handlers[h]) ==>
                 h < |w.handlers| && !Live(w.handlers[h]) && v.handlers[h].phase.queue == w.handlers[h].phase.queue
  {
  }

  lemma QueuesKeepApart(w: World, owner: seq<Option<nat>>, a: Action)
    requires Inv(w, owner) && Enabled(w, a) && !a.Meet?
    ensures QueuesApart(Next(w, a))
  {
    NoNewUse(w, owner, a);
    NoNewRetired(w, a);
  }

  lemma StepKeeps(w: World, owner: seq<Option<nat>>, a: Action)
    requires Inv(w, owner) && Enabled(w, a)
    ensures Inv(Next(w, a), OwnersAfter(w, a, owner))
  {
    OwnersKeep(w, owner, a);
    MasterFitsKeeps(w, owner, a);
    CapturedKeeps(w, owner, a);
    ChannelsKeepApart(w, owner, a);
    if a.Meet? {
      QueuesAfterMeet(w, owner, a.h);
    } else {
      QueuesKeepApart(w, owner, a);
    }
  }

  ghost predicate LegalRun(w: World, actions: seq<Action>)
    decreases actions
  {
    actions == []
    || (|w.contexts| == NODE_COUNT && Enabled(w, actions[0]) && LegalRun(Next(w, actions[0]), actions[1..]))
  }

  ghost function Run(w: World, actions: seq<Action>): (v: World)
    requires LegalRun(w, actions)
    ensures |v.contexts| == |w.contexts|
    decreases actions
  {
    if actions == [] then w else Run(Next(w, actions[0]), actions[1..])
  }

  lemma {:induction false} RunKeeps(w: World, actions: seq<Action>, owner: seq<Option<nat>>)
    returns (last: seq<Option<nat>>)
    requires Inv(w, owner) && LegalRun(w, actions)
    ensures Inv(Run(w, actions), last)
    decreases actions
  {
    if actions == [] {
      last := owner;
    } else {
      StepKeeps(w, owner, actions[0]);
      last := RunKeeps(Next(w, actions[0]), actions[1..], OwnersAfter(w, actions[0], owner));
    }
  }

  predicate InLoop(h: Handler) { h.phase.Selecting? || h.phase.Busy? }

  /** The context is that of a live handler: there are channels to read, and they are those it has read so far. */
  ghost predicate Serves(c: Context, h: Handler) {
    && c.running && c.queue != 0 && c.signal != 0
    && (h.phase.HasQueue? ==> c.queue == h.phase.queue)
    && (InLoop(h) ==> c == Context(true, h.phase.queue, h.phase.signal))
  }

  /** In every interleaving: a node has at most one live handler; from its spawning on, the context of its node holds
      the channels it has read or will read, so an answer awaited by a busy handler is awaited on its own queue; and
      no two handlers ever close the same queue, nor does one close a queue that another reads. */
  lemma OneHandlerPerNode(actions: seq<Action>)
    requires LegalRun(START, actions)
    ensures var w := Run(START, actions);
            && |w.contexts| == NODE_COUNT
            && (forall g, h :: 0 <= g < h < |w.handlers| && Live(w.handlers[g]) && Live(w.handlers[h]) ==>
                  w.handlers[g].node != w.handlers[h].node)
            && (forall h :: 0 <= h < |w.handlers| ==> w.handlers[h].node < NODE_COUNT)
            && (forall h :: 0 <= h < |w.handlers| && Live(w.handlers[h]) ==>
                  Serves(w.contexts[w.handlers[h].node], w.handlers[h]))
            && (forall g, h ::
                  0 <= g < |w.handlers| && 0 <= h < |w.handlers| && g != h && !Live(w.handlers[g])
                  && (InLoop(w.handlers[h]) || !Live(w.handlers[h])) ==>
                    w.handlers[g].phase.queue != w.handlers[h].phase.queue)
  {
    StartIsSound();
    var owner := RunKeeps(START, actions, seq(NODE_COUNT, _ => None));
    var w := Run(START, actions);
    forall h | 0 <= h < |w.handlers| && Live(w.handlers[h])
      ensures InUse(w, w.handlers[h].node) && Serves(w.contexts[w.handlers[h].node], w.handlers[h])
    {
      assert owner[w.handlers[h].node].Some?;
    }
  }

  /** While a handler is live nobody replaces the channels of its node: what it reads when it starts is what was there
      when it was spawned. */
  lemma LiveContextsStay(actions: seq<Action>, a: Action, h: nat)
    requires LegalRun(START, actions)
    ensures var w := Run(START, actions);
            && |w.contexts| == NODE_COUNT
            && (Enabled(w, a) && h < |w.handlers| && Live(w.handlers[h]) ==>
                  w.handlers[h].node < NODE_COUNT
                  && Next(w, a).contexts[w.handlers[h].node] == w.contexts[w.handlers[h].node])
  {
    StartIsSound();
    var owner := RunKeeps(START, actions, seq(NODE_COUNT, _ => None));
    var w := Run(START, actions);
    assert h < |w.handlers| && Live(w.handlers[h]) ==> owner[w.handlers[h].node].Some?;
  }

  /** The master never waits in vain: when it signals a node, that node has a handler that is at its select, or
      gets there by steps of its own, and then the two meet. */
  lemma SignalledHandlerListens(actions: seq<Action>)
    requires LegalRun(START, actions) && Run(START, actions).master.Signalling?
    ensures var w := Run(START, actions);
            && |w.contexts| == NODE_COUNT
            && exists h :: 0 <= h < |w.handlers| && w.handlers[h].node == w.master.node && Live(w.handlers[h])
                 && (Enabled(w, Meet(h)) || Enabled(w, HandlerGoes(h)) || Enabled(w, Finish(h)))
                 && (w.handlers[h].phase.Selecting? ==> Enabled(w, Meet(h)))
  {
    StartIsSound();
    var owner := RunKeeps(START, actions, seq(NODE_COUNT, _ => None));
    var w := Run(START, actions);
    var h := owner[w.master.node].value;
    assert Live(w.handlers[h]);
  }

  // ---------- Every request is served ----------

  lemma {:induction false} RunsJoin(w: World, first: seq<Action>, more: seq<Action>)
    requires LegalRun(w, first) && LegalRun(Run(w, first), more)
    ensures LegalRun(w, first + more) && Run(w, first + more) == Run(Run(w, first), more)
    decreases first
  {
    if first == [] {
      assert first + more == more;
    } else {
      assert (first + more)[0] == first[0] && (first + more)[1..] == first[1..] + more;
      RunsJoin(Next(w, first[0]), first[1..], more);
    }
  }

  lemma OneStep(w: World, a: Action)
    requires |w.contexts| == NODE_COUNT && Enabled(w, a)
    ensures LegalRun(w, [a]) && Run(w, [a]) == Next(w, a)
  {
    assert [a][1..] == [];
  }

  /** The world after the master has given node n new channels and a new handler. */
  function Respawned(w: World, n: nat): World
    requires n < |w.contexts|
  {
    World(w.contexts[n := Context(true, w.next, w.next + 1)], Waiting, w.handlers + [Handler(n, Spawned)], w.next + 2)
  }

  const LINES_229_TO_232 := [MasterGoes, MasterGoes, MasterGoes, MasterGoes]

  lemma MasterRespawns(w: World, n: nat)
    requires |w.contexts| == NODE_COUNT && n < NODE_COUNT && w.master == AtRunning(n)
    ensures LegalRun(w, LINES_229_TO_232) && Run(w, LINES_229_TO_232) == Respawned(w, n)
  {
    var w1 := Next(w, MasterGoes);
    var w2 := Next(w1, MasterGoes);
    var w3 := Next(w2, MasterGoes);
    var w4 := Next(w3, MasterGoes);
    OneStep(w, MasterGoes);
    OneStep(w1, MasterGoes);
    OneStep(w2, MasterGoes);
    OneStep(w3, MasterGoes);
    RunsJoin(w2, [MasterGoes], [MasterGoes]);
    RunsJoin(w1, [MasterGoes], [MasterGoes] + [MasterGoes]);
    RunsJoin(w, [MasterGoes], [MasterGoes] + ([MasterGoes] + [MasterGoes]));
    assert LINES_229_TO_232 == [MasterGoes] + ([MasterGoes] + ([MasterGoes] + [MasterGoes]));
    assert w4.contexts == Respawned(w, n).contexts;
  }

  /** A channel that nobody has seen yet. */
  predicate FreshChannel(w: World, c: Chan) {
    && c != 0
    && (forall n :: 0 <= n < |w.contexts| ==> w.contexts[n].queue != c && w.contexts[n].signal != c)
    && (forall h :: 0 <= h < |w.handlers| && !w.handlers[h].phase.Spawned? ==> w.handlers[h].phase.queue != c)
  }

  lemma NextIsFresh(w: World, owner: seq<Option<nat>>)
    requires Inv(w, owner)
    ensures FreshChannel(w, w.next) && FreshChannel(w, w.next + 1)
  {
    forall h | 0 <= h < |w.handlers| && !w.handlers[h].phase.Spawned? ensures w.handlers[h].phase.queue < w.next {
      if Live(w.handlers[h]) {
        assert w.handlers[h].phase.queue == w.contexts[w.handlers[h].node].queue;
      }
    }
  }

  /** A node that does not run and asks for an address gets a handler, on fresh channels. */
  lemma StoppedNodeIsServed(actions: seq<Action>, n: nat)
    requires LegalRun(START, actions) && Run(START, actions).master.Waiting? && 1 <= n < NODE_COUNT
    requires !Run(START, actions).contexts[n].running
    ensures var w, more := Run(START, actions), [Request(n)] + LINES_229_TO_232;
            && LegalRun(w, more) && Run(w, more) == Respawned(w, n)
            && FreshChannel(w, w.next) && FreshChannel(w, w.next + 1)
  {
    StartIsSound();
    var owner := RunKeeps(START, actions, seq(NODE_COUNT, _ => None));
    var w := Run(START, actions);
    OneStep(w, Request(n));
    var v := Next(w, Request(n));
    MasterRespawns(v, n);
    RunsJoin(w, [Request(n)], LINES_229_TO_232);
    NextIsFresh(w, owner);
  }

  /** Steps of its own take a live handler to its select, on the channels of its context. */
  lemma HandlerReachesSelect(w: World, owner: seq<Option<nat>>, h: nat) returns (steps: seq<Action>)
    requires Inv(w, owner) && h < |w.handlers| && Live(w.handlers[h])
    ensures forall a :: a in steps ==> a == HandlerGoes(h) || a == Finish(h)
    ensures LegalRun(w, steps)
    ensures var c := w.contexts[w.handlers[h].node];
            Run(w, steps) == WithPhase(w, h, Selecting(c.queue, c.signal))
  {
    var c := w.contexts[w.handlers[h].node];
    match w.handlers[h].phase {
      case Spawned =>
        var v := Next(w, HandlerGoes(h));
        OneStep(w, HandlerGoes(h));
        OneStep(v, HandlerGoes(h));
        RunsJoin(w, [HandlerGoes(h)], [HandlerGoes(h)]);
        steps := [HandlerGoes(h)] + [HandlerGoes(h)];
        assert Next(v, HandlerGoes(h)).handlers
            == w.handlers[h := Handler(w.handlers[h].node, Selecting(c.queue, c.signal))];
      case HasQueue(q) =>
        OneStep(w, HandlerGoes(h));
        steps := [HandlerGoes(h)];
      case Selecting(q, signal) =>
        steps := [];
        assert w.handlers[h := w.handlers[h]] == w.handlers;
      case Busy(q, signal) =>
        OneStep(w, Finish(h));
        steps := [Finish(h)];
    }
  }

  /** A handler at its select takes the master's signal and ends, and the node is given a new one. */
  lemma SignalIsTaken(w: World, h: nat, n: nat)
    requires |w.contexts| == NODE_COUNT && h < |w.handlers| && n < NODE_COUNT
    requires w.handlers[h].phase.Selecting? && w.master == Signalling(n, w.handlers[h].phase.signal)
    ensures var more := [Meet(h)] + LINES_229_TO_232;
            LegalRun(w, more) && Run(w, more) == Respawned(WithPhase(w, h, Closing(w.handlers[h].phase.queue)), n)
  {
    var met := Next(w, Meet(h));
    OneStep(w, Meet(h));
    MasterRespawns(met, n);
    RunsJoin(w, [Meet(h)], LINES_229_TO_232);
  }

  lemma AskedHandlerIsReplaced(w: World, owner: seq<Option<nat>>, n: nat) returns (h: nat, steps: seq<Action>)
    requires Inv(w, owner) && 1 <= n < NODE_COUNT && w.master == Signalling(n, w.contexts[n].signal)
    ensures forall a :: a in steps ==> a == HandlerGoes(h) || a == Finish(h)
    ensures h < |w.handlers| && w.handlers[h].node == n && Live(w.handlers[h])
    ensures var more := steps + ([Meet(h)] + LINES_229_TO_232);
            LegalRun(w, more) && Run(w, more) == Respawned(WithPhase(w, h, Closing(w.contexts[n].queue)), n)
  {
    h := owner[n].value;
    steps := HandlerReachesSelect(w, owner, h);
    hide Inv;
    hide Enabled;
    var c := w.contexts[n];
    var ready := WithPhase(w, h, Selecting(c.queue, c.signal));
    SignalIsTaken(ready, h, n);
    RunsJoin(w, steps, [Meet(h)] + LINES_229_TO_232);
    assert WithPhase(ready, h, Closing(c.queue)).handlers == WithPhase(w, h, Closing(c.queue)).handlers;
  }

  lemma RequestIsServed(w: World, owner: seq<Option<nat>>, n: nat) returns (h: nat, steps: seq<Action>)
    requires Inv(w, owner) && w.master.Waiting? && 1 <= n < NODE_COUNT && w.contexts[n].running
    ensures forall a :: a in steps ==> a == HandlerGoes(h) || a == Finish(h)
    ensures h < |w.handlers| && w.handlers[h].node == n && Live(w.handlers[h])
    ensures var more := [Request(n)] + (steps + ([Meet(h)] + LINES_229_TO_232));
            LegalRun(w, more) && Run(w, more) == Respawned(WithPhase(w, h, Closing(w.contexts[n].queue)), n)
  {
    OneStep(w, Request(n));
    StepKeeps(w, owner, Request(n));
    var asked := Next(w, Request(n));
    assert asked == w.(master := Signalling(n, w.contexts[n].signal));
    hide Inv;
    hide Enabled;
    hide Next;
    h, steps := AskedHandlerIsReplaced(asked, OwnersAfter(w, Request(n), owner), n);
    RunsJoin(w, [Request(n)], steps + ([Meet(h)] + LINES_229_TO_232));
  }

  /** A running node that asks again: its handler comes to its select, takes the signal and ends; then the node has a
      new handler, on fresh channels, and nobody else has noticed. */
  lemma RunningNodeIsServed(actions: seq<Action>, n: nat) returns (h: nat, steps: seq<Action>)
    requires LegalRun(START, actions) && Run(START, actions).master.Waiting? && 1 <= n < NODE_COUNT
    requires Run(START, actions).contexts[n].running
    ensures forall a :: a in steps ==> a == HandlerGoes(h) || a == Finish(h)
    ensures var w, more := Run(START, actions), [Request(n)] + (steps + ([Meet(h)] + LINES_229_TO_232));
            && h < |w.handlers| && w.handlers[h].node == n && Live(w.handlers[h])
            && LegalRun(w, more) && Run(w, more) == Respawned(WithPhase(w, h, Closing(w.contexts[n].queue)), n)
            && FreshChannel(w, w.next) && FreshChannel(w, w.next + 1)
  {
    StartIsSound();
    var owner := RunKeeps(START, actions, seq(NODE_COUNT, _ => None));
    var w := Run(START, actions);
    hide FreshChannel;
    NextIsFresh(w, owner);
    h, steps := RequestIsServed(w, owner, n);
  }

  /** What a live handler does at its select: it takes a message and comes back; and one that was terminated closes its
      queue and is gone. */
  lemma HandlerComesBack(w: World, h: nat)
    requires |w.contexts| == NODE_COUNT && h < |w.handlers| && w.handlers[h].node < NODE_COUNT
    ensures w.handlers[h].phase.Selecting? ==> LegalRun(w, [Take(h), Finish(h)]) && Run(w, [Take(h), Finish(h)]) == w
    ensures w.handlers[h].phase.Closing? ==>
              && LegalRun(w, [HandlerGoes(h)])
              && Run(w, [HandlerGoes(h)]) == WithPhase(w, h, Gone(w.handlers[h].phase.queue))
  {
    if w.handlers[h].phase.Selecting? {
      var v := Next(w, Take(h));
      OneStep(w, Take(h));
      OneStep(v, Finish(h));
      RunsJoin(w, [Take(h)], [Finish(h)]);
      assert [Take(h)] + [Finish(h)] == [Take(h), Finish(h)];
      assert Next(v, Finish(h)).handlers == w.handlers;
    } else if w.handlers[h].phase.Closing? {
      OneStep(w, HandlerGoes(h));
    }
  }
}
