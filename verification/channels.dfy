/**
  The channel directory and its id allocator (models/channel.go). Ids are uint16 and the cursor TopId wraps.
 */
module Channels {
  import opened Nocan

  const ID_COUNT := 0x1_0000

  /** byId gives a channel's name, byName its id. */
  datatype Directory = Directory(byId: map<ChannelId, string>, byName: map<string, ChannelId>, top: ChannelId)

  function Next(i: ChannelId): ChannelId { if i == ID_COUNT - 1 then 0 else i + 1 }

  /** The id j places after the cursor. */
  function IdAt(cursor: ChannelId, j: nat): ChannelId { if j == 0 then cursor else Next(IdAt(cursor, j - 1)) }

  lemma {:induction false} IdAtModulo(cursor: ChannelId, j: nat)
    ensures IdAt(cursor, j) == (cursor + j) % ID_COUNT
  {
    if j == 0 {
    } else {
      IdAtModulo(cursor, j - 1);
      NextIsModulo(cursor + (j - 1));
    }
  }

  lemma NextIsModulo(n: nat)
    ensures (n + 1) % ID_COUNT == Next(n % ID_COUNT)
  {
    var q, r := n / ID_COUNT, n % ID_COUNT;
    assert n + 1 == if r == ID_COUNT - 1 then (q + 1) * ID_COUNT else q * ID_COUNT + (r + 1);
  }

  lemma {:induction false} IdAtSum(cursor: ChannelId, i: nat, j: nat)
    ensures IdAt(IdAt(cursor, i), j) == IdAt(cursor, i + j)
  {
    if j == 0 {
    } else {
      IdAtSum(cursor, i, j - 1);
    }
  }

  lemma IdAtNext(cursor: ChannelId, j: nat)
    ensures IdAt(Next(cursor), j) == IdAt(cursor, j + 1)
  {
    assert IdAt(cursor, 1) == Next(cursor);
    IdAtSum(cursor, 1, j);
  }

  /** Every id comes within one round of the cursor. */
  lemma IdIsReached(cursor: ChannelId, id: ChannelId) returns (j: nat)
    ensures j < ID_COUNT && IdAt(cursor, j) == id
  {
    j := if id >= cursor then id - cursor else id - cursor + ID_COUNT;
    IdAtModulo(cursor, j);
  }

  /** How many ids from the cursor on are in use, looking at no more than `left` of them. */
  function Skips(byId: map<ChannelId, string>, cursor: ChannelId, left: nat): (k: nat)
    ensures k <= left
    ensures forall j :: 0 <= j < k ==> IdAt(cursor, j) in byId
    ensures k < left ==> IdAt(cursor, k) !in byId
    decreases left
  {
    if left == 0 || cursor !in byId then 0
    else
      var rest := Skips(byId, Next(cursor), left - 1);
      assert forall j :: 0 <= j < rest + 1 ==> IdAt(cursor, j) in byId by {
        forall j | 0 <= j < rest + 1 ensures IdAt(cursor, j) in byId {
          if j > 0 { IdAtNext(cursor, j - 1); }
        }
      }
      IdAtNext(cursor, rest);
      1 + rest
  }

  predicate Full(d: Directory) { Skips(d.byId, d.top, ID_COUNT) == ID_COUNT }

  /** The id the search stops at. */
  function Grant(d: Directory): (id: ChannelId)
    requires !Full(d)
    ensures id !in d.byId
  {
    IdAt(d.top, Skips(d.byId, d.top, ID_COUNT))
  }

  /** The locked half of Register: it does not look at the name again. */
  function Insert(d: Directory, name: string): Directory
    requires !Full(d)
  {
    var id := Grant(d);
    Directory(d.byId[id := name], d.byName[name := id], Next(id))
  }

  /** Register: the empty name is refused, a known name gives its channel, a new one the next free id. */
  function Register(d: Directory, name: string): (Directory, Option<ChannelId>)
    requires Full(d) ==> name == "" || name in d.byName
  {
    if name == "" then (d, None)
    else if name in d.byName then (d, Some(d.byName[name]))
    else (Insert(d, name), Some(Grant(d)))
  }

  function Unregister(d: Directory, name: string, id: ChannelId): Directory {
    Directory(d.byId - {id}, d.byName - {name}, d.top)
  }

  function Lookup(d: Directory, name: string): Option<ChannelId> {
    if name in d.byName then Some(d.byName[name]) else None
  }

  // ---------- When the search ends ----------

  ghost function Below(n: nat): (s: set<int>)
    ensures |s| == n && forall i :: i in s <==> 0 <= i < n
  {
    if n == 0 then {} else Below(n - 1) + {n - 1}
  }

  lemma {:induction false} SubsetIsSmaller<T>(a: set<T>, b: set<T>)
    requires a <= b
    ensures |a| <= |b| && (|a| == |b| ==> a == b)
  {
    if a == {} {
    } else {
      var x :| x in a;
      SubsetIsSmaller(a - {x}, b - {x});
    }
  }

  /** The search loop of Register ends if and only if fewer than 65536 ids are in use. */
  lemma SearchEndsExactlyWhen(d: Directory)
    ensures !Full(d) <==> |d.byId| < ID_COUNT
  {
    var all := Below(ID_COUNT);
    var used := set i: int | i in d.byId;
    assert used == d.byId.Keys;
    SubsetIsSmaller(used, all);
    if Full(d) {
      forall i | i in all ensures i in used {
        var j := IdIsReached(d.top, i);
      }
      assert used == all;
    } else {
      assert Grant(d) in all && Grant(d) !in used;
    }
  }

  // ---------- Directory invariant ----------

  ghost predicate NamesOwned(d: Directory) {
    forall n :: n in d.byName ==> d.byName[n] in d.byId && d.byId[d.byName[n]] == n
  }

  /** ids and names undo each other. */
  ghost predicate Inverse(d: Directory) {
    NamesOwned(d) && forall i :: i in d.byId ==> d.byId[i] in d.byName && d.byName[d.byId[i]] == i
  }

  /** The locked half of Register keeps ids and names inverse if and only if the name is still new. */
  lemma InsertKeepsInverse(d: Directory, name: string)
    requires Inverse(d) && !Full(d)
    ensures NamesOwned(Insert(d, name))
    ensures Inverse(Insert(d, name)) <==> name !in d.byName
  {
    var e := Insert(d, name);
    if name in d.byName {
      assert e.byId[d.byName[name]] == name && e.byName[name] == Grant(d) != d.byName[name];
    }
  }

  /** Unregister, of a live or a stale channel, keeps them inverse if and only if its name and its id lead to the
      same channel. */
  lemma UnregisterKeepsInverse(d: Directory, name: string, id: ChannelId)
    requires Inverse(d)
    ensures Inverse(Unregister(d, name, id))
       <==> if id in d.byId then Lookup(d, name) == Some(id) else name !in d.byName
  {
    var e := Unregister(d, name, id);
    if id in d.byId && Lookup(d, name) != Some(id) {
      assert d.byId[id] in e.byName && e.byName[d.byId[id]] == id;
    } else if id !in d.byId && name in d.byName {
      assert d.byName[name] in e.byId;
    }
  }

  /** All that Register changes: a new name gets the first free id from the cursor on, and the cursor moves past it. */
  lemma RegisterGives(d: Directory, name: string)
    requires NamesOwned(d) && (Full(d) ==> name == "" || name in d.byName)
    ensures var e, id := Register(d, name).0, Register(d, name).1;
            && (id.None? <==> name == "") && (id.Some? ==> Lookup(e, name) == id && e.byId[id.value] == name)
            && (name == "" || name in d.byName ==> e == d)
    ensures name != "" && name !in d.byName ==>
              var e, id := Register(d, name).0, Register(d, name).1.value;
              && id !in d.byId && e.byId == d.byId[id := name] && e.byName == d.byName[name := id]
              && FirstFree(d, id) && e.top == Next(id)
  {
    if name != "" && name !in d.byName {
      var k := Skips(d.byId, d.top, ID_COUNT);
      assert IdAt(d.top, k) == Grant(d);
    }
  }

  /** All ids from the cursor up to this one are in use, and this one is not. */
  ghost predicate FirstFree(d: Directory, id: ChannelId) {
    id !in d.byId && exists k: nat :: IdAt(d.top, k) == id && forall j :: 0 <= j < k ==> IdAt(d.top, j) in d.byId
  }

  /** A channel that is unregistered is gone, by its id and by its name; every other is as it was. */
  lemma UnregisterRemoves(d: Directory, name: string, id: ChannelId)
    ensures var e := Unregister(d, name, id);
            && id !in e.byId && Lookup(e, name) == None && e.top == d.top
            && (forall i :: i != id ==> (i in e.byId <==> i in d.byId) && (i in d.byId ==> e.byId[i] == d.byId[i]))
            && (forall n :: n != name ==> Lookup(e, n) == Lookup(d, n))
  {
  }

  // ---------- Sequential runs and quarantine ----------

  datatype Op = Registering(name: string) | Unregistering(id: ChannelId)

  /** Unregister is given a live channel; Register must be able to return. */
  predicate Legal(d: Directory, op: Op) {
    match op
    case Registering(n) => Full(d) ==> n == "" || n in d.byName
    case Unregistering(i) => i in d.byId
  }

  function Apply(d: Directory, op: Op): Directory
    requires Legal(d, op)
  {
    match op
    case Registering(n) => Register(d, n).0
    case Unregistering(i) => Unregister(d, d.byId[i], i)
  }

  predicate LegalRun(d: Directory, ops: seq<Op>)
    decreases ops
  {
    ops == [] || (Legal(d, ops[0]) && LegalRun(Apply(d, ops[0]), ops[1..]))
  }

  function Run(d: Directory, ops: seq<Op>): Directory
    requires LegalRun(d, ops)
    decreases ops
  {
    if ops == [] then d else Run(Apply(d, ops[0]), ops[1..])
  }

  /** Over every run, ids and names stay inverse. */
  lemma {:induction false} RunKeepsInverse(d: Directory, ops: seq<Op>)
    requires Inverse(d) && LegalRun(d, ops)
    ensures Inverse(Run(d, ops))
    decreases ops
  {
    if ops == [] {
    } else {
      match ops[0] {
        case Registering(n) =>
          if n != "" && n !in d.byName {
            InsertKeepsInverse(d, n);
          }
        case Unregistering(i) => UnregisterKeepsInverse(d, d.byId[i], i);
      }
      RunKeepsInverse(Apply(d, ops[0]), ops[1..]);
    }
  }

  /** What the search saw at one id: taken at that moment, or free and therefore granted. */
  datatype Probe = InUse(id: ChannelId) | Granted(id: ChannelId)

  function Probes(d: Directory, op: Op): (ps: seq<Probe>)
    requires Legal(d, op)
    ensures forall j :: 0 <= j < |ps| ==> (ps[j].InUse? <==> ps[j].id in d.byId) && ps[j].id == IdAt(d.top, j)
    ensures Apply(d, op).top == IdAt(d.top, |ps|)
  {
    if op.Unregistering? || op.name == "" || op.name in d.byName then []
    else
      var k := Skips(d.byId, d.top, ID_COUNT);
      seq(k, j requires 0 <= j < k => InUse(IdAt(d.top, j))) + [Granted(Grant(d))]
  }

  function History(d: Directory, ops: seq<Op>): seq<Probe>
    requires LegalRun(d, ops)
    decreases ops
  {
    if ops == [] then [] else Probes(d, ops[0]) + History(Apply(d, ops[0]), ops[1..])
  }

  /** The cursor visits ids one by one, for ever: probe j of a run is of id top + j, modulo 65536. */
  lemma {:induction false} CursorNeverJumps(d: Directory, ops: seq<Op>)
    requires LegalRun(d, ops)
    ensures var h := History(d, ops); forall j :: 0 <= j < |h| ==> h[j].id == IdAt(d.top, j)
    decreases ops
  {
    if ops == [] {
    } else {
      var e := Apply(d, ops[0]);
      CursorNeverJumps(e, ops[1..]);
      ProbesJoin(Probes(d, ops[0]), History(e, ops[1..]), d.top);
    }
  }

  lemma ProbesJoin(a: seq<Probe>, b: seq<Probe>, cursor: ChannelId)
    requires forall j :: 0 <= j < |a| ==> a[j].id == IdAt(cursor, j)
    requires forall j :: 0 <= j < |b| ==> b[j].id == IdAt(IdAt(cursor, |a|), j)
    ensures forall j :: 0 <= j < |a + b| ==> (a + b)[j].id == IdAt(cursor, j)
  {
    forall j | 0 <= j < |a + b| ensures (a + b)[j].id == IdAt(cursor, j) {
      if j >= |a| {
        IdAtSum(cursor, |a|, j - |a|);
      }
    }
  }

  /** Quarantine: between two grants of one id the cursor tried every other id, each granted or in use when tried. */
  lemma GrantsAreFarApart(d: Directory, ops: seq<Op>, j: nat, k: nat, other: ChannelId)
    requires LegalRun(d, ops) && j < k < |History(d, ops)|
    requires var h := History(d, ops); h[j].Granted? && h[k].Granted? && h[j].id == h[k].id != other
    ensures k - j >= ID_COUNT
    ensures exists m :: j < m < k && History(d, ops)[m].id == other
  {
    CursorNeverJumps(d, ops);
    var h := History(d, ops);
    SameIdIsARoundAway(d.top, j, k);
    var gap := IdIsReached(h[j].id, other);
    IdAtSum(d.top, j, gap);
    assert h[j + gap].id == other;
  }

  lemma SameIdIsARoundAway(cursor: ChannelId, j: nat, k: nat)
    requires j < k && IdAt(cursor, j) == IdAt(cursor, k)
    ensures k - j >= ID_COUNT
  {
    IdAtModulo(cursor, j);
    IdAtModulo(cursor, k);
  }

  // ---------- Concurrent registrations ----------

  /** A goroutine in Register: before its lookup, between the lookup and the lock, or back with a channel. */
  datatype Thread = Looking(name: string) | Inserting(name: string) | Returned(name: string, id: ChannelId)

  datatype World = World(d: Directory, threads: seq<Thread>)

  /** Thread t takes its next step. A search in a full directory makes no progress. */
  function Advance(w: World, t: nat): World
    requires t < |w.threads|
  {
    match w.threads[t]
    case Looking(n) =>
      if n in w.d.byName then w.(threads := w.threads[t := Returned(n, w.d.byName[n])])
      else w.(threads := w.threads[t := Inserting(n)])
    case Inserting(n) =>
      if Full(w.d) then w else World(Insert(w.d, n), w.threads[t := Returned(n, Grant(w.d))])
    case Returned(_, _) => w
  }

  function Interleave(w: World, schedule: seq<nat>): World
    requires forall k :: 0 <= k < |schedule| ==> schedule[k] < |w.threads|
    decreases schedule
  {
    if schedule == [] then w else Interleave(Advance(w, schedule[0]), schedule[1..])
  }

  ghost predicate Owned(w: World) {
    && NamesOwned(w.d)
    && forall t :: 0 <= t < |w.threads| && w.threads[t].Returned? ==>
         w.threads[t].id in w.d.byId && w.d.byId[w.threads[t].id] == w.threads[t].name
  }

  /** However registrations interleave: no id ever changes owner, every name leads to a channel of that name, and
      every goroutine gets back a channel of the name it asked for. */
  lemma {:induction false} RacesKeepOwners(w: World, schedule: seq<nat>)
    requires Owned(w) && forall k :: 0 <= k < |schedule| ==> schedule[k] < |w.threads|
    ensures var v := Interleave(w, schedule);
            Owned(v) && forall i :: i in w.d.byId ==> i in v.d.byId && v.d.byId[i] == w.d.byId[i]
    decreases schedule
  {
    if schedule == [] {
    } else {
      RacesKeepOwners(Advance(w, schedule[0]), schedule[1..]);
    }
  }

  /** A goroutine that is not interrupted does what Register does. */
  lemma AloneIsRegister(w: World, t: nat)
    requires NamesOwned(w.d) && t < |w.threads| && w.threads[t].Looking?
    requires var name := w.threads[t].name; name != "" && (Full(w.d) ==> name in w.d.byName)
    ensures var v, r := Interleave(w, [t, t]), Register(w.d, w.threads[t].name);
            v.d == r.0 && r.1.Some? && v.threads == w.threads[t := Returned(w.threads[t].name, r.1.value)]
  {
    assert [t, t][1..] == [t] && [t][1..] == [];
    var v := Advance(w, t);
    assert Interleave(w, [t, t]) == Interleave(v, [t]) == Interleave(Advance(v, t), []);
    var name := w.threads[t].name;
    var last := Returned(name, Register(w.d, name).1.value);
    assert w.threads[t := Inserting(name)][t := last] == w.threads[t := last];
  }

  /** Thread t is about to insert a name that some other thread has inserted since t looked it up. */
  predicate Doubles(w: World, t: nat)
    requires t < |w.threads|
  {
    w.threads[t].Inserting? && w.threads[t].name in w.d.byName && !Full(w.d)
  }

  predicate NeverDoubles(w: World, schedule: seq<nat>)
    requires forall k :: 0 <= k < |schedule| ==> schedule[k] < |w.threads|
    decreases schedule
  {
    schedule == [] || (!Doubles(w, schedule[0]) && NeverDoubles(Advance(w, schedule[0]), schedule[1..]))
  }

  /** Interleaved registrations leave ids and names inverse if and only if no thread ever inserts a name that is there
      already: a name that has got a second id keeps it. */
  lemma {:induction false} RacesKeepInverseExactlyWhen(w: World, schedule: seq<nat>)
    requires Owned(w) && Inverse(w.d) && forall k :: 0 <= k < |schedule| ==> schedule[k] < |w.threads|
    ensures Inverse(Interleave(w, schedule).d) <==> NeverDoubles(w, schedule)
    decreases schedule
  {
    if schedule == [] {
    } else {
      var t := schedule[0];
      var v := Advance(w, t);
      if w.threads[t].Inserting? && !Full(w.d) {
        InsertKeepsInverse(w.d, w.threads[t].name);
      }
      if Doubles(w, t) {
        DoubledNameStays(v, schedule[1..], w.d.byName[w.threads[t].name], Grant(w.d));
      } else {
        RacesKeepInverseExactlyWhen(v, schedule[1..]);
      }
    }
  }

  lemma DoubledNameStays(w: World, schedule: seq<nat>, i: ChannelId, j: ChannelId)
    requires Owned(w) && forall k :: 0 <= k < |schedule| ==> schedule[k] < |w.threads|
    requires i != j && i in w.d.byId && j in w.d.byId && w.d.byId[i] == w.d.byId[j]
    ensures !Inverse(Interleave(w, schedule).d)
  {
    RacesKeepOwners(w, schedule);
    var d := Interleave(w, schedule).d;
    assert i in d.byId && j in d.byId && d.byId[i] == d.byId[j];
  }

  /** The smallest such race: two goroutines that look a name up before either inserts it leave it with two ids. */
  lemma RaceDuplicatesName(name: string)
    requires name != ""
    ensures var w := World(Directory(map[], map[], 0), [Looking(name), Looking(name)]);
            var d := Interleave(w, [0, 1, 0, 1]).d;
            Inverse(w.d) && d.byId == map[0 := name, 1 := name] && d.byName == map[name := 1] && !Inverse(d)
  {
    var d0 := Directory(map[], map[], 0);
    var w := World(d0, [Looking(name), Looking(name)]);
    var w2 := World(d0, [Inserting(name), Inserting(name)]);
    assert Advance(Advance(w, 0), 1) == w2;
    assert Skips(d0.byId, 0, ID_COUNT) == 0 && Grant(d0) == 0;
    var d1 := Directory(map[0 := name], map[name := 0], 1);
    var w3 := World(d1, [Returned(name, 0), Inserting(name)]);
    assert Advance(w2, 0) == w3;
    assert Skips(d1.byId, 1, ID_COUNT) == 0 && Grant(d1) == 1;
    var w4 := Advance(w3, 1);
    assert w4.d.byId == map[0 := name, 1 := name];
    assert Interleave(w, [0, 1, 0, 1]) == w4 by {
      assert [0, 1, 0, 1][1..] == [1, 0, 1] && [1, 0, 1][1..] == [0, 1] && [0, 1][1..] == [1] && [1][1..] == [];
    }
    assert w4.d.byId[0] == name && w4.d.byName[name] == 1;
  }
}
