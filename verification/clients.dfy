/**
  The server's linked list of clients and its filtered broadcast (socket/server.go:17-137). Output channels are
  unbounded sequences; the mutex makes each operation one step.
 */
module Clients {
  import opened Nocan

  /** Only updates of a channel are subject to filters. */
  datatype Event = ChannelUpdate(channel: ChannelId, body: nat) | Other(body: nat)

  // ---------- The list as a value ----------

  function Without<T(==)>(s: seq<T>, x: T): seq<T> {
    if s == [] then [] else (if s[0] == x then [] else [s[0]]) + Without(s[1..], x)
  }

  lemma {:induction false} WithoutIs<T>(s: seq<T>, x: T)
    ensures forall y :: y in Without(s, x) <==> y in s && y != x
  {
    if s == [] {
    } else {
      WithoutIs(s[1..], x);
    }
  }

  lemma {:induction false} WithoutAt<T>(s: seq<T>, i: nat)
    requires i < |s| && forall j :: 0 <= j < |s| && j != i ==> s[j] != s[i]
    ensures Without(s, s[i]) == s[..i] + s[i + 1..]
  {
    if i == 0 {
      WithoutAbsent(s[1..], s[0]);
    } else {
      WithoutAt(s[1..], i - 1);
      assert s[..i] == [s[0]] + s[1..][..i - 1];
    }
  }

  lemma {:induction false} WithoutAbsent<T>(s: seq<T>, x: T)
    requires x !in s
    ensures Without(s, x) == s
  {
    if s == [] {
    } else {
      WithoutAbsent(s[1..], x);
    }
  }

  predicate Decreasing(ids: seq<nat>) { forall i, j :: 0 <= i < j < |ids| ==> ids[i] > ids[j] }

  /** Over runs: clients come and go; ids are handed out in order and never again. */
  datatype Op = New | Delete(id: nat)

  function Roster(ops: seq<Op>): (seq<nat>, nat)
    decreases ops
  {
    if ops == [] then ([], 0)
    else
      var (ids, top) := Roster(ops[..|ops| - 1]);
      match ops[|ops| - 1]
      case New => ([top] + ids, top + 1)
      case Delete(id) => (Without(ids, id), top)
  }

  predicate DeletedAfter(ops: seq<Op>, id: nat)
    decreases ops
  {
    ops != []
    && ((ops[|ops| - 1] == Delete(id) && id < Roster(ops[..|ops| - 1]).1) || DeletedAfter(ops[..|ops| - 1], id))
  }

  /** After every run the list holds exactly the clients created and not deleted since, newest first. */
  lemma {:induction false} RosterIsExact(ops: seq<Op>)
    ensures var (ids, top) := Roster(ops);
            Decreasing(ids) && forall id: nat :: id in ids <==> id < top && !DeletedAfter(ops, id)
    decreases ops
  {
    if ops == [] {
    } else {
      var before := ops[..|ops| - 1];
      var (ids, top) := Roster(before);
      RosterIsExact(before);
      match ops[|ops| - 1] {
        case New =>
          NotYetDeleted(before, top);
          forall j | 0 <= j < |ids| ensures ids[j] < top {
            assert ids[j] in ids;
          }
        case Delete(id) =>
          WithoutIs(ids, id);
          WithoutKeepsDecreasing(ids, id);
      }
    }
  }

  lemma {:induction false} NotYetDeleted(ops: seq<Op>, id: nat)
    requires id >= Roster(ops).1
    ensures !DeletedAfter(ops, id)
    decreases ops
  {
    if ops == [] {
    } else {
      NotYetDeleted(ops[..|ops| - 1], id);
    }
  }

  lemma {:induction false} WithoutKeepsDecreasing(ids: seq<nat>, id: nat)
    requires Decreasing(ids)
    ensures Decreasing(Without(ids, id))
  {
    if ids == [] {
    } else {
      WithoutKeepsDecreasing(ids[1..], id);
      var r := Without(ids[1..], id);
      WithoutIs(ids[1..], id);
      forall j | 0 <= j < |r| ensures ids[0] > r[j] {
        assert r[j] in ids[1..];
      }
    }
  }

  // ---------- The list in memory ----------

  class ClientDescriptor {
    const Id: nat
    var OutputChan: seq<Event>
    var ChannelFilter: Option<set<ChannelId>>
    var Connected: bool
    var Next: ClientDescriptor?

    constructor (id: nat, next: ClientDescriptor?)
      ensures Id == id && Next == next && Connected && OutputChan == [] && ChannelFilter == None
    {
      Id, Next, Connected, OutputChan, ChannelFilter := id, next, true, [], None;
    }

    method SendEvent(event: Event) returns (ok: bool)
      modifies this`OutputChan
      ensures ok <==> Connected
      ensures OutputChan == if Connected then old(OutputChan) + [event] else old(OutputChan)
    {
      if !Connected {
        return false;
      }
      OutputChan := OutputChan + [event];
      return true;
    }
  }

  class Server {
    var clients: ClientDescriptor?
    var topId: nat
    /** The clients from the head on. */
    ghost var list: seq<ClientDescriptor>

    ghost predicate Valid()
      reads this, list
    {
      && clients == At(list, 0) && Linked(list) && Decreasing(Ids(list))
      && forall i :: 0 <= i < |list| ==> list[i].Connected && list[i].Id < topId
    }

    static ghost function At(list: seq<ClientDescriptor>, i: nat): ClientDescriptor? {
      if i < |list| then list[i] else null
    }

    static ghost predicate Linked(list: seq<ClientDescriptor>)
      reads list
    {
      forall i {:trigger list[i].Next} :: 0 <= i < |list| ==> list[i].Next == At(list, i + 1)
    }

    static ghost function Ids(list: seq<ClientDescriptor>): (r: seq<nat>)
      ensures |r| == |list| && forall i :: 0 <= i < |list| ==> r[i] == list[i].Id
    {
      seq(|list|, i requires 0 <= i < |list| => list[i].Id)
    }

    static ghost predicate AllDifferent(list: seq<ClientDescriptor>) {
      forall i, j :: 0 <= i < j < |list| ==> list[i] != list[j]
    }

    static lemma Distinct(list: seq<ClientDescriptor>)
      requires Decreasing(Ids(list))
      ensures AllDifferent(list)
    {
      forall i, j | 0 <= i < j < |list| ensures list[i] != list[j] {
        assert Ids(list)[i] > Ids(list)[j];
      }
    }

    static lemma CutOut(list: seq<ClientDescriptor>, i: nat)
      requires Decreasing(Ids(list)) && i < |list|
      ensures var r := list[..i] + list[i + 1..];
              r == Without(list, list[i]) && Ids(r) == Without(Ids(list), list[i].Id) && Decreasing(Ids(r))
    {
      Distinct(list);
      WithoutAt(list, i);
      forall j | 0 <= j < |list| && j != i ensures Ids(list)[j] != Ids(list)[i] {
      }
      WithoutAt(Ids(list), i);
      WithoutKeepsDecreasing(Ids(list), list[i].Id);
      assert Ids(list[..i] + list[i + 1..]) == Ids(list)[..i] + Ids(list)[i + 1..];
    }

    constructor ()
      ensures Valid() && (Ids(list), topId) == Roster([])
    {
      clients, topId, list := null, 0, [];
    }

    method NewClient() returns (c: ClientDescriptor)
      requires Valid()
      modifies this
      ensures Valid() && fresh(c) && list == [c] + old(list)
      ensures c.Id == old(topId) && topId == old(topId) + 1 && Ids(list) == [old(topId)] + Ids(old(list))
      ensures c.OutputChan == [] && c.ChannelFilter == None
    {
      c := new ClientDescriptor(topId, clients);
      topId := topId + 1;
      clients := c;
      list := [c] + list;
    }

    method DeleteClient(c: ClientDescriptor) returns (found: bool)
      requires Valid()
      modifies this, c, list
      ensures Valid() && topId == old(topId)
      ensures found <==> c in old(list)
      ensures list == Without(old(list), c)
      ensures Ids(list) == if found then Without(Ids(old(list)), c.Id) else Ids(old(list))
      ensures !c.Connected
      ensures forall d :: d == c || d in old(list) ==>
                d.OutputChan == old(d.OutputChan) && d.ChannelFilter == old(d.ChannelFilter)
    {
      c.Connected := false;
      found := Remove(c);
    }

    /** The list part of DeleteClient. */
    method Remove(c: ClientDescriptor) returns (found: bool)
      requires clients == At(list, 0) && Linked(list) && Decreasing(Ids(list))
      modifies this`clients, this`list, (set d | d in list)`Next
      ensures found <==> c in old(list)
      ensures list == Without(old(list), c)
      ensures Ids(list) == if found then Without(Ids(old(list)), c.Id) else Ids(old(list))
      ensures forall i :: 0 <= i < |list| ==> list[i] in old(list) && list[i] != c
      ensures clients == At(list, 0) && Linked(list) && Decreasing(Ids(list))
    {
      Distinct(list);
      ghost var at;
      var prev;
      found, prev, at := Walk(c);
      if found {
        Unlink(prev, at);
      }
      DeletedList(old(list), c, found, at, list);
    }

    static lemma DeletedList(list: seq<ClientDescriptor>, c: ClientDescriptor, found: bool, at: nat,
                             rest: seq<ClientDescriptor>)
      requires Decreasing(Ids(list)) && (found <==> c in list)
      requires if found then at < |list| && list[at] == c && rest == list[..at] + list[at + 1..] else rest == list
      ensures rest == Without(list, c) && Decreasing(Ids(rest))
      ensures Ids(rest) == if found then Without(Ids(list), c.Id) else Ids(list)
      ensures forall i :: 0 <= i < |rest| ==> rest[i] in list && rest[i] != c
    {
      if found {
        CutOut(list, at);
      } else {
        WithoutAbsent(list, c);
      }
    }

    /** The walk that holds a pointer to the pointer it will change; prev is null while that is the head. */
    method Walk(c: ClientDescriptor) returns (found: bool, prev: ClientDescriptor?, ghost at: nat)
      requires clients == At(list, 0) && Linked(list)
      ensures found <==> c in list
      ensures found ==> at < |list| && list[at] == c && prev == (if at == 0 then null else list[at - 1])
    {
      prev, at := null, 0;
      var cur := clients;
      while cur != null
        invariant 0 <= at <= |list| && cur == At(list, at) && prev == (if at == 0 then null else list[at - 1])
        invariant forall k :: 0 <= k < at ==> list[k] != c
        decreases |list| - at
      {
        if cur == c {
          return true, prev, at;
        }
        prev, cur := cur, cur.Next;
        at := at + 1;
      }
      return false, prev, at;
    }

    /** *ptr = c.Next */
    method Unlink(prev: ClientDescriptor?, ghost at: nat)
      requires clients == At(list, 0) && Linked(list) && AllDifferent(list) && at < |list|
      requires prev == if at == 0 then null else list[at - 1]
      modifies this`clients, this`list, (set d | d in list)`Next
      ensures list == old(list)[..at] + old(list)[at + 1..]
      ensures clients == At(list, 0) && Linked(list)
    {
      if prev == null {
        clients := clients.Next;
      } else {
        prev.Next := prev.Next.Next;
      }
      ghost var whole := list;
      list := list[..at] + list[at + 1..];
      forall i | 0 <= i < |list| ensures list[i].Next == At(list, i + 1) {
        assert list[i] == whole[if i < at then i else i + 1];
      }
    }

    /** The client takes the event: it is not the excluded one, and its filter lets channel updates through. */
    static ghost predicate Takes(c: ClientDescriptor, event: Event, exclude: ClientDescriptor?)
      reads c
    {
      c != exclude && (event.ChannelUpdate? ==> c.ChannelFilter.None? || event.channel in c.ChannelFilter.value)
    }

    static method Offer(c: ClientDescriptor, event: Event, exclude: ClientDescriptor?)
      requires c.Connected
      modifies c`OutputChan
      ensures c.OutputChan == old(c.OutputChan) + (if Takes(c, event, exclude) then [event] else [])
    {
      if c != exclude {
        if event.ChannelUpdate? {
          if c.ChannelFilter.None? || event.channel in c.ChannelFilter.value {
            var _ := c.SendEvent(event);
          }
        } else {
          var _ := c.SendEvent(event);
        }
      }
    }

    method Broadcast(event: Event, exclude: ClientDescriptor?)
      requires Valid()
      modifies (set c | c in list)`OutputChan
      ensures Valid() && list == old(list)
      ensures forall i :: 0 <= i < |list| ==>
                list[i].OutputChan
                == if list[i] == exclude then old(list[i].OutputChan)
                   else if event.Other? || list[i].ChannelFilter.None? || event.channel in list[i].ChannelFilter.value
                   then old(list[i].OutputChan) + [event]
                   else old(list[i].OutputChan)
    {
      var c := clients;
      ghost var i := 0;
      Distinct(list);
      while c != null
        invariant 0 <= i <= |list| && c == At(list, i)
        invariant forall k :: 0 <= k < i ==>
                    list[k].OutputChan
                    == old(list[k].OutputChan) + (if Takes(list[k], event, exclude) then [event] else [])
        invariant forall k :: i <= k < |list| ==> list[k].OutputChan == old(list[k].OutputChan)
        decreases |list| - i
      {
        Offer(c, event, exclude);
        c := c.Next;
        i := i + 1;
      }
    }
  }
}
