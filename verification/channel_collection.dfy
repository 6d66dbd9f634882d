/** ChannelCollection in memory (models/channel.go), proved to be the directory of module Channels. */
module ChannelCollection {
  import opened Nocan
  import opened Channels

  class Channel {
    const Id: ChannelId
    const Name: string
    var Value: seq<byte>

    constructor (id: ChannelId, name: string)
      ensures Id == id && Name == name && Value == []
    {
      Id, Name, Value := id, name, [];
    }

    /** Content above 64 bytes is refused and the old content stays. */
    method SetContent(content: seq<byte>) returns (ok: bool)
      modifies this
      ensures ok <==> |content| <= MAX_PAYLOAD
      ensures Value == if ok then content else old(Value)
    {
      ok := |content| <= MAX_PAYLOAD;
      if ok {
        Value := content;
      }
    }
  }

  class Collection {
    var ById: map<ChannelId, Channel>
    var ByName: map<string, Channel>
    var TopId: ChannelId

    ghost function Value(): Directory
      reads this
    {
      Directory(Names(ById), Ids(ByName), TopId)
    }

    static ghost function Names(byId: map<ChannelId, Channel>): (r: map<ChannelId, string>)
      ensures r.Keys == byId.Keys
    {
      map i | i in byId :: byId[i].Name
    }

    static ghost function Ids(byName: map<string, Channel>): (r: map<string, ChannelId>)
      ensures r.Keys == byName.Keys
    {
      map n | n in byName :: byName[n].Id
    }

    ghost predicate Valid()
      reads this
    {
      Filed(ById, ByName)
    }

    /** Every channel object carries the id and the name it is filed under, and both maps file the same object. */
    static ghost predicate Filed(byId: map<ChannelId, Channel>, byName: map<string, Channel>) {
      && (forall i :: i in byId ==> byId[i].Id == i && byId[i].Name in byName && byName[byId[i].Name] == byId[i])
      && (forall n :: n in byName ==> byName[n].Name == n && byName[n].Id in byId && byId[byName[n].Id] == byName[n])
    }

    static lemma Filing(byId: map<ChannelId, Channel>, byName: map<string, Channel>, c: Channel)
      requires Filed(byId, byName)
      ensures Names(byId[c.Id := c]) == Names(byId)[c.Id := c.Name]
      ensures Ids(byName[c.Name := c]) == Ids(byName)[c.Name := c.Id]
      ensures c.Id !in byId && c.Name !in byName ==> Filed(byId[c.Id := c], byName[c.Name := c])
    {
    }

    static lemma Unfiling(byId: map<ChannelId, Channel>, byName: map<string, Channel>, c: Channel)
      requires Filed(byId, byName)
      ensures Names(byId - {c.Id}) == Names(byId) - {c.Id} && Ids(byName - {c.Name}) == Ids(byName) - {c.Name}
      ensures c.Id in byId && byId[c.Id] == c ==> Filed(byId - {c.Id}, byName - {c.Name})
    {
    }

    constructor ()
      ensures Valid() && Value() == Directory(map[], map[], 0)
      ensures ById == map[]
    {
      ById, ByName, TopId := map[], map[], 0;
    }

    static ghost function IdOf(channel: Channel?): Option<ChannelId> {
      if channel == null then None else Some(channel.Id)
    }

    /** The channel of a name is the one its id leads to; there is none exactly when no channel has that name. */
    method Lookup(name: string) returns (channel: Channel?)
      ensures IdOf(channel) == Channels.Lookup(Value(), name) && (channel != null ==> channel == ByName[name])
      ensures Valid() ==>
                && (channel != null ==> channel.Name == name && channel.Id in ById && ById[channel.Id] == channel)
                && (channel == null <==> forall i :: i in ById ==> ById[i].Name != name)
    {
      channel := if name in ByName then ByName[name] else null;
    }

    /** The channel of an id is the one its name leads to; there is none exactly when no channel has that id. */
    method Find(id: ChannelId) returns (channel: Channel?)
      ensures channel != null <==> id in Value().byId
      ensures channel != null ==> channel == ById[id] && channel.Name == Value().byId[id]
      ensures Valid() ==>
                && (channel != null ==> channel.Id == id && channel.Name in ByName && ByName[channel.Name] == channel)
                && (channel == null <==> forall n :: n in ByName ==> ByName[n].Id != id)
    {
      channel := if id in ById then ById[id] else null;
    }

    method Register(name: string) returns (channel: Channel?)
      requires Valid()
      requires Full(Value()) ==> name == "" || name in ByName
      modifies this
      ensures Valid()
      ensures var (d, id) := Channels.Register(old(Value()), name);
              && Value() == d && (channel == null <==> id.None?)
              && (channel != null ==>
                    id == Some(channel.Id) && channel.Name == name && ById == old(ById)[channel.Id := channel])
      ensures channel != null && old(name !in ByName) ==> fresh(channel) && channel.Value == []
    {
      if name == "" {
        return null;
      }
      channel := Lookup(name);
      if channel != null {
        return;
      }
      Search();
      channel := new Channel(TopId, name);
      Filing(ById, ByName, channel);
      ById := ById[TopId := channel];
      ByName := ByName[name := channel];
      TopId := Next(TopId);
    }

    /** The loop that moves the cursor to a free id: each turn brings it nearer to one. */
    method Search()
      requires !Full(Value())
      modifies this`TopId
      ensures TopId == Grant(old(Value()))
    {
      ghost var d := Value();
      ghost var k := Skips(d.byId, d.top, ID_COUNT);
      ghost var j := 0;
      while TopId in ById
        invariant 0 <= j <= k && TopId == IdAt(d.top, j)
        decreases k - j
      {
        TopId := Next(TopId);
        j := j + 1;
      }
    }

    method Unregister(channel: Channel) returns (ok: bool)
      requires Valid()
      modifies this
      ensures ok && Value() == Channels.Unregister(old(Value()), channel.Name, channel.Id)
      ensures ById == old(ById) - {channel.Id} && ByName == old(ByName) - {channel.Name} && TopId == old(TopId)
      ensures old(channel.Id in ById && ById[channel.Id] == channel) ==> Valid()
    {
      Unfiling(ById, ByName, channel);
      ByName := ByName - {channel.Name};
      ById := ById - {channel.Id};
      return true;
    }
  }
}
