/**
  Device identifiers and the persistent cache of leased addresses (models/node.go:18-60, models/node_cache.go).
  The cache file is the sequence of its entries; file I/O, JSON and the save timer are not modelled.
 */
module NodeCache {
  import opened Nocan

  // ---------- Device identifiers ----------

  type Udid = u: seq<byte> | |u| == 8 witness [0, 0, 0, 0, 0, 0, 0, 0]
  const NULL_UDID: Udid := [0, 0, 0, 0, 0, 0, 0, 0]

  const HEX := "0123456789abcdef"

  /** Character k of the text form xx:xx:xx:xx:xx:xx:xx:xx */
  function TextAt(u: Udid, k: nat): char
    requires k < 23
  {
    if k % 3 == 0 then HEX[u[k / 3] / 16] else if k % 3 == 1 then HEX[u[k / 3] % 16] else ':'
  }

  function Text(u: Udid): (s: string)
    ensures |s| == 23
  {
    seq(23, k requires 0 <= k < 23 => TextAt(u, k))
  }

  /** Udid8.String */
  method String(u: Udid) returns (s: string)
    ensures s == Text(u)
  {
    s := "";
    for i := 0 to 8
      invariant |s| == if i == 0 then 0 else 3 * i - 1
      invariant forall k :: 0 <= k < |s| ==> s[k] == TextAt(u, k)
    {
      if i > 0 {
        s := s + ":";
      }
      s := s + [HEX[u[i] / 16], HEX[u[i] % 16]];
    }
  }

  /** Overrun: the code slices past the text or past its eight bytes, which ends the program. (Where Go has given the
      copy of the text room to spare, a lone last digit only fails, as a bad one.) */
  datatype Decoded = Bytes(bytes: seq<byte>) | BadDigit | MissingColon | Overrun

  function Nibble(c: char): (v: int)
    ensures -1 <= v < 16
  {
    if '0' <= c <= '9' then c as int - '0' as int
    else if 'a' <= c <= 'f' then c as int - 'a' as int + 10
    else if 'A' <= c <= 'F' then c as int - 'A' as int + 10
    else -1
  }

  /** Two digits at k, and a colon before them. */
  predicate PairAt(s: string, k: nat)
    requires k < |s|
  {
    k + 1 < |s| && Nibble(s[k]) >= 0 && Nibble(s[k + 1]) >= 0 && (k > 0 ==> s[k - 1] == ':')
  }

  /** What is wrong when there is no pair at i. */
  function FaultAt(s: string, i: nat): (d: Decoded)
    requires i < |s|
    ensures !d.Bytes?
  {
    if i + 1 == |s| then Overrun
    else if Nibble(s[i]) < 0 || Nibble(s[i + 1]) < 0 then BadDigit
    else MissingColon
  }

  function PairValue(s: string, i: nat): byte
    requires i < |s| && PairAt(s, i)
  {
    Nibble(s[i]) * 16 + Nibble(s[i + 1])
  }

  function Prefixed(bytes: seq<byte>, d: Decoded): Decoded { if d.Bytes? then Bytes(bytes + d.bytes) else d }

  /** What the loop makes of the text from character i on. */
  function DecodeFrom(s: string, i: nat): Decoded
    decreases |s| - i
  {
    if i >= |s| then Bytes([])
    else if i >= 24 then Overrun
    else if !PairAt(s, i) then FaultAt(s, i)
    else Prefixed([PairValue(s, i)], DecodeFrom(s, i + 3))
  }

  lemma PrefixedTwice(a: seq<byte>, b: byte, d: Decoded)
    ensures Prefixed(a, Prefixed([b], d)) == Prefixed(a + [b], d) && Prefixed([], d) == d
  {
    if d.Bytes? {
      assert a + ([b] + d.bytes) == (a + [b]) + d.bytes && [] + d.bytes == d.bytes;
    }
  }

  /** Udid8.DecodeString. It fills a copy of its receiver, so callers only learn whether it succeeded; the model
      returns what was decoded. */
  method DecodeString(s: string) returns (d: Decoded)
    ensures d == DecodeFrom(s, 0)
  {
    var bytes: seq<byte> := [];
    var i := 0;
    PrefixedTwice([], 0, DecodeFrom(s, 0));
    while i < |s|
      invariant DecodeFrom(s, 0) == Prefixed(bytes, DecodeFrom(s, i))
      decreases |s| - i
    {
      if i >= 24 || i + 1 == |s| {
        return Overrun;
      }
      if Nibble(s[i]) < 0 || Nibble(s[i + 1]) < 0 {
        return BadDigit;
      }
      if i > 0 && s[i - 1] != ':' {
        return MissingColon;
      }
      PrefixedTwice(bytes, PairValue(s, i), DecodeFrom(s, i + 3));
      bytes := bytes + [Nibble(s[i]) * 16 + Nibble(s[i + 1])];
      i := i + 3;
    }
    assert bytes + [] == bytes;
    d := Bytes(bytes);
  }

  ghost predicate PairsFrom(s: string, i: nat) {
    |s| <= 24 && forall k :: i <= k < |s| && k % 3 == 0 ==> PairAt(s, k)
  }

  lemma PairsFromNext(s: string, i: nat)
    requires i % 3 == 0 && i < |s|
    ensures PairsFrom(s, i) <==> |s| <= 24 && PairAt(s, i) && PairsFrom(s, i + 3)
  {
  }

  lemma {:induction false} DecodesFromExactlyWhen(s: string, i: nat)
    requires i % 3 == 0 && i <= 24
    ensures DecodeFrom(s, i).Bytes? <==> i >= |s| || PairsFrom(s, i)
    decreases |s| - i
  {
    if i >= |s| || i == 24 {
    } else {
      DecodesFromExactlyWhen(s, i + 3);
      PairsFromNext(s, i);
    }
  }

  /** A text decodes if and only if it is at most eight pairs of digits with colons between; a character after the last
      pair is not looked at. */
  lemma DecodesExactlyWhen(s: string)
    ensures DecodeFrom(s, 0).Bytes? <==> PairsFrom(s, 0)
  {
    DecodesFromExactlyWhen(s, 0);
  }

  /** What a text that does not decode is refused for: the first place where a pair should be decides. */
  lemma FirstFaultTells(s: string, k: nat)
    requires k < |s| && k % 3 == 0 && k < 24 && forall j :: 0 <= j < k && j % 3 == 0 ==> PairAt(s, j)
    ensures DecodeFrom(s, 0).Overrun? <== k + 1 == |s|
    ensures DecodeFrom(s, 0).BadDigit? <== k + 1 < |s| && (Nibble(s[k]) < 0 || Nibble(s[k + 1]) < 0)
    ensures DecodeFrom(s, 0).MissingColon?
        <== k + 1 < |s| && Nibble(s[k]) >= 0 && Nibble(s[k + 1]) >= 0 && k > 0 && s[k - 1] != ':'
  {
    FaultIsKept(s, 0, k);
  }

  lemma {:induction false} FaultIsKept(s: string, i: nat, k: nat)
    requires i <= k < |s| && i % 3 == k % 3 == 0 && k < 24
    requires forall j :: 0 <= j < k && j % 3 == 0 ==> PairAt(s, j)
    ensures !PairAt(s, k) ==> DecodeFrom(s, i) == FaultAt(s, k)
    decreases k - i
  {
    if i < k {
      FaultIsKept(s, i + 3, k);
    }
  }

  lemma NibbleReadsHex(v: int)
    requires 0 <= v < 16
    ensures Nibble(HEX[v]) == v
  {
    if v < 10 {
      assert HEX[v] == '0' + v as char;
    } else {
      assert HEX[v] == 'a' + (v - 10) as char;
    }
  }

  lemma TextOfByte(u: Udid, k: nat)
    requires k < 8
    ensures var s := Text(u);
            && Nibble(s[3 * k]) == u[k] / 16 && Nibble(s[3 * k + 1]) == u[k] % 16
            && (k > 0 ==> s[3 * k - 1] == ':')
  {
    NibbleReadsHex(u[k] / 16);
    NibbleReadsHex(u[k] % 16);
    assert Text(u)[3 * k] == TextAt(u, 3 * k) && Text(u)[3 * k + 1] == TextAt(u, 3 * k + 1);
    assert k > 0 ==> Text(u)[3 * k - 1] == TextAt(u, 3 * (k - 1) + 2);
  }

  lemma {:induction false} HexDecodesFrom(s: string, u: Udid, k: nat)
    requires |s| == 23 && k <= 8
    requires forall j :: 0 <= j < 8 ==> Nibble(s[3 * j]) == u[j] / 16 && Nibble(s[3 * j + 1]) == u[j] % 16
    requires forall j :: 0 < j < 8 ==> s[3 * j - 1] == ':'
    ensures DecodeFrom(s, 3 * k) == Bytes(u[k..])
    decreases 8 - k
  {
    if k >= 8 {
    } else {
      HexDecodesFrom(s, u, k + 1);
      assert u[k] / 16 * 16 + u[k] % 16 == u[k];
      assert u[k..] == [u[k]] + u[k + 1..];
    }
  }

  lemma TextDecodes(u: Udid)
    ensures DecodeFrom(Text(u), 0) == Bytes(u)
  {
    forall j | 0 <= j < 8
      ensures Nibble(Text(u)[3 * j]) == u[j] / 16 && Nibble(Text(u)[3 * j + 1]) == u[j] % 16
      ensures j > 0 ==> Text(u)[3 * j - 1] == ':'
    {
      TextOfByte(u, j);
    }
    HexDecodesFrom(Text(u), u, 0);
  }

  /** The form itself: lower-case pairs, most significant first, colons between. */
  lemma TextOfExample()
    ensures Text([0x00, 0x1F, 0x2E, 0x3D, 0x4C, 0x5B, 0x6A, 0x79]) == "00:1f:2e:3d:4c:5b:6a:79"
  {
  }

  /** The text form decodes to the identifier it came from, so no two identifiers share a cache key. */
  lemma TextIsInjective(u: Udid, v: Udid)
    ensures DecodeFrom(Text(u), 0) == Bytes(u)
    ensures Text(u) == Text(v) ==> u == v
  {
    TextDecodes(u);
    TextDecodes(v);
  }

  // ---------- The cache as a value ----------

  type NodeId = int

  datatype Cache = Cache(ids: map<string, NodeId>, udids: map<NodeId, string>)
  const EMPTY := Cache(map[], map[])

  /** The two maps undo each other. */
  ghost predicate Bijective(c: Cache) {
    && (forall s :: s in c.ids ==> c.ids[s] in c.udids && c.udids[c.ids[s]] == s)
    && (forall i :: i in c.udids ==> c.udids[i] in c.ids && c.ids[c.udids[i]] == i)
  }

  function LookupKey(c: Cache, key: string): NodeId { if key in c.ids then c.ids[key] else 0 }

  function WithEntry(c: Cache, key: string, id: NodeId): Cache {
    if key in c.ids && c.ids[key] == id then c
    else
      var kept := if id in c.udids then c.ids - {c.udids[id]} else c.ids;
      Cache(kept[key := id], c.udids[id := key])
  }

  /** NodeCacheSetEntry never drops the old address of a device it moves. The maps therefore stay inverse if and
      only if the device had no other address. */
  lemma SetEntryKeepsBijection(c: Cache, key: string, id: NodeId)
    requires Bijective(c)
    ensures Bijective(WithEntry(c, key, id)) <==> key !in c.ids || c.ids[key] == id
  {
    var d := WithEntry(c, key, id);
    if key in c.ids && c.ids[key] != id {
      var left := c.ids[key];
      assert d.udids[left] == key && d.ids[key] == id;
    }
  }

  // ---------- Save and Load ----------

  datatype Entry = Entry(udid: string, id: NodeId)

  /** A listing of the cache in whatever order the map is walked; sorting leaves it as it is, for the comparator
      compares an entry with itself. */
  ghost predicate Lists(es: seq<Entry>, ids: map<string, NodeId>) {
    && (forall k :: 0 <= k < |es| ==> es[k].udid in ids && ids[es[k].udid] == es[k].id)
    && (forall j, k :: 0 <= j < k < |es| ==> es[j].udid != es[k].udid)
    && (forall s :: s in ids ==> exists k :: 0 <= k < |es| && es[k].udid == s)
  }

  function LoadOne(c: Cache, e: Entry): Cache {
    if e.id in c.udids then c else Cache(c.ids[e.udid := e.id], c.udids[e.id := e.udid])
  }

  /** The cache after Load, and whether every entry could be decoded: the first that cannot ends the load. */
  function Loaded(c: Cache, es: seq<Entry>): (Cache, bool)
    decreases |es|
  {
    if es == [] then (c, true)
    else if !DecodeFrom(es[0].udid, 0).Bytes? then (c, false)
    else Loaded(LoadOne(c, es[0]), es[1..])
  }

  /** How many entries are read: up to the first that cannot be decoded. */
  function Legible(es: seq<Entry>): (n: nat)
    ensures n <= |es|
  {
    if es == [] || !DecodeFrom(es[0].udid, 0).Bytes? then 0 else 1 + Legible(es[1..])
  }

  /** Whatever the file: the first entry read for an address has it, unless the cache had it already; and the load is
      complete exactly when all entries can be decoded. */
  lemma FirstEntryWins(c: Cache, es: seq<Entry>)
    ensures var (d, ok) := Loaded(c, es);
            && (ok <==> forall k :: 0 <= k < |es| ==> DecodeFrom(es[k].udid, 0).Bytes?)
            && (forall i :: i in c.udids ==> i in d.udids && d.udids[i] == c.udids[i])
            && (forall i :: i in d.udids && i !in c.udids ==> exists k :: 0 <= k < Legible(es) && es[k].id == i)
            && (forall k :: 0 <= k < Legible(es) && FirstWithId(c, es, k) ==>
                  es[k].id in d.udids && d.udids[es[k].id] == es[k].udid && es[k].udid in d.ids)
            && (forall u :: u in c.ids ==> u in d.ids)
  {
    LoadOnlyAdds(c, es);
    hide Loaded;
    hide Legible;
    hide FirstWithId;
    var d := Loaded(c, es).0;
    forall i | i in d.udids && i !in c.udids ensures exists k :: 0 <= k < Legible(es) && es[k].id == i {
      var k := IdIsOfAnEntry(c, es, i);
    }
    forall k | 0 <= k < Legible(es) && FirstWithId(c, es, k)
      ensures es[k].id in d.udids && d.udids[es[k].id] == es[k].udid && es[k].udid in d.ids
    {
      FirstIsLoaded(c, es, k);
    }
  }

  lemma {:induction false} LoadOnlyAdds(c: Cache, es: seq<Entry>)
    ensures var (d, ok) := Loaded(c, es);
            && (ok <==> forall k :: 0 <= k < |es| ==> DecodeFrom(es[k].udid, 0).Bytes?)
            && (forall i :: i in c.udids ==> i in d.udids && d.udids[i] == c.udids[i])
            && (forall u :: u in c.ids ==> u in d.ids)
    decreases |es|
  {
    if es == [] || !DecodeFrom(es[0].udid, 0).Bytes? {
    } else {
      hide DecodeFrom;
      LoadOnlyAdds(LoadOne(c, es[0]), es[1..]);
    }
  }

  lemma {:induction false} IdIsOfAnEntry(c: Cache, es: seq<Entry>, i: NodeId) returns (k: nat)
    requires i in Loaded(c, es).0.udids && i !in c.udids
    ensures k < Legible(es) && es[k].id == i
    decreases |es|
  {
    if es[0].id == i {
      k := 0;
    } else {
      k := IdIsOfAnEntry(LoadOne(c, es[0]), es[1..], i);
      k := k + 1;
    }
  }

  lemma {:induction false} FirstIsLoaded(c: Cache, es: seq<Entry>, k: nat)
    requires k < Legible(es) && FirstWithId(c, es, k)
    ensures var d := Loaded(c, es).0;
            es[k].id in d.udids && d.udids[es[k].id] == es[k].udid && es[k].udid in d.ids
    decreases |es|
  {
    hide DecodeFrom;
    var n, rest := LoadOne(c, es[0]), es[1..];
    if k == 0 {
      LoadOnlyAdds(n, rest);
    } else {
      assert es[0].id != es[k].id && rest[k - 1] == es[k];
      FirstIsLoaded(n, rest, k - 1);
    }
  }

  predicate FirstWithId(c: Cache, es: seq<Entry>, k: nat)
    requires k < |es|
  {
    es[k].id !in c.udids && forall j :: 0 <= j < k ==> es[j].id != es[k].id
  }

  lemma SameIdsSameUdids(a: Cache, b: Cache)
    requires Bijective(a) && Bijective(b) && a.ids == b.ids
    ensures a == b
  {
    forall i | i in a.udids ensures i in b.udids && b.udids[i] == a.udids[i] {
      assert b.ids[a.udids[i]] == i;
    }
    forall i | i in b.udids ensures i in a.udids {
      assert a.ids[b.udids[i]] == i;
    }
    assert a.udids == b.udids;
  }

  lemma NewAddressIsFree(part: Cache, whole: Cache, e: Entry)
    requires Bijective(whole) && Bijective(part)
    requires forall s :: s in part.ids ==> s in whole.ids && whole.ids[s] == part.ids[s]
    requires e.udid !in part.ids && e.udid in whole.ids && whole.ids[e.udid] == e.id
    ensures e.id !in part.udids && Bijective(LoadOne(part, e))
  {
  }

  lemma {:induction false} LoadCompletes(part: Cache, es: seq<Entry>, whole: Cache)
    requires Bijective(whole) && Bijective(part)
    requires forall k :: 0 <= k < |es| ==> DecodeFrom(es[k].udid, 0).Bytes?
    requires forall s :: s in part.ids ==> s in whole.ids && whole.ids[s] == part.ids[s]
    requires forall k :: 0 <= k < |es| ==>
               es[k].udid !in part.ids && es[k].udid in whole.ids && whole.ids[es[k].udid] == es[k].id
    requires forall j, k :: 0 <= j < k < |es| ==> es[j].udid != es[k].udid
    requires forall s :: s in whole.ids ==> s in part.ids || exists k :: 0 <= k < |es| && es[k].udid == s
    ensures Loaded(part, es) == (whole, true)
    decreases |es|
  {
    if es == [] {
      assert part.ids == whole.ids;
      SameIdsSameUdids(part, whole);
    } else {
      var e := es[0];
      var next := LoadOne(part, e);
      NewAddressIsFree(part, whole, e);
      var rest := es[1..];
      forall s | s in whole.ids ensures s in next.ids || exists k :: 0 <= k < |rest| && rest[k].udid == s {
        if s !in next.ids {
          var k :| 0 <= k < |es| && es[k].udid == s;
          assert rest[k - 1].udid == s;
        }
      }
      LoadCompletes(next, rest, whole);
    }
  }

  /** The keys of the cache are text forms of device identifiers. */
  ghost predicate KeysAreUdids(c: Cache) {
    forall s :: s in c.ids ==> exists u: Udid :: s == Text(u)
  }

  /** Loading a saved cache gives it back, in whatever order it was written. */
  lemma LoadUndoesSave(c: Cache, es: seq<Entry>)
    requires Bijective(c) && KeysAreUdids(c) && Lists(es, c.ids)
    ensures Loaded(EMPTY, es) == (c, true)
  {
    forall k | 0 <= k < |es| ensures DecodeFrom(es[k].udid, 0).Bytes? {
      var u: Udid :| es[k].udid == Text(u);
      TextDecodes(u);
    }
    LoadCompletes(EMPTY, es, c);
  }

  // ---------- The cache in memory ----------

  /** The package-level variables of models/node_cache.go. */
  class Store {
    var nodeCache: map<string, NodeId>
    var reverseNodeCache: map<NodeId, string>
    var isDirty: bool

    ghost function Value(): Cache
      reads this
    {
      Cache(nodeCache, reverseNodeCache)
    }

    constructor ()
      ensures Value() == EMPTY && !isDirty
    {
      nodeCache, reverseNodeCache, isDirty := map[], map[], false;
    }

    method SetEntry(udid: Udid, id: NodeId) returns (changed: bool)
      modifies this
      ensures Value() == WithEntry(old(Value()), Text(udid), id)
      ensures changed <==> Value() != old(Value())
      ensures isDirty == (old(isDirty) || changed)
    {
      var key := String(udid);
      if key in nodeCache && nodeCache[key] == id {
        return false;
      }
      if id in reverseNodeCache {
        nodeCache := nodeCache - {reverseNodeCache[id]};
      }
      nodeCache := nodeCache[key := id];
      reverseNodeCache := reverseNodeCache[id := key];
      isDirty := true;
      assert nodeCache[key] == id;
      return true;
    }

    method Lookup(udid: Udid) returns (id: NodeId)
      ensures id == LookupKey(Value(), Text(udid))
    {
      var key := String(udid);
      id := if key in nodeCache then nodeCache[key] else 0;
    }

    /** With sound maps: whether some device is cached under the address. */
    method ReverseLookup(id: NodeId) returns (found: bool)
      ensures found <==> id in Value().udids
      ensures Bijective(Value()) ==> (found <==> exists s :: s in nodeCache && nodeCache[s] == id)
    {
      found := id in reverseNodeCache;
    }

    /** What Save writes; None when nothing changed since the program started. */
    method Save() returns (written: bool, es: seq<Entry>)
      ensures written == isDirty
      ensures written ==> Lists(es, nodeCache)
    {
      es := [];
      if !isDirty {
        return false, es;
      }
      var left := nodeCache.Keys;
      while left != {}
        invariant left <= nodeCache.Keys
        invariant forall k :: 0 <= k < |es| ==>
                    es[k].udid in nodeCache && es[k].udid !in left && nodeCache[es[k].udid] == es[k].id
        invariant forall j, k :: 0 <= j < k < |es| ==> es[j].udid != es[k].udid
        invariant forall s :: s in nodeCache ==> s in left || exists k :: 0 <= k < |es| && es[k].udid == s
        decreases left
      {
        var s :| s in left;
        ghost var before := es;
        es := es + [Entry(s, nodeCache[s])];
        left := left - {s};
        assert es[|es| - 1].udid == s;
        forall t | t in nodeCache ensures t in left || exists k :: 0 <= k < |es| && es[k].udid == t {
          if t != s && t !in left {
            var k :| 0 <= k < |before| && before[k].udid == t;
            assert es[k].udid == t;
          }
        }
      }
      return true, es;
    }

    method Load(es: seq<Entry>) returns (ok: bool)
      modifies this
      ensures (Value(), ok) == Loaded(old(Value()), es) && isDirty == old(isDirty)
    {
      for k := 0 to |es|
        invariant isDirty == old(isDirty)
        invariant Loaded(Value(), es[k..]) == Loaded(old(Value()), es)
      {
        assert es[k..][0] == es[k] && es[k..][1..] == es[k + 1..];
        var d := DecodeString(es[k].udid);
        if !d.Bytes? {
          return false;
        }
        if es[k].id !in reverseNodeCache {
          nodeCache := nodeCache[es[k].udid := es[k].id];
          reverseNodeCache := reverseNodeCache[es[k].id := es[k].udid];
        }
      }
      return true;
    }
  }
}
