/**
  Payloads of events (socket/event_types.go): channel updates, node updates, firmware and channel filters, alone
  and in lists. Names and values are byte strings; a time is its signed nanoseconds since 1970.
 */
module EventTypes {
  import opened Nocan
  import opened BigEndian

  type uint32 = i: int | 0 <= i < 0x1_0000_0000
  const TWO64 := 0x1_0000_0000_0000_0000
  type int64 = t: int | -0x8000_0000_0000_0000 <= t < 0x8000_0000_0000_0000

  /** OutOfRange: the code indexes past the end of its input, which ends the program. Errors leave a receiver that
      nobody uses, so only a success carries a value, and how many bytes it took. */
  datatype Parsed<+T> = Ok(value: T, size: nat) | MissingData | NameTooLong | OutOfRange

  function Unsigned(t: int64): (u: nat)
    ensures u < TWO64
  {
    if t < 0 then t + TWO64 else t
  }

  function Signed(u: nat): int64
    requires u < TWO64
  {
    if u >= 0x8000_0000_0000_0000 then u - TWO64 else u
  }

  // ---------- Lists of anything ----------

  ghost predicate Advances<T(!new)>(unpack: seq<byte> -> Parsed<T>) {
    forall b :: unpack(b).Ok? ==> 0 < unpack(b).size <= |b|
  }

  /** Unpack of ChannelListEvent, NodeListEvent and the blocks of NodeFirmwareEvent: one item after the other until
      nothing is left; the first failure ends it. */
  function UnpackAll<T(!new)>(unpack: seq<byte> -> Parsed<T>, b: seq<byte>): Parsed<seq<T>>
    requires Advances(unpack)
    decreases |b|
  {
    if b == [] then Ok([], 0)
    else
      match unpack(b)
      case Ok(x, n) =>
        (match UnpackAll(unpack, b[n..])
         case Ok(xs, m) => Ok([x] + xs, n + m)
         case MissingData => MissingData case NameTooLong => NameTooLong case OutOfRange => OutOfRange)
      case MissingData => MissingData case NameTooLong => NameTooLong case OutOfRange => OutOfRange
  }

  function PackAll<T>(pack: T -> seq<byte>, xs: seq<T>): seq<byte> {
    if xs == [] then [] else pack(xs[0]) + PackAll(pack, xs[1..])
  }

  /** The loop over a shrinking slice. */
  method UnpackList<T(!new)>(unpack: seq<byte> -> Parsed<T>, bytes: seq<byte>) returns (r: Parsed<seq<T>>)
    requires Advances(unpack)
    ensures r == UnpackAll(unpack, bytes)
  {
    var items: seq<T>, b := [], bytes;
    assert forall r: Parsed<seq<T>> :: Prepended([], 0, r) == r by {
      forall r: Parsed<seq<T>> ensures Prepended([], 0, r) == r {
        assert r.Ok? ==> [] + r.value == r.value;
      }
    }
    while b != []
      invariant |b| <= |bytes|
      invariant UnpackAll(unpack, bytes) == Prepended(items, |bytes| - |b|, UnpackAll(unpack, b))
      decreases |b|
    {
      match unpack(b)
      case Ok(x, n) =>
        PrependedTwice(items, |bytes| - |b|, x, n, UnpackAll(unpack, b[n..]));
        items := items + [x];
        b := b[n..];
      case MissingData => return MissingData;
      case NameTooLong => return NameTooLong;
      case OutOfRange => return OutOfRange;
    }
    assert items + [] == items;
    return Ok(items, |bytes|);
  }

  function Prepended<T>(xs: seq<T>, n: nat, r: Parsed<seq<T>>): Parsed<seq<T>> {
    if r.Ok? then Ok(xs + r.value, n + r.size) else r
  }

  lemma PrependedTwice<T>(xs: seq<T>, n: nat, x: T, m: nat, r: Parsed<seq<T>>)
    ensures Prepended(xs, n, Prepended([x], m, r)) == Prepended(xs + [x], n + m, r)
  {
    if r.Ok? {
      assert xs + ([x] + r.value) == (xs + [x]) + r.value;
    }
  }

  /** What an item codec promises; then its lists keep the same promises. */
  ghost predicate Codec<T(!new)>(pack: T -> seq<byte>, unpack: seq<byte> -> Parsed<T>, good: T -> bool) {
    && Advances(unpack)
    && (forall x, tail :: unpack(pack(x) + tail) == Ok(x, |pack(x)|) <==> good(x))
    && (forall b :: unpack(b).Ok? ==> good(unpack(b).value) && b[..unpack(b).size] == pack(unpack(b).value))
  }

  /** A list that unpacks at all has good items and is their packing, byte for byte. */
  lemma {:induction false} UnpackedListRepacks<T(!new)>(pack: T -> seq<byte>, unpack: seq<byte> -> Parsed<T>,
                                                       good: T -> bool, b: seq<byte>)
    requires Codec(pack, unpack, good) && UnpackAll(unpack, b).Ok?
    ensures var r := UnpackAll(unpack, b);
            PackAll(pack, r.value) == b && r.size == |b| && forall k :: 0 <= k < |r.value| ==> good(r.value[k])
    decreases |b|
  {
    if b == [] {
    } else {
      var n := unpack(b).size;
      UnpackedListRepacks(pack, unpack, good, b[n..]);
      assert b == b[..n] + b[n..];
    }
  }

  /** A packed list unpacks to itself if and only if all its items are good. */
  lemma {:induction false} PackedListUnpacksExactlyWhen<T(!new)>(pack: T -> seq<byte>, unpack: seq<byte> -> Parsed<T>,
                                                                good: T -> bool, xs: seq<T>)
    requires Codec(pack, unpack, good)
    ensures UnpackAll(unpack, PackAll(pack, xs)) == Ok(xs, |PackAll(pack, xs)|)
       <==> forall k :: 0 <= k < |xs| ==> good(xs[k])
  {
    if xs == [] {
    } else {
      var b := PackAll(pack, xs);
      if forall k :: 0 <= k < |xs| ==> good(xs[k]) {
        PackedListUnpacksExactlyWhen(pack, unpack, good, xs[1..]);
        assert unpack(b) == Ok(xs[0], |pack(xs[0])|);
        assert b[|pack(xs[0])|..] == PackAll(pack, xs[1..]);
        assert [xs[0]] + xs[1..] == xs;
      } else if UnpackAll(unpack, b).Ok? {
        UnpackedListRepacks(pack, unpack, good, b);
      }
    }
  }

  // ---------- Channel updates ----------

  datatype ChannelUpdate = ChannelUpdate(status: byte, id: ChannelId, name: seq<byte>, value: seq<byte>, updatedAt: int)

  function PackedLength(cu: ChannelUpdate): nat { |cu.name| + |cu.value| + 13 }

  /** uint64(t.UnixNano()), whose arithmetic wraps. */
  function Nanoseconds(t: int): (u: nat)
    ensures u < TWO64
  {
    t % TWO64
  }

  /** The end of an update: value and time. */
  function PackStamped(value: seq<byte>, t: int): (b: seq<byte>)
    ensures |b| == |value| + 9
  {
    [|value| % 0x100] + value + Bytes(Nanoseconds(t), 8)
  }

  function PackUpdate(cu: ChannelUpdate): (b: seq<byte>)
    ensures |b| == PackedLength(cu)
  {
    [cu.status] + Bytes(cu.id, 2) + [|cu.name| % 0x100] + cu.name + PackStamped(cu.value, cu.updatedAt)
  }

  function IdOf(s: seq<byte>): ChannelId
    requires |s| == 2
  {
    BytesOfNumber(s);
    FitsWidths(Number(s));
    Number(s)
  }

  /** Lines 443-454 */
  function UnpackStamped(w: seq<byte>): Parsed<(seq<byte>, nat)> {
    if w == [] then OutOfRange
    else
      var n: nat := w[0];
      if n > |w| - 1 then MissingData
      else if |w| - 1 - n < 8 then MissingData
      else Ok((w[1..1 + n], Number(w[1 + n..9 + n])), 9 + n)
  }

  /** ChannelUpdateEvent.Unpack, with the checks it makes and no others. Its time is read as unsigned. */
  function UnpackUpdate(b: seq<byte>): Parsed<ChannelUpdate> {
    if |b| < 3 then MissingData
    else if |b| < 4 then OutOfRange
    else if b[3] > 64 then NameTooLong
    else if b[3] > |b| - 4 then MissingData
    else
      match UnpackStamped(b[4 + b[3]..])
      case Ok(stamped, n) => Ok(ChannelUpdate(b[0], IdOf(b[1..3]), b[4..4 + b[3]], stamped.0, stamped.1), 4 + b[3] + n)
      case MissingData => MissingData case NameTooLong => NameTooLong case OutOfRange => OutOfRange
  }

  predicate GoodUpdate(cu: ChannelUpdate) { |cu.name| <= 64 && |cu.value| <= 255 && 0 <= cu.updatedAt < TWO64 }

  lemma StampedRepacks(w: seq<byte>)
    requires UnpackStamped(w).Ok?
    ensures var r := UnpackStamped(w);
            && |r.value.0| <= 255 && r.value.1 < TWO64 && r.size == |r.value.0| + 9 <= |w|
            && w[..r.size] == PackStamped(r.value.0, r.value.1)
  {
    var n := w[0];
    var t := w[1 + n..9 + n];
    BytesOfNumber(t);
    FitsWidths(Number(t));
    assert PackStamped(w[1..1 + n], Number(t)) == [n] + w[1..1 + n] + t;
    hide PackStamped;
    hide Number;
    hide Bytes;
    assert w[..9 + n] == [n] + w[1..1 + n] + t;
  }

  lemma StampedUnpacks(value: seq<byte>, t: int, tail: seq<byte>)
    requires |value| <= 255 && 0 <= t < TWO64
    ensures UnpackStamped(PackStamped(value, t) + tail) == Ok((value, t), |value| + 9)
  {
    FitsWidths(t);
    NumberOfBytes(t, 8);
    var w := PackStamped(value, t) + tail;
    assert w[1..1 + |value|] == value && w[1 + |value|..9 + |value|] == Bytes(t, 8);
  }

  lemma StampedLayout(value: seq<byte>, t: int)
    requires |value| <= 255 && 0 <= t < TWO64
    ensures var w, m := PackStamped(value, t), |value|; w[0] == m && w[1..1 + m] == value && Number(w[1 + m..]) == t
  {
    FitsWidths(t);
    NumberOfBytes(t, 8);
    var w := [|value|] + value + Bytes(t, 8);
    assert w == PackStamped(value, t);
    hide PackStamped;
    hide Number;
    hide Bytes;
    assert w[1..1 + |value|] == value && w[1 + |value|..] == Bytes(t, 8);
  }

  /** Where the fields of a packed update are: status, id, name with its length, value with its length, time. */
  lemma UpdateLayout(cu: ChannelUpdate)
    requires GoodUpdate(cu)
    ensures var b, n, m := PackUpdate(cu), |cu.name|, |cu.value|;
            && |b| == 13 + n + m && b[0] == cu.status && Number(b[1..3]) == cu.id && b[3] == n && b[4..4 + n] == cu.name
            && b[4 + n..][0] == m && b[4 + n..][1..1 + m] == cu.value && Number(b[4 + n..][1 + m..]) == cu.updatedAt
  {
    hide PackUpdate;
    StampedLayout(cu.value, cu.updatedAt);
    FitsWidths(cu.id);
    NumberOfBytes(cu.id, 2);
    UpdateHead(cu);
  }

  lemma UpdateHead(cu: ChannelUpdate)
    requires GoodUpdate(cu)
    ensures var b, n := PackUpdate(cu), |cu.name|;
            && |b| >= 13 + n && b[0] == cu.status && b[1..3] == Bytes(cu.id, 2) && b[3] == n && b[4..4 + n] == cu.name
            && b[4 + n..] == PackStamped(cu.value, cu.updatedAt)
  {
    hide PackStamped;
    hide Number;
    hide Bytes;
  }

  /** Unpacking succeeds exactly on the bytes that begin with a packed update. */
  lemma UpdateUnpacksExactlyWhen(b: seq<byte>)
    ensures UnpackUpdate(b).Ok? <==> exists cu :: GoodUpdate(cu) && PackUpdate(cu) <= b
  {
    if UnpackUpdate(b).Ok? {
      UnpackedUpdateRepacks(b);
      assert GoodUpdate(UnpackUpdate(b).value) && PackUpdate(UnpackUpdate(b).value) <= b;
    }
    forall cu | GoodUpdate(cu) && PackUpdate(cu) <= b ensures UnpackUpdate(b).Ok? {
      PackedUpdateUnpacks(cu, b[|PackUpdate(cu)|..]);
      assert PackUpdate(cu) + b[|PackUpdate(cu)|..] == b;
    }
  }

  /** A success has taken exactly the bytes that its result packs to. */
  lemma UnpackedUpdateRepacks(b: seq<byte>)
    requires UnpackUpdate(b).Ok?
    ensures var r := UnpackUpdate(b);
            GoodUpdate(r.value) && r.size == PackedLength(r.value) <= |b| && b[..r.size] == PackUpdate(r.value)
  {
    var r := UnpackUpdate(b);
    var n := b[3];
    var w := b[4 + n..];
    StampedRepacks(w);
    BytesOfNumber(b[1..3]);
    Pieces(b, 4, 4 + n, r.size);
    HeaderPieces(b);
    var (value, t) := UnpackStamped(w).value;
    assert PackUpdate(r.value) == [b[0]] + b[1..3] + [b[3]] + b[4..4 + n] + PackStamped(value, t);
    hide PackUpdate;
    hide UnpackUpdate;
    hide PackStamped;
    hide UnpackStamped;
  }

  lemma Pieces<T>(b: seq<T>, i: nat, j: nat, k: nat)
    requires i <= j <= k <= |b|
    ensures b[..k] == b[..i] + b[i..j] + b[j..][..k - j]
  {
  }

  lemma HeaderPieces<T>(b: seq<T>)
    requires |b| >= 4
    ensures b[..4] == [b[0]] + b[1..3] + [b[3]]
  {
  }

  lemma PackedUpdateUnpacks(cu: ChannelUpdate, tail: seq<byte>)
    requires GoodUpdate(cu)
    ensures UnpackUpdate(PackUpdate(cu) + tail) == Ok(cu, PackedLength(cu))
  {
    FitsWidths(cu.id);
    NumberOfBytes(cu.id, 2);
    StampedUnpacks(cu.value, cu.updatedAt, tail);
    hide PackStamped;
    hide UnpackStamped;
    hide Number;
    hide Bytes;
    var b := PackUpdate(cu) + tail;
    assert b[1..3] == Bytes(cu.id, 2) && b[4..4 + |cu.name|] == cu.name;
    assert b[4 + |cu.name|..] == PackStamped(cu.value, cu.updatedAt) + tail;
  }

  /** Packed and unpacked, whatever follows, an update is the same if and only if its name has at most 64 bytes,
      its value at most 255, and its time is neither before 1970 nor beyond 64 bits of nanoseconds. */
  lemma UpdateSurvivesExactlyWhen(cu: ChannelUpdate, tail: seq<byte>)
    ensures UnpackUpdate(PackUpdate(cu) + tail) == Ok(cu, PackedLength(cu)) <==> GoodUpdate(cu)
  {
    if GoodUpdate(cu) {
      PackedUpdateUnpacks(cu, tail);
    } else if UnpackUpdate(PackUpdate(cu) + tail).Ok? {
      UnpackedUpdateRepacks(PackUpdate(cu) + tail);
    }
  }

  /** Unpacking runs past its input exactly when that ends just before a length byte. */
  lemma UpdateRunsOutExactlyWhen(b: seq<byte>)
    ensures UnpackUpdate(b).OutOfRange? <==> |b| == 3 || (|b| >= 4 && b[3] <= 64 && |b| == 4 + b[3])
  {
  }

  /** Any input can be made good by what follows it, unless its name is too long. */
  lemma NameTooLongExactlyWhen(b: seq<byte>)
    ensures UnpackUpdate(b).NameTooLong? <==> forall tail :: !UnpackUpdate(b + tail).Ok?
  {
    if !UnpackUpdate(b).NameTooLong? {
      var zeros := seq(4 + 64 + 1 + 255 + 8, _ => 0 as byte);
      assert UnpackStamped((b + zeros)[4 + (b + zeros)[3]..]).Ok?;
      assert UnpackUpdate(b + zeros).Ok?;
    }
  }

  lemma UpdateCodec()
    ensures Codec(PackUpdate, UnpackUpdate, GoodUpdate)
  {
    forall b | UnpackUpdate(b).Ok?
      ensures 0 < UnpackUpdate(b).size <= |b| && GoodUpdate(UnpackUpdate(b).value)
      ensures b[..UnpackUpdate(b).size] == PackUpdate(UnpackUpdate(b).value)
    {
      UnpackedUpdateRepacks(b);
    }
    forall cu, tail ensures UnpackUpdate(PackUpdate(cu) + tail) == Ok(cu, |PackUpdate(cu)|) <==> GoodUpdate(cu) {
      UpdateSurvivesExactlyWhen(cu, tail);
    }
  }

  /** ChannelListEvent: a list survives packing if and only if every update in it does. */
  lemma ChannelListSurvivesExactlyWhen(cus: seq<ChannelUpdate>)
    ensures Advances(UnpackUpdate)
    ensures UnpackAll(UnpackUpdate, PackAll(PackUpdate, cus)) == Ok(cus, |PackAll(PackUpdate, cus)|)
       <==> forall k :: 0 <= k < |cus| ==> GoodUpdate(cus[k])
  {
    UpdateCodec();
    PackedListUnpacksExactlyWhen(PackUpdate, UnpackUpdate, GoodUpdate, cus);
  }

  /** copy(buf[at:], s) */
  method Copy(buf: array<byte>, at: nat, s: seq<byte>)
    requires at + |s| <= buf.Length
    modifies buf
    ensures buf[..at + |s|] == old(buf[..at]) + s
  {
    forall k | 0 <= k < |s| { buf[at + k] := s[k]; }
    assert buf[..at + |s|] == buf[..at] + buf[at..at + |s|];
  }

  /** ChannelUpdateEvent.Pack fills one buffer by position. */
  method FillUpdate(cu: ChannelUpdate) returns (buf: array<byte>)
    ensures fresh(buf) && buf[..] == PackUpdate(cu)
  {
    var n := |cu.name|;
    buf := new byte[PackedLength(cu)](_ => 0);
    Copy(buf, 0, [cu.status]);
    Copy(buf, 1, Bytes(cu.id, 2));
    Copy(buf, 3, [n % 0x100]);
    Copy(buf, 4, cu.name);
    ghost var head := buf[..4 + n];
    assert head == [cu.status] + Bytes(cu.id, 2) + [n % 0x100] + cu.name;
    FillStamped(buf, 4 + n, cu.value, cu.updatedAt);
    assert buf[..] == buf[..4 + n + (|cu.value| + 9)];
  }

  /** Lines 415-419 */
  method FillStamped(buf: array<byte>, at: nat, value: seq<byte>, t: int)
    requires at + (|value| + 9) <= buf.Length
    modifies buf
    ensures buf[..at + (|value| + 9)] == old(buf[..at]) + PackStamped(value, t)
  {
    var m := |value|;
    Copy(buf, at, [m % 0x100]);
    Copy(buf, at + 1, value);
    Copy(buf, at + 1 + m, Bytes(Nanoseconds(t), 8));
    assert at + (m + 9) == at + 1 + m + 8;
  }

  // ---------- Node updates ----------

  type int8 = i: int | -128 <= i < 128
  function ByteOf(i: int8): byte { if i < 0 then i + 0x100 else i }
  function Int8Of(b: byte): int8 { if b >= 0x80 then b - 0x100 else b }

  datatype NodeUpdate = NodeUpdate(id: int8, state: nat, udid: seq<byte>, lastSeen: int64)

  function PackNode(nu: NodeUpdate): seq<byte> {
    [ByteOf(nu.id), nu.state % 0x100] + FirstEight(nu.udid) + Bytes(Unsigned(nu.lastSeen), 8)
  }

  /** A udid is an array of eight bytes. */
  function FirstEight(u: seq<byte>): (r: seq<byte>)
    ensures |r| == 8 && (|u| == 8 ==> r == u)
  {
    if |u| == 8 then u else [0, 0, 0, 0, 0, 0, 0, 0]
  }

  function UnpackNode(b: seq<byte>): Parsed<NodeUpdate> {
    if |b| < 18 then MissingData
    else
      FitsWidths(Number(b[10..18]));
      BytesOfNumber(b[10..18]);
      Ok(NodeUpdate(Int8Of(b[0]), b[1], b[2..10], Signed(Number(b[10..18]))), 18)
  }

  predicate GoodNode(nu: NodeUpdate) { nu.state < 0x100 && |nu.udid| == 8 }

  lemma UnpackedNodeRepacks(b: seq<byte>)
    requires UnpackNode(b).Ok?
    ensures GoodNode(UnpackNode(b).value) && b[..18] == PackNode(UnpackNode(b).value)
  {
    var time := b[10..18];
    FitsWidths(Number(time));
    BytesOfNumber(time);
    assert Unsigned(Signed(Number(time))) == Number(time);
    assert b[..18] == [b[0], b[1]] + b[2..10] + time;
  }

  /** Unlike a channel update, a node update survives at any time: its time is read back as signed. */
  lemma NodeSurvivesExactlyWhen(nu: NodeUpdate, tail: seq<byte>)
    ensures UnpackNode(PackNode(nu) + tail) == Ok(nu, 18) <==> GoodNode(nu)
  {
    var b := PackNode(nu) + tail;
    if GoodNode(nu) {
      var u := Unsigned(nu.lastSeen);
      FitsWidths(u);
      NumberOfBytes(u, 8);
      assert b[2..10] == nu.udid && b[10..18] == Bytes(u, 8);
    } else {
      UnpackedNodeRepacks(b);
    }
  }

  /** Where the fields of a packed node update are. */
  lemma NodeLayout(nu: NodeUpdate)
    requires GoodNode(nu)
    ensures var b := PackNode(nu);
            && |b| == 18 && Int8Of(b[0]) == nu.id && b[1] == nu.state && b[2..10] == nu.udid
            && Number(b[10..]) == if nu.lastSeen < 0 then nu.lastSeen + TWO64 else nu.lastSeen
  {
    var u := Unsigned(nu.lastSeen);
    FitsWidths(u);
    NumberOfBytes(u, 8);
    assert PackNode(nu)[10..] == Bytes(u, 8);
  }

  lemma NodeCodec()
    ensures Codec(PackNode, UnpackNode, GoodNode)
  {
    forall b | UnpackNode(b).Ok?
      ensures GoodNode(UnpackNode(b).value) && b[..UnpackNode(b).size] == PackNode(UnpackNode(b).value)
    {
      UnpackedNodeRepacks(b);
    }
    forall nu, tail ensures UnpackNode(PackNode(nu) + tail) == Ok(nu, |PackNode(nu)|) <==> GoodNode(nu) {
      NodeSurvivesExactlyWhen(nu, tail);
    }
  }

  /** NodeListEvent */
  lemma NodeListSurvivesExactlyWhen(nus: seq<NodeUpdate>)
    ensures Advances(UnpackNode)
    ensures UnpackAll(UnpackNode, PackAll(PackNode, nus)) == Ok(nus, |PackAll(PackNode, nus)|)
       <==> forall k :: 0 <= k < |nus| ==> GoodNode(nus[k])
  {
    NodeCodec();
    PackedListUnpacksExactlyWhen(PackNode, UnpackNode, GoodNode, nus);
  }

  // ---------- Firmware ----------

  datatype Block = Block(offset: uint32, data: seq<byte>)
  datatype Firmware = Firmware(id: int8, download: bool, limit: uint32, code: seq<Block>)

  function PackBlock(k: Block): seq<byte> {
    Bytes(k.offset, 4) + Bytes(|k.data| % 0x1_0000_0000, 4) + k.data
  }

  function Uint32Of(s: seq<byte>): uint32
    requires |s| == 4
  {
    BytesOfNumber(s);
    FitsWidths(Number(s));
    Number(s)
  }

  function UnpackBlock(b: seq<byte>): Parsed<Block> {
    if |b| < 8 then MissingData
    else
      var n := Uint32Of(b[4..8]);
      if |b| - 8 < n then MissingData else Ok(Block(Uint32Of(b[..4]), b[8..8 + n]), 8 + n)
  }

  predicate GoodBlock(k: Block) { |k.data| < 0x1_0000_0000 }

  lemma BlockCodec()
    ensures Codec(PackBlock, UnpackBlock, GoodBlock)
  {
    forall b | UnpackBlock(b).Ok?
      ensures GoodBlock(UnpackBlock(b).value) && b[..UnpackBlock(b).size] == PackBlock(UnpackBlock(b).value)
    {
      UnpackedBlockRepacks(b);
    }
    forall k, tail ensures UnpackBlock(PackBlock(k) + tail) == Ok(k, |PackBlock(k)|) <==> GoodBlock(k) {
      if GoodBlock(k) {
        PackedBlockUnpacks(k, tail);
      }
    }
  }

  lemma UnpackedBlockRepacks(b: seq<byte>)
    requires UnpackBlock(b).Ok?
    ensures var r := UnpackBlock(b); GoodBlock(r.value) && b[..r.size] == PackBlock(r.value)
  {
    var r := UnpackBlock(b);
    BytesOfNumber(b[..4]);
    BytesOfNumber(b[4..8]);
    assert b[..r.size] == b[..4] + b[4..8] + b[8..r.size];
  }

  lemma PackedBlockUnpacks(k: Block, tail: seq<byte>)
    requires GoodBlock(k)
    ensures UnpackBlock(PackBlock(k) + tail) == Ok(k, |PackBlock(k)|)
  {
    var b := PackBlock(k) + tail;
    FitsWidths(k.offset);
    NumberOfBytes(k.offset, 4);
    FitsWidths(|k.data|);
    NumberOfBytes(|k.data|, 4);
    assert b[..4] == Bytes(k.offset, 4) && b[4..8] == Bytes(|k.data|, 4) && b[8..8 + |k.data|] == k.data;
  }

  function PackFirmware(f: Firmware): seq<byte> {
    [ByteOf(f.id), if f.download then 1 else 0] + Bytes(f.limit, 4) + PackAll(PackBlock, f.code)
  }

  /** NodeFirmwareEvent.Unpack into a new event. Two bytes pass its check, six are read. */
  function UnpackFirmware(b: seq<byte>): Parsed<Firmware> {
    if |b| < 2 then MissingData
    else if |b| < 6 then OutOfRange
    else
      BlockCodec();
      match UnpackAll(UnpackBlock, b[6..])
      case Ok(code, n) => Ok(Firmware(Int8Of(b[0]), b[1] != 0, Uint32Of(b[2..6]), code), 6 + n)
      case MissingData => MissingData case NameTooLong => NameTooLong case OutOfRange => OutOfRange
  }

  /** A firmware event survives packing if and only if every block is below 4 GiB. */
  lemma FirmwareSurvivesExactlyWhen(f: Firmware)
    ensures UnpackFirmware(PackFirmware(f)) == Ok(f, |PackFirmware(f)|)
       <==> forall k :: 0 <= k < |f.code| ==> GoodBlock(f.code[k])
  {
    BlockCodec();
    PackedListUnpacksExactlyWhen(PackBlock, UnpackBlock, GoodBlock, f.code);
    FirmwareHead(f);
    if UnpackAll(UnpackBlock, PackAll(PackBlock, f.code)).Ok? {
      UnpackedListRepacks(PackBlock, UnpackBlock, GoodBlock, PackAll(PackBlock, f.code));
    }
  }

  lemma FirmwareHead(f: Firmware)
    ensures var b := PackFirmware(f);
            && |b| >= 6 && Int8Of(b[0]) == f.id && (b[1] != 0) == f.download && Uint32Of(b[2..6]) == f.limit
            && b[6..] == PackAll(PackBlock, f.code)
  {
    FitsWidths(f.limit);
    NumberOfBytes(f.limit, 4);
    assert PackFirmware(f)[2..6] == Bytes(f.limit, 4);
  }

  /** Unpack runs past its input exactly when that ends within the limit; a block that is cut short it sees. */
  lemma FirmwareRunsOutExactlyWhen(b: seq<byte>)
    ensures UnpackFirmware(b).OutOfRange? <==> 2 <= |b| < 6
    ensures |b| < 2 ==> UnpackFirmware(b).MissingData?
    ensures UnpackFirmware(b).Ok? || UnpackFirmware(b).MissingData? || UnpackFirmware(b).OutOfRange?
  {
    BlockCodec();
    if |b| >= 6 {
      BlocksEndOrMiss(b[6..]);
    }
  }

  lemma {:induction false} BlocksEndOrMiss(b: seq<byte>)
    requires Advances(UnpackBlock)
    ensures UnpackAll(UnpackBlock, b).Ok? || UnpackAll(UnpackBlock, b).MissingData?
    decreases |b|
  {
    if b != [] && UnpackBlock(b).Ok? {
      BlocksEndOrMiss(b[UnpackBlock(b).size..]);
    }
  }

  lemma BlockLayout(k: Block, tail: seq<byte>)
    requires GoodBlock(k)
    ensures var c := PackBlock(k) + tail;
            && |c| >= 8 + |k.data| && Number(c[..4]) == k.offset && Number(c[4..8]) == |k.data|
            && c[8..8 + |k.data|] == k.data
  {
    FitsWidths(k.offset);
    NumberOfBytes(k.offset, 4);
    FitsWidths(|k.data|);
    NumberOfBytes(|k.data|, 4);
    var c := PackBlock(k) + tail;
    assert c[..4] == Bytes(k.offset, 4) && c[4..8] == Bytes(|k.data|, 4);
  }

  /** Where the fields of a packed firmware event and of its first block are. */
  lemma FirmwareLayout(f: Firmware)
    requires f.code != [] && GoodBlock(f.code[0])
    ensures var b, k := PackFirmware(f), f.code[0];
            && |b| >= 14 + |k.data| && Int8Of(b[0]) == f.id && b[1] == (if f.download then 1 else 0)
            && Number(b[2..6]) == f.limit && Number(b[6..10]) == k.offset && Number(b[10..14]) == |k.data|
            && b[14..14 + |k.data|] == k.data
  {
    var b, k := PackFirmware(f), f.code[0];
    FitsWidths(f.limit);
    NumberOfBytes(f.limit, 4);
    assert b[2..6] == Bytes(f.limit, 4);
    var c := b[6..];
    var rest := PackAll(PackBlock, f.code[1..]);
    assert c == PackBlock(k) + rest by {
      FirmwareHead(f);
    }
    BlockLayout(k, rest);
    hide Number;
    hide Bytes;
    assert b[6..10] == c[..4] && b[10..14] == c[4..8] && b[14..14 + |k.data|] == c[8..8 + |k.data|];
  }

  // ---------- Channel filters ----------

  /** Pack walks a map, so the ids come in some order. */
  ghost predicate Enumerates(ids: seq<ChannelId>, channels: set<ChannelId>) {
    forall i :: i in channels <==> i in ids
  }

  function PackIds(ids: seq<ChannelId>): (b: seq<byte>)
    ensures |b| == 2 * |ids|
  {
    if ids == [] then [] else Bytes(ids[0], 2) + PackIds(ids[1..])
  }

  /** The ids that ChannelFilterEvent.Unpack adds; a last odd byte makes it index past the end. */
  function UnpackIds(b: seq<byte>): Parsed<set<ChannelId>> {
    if b == [] then Ok({}, 0)
    else if |b| == 1 then OutOfRange
    else
      match UnpackIds(b[2..])
      case Ok(ids, n) => Ok({IdOf(b[..2])} + ids, 2 + n)
      case MissingData => MissingData case NameTooLong => NameTooLong case OutOfRange => OutOfRange
  }

  /** A filter means the same after it has travelled, in whatever order its ids were written. */
  lemma {:induction false} FilterSurvives(ids: seq<ChannelId>, channels: set<ChannelId>)
    requires Enumerates(ids, channels)
    ensures UnpackIds(PackIds(ids)) == Ok(channels, 2 * |ids|)
    decreases |ids|
  {
    if ids == [] {
      assert channels == {};
    } else {
      var rest := set i | i in ids[1..];
      FilterSurvives(ids[1..], rest);
      FitsWidths(ids[0]);
      NumberOfBytes(ids[0], 2);
      assert PackIds(ids)[..2] == Bytes(ids[0], 2) && PackIds(ids)[2..] == PackIds(ids[1..]);
      assert channels == {ids[0]} + rest;
    }
  }

  /** Ids take two bytes each; an odd byte at the end makes Unpack run past its input. */
  lemma {:induction false} FilterRunsOutExactlyWhen(b: seq<byte>)
    ensures UnpackIds(b).Ok? <==> |b| % 2 == 0
    ensures UnpackIds(b).OutOfRange? <==> |b| % 2 == 1
    decreases |b|
  {
    if |b| >= 2 {
      FilterRunsOutExactlyWhen(b[2..]);
    }
  }

  lemma {:induction false} FilterLayout(ids: seq<ChannelId>, k: nat)
    requires k < |ids|
    ensures Number(PackIds(ids)[2 * k..2 * k + 2]) == ids[k]
    decreases k
  {
    if k == 0 {
      FitsWidths(ids[0]);
      NumberOfBytes(ids[0], 2);
      assert PackIds(ids)[..2] == Bytes(ids[0], 2);
    } else {
      FilterLayout(ids[1..], k - 1);
      assert PackIds(ids)[2 * k..2 * k + 2] == PackIds(ids[1..])[2 * (k - 1)..2 * (k - 1) + 2];
    }
  }
}
