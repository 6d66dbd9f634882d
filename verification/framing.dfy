/**
  Framing of events on a connection (packLength, EncodeEvent and the framing part of DecodeEvent, socket/event.go):
  message id, event id, a length of one to five bytes, payload. What a payload means is left to module EventTypes.
 */
module Framing {
  import opened Nocan
  import opened BigEndian

  const SIZE_LIMIT := 0x1_0000_0000

  /** What travels: the numbers and the packed event. */
  datatype Envelope = Envelope(msgId: MsgId, eventId: byte, payload: seq<byte>)

  // ---------- Writing ----------

  function ByteAt(n: nat, unit: nat): byte
    requires unit > 0
  {
    n / unit % 0x100
  }

  /** Five forms; 0x80 itself is a one-byte length. Sizes are cut to 32 bits. */
  function PackedLength(size: nat): (r: seq<byte>)
    ensures 1 <= |r| <= 5
  {
    if size <= 0x80 then [size]
    else if size < 0x100 then [0x81, size]
    else if size < 0x1_0000 then [0x82, ByteAt(size, 0x100), ByteAt(size, 1)]
    else if size < 0x100_0000 then [0x83, ByteAt(size, 0x1_0000), ByteAt(size, 0x100), ByteAt(size, 1)]
    else [0x84, ByteAt(size, 0x100_0000), ByteAt(size, 0x1_0000), ByteAt(size, 0x100), ByteAt(size, 1)]
  }

  function Encode(f: Envelope): seq<byte>
  {
    [ByteAt(f.msgId, 0x100), ByteAt(f.msgId, 1), f.eventId] + PackedLength(|f.payload|) + f.payload
  }

  /** packLength: fills a buffer of five bytes and uses the first n. */
  method PackLength(size: nat) returns (dest: array<byte>, n: nat)
    ensures fresh(dest) && n <= dest.Length && dest[..n] == PackedLength(size)
  {
    dest := new byte[5](_ => 0);
    if size <= 0x80 {
      dest[0] := size;
      return dest, 1;
    }
    if size < 0x100 {
      dest[0], dest[1] := 0x81, size;
      return dest, 2;
    }
    if size < 0x1_0000 {
      dest[0], dest[1], dest[2] := 0x82, ByteAt(size, 0x100), ByteAt(size, 1);
      return dest, 3;
    }
    if size < 0x100_0000 {
      dest[0], dest[1], dest[2], dest[3] := 0x83, ByteAt(size, 0x1_0000), ByteAt(size, 0x100), ByteAt(size, 1);
      return dest, 4;
    }
    dest[0], dest[1], dest[2] := 0x84, ByteAt(size, 0x100_0000), ByteAt(size, 0x1_0000);
    dest[3], dest[4] := ByteAt(size, 0x100), ByteAt(size, 1);
    return dest, 5;
  }

  method EncodeEvent(f: Envelope) returns (dest: seq<byte>)
    ensures dest == Encode(f)
  {
    dest := [];
    dest := dest + [ByteAt(f.msgId, 0x100)];
    dest := dest + [ByteAt(f.msgId, 1)];
    dest := dest + [f.eventId];
    var length, n := PackLength(|f.payload|);
    dest := dest + length[..n];
    dest := dest + f.payload;
  }

  // ---------- Reading ----------

  datatype Decoded = Event(frame: Envelope, rest: seq<byte>)
                   | HeaderMissing | WrongLength | LengthMissing | PayloadMissing

  /** How many length bytes follow the byte b, or -1 when b is of no form. */
  function LengthBytes(b: byte): int {
    if b <= 0x80 then 0
    else
      var low := b % 0x10;
      if 1 <= low <= 4 then low else -1
  }

  function MsgIdOf(s: seq<byte>): MsgId
    requires |s| >= 2
  {
    var high: int := s[0];
    high * 0x100 + s[1]
  }

  function Decode(s: seq<byte>): Decoded {
    if |s| < 4 then HeaderMissing
    else
      var k := LengthBytes(s[3]);
      if k < 0 then WrongLength
      else if |s| < 4 + k then LengthMissing
      else
        var size := if s[3] <= 0x80 then s[3] else Number(s[4..4 + k]);
        if |s| < 4 + k + size then PayloadMissing
        else Event(Envelope(MsgIdOf(s), s[2], s[4 + k..4 + k + size]), s[4 + k + size..])
  }

  /** io.ReadFull over the bytes that are still to come. */
  class Reader {
    var rest: seq<byte>

    constructor (bytes: seq<byte>)
      ensures rest == bytes
    {
      rest := bytes;
    }

    method ReadFull(n: nat) returns (ok: bool, buf: seq<byte>)
      modifies this
      ensures ok <==> n <= |old(rest)|
      ensures ok ==> buf == old(rest)[..n] && rest == old(rest)[n..]
      ensures !ok ==> buf == old(rest) && rest == []
    {
      ok := n <= |rest|;
      if ok {
        buf, rest := rest[..n], rest[n..];
      } else {
        buf, rest := rest, [];
      }
    }

    method DecodeEvent() returns (d: Decoded)
      modifies this
      ensures d == Decode(old(rest))
      ensures d.Event? ==> rest == d.rest
    {
      ghost var s := rest;
      var ok, rbuf := ReadFull(4);
      if !ok {
        return HeaderMissing;
      }
      var msgId, eventId := MsgIdOf(rbuf), rbuf[2];
      var rlen: nat;
      var k := LengthBytes(rbuf[3]);
      if rbuf[3] <= 0x80 {
        rlen := rbuf[3];
      } else {
        if k < 0 {
          return WrongLength;
        }
        ok, rbuf := ReadFull(k);
        if !ok {
          return LengthMissing;
        }
        assert rbuf == s[4..4 + k];
        rlen := Number(rbuf);
      }
      assert rest == s[4 + k..];
      var dbuf;
      ok, dbuf := ReadFull(rlen);
      if !ok {
        return PayloadMissing;
      }
      assert dbuf == s[4 + k..4 + k + rlen];
      return Event(Envelope(msgId, eventId, dbuf), rest);
    }
  }

  // ---------- One undoes the other ----------

  lemma Numbers(a: byte, b: byte, c: byte, d: byte)
    ensures Number([a]) == a
    ensures Number([a, b]) == a * 0x100 + b
    ensures Number([a, b, c]) == a * 0x1_0000 + b * 0x100 + c
    ensures Number([a, b, c, d]) == a * 0x100_0000 + b * 0x1_0000 + c * 0x100 + d
  {
    assert [a][..0] == [] && [a, b][..1] == [a] && [a, b, c][..2] == [a, b] && [a, b, c, d][..3] == [a, b, c];
  }

  lemma BytesAddUp(n: nat)
    ensures n % SIZE_LIMIT
         == ByteAt(n, 0x100_0000) * 0x100_0000 + ByteAt(n, 0x1_0000) * 0x1_0000
            + ByteAt(n, 0x100) * 0x100 + ByteAt(n, 1)
    ensures n < 0x1_0000 ==> ByteAt(n, 0x1_0000) == 0
    ensures n < 0x100_0000 ==> ByteAt(n, 0x100_0000) == 0
  {
    var a := n / 0x100;
    var b := a / 0x100;
    var c := b / 0x100;
    assert n / 0x1_0000 == b && n / 0x100_0000 == c;
    assert n / SIZE_LIMIT == c / 0x100;
  }

  lemma ShortLengthReadsBack(size: nat)
    requires size < 0x1_0000
    ensures var l := PackedLength(size);
            LengthBytes(l[0]) == |l| - 1 && (if l[0] <= 0x80 then l[0] else Number(l[1..])) == size
  {
    var l := PackedLength(size);
    var z: int, w: int := ByteAt(size, 0x100), ByteAt(size, 1);
    assert size == z * 0x100 + w;
    if size <= 0x80 {
    } else if size < 0x100 {
      Numbers(size, 0, 0, 0);
      assert l[1..] == [size];
    } else {
      Numbers(z, w, 0, 0);
      assert l[1..] == [z, w];
    }
  }

  lemma LongLengthReadsBack(size: nat)
    requires size >= 0x1_0000
    ensures var l := PackedLength(size);
            LengthBytes(l[0]) == |l| - 1 && l[0] > 0x80 && Number(l[1..]) == size % SIZE_LIMIT
  {
    BytesAddUp(size);
    var l := PackedLength(size);
    var x, y, z, w := ByteAt(size, 0x100_0000), ByteAt(size, 0x1_0000), ByteAt(size, 0x100), ByteAt(size, 1);
    if size < 0x100_0000 {
      Numbers(y, z, w, 0);
      assert l[1..] == [y, z, w];
    } else {
      Numbers(x, y, z, w);
      assert l[1..] == [x, y, z, w];
    }
  }

  /** What a reader finds in the length bytes is the size, cut to 32 bits. */
  lemma LengthReadsBack(size: nat)
    ensures var l := PackedLength(size);
            && LengthBytes(l[0]) == |l| - 1
            && (if l[0] <= 0x80 then l[0] else Number(l[1..])) == size % SIZE_LIMIT
  {
    if size < 0x1_0000 {
      ShortLengthReadsBack(size);
    } else {
      LongLengthReadsBack(size);
    }
  }

  lemma EncodedParts(f: Envelope, tail: seq<byte>)
    ensures var s, l := Encode(f) + tail, PackedLength(|f.payload|);
            && |s| == 3 + |l| + |f.payload| + |tail|
            && MsgIdOf(s) == f.msgId && s[2] == f.eventId && s[3] == l[0] && s[4..3 + |l|] == l[1..]
            && s[3 + |l|..] == f.payload + tail
  {
    assert f.msgId == ByteAt(f.msgId, 0x100) * 0x100 + ByteAt(f.msgId, 1);
  }

  lemma DecodesCutTo32Bits(f: Envelope, tail: seq<byte>)
    ensures var size := |f.payload| % SIZE_LIMIT;
            Decode(Encode(f) + tail) == Event(Envelope(f.msgId, f.eventId, f.payload[..size]), f.payload[size..] + tail)
  {
    var s, l := Encode(f) + tail, PackedLength(|f.payload|);
    var size := |f.payload| % SIZE_LIMIT;
    LengthReadsBack(|f.payload|);
    EncodedParts(f, tail);
    SliceOfRest(s, 3 + |l|, size, f.payload, tail);
  }

  lemma SliceOfRest(s: seq<byte>, at: nat, size: nat, payload: seq<byte>, tail: seq<byte>)
    requires at <= |s| && s[at..] == payload + tail && size <= |payload|
    ensures |s| >= at + size && s[at..at + size] == payload[..size] && s[at + size..] == payload[size..] + tail
  {
    assert s[at..][..size] == s[at..at + size] && s[at..][size..] == s[at + size..];
    assert (payload + tail)[..size] == payload[..size] && (payload + tail)[size..] == payload[size..] + tail;
  }

  /** Reading an encoded event, whatever follows it, gives it back if and only if its payload is below 4 GiB. */
  lemma DecodeUndoesEncodeExactlyWhen(f: Envelope, tail: seq<byte>)
    ensures Decode(Encode(f) + tail) == Event(f, tail) <==> |f.payload| < SIZE_LIMIT
  {
    DecodesCutTo32Bits(f, tail);
    if |f.payload| < SIZE_LIMIT {
      assert f.payload[..|f.payload|] == f.payload && f.payload[|f.payload|..] + tail == tail;
    }
  }

  predicate Small(f: Envelope) { |f.payload| < SIZE_LIMIT }

  function EncodeAll(fs: seq<Envelope>): seq<byte>
  {
    if fs == [] then [] else Encode(fs[0]) + EncodeAll(fs[1..])
  }

  /** A reader takes events until there are no more bytes; None when it meets an error. */
  function DecodeAll(s: seq<byte>): Option<seq<Envelope>>
    decreases |s|
  {
    if s == [] then Some([])
    else
      var d := Decode(s);
      if !d.Event? then None
      else
        var more := DecodeAll(d.rest);
        if more.None? then None else Some([d.frame] + more.value)
  }

  /** Any number of events written one after the other are read back, one by one, in order. */
  lemma {:induction false} StreamReadsBack(fs: seq<Envelope>)
    requires forall k :: 0 <= k < |fs| ==> Small(fs[k])
    ensures DecodeAll(EncodeAll(fs)) == Some(fs)
    decreases fs
  {
    if fs == [] {
    } else {
      DecodeUndoesEncodeExactlyWhen(fs[0], EncodeAll(fs[1..]));
      StreamReadsBack(fs[1..]);
      assert |Encode(fs[0])| > 0 && [fs[0]] + fs[1..] == fs;
    }
  }

  /** No encoded event is the beginning of another, so a reader never stops too early. */
  lemma EncodingIsPrefixFree(f: Envelope, g: Envelope)
    requires Small(f) && Small(g) && Encode(f) <= Encode(g)
    ensures f == g
  {
    DecodeUndoesEncodeExactlyWhen(f, Encode(g)[|Encode(f)|..]);
    DecodeUndoesEncodeExactlyWhen(g, []);
    hide Encode;
    hide Decode;
    assert Encode(g) + [] == Encode(g) == Encode(f) + Encode(g)[|Encode(f)|..];
  }

  // ---------- The format itself ----------

  /** How many bytes the length takes after its first one: the fewest that hold it, and none up to 0x80. */
  function FewestBytes(size: nat): nat {
    if size <= 0x80 then 0 else if size < 0x100 then 1 else if size < 0x1_0000 then 2 else if size < 0x100_0000 then 3
    else 4
  }

  /** What the bytes of an encoded event are: numbers are written most significant byte first. */
  lemma EncodedBytes(f: Envelope)
    requires Small(f)
    ensures var s, size := Encode(f), |f.payload|;
            var k := FewestBytes(size);
            && |s| == 4 + k + size && Number(s[..2]) == f.msgId && s[2] == f.eventId
            && s[3] == (if k == 0 then size else 0x80 + k) && (k > 0 ==> Number(s[4..4 + k]) == size)
            && s[4 + k..] == f.payload
  {
    var s, l := Encode(f), PackedLength(|f.payload|);
    LengthReadsBack(|f.payload|);
    Numbers(s[0], s[1], 0, 0);
    assert s[..2] == [s[0], s[1]] && f.msgId == ByteAt(f.msgId, 0x100) * 0x100 + ByteAt(f.msgId, 1);
    assert s[4..3 + |l|] == l[1..];
  }

  /** An event cut short is no event, and it is the read that comes too short that tells. */
  lemma CutShortFails(f: Envelope, n: nat)
    requires Small(f) && n < |Encode(f)|
    ensures var s := Encode(f)[..n];
            Decode(s) == if n < 4 then HeaderMissing else if n < |Encode(f)| - |f.payload| then LengthMissing
                         else PayloadMissing
  {
    LengthReadsBack(|f.payload|);
    EncodedParts(f, []);
    hide Number;
    hide PackedLength;
    var all, l := Encode(f), PackedLength(|f.payload|);
    assert all + [] == all;
    var k := |l| - 1;
    if n >= 4 + k {
      assert all[..n][4..4 + k] == all[4..4 + k] == l[1..];
    }
  }

  /** A length byte is of no form exactly if it is above 0x80 and its low four bits are not 1 to 4. */
  lemma WrongLengthExactlyWhen(s: seq<byte>)
    ensures Decode(s).WrongLength? <==> |s| >= 4 && s[3] > 0x80 && !(1 <= s[3] % 0x10 <= 4)
  {
  }
}
