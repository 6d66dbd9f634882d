/** Fixed-width big-endian numbers (socket/event_types.go:19-71, controllers/firmware.go:42-48). */
module BigEndian {
  import opened Nocan

  function Number(s: seq<byte>): nat {
    if s == [] then 0 else Number(s[..|s| - 1]) * 0x100 + s[|s| - 1]
  }

  /** The low bytes of n. */
  function Bytes(n: nat, width: nat): (s: seq<byte>)
    ensures |s| == width
  {
    if width == 0 then [] else Bytes(n / 0x100, width - 1) + [n % 0x100]
  }

  predicate Fits(n: nat, width: nat)
    decreases width
  {
    if width == 0 then n == 0 else Fits(n / 0x100, width - 1)
  }

  lemma {:induction false} NumberOfBytes(n: nat, width: nat)
    requires Fits(n, width)
    ensures Number(Bytes(n, width)) == n
    decreases width
  {
    if width == 0 {
    } else {
      NumberOfBytes(n / 0x100, width - 1);
      var s := Bytes(n, width);
      assert s[..|s| - 1] == Bytes(n / 0x100, width - 1);
    }
  }

  lemma {:induction false} BytesOfNumber(s: seq<byte>)
    ensures Fits(Number(s), |s|) && Bytes(Number(s), |s|) == s
  {
    if s == [] {
    } else {
      var t := s[..|s| - 1];
      BytesOfNumber(t);
      assert Number(s) / 0x100 == Number(t) && Number(s) % 0x100 == s[|s| - 1];
      assert s == t + [s[|s| - 1]];
    }
  }

  lemma FitsWidths(n: nat)
    ensures Fits(n, 2) <==> n < 0x1_0000
    ensures Fits(n, 4) <==> n < 0x1_0000_0000
    ensures Fits(n, 8) <==> n < 0x1_0000_0000_0000_0000
  {
    var a := n / 0x100;
    var b := a / 0x100;
    var c := b / 0x100;
    var d := c / 0x100;
    var e := d / 0x100;
    var f := e / 0x100;
    var g := f / 0x100;
    var h := g / 0x100;
    assert Fits(n, 2) == Fits(a, 1) == Fits(b, 0);
    assert Fits(n, 4) == Fits(a, 3) == Fits(b, 2) == Fits(c, 1) == Fits(d, 0);
    assert Fits(n, 8) == Fits(a, 7) == Fits(b, 6) == Fits(c, 5) == Fits(d, 4);
    assert Fits(d, 4) == Fits(e, 3) == Fits(f, 2) == Fits(g, 1) == Fits(h, 0);
  }
}
