/**
  The commands of a firmware transfer and what the bootloader of a node does with them. The bootloader itself is not
  part of the repository; module Bootloader states what controllers/firmware.go takes for granted about it.
 */
module Bootloader {
  import opened Nocan
  import opened BigEndian
  import opened EventTypes

  const FLASH_LENGTH := 0x4_0000
  const FLASH_APP_ORIGIN := 0x2000
  const FLASH_APP_LENGTH := FLASH_LENGTH - FLASH_APP_ORIGIN
  const PAGE := 64
  const ERASED: byte := 0xFF

  /** System messages to a node: an address is sent in four bytes; Write 0 hands over data, Write 1 its checksum. */
  datatype Command = GetSignature | SetAddress(bytes: seq<byte>) | Erase
                   | Write(param: byte, data: seq<byte>) | Read(count: byte) | Leave

  /** CRC-32 is a parameter everywhere. */
  type Crc = seq<byte> -> uint32

  type Memory = m: seq<byte> | |m| == FLASH_LENGTH witness seq(FLASH_LENGTH, _ => 0)
  datatype Boot = Boot(memory: Memory, pointer: nat, page: seq<byte>)

  function Overlay(m: Memory, at: nat, data: seq<byte>): Memory {
    if at + |data| <= FLASH_LENGTH then m[..at] + data + m[at + |data|..] else m
  }

  function ErasedFrom(m: Memory, at: nat): Memory {
    if at <= FLASH_LENGTH then m[..at] + seq(FLASH_LENGTH - at, _ => ERASED) else m
  }

  /** Erase clears from the address on; a checksum commits the page at the address only if it is the page's own. */
  function Obey(crc: Crc, b: Boot, c: Command): Boot {
    match c
    case SetAddress(bytes) => b.(pointer := Number(bytes), page := [])
    case Erase => b.(memory := ErasedFrom(b.memory, b.pointer))
    case Write(param, data) =>
      if param == 0 then b.(page := b.page + data)
      else if data == Bytes(crc(b.page), 4) then b.(memory := Overlay(b.memory, b.pointer, b.page), page := [])
      else b.(page := [])
    case Read(n) => b.(pointer := b.pointer + n)
    case GetSignature => b
    case Leave => b
  }

  function Replay(crc: Crc, b: Boot, cs: seq<Command>): Boot
    decreases cs
  {
    if cs == [] then b else Replay(crc, Obey(crc, b, cs[0]), cs[1..])
  }

  lemma {:induction false} ReplayJoins(crc: Crc, b: Boot, cs: seq<Command>, ds: seq<Command>)
    ensures Replay(crc, b, cs + ds) == Replay(crc, Replay(crc, b, cs), ds)
    decreases cs
  {
    if cs == [] {
      assert cs + ds == ds;
    } else {
      assert (cs + ds)[0] == cs[0] && (cs + ds)[1..] == cs[1..] + ds;
      ReplayJoins(crc, Obey(crc, b, cs[0]), cs[1..], ds);
    }
  }

  // ---------- The trace of an upload ----------

  datatype Page = Page(address: uint32, data: seq<byte>)

  function PageTrace(crc: Crc, p: Page): (cs: seq<Command>)
    ensures |cs| == 3
  {
    [SetAddress(Bytes(p.address, 4)), Write(0, p.data), Write(1, Bytes(crc(p.data), 4))]
  }

  function PagesTrace(crc: Crc, ps: seq<Page>): (cs: seq<Command>)
    ensures |cs| == 3 * |ps|
  {
    if ps == [] then [] else PageTrace(crc, ps[0]) + PagesTrace(crc, ps[1..])
  }

  /** The page of a block at an offset; addresses are uint32. */
  function PageAt(k: Block, from: nat): Page
    requires from < |k.data|
  {
    Page((k.offset + from) % 0x1_0000_0000, Chunk(k.data, from))
  }

  /** The pages of a block from an offset on. */
  function BlockPages(k: Block, from: nat): seq<Page>
    decreases |k.data| - from
  {
    if from >= |k.data| then []
    else [PageAt(k, from)] + BlockPages(k, from + PAGE)
  }

  function Chunk(data: seq<byte>, from: nat): (c: seq<byte>)
    requires from < |data|
    ensures 1 <= |c| <= PAGE
  {
    if |data| - from > PAGE then data[from..from + PAGE] else data[from..]
  }

  function Pages(code: seq<Block>): seq<Page> {
    if code == [] then [] else BlockPages(code[0], 0) + Pages(code[1..])
  }

  lemma {:induction false} PagesAreSmall(k: Block, from: nat)
    ensures forall i :: 0 <= i < |BlockPages(k, from)| ==> 1 <= |BlockPages(k, from)[i].data| <= PAGE
    decreases |k.data| - from
  {
    if from >= |k.data| {
    } else {
      PagesAreSmall(k, from + PAGE);
    }
  }

  /** Page m of a block is cut at byte 64 * m, and the last one is the only one that may be short. */
  lemma {:induction false} BlockPageIs(k: Block, from: nat, m: nat)
    requires from + m * PAGE < |k.data|
    ensures m < |BlockPages(k, from)| && BlockPages(k, from)[m] == PageAt(k, from + m * PAGE)
    ensures BlockPages(k, from)[m].data == k.data[from + m * PAGE..][..|BlockPages(k, from)[m].data|]
    ensures |BlockPages(k, from)[m].data| == PAGE || from + m * PAGE + |BlockPages(k, from)[m].data| == |k.data|
    decreases m
  {
    if m == 0 {
    } else {
      BlockPageIs(k, from + PAGE, m - 1);
    }
  }

  function PagesOf(k: Block): nat { (|k.data| + (PAGE - 1)) / PAGE }

  lemma {:induction false} BlockPagesCount(k: Block, from: nat)
    requires from <= |k.data|
    ensures |BlockPages(k, from)| == (|k.data| - from + (PAGE - 1)) / PAGE
    decreases |k.data| - from
  {
    if from + PAGE >= |k.data| {
      assert BlockPages(k, from + PAGE) == [];
    } else {
      BlockPagesCount(k, from + PAGE);
    }
  }

  /** Where a page comes from. */
  datatype Spot = Spot(block: Block, from: nat)

  function BlockSpots(k: Block, from: nat): (spots: seq<Spot>)
    ensures |spots| == |BlockPages(k, from)|
    ensures forall j :: 0 <= j < |spots| ==>
              spots[j].from < |spots[j].block.data| && BlockPages(k, from)[j] == PageAt(spots[j].block, spots[j].from)
    decreases |k.data| - from
  {
    if from >= |k.data| then [] else [Spot(k, from)] + BlockSpots(k, from + PAGE)
  }

  function Spots(code: seq<Block>): (spots: seq<Spot>)
    ensures |spots| == |Pages(code)|
    ensures forall j :: 0 <= j < |spots| ==>
              spots[j].from < |spots[j].block.data| && Pages(code)[j] == PageAt(spots[j].block, spots[j].from)
  {
    if code == [] then [] else BlockSpots(code[0], 0) + Spots(code[1..])
  }

  lemma {:induction false} BlockSpotIs(k: Block, from: nat, m: nat)
    requires from + m * PAGE < |k.data|
    ensures m < |BlockSpots(k, from)| && BlockSpots(k, from)[m] == Spot(k, from + m * PAGE)
    decreases m
  {
    if m == 0 {
    } else {
      BlockSpotIs(k, from + PAGE, m - 1);
    }
  }

  /** The number of pages of the first i blocks. */
  function PagesBefore(code: seq<Block>, i: nat): (n: nat)
    requires i <= |code|
  {
    if i == 0 then 0 else PagesOf(code[0]) + PagesBefore(code[1..], i - 1)
  }

  lemma {:induction false} PagesBeforeNext(code: seq<Block>, i: nat)
    requires i < |code|
    ensures PagesBefore(code, i + 1) == PagesBefore(code, i) + PagesOf(code[i]) <= |Pages(code)|
    ensures i + 1 == |code| ==> PagesBefore(code, i + 1) == |Pages(code)|
  {
    BlockPagesCount(code[0], 0);
    if i == 0 {
    } else {
      PagesBeforeNext(code[1..], i - 1);
    }
  }

  lemma {:induction false} SpotIs(code: seq<Block>, i: nat, m: nat)
    requires i < |code| && m * PAGE < |code[i].data|
    ensures PagesBefore(code, i) + m < |Spots(code)| && Spots(code)[PagesBefore(code, i) + m] == Spot(code[i], m * PAGE)
  {
    hide PageAt;
    hide BlockPages;
    hide BlockSpots;
    BlockPagesCount(code[0], 0);
    var first := BlockSpots(code[0], 0);
    assert Spots(code) == first + Spots(code[1..]) && |first| == PagesOf(code[0]);
    if i == 0 {
      BlockSpotIs(code[0], 0, m);
    } else {
      SpotIs(code[1..], i - 1, m);
    }
  }

  /** The bytes in the pages. */
  function Volume(ps: seq<Page>): nat { if ps == [] then 0 else |ps[0].data| + Volume(ps[1..]) }

  lemma {:induction false} VolumeJoins(ps: seq<Page>, qs: seq<Page>)
    ensures Volume(ps + qs) == Volume(ps) + Volume(qs)
  {
    if ps == [] {
      assert ps + qs == qs;
    } else {
      assert (ps + qs)[0] == ps[0] && (ps + qs)[1..] == ps[1..] + qs;
      VolumeJoins(ps[1..], qs);
    }
  }

  lemma VolumeNext(ps: seq<Page>, j: nat)
    requires j < |ps|
    ensures Volume(ps[..j + 1]) == Volume(ps[..j]) + |ps[j].data|
  {
    assert ps[..j + 1] == ps[..j] + [ps[j]];
    VolumeJoins(ps[..j], [ps[j]]);
    assert [ps[j]][1..] == [];
  }

  lemma {:induction false} BlockVolume(k: Block, from: nat)
    requires from <= |k.data|
    ensures Volume(BlockPages(k, from)) == |k.data| - from
    decreases |k.data| - from
  {
    if from + PAGE >= |k.data| {
      assert BlockPages(k, from + PAGE) == [];
    } else {
      BlockVolume(k, from + PAGE);
    }
  }

  const OPENING: seq<Command> := [GetSignature, SetAddress(Bytes(FLASH_APP_ORIGIN, 4)), Erase]

  function FlashTrace(crc: Crc, ps: seq<Page>): (cs: seq<Command>)
    ensures |cs| == 3 + 3 * |ps| + 1
  {
    OPENING + PagesTrace(crc, ps) + [Leave]
  }

  function UploadTrace(crc: Crc, code: seq<Block>): seq<Command> { FlashTrace(crc, Pages(code)) }

  /** The commands of an upload, page by page. */
  lemma FlashTraceIs(crc: Crc, ps: seq<Page>, j: nat)
    requires j < |ps|
    ensures FlashTrace(crc, ps)[3 + 3 * j..3 + 3 * j + 3] == PageTrace(crc, ps[j])
  {
    PageTraceAt(crc, ps, j);
    SliceInside(OPENING, PagesTrace(crc, ps), [Leave], 3 * j, 3 * j + 3);
  }

  /** Its first three commands, and its last. */
  lemma OpeningIs(crc: Crc, ps: seq<Page>)
    ensures var cs := FlashTrace(crc, ps);
            && cs[..3] == [GetSignature, SetAddress(Bytes(FLASH_APP_ORIGIN, 4)), Erase]
            && cs[|cs| - 1] == Leave && cs[..|cs| - 1] + [Leave] == cs
  {
  }

  lemma SliceInside<T>(a: seq<T>, b: seq<T>, c: seq<T>, i: nat, j: nat)
    requires i <= j <= |b|
    ensures (a + b + c)[|a| + i..|a| + j] == b[i..j]
  {
  }

  lemma {:induction false} PageTraceAt(crc: Crc, ps: seq<Page>, j: nat)
    requires j < |ps|
    ensures PagesTrace(crc, ps)[3 * j..3 * j + 3] == PageTrace(crc, ps[j])
  {
    if j == 0 {
    } else {
      PageTraceAt(crc, ps[1..], j - 1);
      var rest := PagesTrace(crc, ps[1..]);
      SliceInside(PageTrace(crc, ps[0]), rest, [], 3 * (j - 1), 3 * j);
      assert PagesTrace(crc, ps) == PageTrace(crc, ps[0]) + rest + [];
    }
  }

  lemma Regroups<T>(a: seq<T>, b: seq<T>, c: seq<T>)
    ensures a + (b + c) == (a + b) + c
  {
  }

  lemma {:induction false} PagesTraceJoins(crc: Crc, ps: seq<Page>, qs: seq<Page>)
    ensures PagesTrace(crc, ps + qs) == PagesTrace(crc, ps) + PagesTrace(crc, qs)
  {
    if ps == [] {
      assert ps + qs == qs;
    } else {
      assert (ps + qs)[0] == ps[0] && (ps + qs)[1..] == ps[1..] + qs;
      PagesTraceJoins(crc, ps[1..], qs);
    }
  }

  lemma OnePage(crc: Crc, p: Page)
    ensures PagesTrace(crc, [p]) == PageTrace(crc, p)
  {
    assert [p][1..] == [];
  }

  lemma TraceAroundPage(crc: Crc, before: seq<Page>, p: Page, after: seq<Page>)
    ensures FlashTrace(crc, before + ([p] + after))
         == (OPENING + PagesTrace(crc, before)) + (PageTrace(crc, p) + (PagesTrace(crc, after) + [Leave]))
  {
    OnePage(crc, p);
    PagesTraceJoins(crc, before, [p] + after);
    PagesTraceJoins(crc, [p], after);
    var page, rest := PageTrace(crc, p), PagesTrace(crc, after);
    Regroups(OPENING, PagesTrace(crc, before), page + rest);
    Regroups(OPENING + PagesTrace(crc, before), page + rest, [Leave]);
    Regroups(page, rest, [Leave]);
  }

  // ---------- What an upload leaves in memory ----------

  /** The pages laid over the memory one after the other; a page that does not fit leaves it as it is. */
  function OverlayPages(m: Memory, ps: seq<Page>): Memory
    decreases ps
  {
    if ps == [] then m else OverlayPages(Overlay(m, ps[0].address, ps[0].data), ps[1..])
  }

  lemma {:induction false} OverlayPagesJoins(m: Memory, ps: seq<Page>, qs: seq<Page>)
    ensures OverlayPages(m, ps + qs) == OverlayPages(OverlayPages(m, ps), qs)
    decreases ps
  {
    if ps == [] {
      assert ps + qs == qs;
    } else {
      assert (ps + qs)[0] == ps[0] && (ps + qs)[1..] == ps[1..] + qs;
      OverlayPagesJoins(Overlay(m, ps[0].address, ps[0].data), ps[1..], qs);
    }
  }

  lemma PageIsWritten(crc: Crc, b: Boot, p: Page)
    ensures Replay(crc, b, PageTrace(crc, p)) == Boot(Overlay(b.memory, p.address, p.data), p.address, [])
  {
    FitsWidths(p.address);
    NumberOfBytes(p.address, 4);
    var cs := PageTrace(crc, p);
    var b1 := Boot(b.memory, p.address, []);
    var b2 := Boot(b.memory, p.address, p.data);
    assert Obey(crc, b, cs[0]) == b1;
    assert [] + p.data == p.data && Obey(crc, b1, cs[1]) == b2;
    assert cs[1..][1..] == [cs[2]] && [cs[2]][1..] == [];
    assert Replay(crc, b2, [cs[2]]) == Obey(crc, b2, cs[2]);
  }

  lemma {:induction false} PagesAreWritten(crc: Crc, b: Boot, ps: seq<Page>)
    ensures Replay(crc, b, PagesTrace(crc, ps)).memory == OverlayPages(b.memory, ps)
    decreases ps
  {
    if ps == [] {
    } else {
      var c := Replay(crc, b, PageTrace(crc, ps[0]));
      PageIsWritten(crc, b, ps[0]);
      ReplayJoins(crc, b, PageTrace(crc, ps[0]), PagesTrace(crc, ps[1..]));
      PagesAreWritten(crc, c, ps[1..]);
    }
  }

  lemma LeaveKeeps(crc: Crc, b: Boot)
    ensures Replay(crc, b, [Leave]) == b
  {
    assert [Leave][1..] == [];
  }

  lemma OpeningErases(crc: Crc, b: Boot)
    ensures Replay(crc, b, OPENING).memory == ErasedFrom(b.memory, FLASH_APP_ORIGIN)
  {
    FitsWidths(FLASH_APP_ORIGIN);
    NumberOfBytes(FLASH_APP_ORIGIN, 4);
    var aim := SetAddress(Bytes(FLASH_APP_ORIGIN, 4));
    assert OPENING[1..] == [aim, Erase] && [aim, Erase][1..] == [Erase] && [Erase][1..] == [];
    var b1 := Boot(b.memory, FLASH_APP_ORIGIN, []);
    assert Obey(crc, b, GetSignature) == b && Obey(crc, b, aim) == b1;
    assert Replay(crc, b1, [Erase]) == Obey(crc, b1, Erase);
  }

  /** An upload erases the application area and writes the pages of all blocks, in order, and nothing else. */
  lemma UploadWritesPages(crc: Crc, b: Boot, code: seq<Block>)
    ensures Replay(crc, b, UploadTrace(crc, code)).memory
         == OverlayPages(ErasedFrom(b.memory, FLASH_APP_ORIGIN), Pages(code))
  {
    var pages := PagesTrace(crc, Pages(code));
    OpeningErases(crc, b);
    ReplayJoins(crc, b, OPENING + pages, [Leave]);
    ReplayJoins(crc, b, OPENING, pages);
    var blank := Replay(crc, b, OPENING);
    PagesAreWritten(crc, blank, Pages(code));
    LeaveKeeps(crc, Replay(crc, blank, pages));
  }

  // ---------- The blocks in memory ----------

  /** No page address of the block wraps around 32 bits. The code does not check this. */
  predicate Straight(k: Block) { k.data == [] || k.offset + (|k.data| - 1) / PAGE * PAGE < 0x1_0000_0000 }

  predicate InFlash(k: Block) { k.offset + |k.data| <= FLASH_LENGTH }

  /** How many bytes of the block are in pages that fit: all of them when the block ends within flash. */
  function Landing(k: Block): (n: nat)
    ensures n <= |k.data| && (n > 0 ==> k.offset + n <= FLASH_LENGTH)
  {
    if InFlash(k) then |k.data|
    else if k.offset >= FLASH_LENGTH then 0
    else (FLASH_LENGTH - k.offset) / PAGE * PAGE
  }

  /** The blocks laid over the memory one after the other: where they overlap, the later one stays. */
  function OverlayAll(m: Memory, code: seq<Block>): Memory
    decreases code
  {
    if code == [] then m else OverlayAll(Overlay(m, code[0].offset, code[0].data[..Landing(code[0])]), code[1..])
  }

  lemma OverlayInParts(m: Memory, at: nat, x: seq<byte>, y: seq<byte>)
    requires at + |x| + |y| <= FLASH_LENGTH
    ensures Overlay(Overlay(m, at, x), at + |x|, y) == Overlay(m, at, x + y)
  {
  }

  lemma StraightAddress(k: Block, from: nat)
    requires Straight(k) && from < |k.data| && from % PAGE == 0
    ensures k.offset + from < 0x1_0000_0000 && PageAt(k, from).address == k.offset + from
  {
    assert from == from / PAGE * PAGE && from / PAGE <= (|k.data| - 1) / PAGE;
  }

  lemma FirstPage(k: Block, from: nat) returns (p: Page, next: nat)
    requires Straight(k) && from < |k.data| && from % PAGE == 0
    ensures from < next == from + |p.data| <= |k.data|
    ensures next == from + PAGE || (next == |k.data| && next <= from + PAGE)
    ensures next % PAGE == 0 || next == |k.data|
    ensures BlockPages(k, from) == [p] + BlockPages(k, next)
    ensures p.address == k.offset + from && p.data == k.data[from..next]
  {
    StraightAddress(k, from);
    p := PageAt(k, from);
    next := from + |p.data|;
    assert BlockPages(k, from) == [p] + BlockPages(k, from + PAGE);
  }

  /** The rest of the block from `from` on, as far as it lands. */
  function LaidFrom(m: Memory, k: Block, from: nat): Memory {
    if from <= Landing(k) then Overlay(m, k.offset + from, k.data[from..Landing(k)]) else m
  }

  lemma PageLands(m: Memory, k: Block, from: nat, next: nat)
    requires from < next <= |k.data| && (next == from + PAGE || (next == |k.data| && next <= from + PAGE))
    requires from % PAGE == 0
    ensures LaidFrom(Overlay(m, k.offset + from, k.data[from..next]), k, next) == LaidFrom(m, k, from)
  {
    var n := Landing(k);
    if from < n {
      assert next <= n;
      OverlayInParts(m, k.offset + from, k.data[from..next], k.data[next..n]);
      assert k.data[from..next] + k.data[next..n] == k.data[from..n];
    } else {
      assert k.offset + next > FLASH_LENGTH;
      assert from == n ==> k.data[from..n] == [];
    }
  }

  lemma {:induction false} BlockLands(m: Memory, k: Block, from: nat)
    requires Straight(k) && from <= |k.data| && (from % PAGE == 0 || from == |k.data|)
    ensures OverlayPages(m, BlockPages(k, from)) == LaidFrom(m, k, from)
    decreases |k.data| - from
  {
    if from == |k.data| {
      NothingLeft(m, k);
    } else {
      var p, next := FirstPage(k, from);
      PageLands(m, k, from, next);
      OverlayFirst(m, p, BlockPages(k, next));
      BlockLands(Overlay(m, p.address, p.data), k, next);
    }
  }

  lemma NothingLeft(m: Memory, k: Block)
    ensures LaidFrom(m, k, |k.data|) == m
  {
    assert |k.data| <= Landing(k) ==> k.data[|k.data|..Landing(k)] == [];
  }

  lemma OverlayFirst(m: Memory, p: Page, ps: seq<Page>)
    ensures OverlayPages(m, [p] + ps) == OverlayPages(Overlay(m, p.address, p.data), ps)
  {
    assert ([p] + ps)[1..] == ps;
  }

  lemma {:induction false} BlocksLand(m: Memory, code: seq<Block>)
    requires forall i :: 0 <= i < |code| ==> Straight(code[i])
    ensures OverlayPages(m, Pages(code)) == OverlayAll(m, code)
    decreases code
  {
    if code == [] {
    } else {
      OverlayPagesJoins(m, BlockPages(code[0], 0), Pages(code[1..]));
      BlockLands(m, code[0], 0);
      assert code[0].data[0..Landing(code[0])] == code[0].data[..Landing(code[0])];
      BlocksLand(LaidFrom(m, code[0], 0), code[1..]);
    }
  }

  lemma InFlashLandsWhole(k: Block)
    requires InFlash(k)
    ensures Straight(k) && k.data[..Landing(k)] == k.data
  {
  }

  /** The first of the block's bytes whose page address wraps around. */
  function Cut(k: Block): (n: nat)
    requires !Straight(k)
    ensures 0 < n < |k.data| && n % PAGE == 0 && 0x1_0000_0000 <= k.offset + n < 0x1_0000_0000 + PAGE
  {
    (0x1_0000_0000 - k.offset + (PAGE - 1)) / PAGE * PAGE
  }

  function Head(k: Block): (h: Block)
    requires !Straight(k)
    ensures Straight(h)
  {
    Block(k.offset, k.data[..Cut(k)])
  }

  function Tail(k: Block): Block
    requires !Straight(k)
  {
    Block(k.offset + Cut(k) - 0x1_0000_0000, k.data[Cut(k)..])
  }

  /** A block cut where its page addresses wrap around: the rest goes to the beginning of the memory. */
  function Parts(k: Block): (ks: seq<Block>)
    ensures forall i :: 0 <= i < |ks| ==> Straight(ks[i])
    decreases |k.data|
  {
    if Straight(k) then [k] else [Head(k)] + Parts(Tail(k))
  }

  function Unwrapped(code: seq<Block>): (ks: seq<Block>)
    ensures forall i :: 0 <= i < |ks| ==> Straight(ks[i])
  {
    if code == [] then [] else Parts(code[0]) + Unwrapped(code[1..])
  }

  lemma {:induction false} StraightIsUnwrapped(code: seq<Block>)
    requires forall i :: 0 <= i < |code| ==> Straight(code[i])
    ensures Unwrapped(code) == code
  {
    if code == [] {
    } else {
      StraightIsUnwrapped(code[1..]);
    }
  }

  lemma OneRound(n: nat)
    ensures (n + 0x1_0000_0000) % 0x1_0000_0000 == n % 0x1_0000_0000
  {
  }

  lemma {:induction false} TailPages(k: Block, from: nat)
    requires !Straight(k)
    ensures BlockPages(k, Cut(k) + from) == BlockPages(Tail(k), from)
    decreases |k.data| - from
  {
    if Cut(k) + from >= |k.data| {
    } else {
      TailPages(k, from + PAGE);
      OneRound(Tail(k).offset + from);
      ChunkOfRest(k.data, Cut(k), from);
      assert PageAt(k, Cut(k) + from) == PageAt(Tail(k), from);
    }
  }

  lemma ChunkOfRest(data: seq<byte>, n: nat, from: nat)
    requires n + from < |data|
    ensures Chunk(data[n..], from) == Chunk(data, n + from)
  {
  }

  lemma HeadPage(k: Block, from: nat)
    requires !Straight(k) && from % PAGE == 0 && from < Cut(k)
    ensures from + PAGE <= Cut(k) && PageAt(Head(k), from) == PageAt(k, from)
  {
    assert from + PAGE <= Cut(k);
    ChunkOfPrefix(k.data, Cut(k), from);
  }

  lemma ChunkOfPrefix(data: seq<byte>, n: nat, from: nat)
    requires from + PAGE <= n < |data|
    ensures Chunk(data[..n], from) == Chunk(data, from)
  {
    assert Chunk(data, from) == data[from..from + PAGE] == data[..n][from..from + PAGE];
    assert from + PAGE == n ==> data[..n][from..] == data[..n][from..from + PAGE];
  }

  lemma {:induction false} HeadPages(k: Block, from: nat)
    requires !Straight(k) && from % PAGE == 0 && from <= Cut(k)
    ensures BlockPages(k, from) == BlockPages(Head(k), from) + BlockPages(k, Cut(k))
    decreases Cut(k) - from
  {
    if from == Cut(k) {
    } else {
      HeadPage(k, from);
      HeadPages(k, from + PAGE);
      var first, head, tail := [PageAt(k, from)], BlockPages(Head(k), from + PAGE), BlockPages(k, Cut(k));
      assert BlockPages(Head(k), from) == first + head;
      Regroups(first, head, tail);
    }
  }

  lemma {:induction false} PagesJoin(code: seq<Block>, more: seq<Block>)
    ensures Pages(code + more) == Pages(code) + Pages(more)
  {
    if code == [] {
      assert code + more == more;
    } else {
      assert (code + more)[0] == code[0] && (code + more)[1..] == code[1..] + more;
      PagesJoin(code[1..], more);
    }
  }

  lemma OneBlock(k: Block)
    ensures Pages([k]) == BlockPages(k, 0)
  {
    assert [k][1..] == [];
  }

  lemma {:induction false} PartsHaveItsPages(k: Block)
    ensures Pages(Parts(k)) == BlockPages(k, 0)
    decreases |k.data|
  {
    if Straight(k) {
      OneBlock(k);
    } else {
      PagesJoin([Head(k)], Parts(Tail(k)));
      OneBlock(Head(k));
      PartsHaveItsPages(Tail(k));
      HeadPages(k, 0);
      TailPages(k, 0);
    }
  }

  lemma {:induction false} UnwrappedHasThePages(code: seq<Block>)
    ensures Pages(Unwrapped(code)) == Pages(code)
  {
    if code == [] {
    } else {
      PagesJoin(Parts(code[0]), Unwrapped(code[1..]));
      PartsHaveItsPages(code[0]);
      UnwrappedHasThePages(code[1..]);
    }
  }

  /** Replayed on any memory, the trace of a successful upload erases the application area and lays the blocks over
      it in order, as far as their pages are in flash; it does nothing else. A block whose page addresses wrap around
      counts as two. */
  lemma UploadWritesImage(crc: Crc, b: Boot, code: seq<Block>)
    ensures Replay(crc, b, UploadTrace(crc, code)).memory
         == OverlayAll(ErasedFrom(b.memory, FLASH_APP_ORIGIN), Unwrapped(code))
    ensures (forall i :: 0 <= i < |code| ==> Straight(code[i])) ==> Unwrapped(code) == code
  {
    UploadWritesPages(crc, b, code);
    UnwrappedHasThePages(code);
    BlocksLand(ErasedFrom(b.memory, FLASH_APP_ORIGIN), Unwrapped(code));
    if forall i :: 0 <= i < |code| ==> Straight(code[i]) {
      StraightIsUnwrapped(code);
    }
  }

  // ---------- What an upload leaves alone ----------

  /** The page reaches byte a. */
  predicate Covers(p: Page, a: nat) { p.address <= a < p.address + |p.data| <= FLASH_LENGTH }

  lemma {:induction false} UncoveredStays(m: Memory, ps: seq<Page>, a: nat)
    requires a < FLASH_LENGTH && forall i :: 0 <= i < |ps| ==> !Covers(ps[i], a)
    ensures OverlayPages(m, ps)[a] == m[a]
    decreases ps
  {
    if ps == [] {
    } else {
      assert !Covers(ps[0], a);
      UncoveredStays(Overlay(m, ps[0].address, ps[0].data), ps[1..], a);
    }
  }

  lemma {:induction false} CoveredForgets(m: Memory, n: Memory, ps: seq<Page>, a: nat)
    requires a < FLASH_LENGTH && (m[a] == n[a] || exists i :: 0 <= i < |ps| && Covers(ps[i], a))
    ensures OverlayPages(m, ps)[a] == OverlayPages(n, ps)[a]
    decreases ps
  {
    if ps == [] {
    } else {
      var m1, n1 := Overlay(m, ps[0].address, ps[0].data), Overlay(n, ps[0].address, ps[0].data);
      if m1[a] != n1[a] {
        var i :| 0 <= i < |ps| && Covers(ps[i], a);
        assert ps[1..][i - 1] == ps[i];
      }
      CoveredForgets(m1, n1, ps[1..], a);
    }
  }

  /** Where byte j of the block is written. */
  function Address(k: Block, j: nat): nat
    requires j < |k.data|
  {
    (k.offset + j / PAGE * PAGE) % 0x1_0000_0000 + j % PAGE
  }

  lemma CoveredIsAddressed(k: Block, from: nat, a: nat) returns (j: nat)
    requires from % PAGE == 0 && from < |k.data| && Covers(BlockPages(k, from)[0], a)
    ensures j < |k.data| && Address(k, j) == a
  {
    var d := a - BlockPages(k, from)[0].address;
    j := from + d;
    InPage(from, d);
  }

  lemma InPage(from: nat, d: nat)
    requires from % PAGE == 0 && d < PAGE
    ensures (from + d) / PAGE * PAGE == from && (from + d) % PAGE == d
  {
  }

  lemma {:induction false} PagesReachAddresses(k: Block, from: nat, a: nat)
    requires from % PAGE == 0 && forall j :: 0 <= j < |k.data| ==> Address(k, j) != a
    ensures forall i :: 0 <= i < |BlockPages(k, from)| ==> !Covers(BlockPages(k, from)[i], a)
    decreases |k.data| - from
  {
    if from >= |k.data| {
    } else {
      PagesReachAddresses(k, from + PAGE, a);
      if Covers(BlockPages(k, from)[0], a) {
        var j := CoveredIsAddressed(k, from, a);
        assert false;
      }
    }
  }

  lemma {:induction false} BlocksReachAddresses(code: seq<Block>, a: nat)
    requires forall i, j :: 0 <= i < |code| && 0 <= j < |code[i].data| ==> Address(code[i], j) != a
    ensures forall i :: 0 <= i < |Pages(code)| ==> !Covers(Pages(code)[i], a)
  {
    if code == [] {
    } else {
      PagesReachAddresses(code[0], 0, a);
      BlocksReachAddresses(code[1..], a);
    }
  }

  /** A byte to which no byte of any block is addressed stays as the erasing left it. */
  lemma OutsideIsUntouched(crc: Crc, b: Boot, code: seq<Block>, a: nat)
    requires a < FLASH_LENGTH
    requires forall i, j :: 0 <= i < |code| && 0 <= j < |code[i].data| ==> Address(code[i], j) != a
    ensures Replay(crc, b, UploadTrace(crc, code)).memory[a] == ErasedFrom(b.memory, FLASH_APP_ORIGIN)[a]
  {
    UploadWritesPages(crc, b, code);
    BlocksReachAddresses(code, a);
    UncoveredStays(ErasedFrom(b.memory, FLASH_APP_ORIGIN), Pages(code), a);
  }

  // ---------- The bootloader's own area ----------

  /** The check of the upload handler: no block starts below the application area. */
  predicate Passes(code: seq<Block>) { forall i :: 0 <= i < |code| ==> code[i].offset >= FLASH_APP_ORIGIN }

  lemma {:induction false} StraightPagesStayAbove(k: Block, from: nat)
    requires k.offset >= FLASH_APP_ORIGIN && Straight(k) && from % PAGE == 0
    ensures forall i :: 0 <= i < |BlockPages(k, from)| ==> BlockPages(k, from)[i].address >= FLASH_APP_ORIGIN
    decreases |k.data| - from
  {
    if from >= |k.data| {
    } else {
      StraightAddress(k, from);
      StraightPagesStayAbove(k, from + PAGE);
    }
  }

  /** The first page of the block that wraps around is at the very beginning of the memory. */
  lemma {:induction false} WrappedPage(k: Block, from: nat) returns (i: nat)
    requires !Straight(k) && from % PAGE == 0 && k.offset + from < 0x1_0000_0000 + PAGE
    ensures i < |BlockPages(k, from)| && BlockPages(k, from)[i].address < PAGE
    decreases |k.data| - from
  {
    if k.offset + from >= 0x1_0000_0000 {
      i := 0;
    } else {
      i := WrappedPage(k, from + PAGE);
      i := i + 1;
    }
  }

  lemma {:induction false} PagesContain(code: seq<Block>, n: nat, i: nat) returns (j: nat)
    requires n < |code| && i < |BlockPages(code[n], 0)|
    ensures j < |Pages(code)| && Pages(code)[j] == BlockPages(code[n], 0)[i]
  {
    if n == 0 {
      j := i;
    } else {
      j := PagesContain(code[1..], n - 1, i);
      j := |BlockPages(code[0], 0)| + j;
    }
  }

  lemma {:induction false} AllPagesStayAbove(code: seq<Block>)
    requires Passes(code) && forall n :: 0 <= n < |code| ==> Straight(code[n])
    ensures forall i :: 0 <= i < |Pages(code)| ==> Pages(code)[i].address >= FLASH_APP_ORIGIN
  {
    if code == [] {
    } else {
      StraightPagesStayAbove(code[0], 0);
      AllPagesStayAbove(code[1..]);
    }
  }

  lemma SomePageWraps(code: seq<Block>, n: nat) returns (j: nat)
    requires n < |code| && !Straight(code[n])
    ensures j < |Pages(code)| && Pages(code)[j].address < PAGE && Covers(Pages(code)[j], Pages(code)[j].address)
  {
    var i := WrappedPage(code[n], 0);
    j := PagesContain(code, n, i);
    PagesAreSmall(code[n], 0);
  }

  /** With all offsets at or above 0x2000, as the handler checks, all page addresses are at or above it if and only if
      no block's page addresses wrap around 32 bits, which it does not check. */
  lemma PagesStayAboveExactlyWhen(code: seq<Block>)
    requires Passes(code)
    ensures (forall i :: 0 <= i < |Pages(code)| ==> Pages(code)[i].address >= FLASH_APP_ORIGIN)
       <==> forall n :: 0 <= n < |code| ==> Straight(code[n])
  {
    if n :| 0 <= n < |code| && !Straight(code[n]) {
      var j := SomePageWraps(code, n);
    } else {
      AllPagesStayAbove(code);
    }
  }

  /** The bootloader's own bytes come through the upload as they were. */
  ghost predicate KeepsBootloader(crc: Crc, code: seq<Block>) {
    forall b: Boot, a :: 0 <= a < FLASH_APP_ORIGIN ==> Replay(crc, b, UploadTrace(crc, code)).memory[a] == b.memory[a]
  }

  /** With all offsets at or above 0x2000, an upload leaves the bootloader's area as it was, whatever was there, if and
      only if no block's page addresses wrap around. */
  lemma BootloaderIsUntouchedExactlyWhen(crc: Crc, code: seq<Block>)
    requires Passes(code)
    ensures KeepsBootloader(crc, code) <==> forall n :: 0 <= n < |code| ==> Straight(code[n])
  {
    if n :| 0 <= n < |code| && !Straight(code[n]) {
      var j := SomePageWraps(code, n);
      CoveredByteChanges(crc, code, j, Pages(code)[j].address);
    } else {
      AllPagesStayAbove(code);
      forall b: Boot, a | 0 <= a < FLASH_APP_ORIGIN
        ensures Replay(crc, b, UploadTrace(crc, code)).memory[a] == b.memory[a]
      {
        UploadWritesPages(crc, b, code);
        UncoveredStays(ErasedFrom(b.memory, FLASH_APP_ORIGIN), Pages(code), a);
      }
    }
  }

  const ZEROS: Memory := seq(FLASH_LENGTH, _ => 0)
  const ONES: Memory := seq(FLASH_LENGTH, _ => 1)

  lemma CoveredByteChanges(crc: Crc, code: seq<Block>, j: nat, a: nat)
    requires a < FLASH_APP_ORIGIN && j < |Pages(code)| && Covers(Pages(code)[j], a)
    ensures !KeepsBootloader(crc, code)
  {
    var b, c := Boot(ZEROS, 0, []), Boot(ONES, 0, []);
    UploadWritesPages(crc, b, code);
    UploadWritesPages(crc, c, code);
    CoveredForgets(ErasedFrom(ZEROS, FLASH_APP_ORIGIN), ErasedFrom(ONES, FLASH_APP_ORIGIN), Pages(code), a);
    assert b.memory[a] != c.memory[a];
  }

  /** The smallest such upload: one block of two pages, at the last page address of all, passes the handler's check and
      writes its second page over the beginning of the memory. */
  lemma WrappedUploadReachesZero(crc: Crc, b: Boot, data: seq<byte>)
    requires |data| == 2 * PAGE
    ensures var code := [Block(0xFFFF_FFC0, data)];
            && Passes(code)
            && Pages(code) == [Page(0xFFFF_FFC0, data[..PAGE]), Page(0, data[PAGE..])]
            && Replay(crc, b, UploadTrace(crc, code)).memory[..PAGE] == data[PAGE..]
  {
    var k := Block(0xFFFF_FFC0, data);
    var first, second := Page(0xFFFF_FFC0, data[..PAGE]), Page(0, data[PAGE..]);
    assert BlockPages(k, PAGE) == [second] + BlockPages(k, 2 * PAGE) == [second];
    assert BlockPages(k, 0) == [first] + BlockPages(k, PAGE);
    assert [k][1..] == [] && Pages([k]) == [first, second];
    UploadWritesPages(crc, b, [k]);
    var erased := ErasedFrom(b.memory, FLASH_APP_ORIGIN);
    assert [first, second][1..] == [second] && [second][1..] == [];
    assert OverlayPages(erased, [second]) == Overlay(erased, 0, second.data);
  }
}
