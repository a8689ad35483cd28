/**
 The EDS allocator as operations on a list of blocks: the reference the byte-level device refines.
 */
module EdsModel {
  import opened Bytes
  import opened Seqs
  import opened EdsChain

  const MAGIC1: byte := 0xe4
  const MAGIC2: byte := 0x7d
  /** Payload size `eds_format` aims for. */
  const CHUNK := 128

  /** The EEPROM: the cells below EDS_DATA_START, then the blocks of the data area. */
  datatype Space = Space(low: seq<byte>, blocks: seq<Block>)

  /** A gap-free block list up to the limit EDS_END + 1; EDS_START is at least 1, so address 0 is no block. */
  predicate Wf(s: Space, limit: nat) {
    |s.low| >= 3 && Laid(s.blocks, |s.low|, limit)
  }

  /** The cells of a space. */
  function Memory(s: Space, limit: nat): seq<byte>
    requires Wf(s, limit)
  {
    LaidSizes(s.blocks, |s.low|, limit);
    s.low + Encode(s.blocks)
  }

  /** The space read out of cells whose size bytes chain up. */
  function SpaceOf(m: seq<byte>, start: nat): Space
    requires Walk(m, start, |m|)
  {
    Space(m[..start], Blocks(m, start, |m|))
  }

  /** Cells and block lists determine each other. */
  lemma SpaceRoundTrip(s: Space, limit: nat)
    requires Wf(s, limit)
    ensures |Memory(s, limit)| == limit && Walk(Memory(s, limit), |s.low|, limit)
    ensures SpaceOf(Memory(s, limit), |s.low|) == s
  {
    BlocksOfEncode(s.low, s.blocks, limit);
    assert Memory(s, limit)[..|s.low|] == s.low;
  }

  lemma MemoryRoundTrip(m: seq<byte>, start: nat)
    requires Walk(m, start, |m|) && start >= 3
    ensures Wf(SpaceOf(m, start), |m|) && Memory(SpaceOf(m, start), |m|) == m
  {
    EncodeOfBlocks(m, start, |m|);
    assert m == m[..start] + m[start..|m|];
  }

  // ---------------------------------------------------------------- allocation

  /** A free block `eds_alloc(n)` can use: an exact fit, or room for another header behind n bytes. */
  predicate Fits(b: Block, n: byte) {
    b.typ == 0 && (|b.data| == n || |b.data| >= n + 2)
  }

  /** The index of the first fitting block, or the length when there is none. */
  function FirstFit(bs: seq<Block>, n: byte): (i: nat)
    ensures i <= |bs|
    ensures forall j :: 0 <= j < i ==> !Fits(bs[j], n)
    ensures i < |bs| ==> Fits(bs[i], n)
    ensures forall j :: 0 <= j < i ==> bs[j].typ != 0 || (|bs[j].data| != n && |bs[j].data| < n + 2)
    ensures i < |bs| ==> bs[i].typ == 0 && (|bs[i].data| == n || |bs[i].data| >= n + 2)
  {
    if bs == [] then 0 else if Fits(bs[0], n) then 0 else 1 + FirstFit(bs[1..], n)
  }

  /** Cuts block i down to n payload bytes; what is left becomes a free block behind it. */
  function Carve(bs: seq<Block>, i: nat, n: byte): seq<Block>
    requires i < |bs| && Fits(bs[i], n)
  {
    var b := bs[i];
    if |b.data| == n then bs
    else bs[..i] + ([Block(b.addr, 0, b.data[..n]), Block(b.addr + 2 + n, 0, b.data[n + 2..])] + bs[i + 1..])
  }

  // ---------------------------------------------------------------- free and write

  function FreeAt(bs: seq<Block>, addr: nat): (r: seq<Block>)
    ensures |r| == |bs|
  {
    seq(|bs|, i requires 0 <= i < |bs| => if bs[i].addr == addr then bs[i].(typ := 0) else bs[i])
  }

  predicate HasBlock(bs: seq<Block>, addr: nat) {
    exists b :: b in bs && b.addr == addr
  }

  /** Cell a is a payload byte of b. */
  predicate InData(b: Block, a: nat) {
    b.addr + 2 <= a < b.End()
  }

  /** Cell a is the type byte or a payload byte of b. */
  predicate Hits(b: Block, a: nat) {
    a == b.addr || InData(b, a)
  }

  /** Cell a holds the size of a block. */
  predicate IsSizeCell(bs: seq<Block>, a: nat) {
    exists k :: 0 <= k < |bs| && bs[k].addr + 1 == a
  }

  function Poke(b: Block, a: nat, v: byte): Block {
    if a == b.addr then b.(typ := v)
    else if InData(b, a) then b.(data := b.data[a - b.addr - 2 := v])
    else b
  }

  function PokeAt(bs: seq<Block>, a: nat, v: byte): (r: seq<Block>)
    ensures |r| == |bs|
  {
    seq(|bs|, i requires 0 <= i < |bs| => Poke(bs[i], a, v))
  }

  // ---------------------------------------------------------------- defragmentation

  /** Two neighbours `eds_defragment` joins: both free, and one size byte can hold the result. */
  predicate Mergeable(a: Block, b: Block) {
    a.typ == 0 && b.typ == 0 && |a.data| + 2 + |b.data| <= 255
  }

  /** The second header becomes payload of the first block. */
  function Merge(a: Block, b: Block): Block
    requires |b.data| < 256
  {
    Block(a.addr, a.typ, a.data + [b.typ, |b.data|] + b.data)
  }

  /** Left-to-right greedy joining. */
  function Coalesce(bs: seq<Block>): seq<Block>
    decreases |bs|
  {
    if |bs| < 2 then bs
    else if Mergeable(bs[0], bs[1]) then Coalesce([Merge(bs[0], bs[1])] + bs[2..])
    else [bs[0]] + Coalesce(bs[1..])
  }

  // ---------------------------------------------------------------- formatting

  /** Sizes of a data area which `eds_format` covers completely, whatever it held before. */
  predicate Formattable(n: nat) {
    Stub(n) == 0 || Stub(n) > 3
  }

  /** The cells behind the full chunks. */
  function Stub(n: nat): nat { n % 130 }

  function ChunkSize(n: nat): (size: byte)
    requires n >= 4
    ensures 2 <= size <= CHUNK && 2 + size <= n
  {
    if n - 2 > CHUNK then CHUNK else n - 2
  }

  /** What is left behind a chunk is formattable exactly if the whole is, and leaves the same stub if not. */
  lemma RestFormattable(n: nat)
    requires n >= 4
    ensures var rest := n - 2 - ChunkSize(n);
            && (Formattable(rest) <==> Formattable(n))
            && (!Formattable(n) ==> Stub(rest) == Stub(n) <= rest)
  {
    if n > 130 {
      assert n == 130 + (n - 130);
      assert (n - 130) % 130 == n % 130;
    }
  }

  lemma ShortFormattable(n: nat)
    requires 0 < n && Formattable(n)
    ensures n >= 4
  {
  }

  /** The free blocks formatting lays over the given cells. */
  function Chunks(raw: seq<byte>, p: nat): seq<Block>
    requires Formattable(|raw|)
    decreases |raw|
  {
    if raw == [] then []
    else
      ShortFormattable(|raw|);
      RestFormattable(|raw|);
      var size := ChunkSize(|raw|);
      [Block(p, 0, raw[2..2 + size])] + Chunks(raw[2 + size..], p + 2 + size)
  }

  /** The cells `eds_format` leaves when it starts writing headers at p; it stops 3 cells before the end. */
  function Formatted(m: seq<byte>, p: nat): (r: seq<byte>)
    requires p <= |m|
    ensures |r| == |m|
    decreases |m| - p
  {
    if p + 3 >= |m| then m
    else
      var size := ChunkSize(|m| - p);
      Formatted(m[p := 0][p + 1 := size], p + 2 + size)
  }

  function Stamp(low: seq<byte>): (r: seq<byte>)
    requires |low| >= 2
    ensures |r| == |low|
  {
    low[..|low| - 2] + [MAGIC1, MAGIC2]
  }

  // ---------------------------------------------------------------- the commands of the bus protocol

  datatype Command =
    | Format
    | Allocate(typ: byte, size: byte)
    | Free(addr: nat)
    | Defragment
    | Write(addr: nat, index: byte, value: byte)

  /** What the board relies on: the area can be formatted, and writes stay inside the EEPROM and off the size cells. */
  predicate Admissible(s: Space, c: Command, limit: nat) {
    match c
    case Format => |s.low| <= limit && Formattable(limit - |s.low|)
    case Write(h, i, _) => h + i < limit && !IsSizeCell(s.blocks, h + i)
    case _ => true
  }

  function Step(s: Space, c: Command, limit: nat): Space
    requires Wf(s, limit) && Admissible(s, c, limit)
  {
    LaidSizes(s.blocks, |s.low|, limit);
    SpaceRoundTrip(s, limit);
    match c
    case Format => Space(Stamp(s.low), Chunks(Memory(s, limit)[|s.low|..], |s.low|))
    case Allocate(t, n) =>
      var i := FirstFit(s.blocks, n);
      if i < |s.blocks| then
        var bs := Carve(s.blocks, i, n);
        s.(blocks := bs[i := bs[i].(typ := t)])
      else
        // a failed allocation still stores the type byte, at address 0
        s.(low := s.low[0 := t])
    case Free(a) => s.(blocks := FreeAt(s.blocks, a))
    case Defragment => s.(blocks := Coalesce(s.blocks))
    case Write(h, i, v) =>
      if h + i < |s.low| then s.(low := s.low[h + i := v]) else s.(blocks := PokeAt(s.blocks, h + i, v))
  }

  /** Every command of the run is admissible when its turn comes. */
  predicate AdmissibleRun(s: Space, cs: seq<Command>, limit: nat)
    requires Wf(s, limit)
    decreases |cs|
  {
    cs == [] || (Admissible(s, cs[0], limit)
                 && (StepKeepsLayout(s, cs[0], limit); AdmissibleRun(Step(s, cs[0], limit), cs[1..], limit)))
  }

  function Run(s: Space, cs: seq<Command>, limit: nat): Space
    requires Wf(s, limit) && AdmissibleRun(s, cs, limit)
    decreases |cs|
  {
    if cs == [] then s
    else
      StepKeepsLayout(s, cs[0], limit);
      Run(Step(s, cs[0], limit), cs[1..], limit)
  }

  // ---------------------------------------------------------------- layout is kept by every step

  /** Changing types and payload bytes does not move any block. */
  lemma {:induction false} LaidShape(bs: seq<Block>, bs': seq<Block>, p: nat, q: nat)
    requires Laid(bs, p, q) && |bs| == |bs'|
    requires forall i :: 0 <= i < |bs| ==> bs'[i].addr == bs[i].addr && |bs'[i].data| == |bs[i].data|
    ensures Laid(bs', p, q)
  {
    if bs != [] {
      LaidShape(bs[1..], bs'[1..], bs[0].End(), q);
    }
  }

  lemma TwoLaid(a: Block, b: Block)
    requires |a.data| < 256 && |b.data| < 256 && a.End() == b.addr
    ensures Laid([a, b], a.addr, b.End())
  {
    assert [a, b][1..] == [b];
  }

  lemma CarveLaid(bs: seq<Block>, i: nat, n: byte, p: nat, q: nat)
    requires Laid(bs, p, q) && i < |bs| && Fits(bs[i], n)
    ensures Laid(Carve(bs, i, n), p, q)
  {
    hide Laid;
    var b := bs[i];
    LaidSplit(bs, p, q, i);
    if |b.data| != n {
      var two := [Block(b.addr, 0, b.data[..n]), Block(b.addr + 2 + n, 0, b.data[n + 2..])];
      TwoLaid(two[0], two[1]);
      LaidConcat(two, bs[i + 1..], b.addr, b.End(), q);
      LaidConcat(bs[..i], two + bs[i + 1..], p, b.addr, q);
    }
  }

  lemma AllocatedLaid(bs: seq<Block>, i: nat, t: byte, n: byte, p: nat, q: nat)
    requires Laid(bs, p, q) && i < |bs| && Fits(bs[i], n)
    ensures Laid(Carve(bs, i, n)[i := Carve(bs, i, n)[i].(typ := t)], p, q)
  {
    CarveLaid(bs, i, n, p, q);
    var c := Carve(bs, i, n);
    LaidShape(c, c[i := c[i].(typ := t)], p, q);
  }

  lemma {:induction false} CoalesceLaid(bs: seq<Block>, p: nat, q: nat)
    requires Laid(bs, p, q)
    ensures Laid(Coalesce(bs), p, q)
    decreases |bs|
  {
    if |bs| < 2 {
    } else if Mergeable(bs[0], bs[1]) {
      var bs' := [Merge(bs[0], bs[1])] + bs[2..];
      assert bs'[1..] == bs[1..][1..];
      CoalesceLaid(bs', p, q);
    } else {
      CoalesceLaid(bs[1..], bs[0].End(), q);
      LaidConcat([bs[0]], Coalesce(bs[1..]), p, bs[0].End(), q);
    }
  }

  lemma {:induction false} ChunksLaid(raw: seq<byte>, p: nat)
    requires Formattable(|raw|)
    ensures Laid(Chunks(raw, p), p, p + |raw|)
    ensures forall b <- Chunks(raw, p) :: b.typ == 0
    decreases |raw|
  {
    hide Formattable, Chunks, ChunkSize, Laid;
    if raw == [] {
      ChunksEmpty(raw, p);
    } else {
      ChunksHead(raw, p);
      var size := ChunkSize(|raw|);
      var b, rest := Block(p, 0, raw[2..2 + size]), Chunks(raw[2 + size..], p + 2 + size);
      ChunksLaid(raw[2 + size..], p + 2 + size);
      LaidCons(b, rest, p + |raw|);
    }
  }

  lemma ChunksEmpty(raw: seq<byte>, p: nat)
    requires raw == []
    ensures Formattable(|raw|) && Chunks(raw, p) == [] && Laid(Chunks(raw, p), p, p)
  {
  }

  lemma LaidCons(b: Block, bs: seq<Block>, q: nat)
    requires |b.data| < 256 && Laid(bs, b.End(), q)
    ensures Laid([b] + bs, b.addr, q)
  {
    assert ([b] + bs)[1..] == bs;
  }

  /** Every command of the protocol keeps the blocks gap-free up to EDS_END + 1. */
  lemma StepKeepsLayout(s: Space, c: Command, limit: nat)
    requires Wf(s, limit) && Admissible(s, c, limit)
    ensures Wf(Step(s, c, limit), limit) && |Step(s, c, limit).low| == |s.low|
  {
    hide Laid, Chunks, Coalesce, Carve, Formattable, Encode;
    match c
    case Format =>
      SpaceRoundTrip(s, limit);
      ChunksLaid(Memory(s, limit)[|s.low|..], |s.low|);
    case Allocate(t, n) =>
      var i := FirstFit(s.blocks, n);
      if i < |s.blocks| {
        AllocatedLaid(s.blocks, i, t, n, |s.low|, limit);
      }
    case Free(a) =>
      LaidShape(s.blocks, FreeAt(s.blocks, a), |s.low|, limit);
    case Defragment =>
      CoalesceLaid(s.blocks, |s.low|, limit);
    case Write(h, i, v) =>
      LaidShape(s.blocks, PokeAt(s.blocks, h + i, v), |s.low|, limit);
  }

  /**
   After any run of commands the size bytes lead from EDS_DATA_START exactly to EDS_END + 1, and
   each cell between them belongs to exactly one block.
   */
  lemma {:induction false} RunTiles(s: Space, cs: seq<Command>, limit: nat)
    requires Wf(s, limit) && AdmissibleRun(s, cs, limit)
    ensures var s' := Run(s, cs, limit);
            && Wf(s', limit) && |s'.low| == |s.low| && Walk(Memory(s', limit), |s.low|, limit)
            && forall a: nat :: |s.low| <= a < limit ==> OwnedByOne(s'.blocks, a)
    decreases |cs|
  {
    if cs == [] {
      SpaceRoundTrip(s, limit);
      forall a: nat | |s.low| <= a < limit
        ensures OwnedByOne(s.blocks, a)
      {
        LaidTiles(s.blocks, |s.low|, limit, a);
      }
    } else {
      StepKeepsLayout(s, cs[0], limit);
      RunTiles(Step(s, cs[0], limit), cs[1..], limit);
    }
  }

  /** Cell a lies in one block and in no other. */
  predicate OwnedByOne(bs: seq<Block>, a: nat) {
    && (exists i :: 0 <= i < |bs| && bs[i].addr <= a < bs[i].End())
    && (forall i, j | 0 <= i < j < |bs| :: !(bs[i].addr <= a < bs[i].End() && bs[j].addr <= a < bs[j].End()))
  }

  // ---------------------------------------------------------------- live blocks are left alone

  /** A command that is meant to touch the block itself. */
  predicate Touches(c: Command, b: Block) {
    match c
    case Format => true
    case Free(a) => a == b.addr
    case Write(h, i, _) => Hits(b, h + i)
    case _ => false
  }

  lemma {:induction false} CoalesceKeepsMember(bs: seq<Block>, b: Block)
    requires b in bs && b.typ != 0 && forall x <- bs :: |x.data| < 256
    ensures b in Coalesce(bs)
    decreases |bs|
  {
    if |bs| < 2 {
    } else if Mergeable(bs[0], bs[1]) {
      assert bs == [bs[0], bs[1]] + bs[2..];
      CoalesceKeepsMember([Merge(bs[0], bs[1])] + bs[2..], b);
    } else if b != bs[0] {
      assert bs == [bs[0]] + bs[1..];
      CoalesceKeepsMember(bs[1..], b);
    }
  }

  lemma CarveKeepsMember(bs: seq<Block>, i: nat, n: byte, t: byte, k: nat)
    requires i < |bs| && k < |bs| && i != k && Fits(bs[i], n)
    ensures i < |Carve(bs, i, n)| && bs[k] in Carve(bs, i, n)[i := Carve(bs, i, n)[i].(typ := t)]
  {
    var r := Carve(bs, i, n);
    assert r[i := r[i].(typ := t)][if k < i then k else k + |r| - |bs|] == bs[k];
  }

  lemma StepKeepsLive(s: Space, c: Command, limit: nat, b: Block)
    requires Wf(s, limit) && Admissible(s, c, limit)
    requires b in s.blocks && b.typ != 0 && !Touches(c, b)
    ensures b in Step(s, c, limit).blocks
  {
    hide Laid, Chunks, Coalesce, Formattable, Encode, Carve;
    LaidSizes(s.blocks, |s.low|, limit);
    var k :| 0 <= k < |s.blocks| && s.blocks[k] == b;
    match c
    case Allocate(t, n) =>
      var i := FirstFit(s.blocks, n);
      if i < |s.blocks| {
        CarveKeepsMember(s.blocks, i, n, t, k);
      }
    case Free(a) => assert FreeAt(s.blocks, a)[k] == b;
    case Defragment => CoalesceKeepsMember(s.blocks, b);
    case Write(h, i, v) => assert PokeAt(s.blocks, h + i, v)[k] == b;
  }

  /** The block an allocation takes: it has the asked size and type, the old address and the old first bytes. */
  lemma AllocateMeans(s: Space, t: byte, n: byte, limit: nat, k: nat)
    requires Wf(s, limit) && k < |s.blocks| && s.blocks[k].typ == 0
    requires |s.blocks[k].data| == n || |s.blocks[k].data| >= n + 2
    requires forall j :: 0 <= j < k ==>
               s.blocks[j].typ != 0 || (|s.blocks[j].data| != n && |s.blocks[j].data| < n + 2)
    ensures var r := Step(s, Allocate(t, n), limit).blocks;
            && k < |r| && r[k] == Block(s.blocks[k].addr, t, s.blocks[k].data[..n]) && r[..k] == s.blocks[..k]
  {
    assert FirstFit(s.blocks, n) == k;
  }

  /** Nothing fits: the type byte goes to cell 0. */
  lemma AllocateFails(s: Space, t: byte, n: byte, limit: nat)
    requires Wf(s, limit)
    requires forall k :: 0 <= k < |s.blocks| ==>
               s.blocks[k].typ != 0 || (|s.blocks[k].data| != n && |s.blocks[k].data| < n + 2)
    ensures Step(s, Allocate(t, n), limit) == s.(low := s.low[0 := t])
  {
    assert FirstFit(s.blocks, n) == |s.blocks|;
  }

  /** Freeing clears the type of the block at that address, and nothing else. */
  lemma FreeMeans(s: Space, a: nat, limit: nat, k: nat)
    requires Wf(s, limit) && k < |s.blocks|
    ensures var r := Step(s, Free(a), limit);
            && r.low == s.low && |r.blocks| == |s.blocks|
            && r.blocks[k] == if s.blocks[k].addr == a then s.blocks[k].(typ := 0) else s.blocks[k]
  {
  }

  /** A write changes one byte: in front of the area, a type, or a payload byte. */
  lemma WriteMeans(s: Space, h: nat, i: byte, v: byte, limit: nat, k: nat)
    requires Wf(s, limit) && h + i < limit && !IsSizeCell(s.blocks, h + i) && k < |s.blocks|
    ensures var r := Step(s, Write(h, i, v), limit); var a, b := h + i, s.blocks[k];
            && |r.blocks| == |s.blocks|
            && r.low == (if a < |s.low| then s.low[a := v] else s.low)
            && r.blocks[k] == if a < |s.low| then b
                              else if a == b.addr then b.(typ := v)
                              else if b.addr + 2 <= a < b.addr + 2 + |b.data| then b.(data := b.data[a - b.addr - 2 := v])
                              else b
  {
  }

  /** Defragmenting keeps the live blocks and leaves no two free neighbours that fit into one block. */
  lemma DefragmentMeans(s: Space, limit: nat)
    requires Wf(s, limit)
    ensures var r := Step(s, Defragment, limit);
            r.low == s.low && Live(r.blocks) == Live(s.blocks) && Defragmented(r.blocks)
  {
    LaidSizes(s.blocks, |s.low|, limit);
    CoalesceConserves(s.blocks);
    CoalesceDefragments(s.blocks);
  }

  /** Formatting stamps the two magic bytes in front of the area and leaves no live block. */
  lemma FormatMeans(s: Space, limit: nat)
    requires Wf(s, limit) && |s.low| <= limit && Formattable(limit - |s.low|)
    ensures var r := Step(s, Format, limit); var n := |s.low|;
            && |r.low| == n && r.low[..n - 2] == s.low[..n - 2] && r.low[n - 2] == 0xe4 && r.low[n - 1] == 0x7d
            && forall b <- r.blocks :: b.typ == 0
  {
    SpaceRoundTrip(s, limit);
    ChunksLaid(Memory(s, limit)[|s.low|..], |s.low|);
  }

  /**
   In every run that neither formats nor frees a live block nor writes into it, the block keeps its
   address, type, size and every payload byte.
   */
  lemma {:induction false} RunKeepsLive(s: Space, cs: seq<Command>, limit: nat, b: Block)
    requires Wf(s, limit) && AdmissibleRun(s, cs, limit)
    requires b in s.blocks && b.typ != 0 && forall c <- cs :: !Touches(c, b)
    ensures b in Run(s, cs, limit).blocks
    decreases |cs|
  {
    if cs != [] {
      StepKeepsLayout(s, cs[0], limit);
      StepKeepsLive(s, cs[0], limit, b);
      RunKeepsLive(Step(s, cs[0], limit), cs[1..], limit, b);
    }
  }

  // ---------------------------------------------------------------- conservation

  /** The live blocks, in address order. */
  function Live(bs: seq<Block>): seq<Block> {
    if bs == [] then [] else (if bs[0].typ != 0 then [bs[0]] else []) + Live(bs[1..])
  }

  /** Payload bytes of the free blocks (`free`) or of the live ones. */
  function PayloadSum(bs: seq<Block>, free: bool): nat {
    if bs == [] then 0
    else (if (bs[0].typ == 0) == free then |bs[0].data| else 0) + PayloadSum(bs[1..], free)
  }

  /** Cells taken up by free blocks, headers included. */
  function FreeCells(bs: seq<Block>): nat {
    if bs == [] then 0 else (if bs[0].typ == 0 then 2 + |bs[0].data| else 0) + FreeCells(bs[1..])
  }

  lemma {:induction false} LiveConcat(a: seq<Block>, b: seq<Block>)
    ensures Live(a + b) == Live(a) + Live(b)
  {
    if a == [] {
      assert a + b == b;
    } else {
      LiveConcat(a[1..], b);
      assert (a + b)[1..] == a[1..] + b;
      Assoc(if a[0].typ != 0 then [a[0]] else [], Live(a[1..]), Live(b));
    }
  }

  lemma {:induction false} FreeCellsConcat(a: seq<Block>, b: seq<Block>)
    ensures FreeCells(a + b) == FreeCells(a) + FreeCells(b)
  {
    if a == [] {
      assert a + b == b;
    } else {
      FreeCellsConcat(a[1..], b);
      assert (a + b)[1..] == a[1..] + b;
    }
  }

  /** Splitting a free block changes no live block and loses no cell. */
  lemma {:induction false} CarveConserves(bs: seq<Block>, i: nat, n: byte)
    requires i < |bs| && Fits(bs[i], n)
    ensures Live(Carve(bs, i, n)) == Live(bs) && FreeCells(Carve(bs, i, n)) == FreeCells(bs)
  {
    var b := bs[i];
    if |b.data| != n {
      var one, rest := Block(b.addr, 0, b.data[..n]), Block(b.addr + 2 + n, 0, b.data[n + 2..]);
      var pre, post := bs[..i], bs[i + 1..];
      var tail, tail' := [b] + post, [one] + ([rest] + post);
      assert bs == pre + tail && Carve(bs, i, n) == pre + tail';
      assert tail[1..] == post && tail'[1..] == [rest] + post && ([rest] + post)[1..] == post;
      LiveConcat(pre, tail);
      LiveConcat(pre, tail');
      FreeCellsConcat(pre, tail);
      FreeCellsConcat(pre, tail');
    }
  }

  /** Defragmentation keeps every live block as it is and conserves the cells held by free blocks. */
  lemma {:induction false} CoalesceConserves(bs: seq<Block>)
    requires forall b <- bs :: |b.data| < 256
    ensures Live(Coalesce(bs)) == Live(bs) && FreeCells(Coalesce(bs)) == FreeCells(bs)
    decreases |bs|
  {
    if |bs| < 2 {
    } else if Mergeable(bs[0], bs[1]) {
      var bs' := [Merge(bs[0], bs[1])] + bs[2..];
      CoalesceConserves(bs');
      assert bs'[1..] == bs[2..] == bs[1..][1..];
      assert Live(bs') == Live(bs);
    } else {
      CoalesceConserves(bs[1..]);
    }
  }

  /** No two neighbours are left that could be joined. */
  predicate Defragmented(bs: seq<Block>) {
    forall i :: 0 <= i < |bs| - 1 ==> bs[i].typ != 0 || bs[i + 1].typ != 0 || |bs[i].data| + 2 + |bs[i + 1].data| > 255
  }

  lemma {:induction false} CoalesceDefragments(bs: seq<Block>)
    requires forall b <- bs :: |b.data| < 256
    ensures Defragmented(Coalesce(bs))
    ensures |Coalesce(bs)| <= |bs|
    ensures bs != [] ==> Coalesce(bs) != [] && Coalesce(bs)[0].typ == bs[0].typ
                         && |Coalesce(bs)[0].data| >= |bs[0].data|
    decreases |bs|
  {
    if |bs| < 2 {
    } else if Mergeable(bs[0], bs[1]) {
      CoalesceDefragments([Merge(bs[0], bs[1])] + bs[2..]);
    } else {
      CoalesceDefragments(bs[1..]);
    }
  }

  lemma {:induction false} CoalesceFixed(bs: seq<Block>)
    requires Defragmented(bs)
    ensures Coalesce(bs) == bs
  {
    if |bs| >= 2 {
      assert !Mergeable(bs[0], bs[0 + 1]);
      forall i | 0 <= i < |bs| - 2 ensures !Mergeable(bs[1..][i], bs[1..][i + 1]) {
        assert !Mergeable(bs[i + 1], bs[(i + 1) + 1]);
      }
      CoalesceFixed(bs[1..]);
    }
  }

  /** Defragmenting twice is defragmenting once. */
  lemma CoalesceIdempotent(bs: seq<Block>)
    requires forall b <- bs :: |b.data| < 256
    ensures Coalesce(Coalesce(bs)) == Coalesce(bs)
  {
    CoalesceDefragments(bs);
    CoalesceFixed(Coalesce(bs));
  }

  /** Payload bytes of all blocks. */
  function Payload(bs: seq<Block>): nat {
    if bs == [] then 0 else |bs[0].data| + Payload(bs[1..])
  }

  lemma LiveHead(bs: seq<Block>)
    requires bs != []
    ensures Live(bs) == if bs[0].typ != 0 then [bs[0]] + Live(bs[1..]) else Live(bs[1..])
    ensures bs[0].typ != 0 ==> Payload(Live(bs)) == |bs[0].data| + Payload(Live(bs[1..]))
  {
    if bs[0].typ != 0 {
      assert Live(bs)[1..] == Live(bs[1..]);
    }
  }

  /** The live blocks are those with a type. */
  lemma {:induction false} LiveMeans(bs: seq<Block>, b: Block)
    ensures b in Live(bs) <==> b in bs && b.typ != 0
  {
    if bs != [] {
      hide Live;
      LiveMeans(bs[1..], b);
      LiveHead(bs);
      assert bs == [bs[0]] + bs[1..];
    }
  }

  /** What the two sums and the free cells are. */
  lemma {:induction false} SumsMean(bs: seq<Block>)
    ensures Payload(Live(bs)) <= Payload(bs) && |Live(bs)| <= |bs|
    ensures PayloadSum(bs, false) == Payload(Live(bs)) && PayloadSum(bs, true) == Payload(bs) - Payload(Live(bs))
    ensures FreeCells(bs) == PayloadSum(bs, true) + 2 * (|bs| - |Live(bs)|)
  {
    if bs != [] {
      hide Live;
      SumsMean(bs[1..]);
      LiveHead(bs);
    }
  }

  /** Free payload, live payload and two header bytes per block add up to the whole area. */
  lemma {:induction false} CellsAddUp(bs: seq<Block>, p: nat, q: nat)
    requires Laid(bs, p, q)
    ensures p + PayloadSum(bs, true) + PayloadSum(bs, false) + 2 * |bs| == q
  {
    if bs != [] {
      CellsAddUp(bs[1..], bs[0].End(), q);
    }
  }

  // ---------------------------------------------------------------- formatting

  lemma {:induction false} FormattedFrame(m: seq<byte>, p: nat)
    requires p <= |m|
    ensures Formatted(m, p)[..p] == m[..p]
    decreases |m| - p
  {
    if p + 3 < |m| {
      var size := ChunkSize(|m| - p);
      var m' := m[p := 0][p + 1 := size];
      FormattedFrame(m', p + 2 + size);
      assert Formatted(m, p)[..p] == Formatted(m, p)[..p + 2 + size][..p] == m'[..p + 2 + size][..p];
    }
  }

  /** The first chunk, and what is left behind it. */
  lemma ChunksHead(raw: seq<byte>, p: nat)
    requires raw != [] && Formattable(|raw|)
    ensures |raw| >= 4
    ensures var size := ChunkSize(|raw|);
            && Formattable(|raw| - 2 - size)
            && Chunks(raw, p) == [Block(p, 0, raw[2..2 + size])] + Chunks(raw[2 + size..], p + 2 + size)
  {
    hide Formattable;
    ShortFormattable(|raw|);
    RestFormattable(|raw|);
  }

  lemma FormattedStep(m: seq<byte>, p: nat)
    requires p + 3 < |m|
    ensures var size := ChunkSize(|m| - p);
            Formatted(m, p) == Formatted(m[p := 0][p + 1 := size], p + 2 + size)
  {
  }

  lemma FormattedNone(m: seq<byte>, p: nat)
    requires p == |m|
    ensures Formatted(m, p) == m && Formattable(|m[p..]|) && Chunks(m[p..], p) == []
  {
  }

  /** On a formattable area the chain reaches the end, and the blocks are free and keep the old cells as payload. */
  lemma {:induction false} FormattedBlocks(m: seq<byte>, p: nat)
    requires p <= |m| && Formattable(|m| - p)
    ensures Walk(Formatted(m, p), p, |m|)
    ensures Blocks(Formatted(m, p), p, |m|) == Chunks(m[p..], p)
    decreases |m| - p
  {
    hide Walk, Blocks, Formattable, Formatted, Chunks, ChunkSize;
    if p < |m| {
      var raw := m[p..];
      ChunksHead(raw, p);
      FormattedStep(m, p);
      var size := ChunkSize(|m| - p);
      var n := p + 2 + size;
      var m' := m[p := 0][p + 1 := size];
      FormattedFrame(m', n);
      FormattedBlocks(m', n);
      FormattedHead(m, Formatted(m', n), p, size);
      assert m'[n..] == raw[2 + size..];
      WalkStep(Formatted(m', n), p, |m|);
    } else {
      FormattedNone(m, p);
      WalkEmpty(m, p);
    }
  }

  lemma FormattedHead(m: seq<byte>, r: seq<byte>, p: nat, size: byte)
    requires p + 2 + size <= |m| == |r|
    requires r[..p + 2 + size] == m[p := 0][p + 1 := size][..p + 2 + size]
    ensures Next(r, p) == p + 2 + size && At(r, p) == Block(p, 0, m[p..][2..2 + size])
  {
    var n := p + 2 + size;
    assert r[p] == r[..n][p] && r[p + 1] == r[..n][p + 1];
    assert r[p + 2..n] == r[..n][p + 2..] == m[p..][2..2 + size];
  }

  /** The last r cells read as one block: a header alone, or a header and one byte. */
  predicate LooksLikeBlock(m: seq<byte>, r: nat) {
    (r == 2 && |m| >= 2 && m[|m| - 1] == 0) || (r == 3 && |m| >= 3 && m[|m| - 2] == 1)
  }

  /**
   The exact condition for a formatted area to chain up: its length leaves no stub of 1, 2 or 3 cells
   behind the full chunks, or the stale bytes of the stub happen to look like a last block.
   */
  lemma {:induction false} FormatTilesExactly(m: seq<byte>, p: nat)
    requires p <= |m|
    ensures Walk(Formatted(m, p), p, |m|) <==> Formattable(|m| - p) || LooksLikeBlock(m, Stub(|m| - p))
    decreases |m| - p
  {
    hide Walk, Formatted, Formattable, Stub, LooksLikeBlock;
    if |m| - p <= 3 {
      StubTiles(m, p);
    } else {
      var size := ChunkSize(|m| - p);
      var m' := m[p := 0][p + 1 := size];
      FormattedWalk(m, p);
      RestFormattable(|m| - p);
      FormatTilesExactly(m', p + 2 + size);
      if !Formattable(|m| - p) {
        SameStub(m, m', p + 2 + size, Stub(|m| - p));
      }
    }
  }

  lemma SameStub(m: seq<byte>, m': seq<byte>, n: nat, r: nat)
    requires |m| == |m'| && n + r <= |m| && forall i :: n <= i < |m| ==> m[i] == m'[i]
    ensures LooksLikeBlock(m, r) <==> LooksLikeBlock(m', r)
  {
  }

  /** Behind its first header the chain of a formatted area is that of the rest. */
  lemma {:induction false} FormattedWalk(m: seq<byte>, p: nat)
    requires p + 3 < |m|
    ensures var size := ChunkSize(|m| - p); var n := p + 2 + size; var m' := m[p := 0][p + 1 := size];
            Walk(Formatted(m, p), p, |m|) <==> Walk(Formatted(m', n), n, |m|)
  {
    var size := ChunkSize(|m| - p);
    var n := p + 2 + size;
    var m' := m[p := 0][p + 1 := size];
    FormattedFrame(m', n);
    var r := Formatted(m', n);
    assert r == Formatted(m, p);
    hide Formatted;
    assert r[p + 1] == r[..n][p + 1] == size;
  }

  lemma {:induction false} StubTiles(m: seq<byte>, p: nat)
    requires p <= |m| <= p + 3
    ensures Walk(Formatted(m, p), p, |m|) <==> Formattable(|m| - p) || LooksLikeBlock(m, Stub(|m| - p))
  {
  }

  /** Both configured EEPROM sizes (data from 34 to 1023 or to 2047) are formattable. */
  lemma ConfiguredSizesFormattable()
    ensures Formattable(1023 + 1 - 34) && Formattable(2047 + 1 - 34)
  {
  }
}
