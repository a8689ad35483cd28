/**
 The firmware side of EDS: loops over EEPROM cells, updated in place. Every method is tied to the
 block-list model of `EdsModel`.
 */
module EdsDevice {
  import opened Bytes
  import opened EdsChain
  import opened EdsModel

  const EDS_OK := 0
  const EDS_INVALID_POINTER := 2

  class Device {
    /** EDS_DATA_START. */
    const start: nat
    /** All EEPROM cells; the last one is EDS_END. */
    const cells: array<byte>
    /** What a read behind EDS_END gives is up to the hardware. */
    const past: nat -> byte

    ghost predicate Valid() { 3 <= start <= cells.Length < 0x1_0000 }

    ghost predicate Chained()
      reads cells
    {
      Valid() && Walk(cells[..], start, cells.Length)
    }

    /** The abstract value of a chained memory. */
    ghost function State(): (s: Space)
      requires Chained()
      reads cells
    {
      SpaceOf(cells[..], start)
    }

    constructor (start: nat, cells: array<byte>, past: nat -> byte)
      requires 3 <= start <= cells.Length < 0x1_0000
      ensures Valid() && this.start == start && this.cells == cells && this.past == past
    {
      this.start, this.cells, this.past := start, cells, past;
    }

    /** `eds_format`: works on any contents. */
    method Format()
      requires Valid()
      modifies cells
      ensures cells[..] == Formatted(Stamp(old(cells[..start])) + old(cells[start..]), start)
      ensures Formattable(cells.Length - start) ==>
                Chained() && State() == Space(Stamp(old(cells[..start])), Chunks(old(cells[start..]), start))
    {
      hide Walk, Blocks, Chunks;
      ghost var before := cells[..];
      cells[start - 2], cells[start - 1] := MAGIC1, MAGIC2;
      ghost var stamped := cells[..];
      assert stamped == Stamp(before[..start]) + before[start..];
      var p := start;
      while p + 3 < cells.Length
        invariant start <= p <= cells.Length
        invariant Formatted(cells[..], p) == Formatted(stamped, start)
      {
        ghost var m := cells[..];
        var size := ChunkSize(cells.Length - p);
        cells[p], cells[p + 1] := 0, size;
        assert cells[..] == m[p := 0][p + 1 := size];
        p := p + 2 + size;
      }
      FormattedFrame(stamped, start);
      assert cells[..][..start] == stamped[..start] == Stamp(before[..start]);
      if Formattable(cells.Length - start) {
        FormattedBlocks(stamped, start);
        assert stamped[start..] == before[start..];
      }
    }

    /** `eds_alloc`: the first fitting chain block, split when it is larger than asked for. */
    method Alloc(size: byte) returns (block: nat)
      requires Chained()
      modifies cells
      ensures Chained() && State().low == old(State()).low
      ensures var bs := old(State()).blocks; var i := FirstFit(bs, size);
              if i < |bs| then block == bs[i].addr != 0 && State().blocks == Carve(bs, i, size)
              else block == 0 && State().blocks == bs
      ensures block == 0 <==> forall b <- old(State()).blocks :: b.typ != 0 || (|b.data| != size && |b.data| < size + 2)
      ensures block != 0 ==>
                exists k :: 0 <= k < |old(State()).blocks| && FirstUsable(old(State()).blocks, k, size)
                            && Taken(old(State()).blocks, State().blocks, k, block, size)
    {
      hide Walk, Blocks, Carve, FirstUsable, Taken;
      AllocMeans(State().blocks, size);
      ghost var m, bs, i := cells[..], State().blocks, 0;
      CursorFirst(m, start, |m|);
      var p := start;
      while p < cells.Length - 1
        invariant cells[..] == m && i <= |bs| && p == Cursor(bs, i, |m|)
        invariant forall j :: 0 <= j < i ==> !Fits(bs[j], size)
        decreases |bs| - i
      {
        CursorNext(m, start, |m|, i);
        if cells[p] == 0 && cells[p + 1] >= size {
          if cells[p + 1] == size {
            CarveWhole(bs, i, size);
            return p;
          }
          if cells[p + 1] >= size + 2 {
            cells[p + 2 + size] := 0;
            cells[p + 2 + size + 1] := cells[p + 1] - size - 2;
            cells[p + 1] := size;
            SplitCells(m, cells[..], start, i, size);
            return p;
          }
        }
        p, i := Next(cells[..], p), i + 1;
      }
      CursorLast(m, start, i);
      return 0;
    }

    /** `eds_free`: sets the type byte to 0 exactly when the argument is a chain address. */
    method Free(block: nat) returns (ok: bool)
      requires Chained()
      modifies cells
      ensures Chained() && State() == old(State()).(blocks := FreeAt(old(State()).blocks, block))
      ensures ok == HasBlock(old(State()).blocks, block) == exists b :: b in old(State()).blocks && b.addr == block
      ensures if ok then block < cells.Length && cells[..] == old(cells[..])[block := 0] else cells[..] == old(cells[..])
    {
      ghost var m, bs, i := cells[..], State().blocks, 0;
      CursorFirst(m, start, |m|);
      var p := start;
      while p < cells.Length - 1
        invariant cells[..] == m && i <= |bs| && p == Cursor(bs, i, |m|)
        invariant forall j :: 0 <= j < i ==> bs[j].addr != block
        decreases |bs| - i
      {
        CursorNext(m, start, |m|, i);
        if p == block {
          cells[p] := 0;
          FreeCell(m, cells[..], start, i);
          assert bs[i] in bs;
          return true;
        }
        p, i := Next(cells[..], p), i + 1;
      }
      CursorLast(m, start, i);
      assert FreeAt(bs, block) == bs;
      return false;
    }

    /** EDS_SET_BLOCK_SIZE on block i with the size of blocks i and i + 1 together: the two become one. */
    method SetSize(p: nat, size: byte, ghost i: nat)
      requires Chained() && i + 1 < |State().blocks|
      requires p == State().blocks[i].addr && p + 1 < cells.Length
      requires size == |State().blocks[i].data| + 2 + |State().blocks[i + 1].data|
      modifies cells
      ensures Chained() && State().low == old(State()).low
      ensures var bs := old(State()).blocks;
              |bs[i + 1].data| < 256 && State().blocks == Joined(bs, i)
    {
      ghost var m := cells[..];
      cells[p + 1] := size;
      JoinCells(m, cells[..], start, i);
    }

    /** `eds_defragment`: one pass that joins free neighbours by rewriting size bytes only. */
    method Defragment()
      requires Chained()
      modifies cells
      ensures Chained() && State() == old(State()).(blocks := Coalesce(old(State()).blocks))
    {
      hide Partial, Walk, Blocks, Coalesce, Joined;
      ghost var m, bs, i := cells[..], State().blocks, 0;
      ghost var low, goal := m[..start], Coalesce(bs);
      CoalesceStart(bs);
      CursorFirst(m, start, |m|);
      var p, lastFree := start, 0;
      while p < cells.Length - 1
        invariant cells[..] == m && m[..start] == low
        invariant Walk(m, start, |m|) && bs == Blocks(m, start, |m|)
        invariant i <= |bs| && p == Cursor(bs, i, |m|)
        invariant lastFree != 0 ==> i > 0 && bs[i - 1].addr == lastFree && bs[i - 1].typ == 0
        invariant goal == Partial(bs, if lastFree != 0 then i - 1 else i)
        decreases |bs| - i
      {
        CursorNext(m, start, |m|, i);
        if lastFree != 0 {
          CursorNext(m, start, |m|, i - 1);
        }
        if lastFree != 0 && cells[p] == 0 {
          var lastSize: int, size: int := cells[lastFree + 1], cells[p + 1];
          if lastSize + 2 + size <= 255 {
            i := i - 1;
            CoalesceJoin(bs, i);
            SetSize(lastFree, lastSize + 2 + size, i);
            m, bs := cells[..], State().blocks;
            p := lastFree;
            CursorNext(m, start, |m|, i);
          } else {
            CoalesceKeep(bs, i - 1);
          }
        } else if lastFree != 0 {
          CoalesceKeep(bs, i - 1);
        }
        assert goal == Partial(bs, i) && p == bs[i].addr;
        if cells[p] == 0 {
          lastFree := p;
        } else {
          CoalesceKeep(bs, i);
          lastFree := 0;
        }
        p, i := Next(cells[..], p), i + 1;
      }
      CursorLast(m, start, i);
      CoalesceDone(bs, i, lastFree != 0);
    }

    /** HCAN_EDS_ALLOCATE_BLOCK: the type byte is stored whether or not the allocation succeeded. */
    method Allocate(t: byte, n: byte) returns (block: nat)
      requires Chained()
      modifies cells
      ensures Chained()
      ensures var s := old(State()); var i := FirstFit(s.blocks, n);
              if i < |s.blocks| then
                var bs := Carve(s.blocks, i, n);
                block == bs[i].addr && State() == s.(blocks := bs[i := bs[i].(typ := t)])
              else
                block == 0 && State() == s.(low := s.low[0 := t])
    {
      ghost var i, count := FirstFit(State().blocks, n), |State().blocks|;
      block := Alloc(n);
      ghost var m := cells[..];
      if i < count {
        CursorNext(m, start, |m|, i);
      }
      cells[block] := t;
      if i < count {
        RetypeCell(m, cells[..], start, i, t);
      } else {
        WalkFrame(m, cells[..], start, cells.Length);
        assert cells[..][..start] == m[..start][0 := t];
      }
    }

    /**
     HCAN_EDS_WRITE_TO_BLOCK: the board does not check the address. Off the size cells a write changes one byte
     of one block or of the cells in front of the area; for size cells see `WriteTilesExactly`.
     */
    method WriteByte(h: nat, index: byte, v: byte)
      requires Chained() && h + index < cells.Length
      modifies cells
      ensures cells[..] == old(cells[..])[h + index := v]
      ensures var s, a := old(State()), h + index;
              !IsSizeCell(s.blocks, a) ==>
                && Chained()
                && State() == if a < start then s.(low := s.low[a := v]) else s.(blocks := PokeAt(s.blocks, a, v))
    {
      hide Walk, Blocks;
      ghost var m, a := cells[..], h + index;
      cells[h + index] := v;
      if a < start {
        WalkFrame(m, cells[..], start, |m|);
        assert cells[..][..start] == m[..start][a := v];
      } else if !IsSizeCell(Blocks(m, start, |m|), a) {
        WriteCell(m, cells[..], start, a, v);
      }
    }

    /**
     HCAN_EDS_GET_NEXT_BLOCK: the block behind h, the first one for 0; the reply is 0 behind the last. The
     board takes any h; for the handle in front of block i the reply describes block i.
     */
    method GetNextBlock(h: nat, ghost i: nat) returns (next: nat, typ: byte, size: byte)
      requires Chained() && h < 0x1_0000
      ensures next == 0 || next == (if h == 0 then start else (h + 2 + Cell((h + 1) % 0x1_0000)) % 0x1_0000)
      ensures next < cells.Length - 1 && typ == Cell(next) && size == Cell(next + 1)
      ensures var bs := State().blocks;
              i <= |bs| && h == (if i == 0 then 0 else bs[i - 1].addr) ==>
                if i < |bs| then next == bs[i].addr != 0 && typ == bs[i].typ && size == |bs[i].data| else next == 0
    {
      hide Walk, Blocks;
      ghost var m, bs := cells[..], State().blocks;
      next := if h == 0 then start else (h + 2 + Cell((h + 1) % 0x1_0000)) % 0x1_0000;
      if i <= |bs| && h == if i == 0 then 0 else bs[i - 1].addr {
        NextHandle(m, start, i);
      }
      if next >= cells.Length - 1 {
        next := 0;
      }
      typ, size := cells[next], cells[next + 1];
    }

    /** A read of the EEPROM. */
    function Cell(a: nat): byte
      reads cells
    {
      if a < cells.Length then cells[a] else past(a)
    }

    /** HCAN_EDS_READ_FROM_BLOCK: four consecutive cells. */
    method ReadFromBlock(h: nat, index: byte) returns (d: seq<byte>)
      ensures d == [Cell(h + index), Cell(h + index + 1), Cell(h + index + 2), Cell(h + index + 3)]
    {
      d := [Cell(h + index), Cell(h + index + 1), Cell(h + index + 2), Cell(h + index + 3)];
    }

    /** `eds_can_callback`: one command of the bus protocol; the reply carries an address or a result code. */
    method Handle(c: Command) returns (reply: nat)
      requires Chained() && Admissible(State(), c, cells.Length)
      modifies cells
      ensures Chained()
      ensures old(Wf(State(), cells.Length)) && State() == Step(old(State()), c, cells.Length)
      ensures c.Allocate? ==> var bs := old(State()).blocks; var i := FirstFit(bs, c.size);
                              reply == if i < |bs| then bs[i].addr else 0
      ensures c.Write? ==> cells[..] == old(cells[..])[c.addr + c.index := c.value]
      ensures c.Free? ==> reply == if HasBlock(old(State()).blocks, c.addr) then EDS_OK else EDS_INVALID_POINTER
    {
      hide Walk, Blocks;
      MemoryRoundTrip(cells[..], start);
      reply := 0;
      match c
      case Format =>
        assert cells[..][start..] == cells[start..];
        assert cells[..][..start] == cells[..start];
        Format();
      case Allocate(t, n) =>
        reply := Allocate(t, n);
      case Free(a) =>
        var ok := Free(a);
        reply := if ok then EDS_OK else EDS_INVALID_POINTER;
      case Defragment =>
        Defragment();
      case Write(h, i, v) =>
        WriteByte(h, i, v);
    }

    /** A whole session of commands. */
    method Serve(cs: seq<Command>)
      requires Chained() && Wf(State(), cells.Length) && AdmissibleRun(State(), cs, cells.Length)
      modifies cells
      ensures Chained() && State() == Run(old(State()), cs, cells.Length)
    {
      hide Walk, Blocks, Step, Admissible;
      ghost var goal := Run(State(), cs, cells.Length);
      for i := 0 to |cs|
        invariant Chained() && Wf(State(), cells.Length) && AdmissibleRun(State(), cs[i..], cells.Length)
        invariant Run(State(), cs[i..], cells.Length) == goal
      {
        assert cs[i..][1..] == cs[i + 1..];
        StepKeepsLayout(State(), cs[i], cells.Length);
        var reply := Handle(cs[i]);
      }
    }
  }

  // ---------------------------------------------------------------- cells and block lists, one update at a time

  /** Block k is the first free one of the asked size, or with room for another header behind it. */
  predicate FirstUsable(bs: seq<Block>, k: nat, size: byte)
    requires k < |bs|
  {
    && bs[k].typ == 0 && (|bs[k].data| == size || |bs[k].data| >= size + 2)
    && forall j :: 0 <= j < k ==> bs[j].typ != 0 || (|bs[j].data| != size && |bs[j].data| < size + 2)
  }

  /** Block k was given out: it has the asked size and its old address and first bytes; those before it are the same. */
  predicate Taken(bs: seq<Block>, r: seq<Block>, k: nat, block: nat, size: byte)
    requires k < |bs|
  {
    && k < |r| && size <= |bs[k].data| && block == bs[k].addr
    && r[k] == Block(block, 0, bs[k].data[..size]) && r[..k] == bs[..k]
  }

  /** What first fit and splitting mean for the block list. */
  lemma AllocMeans(bs: seq<Block>, size: byte)
    ensures var i := FirstFit(bs, size);
            if i < |bs| then
              FirstUsable(bs, i, size) && Taken(bs, Carve(bs, i, size), i, bs[i].addr, size)
              && !forall b <- bs :: b.typ != 0 || (|b.data| != size && |b.data| < size + 2)
            else forall b <- bs :: b.typ != 0 || (|b.data| != size && |b.data| < size + 2)
  {
    var i := FirstFit(bs, size);
    if i < |bs| {
      assert bs[i] in bs;
    }
  }

  lemma CarveWhole(bs: seq<Block>, i: nat, n: byte)
    requires i < |bs| && Fits(bs[i], n) && |bs[i].data| == n
    ensures Carve(bs, i, n) == bs
  {
  }

  /** The loops stop exactly behind the last block. */
  lemma CursorLast(m: seq<byte>, start: nat, i: nat)
    requires Walk(m, start, |m|) && i <= |Blocks(m, start, |m|)|
    ensures Cursor(Blocks(m, start, |m|), i, |m|) >= |m| - 1 ==> i == |Blocks(m, start, |m|)|
  {
    if i < |Blocks(m, start, |m|)| {
      CursorNext(m, start, |m|, i);
    }
  }

  /** Where the handle in front of block i leads, and what is found there. */
  lemma NextHandle(m: seq<byte>, start: nat, i: nat)
    requires 3 <= start <= |m| < 0x1_0000 && Walk(m, start, |m|) && i <= |Blocks(m, start, |m|)|
    ensures var bs := Blocks(m, start, |m|);
            && (i == 0 ==> start == Cursor(bs, 0, |m|))
            && (i > 0 ==> var h := bs[i - 1].addr;
                          && start <= h && h + 1 < |m| && (h + 1) % 0x1_0000 == h + 1
                          && (h + 2 + m[h + 1]) % 0x1_0000 == Cursor(bs, i, |m|))
            && (if i < |bs| then bs[i].addr + 1 < |m| && m[bs[i].addr] == bs[i].typ && m[bs[i].addr + 1] == |bs[i].data|
                else Cursor(bs, i, |m|) == |m|)
            && Cursor(bs, i, |m|) >= start
  {
    hide Walk, Blocks;
    var bs := Blocks(m, start, |m|);
    CursorFirst(m, start, |m|);
    if i > 0 { CursorNext(m, start, |m|, i - 1); }
    if i < |bs| { CursorNext(m, start, |m|, i); }
  }

  /** The memories differ at most inside [p, q). */
  predicate SameOutside(m: seq<byte>, m': seq<byte>, p: nat, q: nat) {
    |m'| == |m| && forall i :: 0 <= i < |m| && !(p <= i < q) ==> m'[i] == m[i]
  }

  /** Changing cells of [p, q) only replaces the blocks between them. */
  lemma {:induction false} Replace(m: seq<byte>, m': seq<byte>, start: nat, p: nat, q: nat)
    requires Walk(m, start, p) && Walk(m, q, |m|) && Walk(m', p, q) && start <= p <= q <= |m|
    requires SameOutside(m, m', p, q)
    ensures m'[..start] == m[..start]
    ensures Walk(m', start, |m|)
    ensures Blocks(m', start, |m|) == Blocks(m, start, p) + (Blocks(m', p, q) + Blocks(m, q, |m|))
  {
    hide Walk, Blocks;
    WalkFrame(m, m', start, p);
    WalkFrame(m, m', q, |m|);
    WalkConcat(m', p, q, |m|);
    WalkConcat(m', start, p, |m|);
  }

  /** The cells a split writes, read back as headers. */
  lemma SplitAt(m: seq<byte>, m': seq<byte>, p: nat, n: byte)
    requires p + 1 < |m| && Next(m, p) <= |m| && m[p] == 0 && n + 2 <= m[p + 1]
    requires m' == m[p + 2 + n := 0][p + 3 + n := m[p + 1] - n - 2][p + 1 := n]
    ensures var r := p + 2 + n; var d := At(m, p).data;
            && SameOutside(m, m', p, Next(m, p))
            && Next(m', p) == r && r + 1 < |m| && Next(m', r) == Next(m, p)
            && At(m', p) == Block(p, 0, d[..n]) && At(m', r) == Block(r, 0, d[n + 2..])
  {
    var r, d := p + 2 + n, At(m, p).data;
    assert m'[p + 2..r] == d[..n];
    assert m'[r + 2..Next(m, p)] == d[n + 2..];
  }

  /** The three cells written by a split turn one free block into two. */
  lemma {:induction false} SplitCells(m: seq<byte>, m': seq<byte>, start: nat, i: nat, n: byte)
    requires Walk(m, start, |m|) && i < |Blocks(m, start, |m|)|
    requires var b := Blocks(m, start, |m|)[i];
             && b.typ == 0 && n + 2 <= |b.data| < 256 && b.End() <= |m|
             && m' == m[b.addr + 2 + n := 0][b.addr + 3 + n := |b.data| - n - 2][b.addr + 1 := n]
    ensures Walk(m', start, |m|) && start <= |m| && m'[..start] == m[..start]
    ensures Blocks(m', start, |m|) == Carve(Blocks(m, start, |m|), i, n)
  {
    hide Walk, Blocks;
    var b := Blocks(m, start, |m|)[i];
    WalkThrough(m, start, |m|, i);
    SplitAt(m, m', b.addr, n);
    WalkTwo(m', b.addr, b.addr + 2 + n);
    Replace(m, m', start, b.addr, b.End());
  }

  /** Replacing one block by another of the same size. */
  lemma {:induction false} RewriteBlock(m: seq<byte>, m': seq<byte>, start: nat, i: nat)
    requires Walk(m, start, |m|) && i < |Blocks(m, start, |m|)|
    requires var b := Blocks(m, start, |m|)[i];
             b.End() <= |m| && SameOutside(m, m', b.addr, b.End()) && m'[b.addr + 1] == m[b.addr + 1]
    ensures Walk(m', start, |m|) && start <= |m| && m'[..start] == m[..start]
    ensures var bs := Blocks(m, start, |m|); var b := bs[i];
            Next(m', b.addr) <= |m| && Blocks(m', start, |m|) == bs[i := At(m', b.addr)]
  {
    hide Walk, Blocks;
    var b := Blocks(m, start, |m|)[i];
    WalkThrough(m, start, |m|, i);
    WalkOne(m', b.addr);
    Replace(m, m', start, b.addr, b.End());
  }

  /** Rewriting one type byte retypes one block. */
  lemma {:induction false} RetypeCell(m: seq<byte>, m': seq<byte>, start: nat, i: nat, t: byte)
    requires Walk(m, start, |m|) && i < |Blocks(m, start, |m|)|
    requires var b := Blocks(m, start, |m|)[i]; b.addr < |m| && m' == m[b.addr := t]
    ensures Walk(m', start, |m|)
    ensures var bs := Blocks(m, start, |m|); Blocks(m', start, |m|) == bs[i := bs[i].(typ := t)]
    ensures start <= |m| && m'[..start] == m[..start]
  {
    hide Walk, Blocks;
    var b := Blocks(m, start, |m|)[i];
    WalkThrough(m, start, |m|, i);
    RewriteBlock(m, m', start, i);
    assert m'[b.addr + 2..b.End()] == m[b.addr + 2..b.End()];
  }

  /** No two blocks of a chain share a cell. */
  lemma {:induction false} Disjoint(m: seq<byte>, start: nat, i: nat, j: nat, a: nat)
    requires Walk(m, start, |m|) && i < |Blocks(m, start, |m|)| && j < |Blocks(m, start, |m|)| && i != j
    requires var b := Blocks(m, start, |m|)[i]; b.addr <= a < b.End()
    ensures var b := Blocks(m, start, |m|)[j]; !(b.addr <= a < b.End())
  {
    var bs := Blocks(m, start, |m|);
    EncodeOfBlocks(m, start, |m|);
    LaidSizes(bs, start, |m|);
    assert bs[i] in bs;
    LaidTiles(bs, start, |m|, a);
  }

  lemma FreeCell(m: seq<byte>, m': seq<byte>, start: nat, i: nat)
    requires Walk(m, start, |m|) && i < |Blocks(m, start, |m|)|
    requires var b := Blocks(m, start, |m|)[i]; b.addr < |m| && m' == m[b.addr := 0]
    ensures Walk(m', start, |m|)
    ensures var bs := Blocks(m, start, |m|); Blocks(m', start, |m|) == FreeAt(bs, bs[i].addr)
    ensures start <= |m| && m'[..start] == m[..start]
  {
    RetypeCell(m, m', start, i, 0);
    var bs := Blocks(m, start, |m|);
    forall j | 0 <= j < |bs| && j != i ensures bs[j].addr != bs[i].addr {
      Disjoint(m, start, i, j, bs[i].addr);
    }
  }

  /** Rewriting one payload byte changes that byte of that block only. */
  lemma {:induction false} PokeCell(m: seq<byte>, m': seq<byte>, start: nat, i: nat, a: nat, v: byte)
    requires Walk(m, start, |m|) && i < |Blocks(m, start, |m|)|
    requires InData(Blocks(m, start, |m|)[i], a) && a < |m| && m' == m[a := v]
    ensures Walk(m', start, |m|)
    ensures Blocks(m', start, |m|) == PokeAt(Blocks(m, start, |m|), a, v)
    ensures start <= |m| && m'[..start] == m[..start]
  {
    hide Walk, Blocks;
    var bs := Blocks(m, start, |m|);
    var b := bs[i];
    WalkThrough(m, start, |m|, i);
    RewriteBlock(m, m', start, i);
    assert m'[b.addr + 2..b.End()] == m[b.addr + 2..b.End()][a - b.addr - 2 := v];
    PokeOnly(m, start, i, a, v);
  }

  lemma {:induction false} PokeOnly(m: seq<byte>, start: nat, i: nat, a: nat, v: byte)
    requires Walk(m, start, |m|) && i < |Blocks(m, start, |m|)| && Hits(Blocks(m, start, |m|)[i], a)
    ensures var bs := Blocks(m, start, |m|); PokeAt(bs, a, v) == bs[i := Poke(bs[i], a, v)]
  {
    hide Walk, Blocks;
    var bs := Blocks(m, start, |m|);
    forall j | 0 <= j < |bs| && j != i ensures !Hits(bs[j], a) {
      Disjoint(m, start, i, j, a);
    }
  }

  /** A size byte that takes in the next block, read back as a header. */
  lemma JoinAt(m: seq<byte>, m': seq<byte>, p: nat, r: nat)
    requires p + 1 < |m| && Next(m, p) == r && r + 1 < |m| && Next(m, r) <= |m| && Next(m, r) - p - 2 < 256
    requires m' == m[p + 1 := Next(m, r) - p - 2]
    ensures SameOutside(m, m', p, Next(m, r)) && Next(m', p) == Next(m, r)
    ensures |At(m, r).data| < 256 && At(m', p) == Merge(At(m, p), At(m, r))
  {
    assert m'[p + 2..Next(m, r)] == m[p + 2..r] + [m[r], m[r + 1]] + m[r + 2..Next(m, r)];
  }

  /** Rewriting a cell that holds no size changes one byte of one block only. */
  lemma {:induction false} WriteCell(m: seq<byte>, m': seq<byte>, start: nat, a: nat, v: byte)
    requires start <= a < |m| && Walk(m, start, |m|) && m' == m[a := v] && !IsSizeCell(Blocks(m, start, |m|), a)
    ensures Walk(m', start, |m|) && m'[..start] == m[..start]
    ensures Blocks(m', start, |m|) == PokeAt(Blocks(m, start, |m|), a, v)
  {
    hide Walk, Blocks;
    var bs := Blocks(m, start, |m|);
    EncodeOfBlocks(m, start, |m|);
    LaidTiles(bs, start, |m|, a);
    var k: nat :| k < |bs| && bs[k].addr <= a < bs[k].End();
    if a == bs[k].addr {
      RetypeCell(m, m', start, k, v);
      PokeOnly(m, start, k, a, v);
    } else {
      PokeCell(m, m', start, k, a, v);
    }
  }

  /**
   The exact condition for a write anywhere in the EEPROM to keep the area tiled: it hits no size cell, or the
   size it stores leads to a cell from which the size bytes already reach the end.
   */
  lemma WriteTilesExactly(m: seq<byte>, start: nat, a: nat, v: byte)
    requires start <= |m| && Walk(m, start, |m|) && a < |m|
    ensures Walk(m[a := v], start, |m|) <==>
            (IsSizeCell(Blocks(m, start, |m|), a) ==> a + 1 + v <= |m| && Walk(m, a + 1 + v, |m|))
  {
    hide Walk, Blocks;
    var bs := Blocks(m, start, |m|);
    if k :| 0 <= k < |bs| && bs[k].addr + 1 == a {
      SizeWriteTiles(m, m[a := v], start, k);
    } else if a < start {
      WalkFrame(m, m[a := v], start, |m|);
    } else {
      WriteCell(m, m[a := v], start, a, v);
    }
  }

  lemma {:induction false} SizeWriteTiles(m: seq<byte>, m': seq<byte>, start: nat, k: nat)
    requires start <= |m| == |m'| && Walk(m, start, |m|) && k < |Blocks(m, start, |m|)|
    requires var a := Blocks(m, start, |m|)[k].addr + 1; a < |m| && m' == m[a := m'[a]]
    ensures var a := Blocks(m, start, |m|)[k].addr + 1;
            Walk(m', start, |m|) <==> a + 1 + m'[a] <= |m| && Walk(m, a + 1 + m'[a], |m|)
  {
    hide Walk, Blocks;
    var p := Blocks(m, start, |m|)[k].addr;
    WalkThrough(m, start, |m|, k);
    WalkFrame(m, m', start, p);
    WalkSplit(m', start, p, |m|);
    WalkUnfold(m', p);
    var q := p + 2 + m'[p + 1];
    if q <= |m| && Walk(m, q, |m|) { WalkFrame(m, m', q, |m|); }
    if q <= |m| && Walk(m', q, |m|) { WalkFrame(m', m, q, |m|); }
  }

  lemma WalkUnfold(m: seq<byte>, p: nat)
    requires p + 1 < |m|
    ensures Walk(m, p, |m|) <==> Next(m, p) <= |m| && Walk(m, Next(m, p), |m|)
  {
  }

  /** Rewriting the size byte of a block so that it swallows the next one. */
  lemma {:induction false} JoinCells(m: seq<byte>, m': seq<byte>, start: nat, i: nat)
    requires Walk(m, start, |m|) && i + 1 < |Blocks(m, start, |m|)|
    requires var bs := Blocks(m, start, |m|); var size := |bs[i].data| + 2 + |bs[i + 1].data|;
             size < 256 && bs[i].addr + 1 < |m| && m' == m[bs[i].addr + 1 := size]
    ensures Walk(m', start, |m|) && start <= |m| && m'[..start] == m[..start]
    ensures var bs := Blocks(m, start, |m|);
            |bs[i + 1].data| < 256 && Blocks(m', start, |m|) == Joined(bs, i)
  {
    hide Walk, Blocks;
    var bs := Blocks(m, start, |m|);
    var a, b := bs[i], bs[i + 1];
    CursorNext(m, start, |m|, i);
    WalkThrough(m, start, |m|, i);
    WalkThrough(m, start, |m|, i + 1);
    JoinAt(m, m', a.addr, b.addr);
    WalkOne(m', a.addr);
    Replace(m, m', start, a.addr, b.End());
  }

  /** Block i with its successor taken in. */
  function Joined(bs: seq<Block>, i: nat): (r: seq<Block>)
    requires i + 1 < |bs| && |bs[i + 1].data| < 256
    ensures |r| == |bs| - 1 && r[i].addr == bs[i].addr && r[i].typ == bs[i].typ
  {
    bs[..i] + ([Merge(bs[i], bs[i + 1])] + bs[i + 2..])
  }

  /** Coalescing is finished for the first k blocks. */
  function Partial(bs: seq<Block>, k: nat): seq<Block>
    requires k <= |bs|
  {
    bs[..k] + Coalesce(bs[k..])
  }

  /** Joining block i with its successor is what coalescing from i does first. */
  lemma CoalesceJoin(bs: seq<Block>, i: nat)
    requires i + 1 < |bs| && Mergeable(bs[i], bs[i + 1])
    ensures Partial(Joined(bs, i), i) == Partial(bs, i)
  {
    var bs' := Joined(bs, i);
    assert bs'[i..] == [Merge(bs[i], bs[i + 1])] + bs[i..][2..];
    assert bs'[..i] == bs[..i];
  }

  /** A block that cannot be joined with its successor is final. */
  lemma CoalesceKeep(bs: seq<Block>, i: nat)
    requires i < |bs| && (i + 1 < |bs| ==> !Mergeable(bs[i], bs[i + 1]))
    ensures Partial(bs, i) == Partial(bs, i + 1)
  {
    assert bs[i..][1..] == bs[i + 1..];
  }

  lemma CoalesceStart(bs: seq<Block>)
    ensures Partial(bs, 0) == Coalesce(bs)
  {
    assert bs[0..] == bs;
  }

  lemma CoalesceDone(bs: seq<Block>, i: nat, pending: bool)
    requires i == |bs| && (pending ==> i > 0)
    ensures Partial(bs, if pending then i - 1 else i) == bs
  {
    assert bs == bs[..i];
  }
}
