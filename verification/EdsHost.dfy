/**
 The host side of EDS: walks the board's chain one bus request at a time and edits block fields byte
 by byte. A request and its reply are one step.
 */
module EdsHost {
  import opened Bytes
  import opened Seqs
  import opened EdsChain
  import opened EdsModel
  import opened EdsDevice

  /** What the host keeps of a block. */
  datatype HostBlock = HostBlock(address: nat, typ: byte, size: byte)

  /** Position and size of a field inside the payload; only char fields hold strings. */
  datatype Field = Field(isChar: bool, pos: nat, size: nat)

  /** The live blocks the host lists before it meets a type without a description. */
  function Mirror(bs: seq<Block>, known: set<byte>): seq<HostBlock>
    requires forall b <- bs :: |b.data| < 256
  {
    if bs == [] then []
    else if bs[0].typ == 0 then Mirror(bs[1..], known)
    else if bs[0].typ !in known then []
    else [HostBlock(bs[0].addr, bs[0].typ, |bs[0].data|)] + Mirror(bs[1..], known)
  }

  predicate AllKnown(bs: seq<Block>, known: set<byte>) {
    forall b <- bs :: b.typ != 0 ==> b.typ in known
  }

  /** The host's records of the given blocks. */
  function Listed(bs: seq<Block>): (r: seq<HostBlock>)
    requires forall b <- bs :: |b.data| < 256
    ensures |r| == |bs|
  {
    seq(|bs|, i requires 0 <= i < |bs| =>
      assert bs[i] in bs;
      HostBlock(bs[i].addr, bs[i].typ, |bs[i].data|))
  }

  lemma ListedHead(b: Block, bs: seq<Block>)
    requires |b.data| < 256 && forall x <- bs :: |x.data| < 256
    ensures forall x <- [b] + bs :: |x.data| < 256
    ensures Listed([b] + bs) == [HostBlock(b.addr, b.typ, |b.data|)] + Listed(bs)
  {
    var all := [b] + bs;
    assert forall x <- all :: |x.data| < 256;
  }

  /** The list ends at the first live block of unknown type. */
  lemma {:induction false} MirrorStops(bs: seq<Block>, known: set<byte>, k: nat)
    requires k < |bs| && (forall b <- bs :: |b.data| < 256) && bs[k].typ != 0 && bs[k].typ !in known
    requires forall i :: 0 <= i < k ==> bs[i].typ == 0 || bs[i].typ in known
    ensures AllKnown(bs[..k], known) && Mirror(bs, known) == Mirror(bs[..k], known)
    decreases k
  {
    if k > 0 {
      MirrorStops(bs[1..], known, k - 1);
      assert bs[..k][1..] == bs[1..][..k - 1];
    }
  }

  /** With descriptions for all types the host lists exactly the live blocks, in address order. */
  lemma {:induction false} MirrorIsLive(bs: seq<Block>, known: set<byte>)
    requires AllKnown(bs, known) && forall b <- bs :: |b.data| < 256
    ensures forall b <- Live(bs) :: b in bs && |b.data| < 256
    ensures Mirror(bs, known) == Listed(Live(bs))
  {
    hide Listed;
    if bs == [] {
      ListedNone();
    } else {
      hide Mirror, Live;
      var head, rest := bs[0], bs[1..];
      assert head in bs && forall b <- rest :: b in bs;
      MirrorIsLive(rest, known);
      MirrorHead(bs, known);
      if head.typ != 0 {
        ListedHead(head, Live(rest));
      }
    }
  }

  lemma MirrorHead(bs: seq<Block>, known: set<byte>)
    requires bs != [] && AllKnown(bs, known) && forall b <- bs :: |b.data| < 256
    ensures var head, rest := bs[0], bs[1..];
            if head.typ == 0 then Live(bs) == Live(rest) && Mirror(bs, known) == Mirror(rest, known)
            else && Live(bs) == [head] + Live(rest)
                 && Mirror(bs, known) == [HostBlock(head.addr, head.typ, |head.data|)] + Mirror(rest, known)
  {
  }

  lemma ListedNone()
    ensures Listed([]) == []
  {
  }

  // ---------------------------------------------------------------- fields

  /** Byte j of the replies to reads from index p on: each read asks for four bytes, its index truncated to a byte. */
  function Reply(board: Device, h: nat, p: nat, j: nat): byte
    reads board.cells
  {
    board.Cell(h + (p + j / 4 * 4) % 256 + j % 4)
  }

  /** The bytes of the replies from j up to the first NUL, n at most. */
  function CString(board: Device, h: nat, p: nat, j: nat, n: nat): seq<byte>
    requires j <= n
    reads board.cells
    decreases n - j
  {
    if j == n || Reply(board, h, p, j) == 0 then []
    else [Reply(board, h, p, j)] + CString(board, h, p, j + 1, n)
  }

  /** A string as it fits into a char field. */
  function Cut(s: seq<byte>, size: nat): seq<byte>
    requires size >= 1
  {
    if |s| + 1 > size then s[..size - 1] else s
  }

  /** The number of bytes `strfield` may look at: the field size rounded up to whole replies. */
  function Window(size: nat): (w: nat)
    ensures size <= w < size + 4 && w % 4 == 0
  {
    (size + 3) / 4 * 4
  }

  /** Up to index 255 the replies are consecutive cells. */
  lemma ReplyBelow(board: Device, h: nat, p: nat, j: nat)
    requires p + j < 256
    ensures Reply(board, h, p, j) == board.Cell(h + p + j)
  {
    assert (p + j / 4 * 4) % 256 + j % 4 == p + j;
  }

  /** A read whose index has wrapped starts at the block's own header. */
  lemma ReplyAbove(board: Device, h: nat, p: nat, j: nat)
    requires 256 <= p + j / 4 * 4 < 512
    ensures Reply(board, h, p, j) == board.Cell(h + p + j - 256)
  {
    assert (p + j / 4 * 4) % 256 == p + j / 4 * 4 - 256;
  }

  /** Without a NUL the whole window is read. */
  lemma {:induction false} Unterminated(board: Device, h: nat, p: nat, j: nat, n: nat)
    requires j <= n && forall i :: j <= i < n ==> Reply(board, h, p, i) != 0
    ensures |CString(board, h, p, j, n)| == n - j
    ensures forall i :: j <= i < n ==> CString(board, h, p, j, n)[i - j] == Reply(board, h, p, i)
    decreases n - j
  {
    hide Reply;
    if j < n {
      Unterminated(board, h, p, j + 1, n);
    }
  }

  /** A string followed by a NUL in a block is read as that string when the NUL is at index 255 at most. */
  lemma {:induction false} StringRoundTrip(board: Device, h: nat, p: nat, s: seq<byte>, j: nat, n: nat)
    requires j <= |s| < n && p + |s| < 256 && h + p + |s| < board.cells.Length && 0 !in s
    requires board.cells[h + p..h + p + |s| + 1] == s + [0]
    ensures CString(board, h, p, j, n) == s[j..]
    decreases |s| - j
  {
    hide Reply;
    ReplyBelow(board, h, p, j);
    assert board.cells[h + p..h + p + |s| + 1][j] == (s + [0])[j];
    if j < |s| {
      assert s[j] in s;
      StringRoundTrip(board, h, p, s, j + 1, n);
    }
  }

  /** So is a number whose high byte is at index 255 at most. */
  lemma NumberRoundTrip(board: Device, h: nat, p: nat, v: nat)
    requires p + 1 < 256 && h + p + 1 < board.cells.Length && v < 0x1_0000
    requires board.cells[h + p..h + p + 2] == [v % 256, v / 256]
    ensures Reply(board, h, p, 0) == v % 256 && Reply(board, h, p, 1) == v / 256
  {
    assert board.cells[h + p..h + p + 2][1] == v / 256;
  }

  lemma ReplyAt(board: Device, h: nat, p: nat, j: nat, k: nat)
    requires j % 4 == 0 && k < 4
    ensures Reply(board, h, p, j + k) == board.Cell(h + (p + j) % 256 + k)
  {
    assert (j + k) / 4 * 4 == j;
  }

  /** Block b after storing s at pos byte by byte: the index 256 wraps to the type byte. */
  function Written(b: Block, pos: nat, s: seq<byte>): (r: Block)
    requires pos + |s| <= |b.data| < 256
  {
    if pos + |s| <= 254 || s == [] then b.(data := Put(b.data, pos, s))
    else b.(typ := s[|s| - 1], data := Put(b.data, pos, s[..|s| - 1]))
  }

  lemma AllKnownIs(bs: seq<Block>, known: set<byte>)
    ensures AllKnown(bs, known) <==> forall b <- bs :: b.typ != 0 ==> b.typ in known
  {
  }

  lemma MirrorStart(bs: seq<Block>, known: set<byte>)
    requires forall b <- bs :: |b.data| < 256
    ensures bs[0..] == bs && Mirror(bs, known) == [] + Mirror(bs[0..], known)
    ensures bs[..|bs|] == bs && Mirror(bs[|bs|..], known) == [] && AllKnown(bs[..0], known)
  {
  }

  /** What one step of the host's walk adds to the list. */
  lemma MirrorNext(bs: seq<Block>, known: set<byte>, i: nat, seen: seq<HostBlock>)
    requires i < |bs| && forall b <- bs :: |b.data| < 256
    ensures var b := bs[i];
            && (b.typ == 0 ==> Mirror(bs[i..], known) == Mirror(bs[i + 1..], known))
            && (b.typ != 0 && b.typ !in known ==> Mirror(bs[i..], known) == [] && !AllKnown(bs, known))
            && (b.typ != 0 && b.typ in known ==>
                  seen + Mirror(bs[i..], known)
                  == (seen + [HostBlock(b.addr, b.typ, |b.data|)]) + Mirror(bs[i + 1..], known))
            && (AllKnown(bs[..i], known) && (b.typ == 0 || b.typ in known) ==> AllKnown(bs[..i + 1], known))
  {
    var b := bs[i];
    assert bs[i..][1..] == bs[i + 1..];
    assert bs[..i + 1] == bs[..i] + [b];
    assert b in bs;
  }

  lemma CStringStep(board: Device, h: nat, p: nat, j: nat, n: nat, s: seq<byte>)
    requires j < n
    ensures if Reply(board, h, p, j) == 0 then s + CString(board, h, p, j, n) == s
            else s + CString(board, h, p, j, n) == (s + [Reply(board, h, p, j)]) + CString(board, h, p, j + 1, n)
  {
  }

  lemma CStringEnd(board: Device, h: nat, p: nat, n: nat, s: seq<byte>)
    ensures s + CString(board, h, p, n, n) == s
  {
  }

  lemma WrittenNothing(b: Block, pos: nat)
    requires pos <= |b.data| < 256
    ensures Written(b, pos, []) == b
  {
  }

  lemma WrittenSize(b: Block, pos: nat, s: seq<byte>)
    requires pos + |s| <= |b.data| < 256
    ensures |Written(b, pos, s).data| == |b.data| && Written(b, pos, s).addr == b.addr
  {
  }

  /** The bytes of a string stored in a field: as many as fit in front of a NUL, then the NUL unless its index wraps. */
  lemma WrittenString(b: Block, pos: nat, size: nat, v: seq<byte>)
    requires size > 0 && pos + size <= |b.data| < 256
    ensures var n := if |v| < size then |v| else size - 1; var d := Written(b, pos, Cut(v, size) + [0]).data;
            && |d| == |b.data| && Cut(v, size) == v[..n]
            && d[pos..pos + n] == v[..n] && (pos + n < 254 ==> d[pos + n] == 0)
  {
    var c := Cut(v, size);
    assert (c + [0])[..|c|] == c;
    if pos + |c| < 254 {
      PutInside(b.data, pos, c + [0]);
      var d := Put(b.data, pos, c + [0]);
      assert d[pos..pos + |c|] == d[pos..pos + |c| + 1][..|c|];
    } else {
      PutInside(b.data, pos, c);
    }
  }

  lemma WrittenType(b: Block, pos: nat, s: seq<byte>)
    requires pos + |s| <= |b.data| < 256 && s != []
    ensures var w := Written(b, pos, s);
            if pos + |s| <= 254 then w.typ == b.typ && |w.data| == |b.data| && w.data[pos..pos + |s|] == s
            else w.typ == s[|s| - 1]
  {
  }

  /** Storing one more byte. */
  lemma WrittenMore(b: Block, pos: nat, s: seq<byte>, j: nat)
    requires pos + |s| <= |b.data| < 256 && j < |s|
    ensures var w := Written(b, pos, s[..j]);
            && w.addr == b.addr && |w.data| == |b.data|
            && Written(b, pos, s[..j + 1])
               == Poke(w, b.addr + (pos + 2 + j) % 256, s[j])
  {
    assert s[..j + 1][..j] == s[..j];
    PutMore(b.data, pos, s, j);
  }

  /** The type and payload cells of a block are no size cells. */
  lemma NoSizeCell(m: seq<byte>, start: nat, k: nat, a: nat)
    requires Walk(m, start, |m|) && k < |Blocks(m, start, |m|)| && Hits(Blocks(m, start, |m|)[k], a)
    ensures start <= a < |m| && !IsSizeCell(Blocks(m, start, |m|), a)
  {
    hide Walk, Blocks;
    var bs := Blocks(m, start, |m|);
    CursorNext(m, start, |m|, k);
    if j :| 0 <= j < |bs| && bs[j].addr + 1 == a {
      if j != k {
        Disjoint(m, start, k, j, a);
      }
    }
  }

  /** Bytes just stored in a payload, found in the cells. */
  lemma {:induction false} PayloadCells(m: seq<byte>, start: nat, k: nat, pos: nat, s: seq<byte>)
    requires Walk(m, start, |m|) && k < |Blocks(m, start, |m|)|
    requires var d := Blocks(m, start, |m|)[k].data; pos + |s| <= |d| && d[pos..pos + |s|] == s
    ensures var a := Blocks(m, start, |m|)[k].addr + 2 + pos; a + |s| <= |m| && m[a..a + |s|] == s
  {
    hide Walk, Blocks;
    WalkThrough(m, start, |m|, k);
    var b := Blocks(m, start, |m|)[k];
    SliceOfSlice(m, b.addr + 2, b.End(), pos, pos + |s|);
  }

  class Connection {
    const board: Device
    /** Block types with a description. */
    const known: set<byte>
    var blocks: seq<HostBlock>

    constructor (board: Device, known: set<byte>)
      ensures this.board == board && this.known == known
    {
      this.board, this.known := board, known;
    }

    /** The constructor of a host block reads type and size itself. */
    method Describe(address: nat, ghost i: nat) returns (block: HostBlock)
      requires board.Chained() && i < |board.State().blocks| && address == board.State().blocks[i].addr
      ensures |board.State().blocks[i].data| < 256
      ensures block == HostBlock(address, board.State().blocks[i].typ, |board.State().blocks[i].data|)
    {
      hide Walk, Blocks;
      CursorNext(board.cells[..], board.start, board.cells.Length, i);
      var d := board.ReadFromBlock(address, 0);
      return HostBlock(address, d[0], d[1]);
    }

    /** `eds_connection::update`: stops with an error at the first live block of unknown type. */
    method Update() returns (ok: bool)
      requires board.Chained()
      modifies this`blocks
      ensures forall b <- board.State().blocks :: |b.data| < 256
      ensures ok == AllKnown(board.State().blocks, known)
      ensures blocks == Mirror(board.State().blocks, known)
    {
      hide Walk, Blocks, Mirror, AllKnown;
      ghost var bs, i := board.State().blocks, 0;
      EncodeOfBlocks(board.cells[..], board.start, board.cells.Length);
      MirrorStart(bs, known);
      blocks := [];
      var it, more := 0, true;
      while more
        invariant i <= |bs| && it < 0x1_0000 && (more ==> it == if i == 0 then 0 else bs[i - 1].addr)
        invariant bs == board.State().blocks && (!more ==> i == |bs|)
        invariant AllKnown(bs[..i], known)
        invariant Mirror(bs, known) == blocks + Mirror(bs[i..], known)
        decreases more, |bs| - i
      {
        var next, typ, size := board.GetNextBlock(it, i);
        it := next;
        if i < |bs| {
          MirrorNext(bs, known, i, blocks);
        }
        if it != 0 && typ != 0 {
          var block := Describe(it, i);
          if typ !in known {
            return false;
          }
          blocks := blocks + [block];
        }
        more := it != 0;
        if more { i := i + 1; }
      }
      assert bs[..i] == bs;
      return true;
    }

    /** `eds_connection::space_free` (free) and `space_used`. */
    method Space(free: bool) returns (sum: nat)
      requires board.Chained()
      ensures sum == PayloadSum(board.State().blocks, free)
    {
      hide Walk, Blocks;
      ghost var bs, i := board.State().blocks, 0;
      sum := 0;
      var it, more := 0, true;
      while more
        invariant i <= |bs| && it < 0x1_0000 && (more ==> it == if i == 0 then 0 else bs[i - 1].addr)
        invariant bs == board.State().blocks && (!more ==> i == |bs|)
        invariant PayloadSum(bs, free) == sum + PayloadSum(bs[i..], free)
        decreases more, |bs| - i
      {
        var next, typ, size := board.GetNextBlock(it, i);
        it := next;
        if i < |bs| {
          assert bs[i..][1..] == bs[i + 1..];
        }
        if it != 0 && (typ == 0) == free {
          sum := sum + size;
        }
        more := it != 0;
        if more { i := i + 1; }
      }
    }

    /** The host's numbers account for every cell of the data area. */
    method SpaceReport(ghost count: nat) returns (free: nat, used: nat)
      requires board.Chained() && count == |board.State().blocks|
      ensures free + used + 2 * count == board.cells.Length - board.start
      ensures var bs := board.State().blocks; used == Payload(Live(bs)) && free + used == Payload(bs)
    {
      hide Walk, Blocks, Payload, Live;
      SumsMean(board.State().blocks);
      free := Space(true);
      used := Space(false);
      EncodeOfBlocks(board.cells[..], board.start, board.cells.Length);
      CellsAddUp(board.State().blocks, board.start, board.cells.Length);
    }

    /** Bytes pos to pos + n - 1 lie in the payload of block k. */
    ghost predicate InBlock(address: nat, pos: nat, n: nat, k: nat)
      reads board.cells
    {
      && board.Chained() && k < |board.State().blocks| && address == board.State().blocks[k].addr
      && pos + n <= |board.State().blocks[k].data| < 256
    }

    /** Stores bytes one WRITE_TO_BLOCK at a time, the index truncated to a byte. */
    method Store(address: nat, pos: nat, s: seq<byte>, ghost k: nat)
      requires InBlock(address, pos, |s|, k)
      modifies board.cells
      ensures InBlock(address, pos, |s|, k) && board.State().low == old(board.State().low)
      ensures board.State().blocks == old(board.State().blocks[k := Written(board.State().blocks[k], pos, s)])
    {
      hide Walk, Blocks, Written;
      ghost var bs := board.State().blocks;
      WrittenNothing(bs[k], pos);
      for j := 0 to |s|
        invariant board.Chained() && board.State().low == old(board.State().low)
        invariant board.State().blocks == bs[k := Written(bs[k], pos, s[..j])]
      {
        CursorNext(board.cells[..], board.start, board.cells.Length, k);
        WrittenMore(bs[k], pos, s, j);
        PokeOnly(board.cells[..], board.start, k, address + (pos + 2 + j) % 256, s[j]);
        NoSizeCell(board.cells[..], board.start, k, address + (pos + 2 + j) % 256);
        board.WriteByte(address, (pos + 2 + j) % 256, s[j]);
      }
      assert s[..|s|] == s;
      WrittenSize(bs[k], pos, s);
    }

    /** `set_field_str`: nothing is written when the field is no char field, or empty (cutting to -1 throws). */
    method SetFieldStr(address: nat, f: Field, v: seq<byte>, ghost k: nat) returns (ok: bool)
      requires InBlock(address, f.pos, f.size, k)
      modifies board.cells
      ensures ok == (f.isChar && f.size > 0) && InBlock(address, f.pos, f.size, k)
      ensures board.State().low == old(board.State().low)
      ensures var bs := old(board.State().blocks);
              board.State().blocks == if ok then bs[k := Written(bs[k], f.pos, Cut(v, f.size) + [0])] else bs
      ensures ok ==>
                var n := if |v| < f.size then |v| else f.size - 1; var d := board.State().blocks[k].data;
                d[f.pos..f.pos + n] == v[..n] && (f.pos + n < 254 ==> d[f.pos + n] == 0)
    {
      hide Walk, Blocks, Written;
      if !f.isChar || f.size == 0 { return false; }
      WrittenSize(board.State().blocks[k], f.pos, Cut(v, f.size) + [0]);
      WrittenString(board.State().blocks[k], f.pos, f.size, v);
      Store(address, f.pos, Cut(v, f.size) + [0], k);
      return true;
    }

    /** `strfield`: replies of four bytes until a NUL or the end of the field. */
    method StrField(address: nat, f: Field) returns (ok: bool, s: seq<byte>)
      ensures ok == f.isChar
      ensures ok ==> s == CString(board, address, f.pos + 2, 0, Window(f.size))
    {
      hide CString, Reply, Window;
      s := [];
      if !f.isChar { return false, []; }
      ghost var p, w := f.pos + 2, Window(f.size);
      var j := 0;
      while j < f.size
        invariant j % 4 == 0 && j <= w
        invariant CString(board, address, p, 0, w) == s + CString(board, address, p, j, w)
      {
        var d := board.ReadFromBlock(address, (f.pos + 2 + j) % 256);
        var k := 0;
        while k < 4 && d[k] != 0
          invariant 0 <= k <= 4
          invariant CString(board, address, p, 0, w) == s + CString(board, address, p, j + k, w)
        {
          ReplyAt(board, address, p, j, k);
          CStringStep(board, address, p, j + k, w, s);
          s, k := s + [d[k]], k + 1;
        }
        if k < 4 {
          ReplyAt(board, address, p, j, k);
          CStringStep(board, address, p, j + k, w, s);
          return true, s;
        }
        j := j + 4;
      }
      CStringEnd(board, address, p, w, s);
      return true, s;
    }

    /** `set_field_uint16`: low byte first. */
    method SetFieldUint16(address: nat, f: Field, v: nat, ghost k: nat) returns (ok: bool)
      requires InBlock(address, f.pos, 2, k) && v < 0x1_0000
      modifies board.cells
      ensures ok == !f.isChar && InBlock(address, f.pos, 2, k)
      ensures board.State().low == old(board.State().low)
      ensures var bs := old(board.State().blocks);
              board.State().blocks == if ok then bs[k := Written(bs[k], f.pos, [v % 256, v / 256])] else bs
    {
      hide Walk, Blocks, Written;
      if f.isChar { return false; }
      Store(address, f.pos, [v % 256, v / 256], k);
      return true;
    }

    /** `uint16_field`. */
    method Uint16Field(address: nat, f: Field) returns (ok: bool, v: nat)
      ensures ok == !f.isChar
      ensures ok ==> v % 256 == Reply(board, address, f.pos + 2, 0) && v / 256 == Reply(board, address, f.pos + 2, 1)
    {
      if f.isChar { return false, 0; }
      var d := board.ReadFromBlock(address, (f.pos + 2) % 256);
      var lo: int, hi: int := d[0], d[1];
      return true, hi * 256 + lo;
    }

    /**
     Storing a NUL-free string and reading it back gives the string cut to the field, unless its NUL falls
     behind index 255: then the block's type becomes 0, so the block is free.
     */
    method RewriteStr(address: nat, f: Field, v: seq<byte>, ghost k: nat) returns (s: seq<byte>)
      requires InBlock(address, f.pos, f.size, k) && f.isChar && f.size >= 1 && 0 !in v
      modifies board.cells
      ensures InBlock(address, f.pos, f.size, k)
      ensures var n := if |v| < f.size then |v| else f.size - 1;
              && (f.pos + n < 254 ==> s == v[..n])
              && board.State().blocks[k].typ == if f.pos + n < 254 then old(board.State().blocks[k].typ) else 0
    {
      hide Walk, Blocks, Written, CString;
      WrittenType(board.State().blocks[k], f.pos, Cut(v, f.size) + [0]);
      var ok := SetFieldStr(address, f, v, k);
      ghost var c := Cut(v, f.size);
      if f.pos + |c| < 254 {
        PayloadCells(board.cells[..], board.start, k, f.pos, c + [0]);
        StringRoundTrip(board, address, f.pos + 2, c, 0, Window(f.size));
      }
      ok, s := StrField(address, f);
    }

    /** A 16-bit field reads back as stored, unless its high byte fell behind index 255: then that is the type. */
    method RewriteUint16(address: nat, f: Field, v: nat, ghost k: nat) returns (w: nat)
      requires InBlock(address, f.pos, 2, k) && !f.isChar && v < 0x1_0000
      modifies board.cells
      ensures InBlock(address, f.pos, 2, k)
      ensures f.pos < 253 ==> w == v
      ensures board.State().blocks[k].typ == if f.pos < 253 then old(board.State().blocks[k].typ) else v / 256
    {
      hide Walk, Blocks, Written, Reply;
      WrittenType(board.State().blocks[k], f.pos, [v % 256, v / 256]);
      var ok := SetFieldUint16(address, f, v, k);
      if f.pos < 253 {
        PayloadCells(board.cells[..], board.start, k, f.pos, [v % 256, v / 256]);
        NumberRoundTrip(board, address, f.pos + 2, v);
      }
      ok, w := Uint16Field(address, f);
    }
  }
}
