/**
 The EDS data space as bytes: blocks of the form (type, size, payload...), chained only by their
 size bytes. A memory is the whole EEPROM, so its length is EDS_END + 1.
 */
module EdsChain {
  import opened Bytes
  import opened Seqs

  /** A block read out of the memory: its address, type byte and payload bytes. */
  datatype Block = Block(addr: nat, typ: byte, data: seq<byte>) {
    function End(): nat { addr + 2 + |data| }
  }

  /** The address `eds_next_block` computes. */
  function Next(m: seq<byte>, p: nat): nat
    requires p + 1 < |m|
  {
    p + 2 + m[p + 1]
  }

  /** The block whose header is at p. */
  function At(m: seq<byte>, p: nat): Block
    requires p + 1 < |m| && Next(m, p) <= |m|
  {
    Block(p, m[p], m[p + 2..Next(m, p)])
  }

  /** Following size bytes from p leads exactly to q, with every header and payload inside the memory. */
  predicate Walk(m: seq<byte>, p: nat, q: nat)
    decreases q - p
  {
    p == q || (p + 2 <= q <= |m| && Next(m, p) <= q && Walk(m, Next(m, p), q))
  }

  /** The blocks met on the walk from p to q. */
  function Blocks(m: seq<byte>, p: nat, q: nat): (bs: seq<Block>)
    requires Walk(m, p, q)
    decreases q - p
  {
    if p == q then [] else [At(m, p)] + Blocks(m, Next(m, p), q)
  }

  lemma WalkEmpty(m: seq<byte>, p: nat)
    ensures Walk(m, p, p) && Blocks(m, p, p) == []
  {
  }

  /** One step of a walk. */
  lemma {:induction false} WalkStep(m: seq<byte>, p: nat, q: nat)
    requires p + 1 < |m| && Next(m, p) <= q <= |m| && Walk(m, Next(m, p), q)
    ensures Walk(m, p, q) && Blocks(m, p, q) == [At(m, p)] + Blocks(m, Next(m, p), q)
  {
  }

  /** Walks compose, and so do their block lists. */
  lemma {:induction false} WalkConcat(m: seq<byte>, p: nat, q: nat, r: nat)
    requires Walk(m, p, q) && Walk(m, q, r) && r <= |m|
    ensures Walk(m, p, r)
    ensures Blocks(m, p, r) == Blocks(m, p, q) + Blocks(m, q, r)
    decreases q - p
  {
    if p == q {
    } else {
      var n := Next(m, p);
      WalkConcat(m, n, q, r);
      Assoc([At(m, p)], Blocks(m, n, q), Blocks(m, q, r));
    }
  }

  /** Whether a walk arrives is decided behind any point it has reached. */
  lemma {:induction false} WalkSplit(m: seq<byte>, p: nat, q: nat, r: nat)
    requires Walk(m, p, q) && q <= r <= |m|
    ensures Walk(m, p, r) <==> Walk(m, q, r)
    decreases q - p
  {
    if p != q {
      WalkSplit(m, Next(m, p), q, r);
    }
  }

  /** A walk only depends on the cells it runs over. */
  lemma {:induction false} WalkFrame(m: seq<byte>, m': seq<byte>, p: nat, q: nat)
    requires Walk(m, p, q) && q <= |m| && q <= |m'|
    requires forall i :: p <= i < q ==> m[i] == m'[i]
    ensures Walk(m', p, q) && Blocks(m', p, q) == Blocks(m, p, q)
    decreases q - p
  {
    if p == q {
    } else {
      var n := Next(m, p);
      WalkFrame(m, m', n, q);
      assert m[p + 2..n] == m'[p + 2..n];
      WalkStep(m', p, q);
    }
  }

  /** The walk over a single block. */
  lemma {:induction false} WalkOne(m: seq<byte>, p: nat)
    requires p + 1 < |m| && Next(m, p) <= |m|
    ensures Walk(m, p, Next(m, p)) && Blocks(m, p, Next(m, p)) == [At(m, p)]
  {
    WalkStep(m, p, Next(m, p));
  }

  /** The walk over two blocks. */
  lemma {:induction false} WalkTwo(m: seq<byte>, p: nat, r: nat)
    requires p + 1 < |m| && Next(m, p) == r && r + 1 < |m| && Next(m, r) <= |m|
    ensures Walk(m, p, Next(m, r)) && Blocks(m, p, Next(m, r)) == [At(m, p), At(m, r)]
  {
    WalkOne(m, r);
    WalkStep(m, p, Next(m, r));
  }

  /** Every block of a walk is the one found at its own address. */
  lemma {:induction false} WalkThrough(m: seq<byte>, p: nat, q: nat, i: nat)
    requires Walk(m, p, q) && q <= |m| && i < |Blocks(m, p, q)|
    ensures var b := Blocks(m, p, q)[i];
            && p <= b.addr && b.End() <= q && b.addr + 1 < |m| && Next(m, b.addr) == b.End() && At(m, b.addr) == b
            && Walk(m, p, b.addr) && Walk(m, b.End(), q)
            && Blocks(m, p, b.addr) == Blocks(m, p, q)[..i]
            && Blocks(m, b.End(), q) == Blocks(m, p, q)[i + 1..]
    decreases q - p
  {
    var n := Next(m, p);
    if i == 0 {
    } else {
      WalkThrough(m, n, q, i - 1);
      var b := Blocks(m, p, q)[i];
    }
  }

  /** Where the i-th block starts; behind the last block, where the walk ends. */
  function Cursor(bs: seq<Block>, i: nat, q: nat): nat {
    if i < |bs| then bs[i].addr else q
  }

  lemma {:induction false} CursorFirst(m: seq<byte>, p: nat, q: nat)
    requires Walk(m, p, q) && q <= |m|
    ensures Cursor(Blocks(m, p, q), 0, q) == p
  {
  }

  /** What the cells at the i-th block say, and where the next block is. */
  lemma {:induction false} CursorNext(m: seq<byte>, p: nat, q: nat, i: nat)
    requires Walk(m, p, q) && q <= |m| && i < |Blocks(m, p, q)|
    ensures var bs := Blocks(m, p, q); var b := bs[i];
            && p <= b.addr && b.End() <= q && b.addr + 1 < |m|
            && m[b.addr] == b.typ && m[b.addr + 1] == |b.data| && Cursor(bs, i + 1, q) == b.End()
  {
    WalkThrough(m, p, q, i);
    var bs := Blocks(m, p, q);
    CursorFirst(m, bs[i].End(), q);
    if i + 1 < |bs| {
      assert bs[i + 1] == bs[i + 1..][0];
    }
  }

  // ---------------------------------------------------------------- bytes and block lists

  /** The blocks sit one behind the other, the first at p and the last ending at q. */
  predicate Laid(bs: seq<Block>, p: nat, q: nat) {
    if bs == [] then p == q
    else bs[0].addr == p && |bs[0].data| < 256 && Laid(bs[1..], bs[0].End(), q)
  }

  /** The bytes of a block list: the inverse of `Blocks`. */
  function Encode(bs: seq<Block>): seq<byte>
    requires forall b <- bs :: |b.data| < 256
  {
    if bs == [] then [] else [bs[0].typ, |bs[0].data|] + bs[0].data + Encode(bs[1..])
  }

  lemma LaidSizes(bs: seq<Block>, p: nat, q: nat)
    requires Laid(bs, p, q)
    ensures p <= q
    ensures forall b <- bs :: |b.data| < 256 && p <= b.addr && b.End() <= q
  {
    if bs != [] {
      LaidSizes(bs[1..], bs[0].End(), q);
      assert bs == [bs[0]] + bs[1..];
    }
  }

  lemma {:induction false} LaidConcat(a: seq<Block>, b: seq<Block>, p: nat, q: nat, r: nat)
    requires Laid(a, p, q) && Laid(b, q, r)
    ensures Laid(a + b, p, r)
  {
    if a == [] {
      assert a + b == b;
    } else {
      LaidConcat(a[1..], b, a[0].End(), q, r);
      assert (a + b)[1..] == a[1..] + b;
    }
  }

  /** A laid-out list can be cut at any index. */
  lemma {:induction false} LaidSplit(bs: seq<Block>, p: nat, q: nat, i: nat)
    requires Laid(bs, p, q) && i < |bs|
    ensures Laid(bs[..i], p, bs[i].addr) && Laid(bs[i + 1..], bs[i].End(), q) && |bs[i].data| < 256
  {
    if i == 0 {
    } else {
      LaidSplit(bs[1..], bs[0].End(), q, i - 1);
      assert bs[..i][1..] == bs[1..][..i - 1];
      assert bs[1..][i..] == bs[i + 1..];
    }
  }

  lemma CellsOfHead(m: seq<byte>, p: nat, n: nat, q: nat)
    requires p + 2 <= n <= q <= |m|
    ensures m[p..q] == [m[p], m[p + 1]] + m[p + 2..n] + m[n..q]
  {
    var r := [m[p], m[p + 1]] + m[p + 2..n] + m[n..q];
    forall i | 0 <= i < q - p ensures m[p..q][i] == r[i] {
    }
  }

  /** Reading blocks and writing them back gives the same bytes, and the list is laid out gap-free. */
  lemma {:induction false} EncodeOfBlocks(m: seq<byte>, p: nat, q: nat)
    requires Walk(m, p, q) && q <= |m|
    ensures Laid(Blocks(m, p, q), p, q)
    ensures forall b <- Blocks(m, p, q) :: |b.data| < 256
    ensures p <= q && Encode(Blocks(m, p, q)) == m[p..q]
    decreases q - p
  {
    if p == q {
    } else {
      var n := Next(m, p);
      EncodeOfBlocks(m, n, q);
      var bs := Blocks(m, p, q);
      assert bs[1..] == Blocks(m, n, q);
      assert bs == [bs[0]] + bs[1..];
      CellsOfHead(m, p, n, q);
    }
  }

  /** A header followed by its payload is read back as that block. */
  lemma AtEncoded(low: seq<byte>, b: Block, rest: seq<byte>)
    requires b.addr == |low| && |b.data| < 256
    ensures var m := (low + [b.typ, |b.data|] + b.data) + rest;
            Next(m, b.addr) == b.End() && At(m, b.addr) == b
  {
    var m := (low + [b.typ, |b.data|] + b.data) + rest;
    assert m[b.addr + 2..b.End()] == b.data;
  }

  /** Writing a laid-out list behind some bytes and reading it back gives the same list. */
  lemma {:induction false} BlocksOfEncode(low: seq<byte>, bs: seq<Block>, q: nat)
    requires Laid(bs, |low|, q)
    ensures forall b <- bs :: |b.data| < 256
    ensures |low + Encode(bs)| == q
    ensures Walk(low + Encode(bs), |low|, q) && Blocks(low + Encode(bs), |low|, q) == bs
    decreases |bs|
  {
    hide Walk, Blocks;
    LaidSizes(bs, |low|, q);
    if bs == [] {
      WalkEmpty(low + [], q);
    } else {
      var b, rest := bs[0], Encode(bs[1..]);
      var low' := low + [b.typ, |b.data|] + b.data;
      BlocksOfEncode(low', bs[1..], q);
      AtEncoded(low, b, rest);
      LaidSizes(bs[1..], b.End(), q);
      assert low + ([b.typ, |b.data|] + b.data + rest) == low' + rest;
      WalkStep(low' + rest, |low|, q);
    }
  }

  // ---------------------------------------------------------------- what "tiling" means

  /** Every cell of [p, q) lies in exactly one of the blocks. */
  lemma {:induction false} LaidTiles(bs: seq<Block>, p: nat, q: nat, a: nat)
    requires Laid(bs, p, q) && p <= a < q
    ensures exists i: nat :: i < |bs| && bs[i].addr <= a < bs[i].End()
    ensures forall i, j | 0 <= i < j < |bs| :: !(bs[i].addr <= a < bs[i].End() && bs[j].addr <= a < bs[j].End())
  {
    LaidSizes(bs[1..], bs[0].End(), q);
    if a < bs[0].End() {
      assert bs[0].addr <= a;
    } else {
      LaidTiles(bs[1..], bs[0].End(), q, a);
      var i: nat :| i < |bs[1..]| && bs[1..][i].addr <= a < bs[1..][i].End();
      assert bs[i + 1].addr <= a < bs[i + 1].End();
      forall i, j | 0 <= i < j < |bs|
        ensures !(bs[i].addr <= a < bs[i].End() && bs[j].addr <= a < bs[j].End())
      {
        assert bs[1..][j - 1] == bs[j] && (i > 0 ==> bs[1..][i - 1] == bs[i]);
      }
    }
  }
}
