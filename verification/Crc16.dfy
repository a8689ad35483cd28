/**
 The CRC-16 (polynomial 0xA001) that host and bootloader compute over a firmware image: the host over
 byte pairs of its image, the board over little-endian words of its flash.
 */
module Crc16 {
  import opened Seqs

  predicate Odd(c: bv16) { c & 1 == 1 }

  predicate Top(c: bv16) { c & 0x8000 != 0 }

  function Half(c: bv16): bv16 { c >> 1 }

  /** The register with the polynomial added. */
  function Poly(c: bv16): bv16 { c ^ 0xA001 }

  /** One bit of the CRC register loop. */
  function Shift(c: bv16): bv16 {
    if Odd(c) then Poly(Half(c)) else Half(c)
  }

  function Double(c: bv16): bv16 { c << 1 }

  function DoubleOdd(c: bv16): bv16 { (c << 1) | 1 }

  /** The inverse of `Shift`: the top bit tells whether the polynomial was added. */
  function Unshift(d: bv16): bv16 {
    if Top(d) then DoubleOdd(Poly(d)) else Double(d)
  }

  function Shifts(c: bv16, n: nat): bv16 {
    if n == 0 then c else Shift(Shifts(c, n - 1))
  }

  function Unshifts(d: bv16, n: nat): bv16
    decreases n
  {
    if n == 0 then d else Unshifts(Unshift(d), n - 1)
  }

  /** The register with a byte added in. */
  function Add(c: bv16, a: bv8): bv16 {
    c ^ (a as bv16)
  }

  /** `_crc16_update`, the same function on both sides. */
  function Update(crc: bv16, a: bv8): bv16 {
    Shifts(Add(crc, a), 8)
  }

  method CrcUpdate(crc: bv16, a: bv8) returns (r: bv16)
    ensures r == Update(crc, a)
  {
    r := crc ^ (a as bv16);
    ghost var x := r;
    for i := 0 to 8
      invariant r == Shifts(x, i)
    {
      if r & 1 == 1 {
        r := (r >> 1) ^ 0xA001;
      } else {
        r := r >> 1;
      }
    }
  }

  // ---------------------------------------------------------------- host: byte pairs

  /** The second byte of each pair goes first; an odd last byte is ignored. */
  function PairsCrc(crc: bv16, data: seq<bv8>): bv16
    decreases |data|
  {
    if |data| < 2 then crc else PairsCrc(Update(Update(crc, data[1]), data[0]), data[2..])
  }

  /** `ihexfile::crc16`. */
  method HostCrc(data: seq<bv8>) returns (crc: bv16)
    ensures crc == PairsCrc(0xffff, data)
  {
    crc := 0xffff;
    for i := 0 to |data| / 2
      invariant PairsCrc(0xffff, data) == PairsCrc(crc, data[2 * i..])
    {
      assert data[2 * i..][2..] == data[2 * (i + 1)..];
      crc := CrcUpdate(crc, data[i * 2 + 1]);
      crc := CrcUpdate(crc, data[i * 2]);
    }
  }

  // ---------------------------------------------------------------- board: little-endian words

  function Word(lo: bv8, hi: bv8): bv16 {
    (hi as bv16 << 8) | (lo as bv16)
  }

  function Hi(w: bv16): bv8 { ((w >> 8) & 0xff) as bv8 }

  function Lo(w: bv16): bv8 { (w & 0xff) as bv8 }

  /** The words `pgm_read_word` yields for the given bytes. */
  function Words(data: seq<bv8>): seq<bv16>
    decreases |data|
  {
    if |data| < 2 then [] else [Word(data[0], data[1])] + Words(data[2..])
  }

  function WordUpdate(crc: bv16, w: bv16): bv16 {
    Update(Update(crc, Hi(w)), Lo(w))
  }

  function WordsCrc(crc: bv16, ws: seq<bv16>): bv16
    decreases |ws|
  {
    if ws == [] then crc else WordsCrc(WordUpdate(crc, ws[0]), ws[1..])
  }

  /** What reading the first bytes of the flash gives; behind its end that is up to the hardware. */
  function Seen(flash: seq<bv8>, past: nat -> bv8, size: nat): (r: seq<bv8>)
    ensures |r| == size && (size <= |flash| ==> r == flash[..size])
  {
    seq(size, i requires 0 <= i < size => if i < |flash| then flash[i] else past(i))
  }

  /** `calculate_crc16_over_flash`. */
  method BoardCrc(flash: array<bv8>, past: nat -> bv8, size: nat) returns (crc: bv16)
    ensures crc == WordsCrc(0xffff, Words(Seen(flash[..], past, size)))
  {
    hide Word, Hi, Lo, Update;
    crc := 0xffff;
    ghost var data := Seen(flash[..], past, size);
    var p := 0;
    for i := 0 to size / 2
      invariant p == 2 * i
      invariant WordsCrc(0xffff, Words(data)) == WordsCrc(crc, Words(data[p..]))
    {
      assert data[p..][2..] == data[p + 2..];
      var lo := if p < flash.Length then flash[p] else past(p);
      var hi := if p + 1 < flash.Length then flash[p + 1] else past(p + 1);
      assert data[p] == lo && data[p + 1] == hi;
      var temp := Word(lo, hi);
      assert Words(data[p..]) == [temp] + Words(data[p + 2..]);
      crc := CrcUpdate(crc, Hi(temp));
      crc := CrcUpdate(crc, Lo(temp));
      p := p + 2;
    }
  }

  lemma WordParts(lo: bv8, hi: bv8)
    ensures Lo(Word(lo, hi)) == lo && Hi(Word(lo, hi)) == hi
  {
  }

  lemma PartsWord(w: bv16)
    ensures Word(Lo(w), Hi(w)) == w
  {
  }

  /** For equal bytes the host and the board get the same CRC. */
  lemma {:induction false} HostAndBoardAgree(crc: bv16, data: seq<bv8>)
    ensures PairsCrc(crc, data) == WordsCrc(crc, Words(data))
    decreases |data|
  {
    hide Update, Word, Hi, Lo;
    if |data| >= 2 {
      WordParts(data[0], data[1]);
      HostAndBoardAgree(Update(Update(crc, data[1]), data[0]), data[2..]);
      assert Words(data)[1..] == Words(data[2..]);
    }
  }

  // ---------------------------------------------------------------- the update loses no information

  lemma HalfBits(c: bv16)
    ensures (c >> 1) & 0x8000 == 0
    ensures c & 1 == 1 ==> ((c >> 1) << 1) | 1 == c
    ensures c & 1 != 1 ==> (c >> 1) << 1 == c
  {
  }

  lemma PolyBits(c: bv16)
    ensures (c ^ 0xA001) ^ 0xA001 == c
    ensures ((c ^ 0xA001) & 0x8000 != 0) != (c & 0x8000 != 0)
  {
  }

  lemma DoubleBits(c: bv16)
    requires c & 0x8000 == 0
    ensures ((c << 1) | 1) & 1 == 1 && (c << 1) & 1 != 1
    ensures ((c << 1) | 1) >> 1 == c && (c << 1) >> 1 == c
  {
  }

  lemma ShiftBits(c: bv16)
    ensures !Top(Half(c)) && Poly(Poly(c)) == c && Top(Poly(c)) != Top(c)
    ensures if Odd(c) then DoubleOdd(Half(c)) == c else Double(Half(c)) == c
    ensures !Top(c) ==> Odd(DoubleOdd(c)) && Half(DoubleOdd(c)) == c && !Odd(Double(c)) && Half(Double(c)) == c
  {
    HalfBits(c);
    PolyBits(c);
    if !Top(c) {
      DoubleBits(c);
    }
  }

  lemma ShiftInverse(c: bv16)
    ensures Unshift(Shift(c)) == c && Shift(Unshift(c)) == c
  {
    hide Odd, Top, Half, Poly, Double, DoubleOdd;
    ShiftBits(c);
    ShiftBits(Half(c));
    ShiftBits(Poly(c));
  }

  lemma {:induction false} ShiftsInverse(c: bv16, n: nat)
    ensures Unshifts(Shifts(c, n), n) == c
  {
    hide Shift, Unshift;
    if n > 0 {
      ShiftInverse(Shifts(c, n - 1));
      ShiftsInverse(c, n - 1);
    }
  }

  lemma {:induction false} UnshiftsInverse(d: bv16, n: nat)
    ensures Shifts(Unshifts(d, n), n) == d
    decreases n
  {
    hide Shift, Unshift;
    if n > 0 {
      UnshiftsInverse(Unshift(d), n - 1);
      ShiftInverse(d);
    }
  }

  lemma AddTwice(c: bv16, a: bv8)
    ensures Add(Add(c, a), a) == c
  {
  }

  /** Running the update for one byte backwards. */
  function Revert(crc: bv16, a: bv8): bv16 {
    Add(Unshifts(crc, 8), a)
  }

  lemma UpdateBijective(crc: bv16, a: bv8)
    ensures Revert(Update(crc, a), a) == crc && Update(Revert(crc, a), a) == crc
  {
    hide Shifts, Unshifts, Add;
    ShiftsInverse(Add(crc, a), 8);
    UnshiftsInverse(crc, 8);
    AddTwice(crc, a);
    AddTwice(Unshifts(crc, 8), a);
  }

  function WordRevert(crc: bv16, w: bv16): bv16 {
    Revert(Revert(crc, Lo(w)), Hi(w))
  }

  /** For every word the update is a bijection on CRC states. */
  lemma WordUpdateBijective(crc: bv16, w: bv16)
    ensures WordRevert(WordUpdate(crc, w), w) == crc
    ensures WordUpdate(WordRevert(crc, w), w) == crc
  {
    hide Update, Revert, Hi, Lo;
    UpdateBijective(crc, Hi(w));
    UpdateBijective(Update(crc, Hi(w)), Lo(w));
    UpdateBijective(crc, Lo(w));
    UpdateBijective(Revert(crc, Lo(w)), Hi(w));
  }

  function Xor(a: bv16, b: bv16): bv16 { a ^ b }

  lemma XorBits(a: bv16, b: bv16)
    ensures Half(Xor(a, b)) == Xor(Half(a), Half(b)) && Odd(Xor(a, b)) == (Odd(a) != Odd(b))
  {
    assert a & 1 == 0 || a & 1 == 1;
    assert b & 1 == 0 || b & 1 == 1;
    assert (a ^ b) & 1 == (a & 1) ^ (b & 1);
  }

  lemma XorPolyBoth(a: bv16, b: bv16)
    ensures Xor(Poly(a), Poly(b)) == Xor(a, b)
  {
    assert (a ^ 0xA001) ^ (b ^ 0xA001) == a ^ b;
  }

  lemma XorPolyLeft(a: bv16, b: bv16)
    ensures Xor(Poly(a), b) == Poly(Xor(a, b))
  {
    assert (a ^ 0xA001) ^ b == (a ^ b) ^ 0xA001;
  }

  lemma XorPolyRight(a: bv16, b: bv16)
    ensures Xor(a, Poly(b)) == Poly(Xor(a, b))
  {
    assert a ^ (b ^ 0xA001) == (a ^ b) ^ 0xA001;
  }

  lemma ShiftLinear(a: bv16, b: bv16)
    ensures Shift(Xor(a, b)) == Xor(Shift(a), Shift(b))
  {
    hide Odd, Half, Poly, Xor;
    XorBits(a, b);
    XorPolyBoth(Half(a), Half(b));
    XorPolyLeft(Half(a), Half(b));
    XorPolyRight(Half(a), Half(b));
  }

  lemma {:induction false} ShiftsLinear(a: bv16, b: bv16, n: nat)
    ensures Shifts(Xor(a, b), n) == Xor(Shifts(a, n), Shifts(b, n))
  {
    hide Shift, Xor;
    if n > 0 {
      ShiftsLinear(a, b, n - 1);
      ShiftLinear(Shifts(a, n - 1), Shifts(b, n - 1));
    }
  }

  /** Eight shifts written out. */
  lemma ShiftsEight(c: bv16)
    ensures Shifts(c, 8) == Shift(Shift(Shift(Shift(Shift(Shift(Shift(Shift(c))))))))
  {
    hide Shift;
    assert Shifts(c, 1) == Shift(Shifts(c, 0));
    assert Shifts(c, 3) == Shift(Shift(Shifts(c, 1)));
    assert Shifts(c, 5) == Shift(Shift(Shifts(c, 3)));
    assert Shifts(c, 7) == Shift(Shift(Shifts(c, 5)));
  }

  /** Only the low byte is set. */
  predicate LowOnly(d: bv16) { d & 0xff00 == 0 }

  /** A nonzero difference in the low byte always reaches the high byte after eight shifts. */
  lemma ByteDifferenceSpreads(d: bv16)
    requires LowOnly(d)
    ensures LowOnly(Shift(Shift(Shift(Shift(Shift(Shift(Shift(Shift(d))))))))) ==> d == 0
  {
  }

  /** Two states that agree after adding bytes differ in the low byte at most. */
  lemma AddCancels(s: bv16, t: bv16, a: bv8, b: bv8)
    requires Add(s, a) == Add(t, b)
    ensures LowOnly(Xor(s, t)) && (s == t ==> a == b)
  {
  }

  lemma AddDifference(c: bv16, a: bv8, b: bv8)
    ensures LowOnly(Xor(Add(c, a), Add(c, b))) && (Xor(Add(c, a), Add(c, b)) == 0 ==> a == b)
  {
  }

  /** From one CRC state, different words lead to different states. */
  lemma WordUpdateInjective(crc: bv16, v: bv16, w: bv16)
    requires WordUpdate(crc, v) == WordUpdate(crc, w)
    ensures v == w
  {
    hide Shifts, Unshifts, Shift, Add, Xor, LowOnly, Hi, Lo, Word;
    var x, y := Add(crc, Hi(v)), Add(crc, Hi(w));
    var s, t := Shifts(x, 8), Shifts(y, 8);
    ShiftsInverse(Add(s, Lo(v)), 8);
    ShiftsInverse(Add(t, Lo(w)), 8);
    AddCancels(s, t, Lo(v), Lo(w));
    ShiftsLinear(x, y, 8);
    ShiftsEight(Xor(x, y));
    AddDifference(crc, Hi(v), Hi(w));
    ByteDifferenceSpreads(Xor(x, y));
    PartsWord(v);
    PartsWord(w);
  }

  lemma {:induction false} WordsCrcInjective(c: bv16, d: bv16, ws: seq<bv16>)
    requires WordsCrc(c, ws) == WordsCrc(d, ws)
    ensures c == d
    decreases |ws|
  {
    hide WordUpdate, WordRevert;
    if ws != [] {
      WordsCrcInjective(WordUpdate(c, ws[0]), WordUpdate(d, ws[0]), ws[1..]);
      WordUpdateBijective(c, ws[0]);
      WordUpdateBijective(d, ws[0]);
    }
  }

  /** Every change confined to one word changes the CRC. */
  lemma {:induction false} OneWordChangeDetected(crc: bv16, ws: seq<bv16>, k: nat, w: bv16)
    requires k < |ws| && ws[k] != w
    ensures WordsCrc(crc, ws[k := w]) != WordsCrc(crc, ws)
    decreases k
  {
    hide WordUpdate;
    var vs := ws[k := w];
    if k == 0 {
      assert vs[1..] == ws[1..];
      if WordsCrc(crc, vs) == WordsCrc(crc, ws) {
        WordsCrcInjective(WordUpdate(crc, w), WordUpdate(crc, ws[0]), ws[1..]);
        WordUpdateInjective(crc, w, ws[0]);
      }
    } else {
      assert vs[1..] == ws[1..][k - 1 := w];
      OneWordChangeDetected(WordUpdate(crc, ws[0]), ws[1..], k - 1, w);
    }
  }

  // ---------------------------------------------------------------- the CRC is linear

  function XorByte(a: bv8, b: bv8): bv8 { a ^ b }

  function Wide(a: bv8): bv16 { a as bv16 }

  lemma AddIsXor(c: bv16, a: bv8)
    ensures Add(c, a) == Xor(c, Wide(a))
  {
  }

  lemma WideLinear(a: bv8, b: bv8)
    ensures Wide(XorByte(a, b)) == Xor(Wide(a), Wide(b))
  {
    assert (a ^ b) as bv16 == (a as bv16) ^ (b as bv16);
  }

  lemma XorFour(c: bv16, x: bv16, d: bv16, y: bv16)
    ensures Xor(Xor(c, x), Xor(d, y)) == Xor(Xor(c, d), Xor(x, y))
  {
    hide Xor;
    XorAssoc(c, x, Xor(d, y));
    XorAssoc(x, d, y);
    XorComm(x, d);
    XorAssoc(d, x, y);
    XorAssoc(c, d, Xor(x, y));
  }

  lemma XorComm(a: bv16, b: bv16)
    ensures Xor(a, b) == Xor(b, a)
  {
  }

  lemma XorAssoc(a: bv16, b: bv16, c: bv16)
    ensures Xor(Xor(a, b), c) == Xor(a, Xor(b, c))
  {
  }

  lemma AddLinear(c: bv16, d: bv16, a: bv8, b: bv8)
    ensures Xor(Add(c, a), Add(d, b)) == Add(Xor(c, d), XorByte(a, b))
  {
    hide Add, Xor, XorByte, Wide;
    AddIsXor(c, a);
    AddIsXor(d, b);
    AddIsXor(Xor(c, d), XorByte(a, b));
    WideLinear(a, b);
    XorFour(c, Wide(a), d, Wide(b));
  }

  /** What two updates differ by depends on the differences of states and bytes only. */
  lemma UpdateLinear(c: bv16, d: bv16, a: bv8, b: bv8)
    ensures Xor(Update(c, a), Update(d, b)) == Update(Xor(c, d), XorByte(a, b))
  {
    hide Add, Xor, XorByte, Shifts;
    AddLinear(c, d, a, b);
    ShiftsLinear(Add(c, a), Add(d, b), 8);
  }

  /** What the CRCs of two byte strings differ by depends on what the strings differ by, and on nothing else. */
  lemma {:induction false} CrcLinear(c: bv16, d: bv16, e: bv16, f: bv16, u: seq<bv8>, v: seq<bv8>, x: seq<bv8>, y: seq<bv8>)
    requires |u| == |v| == |x| == |y| && Xor(c, d) == Xor(e, f)
    requires forall i :: 0 <= i < |u| ==> XorByte(u[i], v[i]) == XorByte(x[i], y[i])
    ensures Xor(PairsCrc(c, u), PairsCrc(d, v)) == Xor(PairsCrc(e, x), PairsCrc(f, y))
    decreases |u|
  {
    hide Xor, XorByte, Update;
    if |u| >= 2 {
      UpdateLinear(c, d, u[1], v[1]);
      UpdateLinear(e, f, x[1], y[1]);
      UpdateLinear(Update(c, u[1]), Update(d, v[1]), u[0], v[0]);
      UpdateLinear(Update(e, x[1]), Update(f, y[1]), x[0], y[0]);
      CrcLinear(Update(Update(c, u[1]), u[0]), Update(Update(d, v[1]), v[0]),
                Update(Update(e, x[1]), x[0]), Update(Update(f, y[1]), y[0]), u[2..], v[2..], x[2..], y[2..]);
    }
  }

  lemma XorSame(a: bv16, b: bv16, c: bv16)
    requires Xor(a, b) == Xor(c, c)
    ensures a == b
  {
  }

  lemma XorByteSame(a: bv8, b: bv8)
    ensures XorByte(a, a) == XorByte(b, b)
  {
  }

  /** Two different starts of an image that no continuation tells apart. */
  lemma Collision(rest: seq<bv8>)
    ensures PairsCrc(0xffff, [1, 0, 192, 193] + rest) == PairsCrc(0xffff, [0, 0, 0, 0] + rest)
  {
    hide Update;
    FirstWords();
    SecondWords();
    PairsTwo(0xffff, 1, 0, [192, 193] + rest);
    PairsTwo(0x70c0, 192, 193, rest);
    PairsTwo(0xffff, 0, 0, [0, 0] + rest);
    PairsTwo(0xb001, 0, 0, rest);
    Assoc([1, 0], [192, 193], rest);
    Assoc([0, 0], [0, 0], rest);
    assert [1, 0] + [192, 193] == [1, 0, 192, 193] && [0, 0] + [0, 0] == [0, 0, 0, 0];
  }

  lemma PairsTwo(crc: bv16, a: bv8, b: bv8, rest: seq<bv8>)
    ensures PairsCrc(crc, [a, b] + rest) == PairsCrc(Update(Update(crc, b), a), rest)
  {
    assert ([a, b] + rest)[2..] == rest;
  }

  lemma FirstWords()
    ensures Update(0xffff, 0) == 0x40bf && Update(0x40bf, 1) == 0x70c0 && Update(0x40bf, 0) == 0xb001
  {
    hide Shifts;
    ShiftsEight(Add(0xffff, 0));
    ShiftsEight(Add(0x40bf, 1));
    ShiftsEight(Add(0x40bf, 0));
  }

  lemma SecondWords()
    ensures Update(0x70c0, 193) == 0xc0b1 && Update(0xc0b1, 192) == 0x2400
    ensures Update(0xb001, 0) == 0xc071 && Update(0xc071, 0) == 0x2400
  {
    hide Shifts;
    ShiftsEight(Add(0x70c0, 193));
    ShiftsEight(Add(0xc0b1, 192));
    ShiftsEight(Add(0xb001, 0));
    ShiftsEight(Add(0xc071, 0));
  }
}
