/**
 The serial protocol between hcanhid and the bus interface: a frame is sent as 'C', hexadecimal bytes and
 'F', and is put together again from single characters.
 */
module Hid {
  import opened Octets
  import opened Seqs

  const BUFFER_SIZE := 64
  const CMD_NEW: bv8 := 0x43     // 'C'
  const CMD_DONE: bv8 := 0x46    // 'F'
  const CMD_SYNC: bv8 := 0x42    // 'B'
  const CMD_REBOOT: bv8 := 0x59  // 'Y'

  datatype FrameData = FrameData(id: bv32, data: seq<bv8>)

  /** CAN frames carry at most eight bytes. */
  type Frame = f: FrameData | |f.data| <= 8 witness FrameData(0, [])

  // ---------------------------------------------------------------- hexadecimal

  function HexChar(n: bv8): bv8 { if n < 10 then 0x30 + n else 0x57 + n }

  function HexHigh(b: bv8): bv8 { HexChar(b >> 4) }

  function HexLow(b: bv8): bv8 { HexChar(b & 0x0f) }

  function Nibble(c: bv8): bv8 { if 0x30 <= c <= 0x39 then c - 0x30 else (c - 0x61) + 10 }

  /** `convert_hexstr2int`. */
  function Convert(msb: bv8, lsb: bv8): bv8 { (Nibble(msb) << 4) | Nibble(lsb) }

  predicate IsCommand(c: bv8) { 0x41 <= c <= 0x5a }

  lemma NibbleOfHex(n: bv8)
    requires n < 16
    ensures Nibble(HexChar(n)) == n && !IsCommand(HexChar(n))
  {
  }

  lemma JoinNibbles(b: bv8)
    ensures b >> 4 < 16 && b & 0x0f < 16 && ((b >> 4) << 4) | (b & 0x0f) == b
  {
  }

  lemma ConvertOfHex(b: bv8)
    ensures Convert(HexHigh(b), HexLow(b)) == b && !IsCommand(HexHigh(b)) && !IsCommand(HexLow(b))
  {
    hide HexChar, Nibble, IsCommand;
    JoinNibbles(b);
    NibbleOfHex(b >> 4);
    NibbleOfHex(b & 0x0f);
  }

  // ---------------------------------------------------------------- identifiers

  function IdByte0(id: bv32): bv8 { (id & 0xff) as bv8 }
  function IdByte1(id: bv32): bv8 { ((id >> 8) & 0xff) as bv8 }
  function IdByte2(id: bv32): bv8 { ((id >> 16) & 0xff) as bv8 }
  function IdByte3(id: bv32): bv8 { ((id >> 24) & 0xff) as bv8 }

  function IdOf(b0: bv8, b1: bv8, b2: bv8, b3: bv8): bv32 {
    (b0 as bv32) | ((b1 as bv32) << 8) | ((b2 as bv32) << 16) | ((b3 as bv32) << 24)
  }

  lemma IdRoundTrip(id: bv32)
    ensures IdOf(IdByte0(id), IdByte1(id), IdByte2(id), IdByte3(id)) == id
  {
  }

  /** A frame's size as a byte. */
  function SizeByte(n: nat): bv8
    requires n <= 8
  {
    if n == 0 then 0 else if n == 1 then 1 else if n == 2 then 2 else if n == 3 then 3 else if n == 4 then 4
    else if n == 5 then 5 else if n == 6 then 6 else if n == 7 then 7 else 8
  }

  lemma SizeRoundTrip(n: nat)
    requires n <= 8
    ensures FromOctet(SizeByte(n)) == n
  {
  }

  // ---------------------------------------------------------------- encoding

  function HexAll(bs: seq<bv8>): seq<bv8> {
    if bs == [] then [] else [HexHigh(bs[0]), HexLow(bs[0])] + HexAll(bs[1..])
  }

  /** The bytes between 'C' and 'F'. */
  function Payload(f: Frame): (p: seq<bv8>)
    ensures |p| == 5 + |f.data|
  {
    [IdByte0(f.id), IdByte1(f.id), IdByte2(f.id), IdByte3(f.id), SizeByte(|f.data|)] + f.data
  }

  function Encode(f: Frame): seq<bv8> {
    [CMD_NEW] + (HexAll(Payload(f)) + [CMD_DONE])
  }

  /** `send_frame_to_HI`: the characters written to the serial line. */
  method SendFrame(f: Frame) returns (line: seq<bv8>)
    ensures line == Encode(f)
  {
    hide HexHigh, HexLow;
    line := [CMD_NEW];
    var p := Payload(f);
    for i := 0 to |p|
      invariant [CMD_NEW] + HexAll(p) == line + HexAll(p[i..])
    {
      assert p[i..][1..] == p[i + 1..];
      Assoc(line, [HexHigh(p[i]), HexLow(p[i])], HexAll(p[i + 1..]));
      line := line + [HexHigh(p[i]), HexLow(p[i])];
    }
    Assoc([CMD_NEW], HexAll(p), [CMD_DONE]);
    line := line + [CMD_DONE];
  }

  // ---------------------------------------------------------------- decoding

  datatype Half = NoChar | Char(c: bv8)

  /** `ibuffer`, `iindex`, `firstBitsChar`, and the slot towards hcand; `skip` swallows the reboot flag. */
  datatype State = State(buf: seq<bv8>, index: nat, first: Half, skip: bool, busy: bool, slot: Frame)

  predicate Complete(s: State) {
    |s.buf| == BUFFER_SIZE && s.index <= BUFFER_SIZE
  }

  /** The announced size matches the bytes received. */
  predicate SizeMatches(s: State)
    requires Complete(s)
  {
    FromOctet(s.buf[4]) == s.index - 5
  }

  /** The character causes no access outside a buffer. */
  predicate Safe(s: State, c: bv8)
    requires Complete(s)
  {
    || s.skip
    || (if IsCommand(c) then c == CMD_DONE && SizeMatches(s) ==> s.index <= 13
        else s.first.Char? ==> s.index < BUFFER_SIZE)
  }

  function Received(s: State): Frame
    requires Complete(s) && 5 <= s.index <= 13
  {
    FrameData(IdOf(s.buf[0], s.buf[1], s.buf[2], s.buf[3]), s.buf[5..s.index])
  }

  /** `handle_serial_command`; a full slot drops the frame, a size mismatch the bytes. */
  function Command(s: State, c: bv8): State
    requires Complete(s) && (c == CMD_DONE && SizeMatches(s) ==> s.index <= 13)
  {
    if c == CMD_SYNC || c == CMD_NEW then s.(index := 0)
    else if c == CMD_REBOOT then s.(index := 0, skip := true)
    else if c == CMD_DONE then
      if !SizeMatches(s) then s.(index := 0)
      else if s.busy then s
      else s.(slot := Received(s), busy := true)
    else s
  }

  /** One character read from the serial line. */
  function Step(s: State, c: bv8): (r: State)
    requires Complete(s) && Safe(s, c)
    ensures Complete(r)
  {
    if s.skip then s.(skip := false)
    else if IsCommand(c) then Command(s, c)
    else match s.first
         case NoChar => s.(first := Char(c))
         case Char(m) => s.(buf := s.buf[s.index := Convert(m, c)], index := s.index + 1, first := NoChar)
  }

  /** All characters are safe, and never more than 13 bytes are buffered. */
  predicate Fits(s: State, cs: seq<bv8>)
    requires Complete(s)
    decreases |cs|
  {
    cs == [] || (Safe(s, cs[0]) && Step(s, cs[0]).index <= 13 && Fits(Step(s, cs[0]), cs[1..]))
  }

  function Feed(s: State, cs: seq<bv8>): (r: State)
    requires Complete(s) && Fits(s, cs)
    ensures Complete(r)
    decreases |cs|
  {
    if cs == [] then s else Feed(Step(s, cs[0]), cs[1..])
  }

  lemma {:induction false} FeedConcat(s: State, a: seq<bv8>, b: seq<bv8>)
    requires Complete(s) && Fits(s, a) && Fits(Feed(s, a), b)
    ensures Fits(s, a + b) && Feed(s, a + b) == Feed(Feed(s, a), b)
    decreases |a|
  {
    hide Step, Safe;
    if a == [] {
      assert a + b == b;
    } else {
      assert (a + b)[1..] == a[1..] + b;
      FeedConcat(Step(s, a[0]), a[1..], b);
    }
  }

  lemma FeedOne(s: State, c: bv8)
    requires Complete(s) && Safe(s, c) && Step(s, c).index <= 13
    ensures Fits(s, [c]) && Feed(s, [c]) == Step(s, c)
  {
    hide Step, Safe;
    assert [c][1..] == [];
  }

  /** Between frames: no half byte, no swallowed character. */
  predicate Clean(s: State) {
    Complete(s) && s.first == NoChar && !s.skip
  }

  lemma FeedByte(s: State, b: bv8)
    requires Clean(s) && s.index < 13
    ensures var cs := [HexHigh(b), HexLow(b)];
            Fits(s, cs) && Feed(s, cs) == s.(buf := s.buf[s.index := b], index := s.index + 1)
  {
    hide HexHigh, HexLow, IsCommand, Convert, SizeMatches;
    ConvertOfHex(b);
    var cs := [HexHigh(b), HexLow(b)];
    assert cs[1..] == [HexLow(b)];
    FeedOne(Step(s, HexHigh(b)), HexLow(b));
  }

  lemma {:induction false} FeedBytes(s: State, bs: seq<bv8>)
    requires Clean(s) && s.index + |bs| <= 13
    ensures Fits(s, HexAll(bs))
    ensures Feed(s, HexAll(bs)) == s.(buf := Put(s.buf, s.index, bs), index := s.index + |bs|)
    decreases |bs|
  {
    hide HexHigh, HexLow, Fits, Feed;
    if bs == [] {
      FeedNone(s);
    } else {
      var s' := s.(buf := s.buf[s.index := bs[0]], index := s.index + 1);
      FeedByte(s, bs[0]);
      FeedBytes(s', bs[1..]);
      FeedConcat(s, [HexHigh(bs[0]), HexLow(bs[0])], HexAll(bs[1..]));
      assert Put(s'.buf, s'.index, bs[1..]) == Put(s.buf, s.index, bs);
    }
  }

  lemma FeedNone(s: State)
    requires Complete(s)
    ensures Fits(s, []) && Feed(s, []) == s
  {
  }

  /** The characters of a frame, read with an empty slot, put exactly that frame into the slot. */
  lemma FeedFrame(s: State, f: Frame)
    requires Clean(s) && !s.busy
    ensures Fits(s, Encode(f))
    ensures Feed(s, Encode(f)).slot == f && Feed(s, Encode(f)).busy && Clean(Feed(s, Encode(f)))
  {
    hide Fits, Feed, HexAll, Payload, Put, SizeMatches, Received;
    var s0 := s.(index := 0);
    var p := Payload(f);
    FeedOne(s, CMD_NEW);
    FeedBytes(s0, p);
    PutPrefix(s0.buf, p);
    var s1 := s0.(buf := Put(s0.buf, 0, p), index := |p|);
    Finish(s1, f);
    FeedOne(s1, CMD_DONE);
    FeedConcat(s0, HexAll(p), [CMD_DONE]);
    FeedConcat(s, [CMD_NEW], HexAll(p) + [CMD_DONE]);
  }

  lemma PutPrefix(s: seq<bv8>, d: seq<bv8>)
    requires |d| <= |s|
    ensures Put(s, 0, d)[..|d|] == d
  {
  }

  lemma Finish(s: State, f: Frame)
    requires Clean(s) && !s.busy && s.index == 5 + |f.data| && s.buf[..s.index] == Payload(f)
    ensures SizeMatches(s) && Received(s) == f
  {
    hide IdOf, IdByte0, IdByte1, IdByte2, IdByte3, SizeByte, FromOctet;
    var p := Payload(f);
    assert forall i :: 0 <= i < s.index ==> s.buf[i] == p[i];
    assert s.buf[5..s.index] == f.data;
    IdRoundTrip(f.id);
    SizeRoundTrip(|f.data|);
  }

  /** A session: after each frame the slot is emptied towards hcand. */
  function Session(s: State, fs: seq<Frame>): seq<Frame>
    requires Clean(s) && !s.busy
    decreases |fs|
  {
    if fs == [] then []
    else
      FeedFrame(s, fs[0]);
      var r := Feed(s, Encode(fs[0]));
      [r.slot] + Session(r.(busy := false), fs[1..])
  }

  /** Any list of frames, sent one after the other, arrives as exactly that list. */
  lemma {:induction false} SessionDeliversAll(s: State, fs: seq<Frame>)
    requires Clean(s) && !s.busy
    ensures Session(s, fs) == fs
    decreases |fs|
  {
    hide Feed, Encode, Fits;
    if fs != [] {
      FeedFrame(s, fs[0]);
      SessionDeliversAll(Feed(s, Encode(fs[0])).(busy := false), fs[1..]);
    }
  }

  // ---------------------------------------------------------------- single commands and the line format

  /** What each command character does to the decoder, whatever was read before. */
  lemma CommandsAct(s: State, c: bv8)
    requires Complete(s) && !s.skip
    ensures Step(s, 0x42) == s.(index := 0) && Step(s, 0x43) == s.(index := 0)
    ensures Step(Step(s, 0x59), c) == s.(index := 0)
    ensures 0x41 <= c <= 0x5a && c != 0x42 && c != 0x43 && c != 0x46 && c != 0x59 ==> Step(s, c) == s
    ensures !SizeMatches(s) ==> Step(s, 0x46) == s.(index := 0)
    ensures SizeMatches(s) && s.index <= 13 && s.busy ==> Step(s, 0x46) == s
  {
  }

  /** A frame that arrives while the slot is full is dropped. */
  lemma FullSlotDrops(s: State, f: Frame)
    requires Clean(s) && s.busy
    ensures Fits(s, Encode(f))
    ensures Feed(s, Encode(f)).slot == s.slot && Feed(s, Encode(f)).busy && Clean(Feed(s, Encode(f)))
  {
    hide Fits, Feed, HexAll, Payload, Put, SizeMatches, Received;
    var s0 := s.(index := 0);
    var p := Payload(f);
    FeedOne(s, CMD_NEW);
    FeedBytes(s0, p);
    PutPrefix(s0.buf, p);
    var s1 := s0.(buf := Put(s0.buf, 0, p), index := |p|);
    Finish(s1.(busy := false), f);
    assert SizeMatches(s1) by { SizeIgnoresSlot(s1); }
    FeedOne(s1, CMD_DONE);
    FeedConcat(s0, HexAll(p), [CMD_DONE]);
    FeedConcat(s, [CMD_NEW], HexAll(p) + [CMD_DONE]);
  }

  lemma SizeIgnoresSlot(s: State)
    requires Complete(s)
    ensures SizeMatches(s) == SizeMatches(s.(busy := false))
  {
  }

  /** The line format: `C`, the identifier with its low byte first, the size, the data, all in hexadecimal, `F`. */
  lemma LineFormat(f: Frame)
    ensures |Encode(f)| == 12 + 2 * |f.data| && Encode(f)[0] == 0x43 && Encode(f)[|Encode(f)| - 1] == 0x46
    ensures f == FrameData(0x1234_5678, [0xab]) ==>
              Encode(f) == [0x43, 0x37, 0x38, 0x35, 0x36, 0x33, 0x34, 0x31, 0x32, 0x30, 0x31, 0x61, 0x62, 0x46]
  {
    HexLength(Payload(f));
    if f == FrameData(0x1234_5678, [0xab]) {
      var p := Payload(f);
      assert p == [0x78, 0x56, 0x34, 0x12, 1, 0xab];
      HexStep(p);
      HexStep(p[1..]);
      HexStep(p[2..]);
      HexStep(p[3..]);
      HexStep(p[4..]);
      HexStep(p[5..]);
      assert HexAll(p[6..]) == [];
    }
  }

  lemma {:induction false} HexLength(bs: seq<bv8>)
    ensures |HexAll(bs)| == 2 * |bs|
  {
    if bs != [] { HexLength(bs[1..]); }
  }

  lemma HexStep(bs: seq<bv8>)
    requires bs != []
    ensures HexAll(bs) == [HexHigh(bs[0]), HexLow(bs[0])] + HexAll(bs[1..])
  {
  }

  // ---------------------------------------------------------------- a stray character

  /** A half byte is pending: no command clears it. */
  predicate Shifted(s: State) {
    Complete(s) && s.first.Char? && !s.skip
  }

  /** The bytes read when character m came before those of bs. */
  function Misread(m: bv8, bs: seq<bv8>): (r: seq<bv8>)
    ensures |r| == |bs|
    decreases |bs|
  {
    if bs == [] then [] else [Convert(m, HexHigh(bs[0]))] + Misread(HexLow(bs[0]), bs[1..])
  }

  /** The character left over behind them. */
  function LeftOver(m: bv8, bs: seq<bv8>): bv8
    decreases |bs|
  {
    if bs == [] then m else LeftOver(HexLow(bs[0]), bs[1..])
  }

  lemma FeedShiftedByte(s: State, b: bv8)
    requires Shifted(s) && s.index < 13
    ensures var cs := [HexHigh(b), HexLow(b)];
            && Fits(s, cs)
            && Feed(s, cs) == s.(buf := s.buf[s.index := Convert(s.first.c, HexHigh(b))], index := s.index + 1,
                                 first := Char(HexLow(b)))
  {
    hide HexHigh, HexLow, IsCommand, Convert, SizeMatches;
    ConvertOfHex(b);
    var cs := [HexHigh(b), HexLow(b)];
    assert cs[1..] == [HexLow(b)];
    FeedOne(Step(s, HexHigh(b)), HexLow(b));
  }

  lemma {:induction false} FeedShifted(s: State, bs: seq<bv8>)
    requires Shifted(s) && s.index + |bs| <= 13
    ensures Fits(s, HexAll(bs))
    ensures Feed(s, HexAll(bs))
            == s.(buf := Put(s.buf, s.index, Misread(s.first.c, bs)), index := s.index + |bs|,
                  first := Char(LeftOver(s.first.c, bs)))
    decreases |bs|
  {
    hide HexHigh, HexLow, Fits, Feed, Convert;
    if bs == [] {
      FeedNone(s);
    } else {
      var c := Convert(s.first.c, HexHigh(bs[0]));
      var s' := s.(buf := s.buf[s.index := c], index := s.index + 1, first := Char(HexLow(bs[0])));
      FeedShiftedByte(s, bs[0]);
      FeedShifted(s', bs[1..]);
      FeedConcat(s, [HexHigh(bs[0]), HexLow(bs[0])], HexAll(bs[1..]));
      PutHead(s.buf, s.index, c, Misread(HexLow(bs[0]), bs[1..]));
    }
  }

  lemma PutHead(s: seq<bv8>, a: nat, c: bv8, d: seq<bv8>)
    requires a + 1 + |d| <= |s|
    ensures Put(s[a := c], a + 1, d) == Put(s, a, [c] + d)
  {
  }

  /** The byte read as the size: the last half byte of the identifier, and the high half of the real size, which is 0. */
  lemma MisreadSize(m: bv8, p: seq<bv8>)
    requires |p| >= 5
    ensures Misread(m, p)[4] == Convert(HexLow(p[3]), HexHigh(p[4]))
  {
    hide Convert, HexHigh, HexLow;
    var a := Misread(HexLow(p[0]), p[1..]);
    var b := Misread(HexLow(p[1]), p[2..]);
    var c := Misread(HexLow(p[2]), p[3..]);
    var d := Misread(HexLow(p[3]), p[4..]);
    assert p[1..][1..] == p[2..] && p[2..][1..] == p[3..] && p[3..][1..] == p[4..];
    assert Misread(m, p)[4] == a[3] && a[3] == b[2] && b[2] == c[1] && c[1] == d[0];
  }

  lemma ShiftedSize(b: bv8, n: nat)
    requires n <= 8
    ensures Convert(HexLow(b), HexHigh(SizeByte(n))) == (b & 0x0f) << 4
  {
    hide HexChar, Nibble;
    assert SizeByte(n) >> 4 == 0;
    JoinNibbles(b);
    NibbleOfHex(b & 0x0f);
    NibbleOfHex(0);
  }

  lemma SizeOfOctet(b: bv8, n: nat)
    requires n <= 8
    ensures FromOctet(b) == n <==> b == SizeByte(n)
  {
    OctetRoundTrip(b);
    SizeRoundTrip(n);
    OctetRoundTrip(SizeByte(n));
  }

  lemma NoSmallMultiple(b: bv8, n: nat)
    requires n <= 8
    ensures (b & 0x0f) << 4 == SizeByte(n) <==> n == 0 && b & 0x0f == 0
  {
  }

  /** The frames that pass the size check even so: no data, and an identifier with its bits 24 to 27 all 0. */
  predicate Slips(f: Frame) {
    |f.data| == 0 && IdByte3(f.id) & 0x0f == 0
  }

  /** The size check behind a misread frame. */
  lemma MisreadMatches(s: State, m: bv8, f: Frame)
    requires Complete(s) && s.index == 5 + |f.data| && s.buf[..s.index] == Misread(m, Payload(f))
    ensures SizeMatches(s) <==> Slips(f)
  {
    hide Convert, HexHigh, HexLow, IdByte0, IdByte1, IdByte2, IdByte3, SizeByte, FromOctet, Misread;
    var p := Payload(f);
    MisreadSize(m, p);
    assert s.buf[4] == s.buf[..s.index][4];
    ShiftedSize(p[3], |f.data|);
    SizeOfOctet(s.buf[4], |f.data|);
    NoSmallMultiple(p[3], |f.data|);
  }

  /**
   A frame read while a half byte is pending: it is lost, unless it slips through the size check as a wrong
   frame, and again a half byte is pending.
   */
  lemma ShiftedFrame(s: State, f: Frame)
    requires Shifted(s)
    ensures Fits(s, Encode(f)) && Shifted(Feed(s, Encode(f)))
    ensures var r := Feed(s, Encode(f));
            if Slips(f) && !s.busy then r.busy && r.slot.data == [] else r.slot == s.slot && r.busy == s.busy
  {
    hide Fits, Feed, HexAll, Payload, Put, SizeMatches, Slips, Misread, LeftOver, IdOf;
    var s0 := s.(index := 0);
    var p := Payload(f);
    var q := Misread(s.first.c, p);
    FeedOne(s, CMD_NEW);
    FeedShifted(s0, p);
    PutPrefix(s0.buf, q);
    var s1 := s0.(buf := Put(s0.buf, 0, q), index := |p|, first := Char(LeftOver(s.first.c, p)));
    MisreadMatches(s1, s.first.c, f);
    SlipsEmpty(f);
    FeedOne(s1, CMD_DONE);
    FeedConcat(s0, HexAll(p), [CMD_DONE]);
    FeedConcat(s, [CMD_NEW], HexAll(p) + [CMD_DONE]);
  }

  lemma SlipsEmpty(f: Frame)
    ensures Slips(f) ==> |f.data| == 0
  {
  }

  /** The characters of several frames. */
  function Line(fs: seq<Frame>): seq<bv8> {
    if fs == [] then [] else Encode(fs[0]) + Line(fs[1..])
  }

  lemma {:induction false} ShiftedLine(s: State, fs: seq<Frame>)
    requires Shifted(s) && forall i :: 0 <= i < |fs| ==> !Slips(fs[i])
    ensures Fits(s, Line(fs)) && Shifted(Feed(s, Line(fs)))
    ensures Feed(s, Line(fs)).slot == s.slot && Feed(s, Line(fs)).busy == s.busy
    decreases |fs|
  {
    hide Fits, Feed, Encode, Slips;
    if fs == [] {
      FeedNone(s);
    } else {
      ShiftedFrame(s, fs[0]);
      var r := Feed(s, Encode(fs[0]));
      ShiftedLine(r, fs[1..]);
      FeedConcat(s, Encode(fs[0]), Line(fs[1..]));
    }
  }

  /** One stray character between frames loses every later frame that does not slip through, all frames with data among them. */
  lemma StrayLosesAll(s: State, c: bv8, fs: seq<Frame>)
    requires Clean(s) && s.index <= 13 && !IsCommand(c) && forall i :: 0 <= i < |fs| ==> !Slips(fs[i])
    ensures Fits(s, [c] + Line(fs))
    ensures Feed(s, [c] + Line(fs)).slot == s.slot && Feed(s, [c] + Line(fs)).busy == s.busy
  {
    hide Fits, Feed, Line, Slips, IsCommand;
    FeedOne(s, c);
    ShiftedLine(Feed(s, [c]), fs);
    FeedConcat(s, [c], Line(fs));
  }

  class Decoder {
    const ibuffer: array<bv8>
    var iindex: nat
    var first: Half
    var skip: bool
    var busy: bool
    var slot: Frame

    ghost predicate Valid()
      reads this
    {
      ibuffer.Length == BUFFER_SIZE && iindex <= BUFFER_SIZE
    }

    ghost function View(): (s: State)
      reads this, ibuffer
    {
      State(ibuffer[..], iindex, first, skip, busy, slot)
    }

    constructor ()
      ensures Valid() && fresh(ibuffer) && Clean(View()) && !busy
    {
      ibuffer := new bv8[BUFFER_SIZE];
      iindex, first, skip, busy, slot := 0, NoChar, false, false, FrameData(0, []);
    }

    method HandleCommand(c: bv8)
      requires Valid() && (c == CMD_DONE && SizeMatches(View()) ==> iindex <= 13)
      modifies this
      ensures Valid() && View() == Command(old(View()), c)
    {
      hide IdOf, FromOctet;
      if c == CMD_SYNC || c == CMD_NEW {
        iindex := 0;
      } else if c == CMD_REBOOT {
        skip, iindex := true, 0;
      } else if c == CMD_DONE {
        var extended := IdOf(ibuffer[0], ibuffer[1], ibuffer[2], ibuffer[3]);
        if FromOctet(ibuffer[4]) != iindex - 5 {
          iindex := 0;
          return;
        }
        var data: seq<bv8> := [];
        for i := 0 to iindex - 5
          invariant data == ibuffer[5..5 + i]
        {
          data := data + [ibuffer[5 + i]];
        }
        assert data == ibuffer[..][5..iindex];
        if !busy {
          slot, busy := FrameData(extended, data), true;
        }
      }
    }

    /** The per-character part of the main loop. */
    method ReadChar(c: bv8)
      requires Valid() && Safe(View(), c)
      modifies this, ibuffer
      ensures Valid() && View() == Step(old(View()), c)
    {
      hide Convert, IsCommand, SizeMatches, Command;
      if skip {
        skip := false;
      } else if IsCommand(c) {
        HandleCommand(c);
      } else if first == NoChar {
        first := Char(c);
      } else {
        ibuffer[iindex] := Convert(first.c, c);
        iindex, first := iindex + 1, NoChar;
      }
    }
  }
}
