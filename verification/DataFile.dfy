/**
 The frame log: a header block, a data block header and 24-byte frame records, written by the logger and
 read through a memory map. Numbers are little-endian.
 */
module DataFile {
  import opened Bytes
  import opened Seqs

  const MAGIC_1 := 0x12345678
  const MAGIC_2 := 0x20080404
  const TYPE_HEADER := 1
  const TYPE_DATA := 2
  const HEADER_SIZE := 16
  const BLOCK_SIZE := 24
  const FRAME_SIZE := 24
  /** Where the frames start. */
  const FRAMES := HEADER_SIZE + BLOCK_SIZE

  // ---------------------------------------------------------------- numbers

  function Range(k: nat): nat { if k == 0 then 1 else 256 * Range(k - 1) }

  /** n in k little-endian bytes; higher bytes are cut off. */
  function Le(n: nat, k: nat): (b: seq<byte>)
    ensures |b| == k
  {
    if k == 0 then [] else [n % 256] + Le(n / 256, k - 1)
  }

  function Num(b: seq<byte>): nat {
    if b == [] then 0 else b[0] + 256 * Num(b[1..])
  }

  lemma {:induction false} NumOfLe(n: nat, k: nat)
    requires n < Range(k)
    ensures Num(Le(n, k)) == n
  {
    if k > 0 {
      NumOfLe(n / 256, k - 1);
      assert Le(n, k)[1..] == Le(n / 256, k - 1);
    }
  }

  lemma Ranges()
    ensures Range(2) == 0x1_0000 && Range(4) == 0x1_0000_0000 && Range(8) == 0x1_0000_0000_0000_0000
  {
    assert Range(2) == 0x1_0000;
    assert Range(4) == 256 * (256 * Range(2));
    assert Range(6) == 256 * (256 * Range(4));
    assert Range(8) == 256 * (256 * Range(6));
  }

  /** The number stored in k bytes from position p on. */
  function At(file: seq<byte>, p: nat, k: nat): nat
    requires p + k <= |file|
  {
    Num(file[p..p + k])
  }

  // ---------------------------------------------------------------- frames

  datatype FrameData = FrameData(timestamp: nat, src: nat, dst: nat, proto: nat, size: nat, data: seq<byte>)

  predicate FrameFits(f: FrameData) {
    && f.timestamp < Range(8) && f.src < Range(2) && f.dst < Range(2) && f.proto < Range(2) && f.size < Range(2)
    && |f.data| == 8
  }

  function EncodeFrame(f: FrameData): (b: seq<byte>)
    requires FrameFits(f)
    ensures |b| == FRAME_SIZE
  {
    Le(f.timestamp, 8) + (Le(f.src, 2) + (Le(f.dst, 2) + (Le(f.proto, 2) + (Le(f.size, 2) + f.data))))
  }

  function DecodeFrame(b: seq<byte>): FrameData
    requires |b| == FRAME_SIZE
  {
    FrameData(Num(b[0..8]), Num(b[8..10]), Num(b[10..12]), Num(b[12..14]), Num(b[14..16]), b[16..24])
  }

  lemma FrameRoundTrip(f: FrameData)
    requires FrameFits(f)
    ensures DecodeFrame(EncodeFrame(f)) == f
  {
    hide Le, Num, Range;
    NumOfLe(f.timestamp, 8);
    NumOfLe(f.src, 2);
    NumOfLe(f.dst, 2);
    NumOfLe(f.proto, 2);
    NumOfLe(f.size, 2);
    var b := EncodeFrame(f);
    assert b[0..8] == Le(f.timestamp, 8);
    assert b[8..10] == Le(f.src, 2);
    assert b[10..12] == Le(f.dst, 2);
    assert b[12..14] == Le(f.proto, 2);
    assert b[14..16] == Le(f.size, 2);
    assert b[16..24] == f.data;
  }

  /** Where the parts of a record lie, byte by byte, low bytes first. */
  lemma FrameFormat(f: FrameData)
    requires FrameFits(f)
    ensures var b := EncodeFrame(f);
            && b[0] == f.timestamp % 256 && b[8] == f.src % 256 && b[9] == f.src / 256
            && b[10] == f.dst % 256 && b[11] == f.dst / 256 && b[12] == f.proto % 256 && b[13] == f.proto / 256
            && b[14] == f.size % 256 && b[15] == f.size / 256 && b[16..24] == f.data
  {
    Ranges();
    TwoBytes(f.src);
    TwoBytes(f.dst);
    TwoBytes(f.proto);
    TwoBytes(f.size);
    FirstByte(f.timestamp, 8);
    hide Le, Range;
  }

  lemma TwoBytes(n: nat)
    requires n < 0x1_0000
    ensures Le(n, 2) == [n % 256, n / 256]
  {
    assert Le(n, 2) == [n % 256] + Le(n / 256, 1);
    assert Le(n / 256, 1) == [n / 256 % 256] + Le(n / 256 / 256, 0);
  }

  lemma FirstByte(n: nat, k: nat)
    requires k > 0
    ensures Le(n, k)[0] == n % 256
  {
  }

  function EncodeFrames(fs: seq<FrameData>): (b: seq<byte>)
    requires forall f <- fs :: FrameFits(f)
    ensures |b| == FRAME_SIZE * |fs|
  {
    if fs == [] then [] else EncodeFrame(fs[0]) + EncodeFrames(fs[1..])
  }

  lemma {:induction false} EncodeFramesAppend(fs: seq<FrameData>, f: FrameData)
    requires FrameFits(f) && forall x <- fs :: FrameFits(x)
    ensures EncodeFrames(fs + [f]) == EncodeFrames(fs) + EncodeFrame(f)
  {
    hide EncodeFrame, FrameFits;
    if fs == [] {
      assert (fs + [f])[1..] == [];
    } else {
      EncodeFramesAppend(fs[1..], f);
      assert (fs + [f])[1..] == fs[1..] + [f];
      Assoc(EncodeFrame(fs[0]), EncodeFrames(fs[1..]), EncodeFrame(f));
    }
  }

  lemma {:induction false} EncodedFrameAt(fs: seq<FrameData>, i: nat)
    requires i < |fs| && forall f <- fs :: FrameFits(f)
    ensures EncodeFrames(fs)[FRAME_SIZE * i..FRAME_SIZE * i + FRAME_SIZE] == EncodeFrame(fs[i])
  {
    hide EncodeFrame, FrameFits;
    if i > 0 {
      EncodedFrameAt(fs[1..], i - 1);
      assert EncodeFrames(fs)[FRAME_SIZE..] == EncodeFrames(fs[1..]);
      assert EncodeFrames(fs)[FRAME_SIZE * i..FRAME_SIZE * i + FRAME_SIZE]
          == EncodeFrames(fs)[FRAME_SIZE..][FRAME_SIZE * (i - 1)..FRAME_SIZE * (i - 1) + FRAME_SIZE];
    }
  }

  // ---------------------------------------------------------------- the file as a value

  function HeaderBytes(): (b: seq<byte>)
    ensures |b| == HEADER_SIZE
  {
    Le(TYPE_HEADER, 4) + (Le(HEADER_SIZE, 4) + (Le(MAGIC_1, 4) + Le(MAGIC_2, 4)))
  }

  /** The first 16 bytes of the data block: what `write_data_block` writes back. */
  function BlockHead(size: nat, first: nat): (b: seq<byte>)
    ensures |b| == 16
  {
    Le(TYPE_DATA, 4) + (Le(size, 4) + Le(first, 8))
  }

  /** A log file: stored size and first timestamp, then the last timestamp (always 0), then the frames. */
  function Image(size: nat, first: nat, fs: seq<FrameData>): (b: seq<byte>)
    requires forall f <- fs :: FrameFits(f)
    ensures |b| == FRAMES + FRAME_SIZE * |fs|
  {
    HeaderBytes() + (BlockHead(size, first) + (Le(0, 8) + EncodeFrames(fs)))
  }

  lemma HeaderFields(rest: seq<byte>)
    ensures var file := HeaderBytes() + rest;
            && At(file, 0, 4) == TYPE_HEADER && At(file, 4, 4) == HEADER_SIZE
            && At(file, 8, 4) == MAGIC_1 && At(file, 12, 4) == MAGIC_2
  {
    hide Le, Num, Range;
    Ranges();
    NumOfLe(TYPE_HEADER, 4);
    NumOfLe(HEADER_SIZE, 4);
    NumOfLe(MAGIC_1, 4);
    NumOfLe(MAGIC_2, 4);
    var file := HeaderBytes() + rest;
    assert file[0..4] == Le(TYPE_HEADER, 4);
    assert file[4..8] == Le(HEADER_SIZE, 4);
    assert file[8..12] == Le(MAGIC_1, 4);
    assert file[12..16] == Le(MAGIC_2, 4);
  }

  lemma BlockFields(size: nat, first: nat, rest: seq<byte>)
    requires size < Range(4) && first < Range(8)
    ensures var file := HeaderBytes() + (BlockHead(size, first) + rest);
            At(file, 16, 4) == TYPE_DATA && At(file, 20, 4) == size && At(file, 24, 8) == first
  {
    hide Le, Num, Range, HeaderBytes;
    Ranges();
    NumOfLe(TYPE_DATA, 4);
    NumOfLe(size, 4);
    NumOfLe(first, 8);
    var file := HeaderBytes() + (BlockHead(size, first) + rest);
    assert file[16..20] == Le(TYPE_DATA, 4);
    assert file[20..24] == Le(size, 4);
    assert file[24..32] == Le(first, 8);
  }

  /** The first frame's timestamp is stored right behind the data block header. */
  lemma FirstFrameField(size: nat, first: nat, fs: seq<FrameData>)
    requires fs != [] && forall f <- fs :: FrameFits(f)
    ensures At(Image(size, first, fs), FRAMES, 8) == fs[0].timestamp
  {
    hide Le, Num, Range, HeaderBytes, BlockHead;
    assert fs[0] in fs;
    NumOfLe(fs[0].timestamp, 8);
    var file := Image(size, first, fs);
    assert file[FRAMES..FRAMES + 8] == EncodeFrame(fs[0])[..8] == Le(fs[0].timestamp, 8);
  }

  // ---------------------------------------------------------------- log operations

  /** The abstract log. */
  datatype Log = Log(size: nat, first: nat, frames: seq<FrameData>)

  ghost predicate ValidLog(l: Log) {
    l.size < Range(4) && l.first < Range(8) && forall f <- l.frames :: FrameFits(f)
  }

  ghost function FileOf(l: Log): seq<byte>
    requires ValidLog(l)
  {
    Image(l.size, l.first, l.frames)
  }

  datatype Op = Append(frame: FrameData) | Sync | Reopen

  predicate ValidOps(ops: seq<Op>) {
    forall o <- ops :: o.Append? ==> FrameFits(o.frame)
  }

  /** A synchronised log stores the size of the data block (in 32 bits) and the first frame's timestamp. */
  function Synced(l: Log): Log {
    l.(size := (BLOCK_SIZE + FRAME_SIZE * |l.frames|) % 0x1_0000_0000,
       first := if l.frames == [] then 0 else l.frames[0].timestamp)
  }

  function Apply(l: Log, o: Op): Log {
    match o
    case Append(f) => l.(frames := l.frames + [f])
    case Sync => Synced(l)
    case Reopen => l
  }

  function History(l: Log, ops: seq<Op>): Log
    decreases |ops|
  {
    if ops == [] then l else History(Apply(l, ops[0]), ops[1..])
  }

  function Written(ops: seq<Op>): seq<FrameData> {
    if ops == [] then [] else (if ops[0].Append? then [ops[0].frame] else []) + Written(ops[1..])
  }

  lemma ApplyValid(l: Log, o: Op)
    requires ValidLog(l) && (o.Append? ==> FrameFits(o.frame))
    ensures ValidLog(Apply(l, o))
  {
    hide Range;
    Ranges();
    if o.Sync? && l.frames != [] {
      assert l.frames[0] in l.frames;
    }
  }

  /** Whatever the history of appending, synchronising and reopening, the log holds the frames written, in order. */
  lemma {:induction false} HistoryHolds(l: Log, ops: seq<Op>)
    requires ValidLog(l) && ValidOps(ops)
    ensures ValidLog(History(l, ops)) && History(l, ops).frames == l.frames + Written(ops)
    decreases |ops|
  {
    hide ValidLog;
    if ops != [] {
      assert ops[0] in ops;
      ApplyValid(l, ops[0]);
      HistoryHolds(Apply(l, ops[0]), ops[1..]);
      if ops[0].Append? {
        Assoc(l.frames, [ops[0].frame], Written(ops[1..]));
      }
    }
  }

  // ---------------------------------------------------------------- the reader

  /** The checks of the `data_file` constructor. */
  predicate Readable(file: seq<byte>) {
    && |file| >= FRAMES
    && At(file, 8, 4) == MAGIC_1 && At(file, 12, 4) == MAGIC_2 && At(file, 0, 4) == TYPE_HEADER
    && At(file, 16, 4) == TYPE_DATA
  }

  function Count(file: seq<byte>): nat
    requires |file| >= FRAMES
  {
    (|file| - FRAMES) / FRAME_SIZE
  }

  datatype Result = Ok(frame: FrameData) | OutOfBounds

  function FrameAt(file: seq<byte>, idx: int): Result
    requires |file| >= FRAMES
  {
    if idx < 0 || idx > Count(file) - 1 then OutOfBounds
    else Ok(DecodeFrame(file[FRAMES + FRAME_SIZE * idx..FRAMES + FRAME_SIZE * idx + FRAME_SIZE]))
  }

  lemma ImageReadsBack(l: Log, i: int)
    requires ValidLog(l)
    ensures Readable(FileOf(l)) && Count(FileOf(l)) == |l.frames|
    ensures FrameAt(FileOf(l), i) == if 0 <= i < |l.frames| then Ok(l.frames[i]) else OutOfBounds
  {
    hide Le, Num, Range, HeaderBytes, BlockHead, DecodeFrame, EncodeFrame, FrameFits;
    var tail := Le(0, 8) + EncodeFrames(l.frames);
    HeaderFields(BlockHead(l.size, l.first) + tail);
    BlockFields(l.size, l.first, tail);
    if 0 <= i < |l.frames| {
      assert l.frames[i] in l.frames;
      EncodedFrameAt(l.frames, i);
      FrameRoundTrip(l.frames[i]);
      var file, p := FileOf(l), FRAME_SIZE * i;
      assert file[FRAMES + p..FRAMES + p + FRAME_SIZE] == EncodeFrames(l.frames)[p..p + FRAME_SIZE];
    }
  }

  /**
   For every history after creation, the reader counts the frames written and returns the i-th for
   index i, and refuses every other index.
   */
  lemma ReaderSeesHistory(now: nat, ops: seq<Op>, i: int)
    requires now < Range(8) && ValidOps(ops)
    ensures var l := History(Log(BLOCK_SIZE, now, []), ops); var ws := Written(ops);
            && ValidLog(l) && Readable(FileOf(l)) && Count(FileOf(l)) == |ws|
            && FrameAt(FileOf(l), i) == if 0 <= i < |ws| then Ok(ws[i]) else OutOfBounds
  {
    hide Range;
    Ranges();
    var l := Log(BLOCK_SIZE, now, []);
    HistoryHolds(l, ops);
    assert [] + Written(ops) == Written(ops);
    ImageReadsBack(History(l, ops), i);
  }

  /** The fields a synchronised file stores; the last timestamp is never written back. */
  lemma SyncedFields(l: Log)
    requires ValidLog(l)
    ensures ValidLog(Synced(l))
    ensures var file := FileOf(Synced(l));
            && At(file, 20, 4) == (BLOCK_SIZE + FRAME_SIZE * |l.frames|) % 0x1_0000_0000
            && At(file, 24, 8) == (if l.frames == [] then 0 else l.frames[0].timestamp)
            && At(file, 32, 8) == 0
            && file[FRAMES..] == EncodeFrames(l.frames)
  {
    hide Le, Num, Range, HeaderBytes, EncodeFrame, FrameFits;
    Ranges();
    ApplyValid(l, Sync);
    var s := Synced(l);
    BlockFields(s.size, s.first, Le(0, 8) + EncodeFrames(s.frames));
    NumOfLe(0, 8);
    assert FileOf(s)[32..40] == Le(0, 8);
  }

  // ---------------------------------------------------------------- the writer

  /** `write` at a position inside or at the end of the file. */
  function WriteAt(file: seq<byte>, pos: nat, d: seq<byte>): seq<byte>
    requires pos <= |file|
  {
    file[..pos] + d + if pos + |d| < |file| then file[pos + |d|..] else []
  }

  lemma ReplaceMiddle(a: seq<byte>, b: seq<byte>, b': seq<byte>, c: seq<byte>)
    requires |b| == |b'| && |c| > 0
    ensures WriteAt(a + (b + c), |a|, b') == a + (b' + c)
  {
    assert (a + (b + c))[|a| + |b|..] == c;
  }

  lemma RewriteHead(size: nat, first: nat, size': nat, first': nat, fs: seq<FrameData>)
    requires forall f <- fs :: FrameFits(f)
    ensures WriteAt(Image(size, first, fs), HEADER_SIZE, BlockHead(size', first')) == Image(size', first', fs)
  {
    hide Le, HeaderBytes, BlockHead;
    hide EncodeFrames, FrameFits;
    ReplaceMiddle(HeaderBytes(), BlockHead(size, first), BlockHead(size', first'), Le(0, 8) + EncodeFrames(fs));
  }

  lemma AppendImage(l: Log, f: FrameData)
    requires ValidLog(l) && FrameFits(f)
    ensures ValidLog(Apply(l, Append(f)))
    ensures WriteAt(FileOf(l), |FileOf(l)|, EncodeFrame(f)) == FileOf(Apply(l, Append(f)))
  {
    hide Le, HeaderBytes, BlockHead, EncodeFrame, FrameFits;
    EncodeFramesAppend(l.frames, f);
    var e := EncodeFrames(l.frames);
    Assoc(Le(0, 8), e, EncodeFrame(f));
    Assoc(BlockHead(l.size, l.first), Le(0, 8) + e, EncodeFrame(f));
    Assoc(HeaderBytes(), BlockHead(l.size, l.first) + (Le(0, 8) + e), EncodeFrame(f));
    assert WriteAt(FileOf(l), |FileOf(l)|, EncodeFrame(f)) == FileOf(l) + EncodeFrame(f);
  }

  class Writer {
    var file: seq<byte>
    var pos: nat
    /** The log the bytes stand for. */
    ghost var log: Log

    ghost predicate Valid()
      reads this
    {
      ValidLog(log) && file == FileOf(log) && pos == |file|
    }

    /** Opens an existing file's bytes; nothing is read yet. */
    constructor (file: seq<byte>)
      ensures this.file == file && pos == 0
    {
      this.file, pos, log := file, 0, Log(0, 0, []);
    }

    method Write(d: seq<byte>)
      requires pos <= |file|
      modifies this
      ensures file == WriteAt(old(file), old(pos), d) && pos == old(pos) + |d| && log == old(log)
    {
      file := WriteAt(file, pos, d);
      pos := pos + |d|;
    }

    /** `setup_file`: header block and empty data block. */
    method SetupFile(now: nat)
      requires file == [] && pos == 0 && now < Range(8)
      modifies this
      ensures Valid() && log == Log(BLOCK_SIZE, now, [])
    {
      hide Le, Range;
      Ranges();
      Write(HeaderBytes());
      Write(BlockHead(BLOCK_SIZE, now) + Le(0, 8));
      log := Log(BLOCK_SIZE, now, []);
      assert EncodeFrames([]) == [];
    }

    /**
     `check_if_file_valid`: the data block is found through the stored header size. A file too short for a
     header leaves bytes of the two structures as they were, which is h and b here.
     */
    method CheckValid(h: seq<byte>, b: seq<byte>) returns (ok: bool)
      requires |h| == HEADER_SIZE && |b| == BLOCK_SIZE
      modifies this`pos
      ensures ok == Recognised(file, h, b) && (ok ==> pos == |file|)
    {
      var header := ReadOver(file, 0, h);
      if At(header, 8, 4) != MAGIC_1 { return false; }
      if At(header, 12, 4) != MAGIC_2 { return false; }
      if At(header, 0, 4) != TYPE_HEADER { return false; }
      var data := ReadOver(file, At(header, 4, 4), b);
      if At(data, 0, 4) != TYPE_DATA { return false; }
      pos := |file|;
      return true;
    }

    /** The constructor's two cases: a new file is set up, an existing one is checked and appended to if valid. */
    method Open(now: nat, h: seq<byte>, b: seq<byte>, ghost l: Log) returns (ok: bool)
      requires pos == 0 && now < Range(8) && |h| == HEADER_SIZE && |b| == BLOCK_SIZE
      modifies this
      ensures old(file) == [] ==> ok && Valid() && log == Log(BLOCK_SIZE, now, [])
      ensures old(file) != [] ==> file == old(file) && ok == Recognised(file, h, b) && (ok ==> pos == |file|)
      ensures ValidLog(l) && old(file) == FileOf(l) ==> ok && Valid() && log == l
    {
      hide Recognised;
      if |file| > 0 {
        ok := CheckValid(h, b);
        log := l;
        if ValidLog(l) && file == FileOf(l) {
          RecognisedImage(l, h, b);
        }
      } else {
        SetupFile(now);
        ok := true;
      }
    }

    method WriteFrame(f: FrameData)
      requires Valid() && FrameFits(f)
      modifies this
      ensures Valid() && log == Apply(old(log), Append(f))
    {
      hide EncodeFrame, FrameFits, Image, Range;
      AppendImage(log, f);
      Write(EncodeFrame(f));
      log := Apply(log, Append(f));
    }

    /** `sync`: stores size and first timestamp; only 16 bytes of the data block header are written back. */
    method SyncFile()
      requires Valid()
      modifies this
      ensures Valid() && log == Apply(old(log), Sync)
    {
      hide Le, Num, Range, HeaderBytes, EncodeFrame, FrameFits;
      Ranges();
      ghost var tail := Le(0, 8) + EncodeFrames(log.frames);
      HeaderFields(BlockHead(log.size, log.first) + tail);
      BlockFields(log.size, log.first, tail);
      var dataPos := At(file, 4, 4);
      var size := |file| - dataPos;
      var first := 0;
      if size > BLOCK_SIZE {
        FirstFrameField(log.size, log.first, log.frames);
        first := At(file, dataPos + BLOCK_SIZE, 8);
      }
      // the low 32 bits of the size
      var low := size % 0x1_0000_0000;
      ghost var next := Apply(log, Sync);
      ApplyValid(log, Sync);
      RewriteHead(log.size, log.first, low, first, log.frames);
      pos := dataPos;
      Write(Le(At(file, dataPos, 4), 4) + (Le(low, 4) + Le(first, 8)));
      pos := |file|;
      log := next;
    }
  }

  /** `read` into a structure: bytes behind the end of the file stay as they were. */
  function ReadOver(file: seq<byte>, p: nat, was: seq<byte>): (r: seq<byte>)
    ensures |r| == |was|
  {
    seq(|was|, i requires 0 <= i < |was| => if p + i < |file| then file[p + i] else was[i])
  }

  /** What the writer accepts, given what the two structures held before. */
  predicate Recognised(file: seq<byte>, h: seq<byte>, b: seq<byte>)
    requires |h| == HEADER_SIZE && |b| == BLOCK_SIZE
  {
    var header := ReadOver(file, 0, h);
    && At(header, 8, 4) == MAGIC_1 && At(header, 12, 4) == MAGIC_2 && At(header, 0, 4) == TYPE_HEADER
    && At(ReadOver(file, At(header, 4, 4), b), 0, 4) == TYPE_DATA
  }

  function Quad(b0: byte, b1: byte, b2: byte, b3: byte): nat {
    b0 as int + 256 * (b1 as int + 256 * (b2 as int + 256 * b3 as int))
  }

  lemma QuadUnique(a0: byte, a1: byte, a2: byte, a3: byte, b0: byte, b1: byte, b2: byte, b3: byte)
    ensures Quad(a0, a1, a2, a3) == Quad(b0, b1, b2, b3) <==> a0 == b0 && a1 == b1 && a2 == b2 && a3 == b3
  {
    if Quad(a0, a1, a2, a3) == Quad(b0, b1, b2, b3) {
      LowDigit(a0, a1 as int + 256 * (a2 as int + 256 * a3 as int), b0, b1 as int + 256 * (b2 as int + 256 * b3 as int));
      LowDigit(a1, a2 as int + 256 * a3 as int, b1, b2 as int + 256 * b3 as int);
      LowDigit(a2, a3, b2, b3);
    }
  }

  lemma LowDigit(a: byte, x: int, b: byte, y: int)
    requires a as int + 256 * x == b as int + 256 * y
    ensures a == b && x == y
  {
  }

  lemma FourBytes(b: seq<byte>)
    requires |b| == 4
    ensures Num(b) == Quad(b[0], b[1], b[2], b[3])
  {
    assert Num(b) == b[0] + 256 * Num(b[1..]);
    assert Num(b[1..]) == b[1] + 256 * Num(b[1..][1..]);
    assert b[1..][1..] == b[2..] && b[2..][1..] == b[3..] && b[3..][1..] == [];
    assert Num(b[2..]) == b[2] + 256 * Num(b[3..]);
    assert Num(b[3..]) == b[3] + 256 * Num([]);
  }

  /** The bytes behind a 32-bit number. */
  predicate Stores(file: seq<byte>, p: nat, b0: byte, b1: byte, b2: byte, b3: byte) {
    p + 4 <= |file| && file[p] == b0 && file[p + 1] == b1 && file[p + 2] == b2 && file[p + 3] == b3
  }

  lemma StoresExactly(file: seq<byte>, p: nat, b0: byte, b1: byte, b2: byte, b3: byte)
    requires p + 4 <= |file|
    ensures At(file, p, 4) == Quad(b0, b1, b2, b3) <==> Stores(file, p, b0, b1, b2, b3)
  {
    hide Num, Quad;
    FourBytes(file[p..p + 4]);
    QuadUnique(file[p], file[p + 1], file[p + 2], file[p + 3], b0, b1, b2, b3);
  }

  lemma Constants()
    ensures Quad(1, 0, 0, 0) == TYPE_HEADER && Quad(2, 0, 0, 0) == TYPE_DATA
    ensures Quad(0x78, 0x56, 0x34, 0x12) == MAGIC_1 && Quad(0x04, 0x04, 0x08, 0x20) == MAGIC_2
  {
  }

  /**
   The files reader and writer take for a log, byte by byte: type 1 and the two magic numbers in front, type 2
   at the data block. The reader looks for it behind the header, the writer where the header's size says.
   */
  lemma LogsExactly(file: seq<byte>, h: seq<byte>, b: seq<byte>)
    requires |file| >= FRAMES && |h| == HEADER_SIZE && |b| == BLOCK_SIZE
    ensures var front := Stores(file, 0, 1, 0, 0, 0) && Stores(file, 8, 0x78, 0x56, 0x34, 0x12)
                         && Stores(file, 12, 0x04, 0x04, 0x08, 0x20);
            && (Readable(file) <==> front && Stores(file, 16, 2, 0, 0, 0))
            && (At(file, 4, 4) + 4 <= |file| ==>
                  (Recognised(file, h, b) <==> front && Stores(file, At(file, 4, 4), 2, 0, 0, 0)))
            && (Recognised(file, h, b) ==> front)
  {
    hide Num, Stores, ReadOver, Quad;
    assert Quad(1, 0, 0, 0) == TYPE_HEADER && Quad(2, 0, 0, 0) == TYPE_DATA by { Constants(); }
    assert Quad(0x78, 0x56, 0x34, 0x12) == MAGIC_1 && Quad(0x04, 0x04, 0x08, 0x20) == MAGIC_2 by { Constants(); }
    StoresExactly(file, 0, 1, 0, 0, 0);
    StoresExactly(file, 8, 0x78, 0x56, 0x34, 0x12);
    StoresExactly(file, 12, 0x04, 0x04, 0x08, 0x20);
    StoresExactly(file, 16, 2, 0, 0, 0);
    ReadOverAt(file, 0, h, 0, 4);
    ReadOverAt(file, 0, h, 4, 4);
    ReadOverAt(file, 0, h, 8, 4);
    ReadOverAt(file, 0, h, 12, 4);
    var p := At(file, 4, 4);
    if p + 4 <= |file| {
      ReadOverAt(file, p, b, 0, 4);
      StoresExactly(file, p, 2, 0, 0, 0);
    }
  }

  lemma ReadOverAt(file: seq<byte>, p: nat, was: seq<byte>, i: nat, k: nat)
    requires i + k <= |was| && p + i + k <= |file|
    ensures At(ReadOver(file, p, was), i, k) == At(file, p + i, k)
  {
    assert ReadOver(file, p, was)[i..i + k] == file[p + i..p + i + k];
  }

  /** Every log is accepted, whatever the structures held. */
  lemma RecognisedImage(l: Log, h: seq<byte>, b: seq<byte>)
    requires ValidLog(l) && |h| == HEADER_SIZE && |b| == BLOCK_SIZE
    ensures Recognised(FileOf(l), h, b)
  {
    hide Le, Num, Range, HeaderBytes, BlockHead, EncodeFrame, FrameFits, ReadOver;
    var tail := Le(0, 8) + EncodeFrames(l.frames);
    HeaderFields(BlockHead(l.size, l.first) + tail);
    BlockFields(l.size, l.first, tail);
    var file := FileOf(l);
    ReadOverAt(file, 0, h, 0, 4);
    ReadOverAt(file, 0, h, 4, 4);
    ReadOverAt(file, 0, h, 8, 4);
    ReadOverAt(file, 0, h, 12, 4);
    ReadOverAt(file, HEADER_SIZE, b, 0, 4);
  }
}
