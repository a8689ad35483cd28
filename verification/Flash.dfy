/**
 The board's side of a firmware update: pages and frames as values, the boot loader's flash buffer and
 commands, and the boot-time check of the stored CRC.
 */
module Flash {
  import opened Bytes
  import opened Crc16
  import opened Octets
  import opened Seqs

  const EEPR_FIRMWARE_CRC16 := 16
  const EEPR_FIRMWARE_SIZE := 18

  // ---------------------------------------------------------------- the board as a value

  datatype Board = Board(flash: seq<bv8>, buffer: seq<bv8>, line: nat)

  /** The two frames that change flash or buffer; `addr` is what the board assembles from two bytes. */
  datatype Frame = Fill(index: nat, data: seq<bv8>) | Write(addr: nat)

  /** The frame stays inside the buffer or the flash. */
  predicate Fits(b: Board, f: Frame) {
    match f
    case Fill(i, d) => |d| == 4 && i + 4 <= |b.buffer|
    case Write(a) => a + |b.buffer| <= |b.flash|
  }

  /** The line counter after a fill frame: restarted at every multiple of 16, counted in 16 bits. */
  function LineAfter(line: nat, index: nat): nat {
    ((if index % 16 == 0 then 0 else line) + 4) % 0x1_0000
  }

  function Step(b: Board, f: Frame): Board
    requires Fits(b, f)
  {
    match f
    case Fill(i, d) => b.(buffer := Put(b.buffer, i, d), line := LineAfter(b.line, i))
    case Write(a) => b.(flash := Put(b.flash, a, b.buffer))
  }

  // ---------------------------------------------------------------- pages

  /** The offset of page k. */
  function Off(page: nat, k: nat): nat {
    if k == 0 then 0 else Off(page, k - 1) + page
  }

  lemma OffIsProduct(page: nat, k: nat)
    ensures Off(page, k) == k * page
  {
  }

  lemma {:induction false} OffMono(page: nat, j: nat, k: nat)
    requires j < k
    ensures Off(page, j) + page <= Off(page, k)
    decreases k
  {
    if j < k - 1 {
      OffMono(page, j, k - 1);
    }
  }

  datatype Cache = NoCache | Cached(data: seq<bv8>)

  /** An image of whole pages and, in incremental mode, a cached image at least as long. */
  predicate Job(image: seq<bv8>, page: nat, pages: nat, cache: Cache) {
    page > 0 && |image| == Off(page, pages) && (cache.Cached? ==> |cache.data| >= |image|)
  }

  function Page(s: seq<bv8>, page: nat, pages: nat, k: nat): (d: seq<bv8>)
    requires k < pages && Off(page, pages) <= |s|
    ensures |d| == page && Off(page, k) + page <= Off(page, pages)
  {
    OffMono(page, k, pages);
    s[Off(page, k)..Off(page, k) + page]
  }

  /** Incremental mode leaves out page k. */
  predicate Skips(image: seq<bv8>, page: nat, pages: nat, cache: Cache, k: nat)
    requires Job(image, page, pages, cache) && k < pages
  {
    cache.Cached? && Page(image, page, pages, k) == Page(cache.data, page, pages, k)
  }

  /** What a complete, loss-free pass over pages k.. makes of the flash. */
  function Flashed(flash: seq<bv8>, image: seq<bv8>, page: nat, pages: nat, cache: Cache, k: nat): (r: seq<bv8>)
    requires Job(image, page, pages, cache) && |image| <= |flash| && k <= pages
    ensures |r| == |flash|
    decreases pages - k
  {
    if k == pages then flash
    else
      var d := Page(image, page, pages, k);
      var next := if Skips(image, page, pages, cache, k) then flash else Put(flash, Off(page, k), d);
      Flashed(next, image, page, pages, cache, k + 1)
  }

  /** The pages incremental mode leaves out already hold the image. */
  predicate SkippedDone(flash: seq<bv8>, image: seq<bv8>, page: nat, pages: nat, cache: Cache)
    requires Job(image, page, pages, cache) && |image| <= |flash|
  {
    forall k :: 0 <= k < pages && Skips(image, page, pages, cache, k) ==>
      Page(flash, page, pages, k) == Page(image, page, pages, k)
  }

  // ---------------------------------------------------------------- interrupted passes

  /** A frame some pass of this job may have delivered, complete or not. */
  predicate Sendable(f: Frame, image: seq<bv8>, page: nat, pages: nat, cache: Cache)
    requires Job(image, page, pages, cache)
  {
    match f
    case Fill(i, d) => |d| == 4 && i + 4 <= page
    case Write(a) => exists k :: 0 <= k < pages && a == Off(page, k) && !Skips(image, page, pages, cache, k)
  }

  predicate Fresh(b: Board, image: seq<bv8>, page: nat) {
    |b.buffer| == page && |image| <= |b.flash|
  }

  /** The board after any frames of broken-off passes, in any order and with any losses. */
  function Delivered(b: Board, fs: seq<Frame>, image: seq<bv8>, page: nat, pages: nat, cache: Cache): (r: Board)
    requires Job(image, page, pages, cache) && Fresh(b, image, page)
    requires forall f <- fs :: Sendable(f, image, page, pages, cache)
    ensures Fresh(r, image, page) && |r.flash| == |b.flash|
    decreases |fs|
  {
    if fs == [] then b
    else
      SendableFits(b, fs[0], image, page, pages, cache);
      Delivered(Step(b, fs[0]), fs[1..], image, page, pages, cache)
  }

  lemma SendableFits(b: Board, f: Frame, image: seq<bv8>, page: nat, pages: nat, cache: Cache)
    requires Job(image, page, pages, cache) && Fresh(b, image, page) && Sendable(f, image, page, pages, cache)
    ensures Fits(b, f)
  {
    if f.Write? {
      var k :| 0 <= k < pages && f.addr == Off(page, k) && !Skips(image, page, pages, cache, k);
      OffMono(page, k, pages);
    }
  }

  /** Writing page k changes no other page and nothing behind the image. */
  lemma PutPage(flash: seq<bv8>, page: nat, pages: nat, k: nat, d: seq<bv8>, size: nat)
    requires size == Off(page, pages) <= |flash| && k < pages && |d| == page
    ensures Off(page, k) + page <= size
    ensures var r := Put(flash, Off(page, k), d);
            && r[size..] == flash[size..] && Page(r, page, pages, k) == d
            && forall j :: 0 <= j < pages && j != k ==> Page(r, page, pages, j) == Page(flash, page, pages, j)
  {
    hide Off, Put;
    OffMono(page, k, pages);
    var o := Off(page, k);
    var r := Put(flash, o, d);
    PutOutside(flash, o, d, size, |flash|);
    assert r[size..] == r[size..|r|] && flash[size..] == flash[size..|flash|];
    PutInside(flash, o, d);
    forall j | 0 <= j < pages && j != k ensures Page(r, page, pages, j) == Page(flash, page, pages, j) {
      OffMono(page, j, pages);
      if j < k { OffMono(page, j, k); } else { OffMono(page, k, j); }
      PutOutside(flash, o, d, Off(page, j), Off(page, j) + page);
    }
  }

  /** The pages incremental mode leaves out, and everything behind the image, are as before. */
  predicate Untouched(flash: seq<bv8>, r: seq<bv8>, image: seq<bv8>, page: nat, pages: nat, cache: Cache)
    requires Job(image, page, pages, cache) && |image| <= |flash| == |r|
  {
    && r[|image|..] == flash[|image|..]
    && forall k :: 0 <= k < pages && Skips(image, page, pages, cache, k) ==>
         Page(r, page, pages, k) == Page(flash, page, pages, k)
  }

  /** Any frames of the job leave the pages to be left out and everything behind the image alone. */
  lemma {:induction false} DeliveredKeeps(b: Board, fs: seq<Frame>, image: seq<bv8>, page: nat, pages: nat, cache: Cache)
    requires Job(image, page, pages, cache) && Fresh(b, image, page)
    requires forall f <- fs :: Sendable(f, image, page, pages, cache)
    ensures Untouched(b.flash, Delivered(b, fs, image, page, pages, cache).flash, image, page, pages, cache)
    decreases |fs|
  {
    hide Off, Page, Put;
    if fs != [] {
      var f := fs[0];
      SendableFits(b, f, image, page, pages, cache);
      if f.Write? {
        var k :| 0 <= k < pages && f.addr == Off(page, k) && !Skips(image, page, pages, cache, k);
        PutPage(b.flash, page, pages, k, b.buffer, |image|);
      }
      DeliveredKeeps(Step(b, f), fs[1..], image, page, pages, cache);
    }
  }

  // ---------------------------------------------------------------- the completing pass

  /** The image on all pages that are sent, the old flash everywhere else. */
  predicate Merged(flash: seq<bv8>, r: seq<bv8>, image: seq<bv8>, page: nat, pages: nat, cache: Cache)
    requires Job(image, page, pages, cache) && |image| <= |flash| == |r|
  {
    && Untouched(flash, r, image, page, pages, cache)
    && forall k :: 0 <= k < pages && !Skips(image, page, pages, cache, k) ==>
         Page(r, page, pages, k) == Page(image, page, pages, k)
  }

  lemma {:induction false} FlashedFrom(flash: seq<bv8>, image: seq<bv8>, page: nat, pages: nat, cache: Cache, k: nat)
    requires Job(image, page, pages, cache) && |image| <= |flash| && k <= pages
    ensures var r := Flashed(flash, image, page, pages, cache, k);
            && r[|image|..] == flash[|image|..]
            && forall j :: 0 <= j < pages ==>
                 Page(r, page, pages, j) == if k <= j && !Skips(image, page, pages, cache, j)
                                            then Page(image, page, pages, j) else Page(flash, page, pages, j)
    decreases pages - k
  {
    hide Off, Page, Put, Skips;
    if k < pages {
      var d := Page(image, page, pages, k);
      if Skips(image, page, pages, cache, k) {
        FlashedFrom(flash, image, page, pages, cache, k + 1);
      } else {
        PutPage(flash, page, pages, k, d, |image|);
        FlashedFrom(Put(flash, Off(page, k), d), image, page, pages, cache, k + 1);
      }
    }
  }

  /** A complete pass puts the image on every page it sends and changes nothing else. */
  lemma FlashedMerges(flash: seq<bv8>, image: seq<bv8>, page: nat, pages: nat, cache: Cache)
    requires Job(image, page, pages, cache) && |image| <= |flash|
    ensures Merged(flash, Flashed(flash, image, page, pages, cache, 0), image, page, pages, cache)
  {
    hide Flashed, Page, Skips;
    FlashedFrom(flash, image, page, pages, cache, 0);
  }

  /** That is the image in front of the old rest exactly if the pages left out held the image. */
  lemma MergedIsImage(flash: seq<bv8>, r: seq<bv8>, image: seq<bv8>, page: nat, pages: nat, cache: Cache)
    requires Job(image, page, pages, cache) && |image| <= |flash| == |r|
    requires Merged(flash, r, image, page, pages, cache)
    ensures r[..|image|] == image <==> SkippedDone(flash, image, page, pages, cache)
    ensures r == image + flash[|image|..] <==> SkippedDone(flash, image, page, pages, cache)
  {
    hide Off, Page, Skips;
    if SkippedDone(flash, image, page, pages, cache) {
      PagesDetermine(r, image, page, pages, pages);
      assert image[..|image|] == image;
    }
    if r[..|image|] == image {
      forall k | 0 <= k < pages ensures Page(r, page, pages, k) == Page(image, page, pages, k) {
        PageOfPrefix(r, page, pages, k);
      }
    }
    assert r == r[..|image|] + r[|image|..];
    assert (image + flash[|image|..])[..|image|] == image;
  }

  lemma PageOfPrefix(s: seq<bv8>, page: nat, pages: nat, k: nat)
    requires k < pages && Off(page, pages) <= |s|
    ensures Page(s[..Off(page, pages)], page, pages, k) == Page(s, page, pages, k)
  {
    hide Off;
    OffMono(page, k, pages);
    SliceOfSlice(s, 0, Off(page, pages), Off(page, k), Off(page, k) + page);
    assert s[0..Off(page, pages)] == s[..Off(page, pages)];
  }

  /** Equal pages make equal bytes. */
  lemma {:induction false} PagesDetermine(a: seq<bv8>, b: seq<bv8>, page: nat, pages: nat, k: nat)
    requires Off(page, pages) <= |a| && Off(page, pages) <= |b| && k <= pages
    requires forall j :: 0 <= j < pages ==> Page(a, page, pages, j) == Page(b, page, pages, j)
    ensures Off(page, k) <= Off(page, pages) && a[..Off(page, k)] == b[..Off(page, k)]
    decreases k
  {
    if k > 0 {
      PagesDetermine(a, b, page, pages, k - 1);
      var o := Off(page, k - 1);
      OffMono(page, k - 1, pages);
      assert a[..o + page] == a[..o] + Page(a, page, pages, k - 1);
      assert b[..o + page] == b[..o] + Page(b, page, pages, k - 1);
    }
  }

  /**
   However many earlier passes broke off, a complete loss-free pass leaves everything behind the image unchanged,
   and the image in front of it if and only if the board held the image on the pages left out.
   */
  lemma FlashingCompletes(b: Board, fs: seq<Frame>, image: seq<bv8>, page: nat, pages: nat, cache: Cache)
    requires Job(image, page, pages, cache) && Fresh(b, image, page)
    requires forall f <- fs :: Sendable(f, image, page, pages, cache)
    ensures var r := Flashed(Delivered(b, fs, image, page, pages, cache).flash, image, page, pages, cache, 0);
            && Merged(b.flash, r, image, page, pages, cache)
            && (r == image + b.flash[|image|..] <==> SkippedDone(b.flash, image, page, pages, cache))
  {
    hide Delivered, Flashed, Off, Page, SkippedDone, Sendable, Skips;
    var b' := Delivered(b, fs, image, page, pages, cache);
    DeliveredKeeps(b, fs, image, page, pages, cache);
    FlashedMerges(b'.flash, image, page, pages, cache);
    MergedIsImage(b.flash, Flashed(b'.flash, image, page, pages, cache, 0), image, page, pages, cache);
  }

  /** A board that holds the cached image has every page to be left out in place. */
  lemma CachedBoardIsDone(flash: seq<bv8>, image: seq<bv8>, page: nat, pages: nat, cached: seq<bv8>)
    requires Job(image, page, pages, Cached(cached)) && |cached| <= |flash| && flash[..|cached|] == cached
    ensures SkippedDone(flash, image, page, pages, Cached(cached))
  {
    hide Off;
    assert flash[0..|cached|] == flash[..|cached|];
    forall k | 0 <= k < pages && Skips(image, page, pages, Cached(cached), k)
      ensures Page(flash, page, pages, k) == Page(image, page, pages, k)
    {
      OffMono(page, k, pages);
      SliceOfSlice(flash, 0, |cached|, Off(page, k), Off(page, k) + page);
    }
  }

  // ---------------------------------------------------------------- the bootloader

  class Bootloader {
    const flash: array<bv8>
    const buffer: array<bv8>
    const eeprom: array<byte>
    /** What a read behind the flash gives is up to the hardware. */
    const past: nat -> bv8
    var lineCounter: nat

    ghost predicate Valid()
      reads this
    {
      && lineCounter < 0x1_0000 && flash != buffer && flash as object != eeprom && buffer as object != eeprom
      && 0 < buffer.Length <= 256 && buffer.Length % 16 == 0 && eeprom.Length >= 20
    }

    ghost function View(): Board
      reads this, flash, buffer
    {
      Board(flash[..], buffer[..], lineCounter)
    }

    constructor (flash: array<bv8>, buffer: array<bv8>, eeprom: array<byte>, past: nat -> bv8)
      requires flash != buffer && flash as object != eeprom && buffer as object != eeprom
      requires 0 < buffer.Length <= 256 && buffer.Length % 16 == 0 && eeprom.Length >= 20
      ensures Valid() && this.flash == flash && this.buffer == buffer && this.eeprom == eeprom
      ensures this.past == past && lineCounter == 0
    {
      this.flash, this.buffer, this.eeprom, this.past, lineCounter := flash, buffer, eeprom, past, 0;
    }

    /** Command 16: four bytes into the buffer, acknowledged when a line seems complete. */
    method Fill(index: nat, d: seq<bv8>) returns (ack: bool)
      requires Valid() && |d| == 4 && index + 4 <= buffer.Length
      modifies this`lineCounter, buffer
      ensures Valid() && View() == Step(old(View()), Frame.Fill(index, d))
      ensures ack == (lineCounter >= 16)
    {
      hide Put;
      ghost var before := buffer[..];
      if index % 16 == 0 {
        lineCounter := 0;
      }
      for i := 0 to 4
        invariant lineCounter == if index % 16 == 0 then 0 else old(lineCounter)
        invariant forall j :: 0 <= j < buffer.Length ==>
                    buffer[j] == if index <= j < index + i then d[j - index] else before[j]
      {
        buffer[index + i] := d[i];
      }
      PutPointwise(before, index, d, buffer[..]);
      lineCounter := (lineCounter + 4) % 0x1_0000;
      ack := lineCounter >= 16;
    }

    /** Command 18: erases and writes one page, word by word from the buffer. */
    method Write(addr: nat)
      requires Valid() && addr + buffer.Length <= flash.Length
      modifies flash
      ensures View() == Step(old(View()), Frame.Write(addr))
    {
      hide Word, Lo, Hi, Put;
      ghost var before, data := flash[..], buffer[..];
      var i := 0;
      while i < buffer.Length
        invariant 0 <= i <= buffer.Length && i % 2 == 0 && buffer[..] == data
        invariant forall j :: 0 <= j < flash.Length ==>
                    flash[j] == if addr <= j < addr + i then data[j - addr] else before[j]
      {
        var w := Word(buffer[i], buffer[i + 1]);
        WordParts(buffer[i], buffer[i + 1]);
        flash[addr + i] := Lo(w);
        flash[addr + i + 1] := Hi(w);
        i := i + 2;
      }
      PutPointwise(before, addr, data, flash[..]);
    }

    /** A reset: the line counter is back at 0, the buffer holds what the RAM happens to hold. */
    method Restart(ram: seq<bv8>)
      requires Valid() && |ram| == buffer.Length
      modifies this`lineCounter, buffer
      ensures Valid() && View() == old(View()).(buffer := ram, line := 0)
    {
      lineCounter := 0;
      forall i | 0 <= i < buffer.Length { buffer[i] := ram[i]; }
      assert buffer[..] == ram;
    }

    /** Command 20. */
    method EepromWrite(addr: nat, v: byte)
      requires addr < eeprom.Length
      modifies eeprom
      ensures eeprom[..] == old(eeprom[..])[addr := v]
    {
      eeprom[addr] := v;
    }

    /** Command 37. */
    method CrcQuery(size: nat) returns (crc: bv16)
      ensures crc == WordsCrc(0xffff, Words(Seen(flash[..], past, size)))
    {
      crc := BoardCrc(flash, past, size);
    }

    /** `check_firmware`: also on an EEPROM whose stored size is larger than the flash. */
    method CheckFirmware() returns (ok: bool)
      requires Valid()
      ensures ok == Accepts(flash[..], past, eeprom[..])
    {
      hide StoredSize, StoredCrc;
      var crc := BoardCrc(flash, past, StoredSize(eeprom[..]));
      ok := crc == StoredCrc(eeprom[..]);
    }
  }

  /** The board processes whatever frames got through. */
  method Deliver(board: Bootloader, fs: seq<Frame>, image: seq<bv8>, pages: nat, cache: Cache)
    requires board.Valid() && Job(image, board.buffer.Length, pages, cache) && |image| <= board.flash.Length
    requires forall f <- fs :: Sendable(f, image, board.buffer.Length, pages, cache)
    modifies board`lineCounter, board.buffer, board.flash
    ensures board.Valid() && board.View() == Delivered(old(board.View()), fs, image, board.buffer.Length, pages, cache)
  {
    hide Sendable;
    ghost var page := board.buffer.Length;
    ghost var goal := Delivered(board.View(), fs, image, page, pages, cache);
    for i := 0 to |fs|
      invariant board.Valid() && Delivered(board.View(), fs[i..], image, page, pages, cache) == goal
    {
      SendableFits(board.View(), fs[i], image, page, pages, cache);
      assert fs[i..][1..] == fs[i + 1..];
      assert Fits(board.View(), fs[i]);
      match fs[i]
      case Fill(index, d) => var ack := board.Fill(index, d);
      case Write(addr) => board.Write(addr);
    }
  }

  // ---------------------------------------------------------------- the stored CRC

  function StoredCrc(eeprom: seq<byte>): bv16
    requires |eeprom| >= 20
  {
    Word(ToOctet(eeprom[EEPR_FIRMWARE_CRC16]), ToOctet(eeprom[EEPR_FIRMWARE_CRC16 + 1]))
  }

  function StoredSize(eeprom: seq<byte>): nat
    requires |eeprom| >= 20
  {
    eeprom[EEPR_FIRMWARE_SIZE + 1] as int * 256 + eeprom[EEPR_FIRMWARE_SIZE]
  }

  /** The boot check: the CRC over the stored size equals the stored CRC. */
  predicate Accepts(flash: seq<bv8>, past: nat -> bv8, eeprom: seq<byte>)
    requires |eeprom| >= 20
  {
    WordsCrc(0xffff, Words(Seen(flash, past, StoredSize(eeprom)))) == StoredCrc(eeprom)
  }

  /** What `save_crc16_to_board` writes from EEPR_FIRMWARE_CRC16 on, in this order: CRC and size, low bytes first. */
  function Trailer(crc: bv16, size: nat): (d: seq<byte>)
    requires size < 0x1_0000
    ensures |d| == 4
  {
    [FromOctet(Lo(crc)), FromOctet(Hi(crc)), size % 256, size / 256]
  }

  /** The EEPROM after the first n of these writes. */
  function Saved(eeprom: seq<byte>, crc: bv16, size: nat, n: nat): (r: seq<byte>)
    requires |eeprom| >= 20 && size < 0x1_0000 && n <= 4
    ensures |r| == |eeprom|
  {
    Put(eeprom, EEPR_FIRMWARE_CRC16, Trailer(crc, size)[..n])
  }

  /** What was saved is read back. */
  lemma SavedReadsBack(eeprom: seq<byte>, crc: bv16, size: nat)
    requires |eeprom| >= 20 && size < 0x1_0000
    ensures StoredCrc(Saved(eeprom, crc, size, 4)) == crc && StoredSize(Saved(eeprom, crc, size, 4)) == size
  {
    hide Lo, Hi, Word, ToOctet, FromOctet;
    PartsWord(crc);
    OctetRoundTrip(Lo(crc));
    OctetRoundTrip(Hi(crc));
  }

  /** Which cells are written: CRC at 16 and 17, size at 18 and 19, low bytes first, and no others. */
  lemma SavedCells(eeprom: seq<byte>, crc: bv16, size: nat)
    requires |eeprom| >= 20 && size < 0x1_0000
    ensures var e := Saved(eeprom, crc, size, 4);
            && e[18] == size % 256 && e[19] == size / 256
            && ToOctet(e[16]) == Lo(crc) && ToOctet(e[17]) == Hi(crc)
            && forall i :: 0 <= i < |eeprom| && !(16 <= i < 20) ==> e[i] == eeprom[i]
  {
    hide Lo, Hi, ToOctet, FromOctet;
    OctetRoundTrip(Lo(crc));
    OctetRoundTrip(Hi(crc));
  }

  /** Changing the bytes of one word changes one element of the word list. */
  lemma {:induction false} WordsOfChange(data: seq<bv8>, k: nat, lo: bv8, hi: bv8)
    requires 2 * k + 1 < |data|
    ensures |Words(data)| == |Words(data[2 * k := lo][2 * k + 1 := hi])| > k && Words(data)[k] == Word(data[2 * k], data[2 * k + 1])
    ensures Words(data[2 * k := lo][2 * k + 1 := hi]) == Words(data)[k := Word(lo, hi)]
    decreases k
  {
    hide Word, Words;
    var d := data[2 * k := lo][2 * k + 1 := hi];
    WordsStep(data);
    WordsStep(d);
    if k == 0 {
      assert d[2..] == data[2..];
    } else {
      var rest := data[2..];
      WordsOfChange(rest, k - 1, lo, hi);
      assert d[2..] == rest[2 * (k - 1) := lo][2 * (k - 1) + 1 := hi];
    }
  }

  lemma WordsStep(data: seq<bv8>)
    requires |data| >= 2
    ensures Words(data) == [Word(data[0], data[1])] + Words(data[2..])
  {
  }

  /**
   Once size and CRC of an image are saved, the boot check accepts the unchanged flash and rejects
   every change confined to one 16-bit word of it.
   */
  lemma CheckFirmwareDetects(flash: seq<bv8>, past: nat -> bv8, eeprom: seq<byte>, size: nat, k: nat, lo: bv8, hi: bv8)
    requires |eeprom| >= 20 && size <= |flash| && size < 0x1_0000 && 2 * k + 1 < size
    requires lo != flash[2 * k] || hi != flash[2 * k + 1]
    ensures var e := Saved(eeprom, WordsCrc(0xffff, Words(flash[..size])), size, 4);
            && StoredSize(e) == size && Accepts(flash, past, e)
            && !Accepts(flash[2 * k := lo][2 * k + 1 := hi], past, e)
  {
    hide WordsCrc, Words, Saved, StoredCrc, StoredSize, Seen;
    SavedReadsBack(eeprom, WordsCrc(0xffff, Words(flash[..size])), size);
    assert flash[2 * k := lo][2 * k + 1 := hi][..size] == flash[..size][2 * k := lo][2 * k + 1 := hi];
    OneWordChangesCrc(flash[..size], k, lo, hi);
  }

  /** A change of one word of the data changes their CRC. */
  lemma OneWordChangesCrc(data: seq<bv8>, k: nat, lo: bv8, hi: bv8)
    requires 2 * k + 1 < |data| && (lo != data[2 * k] || hi != data[2 * k + 1])
    ensures WordsCrc(0xffff, Words(data[2 * k := lo][2 * k + 1 := hi])) != WordsCrc(0xffff, Words(data))
  {
    hide Word, Lo, Hi, WordsCrc, Words;
    WordsOfChange(data, k, lo, hi);
    WordParts(lo, hi);
    WordParts(data[2 * k], data[2 * k + 1]);
    OneWordChangeDetected(0xffff, Words(data), k, Word(lo, hi));
  }
}
