/**
 The host's side of a firmware update, over a bus that loses frames: what the boot loader acknowledges, when
 the host's loops go on, and what the flash holds when they come to their end.
 */
module FlashLink {
  import opened Bytes
  import opened Seqs
  import opened Crc16
  import opened Flash

  // ---------------------------------------------------------------- the acknowledgements of one line

  /** How many of the frames arrive. */
  function Count(arrivals: seq<bool>): nat {
    if arrivals == [] then 0 else (if arrivals[0] then 1 else 0) + Count(arrivals[1..])
  }

  /** How many acknowledgements the board sends for frames with indices index, index + 4, ... */
  function Acks(line: nat, index: nat, arrivals: seq<bool>): nat
    decreases |arrivals|
  {
    if arrivals == [] then 0
    else if !arrivals[0] then Acks(line, index + 4, arrivals[1..])
    else
      var next := LineAfter(line, index);
      (if next >= 16 then 1 else 0) + Acks(next, index + 4, arrivals[1..])
  }

  /**
   How many acknowledgements n frames get that continue the count: none below 16, none where the 16-bit
   counter wraps, one each in between.
   */
  function Surplus(line: nat, n: nat): nat
    requires line < 0x1_0000
  {
    if line < 16 then (if n <= (15 - line) / 4 then 0 else n - (15 - line) / 4)
    else if n <= (0xffff - line) / 4 then n else (0xffff - line) / 4
  }

  lemma SurplusStep(line: nat, n: nat)
    requires line < 0x1_0000 && n <= 2
    ensures var next := (line + 4) % 0x1_0000;
            Surplus(line, n + 1) == (if next >= 16 then 1 else 0) + Surplus(next, n)
  {
  }

  lemma {:induction false} TailAcks(line: nat, index: nat, arrivals: seq<bool>)
    requires line < 0x1_0000 && |arrivals| <= 3 && (index + 4 * |arrivals|) % 16 == 0
    ensures Count(arrivals) <= |arrivals|
    ensures Acks(line, index, arrivals) == Surplus(line, Count(arrivals))
    decreases |arrivals|
  {
    if arrivals == [] {
    } else {
      hide Surplus;
      assert index % 16 != 0;
      if arrivals[0] {
        TailAcks(LineAfter(line, index), index + 4, arrivals[1..]);
        SurplusStep(line, Count(arrivals[1..]));
      } else {
        TailAcks(line, index + 4, arrivals[1..]);
      }
    }
  }

  /**
   The acknowledgements of a line, for every counter value and every loss: with the first frame exactly one if
   the line is complete and none otherwise; without it, one for every frame from counter 12 on up to the wrap.
   */
  lemma LineAcks(line: nat, start: nat, arrivals: seq<bool>)
    requires line < 0x1_0000 && start % 16 == 0 && |arrivals| == 4
    ensures arrivals[0] ==> Acks(line, start, arrivals) == if Count(arrivals) == 4 then 1 else 0
    ensures !arrivals[0] ==> Acks(line, start, arrivals) == Surplus(line, Count(arrivals))
    ensures !arrivals[0] && 12 <= line < 0x1_0000 - 12 ==> Acks(line, start, arrivals) == Count(arrivals)
  {
    TailAcks(if arrivals[0] then LineAfter(line, start) else line, start + 4, arrivals[1..]);
  }

  /** An acknowledged line is a complete line exactly if its first frame arrived or nothing was acknowledged. */
  lemma AckMeansComplete(line: nat, start: nat, arrivals: seq<bool>)
    requires line < 0x1_0000 && start % 16 == 0 && |arrivals| == 4
    ensures (Acks(line, start, arrivals) > 0 ==> Count(arrivals) == 4) <==>
            (arrivals[0] || Surplus(line, Count(arrivals)) == 0)
  {
    LineAcks(line, start, arrivals);
    TailAcks(line, start + 4, arrivals[1..]);
  }

  /** Behind a complete line, the second frame alone gets the one acknowledgement the host waits for. */
  lemma LostLineAcknowledged(start: nat)
    requires start % 16 == 0
    ensures Acks(16, start, [false, true, false, false]) == 1
  {
    LineAcks(16, start, [false, true, false, false]);
  }

  // ---------------------------------------------------------------- one page

  /** Whether a request reaches the board, and whether its acknowledgement, if one is sent, reaches the host. */
  datatype Fate = Fate(arrives: bool, heard: bool)

  datatype PageFate = PageFate(fills: seq<Fate>, write: Fate)

  /** How the host's loop ends: a wrong acknowledgement in front of the expected one leaves some unread. */
  datatype End = Done | Timeout | Confused(unread: nat)

  datatype Turn = Turn(end: End, board: Board)

  predicate PageReady(b: Board, d: seq<bv8>, offset: nat, fate: PageFate) {
    |d| == |b.buffer| == 4 * |fate.fills| && |fate.fills| % 4 == 0 && offset + |d| <= |b.flash|
  }

  /** The board after fill frame i. */
  function Sent(b: Board, d: seq<bv8>, f: Fate, i: nat): (r: Board)
    requires |d| == |b.buffer| && 4 * i + 4 <= |d|
    ensures |r.buffer| == |b.buffer| && r.flash == b.flash && (b.line < 0x1_0000 ==> r.line < 0x1_0000)
  {
    if f.arrives then Step(b, Fill(4 * i, d[4 * i..4 * i + 4])) else b
  }

  /** The acknowledgements the host hears of fill frame f, which left the line counter at the given value. */
  function Heard(line: nat, f: Fate): nat {
    if f.arrives && f.heard && line >= 16 then 1 else 0
  }

  /** The host takes the next frame for the write acknowledgement. */
  function WriteEnd(waiting: nat, f: Fate): End {
    var acked := f.arrives && f.heard;
    if waiting > 0 then Confused(waiting - 1 + if acked then 1 else 0)
    else if acked then Done
    else Timeout
  }

  /** The page from fill frame i on, with that many acknowledgements waiting at the host. */
  function PageFrom(b: Board, waiting: nat, d: seq<bv8>, offset: nat, fate: PageFate, i: nat): (t: Turn)
    requires PageReady(b, d, offset, fate) && i <= |fate.fills|
    ensures |t.board.buffer| == |b.buffer| && |t.board.flash| == |b.flash|
    ensures b.line < 0x1_0000 ==> t.board.line < 0x1_0000
    decreases |fate.fills| - i
  {
    if i == |fate.fills| then
      Turn(WriteEnd(waiting, fate.write), if fate.write.arrives then Step(b, Write(offset)) else b)
    else
      var next := Sent(b, d, fate.fills[i], i);
      var w := waiting + Heard(next.line, fate.fills[i]);
      if i % 4 < 3 then PageFrom(next, w, d, offset, fate, i + 1)
      else if w == 0 then Turn(Timeout, next)
      else PageFrom(next, w - 1, d, offset, fate, i + 1)
  }

  /** The line counter before fill frame i. */
  function Counter(line: nat, fills: seq<Fate>, i: nat): nat
    requires i <= |fills|
  {
    if i == 0 then line
    else if fills[i - 1].arrives then LineAfter(Counter(line, fills, i - 1), 4 * (i - 1))
    else Counter(line, fills, i - 1)
  }

  /** The acknowledgements heard of the first i fill frames. */
  function Got(line: nat, fills: seq<Fate>, i: nat): nat
    requires i <= |fills|
  {
    if i == 0 then 0
    else Got(line, fills, i - 1)
         + if fills[i - 1].arrives && fills[i - 1].heard && Counter(line, fills, i) >= 16 then 1 else 0
  }

  function LineGot(line: nat, fills: seq<Fate>, l: nat): nat
    requires 4 * l <= |fills|
  {
    Got(line, fills, 4 * l)
  }

  /** At no line fewer acknowledgements than lines have been heard. */
  predicate Paced(line: nat, fills: seq<Fate>, from: nat) {
    forall l :: from < l <= |fills| / 4 ==> LineGot(line, fills, l) >= l
  }

  /** Every line gets its acknowledgement and none is left over. */
  predicate Acked(line: nat, fate: PageFate) {
    && Paced(line, fate.fills, 0) && Got(line, fate.fills, |fate.fills|) == |fate.fills| / 4
    && fate.write.arrives && fate.write.heard
  }

  /** The buffer after the first i fill frames. */
  function Overlay(buffer: seq<bv8>, d: seq<bv8>, fills: seq<Fate>, i: nat): (r: seq<bv8>)
    requires |d| == |buffer| == 4 * |fills| && i <= |fills|
    ensures |r| == |buffer|
  {
    seq(|d|, j requires 0 <= j < |d| => if j / 4 < i && fills[j / 4].arrives then d[j] else buffer[j])
  }

  lemma OverlayMore(buffer: seq<bv8>, d: seq<bv8>, fills: seq<Fate>, i: nat)
    requires |d| == |buffer| == 4 * |fills| && i < |fills|
    ensures Overlay(buffer, d, fills, i + 1)
            == if fills[i].arrives then Put(Overlay(buffer, d, fills, i), 4 * i, d[4 * i..4 * i + 4])
               else Overlay(buffer, d, fills, i)
  {
    if fills[i].arrives {
      PutPointwise(Overlay(buffer, d, fills, i), 4 * i, d[4 * i..4 * i + 4], Overlay(buffer, d, fills, i + 1));
    }
  }

  /** What the last frame of a line decides. */
  lemma PacedStep(line: nat, fills: seq<Fate>, i: nat)
    requires i < |fills| && i % 4 == 3
    ensures Paced(line, fills, i / 4) <==> Got(line, fills, i + 1) > i / 4 && Paced(line, fills, (i + 1) / 4)
  {
    hide Got, Counter;
    var l := (i + 1) / 4;
    assert l == i / 4 + 1 && 4 * l == i + 1;
    assert LineGot(line, fills, l) == Got(line, fills, i + 1);
  }

  /** The board behind the first i fill frames of a page. */
  function Behind(b: Board, d: seq<bv8>, fills: seq<Fate>, i: nat): (r: Board)
    requires |d| == |b.buffer| == 4 * |fills| && i <= |fills|
    ensures |r.buffer| == |b.buffer| && r.flash == b.flash
  {
    Board(b.flash, Overlay(b.buffer, d, fills, i), Counter(b.line, fills, i))
  }

  /** One more frame. */
  lemma BehindMore(b: Board, d: seq<bv8>, fills: seq<Fate>, i: nat)
    requires |d| == |b.buffer| == 4 * |fills| && i < |fills|
    ensures Sent(Behind(b, d, fills, i), d, fills[i], i) == Behind(b, d, fills, i + 1)
    ensures Got(b.line, fills, i + 1) == Got(b.line, fills, i) + Heard(Behind(b, d, fills, i + 1).line, fills[i])
  {
    hide Overlay, Put, LineAfter;
    OverlayMore(b.buffer, d, fills, i);
  }

  /**
   How a page ends, read off the acknowledgements heard: a line without one times out; a surplus is taken for the
   write acknowledgement and leaves the others unread; otherwise the write decides.
   */
  function EndFrom(line: nat, fate: PageFate, from: nat): End {
    var surplus := Got(line, fate.fills, |fate.fills|) - |fate.fills| / 4;
    var acked := fate.write.arrives && fate.write.heard;
    if !Paced(line, fate.fills, from) then Timeout
    else if surplus > 0 then Confused(if acked then surplus else surplus - 1)
    else if surplus == 0 && acked then Done
    else Timeout
  }

  lemma {:induction false} PageCompletesFrom(start: Board, waiting: nat, d: seq<bv8>, offset: nat, fate: PageFate,
                                             i: nat)
    requires PageReady(start, d, offset, fate) && i <= |fate.fills|
    requires waiting + i / 4 == Got(start.line, fate.fills, i)
    ensures var t := PageFrom(Behind(start, d, fate.fills, i), waiting, d, offset, fate, i); var n := |fate.fills|;
            && t.end == EndFrom(start.line, fate, i / 4)
            && (t.end.Done? ==>
                  t.board == Step(Behind(start, d, fate.fills, n), Write(offset)))
    decreases |fate.fills| - i
  {
    hide Heard, Counter, Got, Behind, Sent, Step;
    var fills := fate.fills;
    if i == |fills| {
    } else {
      hide Paced;
      BehindMore(start, d, fills, i);
      var w := waiting + Heard(Behind(start, d, fills, i + 1).line, fills[i]);
      if i % 4 < 3 {
        PageCompletesFrom(start, w, d, offset, fate, i + 1);
      } else {
        PacedStep(start.line, fills, i);
        if w > 0 {
          PageCompletesFrom(start, w - 1, d, offset, fate, i + 1);
        }
      }
    }
  }

  /**
   For every pattern of losses: a page completes if and only if every line gets its acknowledgement and none is
   left over, and then the flash holds the bytes of the frames that arrived and stale bytes in the other places.
   */
  lemma PageCompletes(b: Board, d: seq<bv8>, offset: nat, fate: PageFate)
    requires PageReady(b, d, offset, fate)
    ensures var t := PageFrom(b, 0, d, offset, fate, 0); var n := |fate.fills|;
            && t.end == EndFrom(b.line, fate, 0) && (t.end.Done? <==> Acked(b.line, fate))
            && (t.end.Done? ==>
                  var buffer := Overlay(b.buffer, d, fate.fills, n);
                  t.board == Board(Put(b.flash, offset, buffer), buffer, Counter(b.line, fate.fills, n)))
  {
    hide PageFrom, Paced;
    assert Overlay(b.buffer, d, fate.fills, 0) == b.buffer;
    PageCompletesFrom(b, 0, d, offset, fate, 0);
  }

  // ---------------------------------------------------------------- which lost frames go unnoticed

  function Arrivals(fills: seq<Fate>, i: nat, n: nat): (a: seq<bool>)
    requires i + n <= |fills|
    ensures |a| == n
  {
    seq(n, k requires 0 <= k < n => fills[i + k].arrives)
  }

  predicate AllHeard(fills: seq<Fate>) {
    forall f <- fills :: f.heard
  }

  lemma {:induction false} CounterBound(line: nat, fills: seq<Fate>, i: nat)
    requires line < 0x1_0000 && i <= |fills|
    ensures Counter(line, fills, i) < 0x1_0000
  {
    if i > 0 {
      CounterBound(line, fills, i - 1);
    }
  }

  /** The host hears at most the acknowledgements sent; all of them if none is lost. */
  lemma {:induction false} GotAcks(line: nat, fills: seq<Fate>, i: nat, n: nat)
    requires i + n <= |fills|
    ensures var sent := Acks(Counter(line, fills, i), 4 * i, Arrivals(fills, i, n));
            && Got(line, fills, i + n) <= Got(line, fills, i) + sent
            && (AllHeard(fills) ==> Got(line, fills, i + n) == Got(line, fills, i) + sent)
    decreases n
  {
    hide LineAfter;
    if n > 0 {
      GotAcks(line, fills, i + 1, n - 1);
      assert Arrivals(fills, i, n)[1..] == Arrivals(fills, i + 1, n - 1);
      assert fills[i] in fills;
    }
  }

  /** What line l adds, by the acknowledgements of a line. */
  lemma LineGain(line: nat, fills: seq<Fate>, l: nat)
    requires line < 0x1_0000 && 4 * l + 4 <= |fills|
    ensures var sent := Acks(Counter(line, fills, 4 * l), 4 * (4 * l), Arrivals(fills, 4 * l, 4));
            && LineGot(line, fills, l + 1) <= LineGot(line, fills, l) + sent
            && (AllHeard(fills) ==> LineGot(line, fills, l + 1) == LineGot(line, fills, l) + sent)
            && (fills[4 * l].arrives ==> sent == if Count(Arrivals(fills, 4 * l, 4)) == 4 then 1 else 0)
  {
    hide Acks;
    CounterBound(line, fills, 4 * l);
    GotAcks(line, fills, 4 * l, 4);
    LineAcks(Counter(line, fills, 4 * l), 4 * (4 * l), Arrivals(fills, 4 * l, 4));
  }

  lemma {:induction false} CountAll(a: seq<bool>)
    ensures Count(a) <= |a|
    ensures Count(a) == |a| <==> forall k :: 0 <= k < |a| ==> a[k]
  {
    if a != [] {
      CountAll(a[1..]);
      assert a == [a[0]] + a[1..];
    }
  }

  /** The first frame of line l. */
  function First(fills: seq<Fate>, l: nat): Fate
    requires 4 * l < |fills|
  {
    fills[4 * l]
  }

  predicate FirstsArrive(fills: seq<Fate>) {
    forall l :: 0 <= l < |fills| && 4 * l < |fills| ==> First(fills, l).arrives
  }

  predicate AllArrive(fills: seq<Fate>) {
    forall f <- fills :: f.arrives
  }

  /** With all first frames no line gets more than its acknowledgement. */
  lemma {:induction false} FirstsBound(line: nat, fills: seq<Fate>, l: nat)
    requires line < 0x1_0000 && 4 * l <= |fills| && FirstsArrive(fills)
    ensures LineGot(line, fills, l) <= l
    decreases l
  {
    hide Acks, Count;
    if l > 0 {
      FirstsBound(line, fills, l - 1);
      assert First(fills, l - 1).arrives;
      LineGain(line, fills, l - 1);
    }
  }

  /** A page that completes is complete if and only if the first frame of each of its lines arrived. */
  lemma CompletedIsComplete(line: nat, fate: PageFate)
    requires line < 0x1_0000 && |fate.fills| % 4 == 0 && Acked(line, fate)
    ensures AllArrive(fate.fills) <==> FirstsArrive(fate.fills)
  {
    hide Acks, Count;
    var fills := fate.fills;
    if FirstsArrive(fills) {
      forall i | 0 <= i < |fills| ensures fills[i].arrives {
        var l := i / 4;
        assert First(fills, l).arrives;
        FirstsBound(line, fills, l);
        assert LineGot(line, fills, l + 1) >= l + 1;
        LineGain(line, fills, l);
        CountAll(Arrivals(fills, 4 * l, 4));
        assert Arrivals(fills, 4 * l, 4)[i - 4 * l];
      }
    }
  }

  /** From line `from` on every frame arrives. */
  predicate ArriveFrom(fills: seq<Fate>, from: nat) {
    forall i :: 4 * from <= i < |fills| ==> fills[i].arrives
  }

  /** Complete lines get one acknowledgement each, whatever the counter was. */
  lemma {:induction false} CompleteLines(line: nat, fills: seq<Fate>, from: nat, l: nat)
    requires line < 0x1_0000 && from <= l && 4 * l <= |fills| && AllHeard(fills) && ArriveFrom(fills, from)
    ensures LineGot(line, fills, l) == LineGot(line, fills, from) + l - from
    decreases l
  {
    hide Acks, Count;
    if l > from {
      CompleteLines(line, fills, from, l - 1);
      LineGain(line, fills, l - 1);
      CountAll(Arrivals(fills, 4 * (l - 1), 4));
    }
  }

  /** A page without losses completes, whatever the counter was. */
  lemma LossFreePage(line: nat, fate: PageFate)
    requires line < 0x1_0000 && |fate.fills| % 4 == 0 && AllArrive(fate.fills) && AllHeard(fate.fills)
    requires fate.write.arrives && fate.write.heard
    ensures Acked(line, fate)
  {
    hide Acks, Count;
    var fills := fate.fills;
    forall l | 0 <= l <= |fills| / 4 ensures LineGot(line, fills, l) == l {
      CompleteLines(line, fills, 0, l);
    }
    assert LineGot(line, fills, |fills| / 4) == Got(line, fills, |fills|);
  }

  /** The losses of which the host notices nothing: of the first line only the second frame arrives. */
  function Unnoticed(lines: nat): (fate: PageFate)
    ensures |fate.fills| == 4 * lines
  {
    PageFate(seq(4 * lines, i => Fate(i == 1 || i >= 4, true)), Fate(true, true))
  }

  /** Behind a complete line such a page completes with 12 stale bytes in the flash. */
  lemma UnnoticedLoss(b: Board, d: seq<bv8>, offset: nat, lines: nat)
    requires lines > 0 && b.line == 16 && PageReady(b, d, offset, Unnoticed(lines))
    ensures var t := PageFrom(b, 0, d, offset, Unnoticed(lines), 0);
            && t.end.Done?
            && t.board.flash[offset..offset + 16] == b.buffer[..4] + d[4..8] + b.buffer[8..16]
  {
    hide Acks, Count, PageFrom;
    var fate := Unnoticed(lines);
    var fills := fate.fills;
    PageCompletes(b, d, offset, fate);
    LineGain(16, fills, 0);
    assert Arrivals(fills, 0, 4) == [false, true, false, false];
    LostLineAcknowledged(0);
    forall l | 0 < l <= lines ensures LineGot(16, fills, l) == l {
      CompleteLines(16, fills, 1, l);
    }
    assert LineGot(16, fills, lines) == Got(16, fills, |fills|);
  }

  // ---------------------------------------------------------------- one pass over all pages

  predicate Covers(fates: seq<PageFate>, page: nat, pages: nat) {
    page % 16 == 0 && |fates| == pages && forall f <- fates :: 4 * |f.fills| == page
  }

  /** The pass from page k on: it goes on exactly while pages complete. */
  function Pass(b: Board, image: seq<bv8>, page: nat, pages: nat, cache: Cache, fates: seq<PageFate>, k: nat): (t: Turn)
    requires Job(image, page, pages, cache) && Fresh(b, image, page) && Covers(fates, page, pages) && k <= pages
    ensures Fresh(t.board, image, page) && |t.board.flash| == |b.flash|
    ensures b.line < 0x1_0000 ==> t.board.line < 0x1_0000
    decreases pages - k
  {
    if k == pages then Turn(Done, b)
    else if Skips(image, page, pages, cache, k) then Pass(b, image, page, pages, cache, fates, k + 1)
    else
      var t := PageFrom(b, 0, Page(image, page, pages, k), Off(page, k), fates[k], 0);
      if t.end.Done? then Pass(t.board, image, page, pages, cache, fates, k + 1) else t
  }

  /** Every line of every page sent gets its acknowledgement. */
  predicate AllAcked(line: nat, image: seq<bv8>, page: nat, pages: nat, cache: Cache, fates: seq<PageFate>, k: nat)
    requires Job(image, page, pages, cache) && Covers(fates, page, pages) && k <= pages
    decreases pages - k
  {
    if k == pages then true
    else if Skips(image, page, pages, cache, k) then AllAcked(line, image, page, pages, cache, fates, k + 1)
    else
      && Acked(line, fates[k])
      && AllAcked(Counter(line, fates[k].fills, |fates[k].fills|), image, page, pages, cache, fates, k + 1)
  }

  /** A pass completes if and only if every line gets its acknowledgement, whatever the frames' fates. */
  lemma {:induction false} PassCompletes(b: Board, image: seq<bv8>, page: nat, pages: nat, cache: Cache,
                                        fates: seq<PageFate>, k: nat)
    requires Job(image, page, pages, cache) && Fresh(b, image, page) && Covers(fates, page, pages) && k <= pages
    ensures Pass(b, image, page, pages, cache, fates, k).end.Done?
            <==> AllAcked(b.line, image, page, pages, cache, fates, k)
    decreases pages - k
  {
    hide Off, Page, PageFrom, Acked, Skips;
    if k < pages {
      if Skips(image, page, pages, cache, k) {
        PassCompletes(b, image, page, pages, cache, fates, k + 1);
      } else {
        var d := Page(image, page, pages, k);
        PageCompletes(b, d, Off(page, k), fates[k]);
        var t := PageFrom(b, 0, d, Off(page, k), fates[k], 0);
        if t.end.Done? {
          PassCompletes(t.board, image, page, pages, cache, fates, k + 1);
        }
      }
    }
  }

  /** How a pass ends, read off the acknowledgements heard: as the first page that does not complete. */
  function PassEnd(line: nat, image: seq<bv8>, page: nat, pages: nat, cache: Cache, fates: seq<PageFate>, k: nat): End
    requires Job(image, page, pages, cache) && Covers(fates, page, pages) && k <= pages
    decreases pages - k
  {
    if k == pages then Done
    else if Skips(image, page, pages, cache, k) then PassEnd(line, image, page, pages, cache, fates, k + 1)
    else if EndFrom(line, fates[k], 0) != Done then EndFrom(line, fates[k], 0)
    else PassEnd(Counter(line, fates[k].fills, |fates[k].fills|), image, page, pages, cache, fates, k + 1)
  }

  lemma {:induction false} PassEnds(b: Board, image: seq<bv8>, page: nat, pages: nat, cache: Cache,
                                    fates: seq<PageFate>, k: nat)
    requires Job(image, page, pages, cache) && Fresh(b, image, page) && Covers(fates, page, pages) && k <= pages
    ensures Pass(b, image, page, pages, cache, fates, k).end == PassEnd(b.line, image, page, pages, cache, fates, k)
    decreases pages - k
  {
    hide Off, Page, PageFrom, Acked, EndFrom, Skips;
    if k < pages {
      if Skips(image, page, pages, cache, k) {
        PassEnds(b, image, page, pages, cache, fates, k + 1);
      } else {
        var d := Page(image, page, pages, k);
        PageCompletes(b, d, Off(page, k), fates[k]);
        var t := PageFrom(b, 0, d, Off(page, k), fates[k], 0);
        if t.end.Done? {
          PassEnds(t.board, image, page, pages, cache, fates, k + 1);
        }
      }
    }
  }

  /** What a page with any losses does to the board is the delivery of some of its frames. */
  lemma {:induction false} PageFrames(b: Board, waiting: nat, image: seq<bv8>, page: nat, pages: nat, cache: Cache,
                                      fate: PageFate, k: nat, i: nat) returns (fs: seq<Frame>)
    requires Job(image, page, pages, cache) && Fresh(b, image, page) && k < pages && i <= |fate.fills|
    requires 4 * |fate.fills| == page && page % 16 == 0 && !Skips(image, page, pages, cache, k)
    ensures forall f <- fs :: Sendable(f, image, page, pages, cache)
    ensures Off(page, k) + page <= |image|
    ensures Delivered(b, fs, image, page, pages, cache)
            == PageFrom(b, waiting, Page(image, page, pages, k), Off(page, k), fate, i).board
    decreases |fate.fills| - i
  {
    hide Off, Page, Skips, Step;
    var d, fills := Page(image, page, pages, k), fate.fills;
    fs := [];
    if i == |fills| {
      if fate.write.arrives {
        fs := [Write(Off(page, k))];
      }
    } else {
      var next := Sent(b, d, fills[i], i);
      var w := waiting + Heard(next.line, fills[i]);
      if i % 4 < 3 {
        fs := PageFrames(next, w, image, page, pages, cache, fate, k, i + 1);
      } else if w > 0 {
        fs := PageFrames(next, w - 1, image, page, pages, cache, fate, k, i + 1);
      }
      if fills[i].arrives {
        var rest := fs;
        fs := [Fill(4 * i, d[4 * i..4 * i + 4])] + rest;
        assert fs[1..] == rest;
      }
    }
  }

  /** Any pass, complete or not, leaves the pages it skips and everything behind the image alone. */
  lemma {:induction false} PassKeeps(b: Board, image: seq<bv8>, page: nat, pages: nat, cache: Cache,
                                     fates: seq<PageFate>, k: nat)
    requires Job(image, page, pages, cache) && Fresh(b, image, page) && Covers(fates, page, pages) && k <= pages
    ensures Untouched(b.flash, Pass(b, image, page, pages, cache, fates, k).board.flash, image, page, pages, cache)
    decreases pages - k
  {
    hide Off, Page, PageFrom, Skips, Delivered, Sendable;
    if k < pages {
      if Skips(image, page, pages, cache, k) {
        PassKeeps(b, image, page, pages, cache, fates, k + 1);
      } else {
        var fs := PageFrames(b, 0, image, page, pages, cache, fates[k], k, 0);
        DeliveredKeeps(b, fs, image, page, pages, cache);
        var t := PageFrom(b, 0, Page(image, page, pages, k), Off(page, k), fates[k], 0);
        if t.end.Done? {
          PassKeeps(t.board, image, page, pages, cache, fates, k + 1);
        }
      }
    }
  }

  /** The first frame of every line sent arrives. */
  predicate FirstsOfPass(image: seq<bv8>, page: nat, pages: nat, cache: Cache, fates: seq<PageFate>)
    requires Job(image, page, pages, cache) && Covers(fates, page, pages)
  {
    forall k :: 0 <= k < pages && !Skips(image, page, pages, cache, k) ==> FirstsArrive(fates[k].fills)
  }

  /** Nothing is lost of what the pass sends. */
  predicate LossFree(image: seq<bv8>, page: nat, pages: nat, cache: Cache, fates: seq<PageFate>)
    requires Job(image, page, pages, cache) && Covers(fates, page, pages)
  {
    forall k :: 0 <= k < pages && !Skips(image, page, pages, cache, k) ==>
      && AllArrive(fates[k].fills) && AllHeard(fates[k].fills) && fates[k].write == Fate(true, true)
  }

  lemma LossFreeFirsts(image: seq<bv8>, page: nat, pages: nat, cache: Cache, fates: seq<PageFate>)
    requires Job(image, page, pages, cache) && Covers(fates, page, pages) && LossFree(image, page, pages, cache, fates)
    ensures FirstsOfPass(image, page, pages, cache, fates)
  {
    hide Skips;
  }

  lemma OverlayAll(buffer: seq<bv8>, d: seq<bv8>, fills: seq<Fate>)
    requires |d| == |buffer| == 4 * |fills| && AllArrive(fills)
    ensures Overlay(buffer, d, fills, |fills|) == d
  {
    forall j | 0 <= j < |d| ensures Overlay(buffer, d, fills, |fills|)[j] == d[j] {
      assert fills[j / 4] in fills;
    }
  }

  /** A pass that completes with all first frames makes of the flash what a loss-free pass would. */
  lemma {:induction false} FirstsSuffice(b: Board, image: seq<bv8>, page: nat, pages: nat, cache: Cache,
                                        fates: seq<PageFate>, k: nat)
    requires Job(image, page, pages, cache) && Fresh(b, image, page) && Covers(fates, page, pages) && k <= pages
    requires b.line < 0x1_0000 && FirstsOfPass(image, page, pages, cache, fates)
    requires Pass(b, image, page, pages, cache, fates, k).end.Done?
    ensures Pass(b, image, page, pages, cache, fates, k).board.flash == Flashed(b.flash, image, page, pages, cache, k)
    decreases pages - k
  {
    hide Off, Page, PageFrom, Acked, Skips, FirstsArrive, Overlay;
    if k < pages {
      if Skips(image, page, pages, cache, k) {
        FirstsSuffice(b, image, page, pages, cache, fates, k + 1);
      } else {
        var d, fills := Page(image, page, pages, k), fates[k].fills;
        PageCompletes(b, d, Off(page, k), fates[k]);
        CompletedIsComplete(b.line, fates[k]);
        OverlayAll(b.buffer, d, fills);
        CounterBound(b.line, fills, |fills|);
        var t := PageFrom(b, 0, d, Off(page, k), fates[k], 0);
        FirstsSuffice(t.board, image, page, pages, cache, fates, k + 1);
      }
    }
  }

  /** A pass without losses completes. */
  lemma {:induction false} LossFreeCompletes(line: nat, image: seq<bv8>, page: nat, pages: nat, cache: Cache,
                                        fates: seq<PageFate>, k: nat)
    requires Job(image, page, pages, cache) && Covers(fates, page, pages) && k <= pages && line < 0x1_0000
    requires LossFree(image, page, pages, cache, fates)
    ensures AllAcked(line, image, page, pages, cache, fates, k)
    decreases pages - k
  {
    hide Off, Page, Acked, Skips, AllArrive, AllHeard;
    if k < pages {
      if Skips(image, page, pages, cache, k) {
        LossFreeCompletes(line, image, page, pages, cache, fates, k + 1);
      } else {
        var fills := fates[k].fills;
        LossFreePage(line, fates[k]);
        CounterBound(line, fills, |fills|);
        LossFreeCompletes(Counter(line, fills, |fills|), image, page, pages, cache, fates, k + 1);
      }
    }
  }

  /** The board's buffer before page k, as the frames that arrived leave it. */
  function BufferAt(buffer: seq<bv8>, image: seq<bv8>, page: nat, pages: nat, cache: Cache, fates: seq<PageFate>,
                    k: nat): (r: seq<bv8>)
    requires Job(image, page, pages, cache) && Covers(fates, page, pages) && k <= pages && |buffer| == page
    ensures |r| == page
  {
    if k == 0 then buffer
    else
      var before := BufferAt(buffer, image, page, pages, cache, fates, k - 1);
      if Skips(image, page, pages, cache, k - 1) then before
      else Overlay(before, Page(image, page, pages, k - 1), fates[k - 1].fills, |fates[k - 1].fills|)
  }

  /** What each page holds after a pass that completed in spite of losses. */
  lemma {:induction false} PassHolds(buffer: seq<bv8>, b: Board, image: seq<bv8>, page: nat, pages: nat,
                                     cache: Cache, fates: seq<PageFate>, k: nat)
    requires Job(image, page, pages, cache) && Fresh(b, image, page) && Covers(fates, page, pages) && k <= pages
    requires |buffer| == page && b.buffer == BufferAt(buffer, image, page, pages, cache, fates, k)
    requires Pass(b, image, page, pages, cache, fates, k).end.Done?
    ensures var r := Pass(b, image, page, pages, cache, fates, k).board.flash;
            forall j :: 0 <= j < pages ==>
              Page(r, page, pages, j) == if k <= j && !Skips(image, page, pages, cache, j)
                                         then BufferAt(buffer, image, page, pages, cache, fates, j + 1)
                                         else Page(b.flash, page, pages, j)
    decreases pages - k
  {
    hide Off, Page, PageFrom, Acked, Skips, Overlay, Put;
    if k < pages {
      if Skips(image, page, pages, cache, k) {
        PassHolds(buffer, b, image, page, pages, cache, fates, k + 1);
      } else {
        var d := Page(image, page, pages, k);
        PageCompletes(b, d, Off(page, k), fates[k]);
        var t := PageFrom(b, 0, d, Off(page, k), fates[k], 0);
        PutPage(b.flash, page, pages, k, t.board.buffer, |image|);
        PassHolds(buffer, t.board, image, page, pages, cache, fates, k + 1);
      }
    }
  }

  // ---------------------------------------------------------------- the host's loops

  /** One fill frame and what comes back. */
  method SendFill(board: Bootloader, index: nat, d: seq<bv8>, f: Fate) returns (heard: nat)
    requires board.Valid() && |d| == 4 && index + 4 <= board.buffer.Length
    modifies board`lineCounter, board.buffer
    ensures board.Valid()
    ensures board.View() == if f.arrives then Step(old(board.View()), Fill(index, d)) else old(board.View())
    ensures heard == Heard(board.lineCounter, f)
  {
    heard := 0;
    if f.arrives {
      var ack := board.Fill(index, d);
      if ack && f.heard { heard := 1; }
    }
  }

  /** One line: four frames of four bytes each. */
  method SendLine(board: Bootloader, image: seq<bv8>, offset: nat, fate: PageFate, line: nat,
                  queued: nat) returns (waiting: nat)
    requires board.Valid() && offset + board.buffer.Length <= |image| && 16 * line + 16 <= board.buffer.Length
    requires 4 * |fate.fills| == board.buffer.Length && offset + board.buffer.Length <= board.flash.Length
    modifies board`lineCounter, board.buffer
    ensures board.Valid()
    ensures PageFrom(old(board.View()), queued, image[offset..offset + board.buffer.Length], offset, fate, 4 * line)
            == Received(board.View(), waiting, image[offset..offset + board.buffer.Length], offset, fate, 4 * line + 4)
  {
    hide Step, Heard, PageFrom;
    ghost var d := image[offset..offset + board.buffer.Length];
    ghost var goal := PageFrom(board.View(), queued, d, offset, fate, 4 * line);
    waiting := queued;
    for i := 0 to 4
      invariant board.Valid()
      invariant goal == if i < 4 then PageFrom(board.View(), waiting, d, offset, fate, 4 * line + i)
                        else Received(board.View(), waiting, d, offset, fate, 4 * line + 4)
    {
      var index := 16 * line + 4 * i;
      PageStep(board.View(), waiting, d, offset, fate, 4 * line + i);
      SliceOfSlice(image, offset, offset + |d|, index, index + 4);
      var heard := SendFill(board, index, image[offset + index..offset + index + 4], fate.fills[4 * line + i]);
      waiting := waiting + heard;
    }
  }

  /** The page from the end of a line on, where the host waits for an acknowledgement. */
  function Received(b: Board, waiting: nat, d: seq<bv8>, offset: nat, fate: PageFate, i: nat): Turn
    requires PageReady(b, d, offset, fate) && i <= |fate.fills|
  {
    if waiting == 0 then Turn(Timeout, b) else PageFrom(b, waiting - 1, d, offset, fate, i)
  }

  lemma PageStep(b: Board, waiting: nat, d: seq<bv8>, offset: nat, fate: PageFate, i: nat)
    requires PageReady(b, d, offset, fate) && i < |fate.fills|
    ensures var next := Sent(b, d, fate.fills[i], i); var w := waiting + Heard(next.line, fate.fills[i]);
            PageFrom(b, waiting, d, offset, fate, i)
            == if i % 4 < 3 then PageFrom(next, w, d, offset, fate, i + 1) else Received(next, w, d, offset, fate, i + 1)
  {
  }

  /** One page: its lines, each waiting for an acknowledgement, then the write command with the address in two bytes. */
  method SendPage(board: Bootloader, image: seq<bv8>, offset: nat, fate: PageFate) returns (end: End)
    requires board.Valid() && offset + board.buffer.Length <= |image| <= board.flash.Length && offset < 0x1_0000
    requires 4 * |fate.fills| == board.buffer.Length
    modifies board`lineCounter, board.buffer, board.flash
    ensures board.Valid()
    ensures Turn(end, board.View())
            == PageFrom(old(board.View()), 0, image[offset..offset + board.buffer.Length], offset, fate, 0)
  {
    ghost var d := image[offset..offset + board.buffer.Length];
    ghost var goal := PageFrom(board.View(), 0, d, offset, fate, 0);
    var waiting := 0;
    for line := 0 to board.buffer.Length / 16
      invariant board.Valid() && waiting >= 0
      invariant PageFrom(board.View(), waiting, d, offset, fate, 4 * line) == goal
    {
      hide PageFrom;
      waiting := SendLine(board, image, offset, fate, line, waiting);
      if waiting == 0 {
        return Timeout;
      }
      waiting := waiting - 1;
    }
    var lo, hi := offset % 256, offset / 256;
    if fate.write.arrives {
      board.Write(lo + hi * 256);
    }
    return WriteEnd(waiting, fate.write);
  }

  /** Compares a page with its cached version byte by byte. */
  method SamePage(image: seq<bv8>, cached: seq<bv8>, offset: nat, page: nat) returns (equal: bool)
    requires offset + page <= |image| && offset + page <= |cached|
    ensures equal == (image[offset..offset + page] == cached[offset..offset + page])
  {
    ghost var a, b := image[offset..offset + page], cached[offset..offset + page];
    for i := 0 to page
      invariant forall j :: 0 <= j < i ==> a[j] == b[j]
    {
      assert a[i] == image[offset + i] && b[i] == cached[offset + i];
      if image[offset + i] != cached[offset + i] {
        return false;
      }
    }
    return true;
  }

  /** The loop over the pages. */
  method FlashPass(board: Bootloader, image: seq<bv8>, pages: nat, cache: Cache, fates: seq<PageFate>) returns (end: End)
    requires board.Valid() && Job(image, board.buffer.Length, pages, cache) && Covers(fates, board.buffer.Length, pages)
    requires |image| <= board.flash.Length && |image| < 0x1_0000
    modifies board`lineCounter, board.buffer, board.flash
    ensures board.Valid()
    ensures Turn(end, board.View()) == Pass(old(board.View()), image, board.buffer.Length, pages, cache, fates, 0)
  {
    hide Off, PageFrom, Covers;
    var page := board.buffer.Length;
    ghost var goal := Pass(board.View(), image, page, pages, cache, fates, 0);
    for block := 0 to pages
      invariant board.Valid() && Covers(fates, page, pages)
      invariant Pass(board.View(), image, page, pages, cache, fates, block) == goal
    {
      var offset := block * page;
      OffIsProduct(page, block);
      OffMono(page, block, pages);
      var equal := false;
      if cache.Cached? {
        equal := SamePage(image, cache.data, offset, page);
      }
      if !equal {
        FateFits(fates, page, pages, block);
        end := SendPage(board, image, offset, fates[block]);
        if !end.Done? {
          return end;
        }
      }
    }
    return Done;
  }

  lemma FateFits(fates: seq<PageFate>, page: nat, pages: nat, k: nat)
    requires Covers(fates, page, pages) && k < pages
    ensures |fates| == pages && 4 * |fates[k].fills| == page && page % 16 == 0
  {
  }

  // ---------------------------------------------------------------- the whole command

  /** The CRC query and the four EEPROM writes behind a pass, or how many writes got through before a loss. */
  datatype Exchange = Complete | Lost(writes: nat)

  /**
   One try: what becomes of its frames, and behind a try that breaks off, whether the reset reaches the board,
   the RAM found after it and whether the boot stop is acknowledged.
   */
  datatype TryFate = TryFate(pages: seq<PageFate>, exchange: Exchange, reset: bool, ram: seq<bv8>, stopped: bool)

  datatype Outcome = Success | Unchecked | Mismatch | Aborted | GaveUp

  /** `used` is the index of the try that ended the command. */
  datatype Result = Result(outcome: Outcome, used: nat, flash: seq<bv8>, eeprom: seq<byte>)

  predicate Planned(tries: seq<TryFate>, page: nat, pages: nat) {
    forall t <- tries :: Covers(t.pages, page, pages) && |t.ram| == page && (t.exchange.Lost? ==> t.exchange.writes <= 4)
  }

  /** An unread acknowledgement is taken for the one of the boot stop, which ends the command. */
  predicate Retries(end: End, stopped: bool) {
    stopped && (end.Timeout? || end == Confused(0))
  }

  /** The board when the next try starts. */
  function Restarted(b: Board, t: TryFate): Board {
    if t.reset then Board(b.flash, t.ram, 0) else b
  }

  function FlashCrc(flash: seq<bv8>, size: nat): bv16
    requires size <= |flash|
  {
    WordsCrc(0xffff, Words(flash[..size]))
  }

  /** Behind a complete pass: the board's CRC is saved first and compared afterwards. */
  function Finish(flash: seq<bv8>, eeprom: seq<byte>, image: seq<bv8>, x: Exchange, used: nat): Result
    requires |image| <= |flash| && |image| < 0x1_0000 && |eeprom| >= 20 && (x.Lost? ==> x.writes <= 4)
  {
    var crc := FlashCrc(flash, |image|);
    match x
    case Complete =>
      Result(if crc == PairsCrc(0xffff, image) then Success else Mismatch, used, flash, Saved(eeprom, crc, |image|, 4))
    case Lost(n) =>
      Result(Unchecked, used, flash, Saved(eeprom, crc, |image|, n))
  }

  /** `cmd_flash` from try i on. */
  function Tries(b: Board, eeprom: seq<byte>, image: seq<bv8>, page: nat, pages: nat, cache: Cache,
                 tries: seq<TryFate>, i: nat): (r: Result)
    requires Job(image, page, pages, cache) && Fresh(b, image, page) && |image| < 0x1_0000 && |eeprom| >= 20
    requires Planned(tries, page, pages) && i <= |tries|
    ensures |r.flash| == |b.flash| && |r.eeprom| == |eeprom| && i <= r.used <= |tries|
    decreases |tries| - i
  {
    if i == |tries| then Result(GaveUp, i, b.flash, eeprom)
    else
      var t := Pass(b, image, page, pages, cache, tries[i].pages, 0);
      if t.end.Done? then Finish(t.board.flash, eeprom, image, tries[i].exchange, i)
      else if !Retries(t.end, tries[i].stopped) then Result(Aborted, i, t.board.flash, eeprom)
      else Tries(Restarted(t.board, tries[i]), eeprom, image, page, pages, cache, tries, i + 1)
  }

  /** Whatever is lost, the command leaves the pages it skips and everything behind the image alone. */
  lemma {:induction false} TriesKeep(b: Board, eeprom: seq<byte>, image: seq<bv8>, page: nat, pages: nat,
                                     cache: Cache, tries: seq<TryFate>, i: nat)
    requires Job(image, page, pages, cache) && Fresh(b, image, page) && |image| < 0x1_0000 && |eeprom| >= 20
    requires Planned(tries, page, pages) && i <= |tries|
    ensures Untouched(b.flash, Tries(b, eeprom, image, page, pages, cache, tries, i).flash, image, page, pages, cache)
    decreases |tries| - i
  {
    hide Pass, Page, Skips, Job, Saved, FlashCrc, PairsCrc;
    if i < |tries| {
      PassKeeps(b, image, page, pages, cache, tries[i].pages, 0);
      var t := Pass(b, image, page, pages, cache, tries[i].pages, 0);
      if !t.end.Done? && Retries(t.end, tries[i].stopped) {
        TriesKeep(Restarted(t.board, tries[i]), eeprom, image, page, pages, cache, tries, i + 1);
      }
    }
  }

  /**
   The outcome and the boot check. After a success the flash has the CRC of the image, so it differs from the
   image in no place or in more than one word. After a mismatch it is not the image, but the boot check accepts
   it all the same: the CRC saved is that of the flash.
   */
  lemma {:induction false} OutcomeMeans(b: Board, eeprom: seq<byte>, image: seq<bv8>, page: nat, pages: nat,
                                        cache: Cache, tries: seq<TryFate>, i: nat, past: nat -> bv8)
    requires Job(image, page, pages, cache) && Fresh(b, image, page) && |image| < 0x1_0000 && |eeprom| >= 20
    requires Planned(tries, page, pages) && i <= |tries|
    ensures var r := Tries(b, eeprom, image, page, pages, cache, tries, i);
            && (r.outcome.Success? || r.outcome.Mismatch? ==> Accepts(r.flash, past, r.eeprom))
            && (r.outcome.Success? && WithinOneWord(r.flash[..|image|], image) ==> r.flash[..|image|] == image)
            && (r.outcome.Mismatch? ==> r.flash[..|image|] != image)
            && (r.outcome.Aborted? || r.outcome.GaveUp? ==> r.eeprom == eeprom)
    decreases |tries| - i
  {
    hide Pass, Job, Saved, PairsCrc, WithinOneWord, Accepts;
    if i < |tries| {
      var t := Pass(b, image, page, pages, cache, tries[i].pages, 0);
      if t.end.Done? {
        var f := t.board.flash;
        SavedAccepts(f, past, eeprom, |image|);
        HostAndBoardAgree(0xffff, image);
        if WithinOneWord(f[..|image|], image) && FlashCrc(f, |image|) == PairsCrc(0xffff, image) {
          SameCrcSameBytes(f[..|image|], image);
        }
      } else if Retries(t.end, tries[i].stopped) {
        OutcomeMeans(Restarted(t.board, tries[i]), eeprom, image, page, pages, cache, tries, i + 1, past);
      }
    }
  }

  /** The two differ at most in the bytes of one 16-bit word. */
  predicate WithinOneWord(a: seq<bv8>, b: seq<bv8>) {
    && |a| == |b|
    && (a == b || exists k :: 0 <= k < |a| && SameButWord(a, b, k))
  }

  predicate SameButWord(a: seq<bv8>, b: seq<bv8>, k: int) {
    && |a| == |b| && 0 <= 2 * k && 2 * k + 1 < |a|
    && a == b[2 * k := a[2 * k]][2 * k + 1 := a[2 * k + 1]]
  }

  /** Any change of the two bytes of a word is one of these. */
  lemma OneWordChanges(b: seq<bv8>, k: nat, lo: bv8, hi: bv8)
    requires 2 * k + 1 < |b|
    ensures WithinOneWord(b, b) && WithinOneWord(b[2 * k := lo][2 * k + 1 := hi], b)
  {
    var a := b[2 * k := lo][2 * k + 1 := hi];
    assert SameButWord(a, b, k);
    assert b[2 * k := b[2 * k]][2 * k + 1 := b[2 * k + 1]] == b;
    assert SameButWord(b, b, k);
  }

  lemma SameCrcSameBytes(a: seq<bv8>, b: seq<bv8>)
    requires WithinOneWord(a, b) && WordsCrc(0xffff, Words(a)) == WordsCrc(0xffff, Words(b))
    ensures a == b
  {
    hide WordsCrc, Words;
    if a != b {
      var k :| 0 <= k < |a| && SameButWord(a, b, k);
      assert b[2 * k := b[2 * k]][2 * k + 1 := b[2 * k + 1]] == b;
      OneWordChangesCrc(b, k, a[2 * k], a[2 * k + 1]);
    }
  }

  lemma SavedAccepts(flash: seq<bv8>, past: nat -> bv8, eeprom: seq<byte>, size: nat)
    requires |eeprom| >= 20 && size <= |flash| && size < 0x1_0000
    ensures Accepts(flash, past, Saved(eeprom, FlashCrc(flash, size), size, 4))
  {
    hide WordsCrc, Words, Saved, StoredCrc, StoredSize, Seen;
    SavedReadsBack(eeprom, FlashCrc(flash, size), size);
  }

  /**
   What the try that ends the command leaves: a try without losses always completes, and one that completes with
   the first frame of every line puts the image on all pages sent. The outcome is the comparison of the CRCs.
   */
  lemma {:induction false} TriesMerge(b: Board, eeprom: seq<byte>, image: seq<bv8>, page: nat, pages: nat,
                                      cache: Cache, tries: seq<TryFate>, i: nat)
    requires Job(image, page, pages, cache) && Fresh(b, image, page) && |image| < 0x1_0000 && |eeprom| >= 20
    requires Planned(tries, page, pages) && i <= |tries| && b.line < 0x1_0000
    ensures var r := Tries(b, eeprom, image, page, pages, cache, tries, i);
            if r.used == |tries| then
              r.outcome.GaveUp? && forall j :: i <= j < |tries| ==> !LossFree(image, page, pages, cache, tries[j].pages)
            else
              && (LossFree(image, page, pages, cache, tries[r.used].pages) ==>
                    !r.outcome.Aborted? && FirstsOfPass(image, page, pages, cache, tries[r.used].pages))
              && (!r.outcome.Aborted? ==> r.outcome == Verdict(r.flash, image, tries[r.used].exchange))
              && (!r.outcome.Aborted? && FirstsOfPass(image, page, pages, cache, tries[r.used].pages) ==>
                    Merged(b.flash, r.flash, image, page, pages, cache))
    decreases |tries| - i
  {
    hide Pass, Page, Skips, Job, Saved, PairsCrc, FlashCrc, LossFree, FirstsOfPass;
    if i < |tries| {
      var fates := tries[i].pages;
      PassKeeps(b, image, page, pages, cache, fates, 0);
      PassCompletes(b, image, page, pages, cache, fates, 0);
      var t := Pass(b, image, page, pages, cache, fates, 0);
      if LossFree(image, page, pages, cache, fates) {
        LossFreeCompletes(b.line, image, page, pages, cache, fates, 0);
        LossFreeFirsts(image, page, pages, cache, fates);
      }
      if t.end.Done? {
        if FirstsOfPass(image, page, pages, cache, fates) {
          FirstsSuffice(b, image, page, pages, cache, fates, 0);
          FlashedMerges(b.flash, image, page, pages, cache);
        }
      } else if Retries(t.end, tries[i].stopped) {
        TriesMerge(Restarted(t.board, tries[i]), eeprom, image, page, pages, cache, tries, i + 1);
      }
    }
  }

  /** The outcome of a try that completes. */
  function Verdict(flash: seq<bv8>, image: seq<bv8>, x: Exchange): Outcome
    requires |image| <= |flash|
  {
    if x.Lost? then Unchecked else if FlashCrc(flash, |image|) == PairsCrc(0xffff, image) then Success else Mismatch
  }

  /**
   Unless it aborts, a command whose last try completes with all first frames installs the image if and only if
   the pages left out held it, and then reports it.
   */
  lemma TriesInstall(b: Board, eeprom: seq<byte>, image: seq<bv8>, page: nat, pages: nat, cache: Cache,
                     tries: seq<TryFate>)
    requires Job(image, page, pages, cache) && Fresh(b, image, page) && |image| < 0x1_0000 && |eeprom| >= 20
    requires Planned(tries, page, pages) && b.line < 0x1_0000
    ensures var r := Tries(b, eeprom, image, page, pages, cache, tries, 0);
            r.used < |tries| && !r.outcome.Aborted? && FirstsOfPass(image, page, pages, cache, tries[r.used].pages) ==>
              && (r.flash == image + b.flash[|image|..] <==> SkippedDone(b.flash, image, page, pages, cache))
              && (SkippedDone(b.flash, image, page, pages, cache) ==>
                    r.outcome == if tries[r.used].exchange.Complete? then Success else Unchecked)
  {
    hide Tries, SkippedDone, Merged, Job, PairsCrc, FirstsOfPass, LossFree, Covers;
    var r := Tries(b, eeprom, image, page, pages, cache, tries, 0);
    TriesMerge(b, eeprom, image, page, pages, cache, tries, 0);
    HostAndBoardAgree(0xffff, image);
    if r.used < |tries| && Merged(b.flash, r.flash, image, page, pages, cache) {
      MergedIsImage(b.flash, r.flash, image, page, pages, cache);
    }
  }

  // ---------------------------------------------------------------- a mismatch that the boot check accepts

  const NoLoss := Fate(true, true)

  /** 32 zeros but for the first byte of the second page. */
  function Blip(): (image: seq<bv8>)
    ensures |image| == 32
  {
    Zeros(32)[16 := 1]
  }

  function Zeros(n: nat): (r: seq<bv8>)
    ensures |r| == n
  {
    seq(n, i => 0)
  }

  /** The first page arrives, of the second only one frame. */
  function BlipFates(): seq<PageFate> {
    [PageFate([NoLoss, NoLoss, NoLoss, NoLoss], NoLoss), Unnoticed(1)]
  }

  lemma BlipPages()
    ensures Off(16, 0) == 0 && Off(16, 1) == 16 && Off(16, 2) == 32 && Job(Blip(), 16, 2, NoCache) && Covers(BlipFates(), 16, 2)
    ensures Page(Blip(), 16, 2, 0) == Zeros(16) && Page(Blip(), 16, 2, 1) == Zeros(16)[0 := 1]
  {
    assert Off(16, 2) == Off(16, 1) + 16 && Off(16, 1) == Off(16, 0) + 16;
  }

  lemma BlipFirst(b: Board)
    requires |b.buffer| == 16 && |b.flash| >= 32 && b.line < 0x1_0000
    ensures PageReady(b, Zeros(16), 0, BlipFates()[0])
    ensures PageFrom(b, 0, Zeros(16), 0, BlipFates()[0], 0) == Turn(Done, Board(Put(b.flash, 0, Zeros(16)), Zeros(16), 16))
  {
    hide PageFrom, Overlay, Acked, Put;
    var fate := BlipFates()[0];
    LossFreePage(b.line, fate);
    PageCompletes(b, Zeros(16), 0, fate);
    OverlayAll(b.buffer, Zeros(16), fate.fills);
    assert Counter(b.line, fate.fills, 1) == 4;
    assert Counter(b.line, fate.fills, 2) == 8;
    assert Counter(b.line, fate.fills, 3) == 12;
  }

  lemma BlipPass(b: Board)
    requires |b.buffer| == 16 && |b.flash| >= 32 && b.line < 0x1_0000
    ensures Job(Blip(), 16, 2, NoCache) && Covers(BlipFates(), 16, 2)
    ensures var t := Pass(b, Blip(), 16, 2, NoCache, BlipFates(), 0);
            t.end.Done? && t.board.flash[..32] == Zeros(32)
  {
    hide PageFrom, Overlay, Acked, Off, Page;
    BlipPages();
    BlipFirst(b);
    var b1 := Board(Put(b.flash, 0, Zeros(16)), Zeros(16), 16);
    var d := Zeros(16)[0 := 1];
    UnnoticedLoss(b1, d, 16, 1);
    BlipSecond(b1, d);
    var b2 := PageFrom(b1, 0, d, 16, Unnoticed(1), 0).board;
    assert Pass(b2, Blip(), 16, 2, NoCache, BlipFates(), 2) == Turn(Done, b2);
    assert Pass(b1, Blip(), 16, 2, NoCache, BlipFates(), 1) == Turn(Done, b2);
  }

  lemma BlipSecond(b: Board, d: seq<bv8>)
    requires b.buffer == Zeros(16) && |b.flash| >= 32 && d == Zeros(16)[0 := 1] && b.flash[..16] == Zeros(16) && b.line == 16
    ensures PageReady(b, d, 16, Unnoticed(1))
    ensures PageFrom(b, 0, d, 16, Unnoticed(1), 0).board.flash[..32] == Zeros(32)
  {
    hide PageFrom, Acked;
    UnnoticedLoss(b, d, 16, 1);
    PageCompletes(b, d, 16, Unnoticed(1));
    assert Overlay(b.buffer, d, Unnoticed(1).fills, 4) == Zeros(16);
  }

  /**
   Such a run: whatever the board was, the host reports a mismatch after the lost frames, and the boot check
   nevertheless accepts the flash.
   */
  lemma MismatchAccepted(b: Board, eeprom: seq<byte>, tries: seq<TryFate>, past: nat -> bv8)
    requires |b.buffer| == 16 && |b.flash| >= 32 && b.line < 0x1_0000 && |eeprom| >= 20
    requires Planned(tries, 16, 2) && |tries| > 0 && tries[0].pages == BlipFates() && tries[0].exchange.Complete?
    ensures Job(Blip(), 16, 2, NoCache)
    ensures var r := Tries(b, eeprom, Blip(), 16, 2, NoCache, tries, 0);
            r.outcome.Mismatch? && r.flash[..32] != Blip() && Accepts(r.flash, past, r.eeprom)
  {
    hide Pass, WordsCrc, Words, PairsCrc, Saved, Accepts, Blip, BlipFates;
    BlipPass(b);
    OutcomeMeans(b, eeprom, Blip(), 16, 2, NoCache, tries, 0, past);
    BlipDiffers();
    HostAndBoardAgree(0xffff, Blip());
  }

  lemma BlipDiffers()
    ensures Zeros(32) != Blip() && WordsCrc(0xffff, Words(Zeros(32))) != WordsCrc(0xffff, Words(Blip()))
  {
    hide WordsCrc, Words;
    assert Zeros(32)[16 := 1][17 := 0] == Blip();
    assert Zeros(32)[16] != Blip()[16];
    OneWordChangesCrc(Zeros(32), 8, 1, 0);
  }

  // ---------------------------------------------------------------- incremental mode

  /** Incremental mode is on when the board's CRC over the size of the image is that of the cached file. */
  function Choice(flash: seq<bv8>, image: seq<bv8>, cached: Cache): Cache
    requires |image| <= |flash|
  {
    if cached.Cached? && FlashCrc(flash, |image|) == PairsCrc(0xffff, cached.data) then cached else NoCache
  }

  lemma ChoiceJob(flash: seq<bv8>, image: seq<bv8>, page: nat, pages: nat, cached: Cache)
    requires Job(image, page, pages, cached) && |image| <= |flash|
    ensures Job(image, page, pages, Choice(flash, image, cached))
  {
    hide Off;
  }

  /** The board holds the cached image, up to one word if that is as long as the new image. */
  predicate HoldsCached(flash: seq<bv8>, image: seq<bv8>, cached: seq<bv8>)
    requires |image| <= |flash|
  {
    WithinOneWord(flash[..|image|], cached) || (|cached| <= |flash| && flash[..|cached|] == cached)
  }

  /** On such a board every page left out is in place. */
  lemma ChoiceIsSafe(flash: seq<bv8>, image: seq<bv8>, page: nat, pages: nat, cached: Cache)
    requires Job(image, page, pages, cached) && |image| <= |flash|
    requires cached.Cached? ==> HoldsCached(flash, image, cached.data)
    ensures SkippedDone(flash, image, page, pages, Choice(flash, image, cached))
  {
    hide WordsCrc, Words, PairsCrc, WithinOneWord, Skips;
    if Choice(flash, image, cached).Cached? {
      HostAndBoardAgree(0xffff, cached.data);
      if WithinOneWord(flash[..|image|], cached.data) {
        SameCrcSameBytes(flash[..|image|], cached.data);
      }
      CachedBoardIsDone(flash, image, page, pages, cached.data);
    } else {
      NothingSkipped(flash, image, page, pages);
    }
  }

  lemma NothingSkipped(flash: seq<bv8>, image: seq<bv8>, page: nat, pages: nat)
    requires Job(image, page, pages, NoCache) && |image| <= |flash|
    ensures SkippedDone(flash, image, page, pages, NoCache)
  {
  }

  /**
   `cmd_flash`: choice of the mode, then three tries, each followed by a reset unless it completes. Whatever is
   lost, the flash behind the image stays as it was, and a reported success is a flash with the image's CRC.
   */
  method CmdFlash(board: Bootloader, image: seq<bv8>, pages: nat, cached: Cache,
                  tries: seq<TryFate>) returns (outcome: Outcome)
    requires board.Valid() && Job(image, board.buffer.Length, pages, cached)
    requires |image| <= board.flash.Length && |image| < 0x1_0000
    requires Planned(tries, board.buffer.Length, pages) && |tries| == 3
    modifies board`lineCounter, board.buffer, board.flash, board.eeprom
    ensures board.Valid()
    ensures var r := Tries(old(board.View()), old(board.eeprom[..]), image, board.buffer.Length, pages,
                           Choice(old(board.flash[..]), image, cached), tries, 0);
            outcome == r.outcome && board.flash[..] == r.flash && board.eeprom[..] == r.eeprom
    ensures board.flash[|image|..] == old(board.flash[|image|..])
    ensures outcome.Success? || outcome.Mismatch? ==> Accepts(board.flash[..], board.past, board.eeprom[..])
    ensures outcome.Success? && WithinOneWord(board.flash[..|image|], image) ==> board.flash[..|image|] == image
    ensures outcome.Mismatch? ==> board.flash[..|image|] != image
  {
    hide Tries, Pass, Job, Covers, Finish, Planned, Accepts, WithinOneWord, Choice;
    ghost var page, eeprom := board.buffer.Length, board.eeprom[..];
    var cache := SelectMode(board, image, cached);
    ChoiceJob(board.flash[..], image, page, pages, cached);
    ghost var goal := Tries(board.View(), eeprom, image, page, pages, cache, tries, 0);
    CommandMeans(board.View(), eeprom, image, page, pages, cache, tries, board.past);
    assert goal.flash[|image|..] == board.flash[|image|..];
    var i := 0;
    while i < 3
      invariant 0 <= i <= 3 && board.Valid() && board.eeprom[..] == eeprom
      invariant Tries(board.View(), eeprom, image, page, pages, cache, tries, i) == goal
    {
      PlannedAt(tries, page, pages, i);
      TriesStep(board.View(), eeprom, image, page, pages, cache, tries, i);
      var end := FlashPass(board, image, pages, cache, tries[i].pages);
      if end.Done? {
        outcome := Conclude(board, image, tries[i].exchange, i);
        return;
      }
      if tries[i].reset { board.Restart(tries[i].ram); }
      if !Retries(end, tries[i].stopped) {
        return Aborted;
      }
      i := i + 1;
    }
    TriesEnd(board.View(), eeprom, image, page, pages, cache, tries);
    return GaveUp;
  }

  lemma TriesStep(b: Board, eeprom: seq<byte>, image: seq<bv8>, page: nat, pages: nat, cache: Cache,
                  tries: seq<TryFate>, i: nat)
    requires Job(image, page, pages, cache) && Fresh(b, image, page) && |image| < 0x1_0000 && |eeprom| >= 20
    requires Planned(tries, page, pages) && i < |tries|
    ensures Tries(b, eeprom, image, page, pages, cache, tries, i) ==
            var t := Pass(b, image, page, pages, cache, tries[i].pages, 0);
            if t.end.Done? then Finish(t.board.flash, eeprom, image, tries[i].exchange, i)
            else if !Retries(t.end, tries[i].stopped) then Result(Aborted, i, t.board.flash, eeprom)
            else Tries(Restarted(t.board, tries[i]), eeprom, image, page, pages, cache, tries, i + 1)
  {
  }

  lemma TriesEnd(b: Board, eeprom: seq<byte>, image: seq<bv8>, page: nat, pages: nat, cache: Cache, tries: seq<TryFate>)
    requires Job(image, page, pages, cache) && Fresh(b, image, page) && |image| < 0x1_0000 && |eeprom| >= 20
    requires Planned(tries, page, pages)
    ensures Tries(b, eeprom, image, page, pages, cache, tries, |tries|) == Result(GaveUp, |tries|, b.flash, eeprom)
  {
  }

  /** What every command keeps, and what its outcome says. */
  lemma CommandMeans(b: Board, eeprom: seq<byte>, image: seq<bv8>, page: nat, pages: nat, cache: Cache,
                     tries: seq<TryFate>, past: nat -> bv8)
    requires Job(image, page, pages, cache) && Fresh(b, image, page) && |image| < 0x1_0000 && |eeprom| >= 20
    requires Planned(tries, page, pages)
    ensures var r := Tries(b, eeprom, image, page, pages, cache, tries, 0);
            && r.flash[|image|..] == b.flash[|image|..]
            && (r.outcome.Success? || r.outcome.Mismatch? ==> Accepts(r.flash, past, r.eeprom))
            && (r.outcome.Success? && WithinOneWord(r.flash[..|image|], image) ==> r.flash[..|image|] == image)
            && (r.outcome.Mismatch? ==> r.flash[..|image|] != image)
  {
    hide Tries, Page, Skips, Job, Planned, Accepts, WithinOneWord;
    TriesKeep(b, eeprom, image, page, pages, cache, tries, 0);
    OutcomeMeans(b, eeprom, image, page, pages, cache, tries, 0, past);
  }

  lemma PlannedAt(tries: seq<TryFate>, page: nat, pages: nat, i: nat)
    requires Planned(tries, page, pages) && i < |tries|
    ensures var t := tries[i]; Covers(t.pages, page, pages) && |t.ram| == page && (t.exchange.Lost? ==> t.exchange.writes <= 4)
  {
  }

  method SelectMode(board: Bootloader, image: seq<bv8>, cached: Cache) returns (cache: Cache)
    requires board.Valid() && |image| <= board.flash.Length
    ensures cache == Choice(board.flash[..], image, cached)
  {
    cache := NoCache;
    if cached.Cached? {
      var boardCrc := board.CrcQuery(|image|);
      var cachedCrc := HostCrc(cached.data);
      if boardCrc == cachedCrc {
        cache := cached;
      }
    }
  }

  /** Query, saving and comparison of the CRC. */
  method Conclude(board: Bootloader, image: seq<bv8>, x: Exchange, ghost used: nat) returns (outcome: Outcome)
    requires board.Valid() && |image| <= board.flash.Length && |image| < 0x1_0000 && (x.Lost? ==> x.writes <= 4)
    modifies board.eeprom
    ensures Finish(board.flash[..], old(board.eeprom[..]), image, x, used)
            == Result(outcome, used, board.flash[..], board.eeprom[..])
  {
    hide Saved, PairsCrc, WordsCrc, Words;
    var crc := board.CrcQuery(|image|);
    SaveCrc(board, crc, |image|, if x.Lost? then x.writes else 4);
    if x.Lost? {
      return Unchecked;
    }
    var own := HostCrc(image);
    return if crc == own then Success else Mismatch;
  }

  /** `save_crc16_to_board`, of which n writes get through. */
  method SaveCrc(board: Bootloader, crc: bv16, size: nat, n: nat)
    requires board.Valid() && size < 0x1_0000 && n <= 4
    modifies board.eeprom
    ensures board.eeprom[..] == Saved(old(board.eeprom[..]), crc, size, n)
  {
    hide Trailer, Put;
    ghost var eeprom := board.eeprom[..];
    var d := Trailer(crc, size);
    PutNothing(eeprom, EEPR_FIRMWARE_CRC16, d);
    for i := 0 to n
      invariant board.eeprom[..] == Put(eeprom, EEPR_FIRMWARE_CRC16, d[..i])
    {
      PutMore(eeprom, EEPR_FIRMWARE_CRC16, d, i);
      board.EepromWrite(EEPR_FIRMWARE_CRC16 + i, d[i]);
    }
  }

  /** The promise of incremental and full mode together. */
  lemma FlashInstalls(b: Board, eeprom: seq<byte>, image: seq<bv8>, page: nat, pages: nat, cached: Cache,
                      tries: seq<TryFate>)
    requires Job(image, page, pages, cached) && Fresh(b, image, page) && |image| < 0x1_0000 && |eeprom| >= 20
    requires Planned(tries, page, pages) && b.line < 0x1_0000
    requires cached.Cached? ==> HoldsCached(b.flash, image, cached.data)
    ensures var cache := Choice(b.flash, image, cached);
            var r := Tries(b, eeprom, image, page, pages, cache, tries, 0);
            r.used < |tries| && LossFree(image, page, pages, cache, tries[r.used].pages) ==>
              && r.flash == image + b.flash[|image|..]
              && r.outcome == if tries[r.used].exchange.Complete? then Success else Unchecked
  {
    hide Tries, SkippedDone, Choice, HoldsCached, FirstsOfPass, LossFree, Job, Planned, Covers, Merged;
    var cache := Choice(b.flash, image, cached);
    ChoiceJob(b.flash, image, page, pages, cached);
    ChoiceIsSafe(b.flash, image, page, pages, cached);
    TriesMerge(b, eeprom, image, page, pages, cache, tries, 0);
    TriesInstall(b, eeprom, image, page, pages, cache, tries);
  }

  // ---------------------------------------------------------------- how often the host tries

  /** The board before try i, if the host gets that far. */
  function BoardAt(b: Board, image: seq<bv8>, page: nat, pages: nat, cache: Cache, tries: seq<TryFate>, i: nat): (r: Board)
    requires Job(image, page, pages, cache) && Fresh(b, image, page) && Planned(tries, page, pages) && i <= |tries|
    ensures Fresh(r, image, page) && |r.flash| == |b.flash| && (b.line < 0x1_0000 ==> r.line < 0x1_0000)
  {
    if i == 0 then b
    else
      var before := BoardAt(b, image, page, pages, cache, tries, i - 1);
      Restarted(Pass(before, image, page, pages, cache, tries[i - 1].pages, 0).board, tries[i - 1])
  }

  /** How try i ends. */
  function EndAt(b: Board, image: seq<bv8>, page: nat, pages: nat, cache: Cache, tries: seq<TryFate>, i: nat): End
    requires Job(image, page, pages, cache) && Fresh(b, image, page) && Planned(tries, page, pages) && i < |tries|
  {
    Pass(BoardAt(b, image, page, pages, cache, tries, i), image, page, pages, cache, tries[i].pages, 0).end
  }

  /** Try i breaks off with nothing unread, by a time-out or by one surplus acknowledgement, and the boot stop is answered. */
  predicate BreaksOff(b: Board, image: seq<bv8>, page: nat, pages: nat, cache: Cache, tries: seq<TryFate>, i: nat)
    requires Job(image, page, pages, cache) && Fresh(b, image, page) && Planned(tries, page, pages) && i < |tries|
  {
    var end := EndAt(b, image, page, pages, cache, tries, i);
    tries[i].stopped && (end == Timeout || end == Confused(0))
  }

  lemma {:induction false} TriesUsedFrom(b: Board, eeprom: seq<byte>, image: seq<bv8>, page: nat, pages: nat,
                                         cache: Cache, tries: seq<TryFate>, i: nat)
    requires Job(image, page, pages, cache) && Fresh(b, image, page) && |image| < 0x1_0000 && |eeprom| >= 20
    requires Planned(tries, page, pages) && i <= |tries|
    ensures var r := Tries(BoardAt(b, image, page, pages, cache, tries, i), eeprom, image, page, pages, cache, tries, i);
            && (forall k :: i <= k < r.used ==> BreaksOff(b, image, page, pages, cache, tries, k))
            && (r.used < |tries| ==> !BreaksOff(b, image, page, pages, cache, tries, r.used))
            && (r.outcome.GaveUp? <==> r.used == |tries|)
            && (r.outcome.Aborted? <==>
                  r.used < |tries| && EndAt(b, image, page, pages, cache, tries, r.used) != Done)
    decreases |tries| - i
  {
    hide Pass, Job, Saved, PairsCrc, FlashCrc, Planned;
    var now := BoardAt(b, image, page, pages, cache, tries, i);
    if i == |tries| {
      TriesEnd(now, eeprom, image, page, pages, cache, tries);
    } else {
      PlannedAt(tries, page, pages, i);
      TriesStep(now, eeprom, image, page, pages, cache, tries, i);
      var t := Pass(now, image, page, pages, cache, tries[i].pages, 0);
      hide Tries;
      if t.end != Done && Retries(t.end, tries[i].stopped) {
        TriesUsedFrom(b, eeprom, image, page, pages, cache, tries, i + 1);
      }
    }
  }

  /**
   Which try ends the command: the first one that does not break off in this way, for all losses. It gives up
   exactly if all tries break off, and aborts exactly if a try ends neither complete nor in this way.
   */
  lemma TriesUsed(b: Board, eeprom: seq<byte>, image: seq<bv8>, page: nat, pages: nat, cache: Cache,
                  tries: seq<TryFate>)
    requires Job(image, page, pages, cache) && Fresh(b, image, page) && |image| < 0x1_0000 && |eeprom| >= 20
    requires Planned(tries, page, pages)
    ensures var r := Tries(b, eeprom, image, page, pages, cache, tries, 0);
            && (forall k :: 0 <= k < r.used ==> BreaksOff(b, image, page, pages, cache, tries, k))
            && (r.used < |tries| ==> !BreaksOff(b, image, page, pages, cache, tries, r.used))
            && (r.outcome.GaveUp? <==> forall k :: 0 <= k < |tries| ==> BreaksOff(b, image, page, pages, cache, tries, k))
            && (r.outcome.Aborted? <==>
                  r.used < |tries| && EndAt(b, image, page, pages, cache, tries, r.used) != Done)
  {
    hide Tries, BreaksOff, EndAt, Job, Planned;
    TriesUsedFrom(b, eeprom, image, page, pages, cache, tries, 0);
  }

  /**
   After any number of tries that time out with their boot stop answered, a try without losses installs the image
   on a board that holds the cached image.
   */
  lemma RetryInstalls(b: Board, eeprom: seq<byte>, image: seq<bv8>, page: nat, pages: nat, cached: Cache,
                      tries: seq<TryFate>, j: nat)
    requires Job(image, page, pages, cached) && Fresh(b, image, page) && |image| < 0x1_0000 && |eeprom| >= 20
    requires Planned(tries, page, pages) && b.line < 0x1_0000 && j < |tries|
    requires cached.Cached? ==> HoldsCached(b.flash, image, cached.data)
    requires Job(image, page, pages, Choice(b.flash, image, cached))
    requires forall i :: 0 <= i < j ==>
               tries[i].stopped && EndAt(b, image, page, pages, Choice(b.flash, image, cached), tries, i) == Timeout
    requires LossFree(image, page, pages, Choice(b.flash, image, cached), tries[j].pages)
    ensures var r := Tries(b, eeprom, image, page, pages, Choice(b.flash, image, cached), tries, 0);
            && r.used == j && r.flash == image + b.flash[|image|..]
            && r.outcome == if tries[j].exchange.Complete? then Success else Unchecked
  {
    hide Tries, Choice, HoldsCached, LossFree, Job, Planned, Covers, Pass;
    var cache := Choice(b.flash, image, cached);
    var r := Tries(b, eeprom, image, page, pages, cache, tries, 0);
    TriesUsed(b, eeprom, image, page, pages, cache, tries);
    PlannedAt(tries, page, pages, j);
    var now := BoardAt(b, image, page, pages, cache, tries, j);
    LossFreeCompletes(now.line, image, page, pages, cache, tries[j].pages, 0);
    PassCompletes(now, image, page, pages, cache, tries[j].pages, 0);
    FlashInstalls(b, eeprom, image, page, pages, cached, tries);
    UsedIs(b, image, page, pages, cache, tries, r.used, j);
  }

  lemma UsedIs(b: Board, image: seq<bv8>, page: nat, pages: nat, cache: Cache, tries: seq<TryFate>, used: nat, j: nat)
    requires Job(image, page, pages, cache) && Fresh(b, image, page) && Planned(tries, page, pages)
    requires used <= |tries| && j < |tries|
    requires forall k :: 0 <= k < used ==> BreaksOff(b, image, page, pages, cache, tries, k)
    requires forall k :: 0 <= k < j ==> BreaksOff(b, image, page, pages, cache, tries, k)
    requires !BreaksOff(b, image, page, pages, cache, tries, j)
    requires used < |tries| ==> !BreaksOff(b, image, page, pages, cache, tries, used)
    ensures used == j
  {
    hide BreaksOff, Job, Planned;
  }

  // ---------------------------------------------------------------- a mode chosen wrongly

  /** Every byte of the image lies in a page. */
  lemma {:induction false} InSomePage(page: nat, pages: nat, i: nat) returns (k: nat)
    requires i < Off(page, pages)
    ensures k < pages && Off(page, k) <= i < Off(page, k) + page
    decreases pages
  {
    if Off(page, pages - 1) <= i {
      k := pages - 1;
    } else {
      k := InSomePage(page, pages - 1, i);
    }
  }

  /** The board agrees with the cached image on all pages that are sent. */
  predicate SentAsCached(flash: seq<bv8>, image: seq<bv8>, page: nat, pages: nat, cached: seq<bv8>)
    requires Job(image, page, pages, Cached(cached)) && |image| <= |flash|
  {
    forall k :: 0 <= k < pages && !Skips(image, page, pages, Cached(cached), k) ==>
      Page(flash, page, pages, k) == Page(cached, page, pages, k)
  }

  /** Then result and image differ in each byte as the board and the cached image did. */
  lemma SameDifference(flash: seq<bv8>, r: seq<bv8>, image: seq<bv8>, page: nat, pages: nat, cached: seq<bv8>, i: nat)
    requires Job(image, page, pages, Cached(cached)) && |image| <= |flash| == |r| && i < |image|
    requires SentAsCached(flash, image, page, pages, cached)
    requires Merged(flash, r, image, page, pages, Cached(cached))
    ensures XorByte(r[i], image[i]) == XorByte(flash[i], cached[i])
  {
    hide Off, XorByte;
    var k := InSomePage(page, pages, i);
    OffMono(page, k, pages);
    var j := i - Off(page, k);
    assert Page(r, page, pages, k)[j] == r[i] && Page(image, page, pages, k)[j] == image[i];
    assert Page(flash, page, pages, k)[j] == flash[i] && Page(cached, page, pages, k)[j] == cached[i];
    if !Skips(image, page, pages, Cached(cached), k) {
      XorByteSame(r[i], flash[i]);
    }
  }

  /** So the CRCs agree behind the pass if they did before it. */
  lemma SameCrcBehind(flash: seq<bv8>, r: seq<bv8>, image: seq<bv8>, page: nat, pages: nat, cached: seq<bv8>)
    requires Job(image, page, pages, Cached(cached)) && |image| <= |flash| == |r| && |cached| == |image|
    requires SentAsCached(flash, image, page, pages, cached) && Merged(flash, r, image, page, pages, Cached(cached))
    requires FlashCrc(flash, |image|) == PairsCrc(0xffff, cached)
    ensures FlashCrc(r, |image|) == PairsCrc(0xffff, image)
  {
    hide Xor, XorByte, PairsCrc, WordsCrc, Words, Merged, SentAsCached, Job;
    var u, x := r[..|image|], flash[..|image|];
    forall i | 0 <= i < |image| ensures XorByte(u[i], image[i]) == XorByte(x[i], cached[i]) {
      SameDifference(flash, r, image, page, pages, cached, i);
    }
    CrcLinear(0xffff, 0xffff, 0xffff, 0xffff, u, image, x, cached);
    HostAndBoardAgree(0xffff, u);
    HostAndBoardAgree(0xffff, x);
    XorSame(PairsCrc(0xffff, u), PairsCrc(0xffff, image), PairsCrc(0xffff, cached));
  }

  /** The pages left out are in place exactly if such a board held the cached image. */
  lemma SkippedDoneExactly(flash: seq<bv8>, image: seq<bv8>, page: nat, pages: nat, cached: seq<bv8>)
    requires Job(image, page, pages, Cached(cached)) && |image| <= |flash| && |cached| == |image|
    requires SentAsCached(flash, image, page, pages, cached)
    ensures SkippedDone(flash, image, page, pages, Cached(cached)) <==> flash[..|image|] == cached
  {
    if SkippedDone(flash, image, page, pages, Cached(cached)) {
      hide Off, Page;
      PagesDetermine(flash, cached, page, pages, pages);
      assert cached[..|image|] == cached;
    }
    if flash[..|image|] == cached {
      CachedBoardIsDone(flash, image, page, pages, cached);
    }
  }

  /**
   The comparison at the end cannot notice a wrongly chosen mode: if the board's CRC is that of the cached file
   and the two differ on pages left out only, the command reports success with the first try that completes with
   all first frames, but the flash is the image if and only if the board really held the cached image.
   */
  lemma WrongModeUnnoticed(b: Board, eeprom: seq<byte>, image: seq<bv8>, page: nat, pages: nat, cached: seq<bv8>,
                           tries: seq<TryFate>)
    requires Job(image, page, pages, Cached(cached)) && Fresh(b, image, page) && |image| < 0x1_0000 && |eeprom| >= 20
    requires Planned(tries, page, pages) && b.line < 0x1_0000 && |cached| == |image|
    requires FlashCrc(b.flash, |image|) == PairsCrc(0xffff, cached) && SentAsCached(b.flash, image, page, pages, cached)
    ensures Choice(b.flash, image, Cached(cached)) == Cached(cached)
    ensures var r := Tries(b, eeprom, image, page, pages, Cached(cached), tries, 0);
            r.used < |tries| && !r.outcome.Aborted?
            && FirstsOfPass(image, page, pages, Cached(cached), tries[r.used].pages) ==>
              && r.outcome == (if tries[r.used].exchange.Complete? then Success else Unchecked)
              && (r.flash == image + b.flash[|image|..] <==> b.flash[..|image|] == cached)
  {
    hide Tries, SkippedDone, Merged, Job, PairsCrc, FlashCrc, FirstsOfPass, LossFree, Covers, SentAsCached, Verdict;
    var r := Tries(b, eeprom, image, page, pages, Cached(cached), tries, 0);
    TriesMerge(b, eeprom, image, page, pages, Cached(cached), tries, 0);
    TriesInstall(b, eeprom, image, page, pages, Cached(cached), tries);
    SkippedDoneExactly(b.flash, image, page, pages, cached);
    if r.used < |tries| && Merged(b.flash, r.flash, image, page, pages, Cached(cached)) {
      VerdictBehind(b.flash, r.flash, image, page, pages, cached, tries[r.used].exchange);
    }
  }

  lemma VerdictBehind(flash: seq<bv8>, r: seq<bv8>, image: seq<bv8>, page: nat, pages: nat, cached: seq<bv8>, x: Exchange)
    requires Job(image, page, pages, Cached(cached)) && |image| <= |flash| == |r| && |cached| == |image|
    requires SentAsCached(flash, image, page, pages, cached) && Merged(flash, r, image, page, pages, Cached(cached))
    requires FlashCrc(flash, |image|) == PairsCrc(0xffff, cached)
    ensures Verdict(r, image, x) == if x.Complete? then Success else Unchecked
  {
    hide Merged, Job, PairsCrc, FlashCrc, SentAsCached;
    SameCrcBehind(flash, r, image, page, pages, cached);
  }

  /** A flash with the CRC of 32 zeros. */
  function Colliding(): (r: seq<bv8>)
    ensures |r| == 32
  {
    [1, 0, 192, 193] + Zeros(28)
  }

  lemma CollidingPages(flash: seq<bv8>)
    requires |flash| >= 32 && flash[..32] == Colliding()
    ensures Job(Blip(), 16, 2, Cached(Zeros(32))) && FlashCrc(flash, 32) == PairsCrc(0xffff, Zeros(32))
    ensures Page(flash, 16, 2, 1) == Page(Zeros(32), 16, 2, 1) && Colliding() != Zeros(32)
    ensures Skips(Blip(), 16, 2, Cached(Zeros(32)), 0)
  {
    hide PairsCrc, WordsCrc, Words;
    BlipPages();
    Collision(Zeros(28));
    assert [0, 0, 0, 0] + Zeros(28) == Zeros(32);
    HostAndBoardAgree(0xffff, Colliding());
    assert Colliding()[0] != Zeros(32)[0];
    assert flash[16..32] == flash[..32][16..32] == Zeros(16) == Zeros(32)[16..32];
    assert Zeros(32)[..16] == Zeros(16);
  }

  /** Such a run: a loss-free command on such a board reports success, and the flash is not the image. */
  lemma WrongModeHappens(b: Board, eeprom: seq<byte>, tries: seq<TryFate>)
    requires |b.buffer| == 16 && |b.flash| >= 32 && b.flash[..32] == Colliding() && b.line < 0x1_0000 && |eeprom| >= 20
    requires Job(Blip(), 16, 2, Cached(Zeros(32))) && Planned(tries, 16, 2) && |tries| > 0
    requires LossFree(Blip(), 16, 2, Cached(Zeros(32)), tries[0].pages) && tries[0].exchange.Complete?
    ensures Choice(b.flash, Blip(), Cached(Zeros(32))) == Cached(Zeros(32))
    ensures var r := Tries(b, eeprom, Blip(), 16, 2, Cached(Zeros(32)), tries, 0);
            r.outcome.Success? && r.flash != Blip() + b.flash[32..]
  {
    hide Pass, PairsCrc, FlashCrc, Saved, Blip, Zeros, Colliding, LossFree, FirstsOfPass, Page, Covers;
    var cache, fates := Cached(Zeros(32)), tries[0].pages;
    CollidingPages(b.flash);
    LossFreeCompletes(b.line, Blip(), 16, 2, cache, fates, 0);
    LossFreeFirsts(Blip(), 16, 2, cache, fates);
    PassCompletes(b, Blip(), 16, 2, cache, fates, 0);
    WrongModeUnnoticed(b, eeprom, Blip(), 16, 2, Zeros(32), tries);
  }
}
