/**
 Syslog over the bus: a board cuts a text into frames of at most eight bytes, the host puts the frames
 of every source together again.
 */
module Syslog {
  import opened Bytes
  import opened Seqs

  const NEWLINE: byte := 10
  const PROTO_SYSLOG := 3
  const MULTICAST_SYSLOG := 970

  datatype Frame = Frame(src: nat, dst: nat, proto: nat, data: seq<byte>)

  // ---------------------------------------------------------------- the board

  /** Bytes in frames of eight, the last one possibly shorter. */
  function Chunks(b: seq<byte>): seq<seq<byte>> {
    if b == [] then [] else if |b| <= 8 then [b] else [b[..8]] + Chunks(b[8..])
  }

  /** What the board sends for a priority and a text: the priority byte counts as the first byte. */
  function Fragments(prio: byte, text: seq<byte>): seq<seq<byte>> {
    Chunks([prio] + text)
  }

  /** `canix_syslog_P` behind the formatting: the text gets a newline and goes out frame by frame. */
  method Send(level: byte, prio: byte, s: seq<byte>) returns (sent: seq<seq<byte>>)
    requires |s| <= 125
    ensures sent == if level >= prio then Fragments(prio, s + [NEWLINE]) else []
  {
    hide Chunks;
    sent := [];
    if level >= prio {
      var text := s + [NEWLINE];
      var data := new byte[8];
      data[0] := prio;
      var used, payload := 0, 1;
      assert data[..1] + text[0..] == [prio] + text;
      while used < |text|
        invariant used <= |text| && payload == if used == 0 then 1 else 0
        invariant Chunks([prio] + text) == sent + Chunks(data[..payload] + text[used..])
        decreases |text| - used
      {
        ghost var rest := data[..payload] + text[used..];
        while payload < 8 && used < |text|
          invariant payload <= 8 && 0 <= used <= |text| && (payload > 1 ==> used > 0)
          invariant data[..payload] + text[used..] == rest
          decreases |text| - used
        {
          MoveOne(data[..payload], text, used);
          data[payload] := text[used];
          payload, used := payload + 1, used + 1;
          assert data[..payload] == data[..payload - 1] + [text[used - 1]];
        }
        ChunksStep(data[..payload], text[used..], sent);
        sent := sent + [data[..payload]];
        payload := 0;
        assert data[..0] + text[used..] == text[used..];
      }
      ChunksNone(data[..payload] + text[used..]);
    }
  }

  lemma MoveOne(a: seq<byte>, text: seq<byte>, i: nat)
    requires i < |text|
    ensures a + text[i..] == (a + [text[i]]) + text[i + 1..]
  {
  }

  lemma ChunksNone(b: seq<byte>)
    requires b == []
    ensures Chunks(b) == []
  {
  }

  lemma ChunksStep(first: seq<byte>, rest: seq<byte>, sent: seq<seq<byte>>)
    requires 0 < |first| <= 8 && (rest != [] ==> |first| == 8)
    ensures sent + Chunks(first + rest) == (sent + [first]) + Chunks(rest)
  {
    if rest == [] {
      assert first + rest == first;
    } else {
      assert (first + rest)[..8] == first && (first + rest)[8..] == rest;
      Assoc(sent, [first], Chunks(rest));
    }
  }

  // ---------------------------------------------------------------- the host, one source at a time

  datatype Entry = Entry(prio: byte, msg: seq<byte>)

  datatype Open = Closed | Pending(entry: Entry)

  /** A source's open message and the messages printed for it. */
  datatype Source = Source(open: Open, out: seq<Entry>)

  predicate Ends(s: seq<byte>) { s != [] && s[|s| - 1] == NEWLINE }

  function First(data: seq<byte>): byte { if data == [] then 0 else data[0] }

  /** A first packet only opens a message; later ones are appended and close it at a newline. */
  function Accept(s: Source, data: seq<byte>): Source {
    match s.open
    case Closed => s.(open := Pending(Entry(First(data), data)))
    case Pending(e) =>
      var e' := e.(msg := e.msg + data);
      if Ends(e'.msg) then Source(Closed, s.out + [e']) else s.(open := Pending(e'))
  }

  function AcceptAll(s: Source, datas: seq<seq<byte>>): Source
    decreases |datas|
  {
    if datas == [] then s else AcceptAll(Accept(s, datas[0]), datas[1..])
  }

  lemma {:induction false} AcceptConcat(s: Source, a: seq<seq<byte>>, b: seq<seq<byte>>)
    ensures AcceptAll(s, a + b) == AcceptAll(AcceptAll(s, a), b)
    decreases |a|
  {
    if a == [] {
      assert a + b == b;
    } else {
      assert (a + b)[1..] == a[1..] + b;
      AcceptConcat(Accept(s, a[0]), a[1..], b);
    }
  }

  /** What follows the first frame: no full frame before the last ends in a newline, the last one does. */
  predicate Tidy(rest: seq<byte>) {
    if |rest| <= 8 then Ends(rest) else rest[7] != NEWLINE && Tidy(rest[8..])
  }

  /** The texts the host gets right: more than one frame, and newlines only where they do no harm. */
  predicate Clean(text: seq<byte>) {
    |text| >= 8 && Tidy(text[7..])
  }

  /** In particular: at least eight characters and no newline but the last. */
  lemma OrdinaryTextsAreClean(text: seq<byte>)
    requires |text| >= 8 && Ends(text) && forall i :: 0 <= i < |text| - 1 ==> text[i] != NEWLINE
    ensures Clean(text)
  {
    TidyByContent(text[7..]);
  }

  lemma {:induction false} TidyByContent(rest: seq<byte>)
    requires Ends(rest) && forall i :: 0 <= i < |rest| - 1 ==> rest[i] != NEWLINE
    ensures Tidy(rest)
  {
    if |rest| > 8 {
      TidyByContent(rest[8..]);
    }
  }

  /** Output never disappears, and starts with what was printed before. */
  lemma {:induction false} OutputGrows(s: Source, datas: seq<seq<byte>>)
    ensures s.out <= AcceptAll(s, datas).out
    decreases |datas|
  {
    if datas != [] {
      OutputGrows(Accept(s, datas[0]), datas[1..]);
    }
  }

  lemma AcceptFirst(s: Source, b: seq<byte>)
    requires b != []
    ensures AcceptAll(s, Chunks(b))
            == if |b| <= 8 then Accept(s, b) else AcceptAll(Accept(s, b[..8]), Chunks(b[8..]))
  {
    if |b| <= 8 {
      assert Chunks(b)[1..] == [];
    } else {
      assert Chunks(b)[1..] == Chunks(b[8..]);
    }
  }

  /** The next message printed is shorter than n. */
  predicate TooShort(r: Source, out: seq<Entry>, n: nat) {
    |out| < |r.out| && out <= r.out && |r.out[|out|].msg| < n
  }

  /** The next message printed, if any, has another length. */
  predicate Misprints(r: Source, out: seq<Entry>, n: nat) {
    out <= r.out && (|out| < |r.out| ==> |r.out[|out|].msg| != n)
  }

  /** A full frame that ends in a newline is taken for the end of the message: it is printed too short. */
  lemma EarlyEnd(s: Source, rest: seq<byte>)
    requires s.open.Pending? && |rest| > 8 && rest[7] == NEWLINE
    ensures TooShort(AcceptAll(s, Chunks(rest)), s.out, |s.open.entry.msg + rest|)
  {
    hide Chunks, AcceptAll;
    var e, c := s.open.entry, rest[..8];
    AcceptFirst(s, rest);
    assert Accept(s, c).out == s.out + [e.(msg := e.msg + c)];
    OutputGrows(Accept(s, c), Chunks(rest[8..]));
    var r := AcceptAll(s, Chunks(rest));
    assert r.out[|s.out|] == Accept(s, c).out[|s.out|];
  }

  /**
   What the remaining bytes make of an open message: tidy ones complete it exactly; others print it too short
   or leave it open with all its bytes.
   */
  lemma {:induction false} RestReassembles(s: Source, rest: seq<byte>)
    requires s.open.Pending?
    ensures var e := s.open.entry; var whole := e.(msg := e.msg + rest); var r := AcceptAll(s, Chunks(rest));
            if Tidy(rest) then r == Source(Closed, s.out + [whole])
            else TooShort(r, s.out, |whole.msg|) || r == Source(Pending(whole), s.out)
    decreases |rest|
  {
    var e := s.open.entry;
    if rest == [] {
      assert e.msg + rest == e.msg;
    } else {
      hide Chunks, AcceptAll;
      AcceptFirst(s, rest);
      if |rest| <= 8 {
      } else if rest[7] == NEWLINE {
        EarlyEnd(s, rest);
      } else {
        var c := rest[..8];
        assert (e.msg + c) + rest[8..] == e.msg + rest;
        RestReassembles(Accept(s, c), rest[8..]);
      }
    }
  }

  /** The same for a whole message, received while none is open. */
  lemma MessageOutcome(out: seq<Entry>, prio: byte, text: seq<byte>)
    ensures var r := AcceptAll(Source(Closed, out), Fragments(prio, text)); var whole := Entry(prio, [prio] + text);
            if Clean(text) then r == Source(Closed, out + [whole])
            else TooShort(r, out, |text| + 1) || r == Source(Pending(whole), out)
  {
    var b := [prio] + text;
    if |text| <= 7 {
      OneFrameStaysOpen(out, prio, text);
    } else {
      assert b[8..] == text[7..];
      var s := Source(Pending(Entry(prio, b[..8])), out);
      assert Chunks(b)[1..] == Chunks(b[8..]);
      RestReassembles(s, b[8..]);
      assert b[..8] + b[8..] == b;
    }
  }

  /**
   The fragments of one message, received while none is open, are reassembled into exactly that message
   if and only if the text is clean.
   */
  lemma MessageReassembles(out: seq<Entry>, prio: byte, text: seq<byte>)
    ensures AcceptAll(Source(Closed, out), Fragments(prio, text))
            == Source(Closed, out + [Entry(prio, [prio] + text)])
            <==> Clean(text)
  {
    hide AcceptAll, Fragments, Clean;
    MessageOutcome(out, prio, text);
  }

  /** A text that fits into one frame is never printed by itself: its message stays open. */
  lemma OneFrameStaysOpen(out: seq<Entry>, prio: byte, text: seq<byte>)
    requires |text| <= 7
    ensures AcceptAll(Source(Closed, out), Fragments(prio, text))
            == Source(Pending(Entry(prio, [prio] + text)), out)
  {
    assert Fragments(prio, text) == [[prio] + text];
    assert Fragments(prio, text)[1..] == [];
  }

  // ---------------------------------------------------------------- a source's message sequence

  datatype Message = Message(prio: byte, text: seq<byte>)

  function StreamOf(ms: seq<Message>): seq<seq<byte>> {
    if ms == [] then [] else Fragments(ms[0].prio, ms[0].text) + StreamOf(ms[1..])
  }

  function Entries(ms: seq<Message>): seq<Entry> {
    if ms == [] then [] else [Entry(ms[0].prio, [ms[0].prio] + ms[0].text)] + Entries(ms[1..])
  }

  /** Every frame carries at least one byte. */
  predicate Filled(datas: seq<seq<byte>>) {
    forall i :: 0 <= i < |datas| ==> |datas[i]| > 0
  }

  /** An open message is printed longer than it is now, or not at all. */
  lemma {:induction false} PendingGrows(s: Source, datas: seq<seq<byte>>, n: nat)
    requires s.open.Pending? && |s.open.entry.msg| >= n && Filled(datas)
    ensures var r := AcceptAll(s, datas);
            s.out <= r.out && (|s.out| < |r.out| ==> |r.out[|s.out|].msg| > n)
    decreases |datas|
  {
    if datas != [] {
      var next := Accept(s, datas[0]);
      if next.open.Pending? {
        PendingGrows(next, datas[1..], n);
      } else {
        OutputGrows(next, datas[1..]);
        assert AcceptAll(s, datas).out[|s.out|] == next.out[|s.out|];
      }
    }
  }

  lemma {:induction false} ChunksFilled(b: seq<byte>)
    requires b != []
    ensures Filled(Chunks(b))
  {
    if |b| > 8 {
      ChunksFilled(b[8..]);
    }
  }

  lemma {:induction false} StreamFilled(ms: seq<Message>)
    ensures Filled(StreamOf(ms))
  {
    hide Chunks;
    if ms != [] {
      ChunksFilled([ms[0].prio] + ms[0].text);
      StreamFilled(ms[1..]);
    }
  }

  /** Whatever follows, a message that is not clean is printed too short, too long or not at all. */
  lemma UncleanShows(out: seq<Entry>, ms: seq<Message>)
    requires ms != [] && !Clean(ms[0].text)
    ensures Misprints(AcceptAll(Source(Closed, out), StreamOf(ms)), out, |ms[0].text| + 1)
  {
    hide Fragments, Clean, AcceptAll;
    var m, rest := ms[0], StreamOf(ms[1..]);
    var s := AcceptAll(Source(Closed, out), Fragments(m.prio, m.text));
    AcceptConcat(Source(Closed, out), Fragments(m.prio, m.text), rest);
    MessageOutcome(out, m.prio, m.text);
    if s.open.Pending? && s.out == out {
      StreamFilled(ms[1..]);
      PendingGrows(s, rest, |m.text| + 1);
    } else {
      OutputGrows(s, rest);
      assert AcceptAll(s, rest).out[|out|] == s.out[|out|];
    }
  }

  /** A source's stream is printed as exactly its messages, with nothing left open, if and only if all are clean. */
  lemma {:induction false} StreamReassembles(out: seq<Entry>, ms: seq<Message>)
    ensures AcceptAll(Source(Closed, out), StreamOf(ms)) == Source(Closed, out + Entries(ms))
            <==> forall m <- ms :: Clean(m.text)
    decreases |ms|
  {
    hide Fragments, Clean;
    if ms != [] {
      var m := ms[0];
      var e := Entry(m.prio, [m.prio] + m.text);
      assert ms == [m] + ms[1..];
      Assoc(out, [e], Entries(ms[1..]));
      if Clean(m.text) {
        AcceptConcat(Source(Closed, out), Fragments(m.prio, m.text), StreamOf(ms[1..]));
        MessageOutcome(out, m.prio, m.text);
        StreamReassembles(out + [e], ms[1..]);
      } else {
        UncleanShows(out, ms);
        assert (out + Entries(ms))[|out|] == e;
      }
    }
  }

  // ---------------------------------------------------------------- all sources together

  datatype Printed = Printed(src: nat, entry: Entry)

  datatype Host = Host(messages: map<nat, Entry>, printed: seq<Printed>)

  predicate IsSyslog(f: Frame) { f.proto == PROTO_SYSLOG && f.dst == MULTICAST_SYSLOG }

  /** One received frame. */
  function Step(h: Host, f: Frame): Host {
    if !IsSyslog(f) then h
    else if f.src in h.messages then
      var e := h.messages[f.src];
      var e' := e.(msg := e.msg + f.data);
      if Ends(e'.msg) then Host(h.messages - {f.src}, h.printed + [Printed(f.src, e')])
      else h.(messages := h.messages[f.src := e'])
    else h.(messages := h.messages[f.src := Entry(First(f.data), f.data)])
  }

  function Run(h: Host, fs: seq<Frame>): Host
    decreases |fs|
  {
    if fs == [] then h else Run(Step(h, fs[0]), fs[1..])
  }

  function PrintedFor(ps: seq<Printed>, src: nat): seq<Entry> {
    if ps == [] then []
    else PrintedFor(ps[..|ps| - 1], src) + if ps[|ps| - 1].src == src then [ps[|ps| - 1].entry] else []
  }

  /** The host's view of one source. */
  function View(h: Host, src: nat): Source {
    Source(if src in h.messages then Pending(h.messages[src]) else Closed, PrintedFor(h.printed, src))
  }

  /** The payloads of a source's syslog frames, in bus order. */
  function Received(fs: seq<Frame>, src: nat): seq<seq<byte>> {
    if fs == [] then []
    else (if IsSyslog(fs[0]) && fs[0].src == src then [fs[0].data] else []) + Received(fs[1..], src)
  }

  lemma StepView(h: Host, f: Frame, src: nat)
    ensures View(Step(h, f), src)
            == if IsSyslog(f) && f.src == src then Accept(View(h, src), f.data) else View(h, src)
  {
    if IsSyslog(f) && f.src in h.messages {
      var e := h.messages[f.src];
      var p := Printed(f.src, e.(msg := e.msg + f.data));
      assert (h.printed + [p])[..|h.printed|] == h.printed;
    }
  }

  /** Sources do not disturb each other: each one's view depends on its own frames only. */
  lemma {:induction false} RunView(h: Host, fs: seq<Frame>, src: nat)
    ensures View(Run(h, fs), src) == AcceptAll(View(h, src), Received(fs, src))
    decreases |fs|
  {
    hide Step, View, Accept;
    if fs != [] {
      var f := fs[0];
      RunView(Step(h, f), fs[1..], src);
      StepView(h, f, src);
      if IsSyslog(f) && f.src == src {
        assert Received(fs, src)[1..] == Received(fs[1..], src);
      } else {
        assert Received(fs, src) == Received(fs[1..], src);
      }
    }
  }

  /**
   However the frames of all sources interleave on the bus, the host prints for a source exactly its messages,
   in order, each as the priority byte followed by the text, and keeps nothing open, if and only if all of that
   source's texts are clean.
   */
  lemma InterleavedStreamsReassemble(fs: seq<Frame>, src: nat, ms: seq<Message>)
    requires Received(fs, src) == StreamOf(ms)
    ensures View(Run(Host(map[], []), fs), src) == Source(Closed, Entries(ms)) <==> forall m <- ms :: Clean(m.text)
  {
    hide Clean, AcceptAll, Run, StreamOf;
    RunView(Host(map[], []), fs, src);
    assert [] + Entries(ms) == Entries(ms);
    StreamReassembles([], ms);
  }

  /** Frames of another protocol or to another address are no concern of the receiver. */
  lemma OnlySyslogFrames(h: Host, f: Frame)
    requires f.proto != 3 || f.dst != 970
    ensures Step(h, f) == h
  {
  }

  /** And those to it are: each one opens, extends or closes a message of its source. */
  lemma SyslogFramesCount(h: Host, f: Frame)
    requires f.proto == 3 && f.dst == 970 && f.data != []
    ensures Step(h, f) != h
  {
    if f.src in h.messages {
      var e := h.messages[f.src];
      assert |e.msg + f.data| > |e.msg|;
      if Ends(e.msg + f.data) {
        assert f.src !in Step(h, f).messages;
      } else {
        assert Step(h, f).messages[f.src].msg == e.msg + f.data;
      }
    } else {
      assert f.src in Step(h, f).messages;
    }
  }

  class Receiver {
    var messages: map<nat, Entry>
    var printed: seq<Printed>

    constructor ()
      ensures messages == map[] && printed == []
    {
      messages, printed := map[], [];
    }

    ghost function State(): Host
      reads this
    {
      Host(messages, printed)
    }

    /** The body of the receive loop of `transport_connection::syslog`. */
    method Receive(f: Frame)
      modifies this
      ensures State() == Step(old(State()), f)
    {
      if f.proto == PROTO_SYSLOG && f.dst == MULTICAST_SYSLOG {
        if f.src in messages {
          var e := messages[f.src];
          messages := messages[f.src := e.(msg := e.msg + f.data)];
          var s := messages[f.src].msg;
          if s != [] && s[|s| - 1] == NEWLINE {
            printed := printed + [Printed(f.src, messages[f.src])];
            messages := messages - {f.src};
          }
        } else {
          messages := messages[f.src := Entry(First(f.data), f.data)];
        }
      }
    }

    /** A whole session. */
    method Listen(fs: seq<Frame>)
      modifies this
      ensures State() == Run(old(State()), fs)
    {
      ghost var goal := Run(State(), fs);
      for i := 0 to |fs|
        invariant Run(State(), fs[i..]) == goal
      {
        assert fs[i..][1..] == fs[i + 1..];
        Receive(fs[i]);
      }
    }
  }
}
