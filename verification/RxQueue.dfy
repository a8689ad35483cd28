/**
 The receive queue between the timer interrupt and the main loop: twelve slots with a used flag, filled
 at the first free slot and emptied at the first used one.
 */
module RxQueue {
  import opened Bytes

  const QUEUE_SIZE := 12
  /** The statistics counters are 32 bits wide. */
  const COUNTER := 0x1_0000_0000

  datatype FrameData = FrameData(extended: nat, data: seq<byte>)

  type Frame = f: FrameData | |f.data| <= 8 witness FrameData(0, [])

  /** A slot keeps eight data bytes; those behind `size` are left from earlier frames. */
  datatype SlotData = SlotData(used: bool, extended: nat, size: nat, data: seq<byte>)

  type Slot = s: SlotData | |s.data| == 8 && s.size <= 8 witness SlotData(false, 0, 0, [0, 0, 0, 0, 0, 0, 0, 0])

  function Content(s: Slot): Frame {
    FrameData(s.extended, s.data[..s.size])
  }

  function Share(s: Slot): multiset<Frame> {
    if s.used then multiset{Content(s)} else multiset{}
  }

  /** The frames waiting in the queue. */
  function Queued(slots: seq<Slot>): multiset<Frame>
  {
    if slots == [] then multiset{}
    else Queued(slots[..|slots| - 1]) + Share(slots[|slots| - 1])
  }

  lemma Exchange(a: multiset<Frame>, b: multiset<Frame>, c: multiset<Frame>, d: multiset<Frame>, l: multiset<Frame>)
    requires a + c == b + d
    ensures (a + l) + c == (b + l) + d
  {
    assert (a + l) + c == (a + c) + l;
    assert (b + l) + d == (b + d) + l;
  }

  /** Replacing one slot exchanges its share of the waiting frames. */
  lemma {:induction false} QueuedUpdate(slots: seq<Slot>, i: nat, s: Slot)
    requires i < |slots|
    ensures Queued(slots[i := s]) + Share(slots[i]) == Queued(slots) + Share(s)
  {
    hide Share;
    var n := |slots| - 1;
    var p := slots[..n];
    if i == n {
      assert slots[i := s][..n] == p;
    } else {
      QueuedUpdate(p, i, s);
      assert slots[i := s][..n] == p[i := s];
      Exchange(Queued(p[i := s]), Queued(p), Share(slots[i]), Share(s), Share(slots[n]));
    }
  }

  lemma {:induction false} QueuedMember(slots: seq<Slot>, i: nat)
    requires i < |slots| && slots[i].used
    ensures Content(slots[i]) in Queued(slots)
  {
    var n := |slots| - 1;
    if i < n {
      QueuedMember(slots[..n], i);
    }
  }

  lemma {:induction false} QueuedBound(slots: seq<Slot>, i: nat)
    ensures |Queued(slots)| <= |slots|
    ensures i < |slots| && !slots[i].used ==> |Queued(slots)| < |slots|
  {
    if slots != [] {
      var n := |slots| - 1;
      QueuedBound(slots[..n], i);
    }
  }

  lemma {:induction false} QueuedAll(slots: seq<Slot>, used: bool)
    requires forall j :: 0 <= j < |slots| ==> slots[j].used == used
    ensures |Queued(slots)| == if used then |slots| else 0
  {
    if slots != [] {
      QueuedAll(slots[..|slots| - 1], used);
    }
  }

  /** The count of used slots is the number of waiting frames; it reaches the length only when all are used. */
  lemma QueuedCount(slots: seq<Slot>)
    ensures |Queued(slots)| <= |slots|
    ensures |Queued(slots)| == |slots| <==> forall j :: 0 <= j < |slots| ==> slots[j].used
    ensures |Queued(slots)| == 0 <==> forall j :: 0 <= j < |slots| ==> !slots[j].used
  {
    hide Queued;
    QueuedBound(slots, 0);
    if j :| 0 <= j < |slots| && slots[j].used {
      QueuedMember(slots, j);
    } else {
      QueuedAll(slots, false);
    }
    if j :| 0 <= j < |slots| && !slots[j].used {
      QueuedBound(slots, j);
    } else {
      QueuedAll(slots, true);
    }
  }

  /** The first slot whose used flag equals `used`; 0 when there is none. */
  function First(slots: seq<Slot>, used: bool): (i: nat)
    ensures slots != [] ==> i < |slots|
    ensures (exists j :: 0 <= j < |slots| && slots[j].used == used) ==> i < |slots| && slots[i].used == used
  {
    FirstFrom(slots, used, 0)
  }

  function FirstFrom(slots: seq<Slot>, used: bool, k: nat): (i: nat)
    requires k <= |slots|
    ensures slots != [] ==> i < |slots|
    ensures (exists j :: k <= j < |slots| && slots[j].used == used) ==> i < |slots| && slots[i].used == used
    decreases |slots| - k
  {
    if k == |slots| then 0 else if slots[k].used == used then k else FirstFrom(slots, used, k + 1)
  }

  /** It is the lowest such slot. */
  lemma {:induction false} FirstIsLowest(slots: seq<Slot>, used: bool, k: nat)
    requires k <= |slots|
    ensures var i := FirstFrom(slots, used, k);
            && (forall j :: k <= j < i && j < |slots| ==> slots[j].used != used)
            && ((forall j :: k <= j < |slots| ==> slots[j].used != used) ==> i == 0)
    decreases |slots| - k
  {
    if k < |slots| && slots[k].used != used {
      FirstIsLowest(slots, used, k + 1);
    }
  }

  // ---------------------------------------------------------------- steps on values

  /** The slot after a frame was stored over it. */
  function Stored(s: Slot, f: Frame): (r: Slot)
    ensures r.used && Content(r) == f
  {
    SlotData(true, f.extended, |f.data|, f.data + s.data[|f.data|..])
  }

  predicate Full(slots: seq<Slot>)
  {
    |Queued(slots)| >= |slots|
  }

  /** The receive branch of the interrupt. */
  function Receive(slots: seq<Slot>, f: Frame): (r: seq<Slot>)
    requires slots != []
    ensures |r| == |slots|
  {
    if Full(slots) then slots else
      var i := First(slots, false);
      slots[i := Stored(slots[i], f)]
  }

  datatype Result = Nothing | Got(frame: Frame)

  function Peek(slots: seq<Slot>): Result
    requires slots != []
  {
    if |Queued(slots)| == 0 then Nothing else Got(Content(slots[First(slots, true)]))
  }

  /** A read of the main loop empties the slot it returns. */
  function Take(slots: seq<Slot>): (r: seq<Slot>)
    requires slots != []
    ensures |r| == |slots|
  {
    if |Queued(slots)| == 0 then slots else
      var i := First(slots, true);
      slots[i := slots[i].(used := false)]
  }

  lemma ReceiveAdds(slots: seq<Slot>, f: Frame)
    requires slots != []
    ensures Full(slots) <==> forall j :: 0 <= j < |slots| ==> slots[j].used
    ensures Queued(Receive(slots, f)) == if Full(slots) then Queued(slots) else Queued(slots) + multiset{f}
  {
    QueuedCount(slots);
    if !Full(slots) {
      var i := First(slots, false);
      QueuedUpdate(slots, i, Stored(slots[i], f));
    }
  }

  /** A read returns nothing exactly when nothing waits; otherwise it removes one waiting frame. */
  lemma TakeRemoves(slots: seq<Slot>)
    requires slots != []
    ensures Peek(slots) == Nothing <==> Queued(slots) == multiset{}
    ensures Peek(slots).Got? ==>
              Peek(slots).frame in Queued(slots)
              && Queued(Take(slots)) + multiset{Peek(slots).frame} == Queued(slots)
  {
    QueuedCount(slots);
    if |Queued(slots)| != 0 {
      var i := First(slots, true);
      QueuedMember(slots, i);
      QueuedUpdate(slots, i, slots[i].(used := false));
    }
  }

  // ---------------------------------------------------------------- runs

  datatype Event = Interrupt(frame: Frame) | Read

  datatype Trace = Trace(slots: seq<Slot>, delivered: seq<Frame>, accepted: seq<Frame>, lost: seq<Frame>)

  /** Any interleaving of interrupts and reads. */
  function Run(slots: seq<Slot>, es: seq<Event>): (t: Trace)
    requires slots != []
    ensures |t.slots| == |slots|
    decreases |es|
  {
    if es == [] then Trace(slots, [], [], [])
    else match es[0]
         case Interrupt(f) =>
           var t := Run(Receive(slots, f), es[1..]);
           if Full(slots) then t.(lost := [f] + t.lost) else t.(accepted := [f] + t.accepted)
         case Read =>
           var t := Run(Take(slots), es[1..]);
           match Peek(slots)
           case Nothing => t
           case Got(f) => t.(delivered := [f] + t.delivered)
  }

  /** Under every interleaving, what was delivered and what still waits is what waited before or was accepted. */
  lemma {:induction false} RunConserves(slots: seq<Slot>, es: seq<Event>)
    requires slots != []
    ensures var t := Run(slots, es);
            multiset(t.delivered) + Queued(t.slots) == Queued(slots) + multiset(t.accepted)
    decreases |es|
  {
    hide Queued, Take, Receive, Peek;
    if es != [] {
      match es[0]
      case Interrupt(f) =>
        ReceiveAdds(slots, f);
        RunConserves(Receive(slots, f), es[1..]);
        var t := Run(Receive(slots, f), es[1..]);
        Prepend(f, t.accepted);
        Shuffle(multiset{f}, Queued(slots), multiset(t.accepted));
      case Read =>
        TakeRemoves(slots);
        TakeNothing(slots);
        RunConserves(Take(slots), es[1..]);
        if Peek(slots).Got? {
          var f, t := Peek(slots).frame, Run(Take(slots), es[1..]);
          Prepend(f, t.delivered);
          Shuffle(multiset{f}, multiset(t.delivered), Queued(t.slots));
          Shuffle(multiset{f}, Queued(Take(slots)), multiset(t.accepted));
        }
    }
  }

  lemma Shuffle(f: multiset<Frame>, a: multiset<Frame>, b: multiset<Frame>)
    ensures (f + a) + b == (a + b) + f == (a + f) + b
  {
  }

  lemma Prepend(f: Frame, s: seq<Frame>)
    ensures multiset([f] + s) == multiset{f} + multiset(s)
  {
  }

  lemma TakeNothing(slots: seq<Slot>)
    requires slots != []
    ensures Peek(slots) == Nothing ==> Take(slots) == slots
  {
  }

  /** Every frame that arrived was either accepted or counted as lost. */
  lemma {:induction false} RunAccounts(slots: seq<Slot>, es: seq<Event>)
    requires slots != []
    ensures var t := Run(slots, es); multiset(t.accepted) + multiset(t.lost) == multiset(Arrivals(es))
    decreases |es|
  {
    hide Queued, Take, Receive, Peek, Full;
    if es != [] {
      match es[0]
      case Interrupt(f) => RunAccounts(Receive(slots, f), es[1..]);
      case Read => RunAccounts(Take(slots), es[1..]);
    }
  }

  function Arrivals(es: seq<Event>): seq<Frame> {
    if es == [] then []
    else match es[0]
         case Interrupt(f) => [f] + Arrivals(es[1..])
         case Read => Arrivals(es[1..])
  }

  /**
   Once a frame was seen to be available, the next read returns a frame that really waits, however many
   interrupts come in between.
   */
  lemma {:induction false} AvailableHolds(slots: seq<Slot>, es: seq<Event>)
    requires slots != [] && forall e <- es :: e.Interrupt?
    requires Queued(slots) != multiset{}
    ensures var t := Run(slots, es);
            t.delivered == [] && Peek(t.slots).Got? && Peek(t.slots).frame in Queued(t.slots)
    decreases |es|
  {
    hide Queued, Take, Receive, Peek;
    if es == [] {
      TakeRemoves(slots);
    } else {
      assert es[0].Interrupt?;
      ReceiveAdds(slots, es[0].frame);
      AvailableHolds(Receive(slots, es[0].frame), es[1..]);
    }
  }

  // ---------------------------------------------------------------- the driver

  class Driver {
    const slots: array<Slot>
    var received: nat
    var lost: nat

    ghost predicate Valid() {
      slots.Length == QUEUE_SIZE
    }

    constructor ()
      ensures Valid() && fresh(slots) && Queued(slots[..]) == multiset{} && received == 0 && lost == 0
    {
      slots := new Slot[QUEUE_SIZE](_ => SlotData(false, 0, 0, [0, 0, 0, 0, 0, 0, 0, 0]));
      received, lost := 0, 0;
      new;
      QueuedCount(slots[..]);
    }

    /** `canix_rxq_size`. */
    method Size() returns (c: nat)
      requires Valid()
      ensures c == |Queued(slots[..])|
    {
      c := 0;
      for i := 0 to slots.Length
        invariant c == |Queued(slots[..i])|
      {
        assert slots[..i + 1][..i] == slots[..i];
        if slots[i].used { c := c + 1; }
      }
      assert slots[..] == slots[..slots.Length];
    }

    /** `canix_rxq_fetch_one` (used) and `canix_rxq_put_one` (not used). */
    method FindSlot(used: bool) returns (idx: nat)
      requires Valid()
      ensures idx == First(slots[..], used)
    {
      for i := 0 to slots.Length
        invariant First(slots[..], used) == FirstFrom(slots[..], used, i)
      {
        if slots[i].used == used { return i; }
      }
      return 0;
    }

    /** The receive branch of the timer interrupt. */
    method Interrupt(f: Frame)
      requires Valid()
      modifies this`received, this`lost, slots
      ensures Valid() && slots[..] == Receive(old(slots[..]), f)
      ensures if old(Full(slots[..])) then lost == (old(lost) + 1) % COUNTER && received == old(received)
              else received == (old(received) + 1) % COUNTER && lost == old(lost)
    {
      hide Queued;
      var n := Size();
      if n < QUEUE_SIZE {
        var idx := FindSlot(false);
        var data := slots[idx].data;
        ghost var stale := data;
        for i := 0 to |f.data|
          invariant data == f.data[..i] + stale[i..]
        {
          data := data[i := f.data[i]];
        }
        slots[idx] := SlotData(true, f.extended, |f.data|, data);
        received := (received + 1) % COUNTER;
        assert data == f.data + stale[|f.data|..];
        assert slots[..] == Receive(old(slots[..]), f);
      } else {
        lost := (lost + 1) % COUNTER;
      }
    }

    /** `can_message_available`, with interrupts disabled. */
    method Available() returns (b: bool)
      requires Valid()
      ensures b == (Queued(slots[..]) != multiset{})
    {
      hide Queued;
      var n := Size();
      b := n > 0;
    }

    /** `can_read_message`, with interrupts disabled. */
    method Read() returns (r: Result)
      requires Valid()
      modifies slots
      ensures Valid() && slots[..] == Take(old(slots[..])) && r == Peek(old(slots[..]))
    {
      hide Queued;
      r := Nothing;
      var n := Size();
      if n > 0 {
        var idx := FindSlot(true);
        var s := slots[idx];
        var data: seq<byte> := [];
        for i := 0 to s.size
          invariant data == s.data[..i]
        {
          data := data + [s.data[i]];
        }
        r := Got(FrameData(s.extended, data));
        slots[idx] := s.(used := false);
        assert slots[..] == Take(old(slots[..]));
      }
    }
  }
}
