/**
 The bus daemon hcand: a table of UDP peers with a time-out, refreshed by every received packet and aged
 by an alarm each second; frames are passed on to all other peers.
 */
module Hcand {

  /** Seconds a peer may be silent. */
  const TIMEOUT := 60

  /** A socket address; address 0 marks a free slot. */
  datatype Addr = Addr(ip: nat, port: nat)

  datatype Peer = Peer(addr: Addr, timeout: nat)

  predicate Live(p: Peer) { p.addr.ip != 0 }

  // ---------------------------------------------------------------- steps on values

  /** The slot of an address, or the table size. */
  function Find(ps: seq<Peer>, a: Addr): (i: nat)
    ensures i <= |ps| && (i < |ps| ==> ps[i].addr == a)
    ensures forall j :: 0 <= j < i ==> ps[j].addr != a
  {
    if ps == [] then 0 else if ps[0].addr == a then 0 else 1 + Find(ps[1..], a)
  }

  /** The first free slot, or the table size. */
  function FirstFree(ps: seq<Peer>): (i: nat)
    ensures i <= |ps| && (i < |ps| ==> !Live(ps[i]))
    ensures forall j :: 0 <= j < i ==> Live(ps[j])
  {
    if ps == [] then 0 else if !Live(ps[0]) then 0 else 1 + FirstFree(ps[1..])
  }

  /** Where a packet from a is booked: the peer's slot, else a free one, else nowhere. */
  function SlotFor(ps: seq<Peer>, a: Addr): (i: nat)
    ensures i <= |ps|
  {
    if Find(ps, a) < |ps| then Find(ps, a) else FirstFree(ps)
  }

  /** The table after a packet from a. */
  function Heard(ps: seq<Peer>, a: Addr): (r: seq<Peer>)
    ensures |r| == |ps|
  {
    var i := SlotFor(ps, a);
    if i < |ps| then ps[i := Peer(a, 0)] else ps
  }

  /** All live peers but a, in slot order. */
  function Others(ps: seq<Peer>, a: Addr): seq<Addr> {
    if ps == [] then []
    else Others(ps[..|ps| - 1], a)
         + if Live(ps[|ps| - 1]) && ps[|ps| - 1].addr != a then [ps[|ps| - 1].addr] else []
  }

  /** Where a packet from a with this frame id is sent. */
  function Forwarded(ps: seq<Peer>, a: Addr, id: nat): seq<Addr> {
    if SlotFor(ps, a) == |ps| || id == 0 then [] else Others(Heard(ps, a), a)
  }

  function Age(p: Peer): Peer {
    if !Live(p) then p
    else if p.timeout + 1 > TIMEOUT then Peer(p.addr.(ip := 0), 0)
    else p.(timeout := p.timeout + 1)
  }

  /** The alarm handler. */
  function Alarm(ps: seq<Peer>): (r: seq<Peer>)
    ensures |r| == |ps|
  {
    seq(|ps|, i requires 0 <= i < |ps| => Age(ps[i]))
  }

  datatype Event = Packet(from: Addr, id: nat) | Second

  function Next(ps: seq<Peer>, e: Event): (r: seq<Peer>)
    ensures |r| == |ps|
  {
    match e
    case Packet(a, _) => Heard(ps, a)
    case Second => Alarm(ps)
  }

  function Run(ps: seq<Peer>, es: seq<Event>): (r: seq<Peer>)
    ensures |r| == |ps|
    decreases |es|
  {
    if es == [] then ps else Run(Next(ps, es[0]), es[1..])
  }

  /** Packets come from real addresses. */
  predicate Genuine(es: seq<Event>) {
    forall e <- es :: e.Packet? ==> e.from.ip != 0
  }

  // ---------------------------------------------------------------- no address twice

  predicate Distinct(ps: seq<Peer>) {
    forall i, j :: 0 <= i < j < |ps| && Live(ps[i]) && Live(ps[j]) ==> ps[i].addr != ps[j].addr
  }

  lemma NextDistinct(ps: seq<Peer>, e: Event)
    requires Distinct(ps) && (e.Packet? ==> e.from.ip != 0)
    ensures Distinct(Next(ps, e))
  {
  }

  /** In every run no address holds two live slots. */
  lemma {:induction false} RunDistinct(ps: seq<Peer>, es: seq<Event>)
    requires Distinct(ps) && Genuine(es)
    ensures Distinct(Run(ps, es))
    decreases |es|
  {
    hide Next, Distinct;
    if es != [] {
      assert es[0] in es;
      NextDistinct(ps, es[0]);
      RunDistinct(Next(ps, es[0]), es[1..]);
    }
  }

  // ---------------------------------------------------------------- forwarding

  predicate IsLive(ps: seq<Peer>, a: Addr) {
    exists i :: 0 <= i < |ps| && Live(ps[i]) && ps[i].addr == a
  }

  lemma {:induction false} OthersMembers(ps: seq<Peer>, a: Addr, b: Addr)
    ensures b in Others(ps, a) <==> b != a && IsLive(ps, b)
  {
    if ps != [] {
      var n := |ps| - 1;
      OthersMembers(ps[..n], a, b);
      assert IsLive(ps, b) <==> IsLive(ps[..n], b) || (Live(ps[n]) && ps[n].addr == b) by {
        if i :| 0 <= i < n && Live(ps[i]) && ps[i].addr == b {
          assert ps[..n][i] == ps[i];
        }
      }
    }
  }

  lemma {:induction false} OthersOnce(ps: seq<Peer>, a: Addr)
    requires Distinct(ps)
    ensures forall i, j :: 0 <= i < j < |Others(ps, a)| ==> Others(ps, a)[i] != Others(ps, a)[j]
  {
    if ps != [] {
      var n := |ps| - 1;
      OthersOnce(ps[..n], a);
      if Live(ps[n]) && ps[n].addr != a {
        OthersMembers(ps[..n], a, ps[n].addr);
      }
    }
  }

  /**
   In every run, an accepted packet with a frame id goes exactly once to every other live peer and
   never to its sender; it is accepted unless all slots are taken by others. A packet with id 0 goes to nobody.
   */
  lemma ForwardsToAllOthers(ps: seq<Peer>, es: seq<Event>, a: Addr, id: nat)
    requires Distinct(ps) && Genuine(es) && a.ip != 0
    ensures var now := Run(ps, es); var to := Forwarded(now, a, id);
            && (id == 0 ==> to == [])
            && (SlotFor(now, a) == |now| ==> to == [] && !IsLive(now, a) && forall i :: 0 <= i < |now| ==> Live(now[i]))
            && (SlotFor(now, a) < |now| && id != 0 ==>
                  && (forall b :: b in to <==> b != a && IsLive(now, b))
                  && (forall i, j :: 0 <= i < j < |to| ==> to[i] != to[j]))
  {
    RunDistinct(ps, es);
    var now := Run(ps, es);
    hide Run, Others;
    if SlotFor(now, a) < |now| {
      var after := Heard(now, a);
      NextDistinct(now, Packet(a, id));
      OthersOnce(after, a);
      forall b ensures b in Others(after, a) <==> b != a && IsLive(now, b) {
        OthersMembers(after, a, b);
        if b != a { HeardKeepsOthers(now, a, b); }
      }
    }
  }

  /** The sender of a packet, known or new, is live after it with age 0, unless all slots are taken by others. */
  lemma SenderIsLive(ps: seq<Peer>, a: Addr, id: nat)
    requires Distinct(ps) && a.ip != 0
    ensures if !IsLive(ps, a) && forall i :: 0 <= i < |ps| ==> ps[i].addr.ip != 0 then Next(ps, Packet(a, id)) == ps
            else exists i :: 0 <= i < |ps| && Next(ps, Packet(a, id))[i] == Peer(a, 0)
  {
    var i := SlotFor(ps, a);
    if i < |ps| {
      assert Next(ps, Packet(a, id))[i] == Peer(a, 0);
    }
  }

  lemma HeardKeepsOthers(ps: seq<Peer>, a: Addr, b: Addr)
    requires a.ip != 0 && a != b
    ensures IsLive(Heard(ps, a), b) <==> IsLive(ps, b)
  {
    var i := SlotFor(ps, a);
    if i < |ps| {
      if j :| 0 <= j < |ps| && Live(ps[j]) && ps[j].addr == b {
        assert Heard(ps, a)[j] == ps[j];
      }
    }
  }

  // ---------------------------------------------------------------- expiry

  function Seconds(es: seq<Event>): nat {
    if es == [] then 0 else (if es[0].Second? then 1 else 0) + Seconds(es[1..])
  }

  predicate From(e: Event, a: Addr) { e.Packet? && e.from == a }

  /** One event that is not a packet from the peer in slot i. */
  lemma OtherEvent(ps: seq<Peer>, e: Event, i: nat)
    requires Distinct(ps) && i < |ps| && Live(ps[i]) && !From(e, ps[i].addr) && (e.Packet? ==> e.from.ip != 0)
    ensures Next(ps, e)[i] == if e.Second? then Age(ps[i]) else ps[i]
    ensures e.Second? && ps[i].timeout >= 60 ==> !IsLive(Next(ps, e), ps[i].addr)
  {
  }

  lemma {:induction false} GoneStaysGone(ps: seq<Peer>, es: seq<Event>, a: Addr)
    requires !IsLive(ps, a) && forall e <- es :: !From(e, a)
    ensures !IsLive(Run(ps, es), a)
    decreases |es|
  {
    if es != [] {
      assert es[0] in es;
      assert !IsLive(Next(ps, es[0]), a);
      GoneStaysGone(Next(ps, es[0]), es[1..], a);
    }
  }

  /**
   A peer that stays silent keeps its slot while its age in seconds is at most 60, and is gone from the
   61st second on, whatever the other peers do.
   */
  lemma {:induction false} SilentPeerExpires(ps: seq<Peer>, es: seq<Event>, i: nat)
    requires Distinct(ps) && Genuine(es) && i < |ps| && Live(ps[i]) && ps[i].timeout <= 60
    requires forall e <- es :: !From(e, ps[i].addr)
    ensures var age := ps[i].timeout + Seconds(es);
            if age <= 60 then Run(ps, es)[i] == Peer(ps[i].addr, age)
            else !IsLive(Run(ps, es), ps[i].addr)
    decreases |es|
  {
    hide Next, Distinct, IsLive;
    if es != [] {
      var e := es[0];
      assert e in es;
      OtherEvent(ps, e, i);
      NextDistinct(ps, e);
      if e.Second? && ps[i].timeout == 60 {
        GoneStaysGone(Next(ps, e), es[1..], ps[i].addr);
      } else {
        SilentPeerExpires(Next(ps, e), es[1..], i);
      }
    }
  }

  /** At most 60 seconds pass between packets from a; `gap` passed since the last. */
  predicate HeardOften(es: seq<Event>, a: Addr, gap: nat)
    decreases |es|
  {
    es == [] || match es[0]
                case Second => gap < 60 && HeardOften(es[1..], a, gap + 1)
                case Packet(b, _) => HeardOften(es[1..], a, if b == a then 0 else gap)
  }

  lemma OwnPacket(ps: seq<Peer>, id: nat, i: nat)
    requires Distinct(ps) && i < |ps| && Live(ps[i])
    ensures Next(ps, Packet(ps[i].addr, id))[i] == Peer(ps[i].addr, 0)
  {
    assert Find(ps, ps[i].addr) == i;
  }

  /** A peer heard from at least every 60 seconds is never dropped and keeps its slot. */
  lemma {:induction false} HeardPeerStays(ps: seq<Peer>, es: seq<Event>, i: nat)
    requires Distinct(ps) && Genuine(es) && i < |ps| && Live(ps[i])
    requires HeardOften(es, ps[i].addr, ps[i].timeout)
    ensures Run(ps, es)[i].addr == ps[i].addr
    decreases |es|
  {
    hide Next, Distinct, IsLive;
    if es != [] {
      var e := es[0];
      assert e in es;
      if From(e, ps[i].addr) { OwnPacket(ps, e.id, i); } else { OtherEvent(ps, e, i); }
      NextDistinct(ps, e);
      HeardPeerStays(Next(ps, e), es[1..], i);
    }
  }

  // ---------------------------------------------------------------- the daemon

  class Daemon {
    const addrs: array<Addr>
    const timeouts: array<nat>

    ghost predicate Valid() {
      addrs.Length == timeouts.Length && addrs as object != timeouts
    }

    ghost function Table(): (ps: seq<Peer>)
      requires Valid()
      reads addrs, timeouts
      ensures |ps| == addrs.Length
    {
      seq(addrs.Length, i requires 0 <= i < addrs.Length reads addrs, timeouts => Peer(addrs[i], timeouts[i]))
    }

    constructor (maxPeers: nat)
      ensures Valid() && fresh(addrs) && fresh(timeouts) && |Table()| == maxPeers
      ensures Distinct(Table()) && forall p <- Table() :: p == Peer(Addr(0, 0), TIMEOUT)
    {
      addrs := new Addr[maxPeers](_ => Addr(0, 0));
      timeouts := new nat[maxPeers](_ => TIMEOUT);
    }

    /** `does_peer_exist`; the table size stands for -1. */
    method DoesPeerExist(a: Addr) returns (i: nat)
      requires Valid()
      ensures i == Find(Table(), a)
    {
      i := 0;
      while i < addrs.Length
        invariant i <= addrs.Length && Find(Table(), a) == i + Find(Table()[i..], a)
      {
        assert Table()[i..][1..] == Table()[i + 1..];
        if addrs[i] == a { return i; }
        i := i + 1;
      }
    }

    /** `add_peer`. */
    method AddPeer(a: Addr) returns (i: nat)
      requires Valid()
      modifies addrs
      ensures i == FirstFree(old(Table()))
      ensures addrs[..] == if i < addrs.Length then old(addrs[..])[i := a] else old(addrs[..])
    {
      i := 0;
      while i < addrs.Length
        invariant i <= addrs.Length && FirstFree(Table()) == i + FirstFree(Table()[i..])
        invariant addrs[..] == old(addrs[..]) && Table() == old(Table())
      {
        assert Table()[i..][1..] == Table()[i + 1..];
        if addrs[i].ip == 0 {
          addrs[i] := a;
          return i;
        }
        i := i + 1;
      }
    }

    /** `sig_alarm`. */
    method SigAlarm()
      requires Valid()
      modifies addrs, timeouts
      ensures Table() == Alarm(old(Table()))
    {
      ghost var ps := Table();
      for i := 0 to addrs.Length
        invariant forall j :: 0 <= j < addrs.Length ==>
                    Peer(addrs[j], timeouts[j]) == if j < i then Age(ps[j]) else ps[j]
      {
        if addrs[i].ip != 0 {
          timeouts[i] := timeouts[i] + 1;
          if timeouts[i] > TIMEOUT {
            timeouts[i] := 0;
            addrs[i] := addrs[i].(ip := 0);
          }
        }
      }
    }

    /** The sending loop. */
    method Forward(a: Addr) returns (sent: seq<Addr>)
      requires Valid()
      ensures sent == Others(Table(), a)
    {
      sent := [];
      for k := 0 to addrs.Length
        invariant sent == Others(Table()[..k], a)
      {
        assert Table()[..k + 1][..k] == Table()[..k];
        if addrs[k].ip != 0 && addrs[k] != a {
          sent := sent + [addrs[k]];
        }
      }
      assert Table()[..addrs.Length] == Table();
    }

    /** One turn of the receive loop. */
    method HandlePacket(a: Addr, id: nat) returns (sent: seq<Addr>)
      requires Valid()
      modifies addrs, timeouts
      ensures Table() == Heard(old(Table()), a)
      ensures sent == Forwarded(old(Table()), a, id)
    {
      ghost var ps := Table();
      sent := [];
      var i := DoesPeerExist(a);
      if i == addrs.Length {
        i := AddPeer(a);
      }
      if i < addrs.Length {
        timeouts[i] := 0;
        assert Table() == Heard(ps, a);
        if id == 0 { return; }
        sent := Forward(a);
      } else {
        assert Table() == ps;
      }
    }
  }
}
