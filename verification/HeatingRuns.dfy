/**
 What the commands of the heating controller lead to: runs from any state, a command, and enough seconds
 for the mode switch to be entered.
 */
module HeatingRuns {
  import opened Bytes
  import opened Heating
  import opened HeatingPwm

  /** Ticks until the mode switch is entered the next time. */
  function Need(h: Heater): nat {
    if h.timer >= 5 then 1 else 6 - h.timer
  }

  /** No further mode command, and no window opens. */
  predicate Quiet(c: Config, es: seq<Event>) {
    forall e <- es :: !ModeCommand(c, e) && !(e.WindowOpen? && e.group in c.reeds)
  }

  /** A tick: counters and PWM, then every sixth time the mode switch; the demand counter aside. */
  lemma TickIs(c: Config, h: Heater, now: Clock)
    ensures var h1 := Count(c, h, now); var r := Tick(c, h, now).heater;
            r == (if h1.timer < 5 then h1.(timer := h1.timer + 1) else Control(c, h1.(timer := 0), now)).(demand := r.demand)
  {
    hide Count, Control;
  }

  lemma CountFacts(c: Config, h: Heater, now: Clock)
    ensures var r := Count(c, h, now); var n := (h.pwmCounter + 1) % 0x1_0000;
            && r.timer == h.timer && r.interval == (if h.interval >= 254 then 255 else h.interval + 1)
            && r.measure == h.measure && r.setPoint == h.setPoint && r.manualRate == h.manualRate
            && r.stop == (if h.stop > 0 then h.stop - 1 else 0)
            && r.pwmEnd == (if r.stop > 0 then c.period else h.pwmEnd)
            && r.pwmWidth == (if r.stop > 0 then 0 else h.pwmWidth)
            && r.pwmCounter == (if n >= h.pwmEnd then 0 else n)
            && r.pin == (r.pwmCounter < h.pwmWidth && (n >= h.pwmEnd || h.pin))
            && r.mode == (if h.duration == 1 then Automatic else h.mode)
            && r.duration == (if h.duration > 0 then h.duration - 1 else 0)
            && r.care == if h.mode == Off && h.care <= 1 && now.careTime then 600
                         else if h.care > 0 then h.care - 1 else 0
  {
    hide Prepare, HandlePwm, Expire;
    PrepareIs(h, now);
    PulseIs(Prepare(h, now));
    ExpireIs(c, HandlePwm(Prepare(h, now)));
  }

  lemma PrepareIs(h: Heater, now: Clock)
    ensures Prepare(h, now) == h.(care := if h.mode == Off && h.care <= 1 && now.careTime then 600
                                          else if h.care > 0 then h.care - 1 else 0,
                                  interval := if h.interval >= 254 then 255 else h.interval + 1)
  {
  }

  lemma PulseIs(h: Heater)
    ensures var n := (h.pwmCounter + 1) % 0x1_0000; var k := if n >= h.pwmEnd then 0 else n;
            HandlePwm(h) == h.(pwmCounter := k, pin := k < h.pwmWidth && (n >= h.pwmEnd || h.pin))
  {
  }

  lemma ExpireIs(c: Config, h: Heater)
    ensures var stop := if h.stop > 0 then h.stop - 1 else 0;
            Expire(c, h) == h.(duration := if h.duration > 0 then h.duration - 1 else 0,
                               mode := if h.duration == 1 then Automatic else h.mode, stop := stop,
                               pwmEnd := if stop > 0 then c.period else h.pwmEnd,
                               pwmWidth := if stop > 0 then 0 else h.pwmWidth)
  {
  }

  lemma ControlFacts(c: Config, h: Heater, now: Clock)
    ensures var r := Control(c, h, now);
            && r.timer == h.timer && r.interval == h.interval && r.measure == h.measure && r.setPoint == h.setPoint
            && r.stop == h.stop && r.pwmCounter == h.pwmCounter && r.care == h.care
            && r.mode == h.mode && r.duration == h.duration && (r.pwmEnd == h.pwmEnd || r.pwmEnd == c.period)
  {
    hide SetPwm, SetPwmByTemp;
    SetPwmFacts(c, h, h.manualRate);
    SetPwmFacts(c, h, 0);
    SetPwmFacts(c, h.(manualRate := 0), 0);
    SetPwmFacts(c, h.(manualRate := 0), 100);
    ByTempFacts(c, h, h.setPoint, h.measure);
    var i := MatchingZone(c.zones, now.zones);
    if i < |c.zones| { ByTempFacts(c, h, c.zones[i].temp, h.measure); }
  }

  lemma SetPwmFacts(c: Config, h: Heater, rate: byte)
    ensures var r := SetPwm(c, h, rate); r == h.(pwmEnd := c.period, pwmWidth := r.pwmWidth)
  {
  }

  lemma ByTempFacts(c: Config, h: Heater, soll: int, ist: int)
    ensures var r := SetPwmByTemp(c, h, soll, ist);
            r == h.(pwmEnd := r.pwmEnd, pwmWidth := r.pwmWidth, demand := r.demand)
            && (r.pwmEnd == h.pwmEnd || r.pwmEnd == c.period)
  {
    hide SetPwm, GetPwm;
    SetPwmFacts(c, h, 0);
    SetPwmFacts(c, h, 100);
  }

  /** What every tick does to timer, age of the measurement, and the numbers it compares. */
  lemma TickCounters(c: Config, h: Heater, now: Clock)
    ensures var r := Tick(c, h, now).heater;
            && r.timer == (if h.timer < 5 then h.timer + 1 else 0)
            && r.interval == (if h.interval >= 254 then 255 else h.interval + 1)
            && r.measure == h.measure && r.setPoint == h.setPoint
            && (h.stop == 0 ==> r.stop == 0)
            && (h.timer < 5 && h.stop == 0 ==> r.pwmWidth == h.pwmWidth && r.pwmEnd == h.pwmEnd)
            && (h.pwmEnd <= c.period ==> r.pwmEnd <= c.period)
            && (h.pwmEnd <= c.period && c.period >= 1 ==> r.pwmCounter < c.period)
  {
    hide Tick, Count, Control;
    TickIs(c, h, now);
    CountFacts(c, h, now);
    ControlFacts(c, Count(c, h, now).(timer := 0), now);
  }

  /** No run leads to a period longer than the configured one. */
  lemma {:induction false} EndBounded(c: Config, h: Heater, es: seq<Event>)
    requires h.pwmEnd <= c.period
    ensures Run(c, h, es).pwmEnd <= c.period
    decreases |es|
  {
    hide Tick;
    if es != [] {
      if es[0].Second? { TickCounters(c, h, es[0].now); }
      EndBounded(c, Next(c, h, es[0]), es[1..]);
    }
  }

  /** Frames for another heater, sensor or window change nothing. */
  lemma ForeignIgnored(c: Config, h: Heater, e: Event)
    requires match e
             case Second(_) => false
             case Temperature(s, _) => s != c.sensor
             case WindowOpen(g) => g !in c.reeds
             case SetOff(i) => i != c.id
             case SetManual(i, _, _) => i != c.id
             case SetThermostat(i, _, _) => i != c.id
             case SetAutomatic(i) => i != c.id
    ensures Next(c, h, e) == h
  {
  }

  // ---------------------------------------------------------------- manual mode

  predicate Settled(c: Config, h: Heater, r: byte) {
    h.pwmEnd == c.period && h.pwmWidth == c.period as int * r / 100
  }

  lemma ManualTick(c: Config, h: Heater, now: Clock)
    requires h.mode == Manual && h.stop == 0 && h.duration != 1
    ensures var r := Tick(c, h, now).heater;
            && r.mode == Manual && r.manualRate == h.manualRate && r.stop == 0
            && r.duration == (if h.duration > 0 then h.duration - 1 else 0)
            && (h.timer >= 5 || Settled(c, h, h.manualRate) ==> Settled(c, r, h.manualRate))
  {
    hide Tick, Count;
    TickIs(c, h, now);
    CountFacts(c, h, now);
  }

  lemma {:induction false} ManualRun(c: Config, h: Heater, es: seq<Event>)
    requires h.mode == Manual && h.stop == 0 && (h.duration == 0 || h.duration > Ticks(es)) && Quiet(c, es)
    requires Settled(c, h, h.manualRate) || Ticks(es) >= Need(h)
    ensures var r := Run(c, h, es);
            && r.mode == Manual && r.manualRate == h.manualRate && r.stop == 0
            && r.duration == (if h.duration == 0 then 0 else h.duration - Ticks(es))
            && Settled(c, r, h.manualRate)
            && (h.pwmEnd <= c.period && c.period >= 1 && (Ticks(es) > 0 || h.pwmCounter < c.period) ==>
                  r.pwmCounter < c.period)
    decreases |es|
  {
    hide Tick, Settled;
    if es != [] {
      assert es[0] in es;
      if es[0].Second? {
        ManualTick(c, h, es[0].now);
        TickCounters(c, h, es[0].now);
      } else {
        SettledByCallback(c, h, es[0]);
      }
      ManualRun(c, Next(c, h, es[0]), es[1..]);
    }
  }

  lemma SettledByCallback(c: Config, h: Heater, e: Event)
    requires !e.Second?
    ensures Settled(c, Callback(c, h, e), h.manualRate) == Settled(c, h, h.manualRate)
  {
  }

  /**
   From every state without window stop: six seconds after the command for manual mode the pulse width is that of
   the rate commanded, and stays so; without a time limit the heater is then steady.
   */
  lemma ManualTakesEffect(c: Config, h: Heater, r: byte, d: nat, es: seq<Event>)
    requires h.stop == 0 && c.period >= 1 && r <= 100 && Quiet(c, es)
    requires Ticks(es) >= 6 && (d == 0 || d > Ticks(es))
    ensures var g := Run(c, h, [SetManual(c.id, r, d)] + es);
            && g.mode == Manual && g.pwmEnd == c.period && g.pwmWidth == c.period as int * r / 100
            && (d == 0 && h.pwmEnd <= c.period ==> Steady(c, g) && g.manualRate == r)
  {
    hide Tick, Next;
    var h1 := h.(mode := Manual, manualRate := r, duration := d);
    assert Next(c, h, SetManual(c.id, r, d)) == h1 by { CommandIs(c, h, r, d); }
    assert ([SetManual(c.id, r, d)] + es)[1..] == es;
    ManualRun(c, h1, es);
  }

  lemma CommandIs(c: Config, h: Heater, r: byte, d: nat)
    ensures Next(c, h, SetManual(c.id, r, d)) == h.(mode := Manual, manualRate := r, duration := d)
  {
  }

  /** So the command itself decides how long the valve is open in every later period. */
  lemma ManualDuty(c: Config, h: Heater, r: byte, es: seq<Event>, nows: seq<Clock>, n: nat)
    requires h.stop == 0 && c.period >= 1 && r <= 100 && h.pwmEnd <= c.period && Quiet(c, es) && Ticks(es) >= 6
    requires Run(c, h, [SetManual(c.id, r, 0)] + es).pwmCounter + 1 == c.period && |nows| == n * c.period
    ensures OnTicks(c, Run(c, h, [SetManual(c.id, r, 0)] + es), nows) == n * (c.period as int * r / 100)
  {
    hide Run, Steady, OnTicks;
    ManualTakesEffect(c, h, r, 0, es);
    DutyCycle(c, Run(c, h, [SetManual(c.id, r, 0)] + es), nows, n);
  }

  // ---------------------------------------------------------------- off and valve care

  /** The clock never reads the time for valve care. */
  predicate NoCare(es: seq<Event>) {
    forall e <- es :: e.Second? ==> !e.now.careTime
  }

  predicate NoModeCommand(c: Config, es: seq<Event>) {
    forall e <- es :: !ModeCommand(c, e)
  }

  lemma OffTick(c: Config, h: Heater, now: Clock)
    requires h.mode == Off && h.duration != 1 && h.care == 0 && !now.careTime
    ensures var r := Tick(c, h, now).heater;
            && r.mode == Off && r.care == 0 && r.duration == (if h.duration > 0 then h.duration - 1 else 0)
            && (h.timer >= 5 || (h.pwmWidth == 0 && !h.pin) ==> r.pwmWidth == 0 && !r.pin)
  {
    hide Tick, Count, Width;
    TickIs(c, h, now);
    CountFacts(c, h, now);
    FullAndZero(c.period);
  }

  lemma {:induction false} OffRun(c: Config, h: Heater, es: seq<Event>)
    requires h.mode == Off && h.care == 0 && (h.duration == 0 || h.duration > Ticks(es))
    requires NoModeCommand(c, es) && NoCare(es)
    requires (h.pwmWidth == 0 && !h.pin) || Ticks(es) >= Need(h)
    ensures var r := Run(c, h, es); r.mode == Off && r.pwmWidth == 0 && !r.pin
    decreases |es|
  {
    hide Tick;
    if es != [] {
      assert es[0] in es;
      if es[0].Second? {
        OffTick(c, h, es[0].now);
        TickCounters(c, h, es[0].now);
      }
      OffRun(c, Next(c, h, es[0]), es[1..]);
    }
  }

  /** Six seconds after switching off, and from then on, the valve is shut, if no valve care is due. */
  lemma OffTakesEffect(c: Config, h: Heater, es: seq<Event>)
    requires h.care == 0 && (h.duration == 0 || h.duration > Ticks(es)) && Ticks(es) >= 6
    requires NoModeCommand(c, es) && NoCare(es)
    ensures var r := Run(c, h, [SetOff(c.id)] + es); r.mode == Off && r.pwmWidth == 0 && !r.pin
  {
    hide Tick;
    assert ([SetOff(c.id)] + es)[1..] == es;
    OffRun(c, h.(mode := Off), es);
  }

  lemma CareTick(c: Config, h: Heater, now: Clock)
    requires h.mode == Off && h.duration == 0
    ensures var r := Tick(c, h, now).heater;
            && r.mode == Off && r.duration == 0
            && (h.care <= 1 ==> r.care == if now.careTime then 600 else 0)
            && (h.care > 1 ==> r.care == h.care - 1)
            && (h.stop == 0 && c.period >= 1 && r.care > 0 && h.timer >= 5 ==> CareOpen(c, r))
            && (h.stop == 0 && c.period >= 1 && r.care > 0 && CareOpen(c, h) ==> CareOpen(c, r))
  {
    hide Tick, Count, Width;
    TickIs(c, h, now);
    CountFacts(c, h, now);
    FullAndZero(c.period);
  }

  /** The valve is held open. */
  predicate CareOpen(c: Config, h: Heater) {
    h.pin && h.pwmEnd == c.period && h.pwmWidth == c.period
  }

  lemma {:induction false} CareRun(c: Config, h: Heater, es: seq<Event>)
    requires h.mode == Off && h.duration == 0 && h.stop == 0 && c.period >= 1 && Quiet(c, es)
    requires h.care > Ticks(es) && (CareOpen(c, h) || Ticks(es) >= Need(h))
    ensures var r := Run(c, h, es); r.care == h.care - Ticks(es) && CareOpen(c, r)
    decreases |es|
  {
    hide Tick;
    if es != [] {
      assert es[0] in es;
      if es[0].Second? {
        CareTick(c, h, es[0].now);
        TickCounters(c, h, es[0].now);
      }
      CareRun(c, Next(c, h, es[0]), es[1..]);
    }
  }

  /** Valve care: from at most six seconds after its time on the valve of a heater that is off is open, for 600 seconds. */
  lemma CareTakesEffect(c: Config, h: Heater, now: Clock, es: seq<Event>)
    requires h.mode == Off && h.duration == 0 && h.stop == 0 && h.care == 0 && c.period >= 1 && now.careTime
    requires Quiet(c, es) && 6 <= Ticks(es) < 600
    ensures var r := Run(c, h, [Second(now)] + es); r.pin && r.care == 600 - Ticks(es)
  {
    hide Tick;
    assert ([Second(now)] + es)[1..] == es;
    CareTick(c, h, now);
    TickCounters(c, h, now);
    CareRun(c, Tick(c, h, now).heater, es);
  }

  // ---------------------------------------------------------------- thermostat and automatic mode

  /** The measured value lies outside the band, on the side where the valve is to be open or closed. */
  predicate Calls(c: Config, mode: Mode, setPoint: int, now: Clock, v: int, open: bool) {
    match mode
    case Thermostat => if open then v < setPoint - c.hysteresis else v > setPoint + c.hysteresis
    case Automatic =>
      var i := MatchingZone(c.zones, now.zones);
      if i == |c.zones| then !open
      else if open then v < c.zones[i].temp - c.hysteresis
      else v > c.zones[i].temp + c.hysteresis
    case _ => false
  }

  /** Regulated by temperature, without window stop, the valve fully open or closed. */
  predicate Regulated(c: Config, h: Heater) {
    && (h.mode == Automatic || (h.mode == Thermostat && h.duration == 0)) && h.stop == 0
    && c.period > 0 && h.pwmEnd == c.period && (h.pwmWidth == 0 || h.pwmWidth == c.period)
  }

  /** The valve is where it is called for. */
  predicate Placed(c: Config, h: Heater, open: bool) {
    h.pwmWidth == if open then c.period else 0
  }

  lemma RegulatedTick(c: Config, h: Heater, now: Clock, open: bool)
    requires Regulated(c, h) && (h.interval < 254 ==> Calls(c, h.mode, h.setPoint, now, h.measure, open))
    ensures var r := Tick(c, h, now).heater;
            && Regulated(c, r) && r.mode == h.mode
            && (Placed(c, h, open) || (h.timer >= 5 && h.interval < 254) ==> Placed(c, r, open))
            && (h.interval >= 254 ==> r.pwmWidth == h.pwmWidth)
  {
    hide Report, Width, RateOf, SetPwmByTemp;
    var h1 := Count(c, h, now);
    var h2 := h1.(timer := 0);
    CountStops(c, h, now);
    assert h1.interval == if h.interval >= 254 then 255 else h.interval + 1;
    hide Count;
    FullAndZero(c.period);
    TwoPointKeeps(c, h2, h2.setPoint, h2.measure);
    var i := MatchingZone(c.zones, now.zones);
    if i < |c.zones| {
      TwoPointKeeps(c, h2, c.zones[i].temp, h2.measure);
    }
    if h1.timer < 5 { ReportKeeps(c, h1.(timer := h1.timer + 1)); }
    ReportKeeps(c, Control(c, h2, now));
  }

  lemma TwoPointKeeps(c: Config, h: Heater, soll: int, ist: int)
    requires h.mode != Off && h.stop == 0 && c.period > 0 && h.pwmEnd == c.period
    requires h.pwmWidth == 0 || h.pwmWidth == h.pwmEnd
    ensures var r := SetPwmByTemp(c, h, soll, ist);
            && r.pwmWidth == (if ist < soll - c.hysteresis then c.period
                              else if ist > soll + c.hysteresis then 0 else h.pwmWidth)
            && r.mode == h.mode && r.duration == h.duration && r.stop == 0 && r.pwmEnd == c.period
  {
    hide Width, RateOf;
    TwoPoint(c, h, soll, ist);
  }

  /** All values measured in the run call for the same place of the valve, at every reading of the clock. */
  predicate AllCall(c: Config, mode: Mode, setPoint: int, es: seq<Event>, v: int, open: bool)
    decreases |es|
  {
    es == [] ||
    match es[0]
    case Second(now) => Calls(c, mode, setPoint, now, v, open) && AllCall(c, mode, setPoint, es[1..], v, open)
    case Temperature(s, w) => AllCall(c, mode, setPoint, es[1..], if s == c.sensor then w else v, open)
    case _ => AllCall(c, mode, setPoint, es[1..], v, open)
  }

  lemma {:induction false} RegulatedRun(c: Config, h: Heater, es: seq<Event>, open: bool)
    requires Regulated(c, h) && Quiet(c, es) && AllCall(c, h.mode, h.setPoint, es, h.measure, open)
    requires Placed(c, h, open) || (Ticks(es) >= Need(h) && h.interval + Need(h) <= 254)
    ensures var r := Run(c, h, es); Regulated(c, r) && Placed(c, r, open)
    decreases |es|
  {
    hide Tick, Calls;
    if es != [] {
      assert es[0] in es;
      if es[0].Second? {
        RegulatedTick(c, h, es[0].now, open);
        TickCounters(c, h, es[0].now);
      }
      RegulatedRun(c, Next(c, h, es[0]), es[1..], open);
    }
  }

  /** The mode a command asks for, and its set point. */
  predicate Asks(c: Config, e: Event, mode: Mode, setPoint: int) {
    (mode == Thermostat && e == SetThermostat(c.id, setPoint, 0)) || (mode == Automatic && e == SetAutomatic(c.id))
  }

  /**
   From every state with the valve fully open or closed: six seconds after a command for thermostat or automatic
   mode and a frame from the right sensor the valve is where the value calls for it, and stays there while the
   values do; a missing time zone calls for a closed valve.
   */
  lemma RegulationTakesEffect(c: Config, h: Heater, command: Event, mode: Mode, setPoint: int, v: int, es: seq<Event>,
                              open: bool)
    requires Asks(c, command, mode, setPoint) && h.stop == 0 && Quiet(c, es) && Ticks(es) >= 6
    requires c.period > 0 && h.pwmEnd == c.period && (h.pwmWidth == 0 || h.pwmWidth == c.period)
    requires AllCall(c, mode, if mode == Thermostat then setPoint else h.setPoint, es, v, open)
    ensures Run(c, h, [command, Temperature(c.sensor, v)] + es).pwmWidth == if open then c.period else 0
  {
    hide Tick, Calls;
    var all := [command, Temperature(c.sensor, v)] + es;
    assert all[1..] == [Temperature(c.sensor, v)] + es && all[1..][1..] == es;
    var h1 := Next(c, h, command);
    var h2 := Next(c, h1, Temperature(c.sensor, v));
    assert Run(c, h, all) == Run(c, h2, es);
    RegulatedRun(c, h2, es, open);
  }

  /** Without a fresh value for 254 seconds nothing moves. */
  lemma StaleTickKeeps(c: Config, h: Heater, now: Clock)
    requires Regulated(c, h) && h.interval >= 254
    ensures Tick(c, h, now).heater.pwmWidth == h.pwmWidth
  {
    hide Tick;
    RegulatedTick(c, h, now, true);
  }

  // ---------------------------------------------------------------- heat demand

  /** What a heat-demand message says: the rate in percent, doubled for the feature bit, in one byte. */
  lemma DemandCarriesRate(c: Config, h: Heater, now: Clock)
    ensures var t := Tick(c, h, now); var w, e := t.heater.pwmWidth, t.heater.pwmEnd;
            t.demand.Sent? ==>
              && h.demand == 0 && t.heater.demand == 60
              && t.demand.rate == (if t.heater.mode == Off then 0
                                   else if e == 0 then (if c.double then c.zeroRate as int * 2 % 256 else c.zeroRate)
                                   else if c.double then (w * 100 / e % 256) * 2 % 256
                                   else w * 100 / e % 256)
    ensures h.demand == 0 && !OpeningTick(c, h, now) && h.mode != Off && h.duration == 0 ==> Tick(c, h, now).demand.Sent?
    ensures h.mode == Off && h.duration != 1 && h.timer >= 5 ==>
              Tick(c, h, now).demand == Silent && Tick(c, h, now).heater.demand == h.demand
  {
    hide Count, Control;
    CountStops(c, h, now);
    ControlDemand(c, Count(c, h, now).(timer := 0), now);
  }

  lemma ControlDemand(c: Config, h: Heater, now: Clock)
    ensures Control(c, h, now).mode == h.mode
    ensures Control(c, h, now).demand != h.demand ==>
              && Control(c, h, now).demand == 210 && h.interval < 255
              && match h.mode
                 case Thermostat => Opens(c, h, h.setPoint, h.measure)
                 case Automatic =>
                   var i := MatchingZone(c.zones, now.zones);
                   i < |c.zones| && Opens(c, h, c.zones[i].temp, h.measure)
                 case _ => false
  {
    hide Width, RateOf;
  }

  /** The rates sent in a run of seconds. */
  function Messages(c: Config, h: Heater, nows: seq<Clock>): seq<byte>
    decreases |nows|
  {
    if nows == [] then []
    else
      var t := Tick(c, h, nows[0]);
      (if t.demand.Sent? then [t.demand.rate] else []) + Messages(c, t.heater, nows[1..])
  }

  lemma SteadyDemand(c: Config, h: Heater, now: Clock)
    requires Steady(c, h)
    ensures var t := Tick(c, h, now);
            if h.demand == 0 then t.demand == Sent(SteadyRate(c, h)) && t.heater.demand == 60
            else t.demand == Silent && t.heater.demand == h.demand - 1
  {
    hide Count, Width;
    CountFacts(c, h, now);
    CountStops(c, h, now);
  }

  /** The rate of a steady heater as its messages give it. */
  function SteadyRate(c: Config, h: Heater): byte
    requires h.pwmEnd > 0
  {
    if c.double then (h.pwmWidth * 100 / h.pwmEnd % 256) * 2 % 256 else h.pwmWidth * 100 / h.pwmEnd % 256
  }

  /** A steady heater sends its rate, once in 61 seconds. */
  lemma {:induction false} SteadyMessages(c: Config, h: Heater, nows: seq<Clock>)
    requires Steady(c, h) && h.demand <= 60 && |nows| <= 61
    ensures Messages(c, h, nows) == if h.demand < |nows| then [SteadyRate(c, h)] else []
    decreases |nows|
  {
    hide Tick;
    if nows != [] {
      SteadyTick(c, h, nows[0]);
      SteadyDemand(c, h, nows[0]);
      SteadyMessages(c, Tick(c, h, nows[0]).heater, nows[1..]);
    }
  }
}
