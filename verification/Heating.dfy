/**
 The heating controller of one radiator: a timed state machine with pulse-width modulation of the valve,
 a two-point controller with hysteresis, a stop while a window is open, and heat-demand messages.
 */
module Heating {
  import opened Bytes

  datatype Mode = Off | Manual | Thermostat | Automatic

  datatype ZoneLine = ZoneLine(id: byte, temp: int)

  /** The EDS configuration; `zeroRate` is what the processor makes of a division by zero. */
  datatype Config = Config(id: byte, period: byte, sensor: byte, zones: seq<ZoneLine>, double: bool,
                           hysteresis: byte, reeds: seq<byte>, zeroRate: byte)

  /** The device data and the output pin. */
  datatype Heater = Heater(mode: Mode, manualRate: byte, timer: byte, pwmCounter: nat, pwmWidth: nat, pwmEnd: nat,
                           demand: byte, interval: byte, measure: int, duration: nat, setPoint: int,
                           stop: byte, care: nat, pin: bool)

  /** What the clock says: the time for valve care, and the time zones that match now. */
  datatype Clock = Clock(careTime: bool, zones: set<byte>)

  datatype Demand = Silent | Sent(rate: byte)

  datatype Ticked = Ticked(heater: Heater, demand: Demand)

  // ---------------------------------------------------------------- the parts of a tick

  /** `heizung_update_heizstop`. */
  function UpdateStop(c: Config, h: Heater): Heater {
    if h.stop > 0 then h.(pwmEnd := c.period, pwmWidth := 0) else h
  }

  /** `heizung_set_pwm`. */
  function SetPwm(c: Config, h: Heater, rate: byte): Heater {
    if h.stop > 0 then UpdateStop(c, h)
    else h.(pwmEnd := c.period, pwmWidth := Width(c.period, rate))
  }

  /** The pulse width of a rate in percent. */
  function Width(period: byte, rate: byte): nat {
    period as int * rate / 100
  }

  /** The rate of a pulse width, truncated to a byte. */
  function RateOf(width: nat, end: nat): byte
    requires end > 0
  {
    width * 100 / end % 256
  }

  /** `heizung_get_pwm`. */
  function GetPwm(c: Config, h: Heater): byte {
    if h.mode == Off then 0
    else if h.pwmEnd == 0 then c.zeroRate
    else RateOf(h.pwmWidth, h.pwmEnd)
  }

  /** `heizung_handle_pwm`. */
  function HandlePwm(h: Heater): Heater {
    var n := (h.pwmCounter + 1) % 0x1_0000;
    var h1 := if n >= h.pwmEnd then h.(pwmCounter := 0, pin := true) else h.(pwmCounter := n);
    if h1.pwmCounter >= h1.pwmWidth then h1.(pin := false) else h1
  }

  /** The two-point controller closes the valve. */
  predicate Closes(c: Config, h: Heater, soll: int, ist: int) {
    GetPwm(c, h) > 0 && ist > soll + c.hysteresis
  }

  /** The two-point controller opens the valve. */
  predicate Opens(c: Config, h: Heater, soll: int, ist: int) {
    GetPwm(c, h) == 0 && ist < soll - c.hysteresis
  }

  /** `heizung_set_pwm_by_temp`. */
  function SetPwmByTemp(c: Config, h: Heater, soll: int, ist: int): Heater {
    if Closes(c, h, soll, ist) then SetPwm(c, h, 0)
    else if Opens(c, h, soll, ist) then SetPwm(c, h, 100).(demand := 210)
    else h
  }

  /** The first zone line whose time zone matches. */
  function MatchingZone(zones: seq<ZoneLine>, now: set<byte>): (i: nat)
    ensures i <= |zones| && (i < |zones| ==> zones[i].id in now)
    ensures forall j :: 0 <= j < i ==> zones[j].id !in now
  {
    if zones == [] then 0 else if zones[0].id in now then 0 else 1 + MatchingZone(zones[1..], now)
  }

  /** `heizung_check_ventilpflege` and the age of the measured value. */
  function Prepare(h: Heater, now: Clock): Heater {
    var h1 := h.(care := if h.care > 0 then h.care - 1 else 0);
    var h2 := if h1.mode == Off && h1.care == 0 && now.careTime then h1.(care := 600) else h1;
    h2.(interval := if h2.interval == 255 then 255 else h2.interval + 1)
  }

  /** A limited mode runs out into automatic mode; the window stop runs down. */
  function Expire(c: Config, h: Heater): Heater {
    var h1 := if h.duration == 0 then h
              else h.(duration := h.duration - 1, mode := if h.duration == 1 then Automatic else h.mode);
    UpdateStop(c, h1.(stop := if h1.stop > 0 then h1.stop - 1 else 0))
  }

  /** Counters and PWM: everything before the mode switch. */
  function Count(c: Config, h: Heater, now: Clock): Heater {
    Expire(c, HandlePwm(Prepare(h, now)))
  }

  /** The mode switch, entered every sixth tick. */
  function Control(c: Config, h: Heater, now: Clock): Heater {
    match h.mode
    case Off =>
      var h1 := h.(manualRate := 0);
      if h.care > 0 then SetPwm(c, h1, 100).(pin := true) else SetPwm(c, h1, 0).(pin := false)
    case Manual => SetPwm(c, h, h.manualRate)
    case Automatic =>
      if h.interval == 255 then h
      else
        var i := MatchingZone(c.zones, now.zones);
        if i < |c.zones| then SetPwmByTemp(c, h, c.zones[i].temp, h.measure) else SetPwm(c, h, 0)
    case Thermostat => if h.interval == 255 then h else SetPwmByTemp(c, h, h.setPoint, h.measure)
  }

  /** The heat-demand message, every 61st tick. */
  function Report(c: Config, h: Heater): Ticked {
    if h.demand == 0 then
      var rate := GetPwm(c, h);
      Ticked(h.(demand := 60), Sent(if c.double then rate * 2 % 256 else rate))
    else Ticked(h.(demand := h.demand - 1), Silent)
  }

  /** `heizung_timer_handler`. In mode OFF the switch returns before the heat-demand message. */
  function Tick(c: Config, h: Heater, now: Clock): Ticked {
    var h1 := Count(c, h, now);
    if h1.timer < 5 then Report(c, h1.(timer := h1.timer + 1))
    else
      var h2 := Control(c, h1.(timer := 0), now);
      if h1.mode == Off then Ticked(h2, Silent) else Report(c, h2)
  }

  // ---------------------------------------------------------------- messages

  datatype Event =
    | Second(now: Clock)
    | Temperature(sensor: byte, value: int)
    | SetOff(id: byte)
    | SetManual(id: byte, rate: byte, duration: nat)
    | SetThermostat(id: byte, temp: int, duration: nat)
    | SetAutomatic(id: byte)
    | WindowOpen(group: byte)

  /** The state-changing part of `heizung_can_callback`. */
  function Callback(c: Config, h: Heater, e: Event): Heater
    requires !e.Second?
  {
    match e
    case Temperature(s, v) => if s == c.sensor then h.(measure := v, interval := 0) else h
    case SetOff(i) => if i == c.id then h.(mode := Off) else h
    case SetManual(i, r, d) => if i == c.id then h.(mode := Manual, manualRate := r, duration := d) else h
    case SetThermostat(i, t, d) => if i == c.id then h.(mode := Thermostat, setPoint := t, duration := d) else h
    case SetAutomatic(i) => if i == c.id then h.(mode := Automatic) else h
    case WindowOpen(g) => if g in c.reeds then h.(stop := 60) else h
  }

  function Next(c: Config, h: Heater, e: Event): Heater {
    if e.Second? then Tick(c, h, e.now).heater else Callback(c, h, e)
  }

  function Run(c: Config, h: Heater, es: seq<Event>): Heater
    decreases |es|
  {
    if es == [] then h else Run(c, Next(c, h, es[0]), es[1..])
  }

  // ---------------------------------------------------------------- window stop

  lemma CountStops(c: Config, h: Heater, now: Clock)
    ensures var r := Count(c, h, now);
            && r.stop == (if h.stop > 0 then h.stop - 1 else 0) && (r.stop > 0 ==> r.pwmWidth == 0)
            && r.timer == h.timer && r.demand == h.demand && r.measure == h.measure && r.setPoint == h.setPoint
            && r.manualRate == h.manualRate && (r.stop == 0 ==> r.pwmWidth == h.pwmWidth && r.pwmEnd == h.pwmEnd)
            && r.mode == (if h.duration == 1 then Automatic else h.mode)
            && r.duration == (if h.duration > 0 then h.duration - 1 else 0)
  {
    hide Width, RateOf;
  }

  lemma ControlKeeps(c: Config, h: Heater, now: Clock)
    ensures var r := Control(c, h, now);
            && r.stop == h.stop && (h.stop > 0 && h.pwmWidth == 0 ==> r.pwmWidth == 0)
            && r.mode == h.mode && r.duration == h.duration && (r.demand == h.demand || r.demand == 210)
  {
    hide Width, RateOf;
  }

  lemma ReportKeeps(c: Config, h: Heater)
    ensures Report(c, h).heater == h.(demand := Report(c, h).heater.demand)
  {
  }

  /** After every tick that leaves the window stop active the pulse width is 0, in every mode. */
  lemma StopClosesValve(c: Config, h: Heater, now: Clock)
    ensures Tick(c, h, now).heater.stop == if h.stop > 0 then h.stop - 1 else 0
    ensures Tick(c, h, now).heater.stop > 0 ==> Tick(c, h, now).heater.pwmWidth == 0
  {
    hide Count, Control, Report;
    var h1 := Count(c, h, now);
    CountStops(c, h, now);
    ControlKeeps(c, h1.(timer := 0), now);
    if h1.timer < 5 { ReportKeeps(c, h1.(timer := h1.timer + 1)); }
    ReportKeeps(c, Control(c, h1.(timer := 0), now));
  }

  /** The one branch that raises the pin in spite of a window stop: valve care in mode OFF. */
  predicate CareOpens(c: Config, h: Heater, now: Clock) {
    var h1 := Count(c, h, now);
    h1.timer >= 5 && h1.mode == Off && h1.care > 0
  }

  /** With width 0 the pin is high after a tick exactly when valve care raised it. */
  lemma ZeroWidthKeepsPinLow(c: Config, h: Heater, now: Clock)
    requires h.pwmWidth == 0
    ensures Tick(c, h, now).heater.pin <==> CareOpens(c, h, now)
  {
    hide Width, RateOf;
  }

  /** Window-open frames for this radiator come at most 59 ticks apart; `gap` ticks passed since the last. */
  predicate Covered(c: Config, es: seq<Event>, gap: nat)
    decreases |es|
  {
    es == [] || ((es[0].Second? ==> gap < 59) && Covered(c, es[1..], Gap(c, es[0], gap)))
  }

  /** Ticks since the last window-open frame, after the event. */
  function Gap(c: Config, e: Event, gap: nat): nat {
    match e
    case Second(_) => gap + 1
    case WindowOpen(g) => if g in c.reeds then 0 else gap
    case _ => gap
  }

  /** After every tick of the run, the first one excepted unless `settled`, the pin is high exactly by valve care. */
  predicate StaysShut(c: Config, h: Heater, es: seq<Event>, settled: bool)
    decreases |es|
  {
    es == [] ||
    (var r := Next(c, h, es[0]);
     && (es[0].Second? && settled ==> (r.pin <==> CareOpens(c, h, es[0].now)))
     && StaysShut(c, r, es[1..], settled || es[0].Second?))
  }

  /**
   While a window stays open the valve is shut from the second tick on, whatever mode commands,
   measurements and clock readings arrive.
   */
  lemma {:induction false} OpenWindowShutsValve(c: Config, h: Heater, es: seq<Event>, gap: nat, settled: bool)
    requires h.stop == 60 - gap && Covered(c, es, gap) && (settled ==> h.pwmWidth == 0)
    ensures StaysShut(c, h, es, settled)
    decreases |es|
  {
    hide Tick, CareOpens;
    if es != [] {
      var e := es[0];
      if e.Second? {
        StopClosesValve(c, h, e.now);
        if settled { ZeroWidthKeepsPinLow(c, h, e.now); }
      }
      OpenWindowShutsValve(c, Next(c, h, e), es[1..], Gap(c, e, gap), settled || e.Second?);
    }
  }

  // ---------------------------------------------------------------- hysteresis

  /** Thermostat mode without time limit and without window stop, valve fully open or fully closed. */
  predicate Regulating(c: Config, h: Heater, soll: int) {
    && h.mode == Thermostat && h.duration == 0 && h.stop == 0 && h.setPoint == soll
    && c.period > 0 && h.pwmEnd == c.period && (h.pwmWidth == 0 || h.pwmWidth == h.pwmEnd)
  }

  predicate IsOn(h: Heater) { h.pwmWidth > 0 }

  lemma FullAndZero(period: byte)
    ensures Width(period, 100) == period && Width(period, 0) == 0
    ensures period > 0 ==> RateOf(period, period) == 100 && RateOf(0, period) == 0
  {
    if period > 0 {
      FullRate(period);
    }
  }

  lemma FullRate(e: int)
    requires e > 0
    ensures e * 100 / e == 100
  {
  }

  lemma RegulatingControl(c: Config, h: Heater, now: Clock, soll: int)
    requires Regulating(c, h, soll)
    ensures var r := Control(c, h, now);
            && Regulating(c, r, soll) && r.measure == h.measure
            && (!IsOn(h) && IsOn(r) ==> h.measure < soll - c.hysteresis)
            && (IsOn(h) && !IsOn(r) ==> h.measure > soll + c.hysteresis)
            && (h.interval < 255 && h.measure < soll - c.hysteresis ==> IsOn(r))
            && (h.interval < 255 && h.measure > soll + c.hysteresis ==> !IsOn(r))
  {
    hide Width, RateOf;
    FullAndZero(c.period);
  }

  /** A regulating tick only switches when the measured value lies outside the band. */
  lemma RegulatingTick(c: Config, h: Heater, now: Clock, soll: int)
    requires Regulating(c, h, soll)
    ensures var r := Tick(c, h, now).heater;
            && Regulating(c, r, soll) && r.measure == h.measure
            && (!IsOn(h) && IsOn(r) ==> h.measure < soll - c.hysteresis)
            && (IsOn(h) && !IsOn(r) ==> h.measure > soll + c.hysteresis)
  {
    hide Count, Control, Report;
    var h1 := Count(c, h, now);
    CountStops(c, h, now);
    RegulatingControl(c, h1.(timer := 0), now, soll);
    if h1.timer < 5 { ReportKeeps(c, h1.(timer := h1.timer + 1)); }
    ReportKeeps(c, Control(c, h1.(timer := 0), now));
  }

  /** Only seconds and measurements: what occurs while the thermostat regulates undisturbed. */
  predicate Calm(es: seq<Event>) {
    forall e <- es :: e.Second? || e.Temperature?
  }

  predicate IsReading(c: Config, e: Event) {
    e.Temperature? && e.sensor == c.sensor
  }

  /** Once closed, the valve stays closed for as long as no measured value is below the band. */
  lemma {:induction false} ClosedStaysClosed(c: Config, h: Heater, es: seq<Event>, soll: int)
    requires Regulating(c, h, soll) && Calm(es) && !IsOn(h) && h.measure >= soll - c.hysteresis
    requires forall e <- es :: IsReading(c, e) ==> e.value >= soll - c.hysteresis
    ensures Regulating(c, Run(c, h, es), soll) && !IsOn(Run(c, h, es))
    decreases |es|
  {
    hide Tick;
    if es != [] {
      assert es[0] in es;
      if es[0].Second? { RegulatingTick(c, h, es[0].now, soll); }
      ClosedStaysClosed(c, Next(c, h, es[0]), es[1..], soll);
    }
  }

  /** Once open, it stays open for as long as no measured value is above the band. */
  lemma {:induction false} OpenStaysOpen(c: Config, h: Heater, es: seq<Event>, soll: int)
    requires Regulating(c, h, soll) && Calm(es) && IsOn(h) && h.measure <= soll + c.hysteresis
    requires forall e <- es :: IsReading(c, e) ==> e.value <= soll + c.hysteresis
    ensures Regulating(c, Run(c, h, es), soll) && IsOn(Run(c, h, es))
    decreases |es|
  {
    hide Tick;
    if es != [] {
      assert es[0] in es;
      if es[0].Second? { RegulatingTick(c, h, es[0].now, soll); }
      OpenStaysOpen(c, Next(c, h, es[0]), es[1..], soll);
    }
  }

  /**
   No chattering: after a switch-off, which took a value above the band, the valve is open again at the
   end of a run only if a value below the band was measured in between.
   */
  lemma SwitchNeedsSwing(c: Config, h: Heater, now: Clock, es: seq<Event>, soll: int)
    requires Regulating(c, h, soll) && Calm(es) && IsOn(h)
    ensures !IsOn(Tick(c, h, now).heater) ==> h.measure > soll + c.hysteresis
    ensures !IsOn(Tick(c, h, now).heater) && IsOn(Run(c, Tick(c, h, now).heater, es)) ==>
              exists e :: e in es && IsReading(c, e) && e.value < soll - c.hysteresis
  {
    hide Tick;
    RegulatingTick(c, h, now, soll);
    if !IsOn(Tick(c, h, now).heater) && forall e <- es :: IsReading(c, e) ==> e.value >= soll - c.hysteresis {
      ClosedStaysClosed(c, Tick(c, h, now).heater, es, soll);
    }
  }

  /** The other direction: a decision tick outside the band does switch. */
  lemma DecisionTickSwitches(c: Config, h: Heater, now: Clock, soll: int)
    requires Regulating(c, h, soll) && h.timer >= 5 && h.interval < 254
    ensures h.measure < soll - c.hysteresis ==> IsOn(Tick(c, h, now).heater)
    ensures h.measure > soll + c.hysteresis ==> !IsOn(Tick(c, h, now).heater)
  {
    hide Control, Report;
    var h1 := Count(c, h, now);
    CountStops(c, h, now);
    assert h1.interval < 255;
    hide Count;
    RegulatingControl(c, h1.(timer := 0), now, soll);
    ReportKeeps(c, Control(c, h1.(timer := 0), now));
  }

  // ---------------------------------------------------------------- automatic mode

  /** The two-point controller on a valve that is fully open or closed. */
  lemma TwoPoint(c: Config, h: Heater, soll: int, ist: int)
    requires h.mode != Off && h.stop == 0 && c.period > 0 && h.pwmEnd == c.period
    requires h.pwmWidth == 0 || h.pwmWidth == h.pwmEnd
    ensures SetPwmByTemp(c, h, soll, ist).pwmWidth
            == if ist < soll - c.hysteresis then c.period
               else if ist > soll + c.hysteresis then 0
               else h.pwmWidth
  {
    hide Width, RateOf;
    FullAndZero(c.period);
  }

  /**
   A decision tick in automatic mode: stale measurements change nothing, without a matching time zone the
   valve closes, and otherwise the first matching zone's temperature is regulated.
   */
  lemma AutomaticTick(c: Config, h: Heater, now: Clock)
    requires h.mode == Automatic && h.duration == 0 && h.stop == 0 && h.timer >= 5
    requires c.period > 0 && h.pwmEnd == c.period && (h.pwmWidth == 0 || h.pwmWidth == h.pwmEnd)
    ensures var r := Tick(c, h, now).heater; var i := MatchingZone(c.zones, now.zones);
            r.pwmWidth == if h.interval >= 254 then h.pwmWidth
                          else if i == |c.zones| then 0
                          else if h.measure < c.zones[i].temp - c.hysteresis then c.period
                          else if h.measure > c.zones[i].temp + c.hysteresis then 0
                          else h.pwmWidth
  {
    hide Report, Width, RateOf, SetPwmByTemp;
    var h1 := Count(c, h, now).(timer := 0);
    CountStops(c, h, now);
    assert h1.interval == if h.interval >= 254 then 255 else h.interval + 1;
    hide Count;
    FullAndZero(c.period);
    var i := MatchingZone(c.zones, now.zones);
    if i < |c.zones| {
      TwoPoint(c, h1, c.zones[i].temp, h1.measure);
    }
    ReportKeeps(c, Control(c, h1, now));
  }

  // ---------------------------------------------------------------- limited modes

  predicate ModeCommand(c: Config, e: Event) {
    match e
    case SetOff(i) => i == c.id
    case SetManual(i, _, _) => i == c.id
    case SetThermostat(i, _, _) => i == c.id
    case SetAutomatic(i) => i == c.id
    case _ => false
  }

  lemma TickMode(c: Config, h: Heater, now: Clock)
    ensures Tick(c, h, now).heater.mode == if h.duration == 1 then Automatic else h.mode
    ensures Tick(c, h, now).heater.duration == if h.duration > 0 then h.duration - 1 else 0
  {
    hide Count, Control, Report;
    var h1 := Count(c, h, now);
    CountStops(c, h, now);
    ControlKeeps(c, h1.(timer := 0), now);
    if h1.timer < 5 { ReportKeeps(c, h1.(timer := h1.timer + 1)); }
    ReportKeeps(c, Control(c, h1.(timer := 0), now));
  }

  /** Without further mode commands a mode ends exactly when its duration has run down, in automatic mode. */
  lemma {:induction false} ModeLasts(c: Config, h: Heater, es: seq<Event>)
    requires forall e <- es :: !ModeCommand(c, e)
    ensures var r := Run(c, h, es);
            && r.mode == (if 0 < h.duration <= Ticks(es) then Automatic else h.mode)
            && r.duration == (if h.duration > Ticks(es) then h.duration - Ticks(es) else 0)
    decreases |es|
  {
    hide Tick;
    if es != [] {
      assert es[0] in es;
      if es[0].Second? { TickMode(c, h, es[0].now); }
      ModeLasts(c, Next(c, h, es[0]), es[1..]);
    }
  }

  /**
   Switching off does not clear a running duration: a heater that was switched off stays off if and only
   if no duration was running, or not enough seconds have passed to use it up.
   */
  lemma OffLastsExactly(c: Config, h: Heater, es: seq<Event>)
    requires forall e <- es :: !ModeCommand(c, e)
    ensures Run(c, Callback(c, h, SetOff(c.id)), es).mode == Off <==> h.duration == 0 || Ticks(es) < h.duration
  {
    ModeLasts(c, Callback(c, h, SetOff(c.id)), es);
  }

  /** For instance: manual mode for one second, then off, then one second later the heater regulates again. */
  lemma OffIsUndone(c: Config, h: Heater, rate: byte, now: Clock)
    ensures Run(c, Callback(c, h, SetManual(c.id, rate, 1)), [SetOff(c.id), Second(now)]).mode == Automatic
  {
    hide Tick;
    var h1 := Callback(c, h, SetManual(c.id, rate, 1));
    var es := [SetOff(c.id), Second(now)];
    assert es[1..] == [Second(now)];
    assert Run(c, h1, es) == Run(c, Callback(c, h1, SetOff(c.id)), [Second(now)]);
    assert Ticks([Second(now)]) == 1;
    OffLastsExactly(c, h1, [Second(now)]);
    ModeLasts(c, Callback(c, h1, SetOff(c.id)), [Second(now)]);
  }

  // ---------------------------------------------------------------- heat demand

  /** The tick in which the two-point controller opens the valve, in automatic or thermostat mode. */
  predicate OpeningTick(c: Config, h: Heater, now: Clock) {
    var h1 := Count(c, h, now).(timer := 0);
    && Count(c, h, now).timer >= 5 && h1.interval < 255
    && match h1.mode
       case Thermostat => Opens(c, h1, h1.setPoint, h1.measure)
       case Automatic =>
         var i := MatchingZone(c.zones, now.zones);
         i < |c.zones| && Opens(c, h1, c.zones[i].temp, h1.measure)
       case _ => false
  }

  lemma OpeningTickIsSilent(c: Config, h: Heater, now: Clock)
    requires OpeningTick(c, h, now)
    ensures Tick(c, h, now).demand == Silent && Tick(c, h, now).heater.demand == 209
  {
    hide Count, Width, RateOf;
  }

  /** A tick sends only from counter 0, and lowers the counter by at most one otherwise. */
  lemma DemandCountsDown(c: Config, h: Heater, now: Clock)
    ensures h.demand > 0 ==>
              Tick(c, h, now).demand == Silent
              && (Tick(c, h, now).heater.demand >= h.demand - 1 || Tick(c, h, now).heater.demand >= 209)
  {
    hide Count, Control;
    CountStops(c, h, now);
    ControlKeeps(c, Count(c, h, now).(timer := 0), now);
  }

  function Ticks(es: seq<Event>): nat {
    if es == [] then 0 else (if es[0].Second? then 1 else 0) + Ticks(es[1..])
  }

  predicate AllSilent(c: Config, h: Heater, es: seq<Event>)
    decreases |es|
  {
    es == [] || ((es[0].Second? ==> Tick(c, h, es[0].now).demand == Silent)
                 && AllSilent(c, Next(c, h, es[0]), es[1..]))
  }

  lemma {:induction false} SilentFor(c: Config, h: Heater, es: seq<Event>)
    requires Ticks(es) <= h.demand && Ticks(es) <= 209
    ensures AllSilent(c, h, es)
    decreases |es|
  {
    hide Tick;
    if es != [] {
      if es[0].Second? { DemandCountsDown(c, h, es[0].now); }
      SilentFor(c, Next(c, h, es[0]), es[1..]);
    }
  }

  /** In every run the opening tick and the next 209 ticks send no heat-demand message. */
  lemma ValveOpensInSilence(c: Config, h: Heater, now: Clock, es: seq<Event>)
    requires OpeningTick(c, h, now) && Ticks(es) <= 209
    ensures AllSilent(c, h, [Second(now)] + es)
  {
    hide Tick, OpeningTick;
    OpeningTickIsSilent(c, h, now);
    SilentFor(c, Tick(c, h, now).heater, es);
    assert ([Second(now)] + es)[1..] == es;
  }

  // ---------------------------------------------------------------- the firmware

  class Device {
    const c: Config
    var mode: Mode
    var manualRate: byte
    var timer: byte
    var pwmCounter: nat
    var pwmWidth: nat
    var pwmEnd: nat
    var demand: byte
    var interval: byte
    var measure: int
    var duration: nat
    var setPoint: int
    var stop: byte
    var care: nat
    var pin: bool

    ghost function State(): Heater
      reads this
    {
      Heater(mode, manualRate, timer, pwmCounter, pwmWidth, pwmEnd, demand, interval, measure, duration, setPoint,
             stop, care, pin)
    }

    /** `heizung_init`; the timer counter and the pin are not initialised there. */
    constructor (c: Config, timer: byte, pin: bool)
      ensures this.c == c
      ensures State() == Heater(Off, 0, timer, 0, 0, 0, c.id % 64, 255, 0, 0, 0, 0, 0, pin)
    {
      this.c, this.timer, this.pin := c, timer, pin;
      mode, manualRate, pwmCounter, pwmWidth, pwmEnd := Off, 0, 0, 0, 0;
      demand, interval, measure, duration, setPoint := c.id % 64, 255, 0, 0, 0;
      stop, care := 0, 0;
    }

    method UpdateHeizstop()
      modifies this
      ensures State() == UpdateStop(c, old(State()))
    {
      if stop > 0 {
        pwmEnd, pwmWidth := c.period, 0;
      }
    }

    method SetRate(rate: byte)
      modifies this
      ensures State() == SetPwm(c, old(State()), rate)
    {
      if stop > 0 {
        UpdateHeizstop();
      } else {
        pwmEnd := c.period;
        pwmWidth := pwmEnd * rate / 100;
      }
    }

    method GetRate() returns (rate: byte)
      ensures rate == GetPwm(c, State())
    {
      rate := 0;
      if mode != Off {
        rate := if pwmEnd == 0 then c.zeroRate else pwmWidth * 100 / pwmEnd % 256;
      }
    }

    method HandlePulse()
      modifies this
      ensures State() == HandlePwm(old(State()))
    {
      pwmCounter := (pwmCounter + 1) % 0x1_0000;
      if pwmCounter >= pwmEnd {
        pwmCounter := 0;
        pin := true;
      }
      if pwmCounter >= pwmWidth {
        pin := false;
      }
    }

    method SetRateByTemp(soll: int, ist: int)
      modifies this
      ensures State() == SetPwmByTemp(c, old(State()), soll, ist)
    {
      hide GetPwm, SetPwm;
      var rate := GetRate();
      if rate > 0 && ist > soll + c.hysteresis {
        SetRate(0);
        return;
      }
      if rate == 0 && ist < soll - c.hysteresis {
        SetRate(100);
        demand := 210;
      }
    }

    /** `heizung_get_matching_zeitzone_index`; the number of lines stands for -1. */
    method FindZone(now: Clock) returns (i: nat)
      ensures i == MatchingZone(c.zones, now.zones)
    {
      i := 0;
      while i < |c.zones|
        invariant i <= |c.zones|
        invariant MatchingZone(c.zones, now.zones) == i + MatchingZone(c.zones[i..], now.zones)
      {
        if c.zones[i].id in now.zones { return i; }
        assert c.zones[i..][1..] == c.zones[i + 1..];
        i := i + 1;
      }
    }

    method CheckCare(now: Clock)
      modifies this
      ensures State() == Prepare(old(State()), now)
    {
      if care > 0 { care := care - 1; }
      if mode == Off && care == 0 && now.careTime { care := 600; }
      if interval != 255 { interval := interval + 1; }
    }

    method RunDown()
      modifies this
      ensures State() == Expire(c, old(State()))
    {
      if duration > 0 {
        duration := duration - 1;
        if duration == 0 { mode := Automatic; }
      }
      if stop > 0 { stop := stop - 1; }
      UpdateHeizstop();
    }

    method Switch(now: Clock)
      modifies this
      ensures State() == Control(c, old(State()), now)
    {
      hide SetPwm, SetPwmByTemp;
      match mode {
        case Off =>
          manualRate := 0;
          if care > 0 {
            SetRate(100);
            pin := true;
          } else {
            SetRate(0);
            if pin { pin := false; }
          }
        case Manual => SetRate(manualRate);
        case Automatic =>
          if interval < 255 {
            var i := FindZone(now);
            if i < |c.zones| { SetRateByTemp(c.zones[i].temp, measure); } else { SetRate(0); }
          }
        case Thermostat =>
          if interval < 255 { SetRateByTemp(setPoint, measure); }
      }
    }

    /** `heizung_timer_handler`, called every second. */
    method TimerHandler(now: Clock) returns (sent: Demand)
      modifies this
      ensures Ticked(State(), sent) == Tick(c, old(State()), now)
    {
      hide Prepare, HandlePwm, Expire, Control, GetPwm;
      CheckCare(now);
      HandlePulse();
      RunDown();
      if timer >= 5 {
        timer := 0;
        var off := mode == Off;
        Switch(now);
        if off { return Silent; }
      } else {
        timer := timer + 1;
      }
      if demand == 0 {
        demand := 60;
        var rate := GetRate();
        assert rate == GetPwm(c, State().(demand := 0)) by { RateIgnoresDemand(c, State(), 0); }
        return Sent(if c.double then rate as int * 2 % 256 else rate);
      }
      demand := demand - 1;
      return Silent;
    }

    /** The state-changing cases of `heizung_can_callback`. */
    method CanCallback(e: Event)
      requires !e.Second?
      modifies this
      ensures State() == Callback(c, old(State()), e)
    {
      match e {
        case Temperature(s, v) =>
          if s == c.sensor { measure, interval := v, 0; }
        case SetOff(i) =>
          if i == c.id { mode := Off; }
        case SetManual(i, r, d) =>
          if i == c.id { mode, manualRate, duration := Manual, r, d; }
        case SetThermostat(i, t, d) =>
          if i == c.id { mode, setPoint, duration := Thermostat, t, d; }
        case SetAutomatic(i) =>
          if i == c.id { mode := Automatic; }
        case WindowOpen(g) =>
          for i := 0 to |c.reeds|
            invariant State() == old(State()) && g !in c.reeds[..i]
          {
            assert c.reeds[..i + 1] == c.reeds[..i] + [c.reeds[i]];
            if c.reeds[i] == g {
              stop := 60;
              return;
            }
          }
          assert c.reeds == c.reeds[..|c.reeds|];
      }
    }
  }

  lemma RateIgnoresDemand(c: Config, h: Heater, d: byte)
    ensures GetPwm(c, h.(demand := d)) == GetPwm(c, h)
  {
  }
}
