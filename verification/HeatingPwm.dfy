/**
 The pulse-width modulation of the valve over whole periods.
 */
module HeatingPwm {
  import opened Bytes
  import opened Heating

  /** Manual mode without time limit and window stop, with the PWM set to the rate. */
  predicate Steady(c: Config, h: Heater) {
    && h.mode == Manual && h.duration == 0 && h.stop == 0 && h.manualRate <= 100
    && c.period >= 1 && h.pwmEnd == c.period && h.pwmWidth == Width(c.period, h.manualRate)
    && h.pwmCounter < h.pwmEnd
  }

  /** Ticks of the run after which the pin is on. */
  function OnTicks(c: Config, h: Heater, nows: seq<Clock>): nat
    decreases |nows|
  {
    if nows == [] then 0
    else
      var r := Tick(c, h, nows[0]).heater;
      (if r.pin then 1 else 0) + OnTicks(c, r, nows[1..])
  }

  lemma SteadyTick(c: Config, h: Heater, now: Clock)
    requires Steady(c, h)
    ensures var r := Tick(c, h, now).heater;
            && Steady(c, r) && r.manualRate == h.manualRate && r.pwmWidth == h.pwmWidth
            && r.pwmCounter == (if h.pwmCounter + 1 >= h.pwmEnd then 0 else h.pwmCounter + 1)
            && r.pin == (r.pwmCounter < r.pwmWidth && (r.pwmCounter == 0 || h.pin))
  {
    hide Width, RateOf;
  }

  lemma WidthBound(e: int, r: int)
    requires 0 <= e && 0 <= r <= 100
    ensures 0 <= e * r / 100 <= e
  {
    assert e * r <= e * 100;
  }

  /** The device after the ticks. */
  function After(c: Config, h: Heater, nows: seq<Clock>): Heater
    decreases |nows|
  {
    if nows == [] then h else After(c, Tick(c, h, nows[0]).heater, nows[1..])
  }

  lemma {:induction false} OnTicksConcat(c: Config, h: Heater, a: seq<Clock>, b: seq<Clock>)
    ensures OnTicks(c, h, a + b) == OnTicks(c, h, a) + OnTicks(c, After(c, h, a), b)
    ensures After(c, h, a + b) == After(c, After(c, h, a), b)
    decreases |a|
  {
    hide Tick;
    if a == [] {
      assert a + b == b;
    } else {
      assert (a + b)[1..] == a[1..] + b;
      OnTicksConcat(c, Tick(c, h, a[0]).heater, a[1..], b);
    }
  }

  /** What is left of a period that has reached step `at`. */
  lemma {:induction false} RestOfPeriod(c: Config, h: Heater, nows: seq<Clock>, at: nat)
    requires Steady(c, h) && at + |nows| == c.period
    requires at == 0 ==> h.pwmCounter + 1 == c.period
    requires at > 0 ==> h.pwmCounter == at - 1 && h.pin == (at - 1 < h.pwmWidth)
    ensures OnTicks(c, h, nows) == if at < h.pwmWidth then h.pwmWidth - at else 0
    ensures var r := After(c, h, nows);
            Steady(c, r) && r.pwmCounter + 1 == c.period && r.pwmWidth == h.pwmWidth && r.manualRate == h.manualRate
    decreases |nows|
  {
    hide Tick;
    WidthBound(c.period, h.manualRate);
    if nows != [] {
      SteadyTick(c, h, nows[0]);
      RestOfPeriod(c, Tick(c, h, nows[0]).heater, nows[1..], at + 1);
    }
  }

  lemma FullPeriod(c: Config, h: Heater, nows: seq<Clock>)
    requires Steady(c, h) && h.pwmCounter + 1 == c.period == |nows|
    ensures OnTicks(c, h, nows) == h.pwmWidth
    ensures var r := After(c, h, nows);
            Steady(c, r) && r.pwmCounter == h.pwmCounter && r.pwmWidth == h.pwmWidth && r.manualRate == h.manualRate
  {
    RestOfPeriod(c, h, nows, 0);
  }

  /** A full period: the pin is on for exactly floor(period * rate / 100) ticks, and the next period can follow. */
  lemma OnePeriod(c: Config, h: Heater, nows: seq<Clock>)
    requires Steady(c, h) && h.pwmCounter + 1 == c.period == |nows|
    ensures OnTicks(c, h, nows) == c.period as int * h.manualRate / 100
    ensures var r := After(c, h, nows);
            Steady(c, r) && r.pwmCounter == h.pwmCounter && r.pwmWidth == h.pwmWidth && r.manualRate == h.manualRate
  {
    hide OnTicks, After;
    WidthBound(c.period, h.manualRate);
    FullPeriod(c, h, nows);
  }

  /** n times p, added up. */
  function Times(n: nat, p: nat): nat {
    if n == 0 then 0 else Times(n - 1, p) + p
  }

  lemma {:induction false} TimesIsProduct(n: nat, p: nat)
    ensures Times(n, p) == n * p
  {
    if n > 0 {
      TimesIsProduct(n - 1, p);
      assert n * p == (n - 1) * p + p;
    }
  }

  lemma NoTicks(c: Config, h: Heater, nows: seq<Clock>)
    requires nows == []
    ensures OnTicks(c, h, nows) == 0 && After(c, h, nows) == h
  {
  }

  lemma {:induction false} Periods(c: Config, h: Heater, nows: seq<Clock>, n: nat)
    requires Steady(c, h) && h.pwmCounter + 1 == c.period && |nows| == Times(n, c.period)
    ensures OnTicks(c, h, nows) == Times(n, h.pwmWidth)
    ensures var r := After(c, h, nows);
            Steady(c, r) && r.pwmCounter == h.pwmCounter && r.pwmWidth == h.pwmWidth && r.manualRate == h.manualRate
    decreases n
  {
    hide Tick, Steady, OnTicks, After;
    if n == 0 {
      NoTicks(c, h, nows);
    } else {
      var first, rest := nows[..c.period], nows[c.period..];
      FullPeriod(c, h, first);
      OnTicksConcat(c, h, first, rest);
      assert nows == first + rest;
      Periods(c, After(c, h, first), rest, n - 1);
    }
  }

  /** The same share in each of n periods, after which counter, width and rate are those of the start. */
  lemma DutyCycle(c: Config, h: Heater, nows: seq<Clock>, n: nat)
    requires Steady(c, h) && h.pwmCounter + 1 == c.period && |nows| == n * c.period
    ensures OnTicks(c, h, nows) == n * (c.period as int * h.manualRate / 100)
    ensures var r := After(c, h, nows);
            Steady(c, r) && r.pwmCounter == h.pwmCounter && r.pwmWidth == h.pwmWidth && r.manualRate == h.manualRate
  {
    hide OnTicks, After, Times;
    WidthBound(c.period, h.manualRate);
    TimesIsProduct(n, c.period);
    TimesIsProduct(n, h.pwmWidth);
    Periods(c, h, nows, n);
  }

  /** The rate read back is at most the one set, and short of it by less than 1 + 100/period. */
  lemma RateQuantised(c: Config, h: Heater, r: byte)
    requires h.mode != Off && h.stop == 0 && r <= 100 && c.period >= 1
    ensures var g := GetPwm(c, SetPwm(c, h, r)) as int; var e := c.period as int;
            g <= r && e * (r - g) < 100 + e
  {
    var e := c.period as int;
    var w := e * r / 100;
    Quantise(e, r as int, w, w * 100 / e);
  }

  lemma Quantise(e: int, r: int, w: int, g: int)
    requires e >= 1 && 0 <= r <= 100 && w == e * r / 100 && g == w * 100 / e
    ensures 0 <= g <= r && e * (r - g) < 100 + e
  {
    var er, eg := e * r, e * g;
    assert 100 * w <= er < 100 * w + 100;
    DivBounds(w * 100, e);
    assert eg <= 100 * w < eg + e;
    assert e * (r - g) == er - eg;
    if g > r {
      MulMono(e, r + 1, g);
    }
  }

  lemma MulMono(e: int, a: int, b: int)
    requires e >= 0 && a <= b
    ensures e * a <= e * b
  {
  }

  lemma DivBounds(x: int, e: int)
    requires x >= 0 && e >= 1
    ensures 0 <= x / e && e * (x / e) <= x < e * (x / e) + e
  {
  }
}
