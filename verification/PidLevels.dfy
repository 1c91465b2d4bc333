/** What the motor controller of the C firmware writes to the motor, in terms of its CVs, the setpoint
    and the samples. */
module PidLevels {
  import opened Wire
  import opened Numbers
  import opened Floats
  import TrimmedMean
  import DerivativeFilter
  import StartupSweep
  import opened PidController
  import opened PidBounds

  function Limited(x: real, lo: real, hi: real): real {
    if x < lo then lo else if hi < x then hi else x
  }

  /** The mean of the samples between the cutoffs. */
  function Mean(c: Config, x: Input): real
    requires 0 < Left(c) && |x.samples| == c.samples
  {
    TrimmedMean.Trimmed(x.samples, c.cutLow, c.cutHigh)
  }

  /** How far the motor is behind: the setpoint minus the mean, which the offset in CV172 is taken from. */
  function Behind(c: Config, x: Input): real
    requires 0 < Left(c) && |x.samples| == c.samples
  {
    x.setpoint as real - (Mean(c, x) - c.adcOffset as real)
  }

  /** A call that is to move the motor and measures it. */
  predicate Runs(c: Config, x: Input) {
    0 < Left(c) && |x.samples| == c.samples && 0 < x.setpoint && !x.directionChanged
  }

  lemma MeasuresMean(c: Config, x: Input)
    requires Runs(c, x)
    ensures Measurement(c, x) == Num(Mean(c, x)) && Error(c, x) == Num(Behind(c, x))
    ensures Corrected(c, x) == Num(Mean(c, x) - c.adcOffset as real)
  {
    hide TrimmedMean.Trimmed;
  }

  /** The maximum is the clock of 125 MHz divided by the PWM frequency of CV9, rounded down. */
  lemma MaximumIs(c: Config)
    ensures var f := c.pwmFrequency * 100 + 10_000; MaxOutput(c) * f <= 125_000_000 < (MaxOutput(c) + 1) * f
  {
    var f := c.pwmFrequency * 100 + 10_000;
    var m := 125_000_000 / f;
    RoundedDown(125_000_000, f);
    assert MaxOutput(c) == m;
    hide MaxOutput;
    assert (m + 1) * f == m * f + f;
  }

  // ---- the proportional gain ----

  /** Where the two lines of the gain schedule meet, from the highest setpoint and CV60. */
  function Meeting(c: Config): real {
    (16 * c.vHigh * c.shift) as real / 255.0
  }

  lemma OverTheSame(a: int, b: int)
    ensures a as real * (b as real / 255.0) == (a * b) as real / 255.0
  {
    assert (a * b) as real == a as real * b as real;
  }

  lemma MeetingIs(c: Config)
    ensures KpX1(c) == Meeting(c) && KpX2(c) == (16 * c.vHigh) as real - Meeting(c)
  {
    var top, w := (16 * c.vHigh) as real, c.shift as real / 255.0;
    assert KpX1(c) == top * w && KpX2(c) == top * (1.0 - w) by {
      ThresholdsAre(c, Top(c) as real, w);
    }
    hide KpX1, KpX2;
    OverTheSame(16 * c.vHigh, c.shift);
    assert top * (1.0 - w) == top - top * w;
  }

  lemma Slope(a: real, b: real, x: real)
    requires b != 0.0
    ensures a / b * x * b == a * x
  {
    TimesQuotient(a, b);
    assert a / b * x * b == a / b * b * x;
  }

  lemma GainOnFirst(c: Config, setpoint: nat, k: real)
    requires Kp(c, setpoint) == Num(k) && 0.0 <= setpoint as real < KpX1(c)
    ensures (k - c.y0 as real / 100.0) * KpX1(c) == (c.y1 as real / 100.0 - c.y0 as real / 100.0) * setpoint as real
  {
    var sp, x1, y0, y1 := setpoint as real, KpX1(c), KpY(c.y0), KpY(c.y1);
    hide KpX1;
    assert k == (y1 - y0) / x1 * sp + y0;
    hide Kp;
    Slope(y1 - y0, x1, sp);
  }

  lemma GainOnSecond(c: Config, setpoint: nat, k: real)
    requires Kp(c, setpoint) == Num(k) && KpX1(c) <= setpoint as real
    ensures (k - c.y1 as real / 100.0) * KpX2(c) ==
            (c.y2 as real / 100.0 - c.y1 as real / 100.0) * (setpoint as real - KpX1(c))
  {
    var sp, x1, x2, y1, y2 := setpoint as real, KpX1(c), KpX2(c), KpY(c.y1), KpY(c.y2);
    hide KpX1, KpX2;
    assert x2 != 0.0;
    assert k == (y2 - y1) / x2 * (sp - x1) + y1;
    hide Kp;
    Slope(y2 - y1, x2, sp - x1);
  }

  /** The gain lies on the line from (0, CV54-55) to (x1, CV56-57), or from there to (16 * CV5, CV58-59);
      the CVs are in hundredths. */
  lemma GainIsOnLines(c: Config, setpoint: nat, k: real)
    requires Kp(c, setpoint) == Num(k)
    ensures var sp, x1, top := setpoint as real, Meeting(c), (16 * c.vHigh) as real;
      var y0, y1, y2 := c.y0 as real / 100.0, c.y1 as real / 100.0, c.y2 as real / 100.0;
      if sp < x1 then (k - y0) * x1 == (y1 - y0) * sp
      else (k - y1) * (top - x1) == (y2 - y1) * (sp - x1)
  {
    hide Kp, Meeting, KpX1, KpX2;
    MeetingIs(c);
    if setpoint as real < KpX1(c) {
      GainOnFirst(c, setpoint, k);
    } else {
      GainOnSecond(c, setpoint, k);
    }
  }

  // ---- one PID call ----

  /** k_i * t, with k_i in tenths (CV50) and t in milliseconds (CV49). */
  function IntegralRate(c: Config): real {
    c.kI as real / 10.0 * (c.t as real / 1000.0)
  }

  /** The integral adds k_i * t * (e + e_prev) / 2 and stays within ten times CV53 below and CV52 above
      zero. */
  function NextIntegral(c: Config, i: real, e: real, ePrev: real): real {
    Limited(i + IntegralRate(c) * (e + ePrev) / 2.0, -10.0 * c.limMin as real, 10.0 * c.limMax as real)
  }

  lemma HalfFirst(k: real, sum: real)
    ensures k / 2.0 * sum == k * sum / 2.0
  {}

  lemma HalfRate(c: Config)
    ensures Ci0(c) == Num(IntegralRate(c) / 2.0)
  {}

  lemma NumbersAdd(k: real, e: real, ePrev: real, i: real)
    ensures Add(Mul(Num(k), Add(Num(e), Num(ePrev))), Num(i)) == Num(i + k * (e + ePrev))
  {}

  lemma NumberIsClipped(x: real, lo: real, hi: real)
    requires lo <= hi
    ensures Clip(Num(x), lo, hi) == Num(Limited(x, lo, hi))
  {}

  lemma IntegratedNumbers(c: Config, k: real, e: real, ePrev: real, i: real)
    requires Ci0(c) == Num(k)
    ensures Integrated(c, Num(e), Num(ePrev), Num(i)) == Num(Limited(i + k * (e + ePrev), IntLimMin(c), IntLimMax(c)))
  {
    hide Ci0, Add, Mul, Clip, Limited;
    NumbersAdd(k, e, ePrev, i);
    NumberIsClipped(i + k * (e + ePrev), IntLimMin(c), IntLimMax(c));
  }

  lemma IntegralIs(c: Config, e: real, ePrev: real, i: real)
    ensures Integrated(c, Num(e), Num(ePrev), Num(i)) == Num(NextIntegral(c, i, e, ePrev))
  {
    hide IntegralRate, Ci0, Integrated, Limited;
    HalfRate(c);
    HalfFirst(IntegralRate(c), e + ePrev);
    IntegratedNumbers(c, IntegralRate(c) / 2.0, e, ePrev, i);
  }

  lemma Turned(k: real, m: real, mPrev: real)
    ensures -2.0 * k * (m - mPrev) == 2.0 * k * (mPrev - m)
  {}

  lemma Gathered(c0: real, c1: real, sum: real, dm: real, d: real)
    ensures sum * (c0 * dm + c1 * d) == c0 * sum * dm + c1 * sum * d
  {}

  lemma FilterEquation(c0: real, c1: real, p: DerivativeFilter.Filter, m: real, mPrev: real, dPrev: real)
    requires c0 * (2.0 * p.tau + p.t) == -2.0 * p.kD && c1 * (2.0 * p.tau + p.t) == 2.0 * p.tau - p.t
    ensures (2.0 * p.tau + p.t) * (c0 * (m - mPrev) + c1 * dPrev) ==
            2.0 * p.kD * (mPrev - m) + (2.0 * p.tau - p.t) * dPrev
  {
    var sum := 2.0 * p.tau + p.t;
    Gathered(c0, c1, sum, m - mPrev, dPrev);
    Turned(p.kD, m, mPrev);
  }

  /** The derivative d of a call that measures m answers (2 tau + t) d = 2 k_d (m_prev - m) + (2 tau - t) d_prev,
      with tau and t in milliseconds (CV48, CV49) and k_d in ten-thousandths (CV51). */
  lemma DerivativeIs(c: Config, m: real, mPrev: real, dPrev: real)
    requires c.tau != 0 || c.t != 0
    ensures Filtered(c, Num(m), Num(mPrev), Num(dPrev)).Num?
    ensures var d := Filtered(c, Num(m), Num(mPrev), Num(dPrev)).x;
      var tau, t, kD := c.tau as real / 1000.0, c.t as real / 1000.0, c.kD as real / 10000.0;
      (2.0 * tau + t) * d == 2.0 * kD * (mPrev - m) + (2.0 * tau - t) * dPrev
  {
    hide DerivativeFilter.Cd0, DerivativeFilter.Cd1, Filtered, DerivativeFilter.Sensible;
    FilterIsReal(c, m, mPrev, dPrev);
    FilterInputs(c);
    var p := FilterOf(c);
    DerivativeFilter.Coefficients(p);
    FilterEquation(DerivativeFilter.Cd0(p), DerivativeFilter.Cd1(p), p, m, mPrev, dPrev);
  }

  /** Feed forward and the three parts, limited to the range of the PWM and rounded down. */
  function LevelOf(feedFwd: real, kP: real, e: real, i: real, d: real, max: nat): nat {
    Limited(feedFwd + kP * e + i + d, 0.0, max as real).Floor
  }

  lemma SumIs(a: real, b: real, c: real, d: real)
    ensures Add(Add(Add(Num(a), Num(b)), Num(c)), Num(d)) == Num(a + b + c + d)
  {}

  lemma LimitedIs(x: real, max: nat)
    ensures ToLevel(Clip(Num(x), 0.0, max as real)) == Some(Limited(x, 0.0, max as real).Floor)
  {}

  lemma ProductIs(a: real, b: real)
    ensures Mul(Num(a), Num(b)) == Num(a * b)
  {}

  lemma TotalIs(c: Config, feedFwd: real, kP: real, e: real, i: real, d: real)
    ensures Total(c, feedFwd, Mul(Num(kP), Num(e)), Num(i), Num(d)) == Some(LevelOf(feedFwd, kP, e, i, d, MaxOutput(c)))
  {
    hide MaxOutput;
    var prop := kP * e;
    ProductIs(kP, e);
    SumIs(feedFwd, prop, i, d);
    LimitedIs(feedFwd + prop + i + d, MaxOutput(c));
    assert LevelOf(feedFwd, kP, e, i, d, MaxOutput(c))
        == Limited(feedFwd + prop + i + d, 0.0, MaxOutput(c) as real).Floor;
    hide Clip, Add, Mul, Limited, LevelOf, ToLevel;
  }

  /** Everything a PID call leaves, in the CVs, the setpoint and the samples. The level written is feed
      forward plus k_p times how far the motor is behind plus integral plus derivative, limited to the
      range of the PWM and rounded down. */
  lemma PidCallExactly(c: Config, s: State, x: Input, kP: real)
    requires ValidStartup(s.startup) && s.mode.PidMode? && Runs(c, x) && (c.tau != 0 || c.t != 0)
    requires s.ePrev.Num? && s.iPrev.Num? && s.dPrev.Num? && s.mPrev.Num? && Kp(c, x.setpoint) == Num(kP)
    ensures var s', e, i := Next(c, s, x), Behind(c, x), NextIntegral(c, s.iPrev.x, Behind(c, x), s.ePrev.x);
      && s'.mode.PidMode? && s'.feedFwd == s.feedFwd && s'.startup == s.startup
      && s'.mPrev == Num(Mean(c, x)) && s'.ePrev == Num(e) && s'.iPrev == Num(i)
      && s'.dPrev == Filtered(c, Num(Mean(c, x)), s.mPrev, s.dPrev) && s'.dPrev.Num?
      && s'.written ==
           Some(LevelOf(s.feedFwd, kP, e, i, s'.dPrev.x, MaxOutput(c)))
  {
    hide Kp, Error, Measurement, Integrated, Filtered, MaxOutput, Behind, Mean, NextIntegral, Total, Mul, LevelOf;
    var e, i := Behind(c, x), NextIntegral(c, s.iPrev.x, Behind(c, x), s.ePrev.x);
    MeasuresMean(c, x);
    PidCall(c, s, x);
    IntegralIs(c, e, s.ePrev.x, s.iPrev.x);
    DerivativeIs(c, Mean(c, x), s.mPrev.x, s.dPrev.x);
    var d := Filtered(c, Num(Mean(c, x)), s.mPrev, s.dPrev).x;
    TotalIs(c, s.feedFwd, kP, e, i, d);
  }

  // ---- runs of PID calls ----

  function Follow(c: Config, s: State, xs: seq<Input>): (t: State)
    requires ValidStartup(s.startup)
    ensures ValidStartup(t.startup)
  {
    if xs == [] then s else Next(c, Follow(c, s, xs[..|xs| - 1]), xs[|xs| - 1])
  }

  predicate AllRun(c: Config, xs: seq<Input>) {
    forall i :: 0 <= i < |xs| ==> Runs(c, xs[i])
  }

  /** The trapezoids under the errors of the calls, after a first error. */
  function Trapezoids(c: Config, first: real, xs: seq<Input>): real
    requires AllRun(c, xs)
  {
    if xs == [] then 0.0
    else
      var init, x := xs[..|xs| - 1], xs[|xs| - 1];
      Trapezoids(c, first, init)
      + (Behind(c, x) + if init == [] then first else Behind(c, init[|init| - 1])) / 2.0
  }

  function PlainIntegral(c: Config, i: real, first: real, xs: seq<Input>): real
    requires AllRun(c, xs)
  {
    i + IntegralRate(c) * Trapezoids(c, first, xs)
  }

  /** At no call does the integral leave its limits. */
  predicate NeverLimited(c: Config, i: real, first: real, xs: seq<Input>)
    requires AllRun(c, xs)
  {
    && (xs != [] ==> NeverLimited(c, i, first, xs[..|xs| - 1]))
    && -10.0 * c.limMin as real <= PlainIntegral(c, i, first, xs) <= 10.0 * c.limMax as real
  }

  lemma PidKeepsErrors(c: Config, s: State, x: Input)
    requires ValidStartup(s.startup) && s.mode.PidMode? && Runs(c, x) && s.ePrev.Num? && s.iPrev.Num?
    ensures var s' := Next(c, s, x);
      && s'.mode.PidMode? && s'.ePrev == Num(Behind(c, x))
      && s'.iPrev == Num(NextIntegral(c, s.iPrev.x, Behind(c, x), s.ePrev.x))
  {
    hide Kp, Error, Measurement, Integrated, Filtered, MaxOutput, Behind, NextIntegral, Total;
    MeasuresMean(c, x);
    PidCall(c, s, x);
    IntegralIs(c, Behind(c, x), s.ePrev.x, s.iPrev.x);
  }

  lemma OneMoreTrapezoid(k: real, i: real, sum: real, e: real, ePrev: real)
    ensures i + k * sum + k * (e + ePrev) / 2.0 == i + k * (sum + (e + ePrev) / 2.0)
  {}

  lemma NoTrapezoids(k: real)
    ensures k * 0.0 == 0.0
  {}

  lemma PlainOneMore(c: Config, i: real, first: real, xs: seq<Input>)
    requires AllRun(c, xs) && xs != [] && NeverLimited(c, i, first, xs)
    ensures var init, x := xs[..|xs| - 1], xs[|xs| - 1];
      var ePrev := if init == [] then first else Behind(c, init[|init| - 1]);
      PlainIntegral(c, i, first, xs) == NextIntegral(c, PlainIntegral(c, i, first, init), Behind(c, x), ePrev)
  {
    hide Behind;
    var init, x := xs[..|xs| - 1], xs[|xs| - 1];
    var ePrev := if init == [] then first else Behind(c, init[|init| - 1]);
    OneMoreTrapezoid(IntegralRate(c), i, Trapezoids(c, first, init), Behind(c, x), ePrev);
  }

  /** Over calls that keep it within its limits the integral is k_i * t times the trapezoids under the
      errors. */
  lemma {:induction false} IntegralIsSum(c: Config, s: State, xs: seq<Input>)
    requires ValidStartup(s.startup) && s.mode.PidMode? && s.ePrev.Num? && s.iPrev.Num?
    requires AllRun(c, xs) && NeverLimited(c, s.iPrev.x, s.ePrev.x, xs)
    ensures var t := Follow(c, s, xs);
      && t.mode.PidMode?
      && t.ePrev == (if xs == [] then s.ePrev else Num(Behind(c, xs[|xs| - 1])))
      && t.iPrev == Num(PlainIntegral(c, s.iPrev.x, s.ePrev.x, xs))
  {
    hide Next, Behind, Runs, NextIntegral;
    var first, i0 := s.ePrev.x, s.iPrev.x;
    if xs == [] {
      NoTrapezoids(IntegralRate(c));
    } else {
      var init, x := xs[..|xs| - 1], xs[|xs| - 1];
      IntegralIsSum(c, s, init);
      var t := Follow(c, s, init);
      PidKeepsErrors(c, t, x);
      PlainOneMore(c, i0, first, xs);
      hide NeverLimited;
    }
  }

  // ---- starting and stopping ----

  lemma NoLoss(a: nat)
    requires a < U16
    ensures TwoThirds(a) == 2 * a / 3
  {}

  /** The level from the record: two thirds of the average of the entries before the first zero, rounded
      down twice. */
  lemma InitialLevelIs(c: Config, buf: seq<nat>)
    requires 0 < Leading(buf) && forall i :: 0 <= i < |buf| ==> buf[i] < U16
    ensures var n, level := Leading(buf), InitialLevel(c, buf);
      3 * n * level <= 2 * Sum(buf[..n]) < n * (3 * level + 4)
  {
    hide Sum, Leading, TwoThirds;
    var n := Leading(buf);
    var sum := Sum(buf[..n]);
    SumWithin(buf[..n], 0, U16 - 1);
    FloorBetween(sum, n, 0, U16 - 1);
    NoLoss(sum / n);
    assert InitialLevel(c, buf) == 2 * (sum / n) / 3;
    hide *;
    RoundedDown(sum, n);
    TwiceRounded(n, sum / n, 2 * (sum / n) / 3, sum);
  }

  lemma NoWrap(level: nat, max: nat)
    requires level <= max <= 12_500
    ensures (level + max / 250) % U16 == level + max / 250
  {}

  lemma NextLevelIs(c: Config, u: Startup)
    requires u.level <= MaxOutput(c) && InitialLevel(c, u.buf) <= MaxOutput(c)
    ensures var initial := InitialLevel(c, u.buf);
      var level := if u.level == 0 then initial else u.level;
      NextLevel(c, u) ==
        if level + MaxOutput(c) / 250 <= MaxOutput(c) then level + MaxOutput(c) / 250 else initial / 2
  {
    hide InitialLevel, MaxOutput;
    NoWrap(StartLevel(c, u), MaxOutput(c));
  }

  /** A startup call hands over exactly when the mean, less CV172, is 7.5 or more. Then the level goes on
      record and CV47 in 255ths of it is fed forward; otherwise it is written and raised by a 250th of the
      maximum, or, at the top, set to half the initial level. */
  lemma StartupCallExactly(c: Config, s: State, x: Input)
    requires ValidStartup(s.startup) && s.mode.StartupMode? && Runs(c, x)
    requires s.startup.level <= MaxOutput(c) && InitialLevel(c, s.startup.buf) <= MaxOutput(c)
    ensures var s', u := Next(c, s, x), s.startup;
      var initial := InitialLevel(c, u.buf);
      var level := if u.level == 0 then initial else u.level;
      && s'.mPrev == Num(Mean(c, x)) && s'.ePrev == s.ePrev && s'.iPrev == s.iPrev && s'.dPrev == s.dPrev
      && if 7.5 <= Mean(c, x) - c.adcOffset as real then
           && s'.mode.PidMode? && s'.written == s.written
           && s'.feedFwd == c.kFf as real / 255.0 * level as real
           && s'.startup == Startup(level, u.buf[u.idx := level], (u.idx + 1) % 16)
         else
           && s'.mode.StartupMode? && s'.written == Some(level) && s'.feedFwd == s.feedFwd
           && s'.startup == u.(level := if level + MaxOutput(c) / 250 <= MaxOutput(c)
                                        then level + MaxOutput(c) / 250 else initial / 2)
  {
    hide InitialLevel, Measurement, Corrected, Mean, AfterPid, NextLevel, MaxOutput, Behind, Error;
    MeasuresMean(c, x);
    NextLevelIs(c, s.startup);
  }

  /** A setpoint of zero or a change of direction stops the motor and forgets everything but the record and
      the last measurement. */
  lemma StopCallExactly(c: Config, s: State, x: Input)
    requires ValidStartup(s.startup) && (x.setpoint == 0 || x.directionChanged)
    ensures var zero := Num(0.0);
      Next(c, s, x) == State(StartupMode, s.feedFwd, zero, zero, zero, s.mPrev, s.startup.(level := 0), Some(0))
  {}

  // ---- the record over whole runs ----

  /** The levels at which a run handed over. */
  function Handovers(c: Config, xs: seq<Input>): seq<nat> {
    if xs == [] then []
    else
      var init, x := xs[..|xs| - 1], xs[|xs| - 1];
      var s := Run(c, init);
      Handovers(c, init) +
      if s.mode.StartupMode? && !Stops(x) && Turns(c, x) then [StartLevel(c, s.startup)] else []
  }

  lemma NextRemembers(c: Config, s: State, x: Input)
    requires ValidStartup(s.startup)
    ensures var u, u' := s.startup, Next(c, s, x).startup;
      if s.mode.StartupMode? && !Stops(x) && Turns(c, x)
      then u'.buf == u.buf[u.idx := StartLevel(c, u)] && u'.idx == (u.idx + 1) % 16
      else u'.buf == u.buf && u'.idx == u.idx
  {
    hide StartLevel, NextLevel, Turns, Total, Integrated, Filtered, Kp, Error, Measurement, FeedForward;
  }

  /** On every run the record holds the levels of the last sixteen handovers, from its first entry on, and
      zeros where there were not that many. */
  lemma {:induction false} RecordHoldsHandovers(c: Config, xs: seq<Input>)
    ensures var u, hs := Run(c, xs).startup, Handovers(c, xs);
      u.idx == |hs| % 16 && StartupSweep.Recorded(u.buf, hs)
  {
    hide StartLevel, Next, StartupSweep.Recorded, Turns, Stops;
    if xs == [] {
      StartupSweep.NothingRecorded();
    } else {
      var init := xs[..|xs| - 1];
      RecordHoldsHandovers(c, init);
      var s, hs := Run(c, init), Handovers(c, init);
      assert hs + [] == hs;
      StartupSweep.RecordOneMore(s.startup.buf, hs, StartLevel(c, s.startup));
      StartupSweep.IndexAdvances(|hs|);
      NextRemembers(c, s, xs[|xs| - 1]);
    }
  }
}
