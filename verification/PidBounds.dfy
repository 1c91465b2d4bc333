/** What the motor controller of the C firmware guarantees over whole runs, and for which CVs. */
module PidBounds {
  import opened Wire
  import opened Numbers
  import opened Floats
  import SpeedTable
  import TrimmedMean
  import DerivativeFilter
  import opened PidController

  // ---- when the arithmetic yields numbers ----

  lemma Shares(top: real, w: real)
    requires 0.0 <= top && 0.0 <= w <= 1.0
    ensures 0.0 <= top * w
    ensures top == 0.0 ==> top * w == 0.0 && top * (1.0 - w) == 0.0
    ensures w == 1.0 ==> top * w == top && top * (1.0 - w) == 0.0
    ensures 0.0 < top && w < 1.0 ==> 0.0 < top * (1.0 - w)
  {
    DerivativeFilter.NonNegativeProduct(top, w);
    if 0.0 < top && w < 1.0 {
      PositiveProduct(top, 1.0 - w);
    }
  }

  lemma ShiftIsShare(shift: u8, w: real)
    requires w == shift as real / 255.0
    ensures 0.0 <= w <= 1.0 && (w == 1.0 <==> shift == 255)
  {}

  lemma ThresholdsAre(c: Config, top: real, w: real)
    requires top == Top(c) as real && w == c.shift as real / 255.0
    ensures KpX1(c) == top * w && KpX2(c) == top * (1.0 - w)
  {
    hide Top;
  }

  lemma Thresholds(c: Config)
    ensures c.vHigh == 0 ==> KpX1(c) == 0.0 && KpX2(c) == 0.0
    ensures c.vHigh != 0 && c.shift == 255 ==> KpX1(c) == Top(c) as real && KpX2(c) == 0.0
    ensures c.vHigh != 0 && c.shift != 255 ==> 0.0 < KpX2(c)
    ensures 0.0 <= KpX1(c)
  {
    hide Top, KpX1, KpX2;
    var top, w := Top(c) as real, c.shift as real / 255.0;
    ThresholdsAre(c, top, w);
    ShiftIsShare(c.shift, w);
    Shares(top, w);
  }

  lemma SecondLine(c: Config)
    ensures KpX2(c) != 0.0 ==> KpM2(c).Num?
    ensures KpX2(c) == 0.0 ==> !KpM2(c).Num?
  {
    hide KpX2;
  }

  lemma FirstLine(c: Config)
    ensures KpX1(c) != 0.0 ==> KpM1(c).Num?
  {
    hide KpX1;
  }

  lemma OnLine(slope: Float, x: real, y: real)
    ensures Add(Mul(slope, Num(x)), Num(y)).Num? <==> slope.Num?
  {}

  lemma KpIsOnLine(c: Config, setpoint: nat)
    ensures setpoint as real < KpX1(c) ==> (Kp(c, setpoint).Num? <==> KpM1(c).Num?)
    ensures KpX1(c) <= setpoint as real ==> (Kp(c, setpoint).Num? <==> KpM2(c).Num?)
  {
    var sp := setpoint as real;
    hide KpM1, KpM2, KpX1, KpY;
    OnLine(KpM1(c), sp, KpY(c.y0));
    OnLine(KpM2(c), sp - KpX1(c), KpY(c.y1));
    assert Sub(Num(sp), Num(KpX1(c))) == Num(sp - KpX1(c));
    hide Add, Mul, Sub;
  }

  /** The proportional gain is a number exactly when the schedule does not end where its second line
      begins, or the setpoint is on the first line. CV60 = 255 is the documented upper end. */
  lemma GainIsNumberExactly(c: Config, setpoint: nat)
    ensures Kp(c, setpoint).Num? <==> (c.shift != 255 && c.vHigh != 0) || setpoint < 16 * c.vHigh
  {
    hide Kp, KpM1, KpM2, KpX1, KpX2;
    Thresholds(c);
    SecondLine(c);
    FirstLine(c);
    KpIsOnLine(c, setpoint);
  }

  function FilterOf(c: Config): DerivativeFilter.Filter {
    DerivativeFilter.Filter(KD(c), Tau(c), SampleTime(c))
  }

  lemma FilterFields(c: Config)
    ensures FilterOf(c) == DerivativeFilter.Filter(KD(c), Tau(c), SampleTime(c))
  {}

  lemma FilterInputs(c: Config)
    ensures 0.0 <= Tau(c) && 0.0 <= SampleTime(c) && 0.0 <= KD(c)
    ensures (Tau(c) == 0.0 <==> c.tau == 0) && (SampleTime(c) == 0.0 <==> c.t == 0) && (KD(c) == 0.0 <==> c.kD == 0)
    ensures SampleTime(c) <= 2.0 * Tau(c) <==> c.t <= 2 * c.tau
    ensures DerivativeFilter.Sensible(FilterOf(c)) <==> c.tau != 0 || c.t != 0
  {}

  /** The filter coefficients are numbers exactly when CV48 and CV49 are not both zero. */
  lemma CoefficientsAreNumbersExactly(c: Config)
    ensures Cd0(c).Num? && Cd1(c).Num? <==> c.tau != 0 || c.t != 0
    ensures c.tau != 0 || c.t != 0 ==>
      var p := FilterOf(c);
      DerivativeFilter.Sensible(p) && Cd0(c) == Num(DerivativeFilter.Cd0(p)) && Cd1(c) == Num(DerivativeFilter.Cd1(p))
    ensures c.tau == 0 && c.t == 0 ==> Cd1(c) == NaN
  {
    hide Tau, SampleTime, KD;
    FilterInputs(c);
  }

  /** How many samples the cutoffs leave. */
  function Left(c: Config): int {
    c.samples - (c.cutLow + c.cutHigh)
  }

  /** A measurement is a number, of twelve bits, exactly when the cutoffs do not leave exactly no sample;
      cutoffs that cross make it zero. */
  lemma MeasurementIsNumberExactly(c: Config, x: Input)
    requires Real(c, x)
    ensures Measurement(c, x).Num? <==> Left(c) != 0
    ensures Left(c) == 0 ==> Measurement(c, x) == NaN
    ensures Left(c) != 0 ==> 0.0 <= Measurement(c, x).x <= DerivativeFilter.ADC_MAX
    ensures Left(c) < 0 ==> Measurement(c, x) == ZERO
  {
    TrimmedMean.MeasuredWithin(x.samples, c.cutLow, c.cutHigh, ADC_RANGE);
  }

  // ---- inputs that can happen ----

  /** Some setpoint is not zero. */
  predicate Moves(c: Config) {
    c.vStart != 0 || c.vMid != 0 || c.vHigh != 0
  }

  lemma SetpointsWithoutVoltage(c: Config, setpoint: nat)
    requires !Moves(c) && InTable(c, setpoint)
    ensures setpoint == 0
  {}

  lemma SlowEntry(v: u8)
    requires 0 < v
    ensures 1 <= SpeedTable.Entry(0, 16 * v, 4) <= 260
  {}

  lemma TopSetpoint(c: Config) returns (setpoint: nat)
    ensures InTable(c, setpoint) && setpoint == 16 * c.vHigh
  {
    setpoint := Top(c);
    assert SpeedTable.TableEntry(Speeds(c), 126) == setpoint;
  }

  /** A setpoint in use, a slow one if the table ends at zero. */
  lemma SomeSetpoint(c: Config) returns (setpoint: nat)
    requires Moves(c)
    ensures InTable(c, setpoint) && 0 < setpoint && (c.vHigh == 0 ==> setpoint <= 260)
  {
    hide SpeedTable.Entry;
    var t := Speeds(c);
    if c.vStart != 0 {
      SpeedTable.SegmentEnds(c.vStart, SpeedTable.VMid(t));
      setpoint := c.vStart;
      assert SpeedTable.TableEntry(t, 1) == setpoint;
    } else if c.vMid != 0 {
      SlowEntry(c.vMid);
      setpoint := SpeedTable.Entry(0, 16 * c.vMid, 4);
      assert SpeedTable.TableEntry(t, 5) == setpoint;
    } else {
      setpoint := TopSetpoint(c);
    }
  }

  /** A call that sees one value throughout. */
  function Still(c: Config, setpoint: nat, v: nat): Input {
    Input(setpoint, false, seq(c.samples, _ => v))
  }

  lemma StillIsReal(c: Config, setpoint: nat, v: nat)
    requires InTable(c, setpoint) && v <= ADC_RANGE
    ensures Real(c, Still(c, setpoint, v))
    ensures 0 < Left(c) ==> Measurement(c, Still(c, setpoint, v)) == Num(v as real)
  {
    hide TrimmedMean.Measured;
    if 0 < Left(c) {
      TrimmedMean.MeasuredConstant(v, c.samples, c.cutLow, c.cutHigh);
    }
  }

  lemma RunOfOne(c: Config, x: Input)
    ensures Run(c, [x]) == Next(c, Initial(), x)
  {
    hide Next;
    assert [x][..0] == [];
  }

  lemma RunOfTwo(c: Config, x: Input, y: Input)
    ensures Run(c, [x, y]) == Next(c, Next(c, Initial(), x), y)
  {
    hide Next;
    assert [x, y][..1] == [x];
    RunOfOne(c, x);
  }

  /** A first call that hands over: the highest value, or no number. */
  lemma HandsOver(c: Config, setpoint: nat)
    requires InTable(c, setpoint) && 0 < setpoint && 0 <= Left(c)
    ensures var x := Still(c, setpoint, ADC_RANGE);
      var s := Next(c, Initial(), x);
      && Real(c, x) && s.mode.PidMode? && s.mPrev == Measurement(c, x)
      && s.ePrev == ZERO && s.iPrev == ZERO && s.dPrev == ZERO
  {
    StillIsReal(c, setpoint, ADC_RANGE);
    MeasurementIsNumberExactly(c, Still(c, setpoint, ADC_RANGE));
    hide InitialLevel, Measurement, FeedForward, Still, Real;
  }

  /** A call that does not stop in PID mode. */
  lemma PidCall(c: Config, s: State, x: Input)
    requires ValidStartup(s.startup) && s.mode.PidMode? && 0 < x.setpoint && !x.directionChanged
    ensures Next(c, s, x) == AfterPid(c, s, x).(mPrev := Measurement(c, x))
  {
    hide AfterPid, AfterStartup;
  }

  /** With no number for the measurement nothing in the PID controller is one. */
  lemma NothingIsNumber(c: Config, s: State, x: Input)
    requires Measurement(c, x) == NaN
    ensures var s' := AfterPid(c, s, x); s'.iPrev == NaN && s'.dPrev == NaN && s'.written == None
  {
    hide Kp, Ci0, Cd0, Cd1, Measurement;
  }

  // ---- every run ----

  lemma {:induction false} NeverMoves(c: Config, xs: seq<Input>)
    requires !Moves(c) && AllReal(c, xs)
    ensures var s := Run(c, xs);
      s.mode.StartupMode? && s.written == Some(0) && s.iPrev == ZERO && s.dPrev == ZERO
  {
    hide AfterStartup, AfterPid;
    if xs != [] {
      var x := xs[|xs| - 1];
      assert Real(c, x);
      NeverMoves(c, xs[..|xs| - 1]);
      SetpointsWithoutVoltage(c, x.setpoint);
    }
  }

  /** Crossed cutoffs measure zero, so that startup never ends. */
  lemma {:induction false} NeverTurns(c: Config, xs: seq<Input>)
    requires Left(c) < 0 && AllReal(c, xs)
    ensures var s := Run(c, xs); s.mode.StartupMode? && s.iPrev == ZERO && s.dPrev == ZERO
  {
    hide InitialLevel, AfterPid, Measurement, NextLevel;
    if xs != [] {
      var x := xs[|xs| - 1];
      assert Real(c, x);
      NeverTurns(c, xs[..|xs| - 1]);
      MeasurementIsNumberExactly(c, x);
    }
  }

  /** What the PID controller remembers is numbers. */
  predicate Numeric(c: Config, s: State) {
    && s.ePrev.Num? && s.iPrev.Num? && s.mPrev.Num?
    && IntLimMin(c) <= s.iPrev.x <= IntLimMax(c)
    && 0.0 <= s.mPrev.x <= DerivativeFilter.ADC_MAX
  }

  lemma CallKeepsNumeric(c: Config, s: State, x: Input)
    requires ValidStartup(s.startup) && Numeric(c, s) && Real(c, x) && Left(c) != 0
    ensures Numeric(c, Next(c, s, x))
  {
    hide InitialLevel, Measurement, Filtered, Total, Kp, Real, NextLevel;
    MeasurementIsNumberExactly(c, x);
  }

  lemma InitialIsNumeric(c: Config)
    ensures Numeric(c, Initial())
  {}

  lemma {:induction false} RunIsNumeric(c: Config, xs: seq<Input>)
    requires Left(c) != 0 && AllReal(c, xs)
    ensures Numeric(c, Run(c, xs))
  {
    if xs != [] {
      var x := xs[|xs| - 1];
      assert Real(c, x);
      RunIsNumeric(c, xs[..|xs| - 1]);
      CallKeepsNumeric(c, Run(c, xs[..|xs| - 1]), x);
    }
    hide Next, Numeric;
    assert xs == [] ==> Numeric(c, Initial()) by {
      InitialIsNumeric(c);
    }
  }

  // ---- the integral ----

  ghost predicate IntegralStaysWithinLimits(c: Config) {
    forall xs :: AllReal(c, xs) ==>
      var i := Run(c, xs).iPrev; i.Num? && IntLimMin(c) <= i.x <= IntLimMax(c)
  }

  /** Two calls after which nothing is a number. */
  lemma NoNumberRun(c: Config) returns (xs: seq<Input>)
    requires Moves(c) && Left(c) == 0
    ensures AllReal(c, xs)
    ensures var s := Run(c, xs); s.iPrev == NaN && s.dPrev == NaN && s.written == None
  {
    hide Next, Run, AfterPid, Measurement, Real;
    var setpoint := SomeSetpoint(c);
    var x := Still(c, setpoint, ADC_RANGE);
    xs := [x, x];
    HandsOver(c, setpoint);
    MeasurementIsNumberExactly(c, x);
    RunOfTwo(c, x, x);
    var s := Next(c, Initial(), x);
    PidCall(c, s, x);
    NothingIsNumber(c, s, x);
  }

  /** The integral is a number within its limits on every run exactly when the cutoffs do not leave
      exactly no sample, or no setpoint moves the motor at all. */
  lemma IntegralBoundedExactly(c: Config)
    ensures IntegralStaysWithinLimits(c) <==> !Moves(c) || Left(c) != 0
  {
    hide Run, AllReal;
    if Left(c) != 0 || !Moves(c) {
      forall xs | AllReal(c, xs) ensures var i := Run(c, xs).iPrev; i.Num? && IntLimMin(c) <= i.x <= IntLimMax(c) {
        if Left(c) != 0 {
          RunIsNumeric(c, xs);
        } else {
          NeverMoves(c, xs);
        }
        hide Run;
      }
    } else {
      var xs := NoNumberRun(c);
    }
  }

  // ---- the derivative ----

  /** The firmware's filter is that of DerivativeFilter, while it calculates with numbers. */
  lemma FilterIsReal(c: Config, m: real, mPrev: real, dPrev: real)
    requires c.tau != 0 || c.t != 0
    ensures DerivativeFilter.Sensible(FilterOf(c))
    ensures Filtered(c, Num(m), Num(mPrev), Num(dPrev)) ==
            Num(DerivativeFilter.Filtered(FilterOf(c), m, mPrev, dPrev))
  {
    hide Cd0, Cd1, DerivativeFilter.Cd0, DerivativeFilter.Cd1, FilterOf, DerivativeFilter.Sensible;
    CoefficientsAreNumbersExactly(c);
  }

  predicate Good(c: Config, s: State)
    requires DerivativeFilter.Sensible(FilterOf(c)) && 0.0 < Tau(c)
  {
    && s.mPrev.Num? && 0.0 <= s.mPrev.x <= DerivativeFilter.ADC_MAX && s.dPrev.Num?
    && (s.mode.StartupMode? ==> s.dPrev == ZERO)
    && DerivativeFilter.Good(FilterOf(c), s.mPrev.x, s.dPrev.x)
  }

  lemma CallKeepsGood(c: Config, s: State, x: Input)
    requires DerivativeFilter.Sensible(FilterOf(c)) && 0.0 < Tau(c)
    requires ValidStartup(s.startup) && Good(c, s) && Real(c, x) && Left(c) != 0
    ensures Good(c, Next(c, s, x))
  {
    hide Measurement, Real, FilterOf, Tau, DerivativeFilter.Good, DerivativeFilter.Filtered, Filtered, InitialLevel,
      Integrated, Total, Kp, DerivativeFilter.Sensible, Turns;
    MeasurementIsNumberExactly(c, x);
    assert c.tau != 0 by {
      FilterInputs(c);
    }
    assert FilterOf(c).tau == Tau(c) by {
      FilterFields(c);
    }
    var p, m := FilterOf(c), Measurement(c, x).x;
    DerivativeFilter.ZeroIsGood(p, s.mPrev.x);
    DerivativeFilter.ZeroIsGood(p, m);
    DerivativeFilter.FilterKeepsGood(p, s.mPrev.x, m, s.dPrev.x);
    FilterIsReal(c, m, s.mPrev.x, s.dPrev.x);
  }

  lemma {:induction false} RunIsGood(c: Config, xs: seq<Input>)
    requires c.tau != 0 && Left(c) != 0 && AllReal(c, xs)
    ensures DerivativeFilter.Sensible(FilterOf(c)) && 0.0 < Tau(c) && Good(c, Run(c, xs))
  {
    FilterInputs(c);
    FilterFields(c);
    hide Tau, FilterOf, DerivativeFilter.Sensible, DerivativeFilter.Good, Next;
    if xs == [] {
      DerivativeFilter.ZeroIsGood(FilterOf(c), 0.0);
      assert DerivativeFilter.Good(FilterOf(c), Initial().mPrev.x, Initial().dPrev.x);
    } else {
      var x := xs[|xs| - 1];
      assert Real(c, x);
      RunIsGood(c, xs[..|xs| - 1]);
      CallKeepsGood(c, Run(c, xs[..|xs| - 1]), x);
    }
  }

  predicate DerivativeWithin(s: State, bound: real) {
    s.dPrev.Num? && DerivativeFilter.Within(s.dPrev.x, bound)
  }

  /** On every run with a filter time constant, whatever the sampling time: the filtered derivative
      stays within its bound, unless the cutoffs leave exactly no sample. */
  lemma DerivativeStaysBounded(c: Config, xs: seq<Input>)
    requires c.tau != 0 && Left(c) != 0 && AllReal(c, xs)
    ensures DerivativeFilter.Sensible(FilterOf(c)) && 0.0 < Tau(c)
    ensures DerivativeWithin(Run(c, xs), DerivativeFilter.Bound(FilterOf(c)))
  {
    hide Run, FilterOf, Tau, DerivativeFilter.Sensible, DerivativeFilter.Bound, DerivativeFilter.Good;
    RunIsGood(c, xs);
    FilterFields(c);
    var s := Run(c, xs);
    DerivativeFilter.GoodIsWithin(FilterOf(c), s.mPrev.x, s.dPrev.x);
  }

  lemma FullDrop(p: DerivativeFilter.Filter)
    requires DerivativeFilter.Sensible(p) && 0.0 < p.tau && p.t <= 2.0 * p.tau
    ensures DerivativeFilter.Filtered(p, 0.0, DerivativeFilter.ADC_MAX, 0.0) == DerivativeFilter.Bound(p)
  {
    hide DerivativeFilter.Cd0, DerivativeFilter.Cd1, DerivativeFilter.Bound;
    DerivativeFilter.CoefficientBound(p);
    DerivativeFilter.NegatedJump(DerivativeFilter.Cd0(p));
    assert DerivativeFilter.Cd1(p) * 0.0 == 0.0;
  }

  /** A call that sees the measurement fall through the whole range of the converter. */
  lemma DropCall(c: Config, s: State, x: Input)
    requires c.tau != 0 && c.t <= 2 * c.tau
    requires Measurement(c, x) == ZERO && s.mPrev == Num(DerivativeFilter.ADC_MAX) && s.dPrev == ZERO
    ensures DerivativeFilter.Sensible(FilterOf(c)) && 0.0 < Tau(c)
    ensures AfterPid(c, s, x).dPrev == Num(DerivativeFilter.Bound(FilterOf(c)))
  {
    hide Measurement, Filtered, DerivativeFilter.Filtered, DerivativeFilter.Bound, DerivativeFilter.Sensible,
      Integrated, Total, Kp, Error, Tau, SampleTime, KD, FilterOf;
    FilterInputs(c);
    FilterFields(c);
    FilterIsReal(c, 0.0, DerivativeFilter.ADC_MAX, 0.0);
    FullDrop(FilterOf(c));
  }

  /** A filter that does not swing meets its bound at the second call. */
  lemma BoundIsMet(c: Config) returns (xs: seq<Input>)
    requires Moves(c) && 0 < Left(c) && c.tau != 0 && c.t <= 2 * c.tau
    ensures AllReal(c, xs)
    ensures DerivativeFilter.Sensible(FilterOf(c)) && 0.0 < Tau(c)
    ensures Run(c, xs).dPrev == Num(DerivativeFilter.Bound(FilterOf(c)))
  {
    hide Next, Run, Measurement, Real, AfterPid, DerivativeFilter.Bound, DerivativeFilter.Sensible, FilterOf,
      Tau, InTable;
    FilterInputs(c);
    var setpoint := SomeSetpoint(c);
    var x, y := Still(c, setpoint, ADC_RANGE), Still(c, setpoint, 0);
    xs := [x, y];
    HandsOver(c, setpoint);
    StillIsReal(c, setpoint, ADC_RANGE);
    StillIsReal(c, setpoint, 0);
    RunOfTwo(c, x, y);
    var s := Next(c, Initial(), x);
    PidCall(c, s, y);
    DropCall(c, s, y);
  }

  // ---- without a time constant ----

  function Jump(c: Config, setpoint: nat, n: nat): Input {
    Still(c, setpoint, if n % 2 == 1 then 0 else ADC_RANGE)
  }

  /** Measurements that jump between the ends of the converter's range after a handover. */
  function Jumping(c: Config, setpoint: nat, n: nat): (xs: seq<Input>)
    ensures |xs| == n + 1
  {
    if n == 0 then [Jump(c, setpoint, 0)] else Jumping(c, setpoint, n - 1) + [Jump(c, setpoint, n)]
  }

  lemma {:induction false} JumpingIsReal(c: Config, setpoint: nat, n: nat)
    requires InTable(c, setpoint)
    ensures AllReal(c, Jumping(c, setpoint, n))
  {
    hide Real, Still;
    StillIsReal(c, setpoint, 0);
    StillIsReal(c, setpoint, ADC_RANGE);
    if n > 0 {
      JumpingIsReal(c, setpoint, n - 1);
    }
  }

  lemma RunJumps(c: Config, setpoint: nat, n: nat)
    requires 0 < n
    ensures Run(c, Jumping(c, setpoint, n)) == Next(c, Run(c, Jumping(c, setpoint, n - 1)), Jump(c, setpoint, n))
  {
    hide Next;
    assert Jumping(c, setpoint, n)[..n] == Jumping(c, setpoint, n - 1);
  }

  lemma UndampedCall(c: Config, s: State, x: Input)
    requires c.tau == 0 && c.t != 0 && ValidStartup(s.startup) && s.mode.PidMode?
    requires 0 < x.setpoint && !x.directionChanged
    requires Measurement(c, x).Num? && s.mPrev.Num? && s.dPrev.Num?
    ensures DerivativeFilter.Sensible(FilterOf(c))
    ensures var s' := Next(c, s, x);
      && s'.mode.PidMode? && s'.mPrev == Measurement(c, x)
      && s'.dPrev == Num(DerivativeFilter.Cd0(FilterOf(c)) * (Measurement(c, x).x - s.mPrev.x) - s.dPrev.x)
  {
    hide DerivativeFilter.Cd0, DerivativeFilter.Cd1, Filtered, Measurement, Integrated, Total, Kp, Error, Next;
    FilterIsReal(c, Measurement(c, x).x, s.mPrev.x, s.dPrev.x);
    DerivativeFilter.NoDamping(FilterOf(c));
    PidCall(c, s, x);
  }

  /** What n jumps leave behind. */
  predicate Jumped(c: Config, s: State, n: nat)
    requires DerivativeFilter.Sensible(FilterOf(c))
  {
    var c0 := DerivativeFilter.Cd0(FilterOf(c));
    && s.mode.PidMode?
    && s.mPrev == (if n % 2 == 1 then ZERO else Num(DerivativeFilter.ADC_MAX))
    && s.dPrev == Num(if n % 2 == 1 then -DerivativeFilter.Swings(c0, n) else DerivativeFilter.Swings(c0, n))
  }

  lemma FirstJump(c: Config, setpoint: nat)
    requires DerivativeFilter.Sensible(FilterOf(c)) && 0 < Left(c) && InTable(c, setpoint) && 0 < setpoint
    ensures Jumped(c, Run(c, Jumping(c, setpoint, 0)), 0)
  {
    hide Next, Run, Still, Measurement, Real, DerivativeFilter.Cd0, DerivativeFilter.Swings;
    HandsOver(c, setpoint);
    RunOfOne(c, Jump(c, setpoint, 0));
    StillIsReal(c, setpoint, ADC_RANGE);
    DerivativeFilter.NoSwings(DerivativeFilter.Cd0(FilterOf(c)));
  }

  lemma OneMoreJump(c: Config, s: State, setpoint: nat, n: nat)
    requires c.tau == 0 && c.t != 0 && 0 < Left(c) && InTable(c, setpoint) && 0 < setpoint && 0 < n
    requires DerivativeFilter.Sensible(FilterOf(c)) && ValidStartup(s.startup) && Jumped(c, s, n - 1)
    ensures Jumped(c, Next(c, s, Jump(c, setpoint, n)), n)
  {
    hide Next, Measurement, Real, DerivativeFilter.Cd0, DerivativeFilter.Swings, FilterOf, InTable;
    var x := Jump(c, setpoint, n);
    StillIsReal(c, setpoint, 0);
    StillIsReal(c, setpoint, ADC_RANGE);
    UndampedCall(c, s, x);
    DerivativeFilter.JumpAdds(DerivativeFilter.Cd0(FilterOf(c)), n, s.dPrev.x);
  }

  /** With CV48 at zero nothing damps the derivative: each jump adds to it. */
  lemma {:induction false} UndampedDerivativeGrows(c: Config, setpoint: nat, n: nat)
    requires c.tau == 0 && c.t != 0 && 0 < Left(c) && InTable(c, setpoint) && 0 < setpoint
    ensures DerivativeFilter.Sensible(FilterOf(c))
    ensures Jumped(c, Run(c, Jumping(c, setpoint, n)), n)
  {
    FilterInputs(c);
    hide *;
    if n == 0 {
      FirstJump(c, setpoint);
    } else {
      RunJumps(c, setpoint, n);
      UndampedDerivativeGrows(c, setpoint, n - 1);
      OneMoreJump(c, Run(c, Jumping(c, setpoint, n - 1)), setpoint, n);
    }
  }

  ghost predicate BoundsDerivative(c: Config, b: real) {
    forall xs :: AllReal(c, xs) ==> DerivativeWithin(Run(c, xs), b)
  }

  lemma NoBound(c: Config, b: real)
    requires Moves(c) && 0 < Left(c) && c.kD != 0 && c.tau == 0 && c.t != 0
    ensures !BoundsDerivative(c, b)
  {
    CoefficientsAreNumbersExactly(c);
    var p := FilterOf(c);
    DerivativeFilter.NoDamping(p);
    hide DerivativeFilter.Cd0, DerivativeFilter.Cd1, DerivativeFilter.Sensible, DerivativeFilter.Swings,
      DerivativeFilter.Within, Run, Jumping, InTable, AllReal, FilterOf;
    var setpoint := SomeSetpoint(c);
    var n := DerivativeFilter.SwingsExceed(DerivativeFilter.Cd0(p), b);
    UndampedDerivativeGrows(c, setpoint, n);
    JumpingIsReal(c, setpoint, n);
    assert !DerivativeWithin(Run(c, Jumping(c, setpoint, n)), b);
  }

  /** With neither a time constant nor a sampling time the second call yields no number. */
  lemma UndefinedFilter(c: Config) returns (xs: seq<Input>)
    requires Moves(c) && 0 < Left(c) && c.tau == 0 && c.t == 0
    ensures AllReal(c, xs)
    ensures Run(c, xs).dPrev == NaN && Run(c, xs).written == None
  {
    hide Cd0, Cd1, Kp, Ci0, Next, Run, Measurement, Real, Error;
    CoefficientsAreNumbersExactly(c);
    var setpoint := SomeSetpoint(c);
    var x := Still(c, setpoint, ADC_RANGE);
    xs := [x, x];
    HandsOver(c, setpoint);
    RunOfTwo(c, x, x);
    PidCall(c, Next(c, Initial(), x), x);
  }

  lemma CallKeepsNoDerivative(c: Config, s: State, x: Input)
    requires c.kD == 0 && (c.tau != 0 || c.t != 0) && Left(c) != 0 && Real(c, x)
    requires ValidStartup(s.startup) && Numeric(c, s) && s.dPrev == ZERO
    ensures Next(c, s, x).dPrev == ZERO
  {
    hide DerivativeFilter.Filtered, DerivativeFilter.Sensible, Filtered, Measurement, InitialLevel, Integrated, Total,
      Kp, FilterOf, NextLevel, Real, Turns, KD;
    MeasurementIsNumberExactly(c, x);
    FilterIsReal(c, Measurement(c, x).x, s.mPrev.x, 0.0);
    assert FilterOf(c).kD == 0.0 by {
      FilterFields(c);
      FilterInputs(c);
    }
    DerivativeFilter.NoGain(FilterOf(c), Measurement(c, x).x, s.mPrev.x);
  }

  lemma {:induction false} NoGainNoDerivative(c: Config, xs: seq<Input>)
    requires c.kD == 0 && (c.tau != 0 || c.t != 0) && Left(c) != 0 && AllReal(c, xs)
    ensures Run(c, xs).dPrev == ZERO
  {
    hide Next, Numeric, Real;
    if xs != [] {
      var init, x := xs[..|xs| - 1], xs[|xs| - 1];
      assert Real(c, x);
      NoGainNoDerivative(c, init);
      RunIsNumeric(c, init);
      CallKeepsNoDerivative(c, Run(c, init), x);
    }
  }

  lemma NoBoundAtAll(c: Config, b: real)
    requires Moves(c) && 0 <= Left(c)
    requires Left(c) == 0 || (c.tau == 0 && (c.kD != 0 || c.t == 0))
    ensures !BoundsDerivative(c, b)
  {
    if Left(c) == 0 {
      var xs := NoNumberRun(c);
      assert !DerivativeWithin(Run(c, xs), b);
    } else if c.t == 0 {
      var xs := UndefinedFilter(c);
      assert !DerivativeWithin(Run(c, xs), b);
    } else {
      NoBound(c, b);
    }
  }

  /** For all settings of the CVs: some bound holds for the derivative, as a number, on every run exactly
      when the motor never moves, or the cutoffs cross, or they leave a sample and there is a time
      constant, or else no derivative gain and a sampling time. */
  lemma DerivativeBoundedExactly(c: Config)
    ensures (exists b: real {:trigger BoundsDerivative(c, b)} :: BoundsDerivative(c, b)) <==>
      || !Moves(c)
      || Left(c) < 0
      || (0 < Left(c) && (c.tau != 0 || (c.kD == 0 && c.t != 0)))
  {
    if !Moves(c) || Left(c) < 0 || (0 < Left(c) && c.tau == 0 && c.kD == 0 && c.t != 0) {
      forall xs | AllReal(c, xs) ensures DerivativeWithin(Run(c, xs), 0.0) {
        if !Moves(c) {
          NeverMoves(c, xs);
        } else if Left(c) < 0 {
          NeverTurns(c, xs);
        } else {
          NoGainNoDerivative(c, xs);
        }
        hide Run;
      }
      assert BoundsDerivative(c, 0.0);
    } else if 0 < Left(c) && c.tau != 0 {
      CoefficientsAreNumbersExactly(c);
      forall xs | AllReal(c, xs) ensures DerivativeWithin(Run(c, xs), DerivativeFilter.Bound(FilterOf(c))) {
        DerivativeStaysBounded(c, xs);
      }
      assert BoundsDerivative(c, DerivativeFilter.Bound(FilterOf(c)));
    } else {
      forall b: real ensures !BoundsDerivative(c, b) {
        NoBoundAtAll(c, b);
      }
    }
  }

  // ---- the levels ----

  /** The level the very first startup call begins with. */
  function FirstLevel(c: Config): nat {
    TwoThirds(c.zeroByZero)
  }

  predicate LevelsGood(c: Config, s: State) {
    && s.written.Some? && s.written.value <= MaxOutput(c) && s.startup.level <= MaxOutput(c)
    && forall i :: 0 <= i < |s.startup.buf| ==> s.startup.buf[i] <= MaxOutput(c)
  }

  lemma TwoThirdsIsLess(x: nat)
    requires x < U16
    ensures TwoThirds(x) <= x
  {}

  lemma InitialLevelBounded(c: Config, buf: seq<nat>)
    requires FirstLevel(c) <= MaxOutput(c)
    requires forall i :: 0 <= i < |buf| ==> buf[i] <= MaxOutput(c)
    ensures InitialLevel(c, buf) <= MaxOutput(c)
  {
    hide MaxOutput, TwoThirds, Leading;
    var n := Leading(buf);
    if 0 < n {
      SumWithin(buf[..n], 0, MaxOutput(c));
      FloorBetween(Sum(buf[..n]), n, 0, MaxOutput(c));
      TwoThirdsIsLess(Sum(buf[..n]) / n);
    }
  }

  /** All the arithmetic of a PID call is numbers. */
  predicate Calculable(c: Config) {
    0 < Left(c) && c.shift != 255 && c.vHigh != 0 && (c.tau != 0 || c.t != 0)
  }

  lemma PidCallWrites(c: Config, s: State, x: Input)
    requires Calculable(c) && Real(c, x) && Numeric(c, s) && s.dPrev.Num?
    ensures var s' := AfterPid(c, s, x);
      s'.dPrev.Num? && s'.written.Some? && s'.written.value <= MaxOutput(c)
  {
    GainIsNumberExactly(c, x.setpoint);
    MeasurementIsNumberExactly(c, x);
    CoefficientsAreNumbersExactly(c);
    hide Kp, Measurement, Cd0, Cd1, Ci0, MaxOutput, Real;
  }

  lemma CallKeepsLevels(c: Config, s: State, x: Input)
    requires ValidStartup(s.startup) && FirstLevel(c) <= MaxOutput(c) && LevelsGood(c, s) && s.dPrev.Num?
    requires Real(c, x) && Numeric(c, s) && (s.mode.PidMode? || Turns(c, x) ==> Calculable(c))
    ensures LevelsGood(c, Next(c, s, x)) && Next(c, s, x).dPrev.Num?
  {
    hide InitialLevel, FirstLevel, Measurement, Filtered, Integrated, Total, Kp, Calculable, Real, Numeric,
      Turns, MaxOutput;
    InitialLevelBounded(c, s.startup.buf);
    if s.mode.PidMode? {
      PidCallWrites(c, s, x);
    }
  }

  lemma {:induction false} RunKeepsLevels(c: Config, xs: seq<Input>)
    requires FirstLevel(c) <= MaxOutput(c) && (Left(c) < 0 || Calculable(c)) && AllReal(c, xs)
    ensures LevelsGood(c, Run(c, xs)) && Run(c, xs).dPrev.Num?
  {
    if xs != [] {
      var init, x := xs[..|xs| - 1], xs[|xs| - 1];
      assert Real(c, x);
      RunKeepsLevels(c, init);
      RunIsNumeric(c, init);
      if Left(c) < 0 {
        NeverTurns(c, init);
        MeasurementIsNumberExactly(c, x);
      }
      CallKeepsLevels(c, Run(c, init), x);
      hide LevelsGood, Next, Measurement, Numeric, Calculable, Real;
    }
  }

  predicate LevelWithin(c: Config, s: State) {
    s.written.Some? && s.written.value <= MaxOutput(c)
  }

  ghost predicate LevelsBounded(c: Config) {
    forall xs :: AllReal(c, xs) ==> LevelWithin(c, Run(c, xs))
  }

  /** Standing still at the first call writes the first level. */
  lemma FirstCallWrites(c: Config) returns (xs: seq<Input>)
    requires Moves(c) && Left(c) != 0
    ensures AllReal(c, xs) && Run(c, xs).written == Some(FirstLevel(c))
  {
    hide TwoThirds, Run, AfterPid, Measurement, Real, NextLevel;
    var setpoint := SomeSetpoint(c);
    var x := Still(c, setpoint, 0);
    xs := [x];
    StillIsReal(c, setpoint, 0);
    MeasurementIsNumberExactly(c, x);
    RunOfOne(c, x);
    LeadingIs(Initial().startup.buf, 0);
  }

  lemma NoNumberTimesZero(a: Float)
    requires !a.Num?
    ensures Mul(a, Num(0.0)) == NaN
  {}

  /** Where the second line has no length, its only point is no number. */
  lemma GainAtTheTop(c: Config)
    requires c.shift == 255 && c.vHigh != 0
    ensures Kp(c, 16 * c.vHigh) == NaN
  {
    hide Top, KpM1, KpM2, KpX1, KpX2, KpY;
    Thresholds(c);
    SecondLine(c);
    NoNumberTimesZero(KpM2(c));
    assert Sub(Num((16 * c.vHigh) as real), Num(KpX1(c))) == Num(0.0);
  }

  lemma ProportionalPart(c: Config, x: Input)
    requires 0 < x.setpoint && Measurement(c, x).Num?
    requires if c.vHigh == 0 then Measurement(c, x).x == (x.setpoint + c.adcOffset) as real
             else c.shift == 255 && x.setpoint == 16 * c.vHigh
    ensures Mul(Kp(c, x.setpoint), Error(c, x)) == NaN
  {
    hide Kp, Measurement;
    if c.vHigh == 0 {
      GainIsNumberExactly(c, x.setpoint);
      assert Error(c, x) == Num(0.0);
      NoNumberTimesZero(Kp(c, x.setpoint));
    } else {
      GainAtTheTop(c);
    }
    hide Error;
  }

  /** A setpoint and a value at which the proportional part is no number. */
  lemma UndefinedGain(c: Config) returns (xs: seq<Input>)
    requires Moves(c) && 0 < Left(c) && (c.shift == 255 || c.vHigh == 0)
    ensures AllReal(c, xs) && Run(c, xs).written == None
  {
    hide Kp, Cd0, Cd1, Ci0, Next, Run, Measurement, Real, Error;
    var setpoint, v: nat;
    if c.vHigh == 0 {
      setpoint := SomeSetpoint(c);
      v := setpoint + c.adcOffset;
    } else {
      setpoint := TopSetpoint(c);
      v := 0;
    }
    var x, y := Still(c, setpoint, ADC_RANGE), Still(c, setpoint, v);
    xs := [x, y];
    HandsOver(c, setpoint);
    StillIsReal(c, setpoint, v);
    RunOfTwo(c, x, y);
    PidCall(c, Next(c, Initial(), x), y);
    ProportionalPart(c, y);
  }

  /** For all settings of the CVs: every level written on every run is defined and at most the maximum
      exactly when the motor never moves, or: the first level, which depends on what the processor makes
      of 0 / 0, is; the cutoffs do not leave exactly no sample; and, if they leave one, the gain schedule
      does not end at its second line and CV48 and CV49 are not both zero. */
  lemma LevelsBoundedExactly(c: Config)
    ensures LevelsBounded(c) <==>
      || !Moves(c)
      || (FirstLevel(c) <= MaxOutput(c) && (Left(c) < 0 || Calculable(c)))
  {
    if !Moves(c) || (FirstLevel(c) <= MaxOutput(c) && (Left(c) < 0 || Calculable(c))) {
      forall xs | AllReal(c, xs) ensures LevelWithin(c, Run(c, xs)) {
        if !Moves(c) {
          NeverMoves(c, xs);
        } else {
          RunKeepsLevels(c, xs);
        }
        hide Run;
      }
    } else {
      var xs;
      if Left(c) == 0 {
        xs := NoNumberRun(c);
      } else if MaxOutput(c) < FirstLevel(c) {
        xs := FirstCallWrites(c);
      } else if c.shift == 255 || c.vHigh == 0 {
        xs := UndefinedGain(c);
      } else {
        xs := UndefinedFilter(c);
      }
      assert !LevelWithin(c, Run(c, xs));
    }
  }

  lemma ExtremeLevels()
    ensures TwoThirds(0) == 0 && TwoThirds(0xFFFF_FFFF) == 21844
  {}

  /** A quotient of zero is harmless, and one of all ones is not for any PWM frequency. */
  lemma ZeroQuotientIsHarmless(c: Config)
    ensures FirstLevel(c.(zeroByZero := 0)) <= MaxOutput(c.(zeroByZero := 0))
    ensures MaxOutput(c.(zeroByZero := 0xFFFF_FFFF)) < FirstLevel(c.(zeroByZero := 0xFFFF_FFFF))
  {
    hide TwoThirds, MaxOutput;
    ExtremeLevels();
  }
}
