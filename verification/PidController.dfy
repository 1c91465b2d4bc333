/** The motor controller of the C firmware (core1.c): startup and PID. */
module PidController {
  import opened Wire
  import opened Numbers
  import opened Floats
  import SpeedTable
  import TrimmedMean

  const ADC_RANGE := 4095

  /** Above this corrected measurement the motor turns. */
  const HANDOVER: real := 7.5

  const BASE_PWM_ARR_LEN := 16

  const CLOCK_HZ := 125_000_000

  const U16 := 0x1_0000
  const U32 := 0x1_0000_0000

  type u16 = x: int | 0 <= x < 65536

  /** What the controller depends on: CV2, 5, 6, 9, 47 to 53, 54 to 59 in pairs, 60, 61, 63, 64 and 172;
      and what the processor makes of the unsigned division 0 / 0, which C leaves open. */
  datatype Config = Config(vStart: u8, vHigh: u8, vMid: u8, pwmFrequency: u8, kFf: u8,
                           tau: u8, t: u8, kI: u8, kD: u8, limMax: u8, limMin: u8,
                           y0: u16, y1: u16, y2: u16, shift: u8,
                           samples: u8, cutLow: u8, cutHigh: u8, adcOffset: u8, zeroByZero: nat)

  // ---- what init_controller derives ----

  function Speeds(c: Config): SpeedTable.Config {
    SpeedTable.Config(c.vStart, c.vMid, c.vHigh)
  }

  /** The last entry of the speed table. */
  function Top(c: Config): (top: nat)
    ensures top == 16 * c.vHigh
  {
    SpeedTable.SegmentEnds(SpeedTable.VMid(Speeds(c)), SpeedTable.VMax(Speeds(c)));
    SpeedTable.TableEntry(Speeds(c), 126)
  }

  /** The setpoints are the entries of the speed table. */
  ghost predicate InTable(c: Config, setpoint: nat) {
    exists i: nat :: i < SpeedTable.SPEED_TABLE_LEN && setpoint == SpeedTable.TableEntry(Speeds(c), i)
  }

  function MaxOutput(c: Config): (m: nat)
    ensures m <= 12_500
  {
    PwmTopBetween(CLOCK_HZ, c.pwmFrequency, 0, 12_500);
    PwmTop(CLOCK_HZ, c.pwmFrequency)
  }

  function Tau(c: Config): real { c.tau as real / 1000.0 }

  function SampleTime(c: Config): real { c.t as real / 1000.0 }

  function KD(c: Config): real { c.kD as real / 10000.0 }

  function IntLimMax(c: Config): real { 10.0 * c.limMax as real }

  function IntLimMin(c: Config): real { -10.0 * c.limMin as real }

  function Ci0(c: Config): Float {
    Num(c.kI as real / 10.0 * SampleTime(c) / 2.0)
  }

  function Cd0(c: Config): Float {
    Div(Num(-(2.0 * KD(c))), Num(2.0 * Tau(c) + SampleTime(c)))
  }

  function Cd1(c: Config): Float {
    Div(Num(2.0 * Tau(c) - SampleTime(c)), Num(2.0 * Tau(c) + SampleTime(c)))
  }

  function KpX1(c: Config): real {
    Top(c) as real * (c.shift as real / 255.0)
  }

  function KpX2(c: Config): real {
    Top(c) as real * (1.0 - c.shift as real / 255.0)
  }

  function KpY(y: u16): real { y as real / 100.0 }

  function KpM1(c: Config): Float {
    Div(Num(KpY(c.y1) - KpY(c.y0)), Num(KpX1(c)))
  }

  function KpM2(c: Config): Float {
    Div(Num(KpY(c.y2) - KpY(c.y1)), Num(KpX2(c)))
  }

  /** The proportional gain scheduled for a setpoint: two lines that meet at x1. */
  function Kp(c: Config, setpoint: nat): Float {
    var sp := Num(setpoint as real);
    if Less(sp, Num(KpX1(c))) then Add(Mul(KpM1(c), sp), Num(KpY(c.y0)))
    else Add(Mul(KpM2(c), Sub(sp, Num(KpX1(c)))), Num(KpY(c.y1)))
  }

  // ---- the level to start from ----

  /** How many entries come before the first zero. */
  function Leading(buf: seq<nat>): (n: nat)
    ensures n <= |buf|
    ensures forall i :: 0 <= i < n ==> 0 < buf[i]
    ensures n < |buf| ==> buf[n] == 0
  {
    if buf == [] || buf[0] == 0 then 0 else 1 + Leading(buf[1..])
  }

  lemma {:induction false} LeadingIs(buf: seq<nat>, n: nat)
    requires n <= |buf| && (forall i :: 0 <= i < n ==> 0 < buf[i]) && (n < |buf| ==> buf[n] == 0)
    ensures Leading(buf) == n
  {
    if 0 < n {
      LeadingIs(buf[1..], n - 1);
    }
  }

  /** Two thirds in 32-bit arithmetic, stored in 16 bits. */
  function TwoThirds(x: nat): nat {
    2 * x % U32 / 3 % U16
  }

  /** From the sum and the number of the levels on record. */
  function LevelFrom(c: Config, sum: nat, n: nat): nat {
    TwoThirds(if n == 0 then c.zeroByZero else sum / n)
  }

  function InitialLevel(c: Config, buf: seq<nat>): nat {
    LevelFrom(c, Sum(buf[..Leading(buf)]), Leading(buf))
  }

  // ---- one call of the controller ----

  datatype Mode = StartupMode | PidMode

  datatype Startup = Startup(level: nat, buf: seq<nat>, idx: nat)

  /** `written` is the level last handed to the motor, None if C leaves its conversion open. */
  datatype State = State(mode: Mode, feedFwd: real, ePrev: Float, iPrev: Float, dPrev: Float, mPrev: Float,
                         startup: Startup, written: Option<nat>)

  const ZERO := Num(0.0)

  function Initial(): State {
    State(StartupMode, 0.0, ZERO, ZERO, ZERO, ZERO, Startup(0, seq(BASE_PWM_ARR_LEN, _ => 0), 0), Some(0))
  }

  /** What a call sees: the setpoint, whether the direction changed, and the samples of the converter. */
  datatype Input = Input(setpoint: nat, directionChanged: bool, samples: seq<nat>)

  /** As the hardware delivers them. */
  ghost predicate Real(c: Config, x: Input) {
    InTable(c, x.setpoint) && |x.samples| == c.samples && forall i :: 0 <= i < |x.samples| ==> x.samples[i] <= ADC_RANGE
  }

  predicate Stops(x: Input) {
    x.setpoint == 0 || x.directionChanged
  }

  function AsFloat(r: Option<real>): Float {
    match r
    case None => NaN
    case Some(x) => Num(x)
  }

  function Measurement(c: Config, x: Input): Float {
    AsFloat(TrimmedMean.Measured(x.samples, c.cutLow, c.cutHigh))
  }

  function Corrected(c: Config, x: Input): Float {
    Sub(Measurement(c, x), Num(c.adcOffset as real))
  }

  predicate Turns(c: Config, x: Input) {
    !Less(Corrected(c, x), Num(HANDOVER))
  }

  function Error(c: Config, x: Input): Float {
    Sub(Num(x.setpoint as real), Corrected(c, x))
  }

  function Integrated(c: Config, e: Float, ePrev: Float, iPrev: Float): (i: Float)
    ensures i.NaN? || (i.Num? && IntLimMin(c) <= i.x <= IntLimMax(c))
  {
    Clip(Add(Mul(Ci0(c), Add(e, ePrev)), iPrev), IntLimMin(c), IntLimMax(c))
  }

  /** The band-limited derivative. */
  function Filtered(c: Config, m: Float, mPrev: Float, dPrev: Float): Float {
    Add(Mul(Cd0(c), Sub(m, mPrev)), Mul(Cd1(c), dPrev))
  }

  /** The conversion to a level, for a value in its range. */
  function ToLevel(x: Float): Option<nat> {
    if x.Num? && 0.0 <= x.x then Some(x.x.Floor) else None
  }

  /** Feed forward and the three terms, limited and converted. */
  function Total(c: Config, feedFwd: real, prop: Float, i: Float, d: Float): (level: Option<nat>)
    ensures level.Some? ==> level.value <= MaxOutput(c)
  {
    ToLevel(Clip(Add(Add(Add(Num(feedFwd), prop), i), d), 0.0, MaxOutput(c) as real))
  }

  /** The level a startup call begins with. */
  function StartLevel(c: Config, u: Startup): nat {
    if u.level == 0 then InitialLevel(c, u.buf) else u.level
  }

  function NextLevel(c: Config, u: Startup): nat {
    var raised := (StartLevel(c, u) + MaxOutput(c) / 250) % U16;
    if raised > MaxOutput(c) then InitialLevel(c, u.buf) / 2 else raised
  }

  predicate ValidStartup(u: Startup) {
    |u.buf| == BASE_PWM_ARR_LEN && u.idx < BASE_PWM_ARR_LEN
  }

  function FeedForward(c: Config, level: nat): real {
    c.kFf as real / 255.0 * level as real
  }

  function AfterStartup(c: Config, s: State, x: Input): State
    requires ValidStartup(s.startup)
  {
    var u := s.startup;
    var level := StartLevel(c, u);
    if Turns(c, x) then
      s.(mode := PidMode, feedFwd := FeedForward(c, level),
         startup := Startup(level, u.buf[u.idx := level], (u.idx + 1) % BASE_PWM_ARR_LEN))
    else
      s.(startup := u.(level := NextLevel(c, u)), written := Some(level))
  }

  function AfterPid(c: Config, s: State, x: Input): State {
    var e := Error(c, x);
    var i := Integrated(c, e, s.ePrev, s.iPrev);
    var d := Filtered(c, Measurement(c, x), s.mPrev, s.dPrev);
    s.(ePrev := e, iPrev := i, dPrev := d, written := Total(c, s.feedFwd, Mul(Kp(c, x.setpoint), e), i, d))
  }

  function Next(c: Config, s: State, x: Input): (s': State)
    requires ValidStartup(s.startup)
    ensures ValidStartup(s'.startup)
  {
    if Stops(x) then
      s.(dPrev := ZERO, iPrev := ZERO, ePrev := ZERO, mode := StartupMode,
         startup := s.startup.(level := 0), written := Some(0))
    else
      (if s.mode.StartupMode? then AfterStartup(c, s, x) else AfterPid(c, s, x)).(mPrev := Measurement(c, x))
  }

  class Controller {
    const c: Config
    var mode: Mode
    var feedFwd: real
    var ePrev: Float
    var iPrev: Float
    var dPrev: Float
    var measurementPrev: Float
    var startupLevel: nat
    const basePwmArr: array<nat>
    var basePwmArrI: nat
    var pwmLevel: Option<nat>

    ghost function Model(): State
      reads this, basePwmArr
    {
      State(mode, feedFwd, ePrev, iPrev, dPrev, measurementPrev,
            Startup(startupLevel, basePwmArr[..], basePwmArrI), pwmLevel)
    }

    ghost predicate Valid()
      reads this, basePwmArr
    {
      ValidStartup(Model().startup)
    }

    constructor (c: Config)
      ensures Valid() && fresh(basePwmArr) && this.c == c && Model() == Initial()
    {
      this.c := c;
      mode, feedFwd, ePrev, iPrev, dPrev, measurementPrev := StartupMode, 0.0, ZERO, ZERO, ZERO, ZERO;
      startupLevel, basePwmArrI, pwmLevel := 0, 0, Some(0);
      basePwmArr := new nat[BASE_PWM_ARR_LEN](_ => 0);
    }

    method GetInitialLevel() returns (level: nat)
      requires Valid()
      ensures level == InitialLevel(c, basePwmArr[..])
    {
      hide LevelFrom, Leading, Sum;
      var sum, i := 0, 0;
      SumOfNone();
      while i < BASE_PWM_ARR_LEN && basePwmArr[i] > 0
        invariant i <= BASE_PWM_ARR_LEN
        invariant sum == Sum(basePwmArr[..i])
        invariant forall k :: 0 <= k < i ==> 0 < basePwmArr[k]
      {
        SumSnoc(basePwmArr[..i], basePwmArr[i]);
        assert basePwmArr[..i + 1] == basePwmArr[..i] + [basePwmArr[i]];
        sum := sum + basePwmArr[i];
        i := i + 1;
      }
      LeadingIs(basePwmArr[..], i);
      assert basePwmArr[..][..i] == basePwmArr[..i];
      level := LevelFrom(c, sum, i);
    }

    method ControllerStartupMode(x: Input, measurementCorrected: Float)
      requires Valid() && mode.StartupMode? && measurementCorrected == Corrected(c, x)
      modifies this`mode, this`feedFwd, this`startupLevel, this`basePwmArrI, this`pwmLevel, basePwmArr
      ensures Valid() && Model() == AfterStartup(c, old(Model()), x)
    {
      hide InitialLevel, Corrected, FeedForward, Less;
      if startupLevel == 0 {
        startupLevel := GetInitialLevel();
      }
      if Less(measurementCorrected, Num(HANDOVER)) {
        pwmLevel := Some(startupLevel);
        startupLevel := (startupLevel + MaxOutput(c) / 250) % U16;
        if startupLevel > MaxOutput(c) {
          var initial := GetInitialLevel();
          startupLevel := initial / 2;
        }
      } else {
        basePwmArr[basePwmArrI] := startupLevel;
        basePwmArrI := (basePwmArrI + 1) % BASE_PWM_ARR_LEN;
        mode := PidMode;
        feedFwd := FeedForward(c, startupLevel);
      }
    }

    method GetKp(setpoint: nat) returns (kP: Float)
      ensures kP == Kp(c, setpoint)
    {
      var sp := Num(setpoint as real);
      if Less(sp, Num(KpX1(c))) {
        return Add(Mul(KpM1(c), sp), Num(KpY(c.y0)));
      }
      kP := Add(Mul(KpM2(c), Sub(sp, Num(KpX1(c)))), Num(KpY(c.y1)));
    }

    method ControllerPidMode(x: Input, measurement: Float, e: Float)
      requires Valid() && measurement == Measurement(c, x) && e == Error(c, x)
      modifies this`pwmLevel, this`ePrev, this`iPrev, this`dPrev
      ensures Model() == AfterPid(c, old(Model()), x)
    {
      hide Add, Mul, Sub, Ci0, Cd0, Cd1, Kp, Error, Measurement, MaxOutput;
      var kP := GetKp(x.setpoint);
      var prop := Mul(kP, e);
      var i := Add(Mul(Ci0(c), Add(e, ePrev)), iPrev);
      var d := Add(Mul(Cd0(c), Sub(measurement, measurementPrev)), Mul(Cd1(c), dPrev));
      if Less(Num(IntLimMax(c)), i) {
        i := Num(IntLimMax(c));
      } else if Less(i, Num(IntLimMin(c))) {
        i := Num(IntLimMin(c));
      }
      var output := Add(Add(Add(Num(feedFwd), prop), i), d);
      if Less(output, Num(0.0)) {
        output := Num(0.0);
      } else if Less(Num(MaxOutput(c) as real), output) {
        output := Num(MaxOutput(c) as real);
      }
      pwmLevel := ToLevel(output);
      ePrev := e;
      iPrev := i;
      dPrev := d;
    }

    method ControllerGeneral(x: Input)
      requires Valid()
      modifies this, basePwmArr
      ensures Valid() && Model() == Next(c, old(Model()), x)
    {
      hide AfterStartup, AfterPid, TrimmedMean.Measured;
      if x.setpoint == 0 || x.directionChanged {
        dPrev, iPrev, ePrev := ZERO, ZERO, ZERO;
        mode := StartupMode;
        startupLevel := 0;
        pwmLevel := Some(0);
        return;
      }
      var mean := TrimmedMean.Measure(x.samples, c.cutLow, c.cutHigh);
      var measurement := AsFloat(mean);
      var measurementCorrected := Sub(measurement, Num(c.adcOffset as real));
      var e := Sub(Num(x.setpoint as real), measurementCorrected);
      match mode {
        case StartupMode => ControllerStartupMode(x, measurementCorrected);
        case PidMode => ControllerPidMode(x, measurement, e);
      }
      measurementPrev := measurement;
    }
  }

  function Run(c: Config, xs: seq<Input>): (s: State)
    ensures ValidStartup(s.startup)
  {
    if xs == [] then Initial() else Next(c, Run(c, xs[..|xs| - 1]), xs[|xs| - 1])
  }

  ghost predicate AllReal(c: Config, xs: seq<Input>) {
    forall x :: x in xs ==> Real(c, x)
  }
}
