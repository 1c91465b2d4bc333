/** The startup controller of the Rust decoder (motor/src/speed/startup.rs): it raises the output in
    fixed steps until the motor turns. */
module StartupSweep {
  import opened Numbers

  const START_OUTPUT_ARR_LEN := 16

  /** Above this corrected measurement the motor turns. */
  const CONTROLLER_HANDOVER: real := 7.5

  const U16 := 65536

  function Positive(buf: seq<nat>): (r: seq<nat>)
    ensures forall i :: 0 <= i < |r| ==> r[i] > 0
    ensures forall i :: 0 <= i < |r| ==> r[i] in buf
  {
    if buf == [] then []
    else Positive(buf[..|buf| - 1]) + if buf[|buf| - 1] > 0 then [buf[|buf| - 1]] else []
  }

  function TwoThirds(sum: nat, cnt: nat): nat {
    if cnt != 0 then sum / cnt * 2 / 3 else 0
  }

  /** Two thirds of the average of the levels at which the motor started before. */
  function InitialLevel(buf: seq<nat>): nat {
    var p := Positive(buf);
    TwoThirds(Sum(p), |p|)
  }

  lemma PositiveSnoc(buf: seq<nat>, v: nat)
    ensures var p, q := Positive(buf), Positive(buf + [v]);
      if v > 0 then |q| == |p| + 1 && Sum(q) == Sum(p) + v else q == p
  {
    assert (buf + [v])[..|buf|] == buf;
    SumSnoc(Positive(buf), v);
  }

  datatype State = State(output: nat, buf: seq<nat>, idx: nat)

  datatype Result = Output(level: nat) | Handover(level: nat)

  /** u16 addition in a release build. */
  function Add16(a: nat, b: nat): nat {
    (a + b) % U16
  }

  function StepSize(outputMax: nat): nat {
    outputMax / 250
  }

  /** The level a call starts from. */
  function Level(s: State): nat {
    if s.output == 0 then InitialLevel(s.buf) else s.output
  }

  function Next(outputMax: nat, s: State, moving: bool): State
    requires s.idx < |s.buf|
  {
    var level := Level(s);
    if moving then State(0, s.buf[s.idx := level], (s.idx + 1) % |s.buf|)
    else
      var raised := Add16(level, StepSize(outputMax));
      s.(output := if raised > outputMax then InitialLevel(s.buf) / 2 else raised)
  }

  class Controller {
    const outputMax: nat
    const pidFf: real
    var prevStartOutput: array<nat>
    var bufWriteIdx: nat
    var output: nat

    ghost predicate Valid()
      reads this, prevStartOutput
    {
      prevStartOutput.Length == START_OUTPUT_ARR_LEN && bufWriteIdx < START_OUTPUT_ARR_LEN
    }

    ghost function Model(): State
      reads this, prevStartOutput
    {
      State(output, prevStartOutput[..], bufWriteIdx)
    }

    constructor (outputMax: nat, pidFf: real)
      ensures Valid() && fresh(prevStartOutput)
      ensures this.outputMax == outputMax && this.pidFf == pidFf
      ensures Model() == State(0, seq(START_OUTPUT_ARR_LEN, _ => 0), 0)
    {
      this.outputMax := outputMax;
      this.pidFf := pidFf;
      prevStartOutput := new nat[START_OUTPUT_ARR_LEN](_ => 0);
      bufWriteIdx, output := 0, 0;
    }

    method GetInitialLevel() returns (level: nat)
      requires Valid()
      ensures level == InitialLevel(prevStartOutput[..])
    {
      var sum, cnt := 0, 0;
      assert Positive([]) == [];
      hide TwoThirds, Positive, Sum;
      for i := 0 to prevStartOutput.Length
        invariant sum == Sum(Positive(prevStartOutput[..i])) && cnt == |Positive(prevStartOutput[..i])|
      {
        PositiveSnoc(prevStartOutput[..i], prevStartOutput[i]);
        assert prevStartOutput[..i + 1] == prevStartOutput[..i] + [prevStartOutput[i]];
        var v := prevStartOutput[i];
        if v > 0 {
          sum, cnt := sum + v, cnt + 1;
        }
      }
      assert prevStartOutput[..] == prevStartOutput[..prevStartOutput.Length];
      level := TwoThirds(sum, cnt);
    }

    method Reset()
      requires Valid()
      modifies this`output
      ensures Valid() && Model() == old(Model()).(output := 0)
    {
      output := 0;
    }

    method Compute(measurement: real) returns (r: Result, feedForward: real)
      requires Valid()
      modifies this, prevStartOutput
      ensures Valid() && prevStartOutput == old(prevStartOutput)
      ensures Model() == Next(outputMax, old(Model()), 7.5 <= measurement)
      ensures r == if measurement < 7.5 then Output(Level(old(Model()))) else Handover(Level(old(Model())))
      ensures r.Handover? ==> feedForward == pidFf * r.level as real
    {
      hide InitialLevel;
      feedForward := 0.0;
      if output == 0 {
        output := GetInitialLevel();
      }
      if measurement < CONTROLLER_HANDOVER {
        var currOutput := output;
        output := Add16(output, outputMax / 250);
        if output > outputMax {
          var initial := GetInitialLevel();
          output := initial / 2;
        }
        r := Output(currOutput);
      } else {
        feedForward := pidFf * output as real;
        r := Handover(output);
        prevStartOutput[bufWriteIdx] := output;
        bufWriteIdx := (bufWriteIdx + 1) % prevStartOutput.Length;
        output := 0;
      }
    }
  }

  // ---- bounds ----

  predicate Sweepable(outputMax: nat) {
    250 <= outputMax && outputMax + StepSize(outputMax) < U16
  }

  lemma SweepableExactly(outputMax: nat)
    ensures Sweepable(outputMax) <==> 250 <= outputMax <= 65274
  {}

  /** Every value of CV9 gives a maximum that fits 16 bits and that the sweep works with exactly for
      clocks from 8.875 MHz up to 652.75 MHz; the decoder runs at 125 MHz. */
  lemma ClocksExactly(clockHz: nat)
    ensures (forall cv9: nat :: cv9 < 256 ==> Sweepable(PwmTop(clockHz, cv9))) <==>
            8_875_000 <= clockHz < 652_750_000
  {
    if 8_875_000 <= clockHz < 652_750_000 {
      forall cv9: nat | cv9 < 256 ensures Sweepable(PwmTop(clockHz, cv9)) {
        var f := cv9 * 100 + 10_000;
        assert 250 * f <= 8_875_000 && 652_750_000 <= 65275 * f;
        PwmTopBetween(clockHz, cv9, 250, 65274);
        SweepableExactly(PwmTop(clockHz, cv9));
      }
    } else if clockHz < 8_875_000 {
      PwmTopBetween(clockHz, 255, 0, 249);
      assert !Sweepable(PwmTop(clockHz, 255));
    } else {
      assert PwmTop(clockHz, 0) >= 65275;
      SweepableExactly(PwmTop(clockHz, 0));
      assert !Sweepable(PwmTop(clockHz, 0));
    }
  }

  predicate Bounded(outputMax: nat, s: State) {
    && s.idx < |s.buf|
    && s.output <= outputMax
    && forall i :: 0 <= i < |s.buf| ==> s.buf[i] <= outputMax
  }

  lemma InitialLevelBounded(buf: seq<nat>, max: nat)
    requires forall i :: 0 <= i < |buf| ==> buf[i] <= max
    ensures InitialLevel(buf) * 3 <= max * 2
  {
    var p := Positive(buf);
    if p != [] {
      SumWithin(p, 0, max);
      FloorBetween(Sum(p), |p|, 0, max);
    }
  }

  /** Every level issued or stored stays within the maximum, whatever is measured, and the 16-bit
      addition never wraps. */
  lemma LevelsStayBounded(outputMax: nat, s: State, moving: bool)
    requires Bounded(outputMax, s) && outputMax + StepSize(outputMax) < U16
    ensures Bounded(outputMax, Next(outputMax, s, moving))
    ensures Level(s) <= outputMax
    ensures Level(s) + StepSize(outputMax) < U16
  {
    InitialLevelBounded(s.buf, outputMax);
  }

  datatype Event = Compute(moving: bool) | Reset

  function Run(outputMax: nat, es: seq<Event>): (s: State)
    ensures s.idx < |s.buf|
  {
    if es == [] then State(0, seq(START_OUTPUT_ARR_LEN, _ => 0), 0)
    else
      var s := Run(outputMax, es[..|es| - 1]);
      match es[|es| - 1]
      case Compute(moving) => Next(outputMax, s, moving)
      case Reset => s.(output := 0)
  }

  lemma {:induction false} RunStaysBounded(outputMax: nat, es: seq<Event>)
    requires outputMax + StepSize(outputMax) < U16
    ensures Bounded(outputMax, Run(outputMax, es)) && Level(Run(outputMax, es)) <= outputMax
  {
    if es != [] {
      RunStaysBounded(outputMax, es[..|es| - 1]);
      if es[|es| - 1].Compute? {
        LevelsStayBounded(outputMax, Run(outputMax, es[..|es| - 1]), es[|es| - 1].moving);
      }
    }
    InitialLevelBounded(Run(outputMax, es).buf, outputMax);
  }

  // ---- completeness ----

  function Waiting(outputMax: nat, s: State, k: nat): (s': State)
    requires s.idx < |s.buf|
    ensures s'.buf == s.buf && s'.idx == s.idx
    decreases k
  {
    if k == 0 then s else Waiting(outputMax, Next(outputMax, s, false), k - 1)
  }

  lemma OneStepUp(outputMax: nat, s: State)
    requires Sweepable(outputMax) && Bounded(outputMax, s)
    requires Level(s) + StepSize(outputMax) <= outputMax
    ensures var s' := Next(outputMax, s, false);
      Bounded(outputMax, s') && Level(s') == Level(s) + StepSize(outputMax)
  {
    hide InitialLevel;
    LevelsStayBounded(outputMax, s, false);
  }

  /** While the motor does not turn, call number k issues the starting level plus k steps, as long
      as that fits. */
  lemma {:induction false} SweepLevels(outputMax: nat, s: State, k: nat)
    requires Sweepable(outputMax) && Bounded(outputMax, s)
    requires Level(s) + k * StepSize(outputMax) <= outputMax
    ensures Level(Waiting(outputMax, s, k)) == Level(s) + k * StepSize(outputMax)
    decreases k
  {
    hide Level, Next, StepSize;
    if k > 0 {
      OneMoreTime(k, StepSize(outputMax));
      OneStepUp(outputMax, s);
      SweepLevels(outputMax, Next(outputMax, s, false), k - 1);
    }
  }

  lemma StepsThatFit(room: nat, d: nat, max: nat) returns (k: nat)
    requires 0 < d && room <= max
    ensures k <= max / d
    ensures k * d <= room < k * d + d
  {
    k := room / d;
    assert room == k * d + room % d;
    assert (max / d + 1) * d == max / d * d + d && max == max / d * d + max % d;
    LessFactor(k, max / d + 1, d);
  }

  /** From any state, within outputMax / step + 1 calls below the handover some call issues a level
      less than one step below the maximum. */
  lemma SweepReachesTheTop(outputMax: nat, s: State) returns (k: nat)
    requires Sweepable(outputMax) && Bounded(outputMax, s)
    ensures k <= outputMax / StepSize(outputMax)
    ensures outputMax - StepSize(outputMax) < Level(Waiting(outputMax, s, k)) <= outputMax
  {
    LevelsStayBounded(outputMax, s, false);
    k := StepsThatFit(outputMax - Level(s), StepSize(outputMax), outputMax);
    hide Level, StepSize, Bounded;
    SweepLevels(outputMax, s, k);
  }

  /** With a maximum below 250 the step is zero: the level never changes. */
  lemma {:induction false} NoSweepBelow250(outputMax: nat, s: State, k: nat)
    requires outputMax < 250 && Bounded(outputMax, s)
    ensures Level(Waiting(outputMax, s, k)) == Level(s)
    decreases k
  {
    hide InitialLevel;
    if k > 0 {
      LevelsStayBounded(outputMax, s, false);
      assert StepSize(outputMax) == 0;
      assert Level(Next(outputMax, s, false)) == Level(s);
      hide Next, Level, Bounded;
      NoSweepBelow250(outputMax, Next(outputMax, s, false), k - 1);
    }
  }

  // ---- what is remembered ----

  lemma {:induction false} PositiveIsFiltered(buf: seq<nat>)
    ensures forall v: nat :: multiset(Positive(buf))[v] == if v > 0 then multiset(buf)[v] else 0
  {
    if buf != [] {
      PositiveIsFiltered(buf[..|buf| - 1]);
      LastApart(buf);
    }
  }

  lemma SameListed(buf: seq<nat>, t: seq<nat>)
    requires forall v: nat :: multiset(t)[v] == if v > 0 then multiset(buf)[v] else 0
    ensures multiset(t) == multiset(Positive(buf))
  {
    hide Positive;
    PositiveIsFiltered(buf);
    var a: multiset<nat>, b: multiset<nat> := multiset(t), multiset(Positive(buf));
    assert forall v: nat :: a[v] == b[v];
    assert a == b;
  }

  lemma TwoThirdsIs(sum: nat, cnt: nat)
    requires 0 < cnt
    ensures TwoThirds(sum, cnt) == 2 * (sum / cnt) / 3 == sum / cnt * 2 / 3
  {}

  lemma NoRecord()
    ensures TwoThirds(Sum([]), 0) == 0
  {}

  /** The initial level is two thirds of the average of the levels above zero on record, in any order,
      rounded down twice; without any it is zero. */
  lemma InitialLevelIs(buf: seq<nat>, t: seq<nat>)
    requires forall v: nat :: multiset(t)[v] == if v > 0 then multiset(buf)[v] else 0
    ensures var level, n := InitialLevel(buf), |t|;
      if t == [] then level == 0 else 3 * n * level <= 2 * Sum(t) < n * (3 * level + 4)
  {
    hide TwoThirds, Positive, Sum;
    var p := Positive(buf);
    SameListed(buf, t);
    SumOfSame(t, p);
    if t != [] {
      RoundedDown(Sum(p), |p|);
      TwiceRounded(|p|, Sum(p) / |p|, Sum(p) / |p| * 2 / 3, Sum(p));
      TwoThirdsIs(Sum(p), |p|);
    } else {
      NoRecord();
    }
  }

  /** The levels at which a run handed over. */
  function Handovers(outputMax: nat, es: seq<Event>): seq<nat> {
    if es == [] then []
    else
      var init := es[..|es| - 1];
      Handovers(outputMax, init) +
      if es[|es| - 1] == Compute(true) then [Level(Run(outputMax, init))] else []
  }

  /** The record of the last sixteen levels. */
  predicate Recorded(buf: seq<nat>, hs: seq<nat>) {
    && |buf| == 16
    && (forall j :: 0 <= j < |hs| < j + 17 ==> buf[j % 16] == hs[j])
    && (forall j :: |hs| <= j < 16 ==> buf[j] == 0)
  }

  lemma NearbySlots(j: nat, n: nat)
    requires j < n < j + 16
    ensures j % 16 != n % 16
  {}

  lemma RecordOneMore(buf: seq<nat>, hs: seq<nat>, level: nat)
    requires Recorded(buf, hs)
    ensures |buf| == 16 && Recorded(buf[|hs| % 16 := level], hs + [level])
  {
    var n := |hs|;
    forall j: nat | j < n < j + 16 ensures j % 16 != n % 16 {
      NearbySlots(j, n);
    }
  }

  lemma NextRemembers(outputMax: nat, s: State, moving: bool)
    requires s.idx < |s.buf|
    ensures var s' := Next(outputMax, s, moving);
      if moving then s'.buf == s.buf[s.idx := Level(s)] && s'.idx == (s.idx + 1) % |s.buf|
      else s'.buf == s.buf && s'.idx == s.idx
  {
    hide Level, InitialLevel;
  }

  lemma NothingRecorded()
    ensures Recorded(seq(START_OUTPUT_ARR_LEN, _ => 0), [])
  {}

  lemma IndexAdvances(n: nat)
    ensures (n % 16 + 1) % 16 == (n + 1) % 16
  {}

  /** The buffer holds the last sixteen of them, and zeros where there were not that many. */
  lemma {:induction false} BufferHoldsHandovers(outputMax: nat, es: seq<Event>)
    ensures var s, hs := Run(outputMax, es), Handovers(outputMax, es);
      s.idx == |hs| % 16 && Recorded(s.buf, hs)
  {
    hide Level, InitialLevel, Next, Recorded;
    if es == [] {
      NothingRecorded();
    } else {
      var init := es[..|es| - 1];
      BufferHoldsHandovers(outputMax, init);
      var s, hs := Run(outputMax, init), Handovers(outputMax, init);
      assert hs + [] == hs;
      RecordOneMore(s.buf, hs, Level(s));
      IndexAdvances(|hs|);
      if es[|es| - 1].Compute? {
        NextRemembers(outputMax, s, es[|es| - 1].moving);
      }
    }
  }

  lemma NoWrap(a: nat, b: nat)
    requires a + b < U16
    ensures Add16(a, b) == a + b
  {}

  /** A call hands over and forgets its level, or raises it by a 250th of the maximum, or, at the top,
      starts again from half the initial level. */
  lemma CallExactly(outputMax: nat, s: State, moving: bool)
    requires Bounded(outputMax, s) && outputMax + outputMax / 250 < 65536
    ensures var level, s' := (if s.output == 0 then InitialLevel(s.buf) else s.output), Next(outputMax, s, moving);
      && s'.output == (if moving then 0
                       else if level + outputMax / 250 <= outputMax then level + outputMax / 250
                       else InitialLevel(s.buf) / 2)
      && (!moving ==> s'.buf == s.buf && s'.idx == s.idx)
  {
    hide Add16;
    hide InitialLevel, Bounded;
    LevelsStayBounded(outputMax, s, moving);
    NoWrap(Level(s), StepSize(outputMax));
  }
}
