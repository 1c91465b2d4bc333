/** The task around the acceleration helper of the Rust decoder (application/src/motor/handler.rs): it
    tells the motor task a new speed whenever the setpoint changes. */
module RampTask {
  import opened Wire
  import opened Numbers
  import opened Velocity
  import opened RampHelper
  import MotorBridge

  const TABLE_LENGTH := 127

  /** The index is limited to the speed table. */
  function Level(table: seq<nat>, v: VelocitySetpoint): MotorBridge.OutputLevel
    requires |table| == TABLE_LENGTH
  {
    var idx: nat := Idx(v.speedStep);
    MotorBridge.OutputLevel(v.direction, table[if idx < TABLE_LENGTH then idx else TABLE_LENGTH - 1])
  }

  /** What wakes the task. */
  datatype Command = SetVelocity128(v: VelocitySetpoint) | Reset | AcknowledgeCv | AccelTimer

  /** `sent` are the setpoints whose levels were signalled to the motor. */
  datatype TaskState = TaskState(ramp: State, previous: Option<VelocitySetpoint>, timer: Delay,
                                 sent: seq<VelocitySetpoint>)

  /** What step returns: the target itself as soon as it is reached. */
  function Returned(c: Config, cur: VelocitySetpoint, target: VelocitySetpoint): VelocitySetpoint {
    var next := RampHelper.Next(c, cur, target);
    if Equivalent(next, target) then target else next
  }

  /** One step of the helper, signalled if its setpoint is new. */
  function Stepped(c: Config, s: TaskState): TaskState {
    var cur, target := s.ramp.current, s.ramp.target;
    var v := Returned(c, cur, target);
    TaskState(s.ramp.(current := RampHelper.Next(c, cur, target)), Some(v), Wait(c, cur, target),
              if s.previous == Some(v) then s.sent else s.sent + [v])
  }

  function Handled(c: Config, s: TaskState, m: Command): TaskState {
    match m
    case AcknowledgeCv => s
    case Reset => s.(ramp := State(DEFAULT, DEFAULT), timer := Forever)
    case SetVelocity128(v) => Stepped(c, s.(ramp := s.ramp.(target := v)))
    case AccelTimer => Stepped(c, s)
  }

  const STARTED := TaskState(State(DEFAULT, DEFAULT), None, Forever, [])

  class Task {
    const config: Config
    const speedTable: seq<nat>
    const accelHelper: Helper
    var previousSetpoint: Option<VelocitySetpoint>
    var accelTimer: Delay

    /** The value the motor task waits for: the latest signal. */
    var motorSpeed: Option<MotorBridge.OutputLevel>

    ghost var sent: seq<VelocitySetpoint>

    ghost function Model(): TaskState
      reads this, accelHelper
    {
      TaskState(State(accelHelper.current, accelHelper.target), previousSetpoint, accelTimer, sent)
    }

    /** The signal is the level of the setpoint sent last. */
    ghost predicate Valid()
      reads this, accelHelper
    {
      && |speedTable| == TABLE_LENGTH && accelHelper.config == config
      && motorSpeed == if sent == [] then None else Some(Level(speedTable, sent[|sent| - 1]))
    }

    constructor (config: Config, speedTable: seq<nat>)
      requires |speedTable| == TABLE_LENGTH
      ensures Valid() && fresh(accelHelper) && this.config == config && this.speedTable == speedTable
      ensures Model() == STARTED
    {
      this.config, this.speedTable := config, speedTable;
      accelHelper := new Helper(config);
      previousSetpoint, accelTimer, motorSpeed, sent := None, Forever, None, [];
    }

    method MaybeSendToChannel(setpoint: VelocitySetpoint)
      requires Valid()
      modifies this`previousSetpoint, this`motorSpeed, this`sent
      ensures Valid() && previousSetpoint == Some(setpoint)
      ensures sent == if old(previousSetpoint) == Some(setpoint) then old(sent) else old(sent) + [setpoint]
    {
      if previousSetpoint != Some(setpoint) {
        previousSetpoint := Some(setpoint);
        motorSpeed := Some(Level(speedTable, setpoint));
        sent := sent + [setpoint];
      }
    }

    /** One pass of the task's loop. */
    method Wake(m: Command)
      requires Valid()
      modifies this, accelHelper
      ensures Valid() && Model() == Handled(config, old(Model()), m)
    {
      match m {
        case AcknowledgeCv =>
        case Reset =>
          accelHelper.Reset();
          accelTimer := Forever;
        case SetVelocity128(v) =>
          accelHelper.SetTarget(v);
          var setpoint, delay := accelHelper.Step();
          MaybeSendToChannel(setpoint);
          accelTimer := delay;
        case AccelTimer =>
          var setpoint, delay := accelHelper.Step();
          MaybeSendToChannel(setpoint);
          accelTimer := delay;
      }
    }
  }

  function Run(c: Config, ms: seq<Command>): TaskState {
    if ms == [] then STARTED else Handled(c, Run(c, ms[..|ms| - 1]), ms[|ms| - 1])
  }

  /** On every run what a setpoint is compared with is the one sent last. */
  lemma {:induction false} PreviousIsLastSent(c: Config, ms: seq<Command>)
    ensures var s := Run(c, ms);
      s.previous == if s.sent == [] then None else Some(s.sent[|s.sent| - 1])
  {
    if ms != [] {
      PreviousIsLastSent(c, ms[..|ms| - 1]);
      hide RampHelper.Next, Wait;
    }
  }

  // ---- a ramp to a constant target ----

  /** k expiries of the timer in a row. */
  function Ramping(c: Config, s: TaskState, k: nat): TaskState {
    if k == 0 then s else Stepped(c, Ramping(c, s, k - 1))
  }

  lemma {:induction false} RampingIsAfter(c: Config, s: TaskState, k: nat)
    ensures var t := Ramping(c, s, k);
      t.ramp == State(After(c, s.ramp.current, s.ramp.target, k), s.ramp.target)
  {
    hide RampHelper.Next, Wait, Returned;
    if k > 0 {
      RampingIsAfter(c, s, k - 1);
      AfterOneMore(c, s.ramp.current, s.ramp.target, k - 1);
    }
  }

  lemma RampingOneMore(c: Config, s: TaskState, k: nat)
    ensures Ramping(c, s, k + 1) == Stepped(c, Ramping(c, s, k))
  {}

  lemma {:induction false} SentGrows(c: Config, s: TaskState, k: nat)
    ensures s.sent <= Ramping(c, s, k).sent
  {
    hide RampHelper.Next, Wait, Returned;
    if k > 0 {
      SentGrows(c, s, k - 1);
    }
  }

  predicate AtTarget(s: TaskState) {
    Equivalent(s.ramp.current, s.ramp.target)
  }

  /** At the target the timer changes nothing any more. */
  lemma {:induction false} StaysSilent(c: Config, s: TaskState, k: nat)
    requires AtTarget(s) && s.previous == Some(s.ramp.target)
    ensures var t := Ramping(c, s, k);
      t.ramp == s.ramp && t.previous == s.previous && t.sent == s.sent
  {
    if k > 0 {
      StaysSilent(c, s, k - 1);
    }
  }

  lemma SamePlan(c: Config, a: VelocitySetpoint, b: VelocitySetpoint, target: VelocitySetpoint)
    requires Equivalent(a, b)
    ensures PlanOf(c, a, target) == PlanOf(c, b, target)
  {}

  /** A step that does not start at the target returns another setpoint than it started from, whichever
      way that was written. */
  lemma StepReturnsNew(c: Config, cur: VelocitySetpoint, was: VelocitySetpoint, target: VelocitySetpoint)
    requires !Equivalent(cur, target) && Equivalent(cur, was)
    ensures Returned(c, cur, target) != was
  {
    hide RampHelper.Next, PlanOf;
    StepFollowsPlan(c, cur, target);
    var next := RampHelper.Next(c, cur, target);
    if Equivalent(next, cur) {
      SamePlan(c, next, cur, target);
    }
  }

  /** A ramp of more than one step sends something by its second step. */
  lemma SecondStepSends(c: Config, s: TaskState)
    requires !AtTarget(s) && !AtTarget(Stepped(c, s))
    ensures |s.sent| < |Stepped(c, Stepped(c, s)).sent|
  {
    hide RampHelper.Next, Wait;
    var t := Stepped(c, s);
    StepReturnsNew(c, t.ramp.current, t.ramp.current, t.ramp.target);
  }

  // ---- the task's own timer ----

  /** k expiries of the timer, as the task receives them. */
  function Expiries(k: nat): (ms: seq<Command>)
    ensures |ms| == k
  {
    seq(k, _ => AccelTimer)
  }

  lemma {:induction false} RunExpires(c: Config, ms: seq<Command>, k: nat)
    ensures Run(c, ms + Expiries(k)) == Ramping(c, Run(c, ms), k)
  {
    hide Stepped;
    if k == 0 {
      assert ms + Expiries(0) == ms;
    } else {
      assert (ms + Expiries(k))[..|ms| + k - 1] == ms + Expiries(k - 1);
      RunExpires(c, ms, k - 1);
    }
  }

  lemma RunCommands(c: Config, ms: seq<Command>, m: Command)
    ensures Run(c, ms + [m]) == Handled(c, Run(c, ms), m)
  {
    hide Handled;
    assert (ms + [m])[..|ms|] == ms;
  }

  /** The task after a velocity command and k expiries of its timer. */
  function Driven(c: Config, ms: seq<Command>, v: VelocitySetpoint, k: nat): TaskState {
    Run(c, ms + [SetVelocity128(v)] + Expiries(k))
  }

  lemma {:induction false} RampingSplits(c: Config, s: TaskState, a: nat, b: nat)
    ensures Ramping(c, s, a + b) == Ramping(c, Ramping(c, s, a), b)
    ensures Ramping(c, s, 1) == Stepped(c, s)
  {
    hide Stepped;
    assert Ramping(c, s, 1) == Stepped(c, Ramping(c, s, 0));
    if b > 0 {
      RampingSplits(c, s, a, b - 1);
    }
  }

  lemma DrivenIsRamping(c: Config, ms: seq<Command>, v: VelocitySetpoint, k: nat)
    ensures var s := Run(c, ms);
      Driven(c, ms, v, k) == Ramping(c, s.(ramp := s.ramp.(target := v)), k + 1)
  {
    hide Stepped, Ramping;
    var s := Run(c, ms);
    var t := s.(ramp := s.ramp.(target := v));
    RunCommands(c, ms, SetVelocity128(v));
    RunExpires(c, ms + [SetVelocity128(v)], k);
    RampingSplits(c, t, 1, k);
  }

  /** On every run a command and k expiries take k + 1 steps towards the new target. */
  lemma CommandTakesSteps(c: Config, ms: seq<Command>, v: VelocitySetpoint, k: nat)
    ensures Driven(c, ms, v, k).ramp == State(After(c, Run(c, ms).ramp.current, v, k + 1), v)
  {
    hide Driven, Ramping, After, Run;
    DrivenIsRamping(c, ms, v, k);
    var s := Run(c, ms);
    RampingIsAfter(c, s.(ramp := s.ramp.(target := v)), k + 1);
  }

  /** Steps of a plan go down first, then up. */
  lemma {:induction false} PhaseOfStep(c: Config, cur: VelocitySetpoint, target: VelocitySetpoint, k: nat)
    requires k < StepsLeft(PlanOf(c, cur, target))
    ensures Accelerating(c, After(c, cur, target, k), target) <==> PlanOf(c, cur, target).down <= k
    decreases k
  {
    hide RampHelper.Next, Accelerating, PlanOf;
    NoPlanAtTarget(c, cur, target);
    StepFollowsPlan(c, cur, target);
    if k > 0 {
      PhaseOfStep(c, RampHelper.Next(c, cur, target), target, k - 1);
    }
  }

  lemma NoStepsYet(c: Config, cur: VelocitySetpoint, target: VelocitySetpoint)
    ensures After(c, cur, target, 0) == cur
    ensures Equivalent(cur, target) ==> RampHelper.Next(c, cur, target) == cur
  {}

  /** While the plan is not done the task waits for the rate of the phase the last step was in, and the
      motor is told the index of that step; when it is done, the task waits for ever and the motor was
      told the target. */
  lemma CommandIsCarriedOut(c: Config, ms: seq<Command>, v: VelocitySetpoint, k: nat)
    requires var n := StepsLeft(PlanOf(c, Run(c, ms).ramp.current, v)); k < n || k == n == 0
    ensures var cur := Run(c, ms).ramp.current;
      var plan, t := PlanOf(c, cur, v), Driven(c, ms, v, k);
      if k + 1 < plan.up + plan.down then
        && t.timer == Millis((if k < plan.down then c.decelRate else c.accelRate) * c.loopDelay)
        && t.previous == Some(After(c, cur, v, k + 1))
      else
        t.timer == Forever && t.previous == Some(v)
  {
    hide RampHelper.Next, Accelerating, PlanOf, Driven, Ramping, After, Run, Equivalent;
    var s := Run(c, ms);
    var cur := s.ramp.current;
    var r := s.(ramp := s.ramp.(target := v));
    DrivenIsRamping(c, ms, v, k);
    RampingOneMore(c, r, k);
    RampingIsAfter(c, r, k);
    AfterOneMore(c, cur, v, k);
    RampTakesItsPlan(c, cur, v);
    if k < StepsLeft(PlanOf(c, cur, v)) {
      PhaseOfStep(c, cur, v, k);
      assert Equivalent(After(c, cur, v, k + 1), v) <==> k + 1 == StepsLeft(PlanOf(c, cur, v));
    } else {
      NoStepsYet(c, cur, v);
      NoPlanAtTarget(c, cur, v);
    }
  }

  /** The motor's last signal, spelled out: a stop is entry 0 of the table, step n entry n. */
  lemma SignalOfSetpoint(table: seq<nat>, v: VelocitySetpoint)
    requires |table| == TABLE_LENGTH
    ensures Level(table, v).dir == v.direction
    ensures match v.speedStep
      case Num(n) => Level(table, v).setpoint == table[if n <= 126 then n else 126]
      case _ => Level(table, v).setpoint == table[0]
  {}

  /** A timer that is not set does not expire. */
  predicate Possible(c: Config, ms: seq<Command>) {
    ms != [] ==>
      var init, m := ms[..|ms| - 1], ms[|ms| - 1];
      Possible(c, init) && (m.AccelTimer? ==> Run(c, init).timer.Millis?)
  }

  /** After a reset nothing is signalled and nothing moves until the next velocity command. */
  lemma {:induction false} ResetSilences(c: Config, ms: seq<Command>, more: seq<Command>)
    requires Possible(c, ms + [Command.Reset] + more)
    requires forall i :: 0 <= i < |more| ==> !more[i].SetVelocity128?
    ensures var s := Run(c, ms + [Command.Reset] + more);
      && s.ramp == State(DEFAULT, DEFAULT) && s.timer == Forever
      && s.sent == Run(c, ms).sent && s.previous == Run(c, ms).previous
  {
    hide Stepped;
    var all := ms + [Command.Reset] + more;
    if more == [] {
      assert all == ms + [Command.Reset];
      RunCommands(c, ms, Command.Reset);
    } else {
      assert all[..|all| - 1] == ms + [Command.Reset] + more[..|more| - 1];
      ResetSilences(c, ms, more[..|more| - 1]);
    }
  }

  // ---- commands that do not reach the motor ----

  lemma FirstStepFromRest(c: Config, v: VelocitySetpoint)
    requires 1 <= Idx(v.speedStep)
    ensures !Equivalent(DEFAULT, v)
    ensures Equivalent(RampHelper.Next(c, DEFAULT, v), v) <==> c.accelRate == 0 || Idx(v.speedStep) == 1
    ensures Equivalent(RampHelper.Next(c, DEFAULT, v), v) ==> Returned(c, DEFAULT, v) == v
  {}

  lemma PlanOfFirstStep(c: Config, v: VelocitySetpoint)
    requires 1 <= Idx(v.speedStep) && c.accelRate != 0 && Idx(v.speedStep) != 1
    ensures 2 <= StepsLeft(PlanOf(c, DEFAULT, v))
  {
    hide RampHelper.Next, PlanOf, Accelerating, Idx;
    FirstStepFromRest(c, v);
    StepFollowsPlan(c, DEFAULT, v);
  }

  lemma LostRampExactly(c: Config, s: TaskState, v: VelocitySetpoint, k: nat)
    requires s.ramp == State(DEFAULT, v)
    requires 1 <= Idx(v.speedStep) && StepsLeft(PlanOf(c, DEFAULT, v)) <= k + 1
    ensures Ramping(c, s, k + 1).sent == s.sent <==>
            s.previous == Some(v) && (c.accelRate == 0 || Idx(v.speedStep) == 1)
  {
    hide RampHelper.Next, Wait, PlanOf, Ramping;
    var t := Stepped(c, s);
    FirstStepFromRest(c, v);
    RampingSplits(c, s, 1, k);
    SentGrows(c, t, k);
    if AtTarget(t) {
      StaysSilent(c, t, k);
    } else {
      PlanOfFirstStep(c, v);
      SecondStepSends(c, s);
      SentGrows(c, Ramping(c, t, 1), k - 1);
      RampingSplits(c, t, 1, k - 1);
    }
  }

  /** After a reset, which stops the motor but leaves the setpoint remembered, a command is never
      signalled, however long its ramp runs, exactly when it asks for the setpoint sent last and gets
      there in one step: without an acceleration rate, or for step 1. */
  lemma LostAfterResetExactly(c: Config, ms: seq<Command>, v: VelocitySetpoint, k: nat)
    requires 1 <= Idx(v.speedStep) && StepsLeft(PlanOf(c, DEFAULT, v)) <= k + 1
    ensures var s := Run(c, ms);
      Driven(c, ms + [Command.Reset], v, k).sent == s.sent <==>
        && s.sent != [] && s.sent[|s.sent| - 1] == v
        && (c.accelRate == 0 || Idx(v.speedStep) == 1)
  {
    var s := Run(c, ms);
    RunCommands(c, ms, Command.Reset);
    DrivenIsRamping(c, ms + [Command.Reset], v, k);
    PreviousIsLastSent(c, ms);
    hide Run, PlanOf, Ramping, Driven;
    LostRampExactly(c, s.(ramp := State(DEFAULT, v), timer := Forever), v, k);
  }

  /** The same after an acknowledgement, which the ramp does not hear of: at the end of a ramp a command
      is not signalled exactly when it repeats the target. */
  lemma LostAfterAcknowledgeExactly(c: Config, ms: seq<Command>, v: VelocitySetpoint)
    requires var s := Run(c, ms); AtTarget(s) && s.previous == Some(s.ramp.target)
    ensures Run(c, ms + [AcknowledgeCv] + [SetVelocity128(v)]).sent == Run(c, ms).sent <==> v == Run(c, ms).ramp.target
  {
    var s := Run(c, ms);
    RunCommands(c, ms, AcknowledgeCv);
    RunCommands(c, ms + [AcknowledgeCv], SetVelocity128(v));
    if !Equivalent(s.ramp.current, v) {
      StepReturnsNew(c, s.ramp.current, s.ramp.target, v);
      hide RampHelper.Next, Wait, Run;
    }
  }

  /** Speed 50, a reset and speed 50 again, without an acceleration rate: one signal for the two. */
  lemma LostCommandExample(c: Config, v: VelocitySetpoint)
    requires c.accelRate == 0 && v == VelocitySetpoint(Num(50), Forward)
    ensures Run(c, [SetVelocity128(v), Command.Reset, SetVelocity128(v)]).sent == [v]
  {
    hide RampHelper.Next, Wait;
    var ms := [SetVelocity128(v), Command.Reset, SetVelocity128(v)];
    assert ms[..2][..1] == [SetVelocity128(v)] && ms[..1][..0] == [];
    assert Run(c, ms[..1]) == Handled(c, Run(c, []), SetVelocity128(v));
    assert Run(c, ms[..2]) == Handled(c, Run(c, ms[..1]), Command.Reset);
    FirstStepFromRest(c, v);
  }

  // ---- stopping the other way ----

  lemma {:induction false} SlowsDown(c: Config, cur: VelocitySetpoint, target: VelocitySetpoint, k: nat)
    requires c.decelRate > 0 && cur.direction == target.direction
    requires Idx(target.speedStep) == 0 && !target.speedStep.EmergencyStop? && 1 <= k <= Idx(cur.speedStep)
    ensures After(c, cur, target, k) == VelocitySetpoint(Num(Idx(cur.speedStep) - k), target.direction)
    decreases k
  {
    var next := RampHelper.Next(c, cur, target);
    assert next == VelocitySetpoint(Num(Idx(cur.speedStep) - 1), target.direction);
    if k > 1 {
      SlowsDown(c, next, target, k - 1);
    }
  }

  lemma {:induction false} AfterSplits(c: Config, cur: VelocitySetpoint, target: VelocitySetpoint, a: nat, b: nat)
    ensures After(c, cur, target, a + b) == After(c, After(c, cur, target, a), target, b)
    decreases a
  {
    if a > 0 {
      AfterSplits(c, RampHelper.Next(c, cur, target), target, a - 1, b);
    }
  }

  /** A vehicle told to stop facing the other way: k steps after standstill its index is 256 - k. */
  lemma RunawayIndex(c: Config, cur: VelocitySetpoint, target: VelocitySetpoint, k: nat)
    requires c.decelRate > 0 && cur.direction != target.direction
    requires Idx(target.speedStep) == 0 && !target.speedStep.EmergencyStop? && 1 <= k <= 256
    ensures After(c, cur, target, Idx(cur.speedStep) + k) == VelocitySetpoint(Num(256 - k), target.direction)
  {
    hide RampHelper.Next, PlanOf;
    StopTheOtherWayRunsAway(c, cur, target);
    if k > 1 {
      AfterSplits(c, cur, target, Idx(cur.speedStep) + 1, k - 1);
      SlowsDown(c, VelocitySetpoint(Num(255), target.direction), target, k - 1);
    }
  }

  lemma PlanOfStop(c: Config, cur: VelocitySetpoint, v: VelocitySetpoint)
    requires c.decelRate > 0 && cur.direction != v.direction
    requires Idx(v.speedStep) == 0 && !v.speedStep.EmergencyStop?
    ensures PlanOf(c, cur, v) == Plan(0, Idx(cur.speedStep) + 256)
  {}

  /** What the motor is told then: for 130 steps the last entry of the table, whatever it was told
      before, and after that every entry down to the second. */
  lemma RunawayLevels(c: Config, table: seq<nat>, ms: seq<Command>, v: VelocitySetpoint, k: nat)
    requires |table| == TABLE_LENGTH
    requires c.decelRate > 0 && Run(c, ms).ramp.current.direction != v.direction
    requires Idx(v.speedStep) == 0 && !v.speedStep.EmergencyStop? && 1 <= k <= 255
    ensures var t := Driven(c, ms, v, Idx(Run(c, ms).ramp.current.speedStep) + k - 1);
      && t.previous == Some(VelocitySetpoint(Num(256 - k), v.direction))
      && t.timer == Millis(c.decelRate * c.loopDelay)
      && Level(table, t.previous.value) ==
           MotorBridge.OutputLevel(v.direction, table[if k <= 130 then TABLE_LENGTH - 1 else 256 - k])
  {
    hide RampHelper.Next, After, Driven, PlanOf, Run;
    var cur := Run(c, ms).ramp.current;
    var n: nat := Idx(cur.speedStep) + k - 1;
    StopTheOtherWayRunsAway(c, cur, v);
    PlanOfStop(c, cur, v);
    CommandIsCarriedOut(c, ms, v, n);
    RunawayIndex(c, cur, v, k);
  }
}
