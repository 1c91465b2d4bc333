/** The acceleration helper of the Rust decoder (motor/src/speed/accel.rs). */
module RampHelper {
  import opened Numbers
  import opened Velocity

  /** CV3, CV4 and CV175; the delay in milliseconds. */
  datatype Config = Config(accelRate: u8, decelRate: u8, loopDelay: nat)

  datatype Delay = Forever | Millis(ms: nat)

  /** u8 arithmetic in a release build: no overflow check. */
  function Wrap(x: int): u8
    requires -1 <= x <= 256
  {
    if x < 0 then x + 256 else if x > 255 then x - 256 else x
  }

  // ---- one step as a function ----

  /** Where a step starts from: a change of direction is carried out at standstill, or at once when
      there is no deceleration rate. */
  function Turned(c: Config, cur: VelocitySetpoint, target: VelocitySetpoint): VelocitySetpoint {
    if cur.direction != target.direction && (c.decelRate == 0 || Idx(cur.speedStep) == 0)
    then VelocitySetpoint(Stop, target.direction)
    else cur
  }

  predicate Accelerating(c: Config, cur: VelocitySetpoint, target: VelocitySetpoint) {
    var from := Turned(c, cur, target);
    Idx(from.speedStep) < Idx(target.speedStep) && from.direction == target.direction
  }

  /** The new index before it is stored in a u8. */
  function NewIndex(c: Config, cur: VelocitySetpoint, target: VelocitySetpoint): (r: int)
    ensures -1 <= r <= 255
  {
    var from := Idx(Turned(c, cur, target).speedStep);
    if Accelerating(c, cur, target)
    then if c.accelRate > 0 then from + 1 else Idx(target.speedStep)
    else if c.decelRate > 0 then from - 1 else Idx(target.speedStep)
  }

  function Next(c: Config, cur: VelocitySetpoint, target: VelocitySetpoint): VelocitySetpoint {
    if Equivalent(cur, target) then cur
    else VelocitySetpoint(
           if target.speedStep.EmergencyStop? then EmergencyStop else Num(Wrap(NewIndex(c, cur, target))),
           Turned(c, cur, target).direction)
  }

  function Pause(c: Config, accelerating: bool): nat {
    if accelerating then c.accelRate * c.loopDelay else c.decelRate * c.loopDelay
  }

  function Wait(c: Config, cur: VelocitySetpoint, target: VelocitySetpoint): Delay {
    if Equivalent(Next(c, cur, target), target) then Forever
    else Millis(Pause(c, Accelerating(c, cur, target)))
  }

  class Helper {
    const config: Config
    var target: VelocitySetpoint
    var current: VelocitySetpoint

    constructor (config: Config)
      ensures this.config == config && target == DEFAULT && current == DEFAULT
    {
      this.config := config;
      target := DEFAULT;
      current := DEFAULT;
    }

    method SetTarget(v: VelocitySetpoint)
      modifies this`target
      ensures target == v
    {
      target := v;
    }

    method Reset()
      modifies this`target, this`current
      ensures target == DEFAULT && current == DEFAULT
    {
      current := DEFAULT;
      target := DEFAULT;
    }

    method Step() returns (v: VelocitySetpoint, delay: Delay)
      modifies this`current
      ensures current == Next(config, old(current), target)
      ensures v == if Equivalent(current, target) then target else current
      ensures delay == Wait(config, old(current), target)
    {
      if Equivalent(current, target) {
        return target, Forever;
      }
      if current.direction != target.direction {
        if config.decelRate == 0 || Idx(current.speedStep) == 0 {
          current := current.(speedStep := Stop);
          current := current.(direction := target.direction);
        }
      }
      var accelerating := Idx(current.speedStep) < Idx(target.speedStep) && current.direction == target.direction;
      if target.speedStep.EmergencyStop? {
        current := current.(speedStep := EmergencyStop);
      } else {
        var currentIdx: int := Idx(current.speedStep);
        if accelerating {
          current := current.(speedStep :=
            Num(if config.accelRate > 0 then Wrap(currentIdx + 1) else Idx(target.speedStep)));
        } else {
          current := current.(speedStep :=
            Num(if config.decelRate > 0 then Wrap(currentIdx - 1) else Idx(target.speedStep)));
        }
      }
      if Equivalent(current, target) {
        return target, Forever;
      }
      delay := Millis(if accelerating then config.accelRate * config.loopDelay
                      else config.decelRate * config.loopDelay);
      return current, delay;
    }
  }

  // ---- the subtraction that can go below zero ----

  /** Standing still, told to stop facing the other way. */
  predicate StopTheOtherWay(c: Config, cur: VelocitySetpoint, target: VelocitySetpoint) {
    && cur.direction != target.direction && Idx(cur.speedStep) == 0 && Idx(target.speedStep) == 0
    && !target.speedStep.EmergencyStop? && c.decelRate > 0
  }

  /** A step takes one from a zero index exactly when a standing vehicle is told to stop facing the
      other way; the index is then 255, otherwise every index fits a u8 as computed. */
  lemma UnderflowExactly(c: Config, cur: VelocitySetpoint, target: VelocitySetpoint)
    requires !Equivalent(cur, target) && !target.speedStep.EmergencyStop?
    ensures StopTheOtherWay(c, cur, target) <==> NewIndex(c, cur, target) == -1
    ensures StopTheOtherWay(c, cur, target) <==> Wrap(NewIndex(c, cur, target)) != NewIndex(c, cur, target)
    ensures StopTheOtherWay(c, cur, target) ==> Next(c, cur, target) == VelocitySetpoint(Num(255), target.direction)
  {}

  // ---- how long a ramp takes ----

  function After(c: Config, cur: VelocitySetpoint, target: VelocitySetpoint, k: nat): VelocitySetpoint
    decreases k
  {
    if k == 0 then cur else After(c, Next(c, cur, target), target, k - 1)
  }

  /** The finite delays handed out by the first k steps. */
  function TotalWait(c: Config, cur: VelocitySetpoint, target: VelocitySetpoint, k: nat): nat
    decreases k
  {
    if k == 0 then 0
    else
      (match Wait(c, cur, target) case Forever => 0 case Millis(ms) => ms)
      + TotalWait(c, Next(c, cur, target), target, k - 1)
  }

  /** A ramp as the numbers of steps it still takes up and down, in closed form. */
  datatype Plan = Plan(up: nat, down: nat)

  function Climb(c: Config, height: nat): nat {
    if c.accelRate > 0 || height == 0 then height else 1
  }

  function PlanOf(c: Config, cur: VelocitySetpoint, target: VelocitySetpoint): Plan {
    var i: int, t: int := Idx(cur.speedStep), Idx(target.speedStep);
    if Equivalent(cur, target) then Plan(0, 0)
    else if cur.direction == target.direction then
      if i < t then Plan(Climb(c, t - i), 0)
      else Plan(0, if c.decelRate > 0 && !target.speedStep.EmergencyStop? then i - t else 1)
    else if target.speedStep.EmergencyStop? then Plan(0, if c.decelRate > 0 && i > 0 then 2 else 1)
    else if t > 0 then Plan(Climb(c, t), if c.decelRate > 0 then i else 0)
    else Plan(0, if c.decelRate > 0 then i + 256 else 1)
  }

  function StepsLeft(p: Plan): nat {
    p.up + p.down
  }

  function Waits(c: Config, up: nat, down: nat): nat {
    if up > 0 then Pause(c, true) + Waits(c, up - 1, down)
    else if down > 0 then Pause(c, false) + Waits(c, up, down - 1)
    else 0
  }

  /** The waits handed out on the way: one for every step but the last, and a ramp that goes both
      down and up ends going up. */
  function WaitsLeft(c: Config, p: Plan): nat {
    if p.up > 0 then Waits(c, p.up - 1, p.down)
    else if p.down > 0 then Waits(c, 0, p.down - 1)
    else 0
  }

  lemma {:induction false} OneMoreWait(c: Config, up: nat, down: nat)
    ensures Waits(c, 0, 0) == 0
    ensures Waits(c, up + 1, down) == Pause(c, true) + Waits(c, up, down)
    ensures Waits(c, up, down + 1) == Pause(c, false) + Waits(c, up, down)
  {
    hide Pause;
    if up > 0 {
      OneMoreWait(c, up - 1, down);
    }
  }

  lemma Distribute(x: int, y: int, z: int)
    ensures (x + y) * z == x * z + y * z
  {}

  lemma {:induction false} WaitsInClosedForm(c: Config, up: nat, down: nat)
    ensures Waits(c, up, down) == (up * c.accelRate + down * c.decelRate) * c.loopDelay
  {
    if up > 0 {
      WaitsInClosedForm(c, up - 1, down);
      assert up * c.accelRate == (up - 1) * c.accelRate + c.accelRate;
      Distribute(c.accelRate, (up - 1) * c.accelRate + down * c.decelRate, c.loopDelay);
    } else if down > 0 {
      WaitsInClosedForm(c, up, down - 1);
      assert down * c.decelRate == (down - 1) * c.decelRate + c.decelRate;
      Distribute(c.decelRate, (down - 1) * c.decelRate, c.loopDelay);
    }
  }

  /** Where one step leads, case by case. */
  lemma NextCases(c: Config, cur: VelocitySetpoint, target: VelocitySetpoint)
    requires !Equivalent(cur, target)
    ensures var next, i: int, t: int := Next(c, cur, target), Idx(cur.speedStep), Idx(target.speedStep);
      && (cur.direction == target.direction && i < t ==>
            Accelerating(c, cur, target) &&
            next == VelocitySetpoint(Num(if c.accelRate > 0 then i + 1 else t), target.direction))
      && (cur.direction == target.direction && t < i ==>
            !Accelerating(c, cur, target) && next.direction == target.direction &&
            Idx(next.speedStep) == if c.decelRate > 0 && !target.speedStep.EmergencyStop? then i - 1 else t)
      && (cur.direction != target.direction && c.decelRate > 0 && i > 0 ==>
            !Accelerating(c, cur, target) && next.direction == cur.direction &&
            Idx(next.speedStep) == if target.speedStep.EmergencyStop? then 0 else i - 1)
      && (cur.direction != target.direction && (c.decelRate == 0 || i == 0) ==>
            (Accelerating(c, cur, target) <==> 0 < t) && next.direction == target.direction &&
            Idx(next.speedStep) ==
              if t > 0 then if c.accelRate > 0 then 1 else t
              else if target.speedStep.EmergencyStop? || c.decelRate == 0 then 0 else 255)
  {}

  /** A step takes one off the plan, in the phase it is in. */
  predicate FollowsPlan(c: Config, cur: VelocitySetpoint, target: VelocitySetpoint) {
    var p, q := PlanOf(c, cur, target), PlanOf(c, Next(c, cur, target), target);
    && (if Accelerating(c, cur, target) then p == Plan(q.up + 1, q.down) && q.down == 0
        else p == Plan(q.up, q.down + 1))
    && (0 < StepsLeft(q) <==> !Equivalent(Next(c, cur, target), target))
  }

  lemma ClimbFollowsPlan(c: Config, cur: VelocitySetpoint, target: VelocitySetpoint)
    requires cur.direction == target.direction && Idx(cur.speedStep) < Idx(target.speedStep)
    ensures FollowsPlan(c, cur, target)
  {
    hide Next, Accelerating;
    NextCases(c, cur, target);
  }

  lemma DescentFollowsPlan(c: Config, cur: VelocitySetpoint, target: VelocitySetpoint)
    requires cur.direction == target.direction && Idx(target.speedStep) < Idx(cur.speedStep)
    ensures FollowsPlan(c, cur, target)
  {
    hide Next, Accelerating;
    NextCases(c, cur, target);
  }

  lemma SlowingFollowsPlan(c: Config, cur: VelocitySetpoint, target: VelocitySetpoint)
    requires cur.direction != target.direction && c.decelRate > 0 && Idx(cur.speedStep) > 0
    ensures FollowsPlan(c, cur, target)
  {
    hide Next, Accelerating;
    NextCases(c, cur, target);
  }

  lemma TurnFollowsPlan(c: Config, cur: VelocitySetpoint, target: VelocitySetpoint)
    requires cur.direction != target.direction && (c.decelRate == 0 || Idx(cur.speedStep) == 0)
    ensures FollowsPlan(c, cur, target)
  {
    hide Next, Accelerating;
    NextCases(c, cur, target);
  }

  /** Each step takes exactly one off the plan. */
  lemma StepFollowsPlan(c: Config, cur: VelocitySetpoint, target: VelocitySetpoint)
    requires !Equivalent(cur, target)
    ensures var p, q := PlanOf(c, cur, target), PlanOf(c, Next(c, cur, target), target);
      && (if Accelerating(c, cur, target) then p == Plan(q.up + 1, q.down) && q.down == 0
          else p == Plan(q.up, q.down + 1))
      && (0 < StepsLeft(q) <==> !Equivalent(Next(c, cur, target), target))
  {
    hide Next, Accelerating, PlanOf;
    if cur.direction == target.direction {
      if Idx(cur.speedStep) < Idx(target.speedStep) {
        ClimbFollowsPlan(c, cur, target);
      } else {
        DescentFollowsPlan(c, cur, target);
      }
    } else if c.decelRate > 0 && Idx(cur.speedStep) > 0 {
      SlowingFollowsPlan(c, cur, target);
    } else {
      TurnFollowsPlan(c, cur, target);
    }
  }

  lemma WaitOffPlan(c: Config, p: Plan, q: Plan, accelerating: bool)
    requires if accelerating then p == Plan(q.up + 1, 0) && q.down == 0 else p == Plan(q.up, q.down + 1)
    ensures WaitsLeft(c, p) == WaitsLeft(c, q) + if 0 < StepsLeft(q) then Pause(c, accelerating) else 0
  {
    hide Pause, Waits;
    if q.up > 0 {
      OneMoreWait(c, q.up - 1, q.down);
    } else if q.down > 0 {
      OneMoreWait(c, 0, q.down - 1);
    } else {
      OneMoreWait(c, 0, 0);
    }
  }

  lemma WaitFollowsPlan(c: Config, cur: VelocitySetpoint, target: VelocitySetpoint)
    requires !Equivalent(cur, target)
    ensures WaitsLeft(c, PlanOf(c, cur, target)) ==
      WaitsLeft(c, PlanOf(c, Next(c, cur, target), target))
      + match Wait(c, cur, target) case Forever => 0 case Millis(ms) => ms
  {
    hide Pause, WaitsLeft, PlanOf, Next, Accelerating;
    StepFollowsPlan(c, cur, target);
    WaitOffPlan(c, PlanOf(c, cur, target), PlanOf(c, Next(c, cur, target), target), Accelerating(c, cur, target));
  }

  lemma NoPlanAtTarget(c: Config, cur: VelocitySetpoint, target: VelocitySetpoint)
    ensures 0 < StepsLeft(PlanOf(c, cur, target)) <==> !Equivalent(cur, target)
  {
    if !Equivalent(cur, target) && cur.direction == target.direction {
      assert Idx(cur.speedStep) != Idx(target.speedStep);
    }
    hide Idx, Equivalent;
  }

  lemma {:induction false} PlanReaches(c: Config, cur: VelocitySetpoint, target: VelocitySetpoint, k: nat)
    requires k <= StepsLeft(PlanOf(c, cur, target))
    ensures StepsLeft(PlanOf(c, After(c, cur, target, k), target)) == StepsLeft(PlanOf(c, cur, target)) - k
    decreases k
  {
    hide Next, Accelerating, PlanOf;
    if k > 0 {
      NoPlanAtTarget(c, cur, target);
      StepFollowsPlan(c, cur, target);
      PlanReaches(c, Next(c, cur, target), target, k - 1);
    }
  }

  lemma {:induction false} PlanWaits(c: Config, cur: VelocitySetpoint, target: VelocitySetpoint)
    ensures TotalWait(c, cur, target, StepsLeft(PlanOf(c, cur, target))) == WaitsLeft(c, PlanOf(c, cur, target))
    decreases StepsLeft(PlanOf(c, cur, target))
  {
    hide Waits;
    if StepsLeft(PlanOf(c, cur, target)) > 0 {
      StepFollowsPlan(c, cur, target);
      WaitFollowsPlan(c, cur, target);
      hide Next, Accelerating, WaitsLeft, PlanOf, Wait;
      PlanWaits(c, Next(c, cur, target), target);
    }
  }

  /** From any state, with any rates, to any constant target: the target is reached after exactly
      the planned number of steps, not before, and the delays add up to the planned ones. */
  lemma RampTakesItsPlan(c: Config, cur: VelocitySetpoint, target: VelocitySetpoint)
    ensures var n := StepsLeft(PlanOf(c, cur, target));
      && (forall k: nat :: k <= n ==> (Equivalent(After(c, cur, target, k), target) <==> k == n))
      && TotalWait(c, cur, target, n) == WaitsLeft(c, PlanOf(c, cur, target))
  {
    PlanWaits(c, cur, target);
    hide *;
    forall k: nat | k <= StepsLeft(PlanOf(c, cur, target))
      ensures Equivalent(After(c, cur, target, k), target) <==> k == StepsLeft(PlanOf(c, cur, target))
    {
      PlanReaches(c, cur, target, k);
      NoPlanAtTarget(c, After(c, cur, target, k), target);
    }
  }

  /** The plan for a moving target with both rates set. */
  lemma PlanToSpeed(c: Config, cur: VelocitySetpoint, target: VelocitySetpoint)
    requires c.accelRate > 0 && c.decelRate > 0 && 1 <= Idx(target.speedStep)
    ensures var i: int, t: int, p := Idx(cur.speedStep), Idx(target.speedStep), PlanOf(c, cur, target);
      if cur.direction != target.direction then StepsLeft(p) == i + t && WaitsLeft(c, p) == Waits(c, t - 1, i)
      else if i < t then StepsLeft(p) == t - i && WaitsLeft(c, p) == Waits(c, t - i - 1, 0)
      else if t < i then StepsLeft(p) == i - t && WaitsLeft(c, p) == Waits(c, 0, i - t - 1)
      else StepsLeft(p) == 0
  {
    hide Waits;
  }

  /** The closed form for a moving target with both rates set: i + t steps to turn round, first all
      the way down and then up, and the distance in the same direction. */
  lemma RampTime(c: Config, cur: VelocitySetpoint, target: VelocitySetpoint, n: nat)
    requires c.accelRate > 0 && c.decelRate > 0 && 1 <= Idx(target.speedStep)
    requires var i: int, t: int := Idx(cur.speedStep), Idx(target.speedStep);
      n == if cur.direction != target.direction then i + t else if i < t then t - i else i - t
    ensures forall k: nat :: k <= n ==> (Equivalent(After(c, cur, target, k), target) <==> k == n)
    ensures n > 0 ==>
      var i: int, t: int := Idx(cur.speedStep), Idx(target.speedStep);
      TotalWait(c, cur, target, n) ==
        if cur.direction != target.direction then ((t - 1) * c.accelRate + i * c.decelRate) * c.loopDelay
        else if i < t then ((t - i - 1) * c.accelRate + 0 * c.decelRate) * c.loopDelay
        else (0 * c.accelRate + (i - t - 1) * c.decelRate) * c.loopDelay
  {
    hide *;
    RampTakesItsPlan(c, cur, target);
    PlanToSpeed(c, cur, target);
    var i: int, t: int := Idx(cur.speedStep), Idx(target.speedStep);
    if cur.direction != target.direction {
      WaitsInClosedForm(c, t - 1, i);
    } else if i < t {
      WaitsInClosedForm(c, t - i - 1, 0);
    } else if t < i {
      WaitsInClosedForm(c, 0, i - t - 1);
    }
  }

  /** What the missing underflow check does to a stop in the other direction: after coming to a
      standstill the index jumps to 255 and only then ramps down to zero. */
  lemma StopTheOtherWayRunsAway(c: Config, cur: VelocitySetpoint, target: VelocitySetpoint)
    requires c.decelRate > 0 && cur.direction != target.direction
    requires Idx(target.speedStep) == 0 && !target.speedStep.EmergencyStop?
    ensures After(c, cur, target, Idx(cur.speedStep) as nat + 1) == VelocitySetpoint(Num(255), target.direction)
    ensures StepsLeft(PlanOf(c, cur, target)) == Idx(cur.speedStep) + 256
    decreases Idx(cur.speedStep)
  {
    if Idx(cur.speedStep) > 0 {
      StopTheOtherWayRunsAway(c, Next(c, cur, target), target);
    }
  }

  // ---- every run ----

  datatype Event = SetTarget(v: VelocitySetpoint) | Step | Reset

  datatype State = State(current: VelocitySetpoint, target: VelocitySetpoint)

  function Apply(c: Config, s: State, e: Event): State {
    match e
    case SetTarget(v) => s.(target := v)
    case Step => s.(current := Next(c, s.current, s.target))
    case Reset => State(DEFAULT, DEFAULT)
  }

  function Run(c: Config, es: seq<Event>): State {
    if es == [] then State(DEFAULT, DEFAULT) else Apply(c, Run(c, es[..|es| - 1]), es[|es| - 1])
  }

  lemma {:induction false} AfterOneMore(c: Config, cur: VelocitySetpoint, target: VelocitySetpoint, k: nat)
    ensures After(c, cur, target, k + 1) == Next(c, After(c, cur, target, k), target)
    decreases k
  {
    hide Next;
    if k > 0 {
      AfterOneMore(c, Next(c, cur, target), target, k - 1);
    }
  }

  /** On every run a new target and k steps make the k steps towards it. */
  lemma {:induction false} RunTakesSteps(c: Config, es: seq<Event>, v: VelocitySetpoint, k: nat)
    ensures Run(c, es + [SetTarget(v)] + seq(k, _ => Step)) == State(After(c, Run(c, es).current, v, k), v)
  {
    hide Next;
    var all := es + [SetTarget(v)] + seq(k, _ => Step);
    if k == 0 {
      assert all[..|es|] == es && all == es + [SetTarget(v)];
    } else {
      assert all[..|all| - 1] == es + [SetTarget(v)] + seq(k - 1, _ => Step);
      RunTakesSteps(c, es, v, k - 1);
      AfterOneMore(c, Run(c, es).current, v, k - 1);
    }
  }

  /** Targets as the packet parser produces them. */
  predicate FromPackets(es: seq<Event>) {
    forall e :: e in es && e.SetTarget? ==> Idx(e.v.speedStep) <= TOP_STEP
  }

  predicate NeverStopsTheOtherWay(c: Config, es: seq<Event>) {
    es != [] ==>
      var s := Run(c, es[..|es| - 1]);
      NeverStopsTheOtherWay(c, es[..|es| - 1]) &&
      !(es[|es| - 1].Step? && StopTheOtherWay(c, s.current, s.target))
  }

  predicate IndexStaysInTable(c: Config, es: seq<Event>) {
    (es != [] ==> IndexStaysInTable(c, es[..|es| - 1])) && Idx(Run(c, es).current.speedStep) <= TOP_STEP
  }

  lemma {:induction false} TargetsInTable(c: Config, es: seq<Event>)
    requires FromPackets(es)
    ensures Idx(Run(c, es).target.speedStep) <= TOP_STEP
  {
    if es != [] {
      TargetsInTable(c, es[..|es| - 1]);
      assert es[|es| - 1] in es;
    }
  }

  lemma StepStaysInTable(c: Config, s: State)
    requires Idx(s.current.speedStep) <= TOP_STEP && Idx(s.target.speedStep) <= TOP_STEP
    ensures Idx(Next(c, s.current, s.target).speedStep) <= TOP_STEP <==>
            !StopTheOtherWay(c, s.current, s.target)
  {}

  /** On every run the index stays within the speed table exactly when no step stops a standing
      vehicle the other way. */
  lemma {:induction false} IndexInTableExactly(c: Config, es: seq<Event>)
    requires FromPackets(es)
    ensures IndexStaysInTable(c, es) <==> NeverStopsTheOtherWay(c, es)
  {
    if es != [] {
      var init := es[..|es| - 1];
      IndexInTableExactly(c, init);
      TargetsInTable(c, init);
      if NeverStopsTheOtherWay(c, init) && es[|es| - 1].Step? {
        StepStaysInTable(c, Run(c, init));
      }
    }
  }

  /** In any state of any run: an emergency stop takes one step to zero; with a deceleration rate
      the direction changes only at standstill; and with both rates set the index moves by at most
      one and never past the target. */
  lemma StepIsSafe(c: Config, cur: VelocitySetpoint, target: VelocitySetpoint)
    ensures var next := Next(c, cur, target);
      && (target.speedStep.EmergencyStop? ==> Idx(next.speedStep) == 0)
      && (c.decelRate > 0 && next.direction != cur.direction ==>
            Idx(cur.speedStep) == 0 && next.direction == target.direction)
      && (c.accelRate > 0 && c.decelRate > 0 && !target.speedStep.EmergencyStop?
          && !StopTheOtherWay(c, cur, target) ==>
            var i: int, t: int, j: int := Idx(cur.speedStep), Idx(target.speedStep), Idx(next.speedStep);
            && -1 <= j - i <= 1
            && (cur.direction == target.direction ==>
                  next.direction == target.direction && (if i <= t then i <= j <= t else t <= j <= i))
            && (cur.direction != target.direction ==> if i > 0 then j == i - 1 else j == 1 <= t))
  {}
}
