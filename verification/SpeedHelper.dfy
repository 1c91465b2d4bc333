/** The speed helper of the C firmware (core1.c): on each timer tick it may move the index into the
    speed table one entry towards the target. */
module SpeedHelper {
  import opened Numbers

  const SPEED_STEP_REVERSE_EMERGENCY_STOP: u8 := 0x01
  const SPEED_STEP_FORWARD_EMERGENCY_STOP: u8 := 0x81
  const TABLE_LENGTH := 127

  /** A speed step without its direction bit, as an index; stop and emergency stop are 0. */
  function TableIndex(speedStep: u8): (r: nat)
    ensures r < TABLE_LENGTH
  {
    var s := speedStep % 128;
    if s == 0 || s == 1 then 0 else s - 1
  }

  function DirectionBit(speedStep: u8): nat {
    speedStep / 128
  }

  predicate IsEmergencyStop(speedStep: u8) {
    speedStep == SPEED_STEP_FORWARD_EMERGENCY_STOP || speedStep == SPEED_STEP_REVERSE_EMERGENCY_STOP
  }

  /** What a tick reads: the two globals written by the other core, and CV3 and CV4. */
  datatype Input = Input(target: u8, targetPrev: u8, accelRate: u8, decelRate: u8)

  datatype State = State(counter: u8, index: u8, setpoint: nat)

  function Goal(x: Input): nat {
    TableIndex(x.target)
  }

  predicate Turned(x: Input) {
    DirectionBit(x.target) != DirectionBit(x.targetPrev)
  }

  function Rate(x: Input, index: u8): u8 {
    if Goal(x) > index then x.accelRate else x.decelRate
  }

  type Table = t: seq<nat> | |t| == TABLE_LENGTH witness seq(TABLE_LENGTH, _ => 0)

  /** Where a tick leaves counter and index. */
  function Move(x: Input, counter: u8, index: u8): (u8, u8) {
    if IsEmergencyStop(x.target) then (0, 0)
    else if Goal(x) == index then (0, index)
    else if counter == Rate(x, index) then
      (0, if Rate(x, index) == 0 then Goal(x) else if Goal(x) > index then index + 1 else index - 1)
    else if Turned(x) then (0, Goal(x))
    else ((counter + 1) % 256, index)
  }

  /** Whether a tick looks the setpoint up again. */
  predicate Refreshes(x: Input, counter: u8, index: u8) {
    IsEmergencyStop(x.target) || Turned(x) || (Goal(x) != index && counter == Rate(x, index))
  }

  function Tick(x: Input, table: Table, s: State): State
    requires s.index < TABLE_LENGTH
  {
    var (counter, index) := Move(x, s.counter, s.index);
    State(counter, index, if Refreshes(x, s.counter, s.index) then table[index] else s.setpoint)
  }

  class Controller {
    const speedTable: Table
    var speedHelperCounter: u8
    var speedTableIndex: u8
    var setpoint: nat

    ghost predicate Valid()
      reads this
    {
      speedTableIndex < TABLE_LENGTH
    }

    ghost function Model(): State
      reads this
    {
      State(speedHelperCounter, speedTableIndex, setpoint)
    }

    constructor (table: Table)
      ensures Valid() && speedTable == table && Model() == State(0, 0, 0)
    {
      speedTable := table;
      speedHelperCounter, speedTableIndex, setpoint := 0, 0, 0;
    }

    method SpeedHelper(x: Input)
      requires Valid()
      modifies this
      ensures Valid()
      ensures Model() == Tick(x, speedTable, old(Model()))
    {
      var endIndex := TableIndex(x.target);
      var directionChanged := DirectionBit(x.target) != DirectionBit(x.targetPrev);
      if IsEmergencyStop(x.target) {
        speedTableIndex := 0;
        speedHelperCounter := 0;
        setpoint := speedTable[speedTableIndex];
      } else if endIndex > speedTableIndex && speedHelperCounter == x.accelRate {
        if x.accelRate == 0 { speedTableIndex := endIndex; } else { speedTableIndex := speedTableIndex + 1; }
        setpoint := speedTable[speedTableIndex];
        speedHelperCounter := 0;
      } else if endIndex < speedTableIndex && speedHelperCounter == x.decelRate {
        if x.decelRate == 0 { speedTableIndex := endIndex; } else { speedTableIndex := speedTableIndex - 1; }
        setpoint := speedTable[speedTableIndex];
        speedHelperCounter := 0;
      } else if directionChanged {
        speedTableIndex := endIndex;
        setpoint := speedTable[speedTableIndex];
        speedHelperCounter := 0;
      } else if endIndex != speedTableIndex {
        speedHelperCounter := (speedHelperCounter + 1) % 256;
      } else {
        speedHelperCounter := 0;
      }
    }
  }

  // ---- with the targets held constant ----

  function Distance(x: Input, index: u8): nat {
    if Goal(x) > index then Goal(x) - index else index - Goal(x)
  }

  /** Ticks until the counter, which wraps at 256, meets the rate and the index moves. */
  function TicksToMove(rate: u8, counter: u8): nat {
    1 + if counter <= rate then rate - counter else rate + 256 - counter
  }

  /** Ticks for the entries after the first: none when the index jumps to its goal. */
  function FurtherTicks(rate: nat, distance: nat): nat
    requires 0 < distance
  {
    if rate == 0 then 0 else (distance - 1) * (rate + 1)
  }

  lemma OneEntryFurther(rate: nat, distance: nat)
    requires 0 < rate && 1 < distance
    ensures FurtherTicks(rate, distance) == FurtherTicks(rate, distance - 1) + rate + 1
  {}

  /** Ticks until the index arrives, in closed form. */
  function TicksLeft(x: Input, counter: u8, index: u8): nat {
    var d, rate := Distance(x, index), Rate(x, index);
    if d == 0 then 0
    else if IsEmergencyStop(x.target) then 1
    else if Turned(x) then if counter == rate && 0 < rate && 1 < d then 2 else 1
    else TicksToMove(rate, counter) + FurtherTicks(rate, d)
  }

  function MovesIn(x: Input, counter: u8, index: u8, n: nat): (u8, u8)
    decreases n
  {
    if n == 0 then (counter, index)
    else var (c, i) := Move(x, counter, index); MovesIn(x, c, i, n - 1)
  }

  lemma NoneFurther(rate: nat, distance: nat)
    requires 0 < distance
    ensures rate == 0 || distance == 1 ==> FurtherTicks(rate, distance) == 0
  {}

  /** A tick that does not move the index brings the counter one nearer to the rate. */
  lemma CounterNears(rate: u8, counter: u8)
    requires counter != rate
    ensures TicksToMove(rate, counter) == 1 + TicksToMove(rate, (counter + 1) % 256)
  {}

  lemma MovingTick(x: Input, counter: u8, index: u8)
    requires Distance(x, index) > 0 && !IsEmergencyStop(x.target) && counter == Rate(x, index)
    ensures var (c, i) := Move(x, counter, index); TicksLeft(x, counter, index) == 1 + TicksLeft(x, c, i)
  {
    hide FurtherTicks, IsEmergencyStop, Turned;
    var d, rate := Distance(x, index), Rate(x, index);
    if 0 < rate && 1 < d {
      OneEntryFurther(rate, d);
    }
    NoneFurther(rate, d);
    NoneFurther(rate, 1);
  }

  lemma WaitingTick(x: Input, counter: u8, index: u8)
    requires Distance(x, index) > 0 && !IsEmergencyStop(x.target) && counter != Rate(x, index)
    ensures var (c, i) := Move(x, counter, index); TicksLeft(x, counter, index) == 1 + TicksLeft(x, c, i)
  {
    hide FurtherTicks, TicksToMove, IsEmergencyStop, Turned;
    CounterNears(Rate(x, index), counter);
  }

  /** Each tick takes exactly one off the closed form. */
  lemma TickFollowsClock(x: Input, counter: u8, index: u8)
    requires Distance(x, index) > 0
    ensures var (c, i) := Move(x, counter, index); TicksLeft(x, counter, index) == 1 + TicksLeft(x, c, i)
  {
    if IsEmergencyStop(x.target) {
      assert Move(x, counter, index) == (0, 0);
    } else if counter == Rate(x, index) {
      MovingTick(x, counter, index);
    } else {
      WaitingTick(x, counter, index);
    }
  }

  lemma GoalIsKept(x: Input, counter: u8, index: u8)
    requires Distance(x, index) == 0
    ensures var (c, i) := Move(x, counter, index); Distance(x, i) == 0
  {}

  lemma ClockRuns(x: Input, counter: u8, index: u8)
    ensures 0 < TicksLeft(x, counter, index) <==> 0 < Distance(x, index)
  {
    hide FurtherTicks;
  }

  /** From any counter value, even one past the rate, and any index: the index arrives after exactly
      the ticks of the closed form, not before, and stays. */
  lemma {:induction false} RampArrives(x: Input, counter: u8, index: u8, n: nat)
    ensures MovesIn(x, counter, index, n).1 == Goal(x) <==> TicksLeft(x, counter, index) <= n
    decreases n
  {
    var (c, i) := Move(x, counter, index);
    if Distance(x, index) > 0 {
      TickFollowsClock(x, counter, index);
      ClockRuns(x, counter, index);
    } else {
      GoalIsKept(x, counter, index);
    }
    if n > 0 {
      RampArrives(x, c, i, n - 1);
    }
  }

  /** The bound: one trip of the counter round its 256 values, then rate + 1 ticks an entry. */
  lemma RampTimeBound(x: Input, counter: u8, index: u8)
    requires Distance(x, index) > 0
    ensures TicksLeft(x, counter, index) <= 256 + (Distance(x, index) - 1) * (Rate(x, index) + 1)
  {}

  /** The bound is met: a counter one past the rate has to go all the way round. */
  lemma RampTimeBoundIsMet(x: Input, counter: u8, index: u8)
    requires Distance(x, index) > 0 && !IsEmergencyStop(x.target) && !Turned(x)
    requires 0 < Rate(x, index) && counter == Rate(x, index) + 1
    ensures TicksLeft(x, counter, index) == 256 + (Distance(x, index) - 1) * (Rate(x, index) + 1)
  {}

  // ---- every run ----

  function Run(table: Table, xs: seq<Input>): (s: State)
    ensures s.index < TABLE_LENGTH
  {
    if xs == [] then State(0, 0, 0) else Tick(xs[|xs| - 1], table, Run(table, xs[..|xs| - 1]))
  }

  /** Whatever the targets and rates do, the setpoint is always the table entry at the index. */
  lemma {:induction false} SetpointIsTableEntry(table: Table, xs: seq<Input>)
    requires table[0] == 0
    ensures Run(table, xs).index < TABLE_LENGTH
    ensures Run(table, xs).setpoint == table[Run(table, xs).index]
  {
    if xs != [] {
      SetpointIsTableEntry(table, xs[..|xs| - 1]);
    }
  }

  // ---- in the fields of the input ----

  /** The index a speed step asks for: stop and emergency stop 0, the steps 2 to 127 the indices 1 to 126. */
  lemma GoalIsStep(x: Input)
    ensures var step := x.target % 128; Goal(x) == if step <= 1 then 0 else step - 1
  {}

  predicate Straight(x: Input) {
    x.target != 1 && x.target != 129 && x.target / 128 == x.targetPrev / 128
  }

  lemma AllEntries(rate: nat, distance: nat)
    requires 0 < distance
    ensures 1 + rate + FurtherTicks(rate, distance) == if rate == 0 then 1 else distance * (rate + 1)
  {
    if 0 < rate {
      assert distance * (rate + 1) == (distance - 1) * (rate + 1) + (rate + 1);
    }
  }

  /** Upwards with CV3: from a counter at zero, one entry every CV3 + 1 ticks, or all at once. */
  lemma AccelerationTime(x: Input, index: u8, n: nat)
    requires Straight(x)
    requires var step := x.target % 128; 2 <= step && index < step - 1
    ensures var step := x.target % 128;
      MovesIn(x, 0, index, n).1 == step - 1 <==>
        (if x.accelRate == 0 then 1 else (step - 1 - index) * (x.accelRate + 1)) <= n
  {
    hide FurtherTicks, MovesIn;
    GoalIsStep(x);
    RampArrives(x, 0, index, n);
    AllEntries(x.accelRate, Distance(x, index));
  }

  /** Downwards with CV4. */
  lemma DecelerationTime(x: Input, index: u8, n: nat)
    requires Straight(x)
    requires var step := x.target % 128; (if step <= 1 then 0 else step - 1) < index
    ensures var step := x.target % 128; var goal := if step <= 1 then 0 else step - 1;
      MovesIn(x, 0, index, n).1 == goal <==>
        (if x.decelRate == 0 then 1 else (index - goal) * (x.decelRate + 1)) <= n
  {
    hide FurtherTicks, MovesIn;
    GoalIsStep(x);
    RampArrives(x, 0, index, n);
    AllEntries(x.decelRate, Distance(x, index));
  }

  lemma TicksAreNatural(entries: nat, rate: nat)
    ensures 0 <= entries * (rate + 1)
  {}

  /** Once round the counter's values, and then rate + 1 ticks an entry. */
  function RoundTrip(entries: nat, rate: nat): nat
    requires 0 < entries
  {
    TicksAreNatural(entries - 1, rate);
    256 + (entries - 1) * (rate + 1)
  }

  /** From any counter the index is there after one trip of the counter more. */
  lemma ArrivesInTime(x: Input, counter: u8, index: u8)
    ensures var step := x.target % 128; var goal := if step <= 1 then 0 else step - 1;
      && (index < goal ==> MovesIn(x, counter, index, RoundTrip(goal - index, x.accelRate)).1 == goal)
      && (goal < index ==> MovesIn(x, counter, index, RoundTrip(index - goal, x.decelRate)).1 == goal)
  {
    hide TicksLeft, MovesIn;
    GoalIsStep(x);
    var step := x.target % 128;
    var goal := if step <= 1 then 0 else step - 1;
    if index < goal {
      RampTimeBound(x, counter, index);
      RampArrives(x, counter, index, RoundTrip(goal - index, x.accelRate));
    } else if goal < index {
      RampTimeBound(x, counter, index);
      RampArrives(x, counter, index, RoundTrip(index - goal, x.decelRate));
    }
  }

  /** An emergency stop is there after one tick, a change of direction after one too, unless the counter
      has just reached a rate: then one entry comes first. */
  lemma ArrivesAtOnce(x: Input, counter: u8, index: u8)
    requires !Straight(x)
    ensures var step := x.target % 128; var goal := if step <= 1 then 0 else step - 1;
      var rate := if index < goal then x.accelRate else x.decelRate;
      && MovesIn(x, counter, index, 2).1 == goal
      && (step != 1 && index != goal ==>
            (MovesIn(x, counter, index, 1).1 == goal <==>
               counter != rate || rate == 0 || goal - index == 1 || index - goal == 1))
      && (step == 1 ==> MovesIn(x, counter, index, 1).1 == goal)
  {
    hide MovesIn, FurtherTicks, TicksToMove;
    GoalIsStep(x);
    RampArrives(x, counter, index, 1);
    RampArrives(x, counter, index, 2);
  }

  lemma {:induction false} MovesOneMore(x: Input, counter: u8, index: u8, n: nat)
    ensures var (c, i) := MovesIn(x, counter, index, n); MovesIn(x, counter, index, n + 1) == Move(x, c, i)
    decreases n
  {
    hide Move;
    if n > 0 {
      var (c, i) := Move(x, counter, index);
      MovesOneMore(x, c, i, n - 1);
    }
  }

  lemma NoMovesYet(x: Input, counter: u8, index: u8)
    ensures MovesIn(x, counter, index, 0) == (counter, index)
  {}

  /** On every run n further ticks with the same input make these moves, and the setpoint follows. */
  lemma {:induction false} TicksMove(table: Table, xs: seq<Input>, x: Input, n: nat)
    requires table[0] == 0
    ensures var s, t := Run(table, xs), Run(table, xs + seq(n, _ => x));
      (t.counter, t.index) == MovesIn(x, s.counter, s.index, n) && t.setpoint == table[t.index]
  {
    hide MovesIn, Move, Refreshes;
    var all := xs + seq(n, _ => x);
    SetpointIsTableEntry(table, all);
    var s := Run(table, xs);
    if n == 0 {
      assert all == xs;
      NoMovesYet(x, s.counter, s.index);
    } else {
      assert all[..|all| - 1] == xs + seq(n - 1, _ => x);
      TicksMove(table, xs, x, n - 1);
      MovesOneMore(x, s.counter, s.index, n - 1);
    }
  }
}
