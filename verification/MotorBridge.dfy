/** The two sides of the motor bridge under the motor task of the Rust decoder
    (application/src/motor/mod.rs and handler.rs), one PWM write at a time. */
module MotorBridge {
  import opened Velocity

  datatype Write = WriteFwd(level: nat) | WriteRev(level: nat)

  /** The duty cycles of the two sides. */
  datatype Sides = Sides(fwd: nat, rev: nat)

  function Put(s: Sides, w: Write): Sides {
    match w
    case WriteFwd(l) => s.(fwd := l)
    case WriteRev(l) => s.(rev := l)
  }

  function PutAll(s: Sides, ws: seq<Write>): Sides {
    if ws == [] then s else Put(PutAll(s, ws[..|ws| - 1]), ws[|ws| - 1])
  }

  predicate OneSided(s: Sides) {
    s.fwd == 0 || s.rev == 0
  }

  /** At no point between two writes are both sides energised. */
  predicate SafeThroughout(s: Sides, ws: seq<Write>) {
    OneSided(PutAll(s, ws)) && (ws != [] ==> SafeThroughout(s, ws[..|ws| - 1]))
  }

  /** At no point is either side energised. */
  predicate OffThroughout(s: Sides, ws: seq<Write>) {
    PutAll(s, ws) == Sides(0, 0) && (ws != [] ==> OffThroughout(s, ws[..|ws| - 1]))
  }

  datatype OutputLevel = OutputLevel(dir: Direction, setpoint: nat)

  /** How a control cycle ends: the measurement or the computation fails, the controller hands over
      and sets nothing, or it sets a level. */
  datatype Cycle = Fails | SetsNothing | Sets(level: nat)

  /** What wakes the task: a speed signal, a command, or the sample timer. */
  datatype Event =
    | Speed(level: OutputLevel, cycle: Cycle)
    | AcknowledgeCv
    | Reset
    | SetVelocity
    | SampleTimer(cycle: Cycle)

  datatype State = State(sides: Sides, ackDir: Direction, last: OutputLevel, armed: bool)

  /** The timer wakes the task only while it is set to a finite time. */
  predicate Enabled(s: State, e: Event) {
    e.SampleTimer? ==> s.armed
  }

  function StopWrites(): seq<Write> {
    [WriteFwd(0), WriteRev(0)]
  }

  /** The side that is to be off is written first. */
  function DriveWrites(level: nat, d: Direction): seq<Write> {
    if d.Forward? then [WriteRev(0), WriteFwd(level)] else [WriteFwd(0), WriteRev(level)]
  }

  function PulseWrites(half: nat, d: Direction): seq<Write> {
    StopWrites() + if d.Forward? then [WriteFwd(half), WriteFwd(0)] else [WriteRev(half), WriteRev(0)]
  }

  function CycleWrites(last: OutputLevel, cycle: Cycle): seq<Write> {
    if last.setpoint == 0 then StopWrites()
    else StopWrites() + if cycle.Sets? then DriveWrites(cycle.level, last.dir) else []
  }

  /** The writes an event causes; half is the level of the acknowledgement pulse. */
  function WritesOf(half: nat, s: State, e: Event): seq<Write> {
    match e
    case Speed(l, cycle) => CycleWrites(l, cycle)
    case SampleTimer(cycle) => CycleWrites(s.last, cycle)
    case AcknowledgeCv => PulseWrites(half, s.ackDir)
    case Reset => StopWrites()
    case SetVelocity => []
  }

  function Opposite(d: Direction): Direction {
    if d.Forward? then Reverse else Forward
  }

  function Next(half: nat, s: State, e: Event): State {
    var sides := PutAll(s.sides, WritesOf(half, s, e));
    match e
    case Speed(l, _) => State(sides, s.ackDir, l, l.setpoint != 0)
    case SampleTimer(_) => State(sides, s.ackDir, s.last, s.last.setpoint != 0)
    case AcknowledgeCv => State(sides, Opposite(s.ackDir), s.last, false)
    case Reset => State(sides, s.ackDir, s.last, false)
    case SetVelocity => s
  }

  lemma {:induction false} PutAllTwice(s: Sides, a: seq<Write>, b: seq<Write>)
    ensures PutAll(s, a + b) == PutAll(PutAll(s, a), b)
  {
    if b == [] {
      assert a + b == a;
    } else {
      assert (a + b)[..|a + b| - 1] == a + b[..|b| - 1];
      PutAllTwice(s, a, b[..|b| - 1]);
    }
  }

  class MotorTask {
    const half: nat
    var fwd: nat
    var rev: nat
    var dir: Direction
    var ackDir: Direction
    var lastOutputLevel: OutputLevel
    var timerArmed: bool

    /** Every write so far. */
    ghost var writes: seq<Write>

    ghost function Model(): State
      reads this
    {
      State(Sides(fwd, rev), ackDir, lastOutputLevel, timerArmed)
    }

    /** The sides are what the writes made of them. */
    ghost predicate Valid()
      reads this
    {
      Sides(fwd, rev) == PutAll(Sides(0, 0), writes)
    }

    constructor (half: nat)
      ensures Valid() && this.half == half && writes == []
      ensures Model() == State(Sides(0, 0), Forward, OutputLevel(Forward, 0), false)
    {
      this.half := half;
      fwd, rev, dir, ackDir, lastOutputLevel, timerArmed := 0, 0, Forward, Forward, OutputLevel(Forward, 0), false;
      writes := [];
    }

    method WriteSide(d: Direction, level: nat)
      requires Valid()
      modifies this`fwd, this`rev, this`writes
      ensures Valid()
      ensures var w := if d.Forward? then WriteFwd(level) else WriteRev(level);
        writes == old(writes) + [w] && Sides(fwd, rev) == Put(old(Sides(fwd, rev)), w)
    {
      if d.Forward? {
        fwd := level;
        writes := writes + [WriteFwd(level)];
      } else {
        rev := level;
        writes := writes + [WriteRev(level)];
      }
    }

    method Stop()
      requires Valid()
      modifies this`fwd, this`rev, this`writes
      ensures Valid() && fwd == 0 && rev == 0
      ensures writes == old(writes) + StopWrites()
    {
      WriteSide(Forward, 0);
      WriteSide(Reverse, 0);
    }

    method SetOutputLevel(level: nat, d: Direction)
      requires Valid()
      modifies this`fwd, this`rev, this`writes, this`dir
      ensures Valid() && dir == d
      ensures writes == old(writes) + DriveWrites(level, d)
      ensures Sides(fwd, rev) == if d.Forward? then Sides(level, 0) else Sides(0, level)
    {
      dir := d;
      WriteSide(Opposite(d), 0);
      WriteSide(d, level);
    }

    method PulseForAcknowledge()
      requires Valid()
      modifies this`fwd, this`rev, this`writes, this`ackDir
      ensures Valid() && fwd == 0 && rev == 0 && ackDir == Opposite(old(ackDir))
      ensures writes == old(writes) + PulseWrites(half, old(ackDir))
    {
      Stop();
      var d := ackDir;
      ackDir := Opposite(ackDir);
      WriteSide(d, half);
      WriteSide(d, 0);
    }

    /** set_output: a new level or the last one again. The measurement turns both sides off first. */
    method SetOutput(newLevel: OutputLevel, cycle: Cycle)
      requires Valid()
      modifies this`fwd, this`rev, this`writes, this`dir, this`lastOutputLevel, this`timerArmed
      ensures Valid() && lastOutputLevel == newLevel && timerArmed == (newLevel.setpoint != 0)
      ensures writes == old(writes) + CycleWrites(newLevel, cycle)
    {
      lastOutputLevel := newLevel;
      if lastOutputLevel.setpoint != 0 {
        Stop();
        if cycle.Sets? {
          SetOutputLevel(cycle.level, lastOutputLevel.dir);
        }
        timerArmed := true;
      } else {
        Stop();
        timerArmed := false;
      }
    }

    /** One pass of the task's loop. */
    method Wake(e: Event)
      requires Valid() && Enabled(Model(), e)
      modifies this
      ensures Valid()
      ensures Model() == Next(half, old(Model()), e)
      ensures writes == old(writes) + WritesOf(half, old(Model()), e)
    {
      hide CycleWrites, PulseWrites, PutAll;
      ghost var before, s := writes, Model();
      match e {
        case Speed(level, cycle) =>
          SetOutput(level, cycle);
        case AcknowledgeCv =>
          PulseForAcknowledge();
          timerArmed := false;
        case Reset =>
          Stop();
          timerArmed := false;
        case SetVelocity =>
        case SampleTimer(cycle) =>
          SetOutput(lastOutputLevel, cycle);
      }
      assert writes == before + WritesOf(half, s, e);
      PutAllTwice(Sides(0, 0), before, WritesOf(half, s, e));
    }
  }

  // ---- every run ----

  const INITIAL := State(Sides(0, 0), Forward, OutputLevel(Forward, 0), false)

  function Run(half: nat, es: seq<Event>): State {
    if es == [] then INITIAL else Next(half, Run(half, es[..|es| - 1]), es[|es| - 1])
  }

  predicate Possible(half: nat, es: seq<Event>) {
    es != [] ==> Possible(half, es[..|es| - 1]) && Enabled(Run(half, es[..|es| - 1]), es[|es| - 1])
  }

  /** All the writes of a run. */
  function Writes(half: nat, es: seq<Event>): seq<Write> {
    if es == [] then []
    else Writes(half, es[..|es| - 1]) + WritesOf(half, Run(half, es[..|es| - 1]), es[|es| - 1])
  }

  /** Between events a side is energised only while the timer will wake the task again, and it is the
      side of a non-zero speed. */
  predicate Steady(s: State) {
    && (s.armed ==> s.last.setpoint != 0)
    && (s.sides.fwd != 0 ==> s.sides.rev == 0 && s.armed && s.last.dir.Forward?)
    && (s.sides.rev != 0 ==> s.sides.fwd == 0 && s.armed && s.last.dir.Reverse?)
  }

  lemma SafeEnds(s: Sides, a: seq<Write>)
    ensures SafeThroughout(s, a) ==> OneSided(PutAll(s, a))
  {}

  lemma {:induction false} SafeTwice(s: Sides, a: seq<Write>, b: seq<Write>)
    ensures SafeThroughout(s, a + b) <==> SafeThroughout(s, a) && SafeThroughout(PutAll(s, a), b)
  {
    PutAllTwice(s, a, b);
    if b == [] {
      assert a + b == a;
      SafeEnds(s, a);
    } else {
      assert (a + b)[..|a + b| - 1] == a + b[..|b| - 1];
      SafeTwice(s, a, b[..|b| - 1]);
    }
  }

  lemma {:induction false} OffTwice(s: Sides, a: seq<Write>, b: seq<Write>)
    ensures OffThroughout(s, a + b) <==> OffThroughout(s, a) && OffThroughout(PutAll(s, a), b)
  {
    PutAllTwice(s, a, b);
    if b == [] {
      assert a + b == a;
    } else {
      assert (a + b)[..|a + b| - 1] == a + b[..|b| - 1];
      OffTwice(s, a, b[..|b| - 1]);
    }
  }

  lemma TwoWrites(s: Sides, v: Write, w: Write)
    ensures PutAll(s, [v, w]) == Put(Put(s, v), w)
    ensures SafeThroughout(s, [v, w]) <==> OneSided(s) && OneSided(Put(s, v)) && OneSided(Put(Put(s, v), w))
    ensures OffThroughout(s, [v, w]) <==>
      s == Sides(0, 0) && Put(s, v) == Sides(0, 0) && Put(Put(s, v), w) == Sides(0, 0)
  {
    assert [v, w][..1] == [v] && [v][..0] == [];
    assert PutAll(s, [v]) == Put(PutAll(s, []), v);
    assert SafeThroughout(s, [v]) <==> OneSided(Put(s, v)) && SafeThroughout(s, []);
    assert OffThroughout(s, [v]) <==> Put(s, v) == Sides(0, 0) && OffThroughout(s, []);
  }

  lemma StopsAndThen(s: Sides, last: OutputLevel, cycle: Cycle)
    requires OneSided(s)
    ensures SafeThroughout(s, CycleWrites(last, cycle))
    ensures PutAll(s, CycleWrites(last, cycle)) ==
      if last.setpoint == 0 || !cycle.Sets? then Sides(0, 0)
      else if last.dir.Forward? then Sides(cycle.level, 0) else Sides(0, cycle.level)
  {
    hide SafeThroughout, PutAll;
    var off := Sides(0, 0);
    TwoWrites(s, WriteFwd(0), WriteRev(0));
    assert StopWrites() + [] == StopWrites();
    if last.setpoint != 0 && cycle.Sets? {
      var drive := DriveWrites(cycle.level, last.dir);
      TwoWrites(off, drive[0], drive[1]);
      SafeTwice(s, StopWrites(), drive);
      PutAllTwice(s, StopWrites(), drive);
    }
  }

  lemma PulsesOneSide(s: Sides, half: nat, d: Direction)
    requires OneSided(s)
    ensures SafeThroughout(s, PulseWrites(half, d)) && PutAll(s, PulseWrites(half, d)) == Sides(0, 0)
  {
    hide SafeThroughout, PutAll;
    var off := Sides(0, 0);
    var pulse := if d.Forward? then [WriteFwd(half), WriteFwd(0)] else [WriteRev(half), WriteRev(0)];
    TwoWrites(s, WriteFwd(0), WriteRev(0));
    TwoWrites(off, pulse[0], pulse[1]);
    SafeTwice(s, StopWrites(), pulse);
    PutAllTwice(s, StopWrites(), pulse);
  }

  lemma EventIsSafe(half: nat, s: State, e: Event)
    requires Steady(s) && Enabled(s, e)
    ensures Steady(Next(half, s, e)) && SafeThroughout(s.sides, WritesOf(half, s, e))
  {
    StopsAndThen(s.sides, if e.Speed? then e.level else s.last, if e.Speed? || e.SampleTimer? then e.cycle else Fails);
    PulsesOneSide(s.sides, half, s.ackDir);
    TwoWrites(s.sides, WriteFwd(0), WriteRev(0));
    assert SafeThroughout(s.sides, []);
    hide SafeThroughout;
  }

  lemma NothingWritten(half: nat)
    ensures Steady(Run(half, [])) && Writes(half, []) == []
    ensures PutAll(Sides(0, 0), []) == Run(half, []).sides && SafeThroughout(Sides(0, 0), [])
  {}

  lemma OneMoreEvent(half: nat, es: seq<Event>)
    requires es != []
    ensures var init, e := es[..|es| - 1], es[|es| - 1];
      && Run(half, es) == Next(half, Run(half, init), e)
      && Writes(half, es) == Writes(half, init) + WritesOf(half, Run(half, init), e)
      && Run(half, es).sides == PutAll(Run(half, init).sides, WritesOf(half, Run(half, init), e))
  {
    hide CycleWrites, PulseWrites, StopWrites;
  }

  /** On every possible order of signals, commands and timer expiries, at most one side is energised
      between any two writes. */
  lemma {:induction false} BridgeIsSafe(half: nat, es: seq<Event>)
    requires Possible(half, es)
    ensures Steady(Run(half, es))
    ensures PutAll(Sides(0, 0), Writes(half, es)) == Run(half, es).sides
    ensures SafeThroughout(Sides(0, 0), Writes(half, es))
  {
    hide SafeThroughout, WritesOf, Writes, Run, PutAll, Next, Steady;
    if es == [] {
      NothingWritten(half);
    } else {
      var init, e := es[..|es| - 1], es[|es| - 1];
      BridgeIsSafe(half, init);
      EventIsSafe(half, Run(half, init), e);
      OneMoreEvent(half, es);
      SafeTwice(Sides(0, 0), Writes(half, init), WritesOf(half, Run(half, init), e));
      PutAllTwice(Sides(0, 0), Writes(half, init), WritesOf(half, Run(half, init), e));
    }
  }

  // ---- after a reset or an acknowledgement ----

  /** Off, with nothing scheduled that could change it. */
  predicate Quiet(s: State) {
    s.sides == Sides(0, 0) && !s.armed
  }

  /** The events that may energise a side of a quiet bridge. */
  predicate Awakes(e: Event) {
    e.AcknowledgeCv? || (e.Speed? && e.level.setpoint != 0)
  }

  lemma QuietAfterResetOrAcknowledge(half: nat, s: State, e: Event)
    requires Steady(s) && (e.Reset? || e.AcknowledgeCv?)
    ensures Quiet(Next(half, s, e))
  {
    PulsesOneSide(s.sides, half, s.ackDir);
    TwoWrites(s.sides, WriteFwd(0), WriteRev(0));
  }

  lemma QuietStep(half: nat, s: State, e: Event)
    requires Quiet(s) && Enabled(s, e) && !Awakes(e)
    ensures Quiet(Next(half, s, e)) && OffThroughout(s.sides, WritesOf(half, s, e))
  {
    TwoWrites(s.sides, WriteFwd(0), WriteRev(0));
  }

  /** The writes of a run from the given number of events on. */
  function WritesSince(half: nat, es: seq<Event>, n: nat): seq<Write>
    requires n <= |es|
  {
    if n == |es| then []
    else WritesSince(half, es[..|es| - 1], n) + WritesOf(half, Run(half, es[..|es| - 1]), es[|es| - 1])
  }

  lemma Reassociate(a: seq<Write>, b: seq<Write>, c: seq<Write>)
    ensures (a + b) + c == a + (b + c)
  {}

  lemma {:induction false} WritesSplit(half: nat, es: seq<Event>, n: nat)
    requires n <= |es|
    ensures Writes(half, es) == Writes(half, es[..n]) + WritesSince(half, es, n)
  {
    if n == |es| {
      assert es[..n] == es;
    } else {
      var init := es[..|es| - 1];
      var ws := WritesOf(half, Run(half, init), es[|es| - 1]);
      WritesSplit(half, init, n);
      assert init[..n] == es[..n];
      assert Writes(half, es) == Writes(half, init) + ws && WritesSince(half, es, n) == WritesSince(half, init, n) + ws;
      hide *;
      Reassociate(Writes(half, es[..n]), WritesSince(half, init, n), ws);
    }
  }

  lemma OffEnds(s: Sides, a: seq<Write>)
    ensures OffThroughout(s, a) ==> PutAll(s, a) == Sides(0, 0)
  {}

  /** From a reset or a completed acknowledgement on, both sides stay off through any number of
      events, until a speed other than zero or another acknowledgement comes. */
  lemma {:induction false} StaysOff(half: nat, es: seq<Event>, n: nat)
    requires Possible(half, es) && 0 < n <= |es| && (es[n - 1].Reset? || es[n - 1].AcknowledgeCv?)
    requires forall i :: n <= i < |es| ==> !Awakes(es[i])
    ensures Quiet(Run(half, es))
    ensures OffThroughout(Sides(0, 0), WritesSince(half, es, n))
    decreases |es|
  {
    var init, e := es[..|es| - 1], es[|es| - 1];
    if n == |es| {
      BridgeIsSafe(half, init);
      QuietAfterResetOrAcknowledge(half, Run(half, init), e);
    } else {
      StaysOff(half, init, n);
      QuietStep(half, Run(half, init), e);
      OffTwice(Sides(0, 0), WritesSince(half, init, n), WritesOf(half, Run(half, init), e));
      OffEnds(Sides(0, 0), WritesSince(half, init, n));
      hide WritesOf, OffThroughout, Next;
    }
  }

  // ---- what the motor does ----

  /** The speed signalled last. */
  function LastSpeed(es: seq<Event>): OutputLevel {
    if es == [] then OutputLevel(Forward, 0)
    else match es[|es| - 1]
      case Speed(l, _) => l
      case _ => LastSpeed(es[..|es| - 1])
  }

  function Pulses(es: seq<Event>): nat {
    if es == [] then 0 else Pulses(es[..|es| - 1]) + if es[|es| - 1].AcknowledgeCv? then 1 else 0
  }

  lemma {:induction false} LastIsRemembered(half: nat, es: seq<Event>)
    ensures var s := Run(half, es);
      s.last == LastSpeed(es) && s.ackDir == if Pulses(es) % 2 == 0 then Forward else Reverse
  {
    if es != [] {
      LastIsRemembered(half, es[..|es| - 1]);
      hide PutAll, WritesOf;
    }
  }

  /** What a control cycle leaves on the bridge: the level it set, on the side of the speed signalled
      last, and nothing without a speed or a level. */
  function CycleSides(l: OutputLevel, cycle: Cycle): Sides {
    if l.setpoint == 0 || !cycle.Sets? then Sides(0, 0)
    else if l.dir.Forward? then Sides(cycle.level, 0) else Sides(0, cycle.level)
  }

  /** After every event of every run the bridge drives as the last control cycle, reset or
      acknowledgement left it, and the timer is set exactly after a cycle at a speed that is not zero. */
  lemma BridgeDrivesAsTold(half: nat, es: seq<Event>)
    requires Possible(half, es) && es != []
    ensures var init, e, s := es[..|es| - 1], es[|es| - 1], Run(half, es);
      match e
      case Speed(l, cycle) => s.sides == CycleSides(l, cycle) && s.armed == (l.setpoint != 0)
      case SampleTimer(cycle) =>
        s.sides == CycleSides(LastSpeed(init), cycle) && s.armed == (LastSpeed(init).setpoint != 0)
      case AcknowledgeCv => s.sides == Sides(0, 0) && !s.armed
      case Reset => s.sides == Sides(0, 0) && !s.armed
      case SetVelocity => s.sides == Run(half, init).sides && s.armed == Run(half, init).armed
  {
    var init, e := es[..|es| - 1], es[|es| - 1];
    var s := Run(half, init);
    BridgeIsSafe(half, init);
    LastIsRemembered(half, init);
    StopsAndThen(s.sides, if e.Speed? then e.level else s.last, if e.Speed? || e.SampleTimer? then e.cycle else Fails);
    PulsesOneSide(s.sides, half, s.ackDir);
    TwoWrites(s.sides, WriteFwd(0), WriteRev(0));
    hide PutAll, SafeThroughout, Possible, CycleWrites, PulseWrites, LastSpeed;
  }

  lemma OneMoreWrite(s: Sides, ws: seq<Write>, w: Write)
    ensures PutAll(s, ws + [w]) == Put(PutAll(s, ws), w)
  {
    assert (ws + [w])[..|ws|] == ws;
  }

  /** An acknowledgement is one pulse at the given level on one side, the forward one first and then in
      turns. */
  lemma PulseIsSeen(half: nat, es: seq<Event>)
    requires Possible(half, es)
    ensures var ws := WritesOf(half, Run(half, es), AcknowledgeCv);
      && |ws| == 4
      && PutAll(Run(half, es).sides, ws[..2]) == Sides(0, 0)
      && PutAll(Run(half, es).sides, ws[..3]) == (if Pulses(es) % 2 == 0 then Sides(half, 0) else Sides(0, half))
      && PutAll(Run(half, es).sides, ws) == Sides(0, 0)
  {
    LastIsRemembered(half, es);
    hide Run, Pulses;
    var s, d := Run(half, es).sides, Run(half, es).ackDir;
    var ws := PulseWrites(half, d);
    assert ws == [WriteFwd(0), WriteRev(0)] + ws[2..];
    assert ws[..2] == [WriteFwd(0), WriteRev(0)] && ws[..3] == ws[..2] + [ws[2]] && ws == ws[..3] + [ws[3]];
    TwoWrites(s, WriteFwd(0), WriteRev(0));
    OneMoreWrite(s, ws[..2], ws[2]);
    OneMoreWrite(s, ws[..3], ws[3]);
  }
}
