/** The function handler (application/src/functions/handler.rs): keeps the active functions and
    drives the output pins mapped to them. */
module FunctionOutputs {
  import opened Wire
  import opened Velocity
  import opened PacketCodec

  const FUNCTIONS := 32

  predicate Meets(word: bv32, mask: bv32) {
    word & mask != 0
  }

  function Mask(n: nat): bv32
    requires n < 32
  {
    (1 as bv32) << n
  }

  /** Bit n of a word. */
  predicate Has(word: bv32, n: nat)
    requires n < 32
  {
    Meets(word, Mask(n))
  }

  /** For each direction the pins that each function switches on. */
  datatype Config = Config(forward: seq<bv32>, reverse: seq<bv32>)

  predicate ValidConfig(c: Config) {
    |c.forward| == FUNCTIONS && |c.reverse| == FUNCTIONS
  }

  function MapOf(c: Config, d: Direction): seq<bv32> {
    if d.Forward? then c.forward else c.reverse
  }

  /** The union of the pins of the active functions among the first k. */
  function OutputMask(map32: seq<bv32>, flags: bv32, k: nat): bv32
    requires k <= |map32| <= FUNCTIONS
  {
    if k == 0 then 0
    else
      var m := OutputMask(map32, flags, k - 1);
      if Has(flags, k - 1) then Union(m, map32[k - 1]) else m
  }

  /** A plain output is low or high, a PWM output runs at its level or at zero. */
  datatype Driver = Driver(pin: nat, isPwm: bool, pwmLevel: nat, out: nat)

  function OnLevel(d: Driver): nat {
    if d.isPwm then d.pwmLevel else 1
  }

  function Driven(d: Driver, on: bool): Driver {
    d.(out := if on then OnLevel(d) else 0)
  }

  predicate ValidDrivers(ds: seq<Driver>) {
    forall i :: 0 <= i < |ds| ==> ds[i].pin < 32
  }

  /** A pin belongs to an active function in the given direction. */
  ghost predicate Wanted(c: Config, d: Direction, flags: bv32, pin: nat)
    requires ValidConfig(c) && pin < 32
  {
    exists n :: 0 <= n < FUNCTIONS && Has(flags, n) && Has(if d.Forward? then c.forward[n] else c.reverse[n], pin)
  }

  // ---- bits ----

  lemma NothingWanted()
    ensures forall n: nat :: n < 32 ==> !Has(0, n)
  {}

  lemma OrDistributes(a: bv32, b: bv32, m: bv32)
    ensures (a | b) & m == (a & m) | (b & m)
  {}

  lemma OrIsZero(x: bv32, y: bv32)
    ensures x | y != 0 <==> x != 0 || y != 0
  {}

  lemma OrBits(a: bv32, b: bv32, m: bv32)
    ensures Meets(a | b, m) <==> Meets(a, m) || Meets(b, m)
  {
    OrDistributes(a, b, m);
    OrIsZero(a & m, b & m);
  }

  lemma HasOr(a: bv32, b: bv32, n: nat)
    requires n < 32
    ensures Has(Union(a, b), n) <==> Has(a, n) || Has(b, n)
  {
    hide Mask, Meets;
    OrBits(a, b, Mask(n));
  }

  predicate IsSingleBit(m: bv32) {
    m & (m - 1) == 0
  }

  lemma SingleBit(n: nat)
    requires n < 32
    ensures IsSingleBit(Mask(n)) && Mask(n) != 0
  {}

  lemma AllOrNothing(b: bv32, m: bv32)
    requires IsSingleBit(m)
    ensures b & m == 0 || b & m == m
  {}

  lemma MinusCases(a: bv32, b: bv32, m: bv32)
    requires b & m == 0 || b & m == m
    ensures Meets(a & !b, m) <==> Meets(a, m) && !Meets(b, m)
  {}

  lemma MinusBits(a: bv32, b: bv32, m: bv32)
    requires IsSingleBit(m)
    ensures Meets(a & !b, m) <==> Meets(a, m) && !Meets(b, m)
  {
    AllOrNothing(b, m);
    hide IsSingleBit, Meets;
    MinusCases(a, b, m);
  }

  lemma UnionOfBits(a: bv32, b: bv32, m: bv32)
    ensures Meets(Union(a, b), m) <==> Meets(a, m) || Meets(b, m)
  {
    hide Meets;
    OrBits(a, b, m);
  }

  lemma DifferenceBits(a: bv32, b: bv32, m: bv32)
    requires IsSingleBit(m)
    ensures Meets(Difference(a, b), m) <==> Meets(a, m) && !Meets(b, m)
  {
    hide Meets, IsSingleBit;
    MinusBits(a, b, m);
  }

  lemma UnionBits(g: FunctionGroup, other: bv32, m: bv32)
    requires IsSingleBit(m)
    ensures Meets(UnionWithMask(g, other), m) <==> (Meets(other, m) && !Meets(g.groupMask, m)) || Meets(g.flags, m)
  {
    hide Meets, IsSingleBit, Union, Difference;
    UnionOfBits(Difference(other, g.groupMask), g.flags, m);
    DifferenceBits(other, g.groupMask, m);
  }

  lemma HasUnion(g: FunctionGroup, other: bv32, n: nat)
    requires n < 32
    ensures Has(UnionWithMask(g, other), n) <==> (Has(other, n) && !Has(g.groupMask, n)) || Has(g.flags, n)
  {
    hide Mask, Meets, IsSingleBit, UnionWithMask;
    SingleBit(n);
    UnionBits(g, other, Mask(n));
  }

  lemma MaskOneMore(map32: seq<bv32>, flags: bv32, k: nat, pin: nat)
    requires 0 < k <= |map32| <= FUNCTIONS && pin < 32
    ensures Has(OutputMask(map32, flags, k), pin) <==>
            Has(OutputMask(map32, flags, k - 1), pin) || (Has(flags, k - 1) && Has(map32[k - 1], pin))
  {
    hide Has, Union;
    HasOr(OutputMask(map32, flags, k - 1), map32[k - 1], pin);
  }

  lemma MaskOfNone(map32: seq<bv32>, flags: bv32, pin: nat)
    requires |map32| <= FUNCTIONS && pin < 32
    ensures !Has(OutputMask(map32, flags, 0), pin)
  {
    hide Has;
    NothingWanted();
  }

  lemma {:induction false} MaskBits(map32: seq<bv32>, flags: bv32, k: nat, pin: nat)
    requires k <= |map32| <= FUNCTIONS && pin < 32
    ensures Has(OutputMask(map32, flags, k), pin) <==>
            exists n :: 0 <= n < k && Has(flags, n) && Has(map32[n], pin)
  {
    hide Has, OutputMask;
    if k == 0 {
      MaskOfNone(map32, flags, pin);
    } else {
      MaskBits(map32, flags, k - 1, pin);
      MaskOneMore(map32, flags, k, pin);
    }
  }

  /** The loop over the functions computes exactly the pins that are wanted. */
  lemma MaskIsWanted(c: Config, d: Direction, flags: bv32, pin: nat)
    requires ValidConfig(c) && pin < 32
    ensures Has(OutputMask(MapOf(c, d), flags, FUNCTIONS), pin) <==> Wanted(c, d, flags, pin)
  {
    hide Has;
    MaskBits(MapOf(c, d), flags, FUNCTIONS, pin);
  }

  // ---- the handler ----

  /** Driving the outputs changes nothing but their levels. */
  predicate SamePins(a: seq<Driver>, b: seq<Driver>) {
    |a| == |b| && forall i :: 0 <= i < |a| ==> b[i] == a[i].(out := b[i].out)
  }

  class Handler {
    const config: Config
    var direction: Direction
    var flags: bv32
    var outputDrivers: array<Driver>

    ghost predicate Valid()
      reads this, outputDrivers
    {
      ValidConfig(config) && ValidDrivers(outputDrivers[..])
    }

    /** Every output is what recomputing it from scratch would make it. */
    ghost predicate OutputsCurrent()
      requires Valid()
      reads this, outputDrivers
    {
      forall i :: 0 <= i < outputDrivers.Length ==>
        var d := outputDrivers[i];
        d == Driven(d, Wanted(config, direction, flags, d.pin))
    }

    constructor (config: Config, drivers: array<Driver>)
      requires ValidConfig(config) && ValidDrivers(drivers[..])
      requires forall i :: 0 <= i < drivers.Length ==> drivers[i].out == 0
      ensures Valid() && OutputsCurrent()
      ensures this.config == config && direction == Forward && flags == 0 && outputDrivers == drivers
    {
      this.config := config;
      direction := Forward;
      flags := 0;
      outputDrivers := drivers;
      new;
      NothingWanted();
    }

    method UpdateOutputs()
      requires Valid()
      modifies outputDrivers
      ensures Valid() && OutputsCurrent()
      ensures SamePins(old(outputDrivers[..]), outputDrivers[..])
    {
      var map32 := MapOf(config, direction);
      var outputMask: bv32 := 0;
      for funcIdx := 0 to FUNCTIONS
        invariant outputMask == OutputMask(map32, flags, funcIdx)
      {
        if Has(flags, funcIdx) {
          outputMask := outputMask | map32[funcIdx];
        }
      }
      ghost var was := outputDrivers[..];
      for i := 0 to outputDrivers.Length
        invariant forall k :: 0 <= k < i ==> outputDrivers[k] == Driven(was[k], Has(outputMask, was[k].pin))
        invariant forall k :: i <= k < outputDrivers.Length ==> outputDrivers[k] == was[k]
      {
        outputDrivers[i] := Driven(outputDrivers[i], Has(outputMask, outputDrivers[i].pin));
      }
      forall i | 0 <= i < outputDrivers.Length
        ensures Has(outputMask, was[i].pin) <==> Wanted(config, direction, flags, was[i].pin)
      {
        MaskIsWanted(config, direction, flags, was[i].pin);
      }
    }

    method Handle(g: FunctionGroup)
      requires Valid() && OutputsCurrent()
      modifies this`flags, outputDrivers
      ensures outputDrivers == old(outputDrivers) && direction == old(direction)
      ensures Valid() && OutputsCurrent()
      ensures flags == UnionWithMask(g, old(flags))
      ensures SamePins(old(outputDrivers[..]), outputDrivers[..])
    {
      var before := flags;
      flags := UnionWithMask(g, flags);
      if flags != before {
        UpdateOutputs();
      }
    }

    method SetDirection(d: Direction)
      requires Valid() && OutputsCurrent()
      modifies this`direction, outputDrivers
      ensures outputDrivers == old(outputDrivers) && flags == old(flags)
      ensures Valid() && OutputsCurrent()
      ensures direction == d
      ensures SamePins(old(outputDrivers[..]), outputDrivers[..])
    {
      if direction != d {
        direction := d;
        UpdateOutputs();
      }
    }
  }

  // ---- which instruction counts ----

  /** The masks of the six groups. */
  function GroupMask(i: nat): bv32
    requires i < 6
  {
    if i == 0 then FG_1
    else if i == 1 then FG_2_1
    else if i == 2 then FG_2_0
    else if i == 3 then FG_FEATURE_13_20
    else if i == 4 then FG_FEATURE_21_28
    else FG_FEATURE_29_31
  }

  lemma Cover(m: bv32)
    requires m != 0
    ensures Meets(FG_1, m) || Meets(FG_2_1, m) || Meets(FG_2_0, m)
         || Meets(FG_FEATURE_13_20, m) || Meets(FG_FEATURE_21_28, m) || Meets(FG_FEATURE_29_31, m)
  {}

  lemma Disjoint(m: bv32, i: nat, j: nat)
    requires IsSingleBit(m) && i < j < 6
    ensures !(Meets(GroupMask(i), m) && Meets(GroupMask(j), m))
  {}

  /** Each of the 32 functions is in exactly one group. */
  lemma GroupsPartition(n: nat)
    requires n < 32
    ensures exists i: nat :: i < 6 && Has(GroupMask(i), n)
    ensures forall i: nat, j: nat :: i < j < 6 ==> !(Has(GroupMask(i), n) && Has(GroupMask(j), n))
  {
    SingleBit(n);
    hide Mask;
    Cover(Mask(n));
    assert Has(GroupMask(0), n) || Has(GroupMask(1), n) || Has(GroupMask(2), n)
        || Has(GroupMask(3), n) || Has(GroupMask(4), n) || Has(GroupMask(5), n);
    forall i: nat, j: nat | i < j < 6 ensures !(Has(GroupMask(i), n) && Has(GroupMask(j), n)) {
      Disjoint(Mask(n), i, j);
    }
  }

  /** What the packet handler reports, as far as the functions are concerned. */
  datatype Event = Instruct(g: FunctionGroup) | Velocity(v: VelocitySetpoint) | Other

  datatype State = State(direction: Direction, flags: bv32)

  /** What the handler's state should be: every velocity sets the direction. */
  function Run(es: seq<Event>): State {
    if es == [] then State(Forward, 0)
    else
      var s := Run(es[..|es| - 1]);
      match es[|es| - 1]
      case Instruct(g) => s.(flags := UnionWithMask(g, s.flags))
      case Velocity(v) => s.(direction := v.direction)
      case Other => s
  }

  /** The value function n was given by the last instruction about it. */
  predicate LastValue(es: seq<Event>, n: nat)
    requires n < 32
  {
    es != [] &&
    match es[|es| - 1]
    case Instruct(g) => if Has(g.groupMask, n) then Has(g.flags, n) else LastValue(es[..|es| - 1], n)
    case _ => LastValue(es[..|es| - 1], n)
  }

  /** Groups as FunctionGroup::new makes them: no flag outside the mask. */
  predicate Masked(g: FunctionGroup) {
    g == NewGroup(g.groupMask, g.flags)
  }

  lemma AndBits(f: bv32, mask: bv32, m: bv32)
    requires f == f & mask
    ensures Meets(f, m) ==> Meets(mask, m)
  {}

  lemma MaskedBits(g: FunctionGroup, n: nat)
    requires n < 32 && Masked(g)
    ensures Has(g.flags, n) ==> Has(g.groupMask, n)
  {
    hide Mask, Meets;
    AndBits(g.flags, g.groupMask, Mask(n));
  }

  /** After any sequence of packets, a function has the value of the last
      instruction whose group contains it. */
  lemma {:induction false} LastInstructionCounts(es: seq<Event>, n: nat)
    requires n < 32 && (forall e :: e in es && e.Instruct? ==> Masked(e.g))
    ensures Has(Run(es).flags, n) <==> LastValue(es, n)
  {
    if es == [] {
      NothingWanted();
    } else {
      LastInstructionCounts(es[..|es| - 1], n);
      if es[|es| - 1].Instruct? {
        assert es[|es| - 1] in es;
        HasUnion(es[|es| - 1].g, Run(es[..|es| - 1]).flags, n);
        MaskedBits(es[|es| - 1].g, n);
      }
      hide Has, UnionWithMask;
    }
  }

  /** The direction of the last velocity; at first it is forward. */
  predicate LastForward(es: seq<Event>) {
    if es == [] then true
    else match es[|es| - 1]
      case Velocity(v) => v.direction == Forward
      case _ => LastForward(es[..|es| - 1])
  }

  lemma {:induction false} DirectionIsLast(es: seq<Event>)
    ensures Run(es).direction == if LastForward(es) then Forward else Reverse
  {
    if es != [] {
      DirectionIsLast(es[..|es| - 1]);
      hide UnionWithMask;
    }
  }

  /** A pin is wanted when a function whose last instruction switched it on is mapped to it in the
      direction last set. */
  ghost predicate WantedAfter(c: Config, es: seq<Event>, pin: nat)
    requires ValidConfig(c) && pin < 32
  {
    exists n: nat ::
      n < FUNCTIONS && LastValue(es, n) && Has(if LastForward(es) then c.forward[n] else c.reverse[n], pin)
  }

  lemma WantedIsWantedAfter(c: Config, es: seq<Event>, pin: nat)
    requires ValidConfig(c) && pin < 32 && (forall e :: e in es && e.Instruct? ==> Masked(e.g))
    ensures Wanted(c, Run(es).direction, Run(es).flags, pin) <==> WantedAfter(c, es, pin)
  {
    hide Has, LastValue, Run;
    DirectionIsLast(es);
    forall n: nat | n < FUNCTIONS ensures Has(Run(es).flags, n) <==> LastValue(es, n) {
      LastInstructionCounts(es, n);
    }
  }

  /** The loop that feeds the handler. After any sequence of packets every output is on exactly when
      a function last switched on wants its pin in the direction of the last velocity, although a
      repeated velocity is dropped and the outputs are only updated on changes. */
  method Serve(h: Handler, es: seq<Event>)
    requires h.Valid() && h.OutputsCurrent() && h.direction == Forward && h.flags == 0
    requires forall e :: e in es && e.Instruct? ==> Masked(e.g)
    modifies h, h.outputDrivers
    ensures h.Valid() && SamePins(old(h.outputDrivers[..]), h.outputDrivers[..])
    ensures forall i :: 0 <= i < h.outputDrivers.Length ==>
      var d := h.outputDrivers[i];
      d.out == if WantedAfter(h.config, es, d.pin) then (if d.isPwm then d.pwmLevel else 1) else 0
  {
    ghost var drivers := h.outputDrivers;
    ghost var was := drivers[..];
    var lastCommand: Option<Event> := None;
    for i := 0 to |es|
      invariant lastCommand == if i == 0 then None else Some(es[i - 1])
      invariant h.outputDrivers == drivers && h.Valid() && h.OutputsCurrent() && SamePins(was, drivers[..])
      invariant State(h.direction, h.flags) == Run(es[..i])
    {
      assert es[..i + 1][..i] == es[..i];
      match es[i] {
        case Instruct(g) => h.Handle(g);
        case Velocity(v) =>
          if lastCommand != Some(es[i]) {
            h.SetDirection(v.direction);
          }
        case Other =>
      }
      lastCommand := Some(es[i]);
    }
    assert es[..|es|] == es;
    forall i | 0 <= i < drivers.Length
      ensures drivers[i] == Driven(drivers[i], WantedAfter(h.config, es, drivers[i].pin))
    {
      WantedIsWantedAfter(h.config, es, drivers[i].pin);
    }
  }
}
