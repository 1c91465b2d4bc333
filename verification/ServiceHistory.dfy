/** What the service mode of the packet handler guarantees over whole runs. */
module ServiceHistory {
  import opened Wire
  import PacketCodec
  import opened FlashStore
  import opened ServiceMode
  import opened ServiceInstructions
  import Firmwares

  /** A packet, when it arrives, and how the flash behaves while it is handled. */
  datatype Event = Event(packet: Packet, now: nat, io: seq<Outcome>)

  /** Packets as the codec delivers them, in the order of time. */
  predicate WellTimed(es: seq<Event>) {
    && (forall i :: 0 <= i < |es| ==> 2 <= |es[i].packet| <= 5)
    && (forall i, j :: 0 <= i <= j < |es| ==> es[i].now <= es[j].now)
  }

  function Run(defaults: seq<byte>, s: Store, es: seq<Event>): (h: State)
    requires Valid(s) && WellTimed(es)
    ensures Valid(h.store)
  {
    if es == [] then State(None, None, s)
    else
      var e := es[|es| - 1];
      After(defaults, Run(defaults, s, es[..|es| - 1]), e.packet, e.now, e.io).0
  }

  function RouteAt(defaults: seq<byte>, s: Store, es: seq<Event>, i: nat): Route
    requires Valid(s) && WellTimed(es) && i < |es|
  {
    RouteOf(Run(defaults, s, es[..i]), es[i].packet, es[i].now)
  }

  /** What one call does to the three parts of the state, route by route. */
  lemma AfterByRoute(defaults: seq<byte>, h: State, e: Event)
    requires Valid(h.store) && 2 <= |e.packet|
    ensures var h' := After(defaults, h, e.packet, e.now, e.io).0;
      match RouteOf(h, e.packet, e.now)
      case ToReset => h' == h.(mark := Some(e.now))
      case ToService => h' == (if h.pending == Some(e.packet)
                               then State(Some(e.now), None, Execute(defaults, h.store, e.packet, e.io).0)
                               else State(Some(e.now), Some(e.packet), h.store))
      case ToCommand => h' == h.(mark := None)
      case ToNobody => h' == h
  {}

  // ---- two equal packets ----

  /** The packets routed to service mode. */
  function Routed(defaults: seq<byte>, s: Store, es: seq<Event>): seq<Packet>
    requires Valid(s) && WellTimed(es)
  {
    if es == [] then []
    else
      var i := |es| - 1;
      Routed(defaults, s, es[..i]) + if RouteAt(defaults, s, es, i).ToService? then [es[i].packet] else []
  }

  /** What is latched after a sequence of routed packets. */
  function Latched(rs: seq<Packet>): Option<Packet> {
    if rs == [] then None
    else if Latched(rs[..|rs| - 1]) == Some(rs[|rs| - 1]) then None
    else Some(rs[|rs| - 1])
  }

  /** How many routed packets execute. */
  function Executions(rs: seq<Packet>): nat {
    if rs == [] then 0
    else Executions(rs[..|rs| - 1]) + if Latched(rs[..|rs| - 1]) == Some(rs[|rs| - 1]) then 1 else 0
  }

  lemma PacketAdded(rs: seq<Packet>, p: Packet)
    ensures Latched(rs + [p]) == if Latched(rs) == Some(p) then None else Some(p)
    ensures Executions(rs + [p]) == Executions(rs) + if Latched(rs) == Some(p) then 1 else 0
  {
    assert (rs + [p])[..|rs|] == rs;
  }

  lemma RoutedOneMore(defaults: seq<byte>, s: Store, es: seq<Event>)
    requires Valid(s) && WellTimed(es) && es != []
    ensures var i := |es| - 1;
      Routed(defaults, s, es) == Routed(defaults, s, es[..i]) +
        if RouteAt(defaults, s, es, i).ToService? then [es[i].packet] else []
  {
    hide RouteAt;
  }

  lemma {:induction false} PendingIsLatched(defaults: seq<byte>, s: Store, es: seq<Event>)
    requires Valid(s) && WellTimed(es)
    ensures Run(defaults, s, es).pending == Latched(Routed(defaults, s, es))
  {
    hide After, RouteOf, Execute;
    if es != [] {
      var i := |es| - 1;
      var rs := Routed(defaults, s, es[..i]);
      PendingIsLatched(defaults, s, es[..i]);
      AfterByRoute(defaults, Run(defaults, s, es[..i]), es[i]);
      RoutedOneMore(defaults, s, es);
      PacketAdded(rs, es[i].packet);
      assert rs + [] == rs;
      hide Routed, Latched;
    }
  }

  lemma LatchedIsLast(rs: seq<Packet>)
    ensures Latched(rs).Some? ==> rs != [] && Latched(rs).value == rs[|rs| - 1]
  {}

  /** The last packet changes the store only if it is routed to service mode, equals the packet
      routed there immediately before, and completes a pair with it. */
  lemma StoreChangesOnlyOnRepetition(defaults: seq<byte>, s: Store, es: seq<Event>)
    requires Valid(s) && WellTimed(es) && es != []
    ensures var i, init := |es| - 1, es[..|es| - 1];
      Run(defaults, s, es).store != Run(defaults, s, init).store ==>
        var rs := Routed(defaults, s, init);
        && RouteAt(defaults, s, es, i).ToService?
        && rs != [] && rs[|rs| - 1] == es[i].packet
        && Executions(Routed(defaults, s, es)) == Executions(rs) + 1
  {
    hide After, RouteOf, Execute;
    var i, init := |es| - 1, es[..|es| - 1];
    var rs := Routed(defaults, s, init);
    PendingIsLatched(defaults, s, init);
    LatchedIsLast(rs);
    AfterByRoute(defaults, Run(defaults, s, init), es[i]);
    assert (rs + [es[i].packet])[..|rs|] == rs;
  }

  /** Whether event i of a run executes. */
  predicate ExecutesAt(defaults: seq<byte>, s: Store, es: seq<Event>, i: nat)
    requires Valid(s) && WellTimed(es) && i < |es|
  {
    RouteAt(defaults, s, es, i).ToService? && Run(defaults, s, es[..i]).pending == Some(es[i].packet)
  }

  function ExecutedIn(defaults: seq<byte>, s: Store, es: seq<Event>): nat
    requires Valid(s) && WellTimed(es)
  {
    if es == [] then 0
    else ExecutedIn(defaults, s, es[..|es| - 1]) + if ExecutesAt(defaults, s, es, |es| - 1) then 1 else 0
  }

  /** How many instructions a run executes depends only on the packets routed to service mode. */
  lemma {:induction false} RunExecutesPairs(defaults: seq<byte>, s: Store, es: seq<Event>)
    requires Valid(s) && WellTimed(es)
    ensures ExecutedIn(defaults, s, es) == Executions(Routed(defaults, s, es))
  {
    if es != [] {
      var i := |es| - 1;
      var rs := Routed(defaults, s, es[..i]);
      RunExecutesPairs(defaults, s, es[..i]);
      PendingIsLatched(defaults, s, es[..i]);
      assert (rs + [es[i].packet])[..|rs|] == rs && rs + [] == rs;
      hide RouteOf, Run;
    }
  }

  function Repeat(p: Packet, k: nat): (r: seq<Packet>)
    ensures |r| == k && forall i :: 0 <= i < k ==> r[i] == p
  {
    seq(k, _ => p)
  }

  /** A run of k equal packets executes k / 2 times, wherever it starts. */
  lemma {:induction false} HalfOfARunExecutes(rs: seq<Packet>, p: Packet, k: nat)
    requires rs == [] || rs[|rs| - 1] != p
    ensures Executions(rs + Repeat(p, k)) == Executions(rs) + k / 2
    ensures k > 0 ==> Latched(rs + Repeat(p, k)) == if k % 2 == 1 then Some(p) else None
    decreases k
  {
    if k == 0 {
      assert rs + Repeat(p, 0) == rs;
    } else {
      var init := rs + Repeat(p, k - 1);
      HalfOfARunExecutes(rs, p, k - 1);
      LatchedIsLast(rs);
      PacketAdded(init, p);
      assert rs + Repeat(p, k) == init + [p];
      hide Latched, Executions;
      if k == 1 {
        assert init == rs;
      }
    }
  }

  // ---- the way into service mode ----

  predicate Refreshing(r: Route) {
    r.ToReset? || r.ToService?
  }

  /** Between two events only packets for nobody here. */
  ghost predicate Quiet(defaults: seq<byte>, s: Store, es: seq<Event>, from: nat, to: nat)
    requires Valid(s) && WellTimed(es) && to <= |es|
  {
    forall k: nat :: from <= k < to ==> RouteAt(defaults, s, es, k).ToNobody?
  }

  ghost predicate Linked(defaults: seq<byte>, s: Store, es: seq<Event>, j: nat, i: nat)
    requires Valid(s) && WellTimed(es) && j < i < |es|
  {
    && Refreshing(RouteAt(defaults, s, es, j))
    && es[i].now - es[j].now < 20_000
    && Quiet(defaults, s, es, j + 1, i)
  }

  /** Event i is a reset or follows, within the time limit and with nothing but packets for others in
      between, an event that is linked to one. */
  ghost predicate LinkedToReset(defaults: seq<byte>, s: Store, es: seq<Event>, i: nat)
    requires Valid(s) && WellTimed(es) && i < |es|
  {
    || RouteAt(defaults, s, es, i).ToReset?
    || exists j: nat :: j < i && Linked(defaults, s, es, j, i) && LinkedToReset(defaults, s, es, j)
  }

  /** While the timer runs, it runs since an event that is linked to a reset. */
  ghost predicate TimerSince(defaults: seq<byte>, s: Store, es: seq<Event>, j: nat, n: nat)
    requires Valid(s) && WellTimed(es) && j < n <= |es|
  {
    && Run(defaults, s, es[..n]).mark == Some(es[j].now)
    && Refreshing(RouteAt(defaults, s, es, j))
    && LinkedToReset(defaults, s, es, j)
    && Quiet(defaults, s, es, j + 1, n)
  }

  lemma RunOfNone(defaults: seq<byte>, s: Store)
    requires Valid(s)
    ensures Run(defaults, s, []) == State(None, None, s)
  {}

  lemma RunStep(defaults: seq<byte>, s: Store, es: seq<Event>, n: nat)
    requires Valid(s) && WellTimed(es) && n < |es|
    ensures Run(defaults, s, es[..n + 1]) ==
            After(defaults, Run(defaults, s, es[..n]), es[n].packet, es[n].now, es[n].io).0
  {
    assert es[..n + 1][..n] == es[..n];
  }

  lemma TimerGoesOn(defaults: seq<byte>, s: Store, es: seq<Event>, j: nat, i: nat)
    requires Valid(s) && WellTimed(es) && j < i < |es| && TimerSince(defaults, s, es, j, i)
    requires RouteAt(defaults, s, es, i).ToNobody?
    requires Run(defaults, s, es[..i + 1]).mark == Run(defaults, s, es[..i]).mark
    ensures TimerSince(defaults, s, es, j, i + 1)
  {
    hide RouteAt, Run, LinkedToReset;
  }

  /** Every packet routed to service mode chains back to a reset through gaps under the time limit,
      with no command to this decoder on the way. */
  lemma {:induction false} ServiceIsLinked(defaults: seq<byte>, s: Store, es: seq<Event>, i: nat)
    requires Valid(s) && WellTimed(es) && i < |es|
    requires RouteAt(defaults, s, es, i).ToService?
    ensures LinkedToReset(defaults, s, es, i)
    decreases i, 1
  {
    TimerOrigin(defaults, s, es, i);
    var j: nat :| j < i && TimerSince(defaults, s, es, j, i);
    assert ElapsedMs(es[j].now, es[i].now) < SERVICE_MODE_TIMEOUT_MS;
    assert Linked(defaults, s, es, j, i);
  }

  lemma {:induction false} TimerOrigin(defaults: seq<byte>, s: Store, es: seq<Event>, n: nat)
    requires Valid(s) && WellTimed(es) && n <= |es|
    ensures Run(defaults, s, es[..n]).mark.Some? ==>
      exists j: nat :: j < n && TimerSince(defaults, s, es, j, n)
    decreases n, 0
  {
    hide After, RouteOf, Run, Linked;
    if n == 0 {
      assert Run(defaults, s, es[..0]).mark.None? by {
        RunOfNone(defaults, s);
      }
    } else if Run(defaults, s, es[..n]).mark.Some? {
      var i := n - 1;
      TimerOrigin(defaults, s, es, i);
      RunStep(defaults, s, es, i);
      AfterByRoute(defaults, Run(defaults, s, es[..i]), es[i]);
      var r := RouteAt(defaults, s, es, i);
      if r.ToService? {
        ServiceIsLinked(defaults, s, es, i);
      }
      if Refreshing(r) {
        assert LinkedToReset(defaults, s, es, i);
        hide LinkedToReset;
        assert TimerSince(defaults, s, es, i, n);
      } else {
        hide LinkedToReset;
        var j: nat :| j < i && TimerSince(defaults, s, es, j, i);
        TimerGoesOn(defaults, s, es, j, i);
      }
    }
  }

  lemma InTime(mark: nat, now: nat)
    requires mark <= now
    ensures ElapsedMs(mark, now) < SERVICE_MODE_TIMEOUT_MS <==> now - mark < 20_000
  {}

  /** Where every packet of a run goes. A reset is two zero bytes. Service mode takes the packets from 112
      to 127 that come less than 20 ms after the event since which the timer runs. Of the others this
      decoder takes those with the address its CVs give. */
  lemma RoutesExactly(defaults: seq<byte>, s: Store, es: seq<Event>, i: nat)
    requires Valid(s) && WellTimed(es) && i < |es|
    ensures var r, p, cvs := RouteAt(defaults, s, es, i), es[i].packet, Run(defaults, s, es[..i]).store.cache;
      && (r.ToReset? <==> p[0] == 0 && p[1] == 0)
      && (r.ToService? <==>
            && !(p[0] == 0 && p[1] == 0) && 112 <= p[0] <= 127
            && exists j: nat :: j < i && TimerSince(defaults, s, es, j, i) && es[i].now - es[j].now < 20_000)
      && (r.ToCommand? <==>
            && !r.ToReset? && !r.ToService?
            && PacketCodec.Addr(p) == Ok(PacketCodec.DecoderAddress(cvs[28], cvs[0], cvs[16], cvs[17])))
  {
    hide Run, PacketCodec.Addr, PacketCodec.DecoderAddress, LinkedToReset, ElapsedMs;
    TimerOrigin(defaults, s, es, i);
    forall j: nat | j < i
      ensures ElapsedMs(es[j].now, es[i].now) < SERVICE_MODE_TIMEOUT_MS <==> es[i].now - es[j].now < 20_000
    {
      InTime(es[j].now, es[i].now);
    }
  }

  // ---- what is answered ----

  /** A reset is reported, packets for others and the first of a pair are not answered, and the second
      is answered as it was executed. */
  lemma Answers(defaults: seq<byte>, h: State, e: Event)
    requires Valid(h.store) && 2 <= |e.packet|
    ensures var reply := After(defaults, h, e.packet, e.now, e.io).1;
      match RouteOf(h, e.packet, e.now)
      case ToReset => reply == Success(Some(Op.Reset))
      case ToNobody => reply == Success(None)
      case ToService =>
        reply == if h.pending == Some(e.packet) then Execute(defaults, h.store, e.packet, e.io).1 else Success(None)
      case ToCommand => true
  {}

  /** What a command is answered with, against the C firmware's reading of it: its speed, its functions,
      or why it is refused. */
  lemma CommandAnswers(defaults: seq<byte>, h: State, e: Event)
    requires Valid(h.store) && 2 <= |e.packet| && Firmwares.ForVehicles(PacketCodec.Protected(e.packet))
    ensures Firmwares.CommandStart(e.packet) < |e.packet|
    ensures RouteOf(h, e.packet, e.now).ToCommand? ==>
      var p, k := e.packet, Firmwares.CommandStart(e.packet);
      var first, more := p[k], k + 1 < |p|;
      var second := if more then p[k + 1] else 0;
      match After(defaults, h, p, e.now, e.io).1
      case Success(Some(Velocity128(v))) => first == 0x3F && more && Firmwares.SameSpeed(Firmwares.Code(second), v)
      case Success(Some(SetFunctions(g))) =>
        (128 <= first < 192 || (Firmwares.IsWide(first) && more)) && Firmwares.SameEffect(g, first, second)
      case Failed(PacketProblem(Undersize)) => (first == 0x3F || 192 <= first < 224) && !more
      case Failed(PacketProblem(InvalidInstruction)) =>
        && first != 0x3F && !(128 <= first < 192)
        && (192 <= first < 224 ==> more && !Firmwares.IsWide(first))
      case _ => false
  {
    hide RouteOf, PacketCodec.Parse, PacketCodec.Protected, Firmwares.ForVehicles, Firmwares.CommandStart,
      Firmwares.SameSpeed, Firmwares.SameEffect, Firmwares.IsWide, Firmwares.Code;
    Firmwares.ParseExactly(e.packet);
  }

  /** Without an execution in between the store stays as it is. */
  lemma {:induction false} StoreKept(defaults: seq<byte>, s: Store, es: seq<Event>, m: nat, n: nat)
    requires Valid(s) && WellTimed(es) && m <= n <= |es|
    requires forall i: nat :: m <= i < n ==> !ExecutesAt(defaults, s, es, i)
    ensures Run(defaults, s, es[..n]).store == Run(defaults, s, es[..m]).store
    decreases n
  {
    hide After, RouteOf, Run, Execute;
    if m < n {
      StoreKept(defaults, s, es, m, n - 1);
      assert !ExecutesAt(defaults, s, es, n - 1);
      RunStep(defaults, s, es, n - 1);
      AfterByRoute(defaults, Run(defaults, s, es[..n - 1]), es[n - 1]);
    }
  }

  /** The answer to event i of a run. */
  function AnswerAt(defaults: seq<byte>, s: Store, es: seq<Event>, i: nat): Reply
    requires Valid(s) && WellTimed(es) && i < |es|
  {
    After(defaults, Run(defaults, s, es[..i]), es[i].packet, es[i].now, es[i].io).1
  }

  /** Reading a CV by trial: after a byte write that was executed and accepted, and with no instruction
      executed between, a verification of that CV is acknowledged exactly for the byte written. */
  lemma WrittenIsVerifiedExactly(defaults: seq<byte>, s: Store, es: seq<Event>, i: nat, j: nat)
    requires Valid(s) && WellTimed(es) && i < j < |es| && |defaults| == CV_SIZE
    requires var p, q := es[i].packet, es[j].packet;
      && 3 <= |p| && 124 <= p[0] <= 127 && 3 <= |q| && 116 <= q[0] < 120 && CvAddress(q) == CvAddress(p)
    requires ExecutesAt(defaults, s, es, i) && ExecutesAt(defaults, s, es, j) && es[i].io == []
    requires forall k: nat :: i < k < j ==> !ExecutesAt(defaults, s, es, k)
    requires AnswerAt(defaults, s, es, i) == ACKNOWLEDGE
    ensures AnswerAt(defaults, s, es, j) == ACKNOWLEDGE <==> es[j].packet[2] == es[i].packet[2]
  {
    hide After, RouteOf, Run, Execute, CvAddress, MayHold;
    var h := Run(defaults, s, es[..i]);
    RunStep(defaults, s, es, i);
    AfterByRoute(defaults, h, es[i]);
    Answers(defaults, h, es[i]);
    Answers(defaults, Run(defaults, s, es[..j]), es[j]);
    StoreKept(defaults, s, es, i + 1, j);
    ByteWriteExactly(defaults, h.store, es[i].packet);
    ByteVerificationExactly(defaults, Run(defaults, s, es[..j]).store, es[j].packet, es[j].io);
  }

  // ---- what the latch outlives ----

  const RESET_PACKET: Packet := [0x00, 0x00]

  /** No reset, command, packet for others or lapse of time changes the latch. */
  lemma {:induction false} LatchSurvives(defaults: seq<byte>, s: Store, es: seq<Event>, m: nat, n: nat)
    requires Valid(s) && WellTimed(es) && m <= n <= |es|
    requires forall i: nat :: m <= i < n ==> !RouteAt(defaults, s, es, i).ToService?
    ensures Run(defaults, s, es[..n]).pending == Run(defaults, s, es[..m]).pending
    decreases n
  {
    hide After, RouteOf, Run, Execute;
    if m < n {
      LatchSurvives(defaults, s, es, m, n - 1);
      assert !RouteAt(defaults, s, es, n - 1).ToService?;
      RunStep(defaults, s, es, n - 1);
      AfterByRoute(defaults, Run(defaults, s, es[..n - 1]), es[n - 1]);
    }
  }

  /** So a service packet latched in one session executes on its first arrival in any later one. */
  lemma LatchedExecutesLater(defaults: seq<byte>, s: Store, es: seq<Event>, i: nat, j: nat)
    requires Valid(s) && WellTimed(es) && i < j < |es| && es[i].packet == es[j].packet
    requires Run(defaults, s, es[..i + 1]).pending == Some(es[i].packet)
    requires forall k: nat :: i < k < j ==> !RouteAt(defaults, s, es, k).ToService?
    ensures ExecutesAt(defaults, s, es, j) <==> RouteAt(defaults, s, es, j).ToService?
  {
    hide RouteAt, Run;
    LatchSurvives(defaults, s, es, i + 1, j);
  }

  /** Once in a session, and once in another that begins at the given time. */
  function TwoSessions(p: Packet, later: nat): (es: seq<Event>)
    requires 2 <= |p| <= 5 && 1000 <= later
    ensures WellTimed(es)
  {
    [Event(RESET_PACKET, 0, []), Event(p, 1000, []), Event(RESET_PACKET, later, []), Event(p, later + 1000, [])]
  }

  lemma TwoSessionsRoutes(defaults: seq<byte>, s: Store, p: Packet, later: nat)
    requires Valid(s) && 2 <= |p| <= 5 && 1000 <= later && ServiceModeCandidate(p)
    ensures Run(defaults, s, TwoSessions(p, later)[..3]) == State(Some(later), Some(p), s)
  {
    var es := TwoSessions(p, later);
    RunStep(defaults, s, es, 0);
    assert Run(defaults, s, es[..1]) == State(Some(0), None, s);
    hide Execute, Run;
    RunStep(defaults, s, es, 1);
    assert Run(defaults, s, es[..2]) == State(Some(0 + 1000), Some(p), s);
    RunStep(defaults, s, es, 2);
  }

  /** Whatever the instruction and however long ago the first session was, one packet in each is a
      pair: it executes. */
  lemma TwoSessionsExecute(defaults: seq<byte>, s: Store, p: Packet, later: nat)
    requires Valid(s) && 2 <= |p| <= 5 && 1000 <= later && ServiceModeCandidate(p)
    ensures Run(defaults, s, TwoSessions(p, later)).store == Execute(defaults, s, p, []).0
  {
    hide Execute, Run;
    var es := TwoSessions(p, later);
    TwoSessionsRoutes(defaults, s, p, later);
    RunStep(defaults, s, es, 3);
    assert es[..4] == es;
  }

  // ---- the address ----

  predicate AddressOk(s: Store)
    requires Valid(s)
  {
    && 1 <= Cv(s, PRIMARY_ADDRESS) <= 127
    && 192 <= Cv(s, EXTENDED_ADDRESS_MSB) <= 231
    && !(Cv(s, EXTENDED_ADDRESS_MSB) == 192 && Cv(s, EXTENDED_ADDRESS_LSB) == 0)
  }

  /** A bit write that would store a value the guards of a byte write refuse. */
  predicate Harmful(s: Store, p: Packet)
    requires Valid(s) && 2 <= |p|
  {
    && !IsLegacyReset(p) && InstructionCode(p) == 2 && 3 <= |p| && IsBitWrite(p[2])
    && !GuardAccepts(s, CvAddress(p), WithBit(Cv(s, CvAddress(p)), p[2]))
  }

  /** Writing one CV keeps the addresses in order exactly when the guard accepts the value. */
  lemma WriteKeepsAddressExactly(s: Store, cv: nat, value: byte, o: Outcome)
    requires Valid(s) && AddressOk(s) && 1 <= cv <= CV_SIZE
    ensures AddressOk(WriteCv(s, cv, value, o).0) <==> GuardAccepts(s, cv, value)
  {
    hide WriteCv;
    CvAfterWrite(s, cv, value, o, PRIMARY_ADDRESS);
    CvAfterWrite(s, cv, value, o, EXTENDED_ADDRESS_MSB);
    CvAfterWrite(s, cv, value, o, EXTENDED_ADDRESS_LSB);
  }

  lemma PrimaryWriteKeepsAddress(s: Store, value: byte, io: seq<Outcome>)
    requires Valid(s) && AddressOk(s) && 1 <= value <= 127
    ensures AddressOk(AfterPrimaryAddress(s, value, io).0)
  {
    hide AfterPrimaryAddress;
    PrimaryAddressWrites(s, value, io, PRIMARY_ADDRESS);
    PrimaryAddressWrites(s, value, io, EXTENDED_ADDRESS_MSB);
    PrimaryAddressWrites(s, value, io, EXTENDED_ADDRESS_LSB);
  }

  lemma ResetMakesAddress(defaults: seq<byte>, s: Store, io: seq<Outcome>)
    requires Valid(s) && ValidDefaults(defaults)
    ensures AddressOk(AfterFactoryReset(defaults, s, io).0)
  {
    hide AfterFactoryReset;
    FactoryResetWrites(defaults, s, io, PRIMARY_ADDRESS);
    FactoryResetWrites(defaults, s, io, EXTENDED_ADDRESS_MSB);
    FactoryResetWrites(defaults, s, io, EXTENDED_ADDRESS_LSB);
  }

  lemma ByteWriteKeepsAddress(defaults: seq<byte>, s: Store, p: Packet, io: seq<Outcome>)
    requires Valid(s) && AddressOk(s) && ValidDefaults(defaults) && 2 <= |p|
    ensures AddressOk(AfterWriteByte(defaults, s, p, io).0)
  {
    hide WriteCv, AddressOk, AfterFactoryReset, AfterPrimaryAddress, CvAddress;
    var cv := CvAddress(p);
    ResetMakesAddress(defaults, s, io);
    WriteKeepsAddressExactly(s, EMF_ADC_OFFSET, 0xFF, Nth(io, 0));
    if 3 <= |p| {
      WriteKeepsAddressExactly(s, cv, p[2], Nth(io, 0));
      if 1 <= p[2] <= 127 {
        PrimaryWriteKeepsAddress(s, p[2], io);
      }
    }
  }

  /** Executing an instruction keeps the addresses in order, whatever happens on the flash, exactly
      when it is not a bit write that a byte write would have refused. */
  lemma ExecuteKeepsAddressExactly(defaults: seq<byte>, s: Store, p: Packet, io: seq<Outcome>)
    requires Valid(s) && AddressOk(s) && ValidDefaults(defaults) && 2 <= |p|
    ensures AddressOk(Execute(defaults, s, p, io).0) <==> !Harmful(s, p)
  {
    ResetMakesAddress(defaults, s, io);
    ByteWriteKeepsAddress(defaults, s, p, io);
    if 3 <= |p| {
      WriteKeepsAddressExactly(s, CvAddress(p), WithBit(Cv(s, CvAddress(p)), p[2]), Nth(io, 0));
    }
    hide WriteCv, AddressOk, AfterFactoryReset, AfterWriteByte, CvAddress, WithBit, IsBitWrite,
      InstructionCode, GuardAccepts;
  }

  predicate AddressAlwaysOk(defaults: seq<byte>, s: Store, es: seq<Event>)
    requires Valid(s) && WellTimed(es)
  {
    AddressOk(Run(defaults, s, es).store) && (es != [] ==> AddressAlwaysOk(defaults, s, es[..|es| - 1]))
  }

  predicate NeverHarmful(defaults: seq<byte>, s: Store, es: seq<Event>)
    requires Valid(s) && WellTimed(es)
  {
    es != [] ==>
      var i := |es| - 1;
      && NeverHarmful(defaults, s, es[..i])
      && !(ExecutesAt(defaults, s, es, i) && Harmful(Run(defaults, s, es[..i]).store, es[i].packet))
  }

  /** On every run the addresses are always in order exactly when no harmful bit write executes. */
  lemma {:induction false} AddressInvariantExactly(defaults: seq<byte>, s: Store, es: seq<Event>)
    requires Valid(s) && AddressOk(s) && ValidDefaults(defaults) && WellTimed(es)
    ensures AddressAlwaysOk(defaults, s, es) <==> NeverHarmful(defaults, s, es)
  {
    if es != [] {
      var i := |es| - 1;
      var h := Run(defaults, s, es[..i]);
      AddressInvariantExactly(defaults, s, es[..i]);
      AfterByRoute(defaults, h, es[i]);
      if NeverHarmful(defaults, s, es[..i]) {
        ExecuteKeepsAddressExactly(defaults, h.store, es[i].packet, es[i].io);
      }
      hide After, RouteOf, Execute, Harmful, AddressOk;
    }
  }

  // ---- how a bit write can break it ----

  /** CV1 := 1 as a byte write, and bit 0 of CV1 := 0 as a bit write. */
  const ADDRESS_ONE: Packet := [0x7C, 0x00, 0x01]
  const CLEAR_BIT_ZERO: Packet := [0x78, 0x00, 0xF0]

  /** A reset and two pairs of service packets a millisecond apart. */
  function AddressZeroRun(): (es: seq<Event>)
    ensures WellTimed(es)
  {
    [Event(RESET_PACKET, 0, []), Event(ADDRESS_ONE, 1000, []), Event(ADDRESS_ONE, 2000, []),
     Event(CLEAR_BIT_ZERO, 3000, []), Event(CLEAR_BIT_ZERO, 4000, [])]
  }

  lemma ByteFields()
    ensures CvAddress(ADDRESS_ONE) == 1 && CvAddress(CLEAR_BIT_ZERO) == 1
    ensures InstructionCode(ADDRESS_ONE) == 3 && InstructionCode(CLEAR_BIT_ZERO) == 2
    ensures IsBitWrite(0xF0) && WithBit(0x01, 0xF0) == 0
  {
    assert (0x7C as byte) & 3 == 0 && (0x78 as byte) & 3 == 0;
  }

  lemma PrimaryAddressIsStored(s: Store)
    requires Valid(s)
    ensures var s' := AfterPrimaryAddress(s, 1, []).0;
      Cv(s', PRIMARY_ADDRESS) == 1 && Cv(s', DECODER_CONFIGURATION) & 0x20 == 0
  {
    var s1 := WriteCv(s, PRIMARY_ADDRESS, 1, Outcome.Done).0;
    var configuration := BasicAddressing(Cv(s1, DECODER_CONFIGURATION));
    var s2 := WriteCv(s1, DECODER_CONFIGURATION, configuration, Outcome.Done).0;
    CvAfterWrite(s, PRIMARY_ADDRESS, 1, Outcome.Done, PRIMARY_ADDRESS);
    CvAfterWrite(s1, DECODER_CONFIGURATION, configuration, Outcome.Done, PRIMARY_ADDRESS);
    CvAfterWrite(s1, DECODER_CONFIGURATION, configuration, Outcome.Done, DECODER_CONFIGURATION);
    CvAfterWrite(s2, CONSIST_ADDRESS, 0, Outcome.Done, PRIMARY_ADDRESS);
    CvAfterWrite(s2, CONSIST_ADDRESS, 0, Outcome.Done, DECODER_CONFIGURATION);
    WriteAgreesExactly(s, PRIMARY_ADDRESS, [1], false, Outcome.Done);
    WriteAgreesExactly(s1, DECODER_CONFIGURATION, [configuration], false, Outcome.Done);
  }

  /** A pair of equal service packets within the time limit executes once. */
  lemma PairExecutes(defaults: seq<byte>, h: State, p: Packet, t: nat)
    requires Valid(h.store) && 2 <= |p| && ServiceModeCandidate(p)
    requires h.mark == Some(t) && h.pending != Some(p)
    ensures var h1 := After(defaults, h, p, t + 1000, []).0;
      After(defaults, h1, p, t + 2000, []).0 == State(Some(t + 2000), None, Execute(defaults, h.store, p, []).0)
  {
    hide Execute;
  }

  lemma AfterFirstReset(defaults: seq<byte>, s: Store)
    requires Valid(s)
    ensures Run(defaults, s, AddressZeroRun()[..1]) == State(Some(0), None, s)
  {
    hide Execute;
    RunStep(defaults, s, AddressZeroRun(), 0);
  }

  lemma SettingAddressOne(defaults: seq<byte>, s: Store)
    requires Valid(s)
    ensures Execute(defaults, s, ADDRESS_ONE, []).0 == AfterPrimaryAddress(s, 1, []).0
  {
    hide CvAddress, InstructionCode, AfterPrimaryAddress;
    ByteFields();
  }

  lemma PrefixIsWellTimed(es: seq<Event>, n: nat)
    requires WellTimed(es) && n <= |es|
    ensures WellTimed(es[..n])
  {}

  lemma FirstPair(defaults: seq<byte>, s: Store)
    requires Valid(s)
    ensures Run(defaults, s, AddressZeroRun()[..3]) == State(Some(2000), None, AfterPrimaryAddress(s, 1, []).0)
  {
    var es := AddressZeroRun();
    AfterFirstReset(defaults, s);
    hide After, Run, Execute, AfterPrimaryAddress, ServiceModeCandidate, WellTimed;
    assert ServiceModeCandidate(ADDRESS_ONE);
    assert es[1] == Event(ADDRESS_ONE, 1000, []) && es[2] == Event(ADDRESS_ONE, 2000, []);
    assert WellTimed(es[..1]) && WellTimed(es[..2]) && WellTimed(es[..3]) by {
      PrefixIsWellTimed(es, 1);
      PrefixIsWellTimed(es, 2);
      PrefixIsWellTimed(es, 3);
    }
    hide AddressZeroRun;
    RunStep(defaults, s, es, 1);
    RunStep(defaults, s, es, 2);
    PairExecutes(defaults, State(Some(0), None, s), ADDRESS_ONE, 0);
    SettingAddressOne(defaults, s);
  }

  lemma SecondPair(defaults: seq<byte>, s: Store)
    requires Valid(s)
    ensures Run(defaults, s, AddressZeroRun()).store ==
      Execute(defaults, AfterPrimaryAddress(s, 1, []).0, CLEAR_BIT_ZERO, []).0
  {
    hide After, Run, Execute, AfterPrimaryAddress;
    var es := AddressZeroRun();
    FirstPair(defaults, s);
    RunStep(defaults, s, es, 3);
    RunStep(defaults, s, es, 4);
    assert es[..5] == es;
    PairExecutes(defaults, State(Some(2000), None, AfterPrimaryAddress(s, 1, []).0), CLEAR_BIT_ZERO, 2000);
  }

  lemma ClearingBitZero(defaults: seq<byte>, s: Store)
    requires Valid(s) && Cv(s, PRIMARY_ADDRESS) == 1
    ensures Execute(defaults, s, CLEAR_BIT_ZERO, []).0 == WriteCv(s, PRIMARY_ADDRESS, 0, Outcome.Done).0
  {
    hide WriteCv, CvAddress, InstructionCode, WithBit, IsBitWrite;
    ByteFields();
  }
}
