/** The CV store over the life of the decoder: packets and restarts. */
module PowerCycles {
  import opened Wire
  import PacketCodec
  import opened FlashStore
  import opened ServiceMode
  import opened ServiceInstructions
  import opened ServiceHistory

  // ---- one start ----

  /** What ensure_populated does at start-up. */
  function AfterEnsurePopulated(defaults: seq<byte>, s: Store, o: Outcome): Store
    requires Valid(s)
  {
    if StoreAddr(s) == 0 then AfterWrite(s, 1, defaults, true, o).0 else s
  }

  lemma LongAddressNotZero(msb: byte, lsb: byte)
    requires 192 <= msb <= 231 && !(msb == 192 && lsb == 0)
    ensures PacketCodec.ReadExtendedAddress(msb, lsb) != 0
  {}

  /** With the addresses in order the decoder's address is not zero and a restart keeps the store. */
  lemma RestartKeepsStore(defaults: seq<byte>, s: Store, o: Outcome)
    requires Valid(s) && AddressOk(s)
    ensures StoreAddr(s) != 0 && AfterEnsurePopulated(defaults, s, o) == s
  {
    hide AfterWrite;
    LongAddressNotZero(Cv(s, EXTENDED_ADDRESS_MSB), Cv(s, EXTENDED_ADDRESS_LSB));
  }

  /** Which flash images a start leaves in order: those that were, and those whose address is zero,
      which make it write the defaults, whatever the flash does meanwhile. */
  lemma StartMakesOrderExactly(defaults: seq<byte>, s: Store, o: Outcome)
    requires Valid(s) && ValidDefaults(defaults)
    ensures AddressOk(AfterEnsurePopulated(defaults, s, o)) <==> StoreAddr(s) == 0 || AddressOk(s)
  {
    hide AfterWrite, StoreAddr;
    WriteEffect(s, 1, defaults, true, o);
    assert Patched(s.cache, 1, defaults) == defaults;
  }

  lemma ErasedAddress()
    ensures PacketCodec.DecoderAddress(0xFF, 0xFF, 0xFF, 0xFF) == 0x3FFF
  {}

  /** Erased flash is not such an image: it looks like the long address 16383, and stays as it is. */
  lemma ErasedFlashStays(defaults: seq<byte>, s: Store, o: Outcome)
    requires Valid(s) && (forall i :: 0 <= i < CV_SIZE ==> s.cache[i] == 0xFF)
    ensures StoreAddr(s) == 0x3FFF && AfterEnsurePopulated(defaults, s, o) == s && !AddressOk(s)
  {
    hide PacketCodec.DecoderAddress, AfterWrite;
    ErasedAddress();
  }

  // ---- packets and restarts ----

  /** A packet arrives, or the processor starts again; then the flash may have to take the defaults. */
  datatype Happening = Arrival(e: Event) | Restart(o: Outcome)

  predicate WellFormed(xs: seq<Happening>) {
    forall x :: x in xs && x.Arrival? ==> 2 <= |x.e.packet| <= 5
  }

  function Started(defaults: seq<byte>, flash: seq<byte>, start: nat, o: Outcome): (h: State)
    requires start + ERASE_SIZE <= |flash|
    ensures Valid(h.store)
  {
    State(None, None, AfterEnsurePopulated(defaults, Load(flash, start), o))
  }

  function Step(defaults: seq<byte>, h: State, x: Happening): (h': State)
    requires Valid(h.store) && (x.Arrival? ==> 2 <= |x.e.packet|)
    ensures Valid(h'.store)
  {
    match x
    case Arrival(e) => After(defaults, h, e.packet, e.now, e.io).0
    case Restart(o) => Started(defaults, h.store.flash, h.store.start, o)
  }

  /** From a first start with the given flash. */
  function Life(defaults: seq<byte>, flash: seq<byte>, start: nat, xs: seq<Happening>): (h: State)
    requires start + ERASE_SIZE <= |flash| && WellFormed(xs)
    ensures Valid(h.store)
  {
    if xs == [] then Started(defaults, flash, start, Outcome.Done)
    else Step(defaults, Life(defaults, flash, start, xs[..|xs| - 1]), xs[|xs| - 1])
  }

  predicate AllDone(io: seq<Outcome>) {
    forall o :: o in io ==> o.Done?
  }

  predicate WithoutError(x: Happening) {
    match x
    case Arrival(e) => AllDone(e.io)
    case Restart(o) => o.Done?
  }

  /** The flash never fails. */
  predicate NoErrors(xs: seq<Happening>) {
    forall x :: x in xs ==> WithoutError(x)
  }

  lemma InitHasNoErrors(xs: seq<Happening>)
    requires xs != [] && NoErrors(xs)
    ensures NoErrors(xs[..|xs| - 1])
  {
    hide WithoutError;
  }

  // ---- flash and cache ----

  lemma NthDone(io: seq<Outcome>, k: nat)
    requires AllDone(io)
    ensures Nth(io, k).Done?
  {}

  lemma WriteCvAgrees(s: Store, cv: nat, value: byte, io: seq<Outcome>, k: nat)
    requires Valid(s) && Agrees(s) && AllDone(io)
    ensures Agrees(WriteCv(s, cv, value, Nth(io, k)).0)
  {
    hide AfterWrite;
    NthDone(io, k);
    WriteKeepsAgreement(s, cv, [value], false);
  }

  lemma PrimaryAddressAgrees(s: Store, value: byte, io: seq<Outcome>)
    requires Valid(s) && Agrees(s) && AllDone(io)
    ensures Agrees(AfterPrimaryAddress(s, value, io).0)
  {
    hide WriteCv, BasicAddressing, Agrees, AllDone;
    WriteCvAgrees(s, PRIMARY_ADDRESS, value, io, 0);
    var s1 := WriteCv(s, PRIMARY_ADDRESS, value, Nth(io, 0)).0;
    var configuration := BasicAddressing(Cv(s1, DECODER_CONFIGURATION));
    WriteCvAgrees(s1, DECODER_CONFIGURATION, configuration, io, 1);
    WriteCvAgrees(WriteCv(s1, DECODER_CONFIGURATION, configuration, Nth(io, 1)).0, CONSIST_ADDRESS, 0, io, 2);
  }

  /** Without flash errors every service instruction leaves the flash equal to the cache. */
  lemma ExecuteAgrees(defaults: seq<byte>, s: Store, p: Packet, io: seq<Outcome>)
    requires Valid(s) && Agrees(s) && AllDone(io) && 2 <= |p|
    ensures Agrees(Execute(defaults, s, p, io).0)
  {
    hide CvAddress, InstructionCode, WithBit, IsBitWrite, WriteCv, AfterPrimaryAddress, AfterWrite,
      Agrees, AllDone, GuardAccepts, Cv;
    NthDone(io, 0);
    WriteKeepsAgreement(s, 1, defaults, true);
    WriteCvAgrees(s, EMF_ADC_OFFSET, 0xFF, io, 0);
    if 3 <= |p| {
      WriteCvAgrees(s, CvAddress(p), p[2], io, 0);
      WriteCvAgrees(s, CvAddress(p), WithBit(Cv(s, CvAddress(p)), p[2]), io, 0);
      PrimaryAddressAgrees(s, p[2], io);
    }
  }

  lemma StartAgrees(defaults: seq<byte>, flash: seq<byte>, start: nat)
    requires start + ERASE_SIZE <= |flash|
    ensures Agrees(Started(defaults, flash, start, Outcome.Done).store)
  {
    hide AfterWrite, StoreAddr;
    WriteKeepsAgreement(Load(flash, start), 1, defaults, true);
  }

  /** Over every life without flash errors, restarts included, the flash equals the cache. */
  lemma {:induction false} LifeAgrees(defaults: seq<byte>, flash: seq<byte>, start: nat, xs: seq<Happening>)
    requires start + ERASE_SIZE <= |flash| && WellFormed(xs) && NoErrors(xs)
    ensures Agrees(Life(defaults, flash, start, xs).store)
  {
    hide After, Started, Execute, RouteOf, Agrees;
    if xs == [] {
      StartAgrees(defaults, flash, start);
    } else {
      var init, x := xs[..|xs| - 1], xs[|xs| - 1];
      var h := Life(defaults, flash, start, init);
      InitHasNoErrors(xs);
      LifeAgrees(defaults, flash, start, init);
      assert x in xs;
      match x {
        case Arrival(e) =>
          AfterByRoute(defaults, h, e);
          ExecuteAgrees(defaults, h.store, e.packet, e.io);
        case Restart(o) =>
          StartAgrees(defaults, h.store.flash, h.store.start);
      }
    }
  }

  // ---- the address ----

  lemma LoadOfAgreement(s: Store)
    requires Valid(s) && Agrees(s)
    ensures Load(s.flash, s.start) == s
  {}

  /** Such a step executes a bit write that a byte write would have refused. */
  predicate HarmfulStep(h: State, x: Happening)
    requires Valid(h.store) && (x.Arrival? ==> 2 <= |x.e.packet|)
  {
    && x.Arrival? && RouteOf(h, x.e.packet, x.e.now).ToService?
    && h.pending == Some(x.e.packet) && Harmful(h.store, x.e.packet)
  }

  lemma StepKeepsAddressExactly(defaults: seq<byte>, h: State, x: Happening)
    requires Valid(h.store) && (x.Arrival? ==> 2 <= |x.e.packet|) && ValidDefaults(defaults)
    requires AddressOk(h.store) && Agrees(h.store)
    ensures AddressOk(Step(defaults, h, x).store) <==> !HarmfulStep(h, x)
    ensures x.Restart? ==> Step(defaults, h, x).store == h.store
  {
    hide After, AddressOk, Execute, RouteOf, Harmful, AfterEnsurePopulated;
    match x {
      case Arrival(e) =>
        AfterByRoute(defaults, h, e);
        ExecuteKeepsAddressExactly(defaults, h.store, e.packet, e.io);
      case Restart(o) =>
        LoadOfAgreement(h.store);
        RestartKeepsStore(defaults, h.store, o);
    }
  }

  predicate AlwaysInOrder(defaults: seq<byte>, flash: seq<byte>, start: nat, xs: seq<Happening>)
    requires start + ERASE_SIZE <= |flash| && WellFormed(xs)
  {
    && (xs != [] ==> AlwaysInOrder(defaults, flash, start, xs[..|xs| - 1]))
    && AddressOk(Life(defaults, flash, start, xs).store)
  }

  predicate HarmlessLife(defaults: seq<byte>, flash: seq<byte>, start: nat, xs: seq<Happening>)
    requires start + ERASE_SIZE <= |flash| && WellFormed(xs)
  {
    xs != [] ==>
      var init, x := xs[..|xs| - 1], xs[|xs| - 1];
      assert x in xs;
      HarmlessLife(defaults, flash, start, init) && !HarmfulStep(Life(defaults, flash, start, init), x)
  }

  /** Over every life without flash errors, restarts included, the addresses are always in order exactly
      when the first start left them so and no harmful bit write executes; and then no restart changes
      a CV. */
  lemma {:induction false} LifeInOrderExactly(defaults: seq<byte>, flash: seq<byte>, start: nat, xs: seq<Happening>)
    requires start + ERASE_SIZE <= |flash| && WellFormed(xs) && NoErrors(xs) && ValidDefaults(defaults)
    ensures AlwaysInOrder(defaults, flash, start, xs) <==>
      && (StoreAddr(Load(flash, start)) == 0 || AddressOk(Load(flash, start)))
      && HarmlessLife(defaults, flash, start, xs)
    ensures AlwaysInOrder(defaults, flash, start, xs) ==>
      var h := Life(defaults, flash, start, xs);
      forall o :: Step(defaults, h, Restart(o)).store == h.store
  {
    hide Step, Agrees, AddressOk, HarmfulStep, AfterEnsurePopulated, StoreAddr;
    var h := Life(defaults, flash, start, xs);
    LifeAgrees(defaults, flash, start, xs);
    if xs == [] {
      StartMakesOrderExactly(defaults, Load(flash, start), Outcome.Done);
    } else {
      var init, x := xs[..|xs| - 1], xs[|xs| - 1];
      InitHasNoErrors(xs);
      LifeInOrderExactly(defaults, flash, start, init);
      LifeAgrees(defaults, flash, start, init);
      assert x in xs;
      if AlwaysInOrder(defaults, flash, start, init) {
        StepKeepsAddressExactly(defaults, Life(defaults, flash, start, init), x);
      }
    }
    if AddressOk(h.store) {
      forall o ensures Step(defaults, h, Restart(o)).store == h.store {
        StepKeepsAddressExactly(defaults, h, Restart(o));
      }
    }
  }

  // ---- how a bit write can break it ----

  /** The guards of the byte writes can be got round: after this run, from any store whatever, the
      decoder's address is zero and the next start resets every CV. */
  lemma AddressCanBecomeZero(defaults: seq<byte>, s: Store, o: Outcome)
    requires Valid(s)
    ensures var s' := ServiceHistory.Run(defaults, s, AddressZeroRun()).store;
      StoreAddr(s') == 0 && AfterEnsurePopulated(defaults, s', o) == AfterWrite(s', 1, defaults, true, o).0
  {
    hide AfterWrite, WriteCv, AfterPrimaryAddress, Execute, ServiceHistory.Run;
    var s2 := AfterPrimaryAddress(s, 1, []).0;
    PrimaryAddressIsStored(s);
    SecondPair(defaults, s);
    ClearingBitZero(defaults, s2);
    CvAfterWrite(s2, PRIMARY_ADDRESS, 0, Outcome.Done, PRIMARY_ADDRESS);
    CvAfterWrite(s2, PRIMARY_ADDRESS, 0, Outcome.Done, DECODER_CONFIGURATION);
  }
}
