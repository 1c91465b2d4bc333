/** The packet handler of the Rust decoder (dcc/src/handler.rs) and its service mode
    (NMRA S-9.2.3), over the CV store. Times are in microseconds. */
module ServiceMode {
  import opened Wire
  import opened Velocity
  import PacketCodec
  import opened FlashStore

  const SERVICE_MODE_TIMEOUT_MS := 20

  const PRIMARY_ADDRESS := 1
  const MANUFACTURER_VERSION_NUMBER := 7
  const MANUFACTURER_ID := 8
  const EXTENDED_ADDRESS_MSB := 17
  const EXTENDED_ADDRESS_LSB := 18
  const CONSIST_ADDRESS := 19
  const DECODER_CONFIGURATION := 29
  const EMF_ADC_OFFSET := 172

  type Packet = seq<byte>

  datatype Op =
    | AcknowledgeCv
    | Reset
    | Velocity128(v: VelocitySetpoint)
    | SetFunctions(g: PacketCodec.FunctionGroup)
    | Reboot

  datatype HandlerError = PacketProblem(p: PacketCodec.Error) | StoreProblem(s: FlashStore.Error)

  datatype Reply = Success(op: Option<Op>) | Failed(error: HandlerError)

  const NOTHING := Success(None)
  const ACKNOWLEDGE := Success(Some(AcknowledgeCv))
  const INVALID := Failed(PacketProblem(PacketCodec.InvalidInstruction))
  const TOO_SHORT := Failed(PacketProblem(PacketCodec.Undersize))

  /** The CV defaults, of which only the address CVs and the configuration matter here. */
  predicate ValidDefaults(d: seq<byte>) {
    |d| == CV_SIZE && d[0] == 3 && d[16] == 0xC3 && d[17] == 0xE8 && d[28] == 0
  }

  // ---- the fields of a service packet ----

  /** The bits that select the instruction; 0 selects none. */
  function InstructionCode(p: Packet): byte
    requires 0 < |p|
  {
    (p[0] >> 2) & 3
  }

  /** The two address bits of the first byte. */
  function PageBits(first: byte): (page: byte)
    ensures page < 4
  {
    first & 3
  }

  function CvAddress(p: Packet): (a: nat)
    requires 2 <= |p|
    ensures 1 <= a <= CV_SIZE
  {
    256 * (PageBits(p[0]) as int) + p[1] as int + 1
  }

  lemma FieldsFromNumber(h: nat, l: nat, h': nat, l': nat)
    requires l < 256 && l' < 256 && 256 * h + l == 256 * h' + l'
    ensures h == h' && l == l'
  {}

  /** Different address bits mean different CVs. */
  lemma CvAddressesAreDistinct(p: Packet, q: Packet)
    requires 2 <= |p| && 2 <= |q| && CvAddress(p) == CvAddress(q)
    ensures PageBits(p[0]) == PageBits(q[0]) && p[1] == q[1]
  {
    hide PageBits;
    var h, l, h', l' := PageBits(p[0]) as int, p[1] as int, PageBits(q[0]) as int, q[1] as int;
    FieldsFromNumber(h, l, h', l');
    hide CvAddress;
    PacketCodec.SameValue(PageBits(p[0]), PageBits(q[0]));
    PacketCodec.SameValue(p[1], q[1]);
  }

  predicate IsLegacyReset(p: Packet) {
    p == [0x7F, 0x08]
  }

  function Cv(s: Store, cv: nat): byte
    requires Valid(s) && 1 <= cv <= CV_SIZE
  {
    s.cache[cv - 1]
  }

  /** How the writes of one call end on the flash, in order. */
  function Nth(io: seq<Outcome>, k: nat): Outcome {
    if k < |io| then io[k] else Outcome.Done
  }

  function WriteCv(s: Store, cv: nat, value: byte, o: Outcome): (r: (Store, Result<(), FlashStore.Error>))
    requires Valid(s)
    ensures Valid(r.0)
  {
    AfterWrite(s, cv, [value], false, o)
  }

  lemma CvAfterWrite(s: Store, cv: nat, value: byte, o: Outcome, c: nat)
    requires Valid(s) && 1 <= cv <= CV_SIZE && 1 <= c <= CV_SIZE
    ensures Cv(WriteCv(s, cv, value, o).0, c) == if c == cv then value else Cv(s, c)
  {
    hide AfterWrite;
    ReadAfterWrite(s, cv, [value], false, o, c);
  }

  function ReplyTo(r: Result<(), FlashStore.Error>, reply: Reply): Reply {
    match r
    case Ok(_) => reply
    case Err(e) => Failed(StoreProblem(e))
  }

  // ---- executing a service instruction ----

  /** CV31 and CV32 select pages this decoder does not have. */
  predicate IsIgnoredCv(cv: nat) {
    cv == 31 || cv == 32
  }

  /** The guards on the address CVs. */
  predicate GuardAccepts(s: Store, cv: nat, value: byte)
    requires Valid(s)
  {
    if cv == PRIMARY_ADDRESS then 1 <= value <= 127
    else if cv == EXTENDED_ADDRESS_MSB then
      192 <= value <= 231 && !(Cv(s, EXTENDED_ADDRESS_LSB) == 0 && value == 192)
    else if cv == EXTENDED_ADDRESS_LSB then !(Cv(s, EXTENDED_ADDRESS_MSB) == 192 && value == 0)
    else true
  }

  /** CV29 without its bit for extended addressing. */
  function BasicAddressing(configuration: byte): byte {
    configuration & !0x20
  }

  /** A new primary address also leaves extended addressing and any consist. */
  function AfterPrimaryAddress(s: Store, value: byte, io: seq<Outcome>): (r: (Store, Reply))
    requires Valid(s)
    ensures Valid(r.0)
  {
    var (s1, r1) := WriteCv(s, PRIMARY_ADDRESS, value, Nth(io, 0));
    if r1.Err? then (s1, Failed(StoreProblem(r1.error)))
    else
      var configuration := BasicAddressing(Cv(s1, DECODER_CONFIGURATION));
      var (s2, r2) := WriteCv(s1, DECODER_CONFIGURATION, configuration, Nth(io, 1));
      if r2.Err? then (s2, Failed(StoreProblem(r2.error)))
      else
        var (s3, r3) := WriteCv(s2, CONSIST_ADDRESS, 0, Nth(io, 2));
        (s3, ReplyTo(r3, ACKNOWLEDGE))
  }

  function AfterFactoryReset(defaults: seq<byte>, s: Store, io: seq<Outcome>): (r: (Store, Reply))
    requires Valid(s)
    ensures Valid(r.0)
  {
    var (s', r) := AfterWrite(s, 1, defaults, true, Nth(io, 0));
    (s', ReplyTo(r, Success(Some(Reboot))))
  }

  function AfterWriteByte(defaults: seq<byte>, s: Store, p: Packet, io: seq<Outcome>): (r: (Store, Reply))
    requires Valid(s) && 2 <= |p|
    ensures Valid(r.0)
  {
    var cv := CvAddress(p);
    if IsIgnoredCv(cv) then (s, NOTHING)
    else if |p| < 3 then (s, TOO_SHORT)
    else if cv == MANUFACTURER_ID then if p[2] == 8 then AfterFactoryReset(defaults, s, io) else (s, NOTHING)
    else if cv == MANUFACTURER_VERSION_NUMBER then
      if p[2] == 7 then
        var (s', r) := WriteCv(s, EMF_ADC_OFFSET, 0xFF, Nth(io, 0));
        (s', ReplyTo(r, Success(Some(Reboot))))
      else (s, Success(Some(Reboot)))
    else if !GuardAccepts(s, cv, p[2]) then (s, INVALID)
    else if cv == PRIMARY_ADDRESS then AfterPrimaryAddress(s, p[2], io)
    else
      var (s', r) := WriteCv(s, cv, p[2], Nth(io, 0));
      (s', ReplyTo(r, ACKNOWLEDGE))
  }

  function VerifyReply(s: Store, p: Packet): Reply
    requires Valid(s) && 2 <= |p|
  {
    if |p| < 3 then TOO_SHORT
    else if Cv(s, CvAddress(p)) == p[2] then ACKNOWLEDGE else NOTHING
  }

  // A bit instruction carries 111KDBBB: write or verify, the value, the position.

  predicate IsBitWrite(packed: byte) {
    0xE0 <= packed && packed & 0x10 != 0
  }

  function BitValue(packed: byte): byte {
    (packed & 0x08) >> 3
  }

  function BitPosition(packed: byte): byte {
    packed & 0x07
  }

  function WithBit(current: byte, packed: byte): byte {
    (current & !((1 as byte) << BitPosition(packed))) | (BitValue(packed) << BitPosition(packed))
  }

  function AfterManipulateBit(s: Store, p: Packet, io: seq<Outcome>): (r: (Store, Reply))
    requires Valid(s) && 2 <= |p|
    ensures Valid(r.0)
  {
    if |p| < 3 then (s, TOO_SHORT)
    else if p[2] < 0xE0 then (s, INVALID)
    else
      var cv := CvAddress(p);
      var current := Cv(s, cv);
      if IsBitWrite(p[2]) then
        var (s', r) := WriteCv(s, cv, WithBit(current, p[2]), Nth(io, 0));
        (s', ReplyTo(r, ACKNOWLEDGE))
      else
        (s, if (current >> BitPosition(p[2])) & 1 == BitValue(p[2]) then ACKNOWLEDGE else NOTHING)
  }

  function Execute(defaults: seq<byte>, s: Store, p: Packet, io: seq<Outcome>): (r: (Store, Reply))
    requires Valid(s) && 2 <= |p|
    ensures Valid(r.0)
  {
    if IsLegacyReset(p) then AfterFactoryReset(defaults, s, io)
    else
      var code := InstructionCode(p);
      if code == 2 then AfterManipulateBit(s, p, io)
      else if code == 1 then (s, VerifyReply(s, p))
      else if code == 3 then AfterWriteByte(defaults, s, p, io)
      else (s, INVALID)
  }

  // ---- routing packets ----

  datatype State = State(mark: Option<nat>, pending: Option<Packet>, store: Store)

  datatype Route = ToReset | ToService | ToCommand | ToNobody

  predicate IsReset(p: Packet) {
    2 <= |p| && p[0] == 0 && p[1] == 0
  }

  predicate ServiceModeCandidate(p: Packet)
    requires 0 < |p|
  {
    112 <= p[0] <= 127
  }

  function ElapsedMs(mark: nat, now: nat): int {
    (now - mark) / 1000
  }

  function StoreAddr(s: Store): bv16
    requires Valid(s)
  {
    PacketCodec.DecoderAddress(Cv(s, DECODER_CONFIGURATION), Cv(s, PRIMARY_ADDRESS),
                               Cv(s, EXTENDED_ADDRESS_MSB), Cv(s, EXTENDED_ADDRESS_LSB))
  }

  function RouteOf(h: State, p: Packet, now: nat): Route
    requires Valid(h.store) && 0 < |p|
  {
    if IsReset(p) then ToReset
    else if h.mark.Some? && ElapsedMs(h.mark.value, now) < SERVICE_MODE_TIMEOUT_MS && ServiceModeCandidate(p)
    then ToService
    else if PacketCodec.Addr(p) == Ok(StoreAddr(h.store)) then ToCommand
    else ToNobody
  }

  function Command(p: Packet): Reply
    requires 0 < |p|
  {
    match PacketCodec.Parse(p)
    case Ok(Speed(v)) => Success(Some(Velocity128(v)))
    case Ok(Functions(g)) => Success(Some(SetFunctions(g)))
    case Err(e) => Failed(PacketProblem(e))
  }

  function AfterServicePacket(defaults: seq<byte>, h: State, p: Packet, io: seq<Outcome>): (r: (State, Reply))
    requires Valid(h.store) && 2 <= |p|
    ensures Valid(r.0.store)
  {
    if h.pending != Some(p) then (h.(pending := Some(p)), NOTHING)
    else
      var (store, reply) := Execute(defaults, h.store, p, io);
      (h.(pending := None, store := store), reply)
  }

  function After(defaults: seq<byte>, h: State, p: Packet, now: nat, io: seq<Outcome>): (r: (State, Reply))
    requires Valid(h.store) && 2 <= |p|
    ensures Valid(r.0.store)
  {
    match RouteOf(h, p, now)
    case ToReset => (h.(mark := Some(now)), Success(Some(Reset)))
    case ToService => AfterServicePacket(defaults, h.(mark := Some(now)), p, io)
    case ToCommand => (h.(mark := None), Command(p))
    case ToNobody => (h, NOTHING)
  }

  // ---- the handler as the program keeps it ----

  class Handler {
    const defaults: seq<byte>
    const store: Flash
    var enterServiceModeMark: Option<nat>
    var pendingServicePacket: Option<Packet>

    ghost predicate Usable()
      reads this, store, store.flash, store.cache
    {
      store.Usable()
    }

    ghost function Model(): State
      reads this, store, store.flash, store.cache
    {
      State(enterServiceModeMark, pendingServicePacket, store.Model())
    }

    constructor (store: Flash, defaults: seq<byte>)
      requires store.Usable()
      ensures Usable() && this.store == store && this.defaults == defaults
      ensures Model() == State(None, None, store.Model())
    {
      this.store := store;
      this.defaults := defaults;
      enterServiceModeMark, pendingServicePacket := None, None;
    }

    method Address() returns (a: bv16)
      requires Usable()
      ensures a == StoreAddr(store.Model())
    {
      if store.cache[DECODER_CONFIGURATION - 1] & 0x20 != 0 {
        return PacketCodec.ReadExtendedAddress(store.cache[EXTENDED_ADDRESS_MSB - 1],
                                               store.cache[EXTENDED_ADDRESS_LSB - 1]);
      }
      a := store.cache[PRIMARY_ADDRESS - 1] as bv16;
    }

    method ResetToFactoryDefaults(io: seq<Outcome>) returns (reply: Reply)
      requires Usable()
      modifies store.flash, store.cache
      ensures Usable()
      ensures (store.Model(), reply) == AfterFactoryReset(defaults, old(store.Model()), io)
    {
      var r := store.WriteBytes(1, defaults, true, Nth(io, 0));
      if r.Err? {
        return Failed(StoreProblem(r.error));
      }
      reply := Success(Some(Reboot));
    }

    method ReadByte(cv: nat) returns (b: byte)
      requires Usable() && 1 <= cv <= CV_SIZE
      ensures b == Cv(store.Model(), cv)
    {
      b := store.cache[cv - 1];
    }

    method VerifyByte(p: Packet) returns (reply: Reply)
      requires Usable() && 2 <= |p|
      ensures reply == VerifyReply(store.Model(), p)
    {
      if |p| < 3 {
        return TOO_SHORT;
      }
      var actual := ReadByte(CvAddress(p));
      reply := if p[2] == actual then ACKNOWLEDGE else NOTHING;
    }

    method ManipulateBit(p: Packet, io: seq<Outcome>) returns (reply: Reply)
      requires Usable() && 2 <= |p|
      modifies store.flash, store.cache
      ensures Usable()
      ensures (store.Model(), reply) == AfterManipulateBit(old(store.Model()), p, io)
    {
      if |p| < 3 {
        return TOO_SHORT;
      }
      var packed := p[2];
      if packed < 0xE0 {
        return INVALID;
      }
      var cv := CvAddress(p);
      var current := ReadByte(cv);
      if packed & 0x10 != 0 {
        var r := store.WriteBytes(cv, [WithBit(current, packed)], false, Nth(io, 0));
        if r.Err? {
          return Failed(StoreProblem(r.error));
        }
        return ACKNOWLEDGE;
      }
      reply := if (current >> BitPosition(packed)) & 1 == BitValue(packed) then ACKNOWLEDGE else NOTHING;
    }

    method WritePrimaryAddress(value: byte, io: seq<Outcome>) returns (reply: Reply)
      requires Usable()
      modifies store.flash, store.cache
      ensures Usable()
      ensures (store.Model(), reply) == AfterPrimaryAddress(old(store.Model()), value, io)
    {
      hide AfterWrite, BasicAddressing;
      ghost var s0 := store.Model();
      var r := store.WriteBytes(PRIMARY_ADDRESS, [value], false, Nth(io, 0));
      ghost var s1 := store.Model();
      assert (s1, r) == WriteCv(s0, PRIMARY_ADDRESS, value, Nth(io, 0));
      if r.Err? {
        return Failed(StoreProblem(r.error));
      }
      var configuration := BasicAddressing(store.cache[DECODER_CONFIGURATION - 1]);
      r := store.WriteBytes(DECODER_CONFIGURATION, [configuration], false, Nth(io, 1));
      ghost var s2 := store.Model();
      assert (s2, r) == WriteCv(s1, DECODER_CONFIGURATION, configuration, Nth(io, 1));
      if r.Err? {
        return Failed(StoreProblem(r.error));
      }
      r := store.WriteBytes(CONSIST_ADDRESS, [0], false, Nth(io, 2));
      assert (store.Model(), r) == WriteCv(s2, CONSIST_ADDRESS, 0, Nth(io, 2));
      hide WriteCv;
      if r.Err? {
        return Failed(StoreProblem(r.error));
      }
      reply := ACKNOWLEDGE;
    }

    method WriteByte(p: Packet, io: seq<Outcome>) returns (reply: Reply)
      requires Usable() && 2 <= |p|
      modifies store.flash, store.cache
      ensures Usable()
      ensures (store.Model(), reply) == AfterWriteByte(defaults, old(store.Model()), p, io)
    {
      var cv := CvAddress(p);
      if cv == 31 || cv == 32 {
        return NOTHING;
      }
      if |p| < 3 {
        return TOO_SHORT;
      }
      var value := p[2];
      if cv == PRIMARY_ADDRESS {
        if !(1 <= value <= 127) {
          return INVALID;
        }
        reply := WritePrimaryAddress(value, io);
        return;
      } else if cv == MANUFACTURER_ID {
        if value == 8 {
          reply := ResetToFactoryDefaults(io);
          return;
        }
        return NOTHING;
      } else if cv == MANUFACTURER_VERSION_NUMBER {
        if value == 7 {
          var r := store.WriteBytes(EMF_ADC_OFFSET, [0xFF], false, Nth(io, 0));
          if r.Err? {
            return Failed(StoreProblem(r.error));
          }
        }
        return Success(Some(Reboot));
      } else if cv == EXTENDED_ADDRESS_MSB {
        var cv18 := ReadByte(EXTENDED_ADDRESS_LSB);
        if !(192 <= value <= 231) || (cv18 == 0 && value == 192) {
          return INVALID;
        }
      } else if cv == EXTENDED_ADDRESS_LSB {
        var cv17 := ReadByte(EXTENDED_ADDRESS_MSB);
        if cv17 == 192 && value == 0 {
          return INVALID;
        }
      }
      var r := store.WriteBytes(cv, [value], false, Nth(io, 0));
      if r.Err? {
        return Failed(StoreProblem(r.error));
      }
      reply := ACKNOWLEDGE;
    }

    method HandleServiceMode(p: Packet, io: seq<Outcome>) returns (reply: Reply)
      requires Usable() && 2 <= |p|
      modifies this`pendingServicePacket, store.flash, store.cache
      ensures Usable()
      ensures (Model(), reply) == AfterServicePacket(defaults, old(Model()), p, io)
    {
      var taken := pendingServicePacket;
      pendingServicePacket := None;
      if taken != Some(p) {
        pendingServicePacket := Some(p);
        return Success(None);
      }
      if IsLegacyReset(p) {
        reply := ResetToFactoryDefaults(io);
        return;
      }
      var code := InstructionCode(p);
      if code == 2 {
        reply := ManipulateBit(p, io);
      } else if code == 1 {
        reply := VerifyByte(p);
      } else if code == 3 {
        reply := WriteByte(p, io);
      } else {
        reply := INVALID;
      }
    }

    method Handle(p: Packet, now: nat, io: seq<Outcome>) returns (reply: Reply)
      requires Usable() && 2 <= |p|
      modifies this, store.flash, store.cache
      ensures Usable()
      ensures (Model(), reply) == After(defaults, old(Model()), p, now, io)
    {
      if 2 <= |p| && p[0] == 0 && p[1] == 0 {
        enterServiceModeMark := Some(now);
        return Success(Some(Reset));
      }
      var inTime := enterServiceModeMark.Some? && ElapsedMs(enterServiceModeMark.value, now) < SERVICE_MODE_TIMEOUT_MS;
      if inTime && 112 <= p[0] <= 127 {
        enterServiceModeMark := Some(now);
        reply := HandleServiceMode(p, io);
        return;
      }
      var address := Address();
      if PacketCodec.Addr(p) == Ok(address) {
        enterServiceModeMark := None;
        return Command(p);
      }
      reply := Success(None);
    }
  }
}
