/** The C firmware beside the Rust one: how each reads the address, the functions and the speed of a
    packet. */
module Firmwares {
  import opened Wire
  import opened Velocity
  import opened PacketCodec
  import SpeedHelper

  // ---- what both may see ----

  /** A packet of one of the two address formats, with its checksum. */
  predicate ForVehicles(raw: seq<byte>) {
    Accepted(raw) && (IsBasicAddress(raw[0]) || IsExtendedAddress(raw[0]))
  }

  function Data(raw: seq<byte>): seq<byte>
    requires raw != []
  {
    raw[..|raw| - 1]
  }

  /** Where the instruction begins, as the C firmware finds it. */
  function CommandStart(raw: seq<byte>): (k: nat)
    requires raw != []
    ensures 1 <= k <= 2
  {
    if raw[0] >> 6 == 3 then 2 else 1
  }

  lemma LongAddressIsExtended(first: byte)
    requires first <= 231
    ensures first >> 6 == 3 <==> IsExtendedAddress(first)
  {}

  /** Both firmwares find the instruction at the same place, and the C firmware always finds a byte
      after it, if only the checksum. */
  lemma SameStart(raw: seq<byte>)
    requires ForVehicles(raw)
    ensures AddressLength(Data(raw)) == Ok(CommandStart(raw))
    ensures CommandStart(raw) + 2 <= |raw|
  {
    AcceptedIsProtected(raw);
    LongAddressIsExtended(raw[0]);
  }

  /** The instruction byte is followed by nothing but the checksum. */
  predicate EndsAtInstruction(raw: seq<byte>)
    requires raw != []
  {
    |raw| == CommandStart(raw) + 2
  }

  // ---- addresses ----

  datatype AddressCvs = AddressCvs(configuration: byte, primary: byte, msb: byte, lsb: byte)

  predicate LongConfigured(cvs: AddressCvs) {
    cvs.configuration & 0x20 != 0
  }

  /** The long address of the CVs without its two top bits, and that of a packet. */
  predicate SameLongAddress(msb: byte, lsb: byte, first: byte, second: byte) {
    (((msb as bv16) << 8) + (lsb as bv16)) & 0x3FFF == (((first - 192) as bv16) << 8) + (second as bv16)
  }

  /** address_evaluation. */
  predicate CAddressed(cvs: AddressCvs, raw: seq<byte>)
    requires 2 <= |raw|
  {
    if LongConfigured(cvs) then raw[0] >> 6 == 3 && SameLongAddress(cvs.msb, cvs.lsb, raw[0], raw[1])
    else cvs.primary == raw[0]
  }

  predicate RustAddressed(cvs: AddressCvs, data: seq<byte>)
    requires data != []
  {
    Addr(data) == Ok(DecoderAddress(cvs.configuration, cvs.primary, cvs.msb, cvs.lsb))
  }

  lemma LongAddressesAgree(msb: byte, lsb: byte, first: byte, second: byte)
    requires 192 <= first
    ensures SameLongAddress(msb, lsb, first, second) <==>
            ReadExtendedAddress(first, second) == ReadExtendedAddress(msb, lsb)
  {}

  lemma ShortAddressesAgree(primary: byte, first: byte)
    requires first <= 127
    ensures (first & 0x7F) as bv16 == primary as bv16 <==> primary == first
  {}

  /** The two sides of the comparison below. */
  predicate AddressesAgree(cvs: AddressCvs, raw: seq<byte>)
    requires 2 <= |raw|
  {
    CAddressed(cvs, raw) <==>
      || (RustAddressed(cvs, Data(raw)) && (LongConfigured(cvs) <==> IsExtendedAddress(raw[0])))
      || (!LongConfigured(cvs) && cvs.primary == raw[0] && 128 <= raw[0])
  }

  lemma ExtendedAddressesAgree(cvs: AddressCvs, raw: seq<byte>)
    requires 3 <= |raw| && IsExtendedAddress(raw[0])
    ensures AddressesAgree(cvs, raw)
  {
    hide SameLongAddress, ReadExtendedAddress;
    LongAddressIsExtended(raw[0]);
    LongAddressesAgree(cvs.msb, cvs.lsb, raw[0], raw[1]);
  }

  lemma BasicAddressesAgree(cvs: AddressCvs, raw: seq<byte>)
    requires 2 <= |raw| && IsBasicAddress(raw[0])
    ensures AddressesAgree(cvs, raw)
  {
    hide SameLongAddress, ReadExtendedAddress;
    LongAddressIsExtended(raw[0]);
    ShortAddressesAgree(cvs.primary, raw[0]);
  }

  lemma OtherAddressesAgree(cvs: AddressCvs, raw: seq<byte>)
    requires 2 <= |raw| && 128 <= raw[0] < 192
    ensures AddressesAgree(cvs, raw)
  {
    hide SameLongAddress, ReadExtendedAddress, DecoderAddress;
    LongAddressIsExtended(raw[0]);
  }

  /** The C firmware takes a packet exactly when the Rust one does and the packet has the address
      format the decoder is configured for, since the Rust one compares the numbers only; or when CV1
      holds no short address and is equal to the first byte of the packet. */
  lemma AddressesAgreeExactly(cvs: AddressCvs, raw: seq<byte>)
    requires Accepted(raw)
    ensures CAddressed(cvs, raw) <==>
      || (RustAddressed(cvs, Data(raw)) && (LongConfigured(cvs) <==> IsExtendedAddress(raw[0])))
      || (!LongConfigured(cvs) && cvs.primary == raw[0] && 128 <= raw[0])
  {
    AcceptedIsProtected(raw);
    hide Accepted, Protected, Xor, CAddressed, RustAddressed, LongConfigured, Data;
    if IsExtendedAddress(raw[0]) {
      ExtendedAddressesAgree(cvs, raw);
    } else if IsBasicAddress(raw[0]) {
      BasicAddressesAgree(cvs, raw);
    } else {
      OtherAddressesAgree(cvs, raw);
    }
  }

  /** So they differ on a speed packet to the long address 3, when the short address is 3. */
  lemma FormatsAreConfused()
    ensures var raw := Protected([0xC0, 0x03, 0x3F, 0x85]);
      && ForVehicles(raw)
      && RustAddressed(AddressCvs(0, 3, 0xC3, 0xE8), Data(raw))
      && !CAddressed(AddressCvs(0, 3, 0xC3, 0xE8), raw)
  {
    var data: seq<byte> := [0xC0, 0x03, 0x3F, 0x85];
    DecodeOfProtected(data);
    assert Protected(data)[0] == 0xC0 && Data(Protected(data)) == data;
    hide Decode, Protected;
  }

  // ---- functions ----

  /** clr_bit_arr. */
  const CLR_0: bv32 := 0xFFFFFFE0
  const CLR_1: bv32 := 0xFFFFFE1F
  const CLR_2: bv32 := 0xFFFFE1FF
  const CLR_3: bv32 := 0xFFE01FFF
  const CLR_4: bv32 := 0xE01FFFFF
  const CLR_5: bv32 := 0x1FFFFFFF

  function Pick(x: bv32, mask: bv32): bv32 {
    x & mask
  }

  /** update_active_functions: which functions are active after an instruction. */
  function CUpdate(active: bv32, bits: bv32, clr: bv32): bv32 {
    (active & clr) | Pick(bits, !clr)
  }

  /** The function branches of instruction_evaluation, on the instruction byte and the byte after it. */
  function CFunctions(active: bv32, first: byte, second: byte): bv32 {
    if first >> 6 == 2 then
      if first >> 4 == 0x0B then CUpdate(active, (first as bv32) << 5, CLR_1)
      else if first >> 4 == 0x0A then CUpdate(active, (first as bv32) << 9, CLR_2)
      else CUpdate(active, (((first & 0x0F) as bv32) << 1) + (((first & 0x10) >> 4) as bv32), CLR_0)
    else if first == 0xDE then CUpdate(active, (second as bv32) << 13, CLR_3)
    else if first == 0xDF then CUpdate(active, (second as bv32) << 21, CLR_4)
    else if first == 0xD8 then CUpdate(active, (second as bv32) << 29, CLR_5)
    else active
  }

  function CActive(active: bv32, raw: seq<byte>): bv32
    requires ForVehicles(raw)
  {
    SameStart(raw);
    var k := CommandStart(raw);
    CFunctions(active, raw[k], raw[k + 1])
  }

  function RustActive(active: bv32, data: seq<byte>): bv32
    requires data != []
  {
    match Parse(data)
    case Ok(Functions(g)) => UnionWithMask(g, active)
    case _ => active
  }

  /** The bits of x inside the mask and those of active outside. */
  function Merge(active: bv32, x: bv32, mask: bv32): bv32 {
    Union(Difference(active, mask), Pick(x, mask))
  }

  lemma NotTwice(mask: bv32)
    ensures !!mask == mask
  {}

  lemma CUpdateMerges(active: bv32, x: bv32, mask: bv32)
    ensures CUpdate(active, x, !mask) == Merge(active, x, mask)
  {
    hide Pick;
    NotTwice(mask);
  }

  lemma UnionMerges(active: bv32, y: bv32, mask: bv32)
    ensures UnionWithMask(NewGroup(mask, y), active) == Merge(active, y, mask)
  {
    assert NewGroup(mask, y) == FunctionGroup(mask, Pick(y, mask));
    hide Pick, NewGroup, Union, Difference;
  }

  lemma MergeUsesPick(active: bv32, x: bv32, y: bv32, mask: bv32)
    requires Pick(x, mask) == Pick(y, mask)
    ensures Merge(active, x, mask) == Merge(active, y, mask)
  {
    hide Pick;
  }

  lemma PickOfMerge(active: bv32, x: bv32, mask: bv32)
    ensures Pick(Merge(active, x, mask), mask) == Pick(x, mask)
  {}

  lemma MergeSelf(active: bv32, mask: bv32)
    ensures Merge(active, active, mask) == active
  {}

  lemma MergeChangesNothing(active: bv32, x: bv32, mask: bv32)
    ensures Merge(active, x, mask) == active <==> Pick(active, mask) == Pick(x, mask)
  {
    hide Merge, Pick;
    PickOfMerge(active, x, mask);
    MergeSelf(active, mask);
    if Pick(active, mask) == Pick(x, mask) {
      MergeUsesPick(active, active, x, mask);
    }
  }

  lemma SameUpdate(active: bv32, x: bv32, y: bv32, mask: bv32)
    requires Pick(x, mask) == Pick(y, mask)
    ensures CUpdate(active, x, !mask) == UnionWithMask(NewGroup(mask, y), active)
  {
    hide CUpdate, UnionWithMask, NewGroup, Merge, Pick;
    CUpdateMerges(active, x, mask);
    UnionMerges(active, y, mask);
    MergeUsesPick(active, x, y, mask);
  }

  /** The two ways to pick the bits of an instruction, group by group. */
  lemma SameBits(active: bv32, b: byte)
    ensures CUpdate(active, (((b & 0x0F) as bv32) << 1) + (((b & 0x10) >> 4) as bv32), CLR_0) ==
            UnionWithMask(NewGroup(FG_1, (((b & 0x0F) as bv32) << 1) | (((b >> 4) & 1) as bv32)), active)
    ensures CUpdate(active, (b as bv32) << 5, CLR_1) ==
            UnionWithMask(NewGroup(FG_2_1, ((b & 0x0F) as bv32) << 5), active)
    ensures CUpdate(active, (b as bv32) << 9, CLR_2) ==
            UnionWithMask(NewGroup(FG_2_0, ((b & 0x0F) as bv32) << 9), active)
    ensures CUpdate(active, (b as bv32) << 13, CLR_3) ==
            UnionWithMask(NewGroup(FG_FEATURE_13_20, (b as bv32) << 13), active)
    ensures CUpdate(active, (b as bv32) << 21, CLR_4) ==
            UnionWithMask(NewGroup(FG_FEATURE_21_28, (b as bv32) << 21), active)
    ensures CUpdate(active, (b as bv32) << 29, CLR_5) ==
            UnionWithMask(NewGroup(FG_FEATURE_29_31, ((b & 0x07) as bv32) << 29), active)
  {
    hide CUpdate, UnionWithMask, NewGroup;
    SameUpdate(active, (((b & 0x0F) as bv32) << 1) + (((b & 0x10) >> 4) as bv32),
               (((b & 0x0F) as bv32) << 1) | (((b >> 4) & 1) as bv32), FG_1);
    SameUpdate(active, (b as bv32) << 5, ((b & 0x0F) as bv32) << 5, FG_2_1);
    SameUpdate(active, (b as bv32) << 9, ((b & 0x0F) as bv32) << 9, FG_2_0);
    SameUpdate(active, (b as bv32) << 13, (b as bv32) << 13, FG_FEATURE_13_20);
    SameUpdate(active, (b as bv32) << 21, (b as bv32) << 21, FG_FEATURE_21_28);
    SameUpdate(active, (b as bv32) << 29, ((b & 0x07) as bv32) << 29, FG_FEATURE_29_31);
  }

  lemma SameKinds(first: byte)
    ensures first >> 6 == 2 <==> first >> 5 == 4 || first >> 5 == 5
    ensures first >> 5 == 4 ==> first >> 4 != 0x0B && first >> 4 != 0x0A
    ensures first >> 5 == 5 ==> (first >> 4 == 0x0B <==> (first >> 4) & 1 == 1)
    ensures first >> 5 == 5 ==> (first >> 4 == 0x0A <==> (first >> 4) & 1 != 1)
    ensures first == 0xDE || first == 0xDF || first == 0xD8 ==> first >> 5 == 6
    ensures first == 0x3F <==> first >> 5 == 1 && first & 0x1F == 0x1F
  {}

  /** The three bits that select the kind of instruction. */
  function Kind(first: byte): byte {
    first >> 5
  }

  lemma SameFunctions(active: bv32, first: byte, second: byte)
    ensures CFunctions(active, first, second) ==
      if Kind(first) == 4 then UnionWithMask(Fg1(first), active)
      else if Kind(first) == 5 then UnionWithMask(Fg2(first), active)
      else match FeatureExpansion(first, second) case None => active case Some(g) => UnionWithMask(g, active)
    ensures FeatureExpansion(first, second).Some? ==> Kind(first) == 6
  {
    hide CUpdate, UnionWithMask, NewGroup;
    SameKinds(first);
    SameBits(active, first);
    SameBits(active, second);
  }

  /** The functions named by an instruction that carries its bits in a second byte. */
  function WideGroup(first: byte): bv32 {
    if first == 0xDE then FG_FEATURE_13_20
    else if first == 0xDF then FG_FEATURE_21_28
    else if first == 0xD8 then FG_FEATURE_29_31
    else 0
  }

  /** Where such a byte puts them. */
  function WideBits(first: byte, second: byte): bv32 {
    if first == 0xDE then (second as bv32) << 13
    else if first == 0xDF then (second as bv32) << 21
    else (second as bv32) << 29
  }

  lemma WideUpdate(active: bv32, first: byte, second: byte)
    requires first == 0xDE || first == 0xDF || first == 0xD8
    ensures CFunctions(active, first, second) == Merge(active, WideBits(first, second), WideGroup(first))
    ensures Kind(first) == 6 && FeatureExpansion(first, second).Some?
  {
    hide CUpdate, Merge;
    SameKinds(first);
    CUpdateMerges(active, (second as bv32) << 13, FG_FEATURE_13_20);
    CUpdateMerges(active, (second as bv32) << 21, FG_FEATURE_21_28);
    CUpdateMerges(active, (second as bv32) << 29, FG_FEATURE_29_31);
  }

  lemma NoGroup(active: bv32, first: byte, second: byte)
    requires first != 0xDE && first != 0xDF && first != 0xD8
    ensures Pick(active, WideGroup(first)) == Pick(WideBits(first, second), WideGroup(first))
    ensures FeatureExpansion(first, second).None?
  {}

  /** What the Rust firmware makes of an instruction byte and the byte after it, which is the checksum
      when the packet ends there. */
  function RustFunctions(active: bv32, first: byte, second: byte, ends: bool): bv32 {
    if Kind(first) == 4 then UnionWithMask(Fg1(first), active)
    else if Kind(first) == 5 then UnionWithMask(Fg2(first), active)
    else if Kind(first) == 6 && !ends then
      (match FeatureExpansion(first, second) case None => active case Some(g) => UnionWithMask(g, active))
    else active
  }

  lemma RustReads(active: bv32, raw: seq<byte>)
    requires ForVehicles(raw)
    ensures CommandStart(raw) + 2 <= |raw|
    ensures var k := CommandStart(raw);
      RustActive(active, Data(raw)) == RustFunctions(active, raw[k], raw[k + 1], EndsAtInstruction(raw))
  {
    SameStart(raw);
    hide UnionWithMask, Fg1, Fg2, SpeedOf, FeatureExpansion, ForVehicles, CommandStart, AddressLength;
    var k := CommandStart(raw);
    var data := Data(raw);
    assert data[k..] != [] && data[k..][0] == raw[k];
    assert 2 <= |data[k..]| ==> data[k..][1] == raw[k + 1];
  }

  lemma InstructionsAgree(active: bv32, first: byte, second: byte, ends: bool)
    ensures CFunctions(active, first, second) == RustFunctions(active, first, second, ends) <==>
      (ends ==> Pick(active, WideGroup(first)) == Pick(WideBits(first, second), WideGroup(first)))
  {
    hide CFunctions, UnionWithMask, Fg1, Fg2, FeatureExpansion, Kind, WideGroup, WideBits, Merge, Pick;
    SameFunctions(active, first, second);
    if first == 0xDE || first == 0xDF || first == 0xD8 {
      WideUpdate(active, first, second);
      MergeChangesNothing(active, WideBits(first, second), WideGroup(first));
    } else {
      NoGroup(active, first, second);
    }
  }

  /** On every accepted packet of either address format both firmwares end with the same 32 active
      functions exactly when the packet is not cut short before the bits of F13 to F31, or the
      functions already are what the checksum says: the C firmware takes it for the missing byte. */
  lemma FunctionsAgreeExactly(active: bv32, raw: seq<byte>)
    requires ForVehicles(raw)
    ensures CActive(active, raw) == RustActive(active, Data(raw)) <==>
      var k := CommandStart(raw);
      EndsAtInstruction(raw) ==>
        Pick(active, WideGroup(raw[k])) == Pick(WideBits(raw[k], raw[|raw| - 1]), WideGroup(raw[k]))
  {
    hide CFunctions, RustFunctions, RustActive, WideGroup, WideBits, Pick, ForVehicles, CommandStart;
    RustReads(active, raw);
    var k := CommandStart(raw);
    assert EndsAtInstruction(raw) ==> |raw| - 1 == k + 1;
    assert CActive(active, raw) == CFunctions(active, raw[k], raw[k + 1]);
    hide CActive, EndsAtInstruction;
    InstructionsAgree(active, raw[k], raw[k + 1], EndsAtInstruction(raw));
  }

  lemma SampleChecksum()
    ensures Xor([3, 0xDE]) == 0xDD
  {
    assert [3, 0xDE as byte][..1] == [3] && [3 as byte][..0] == [];
    assert Xor([]) == 0 && Xor([3]) == 3;
  }

  /** Such a packet: to address 3, F13 to F20 with nothing behind. */
  lemma CutShortExample()
    ensures var raw: seq<byte> := [3, 0xDE, 0xDD];
      && ForVehicles(raw)
      && RustActive(0, Data(raw)) == 0
      && CActive(0, raw) == 0x1BA000
  {
    var raw: seq<byte> := [3, 0xDE, 0xDD];
    assert raw == Protected([3, 0xDE]) by {
      SampleChecksum();
    }
    DecodeOfProtected([3, 0xDE]);
    assert Data(raw) == [3, 0xDE] && [3, 0xDE as byte][1..] == [0xDE];
    hide Decode, Protected;
  }

  // ---- speed ----

  function CSpeed(raw: seq<byte>): Option<byte>
    requires ForVehicles(raw)
  {
    SameStart(raw);
    var k := CommandStart(raw);
    if raw[k] == 0x3F then Some(raw[k + 1]) else None
  }

  function RustSpeed(data: seq<byte>): Option<VelocitySetpoint>
    requires data != []
  {
    match Parse(data)
    case Ok(Speed(v)) => Some(v)
    case _ => None
  }

  function Code(b: byte): (step: nat)
    ensures step < 256
  {
    b as int
  }

  /** A speed step of the C firmware means what a setpoint of the Rust one does. */
  predicate SameSpeed(step: nat, v: VelocitySetpoint)
    requires step < 256
  {
    && SpeedHelper.TableIndex(step) == Idx(v.speedStep)
    && (SpeedHelper.IsEmergencyStop(step) <==> v.speedStep.EmergencyStop?)
    && (SpeedHelper.DirectionBit(step) == 1 <==> v.direction.Forward?)
  }

  function Low(step: nat): nat {
    step % 128
  }

  function High(step: nat): nat {
    step / 128
  }

  /** The same in terms of the low seven bits and the high one. */
  predicate HasFields(v: VelocitySetpoint, step: nat) {
    && Idx(v.speedStep) == (if Low(step) <= 1 then 0 else Low(step) - 1)
    && (v.speedStep.EmergencyStop? <==> Low(step) == 1)
    && (v.direction.Forward? <==> High(step) == 1)
  }

  lemma FieldsDecide(step: nat, v: VelocitySetpoint)
    requires step < 256
    ensures SameSpeed(step, v) <==> HasFields(v, step)
  {}

  lemma LowByte(b: byte)
    requires b < 128
    ensures b & 0x7F == b && b & 0x80 == 0
  {}

  lemma HighByte(b: byte)
    requires 128 <= b
    ensures b & 0x7F == b - 128 && b & 0x80 != 0
  {}

  lemma SpeedByte(b: byte)
    ensures var speed, step := SpeedBits(b), Code(b);
      && speed as int == Low(step) && (speed == 0 <==> Low(step) == 0) && (speed == 1 <==> Low(step) == 1)
      && (DirectionFlag(b) <==> High(step) == 1)
  {
    if b < 128 {
      LowByte(b);
    } else {
      HighByte(b);
    }
  }

  lemma SpeedFields(b: byte)
    ensures HasFields(SpeedOf(b), Code(b))
  {
    hide SpeedBits, DirectionFlag, Code, Low, High;
    SpeedByte(b);
    var speed := SpeedBits(b);
    if speed == 0 {
      assert SpeedOf(b).speedStep == Stop;
    } else if speed == 1 {
      assert SpeedOf(b).speedStep == EmergencyStop;
    } else {
      assert SpeedOf(b).speedStep == Num(Low(Code(b)) - 1);
    }
  }

  lemma SpeedsMeanTheSame(b: byte)
    ensures SameSpeed(Code(b), SpeedOf(b))
  {
    hide *;
    SpeedFields(b);
    FieldsDecide(Code(b), SpeedOf(b));
  }

  lemma RustSpeedReads(raw: seq<byte>)
    requires ForVehicles(raw)
    ensures CommandStart(raw) + 2 <= |raw|
    ensures var k := CommandStart(raw);
      RustSpeed(Data(raw)) == if raw[k] == 0x3F && !EndsAtInstruction(raw) then Some(SpeedOf(raw[k + 1])) else None
  {
    SameStart(raw);
    hide SpeedOf, Fg1, Fg2, FeatureExpansion, ForVehicles, CommandStart, AddressLength;
    var k := CommandStart(raw);
    SameKinds(raw[k]);
    var data := Data(raw);
    assert data[k..] != [] && data[k..][0] == raw[k];
    assert 2 <= |data[k..]| ==> data[k..][1] == raw[k + 1];
  }

  /** Both firmwares take the same speed, emergency stop and direction from every accepted packet of
      either address format, exactly when it is not a speed instruction cut short: from that the C
      firmware takes the checksum for the speed. */
  lemma SpeedsAgreeExactly(raw: seq<byte>)
    requires ForVehicles(raw)
    ensures (match CSpeed(raw)
             case None => RustSpeed(Data(raw)).None?
             case Some(b) => RustSpeed(Data(raw)).Some? && SameSpeed(Code(b), RustSpeed(Data(raw)).value)) <==>
            !(EndsAtInstruction(raw) && raw[CommandStart(raw)] == 0x3F)
  {
    hide SameSpeed, SpeedOf, Code, RustSpeed, EndsAtInstruction, ForVehicles, CommandStart;
    SameStart(raw);
    RustSpeedReads(raw);
    SpeedsMeanTheSame(raw[CommandStart(raw) + 1]);
  }

  // ---- every instruction ----

  predicate IsWide(first: byte) {
    first == 0xDE || first == 0xDF || first == 0xD8
  }

  lemma KindsOfInstruction(first: byte)
    ensures Kind(first) == 1 && first & 0x1F == 0x1F <==> first == 0x3F
    ensures Kind(first) == 4 || Kind(first) == 5 <==> 128 <= first < 192
    ensures Kind(first) == 6 <==> 192 <= first < 224
    ensures IsWide(first) ==> Kind(first) == 6
  {}

  lemma FeatureIsWide(first: byte, second: byte)
    ensures FeatureExpansion(first, second).Some? <==> IsWide(first)
  {
    hide NewGroup;
  }

  /** A group that has the same effect as the C firmware's update. */
  ghost predicate SameEffect(g: FunctionGroup, first: byte, second: byte) {
    forall active :: UnionWithMask(g, active) == CFunctions(active, first, second)
  }

  lemma GroupsHaveSameEffect(first: byte, second: byte)
    ensures Kind(first) == 4 ==> SameEffect(Fg1(first), first, second)
    ensures Kind(first) == 5 ==> SameEffect(Fg2(first), first, second)
    ensures IsWide(first) && Kind(first) == 6 ==>
      FeatureExpansion(first, second).Some? && SameEffect(FeatureExpansion(first, second).value, first, second)
  {
    hide UnionWithMask, CFunctions, Fg1, Fg2, FeatureExpansion, Kind;
    FeatureIsWide(first, second);
    forall active ensures CFunctions(active, first, second) ==
      if Kind(first) == 4 then UnionWithMask(Fg1(first), active)
      else if Kind(first) == 5 then UnionWithMask(Fg2(first), active)
      else match FeatureExpansion(first, second) case None => active case Some(g) => UnionWithMask(g, active)
    {
      SameFunctions(active, first, second);
    }
  }

  /** The parser on the instruction byte and the byte after it, if there is more. */
  function Parsed(first: byte, more: bool, second: byte): Result<Instruction, PacketCodec.Error> {
    if first == 0x3F then if more then Ok(Speed(SpeedOf(second))) else Err(Undersize)
    else if Kind(first) == 4 then Ok(Functions(Fg1(first)))
    else if Kind(first) == 5 then Ok(Functions(Fg2(first)))
    else if Kind(first) == 6 then
      if !more then Err(Undersize)
      else (match FeatureExpansion(first, second)
            case None => Err(InvalidInstruction)
            case Some(g) => Ok(Functions(g)))
    else Err(InvalidInstruction)
  }

  lemma ParseReads(p: seq<byte>)
    requires p != [] && ForVehicles(Protected(p))
    ensures CommandStart(p) < |p|
    ensures var k := CommandStart(p);
      Parse(p) == Parsed(p[k], k + 1 < |p|, if k + 1 < |p| then p[k + 1] else 0)
  {
    var raw := Protected(p);
    assert Data(raw) == p;
    SameStart(raw);
    hide SpeedOf, Fg1, Fg2, FeatureExpansion, ForVehicles, AddressLength, Protected;
    var k := CommandStart(p);
    var data := p[k..];
    assert data[0] == p[k] && (1 < |data| ==> data[1] == p[k + 1]);
    KindsOfInstruction(p[k]);
    hide CommandStart;
  }

  lemma ParsedExactly(first: byte, more: bool, second: byte)
    ensures match Parsed(first, more, second)
      case Ok(Speed(v)) => first == 0x3F && more && SameSpeed(Code(second), v)
      case Ok(Functions(g)) => (128 <= first < 192 || (IsWide(first) && more)) && SameEffect(g, first, second)
      case Err(Undersize) => (first == 0x3F || 192 <= first < 224) && !more
      case Err(InvalidInstruction) =>
        first != 0x3F && !(128 <= first < 192) && (192 <= first < 224 ==> more && !IsWide(first))
      case Err(_) => false
  {
    hide SpeedOf, Fg1, Fg2, FeatureExpansion, SameEffect, SameSpeed, IsWide, Code, Kind;
    KindsOfInstruction(first);
    GroupsHaveSameEffect(first, second);
    FeatureIsWide(first, second);
    SpeedsMeanTheSame(second);
  }

  /** What the Rust parser makes of a packet, against the C firmware's reading: a speed is the same
      speed, a function group has the same effect, and everything else is refused for a reason. */
  lemma ParseExactly(p: seq<byte>)
    requires p != [] && ForVehicles(Protected(p))
    ensures CommandStart(p) < |p|
    ensures var k := CommandStart(p);
      var first, more := p[k], k + 1 < |p|;
      var second := if more then p[k + 1] else 0;
      match Parse(p)
      case Ok(Speed(v)) => first == 0x3F && more && SameSpeed(Code(second), v)
      case Ok(Functions(g)) => (128 <= first < 192 || (IsWide(first) && more)) && SameEffect(g, first, second)
      case Err(Undersize) => (first == 0x3F || 192 <= first < 224) && !more
      case Err(InvalidInstruction) =>
        first != 0x3F && !(128 <= first < 192) && (192 <= first < 224 ==> more && !IsWide(first))
      case Err(_) => false
  {
    ParseReads(p);
    hide Parse, Parsed, ForVehicles, CommandStart, SameEffect, SameSpeed, IsWide, Protected, Code;
    var k := CommandStart(p);
    ParsedExactly(p[k], k + 1 < |p|, if k + 1 < |p| then p[k + 1] else 0);
  }
}
