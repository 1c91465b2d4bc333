/** What a service instruction does to the CVs and what its reply tells the programmer. */
module ServiceInstructions {
  import opened Wire
  import opened FlashStore
  import opened ServiceMode
  import PacketCodec

  // ---- one bit of a CV ----

  /** The bit at a position counted from the least significant. */
  function BitAt(x: byte, position: byte): byte
    requires position < 8
  {
    (x >> position) & 1
  }

  /** A bit instruction with its write flag taken off: the verification of the same bit. */
  function AsVerification(packed: byte): byte {
    packed & !0x10
  }

  /** The new byte has the given value at the given position and the old bits elsewhere. */
  lemma WithBitSetsOneBit(current: byte, packed: byte, position: byte)
    requires position < 8
    ensures BitAt(WithBit(current, packed), position) ==
      if position == BitPosition(packed) then BitValue(packed) else BitAt(current, position)
  {}

  lemma VerificationOfWrite(packed: byte)
    requires IsBitWrite(packed)
    ensures var v := AsVerification(packed);
      && 0xE0 <= v && !IsBitWrite(v) && BitPosition(v) == BitPosition(packed) && BitValue(v) == BitValue(packed)
  {}

  // ---- replies ----

  predicate IsByteWrite(p: Packet)
    requires 2 <= |p|
  {
    !IsLegacyReset(p) && InstructionCode(p) == 3
  }

  /** Writing a primary address touches CV1, CV29 and CV19 only, CV1 whatever the flash does. */
  lemma PrimaryAddressWrites(s: Store, value: byte, io: seq<Outcome>, c: nat)
    requires Valid(s) && 1 <= c <= CV_SIZE
    ensures var s' := AfterPrimaryAddress(s, value, io).0;
      && (c == PRIMARY_ADDRESS ==> Cv(s', c) == value)
      && (c != PRIMARY_ADDRESS && c != DECODER_CONFIGURATION && c != CONSIST_ADDRESS ==> Cv(s', c) == Cv(s, c))
  {
    hide WriteCv, BasicAddressing, Cv;
    var s1 := WriteCv(s, PRIMARY_ADDRESS, value, Nth(io, 0)).0;
    var configuration := BasicAddressing(Cv(s1, DECODER_CONFIGURATION));
    var s2 := WriteCv(s1, DECODER_CONFIGURATION, configuration, Nth(io, 1)).0;
    CvAfterWrite(s, PRIMARY_ADDRESS, value, Nth(io, 0), c);
    CvAfterWrite(s1, DECODER_CONFIGURATION, configuration, Nth(io, 1), c);
    CvAfterWrite(s2, CONSIST_ADDRESS, 0, Nth(io, 2), c);
  }

  /** A byte write that is acknowledged has stored its byte: verifying it is acknowledged too. */
  lemma AcknowledgedByteVerifies(defaults: seq<byte>, s: Store, p: Packet, q: Packet, io: seq<Outcome>)
    requires Valid(s) && 2 <= |p| && IsByteWrite(p) && Execute(defaults, s, p, io).1 == ACKNOWLEDGE
    requires 3 <= |q| && !IsLegacyReset(q) && InstructionCode(q) == 1
    requires CvAddress(q) == CvAddress(p) && (3 <= |p| ==> q[2] == p[2])
    ensures var s' := Execute(defaults, s, p, io).0; Execute(defaults, s', q, []) == (s', ACKNOWLEDGE)
  {
    hide WriteCv, AfterPrimaryAddress;
    hide CvAddress, InstructionCode;
    if CvAddress(p) == PRIMARY_ADDRESS {
      PrimaryAddressWrites(s, p[2], io, PRIMARY_ADDRESS);
    } else {
      CvAfterWrite(s, CvAddress(p), p[2], Nth(io, 0), CvAddress(p));
    }
  }

  predicate IsBitWritePacket(p: Packet)
    requires 2 <= |p|
  {
    !IsLegacyReset(p) && InstructionCode(p) == 2 && 3 <= |p| && IsBitWrite(p[2])
  }

  /** A bit write that is acknowledged has stored its bit: verifying it is acknowledged too. */
  lemma AcknowledgedBitVerifies(defaults: seq<byte>, s: Store, p: Packet, q: Packet, io: seq<Outcome>)
    requires Valid(s) && 2 <= |p| && IsBitWritePacket(p) && Execute(defaults, s, p, io).1 == ACKNOWLEDGE
    requires 3 <= |q| && !IsLegacyReset(q) && InstructionCode(q) == 2
    requires CvAddress(q) == CvAddress(p) && q[2] == AsVerification(p[2])
    ensures var s' := Execute(defaults, s, p, io).0; Execute(defaults, s', q, []) == (s', ACKNOWLEDGE)
  {
    var cv := CvAddress(p);
    VerificationOfWrite(p[2]);
    CvAfterWrite(s, cv, WithBit(Cv(s, cv), p[2]), Nth(io, 0), cv);
    WithBitSetsOneBit(Cv(s, cv), p[2], BitPosition(p[2]));
    hide CvAddress, InstructionCode, WriteCv, WithBit, AsVerification, BitPosition, BitValue, IsBitWrite;
  }

  // ---- everything else stays ----

  predicate IsFactoryReset(p: Packet)
    requires 2 <= |p|
  {
    IsLegacyReset(p) || (IsByteWrite(p) && 3 <= |p| && CvAddress(p) == MANUFACTURER_ID && p[2] == 8)
  }

  /** The CVs an instruction for CV number cv may change. */
  predicate MayChange(cv: nat, c: nat) {
    || (c == cv && cv != MANUFACTURER_ID && cv != MANUFACTURER_VERSION_NUMBER && !IsIgnoredCv(cv))
    || (cv == PRIMARY_ADDRESS && (c == DECODER_CONFIGURATION || c == CONSIST_ADDRESS))
    || (cv == MANUFACTURER_VERSION_NUMBER && c == EMF_ADC_OFFSET)
  }

  lemma FactoryResetWrites(defaults: seq<byte>, s: Store, io: seq<Outcome>, c: nat)
    requires Valid(s) && |defaults| == CV_SIZE && 1 <= c <= CV_SIZE
    ensures Cv(AfterFactoryReset(defaults, s, io).0, c) == defaults[c - 1]
  {
    hide AfterWrite;
    WriteEffect(s, 1, defaults, true, Nth(io, 0));
    assert Patched(s.cache, 1, defaults) == defaults;
  }

  lemma ByteWriteChangesOnly(defaults: seq<byte>, s: Store, p: Packet, io: seq<Outcome>, c: nat)
    requires Valid(s) && 2 <= |p| && |defaults| == CV_SIZE && 1 <= c <= CV_SIZE
    ensures var before, after := Cv(s, c), Cv(AfterWriteByte(defaults, s, p, io).0, c);
      if 3 <= |p| && CvAddress(p) == MANUFACTURER_ID && p[2] == 8 then after == defaults[c - 1]
      else after == before || MayChange(CvAddress(p), c)
  {
    hide CvAddress, WriteCv, AfterPrimaryAddress, AfterFactoryReset, Cv, GuardAccepts;
    FactoryResetWrites(defaults, s, io, c);
    CvAfterWrite(s, EMF_ADC_OFFSET, 0xFF, Nth(io, 0), c);
    if 3 <= |p| {
      CvAfterWrite(s, CvAddress(p), p[2], Nth(io, 0), c);
      PrimaryAddressWrites(s, p[2], io, c);
    }
  }

  /** Whatever the instruction, the reply and the flash: apart from a factory reset, which makes every
      CV its default, and a bit write, which changes its one bit, only a byte write changes a CV, and
      only those it may change. */
  lemma ExecuteChangesOnly(defaults: seq<byte>, s: Store, p: Packet, io: seq<Outcome>, c: nat)
    requires Valid(s) && 2 <= |p| && |defaults| == CV_SIZE && 1 <= c <= CV_SIZE
    ensures var before, after := Cv(s, c), Cv(Execute(defaults, s, p, io).0, c);
      if IsFactoryReset(p) then after == defaults[c - 1]
      else if IsBitWritePacket(p) then after == if c == CvAddress(p) then WithBit(before, p[2]) else before
      else after == before || (IsByteWrite(p) && MayChange(CvAddress(p), c))
  {
    assert 3 <= |p| && IsBitWrite(p[2]) ==> 0xE0 <= p[2];
    hide CvAddress, InstructionCode, WithBit, IsBitWrite, WriteCv, AfterWriteByte, AfterFactoryReset, Cv, MayChange;
    FactoryResetWrites(defaults, s, io, c);
    ByteWriteChangesOnly(defaults, s, p, io, c);
    if 3 <= |p| {
      CvAfterWrite(s, CvAddress(p), WithBit(Cv(s, CvAddress(p)), p[2]), Nth(io, 0), c);
    }
  }

  // ---- service packets, byte by byte ----

  /** The kinds of instruction of NMRA S-9.2.3: 0111 and two bits that select verify byte (01), bit
      manipulation (10) or write byte (11), then the two top bits of the CV number. */
  lemma InstructionBits(p: Packet)
    requires 2 <= |p| && 112 <= p[0] <= 127
    ensures InstructionCode(p) == if p[0] < 116 then 0 else if p[0] < 120 then 1 else if p[0] < 124 then 2 else 3
  {}

  /** The CV number, counted from one, is in the last two bits of the first byte and in the second. */
  lemma CvNumber(p: Packet)
    requires 2 <= |p| && 112 <= p[0] <= 127
    ensures var page := if p[0] < 116 then p[0] - 112 else if p[0] < 120 then p[0] - 116
                        else if p[0] < 124 then p[0] - 120 else p[0] - 124;
      CvAddress(p) == 256 * (page as int) + p[1] as int + 1
  {}

  /** A byte verification is acknowledged exactly when the CV holds the byte, and changes nothing. */
  lemma ByteVerificationExactly(defaults: seq<byte>, s: Store, p: Packet, io: seq<Outcome>)
    requires Valid(s) && 3 <= |p| && 116 <= p[0] < 120
    ensures var (s', reply) := Execute(defaults, s, p, io);
      && s' == s
      && (reply == ACKNOWLEDGE <==> s.cache[CvAddress(p) - 1] == p[2])
      && (reply == NOTHING <==> s.cache[CvAddress(p) - 1] != p[2])
  {
    hide CvAddress, InstructionCode;
    InstructionBits(p);
  }

  lemma BitInstructionFields(packed: byte)
    requires 0xE0 <= packed
    ensures IsBitWrite(packed) <==> 0xF0 <= packed
    ensures BitPosition(packed) == packed & 7 && packed & 7 < 8
    ensures BitValue(packed) == (packed >> 3) & 1
  {}

  /** A bit verification is acknowledged exactly when the bit of the CV has the value, and changes
      nothing. */
  lemma BitVerificationExactly(defaults: seq<byte>, s: Store, p: Packet, io: seq<Outcome>)
    requires Valid(s) && 3 <= |p| && 120 <= p[0] < 124 && 0xE0 <= p[2] < 0xF0
    ensures p[2] & 7 < 8
    ensures var (s', reply) := Execute(defaults, s, p, io);
      var bit := BitAt(s.cache[CvAddress(p) - 1], p[2] & 7);
      && s' == s
      && (reply == ACKNOWLEDGE <==> bit == (p[2] >> 3) & 1)
      && (reply == NOTHING <==> bit != (p[2] >> 3) & 1)
  {
    hide CvAddress, InstructionCode, IsBitWrite, BitPosition, BitValue;
    InstructionBits(p);
    BitInstructionFields(p[2]);
  }

  /** A bit write is acknowledged exactly when the flash takes it, and then stores its bit. */
  lemma BitWriteExactly(defaults: seq<byte>, s: Store, p: Packet, io: seq<Outcome>, position: byte)
    requires Valid(s) && 3 <= |p| && 120 <= p[0] < 124 && 0xF0 <= p[2] && position < 8
    ensures var (s', reply) := Execute(defaults, s, p, io);
      && BitAt(s'.cache[CvAddress(p) - 1], position) ==
           (if position == p[2] & 7 then (p[2] >> 3) & 1 else BitAt(s.cache[CvAddress(p) - 1], position))
      && (reply == ACKNOWLEDGE || reply == Failed(StoreProblem(FlashStore.Error.Io)))
      && (Nth(io, 0).Done? ==> reply == ACKNOWLEDGE)
  {
    hide CvAddress, InstructionCode, IsBitWrite, BitPosition, BitValue, WithBit, BitAt, AfterWrite;
    var cv := CvAddress(p);
    InstructionBits(p);
    BitInstructionFields(p[2]);
    CvAfterWrite(s, cv, WithBit(Cv(s, cv), p[2]), Nth(io, 0), cv);
    WithBitSetsOneBit(Cv(s, cv), p[2], position);
    WriteReply(s, cv, [WithBit(Cv(s, cv), p[2])], false, Nth(io, 0));
  }

  /** Any value the address guards take: CV1 from 1 to 127, CV17 from 192 to 231, and CV17, CV18 never
      192, 0 together. */
  predicate MayHold(s: Store, cv: nat, value: byte)
    requires Valid(s)
  {
    && (cv == 1 ==> 1 <= value <= 127)
    && (cv == 17 ==> 192 <= value <= 231 && (value == 192 ==> s.cache[17] != 0))
    && (cv == 18 ==> value == 0 ==> s.cache[16] != 192)
  }

  lemma GuardIsMayHold(s: Store, cv: nat, value: byte)
    requires Valid(s)
    ensures GuardAccepts(s, cv, value) <==> MayHold(s, cv, value)
  {}

  lemma WriteCvReply(s: Store, cv: nat, value: byte)
    requires Valid(s) && 1 <= cv <= CV_SIZE
    ensures WriteCv(s, cv, value, Outcome.Done).1 == Ok(())
  {
    hide AfterWrite;
    WriteReply(s, cv, [value], false, Outcome.Done);
  }

  lemma WithoutBitFive(x: byte)
    ensures BasicAddressing(x) == x & 0xDF
  {}

  /** A new primary address, once stored, is the decoder's: extended addressing and the consist are off. */
  lemma PrimaryAddressDone(s: Store, value: byte)
    requires Valid(s)
    ensures var (s', reply) := AfterPrimaryAddress(s, value, []);
      && reply == ACKNOWLEDGE
      && s'.cache[0] == value && s'.cache[18] == 0 && s'.cache[28] == s.cache[28] & 0xDF
  {
    hide BasicAddressing;
    hide WriteCv;
    var s1 := WriteCv(s, PRIMARY_ADDRESS, value, Outcome.Done).0;
    var configuration := BasicAddressing(Cv(s1, DECODER_CONFIGURATION));
    var s2 := WriteCv(s1, DECODER_CONFIGURATION, configuration, Outcome.Done).0;
    WriteCvReply(s, PRIMARY_ADDRESS, value);
    WriteCvReply(s1, DECODER_CONFIGURATION, configuration);
    WriteCvReply(s2, CONSIST_ADDRESS, 0);
    CvAfterWrite(s, PRIMARY_ADDRESS, value, Outcome.Done, DECODER_CONFIGURATION);
    CvAfterWrite(s1, DECODER_CONFIGURATION, configuration, Outcome.Done, DECODER_CONFIGURATION);
    CvAfterWrite(s2, CONSIST_ADDRESS, 0, Outcome.Done, DECODER_CONFIGURATION);
    CvAfterWrite(s2, CONSIST_ADDRESS, 0, Outcome.Done, CONSIST_ADDRESS);
    PrimaryAddressWrites(s, value, [], PRIMARY_ADDRESS);
    WithoutBitFive(s.cache[28]);
  }

  lemma FactoryResetDone(defaults: seq<byte>, s: Store)
    requires Valid(s) && |defaults| == CV_SIZE
    ensures var (s', reply) := AfterFactoryReset(defaults, s, []);
      s'.cache == defaults && reply == Success(Some(Reboot))
  {
    hide AfterWrite;
    WriteEffect(s, 1, defaults, true, Outcome.Done);
    WriteReply(s, 1, defaults, true, Outcome.Done);
    assert Patched(s.cache, 1, defaults) == defaults;
  }

  /** Without flash errors a byte write is acknowledged exactly when its CV is none of 7, 8, 31 and 32
      and may hold the value, and then the CV holds it. A refused value is reported, a write to CV31 or
      32 ignored, one to CV7 reboots, having cleared CV172 for the value 7, and one to CV8 resets all
      CVs for the value 8 and is ignored otherwise. */
  lemma ByteWriteExactly(defaults: seq<byte>, s: Store, p: Packet)
    requires Valid(s) && 3 <= |p| && 124 <= p[0] <= 127 && |defaults| == CV_SIZE
    ensures var cv, (s', reply) := CvAddress(p), Execute(defaults, s, p, []);
      if cv == 31 || cv == 32 then s' == s && reply == NOTHING
      else if cv == 8 then
        if p[2] == 8 then s'.cache == defaults && reply == Success(Some(Reboot)) else s' == s && reply == NOTHING
      else if cv == 7 then
        reply == Success(Some(Reboot)) && (if p[2] == 7 then s'.cache[171] == 0xFF else s' == s)
      else if MayHold(s, cv, p[2]) then s'.cache[cv - 1] == p[2] && reply == ACKNOWLEDGE
      else s' == s && reply == Failed(PacketProblem(PacketCodec.InvalidInstruction))
  {
    hide CvAddress, InstructionCode, WriteCv, AfterPrimaryAddress, AfterFactoryReset, GuardAccepts;
    var cv := CvAddress(p);
    InstructionBits(p);
    GuardIsMayHold(s, cv, p[2]);
    CvAfterWrite(s, cv, p[2], Outcome.Done, cv);
    CvAfterWrite(s, EMF_ADC_OFFSET, 0xFF, Outcome.Done, EMF_ADC_OFFSET);
    WriteCvReply(s, cv, p[2]);
    WriteCvReply(s, EMF_ADC_OFFSET, 0xFF);
    PrimaryAddressDone(s, p[2]);
    FactoryResetDone(defaults, s);
  }

  /** Without the data byte nothing is changed; the legacy reset 7F 08 resets all CVs, a write to CV31 or
      32 is ignored and every other instruction is reported as too short or unknown. */
  lemma ShortPackets(defaults: seq<byte>, s: Store, p: Packet)
    requires Valid(s) && |p| == 2 && 112 <= p[0] <= 127 && |defaults| == CV_SIZE
    ensures var (s', reply) := Execute(defaults, s, p, []);
      if p[0] == 127 && p[1] == 8 then s'.cache == defaults && reply == Success(Some(Reboot))
      else
        && s' == s
        && reply == if p[0] < 116 then Failed(PacketProblem(PacketCodec.InvalidInstruction))
                    else if 124 <= p[0] && (CvAddress(p) == 31 || CvAddress(p) == 32) then NOTHING
                    else Failed(PacketProblem(PacketCodec.Undersize))
  {
    hide CvAddress, InstructionCode, AfterFactoryReset;
    InstructionBits(p);
    FactoryResetDone(defaults, s);
    assert p == [p[0], p[1]];
  }

  /** Instructions that do not exist: no kind of instruction, or bits other than 111 before a bit. */
  lemma UnknownInstructions(defaults: seq<byte>, s: Store, p: Packet, io: seq<Outcome>)
    requires Valid(s) && 3 <= |p| && (112 <= p[0] < 116 || (120 <= p[0] < 124 && p[2] < 0xE0))
    ensures Execute(defaults, s, p, io) == (s, Failed(PacketProblem(PacketCodec.InvalidInstruction)))
  {
    hide CvAddress, InstructionCode;
    InstructionBits(p);
  }

  // ---- when the flash fails ----

  lemma WriteCvFails(s: Store, cv: nat, value: byte, o: Outcome)
    requires Valid(s) && 1 <= cv <= CV_SIZE && !o.Done?
    ensures WriteCv(s, cv, value, o).1 == if Cv(s, cv) == value then Ok(()) else Err(FlashStore.Error.Io)
  {
    WriteReply(s, cv, [value], false, o);
    assert s.cache[cv - 1..cv] == [value] <==> s.cache[cv - 1] == value;
    hide AfterWrite;
  }

  /** A service write that changes a CV while the flash fails is reported as an error of the store. */
  lemma FlashFailureIsReported(defaults: seq<byte>, s: Store, p: Packet, o: Outcome)
    requires Valid(s) && 3 <= |p| && 124 <= p[0] <= 127 && !o.Done?
    requires var cv := CvAddress(p);
      cv != 1 && cv != 7 && cv != 8 && cv != 31 && cv != 32 && MayHold(s, cv, p[2]) && s.cache[cv - 1] != p[2]
    ensures Execute(defaults, s, p, [o]).1 == Failed(StoreProblem(FlashStore.Error.Io))
  {
    hide CvAddress, InstructionCode, WriteCv, GuardAccepts, AfterFactoryReset, AfterPrimaryAddress;
    InstructionBits(p);
    GuardIsMayHold(s, CvAddress(p), p[2]);
    WriteCvFails(s, CvAddress(p), p[2], o);
  }

  /** A new primary address stops at the first write that fails: what comes after it is not written. */
  lemma PrimaryAddressStops(s: Store, value: byte, o: Outcome, first: bool)
    requires Valid(s) && !o.Done?
    requires if first then s.cache[0] != value else s.cache[28] & 0xDF != s.cache[28]
    ensures var (s', reply) := AfterPrimaryAddress(s, value, if first then [o] else [Outcome.Done, o]);
      && reply == Failed(StoreProblem(FlashStore.Error.Io))
      && s'.cache[18] == s.cache[18]
      && (first ==> s'.cache[28] == s.cache[28])
  {
    hide WriteCv;
    var io := if first then [o] else [Outcome.Done, o];
    var s1 := WriteCv(s, PRIMARY_ADDRESS, value, io[0]).0;
    var configuration := BasicAddressing(Cv(s1, DECODER_CONFIGURATION));
    CvAfterWrite(s, PRIMARY_ADDRESS, value, io[0], DECODER_CONFIGURATION);
    CvAfterWrite(s, PRIMARY_ADDRESS, value, io[0], CONSIST_ADDRESS);
    WithoutBitFive(s.cache[28]);
    if first {
      WriteCvFails(s, PRIMARY_ADDRESS, value, o);
    } else {
      WriteCvReply(s, PRIMARY_ADDRESS, value);
      WriteCvFails(s1, DECODER_CONFIGURATION, configuration, o);
      CvAfterWrite(s1, DECODER_CONFIGURATION, configuration, o, CONSIST_ADDRESS);
    }
    hide BasicAddressing;
  }
}
