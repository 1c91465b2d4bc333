/** Decoding of raw packets, addresses and instructions (dcc/src/transport and dcc/src/lib.rs). */
module PacketCodec {
  import opened Wire
  import opened Velocity

  datatype Error = Undersize | Oversize | InvalidChecksum | InvalidAddress | InvalidInstruction

  // ---- raw packets ----

  function Xor(s: seq<byte>): byte {
    if s == [] then 0 else Xor(s[..|s| - 1]) ^ s[|s| - 1]
  }

  predicate IsExtendedAddress(first: byte) {
    192 <= first <= 231
  }

  predicate IsBasicAddress(first: byte) {
    first <= 127
  }

  /** None is the idle packet. */
  function Decode(raw: seq<byte>): (r: Result<Option<seq<byte>>, Error>)
    ensures r.Ok? && r.value.Some? ==> 2 <= |r.value.value| <= 5 && r.value.value[0] <= 231
  {
    if |raw| > 6 then Err(Oversize)
    else if |raw| < 3 then Err(Undersize)
    else if raw[0] == 0xFF then Ok(None)
    else if IsExtendedAddress(raw[0]) && |raw| < 4 then Err(Undersize)
    else if 232 <= raw[0] <= 254 then Err(InvalidAddress)
    else if Xor(raw) != 0 then Err(InvalidChecksum)
    else Ok(Some(raw[..|raw| - 1]))
  }

  predicate Accepted(raw: seq<byte>) {
    Decode(raw).Ok? && Decode(raw).value.Some?
  }

  function Protected(data: seq<byte>): seq<byte> {
    data + [Xor(data)]
  }

  /** Data followed by its checksum comes back as it was sent exactly when it has two to five bytes
      and an address this decoder knows, with a byte after a two-byte address. */
  lemma DecodeOfProtected(data: seq<byte>)
    ensures Decode(Protected(data)) == Ok(Some(data)) <==>
      2 <= |data| <= 5 && data[0] <= 231 && (192 <= data[0] ==> 3 <= |data|)
  {
    var raw := Protected(data);
    assert raw[..|raw| - 1] == data;
    assert Xor(raw) == Xor(data) ^ Xor(data) == 0;
  }

  lemma XorIsZero(x: byte, y: byte)
    ensures x ^ y == 0 <==> x == y
  {}

  lemma XorOfLast(raw: seq<byte>)
    requires raw != []
    ensures Xor(raw) == Xor(raw[..|raw| - 1]) ^ raw[|raw| - 1]
  {}

  lemma LastIsChecksum(raw: seq<byte>)
    requires raw != []
    ensures raw == Protected(raw[..|raw| - 1]) <==> raw[|raw| - 1] == Xor(raw[..|raw| - 1])
  {
    hide Xor;
    assert raw == raw[..|raw| - 1] + [raw[|raw| - 1]];
  }

  lemma ChecksumFits(raw: seq<byte>)
    requires raw != []
    ensures Xor(raw) == 0 <==> raw == Protected(raw[..|raw| - 1])
  {
    hide Xor, Protected;
    XorOfLast(raw);
    XorIsZero(Xor(raw[..|raw| - 1]), raw[|raw| - 1]);
    LastIsChecksum(raw);
  }

  /** Nothing else is accepted: every accepted packet is data of this kind followed by its checksum. */
  lemma AcceptedIsProtected(raw: seq<byte>)
    ensures Accepted(raw) <==>
      raw != [] &&
      var data := raw[..|raw| - 1];
      raw == Protected(data) && 2 <= |data| <= 5 && data[0] <= 231 && (192 <= data[0] ==> 3 <= |data|)
  {
    if raw != [] {
      ChecksumFits(raw);
      hide Xor, Protected;
    }
  }

  lemma {:induction false} XorOfUpdate(s: seq<byte>, i: nat, y: byte)
    requires i < |s|
    ensures Xor(s[i := y]) == Xor(s) ^ s[i] ^ y
    decreases |s|
  {
    var n := |s| - 1;
    if i < n {
      assert s[i := y][..n] == s[..n][i := y];
      XorOfUpdate(s[..n], i, y);
    } else {
      assert s[i := y][..n] == s[..n];
    }
  }

  lemma XorDiffers(a: byte, x: byte, y: byte)
    requires x != y
    ensures a ^ x ^ y != a
  {}

  /** No change of a single byte turns an accepted packet into another accepted packet. */
  lemma OneByteErrorIsCaught(raw: seq<byte>, i: nat, y: byte)
    requires Accepted(raw) && i < |raw| && y != raw[i]
    ensures !Accepted(raw[i := y])
  {
    XorOfUpdate(raw, i, y);
    XorDiffers(Xor(raw), raw[i], y);
  }

  // ---- addresses ----

  function ReadExtendedAddress(msb: byte, lsb: byte): bv16 {
    (((msb & 0x3F) as bv16) << 8) | (lsb as bv16)
  }

  /** The address a decoder listens to, from its CV29, CV1, CV17 and CV18. */
  function DecoderAddress(configuration: byte, primary: byte, msb: byte, lsb: byte): bv16 {
    if configuration & 0x20 != 0 then ReadExtendedAddress(msb, lsb) else primary as bv16
  }

  function Addr(data: seq<byte>): Result<bv16, Error>
    requires 0 < |data|
  {
    if IsBasicAddress(data[0]) then Ok((data[0] & 0x7F) as bv16)
    else if 2 <= |data| && IsExtendedAddress(data[0]) then Ok(ReadExtendedAddress(data[0], data[1]))
    else Err(InvalidAddress)
  }

  function AddressLength(data: seq<byte>): (r: Result<nat, Error>)
    requires 0 < |data|
    ensures r.Ok? ==> r.value <= |data|
  {
    if IsBasicAddress(data[0]) then Ok(1)
    else if 2 <= |data| && IsExtendedAddress(data[0]) then Ok(2)
    else Err(InvalidAddress)
  }

  /** The two bytes of a long address on the wire: the two top bits mark it. */
  function LongMsb(a: bv16): byte {
    (((a >> 8) | 0xC0) & 0xFF) as byte
  }

  function LongLsb(a: bv16): byte {
    (a & 0xFF) as byte
  }

  lemma LongAddressBytes(a: bv16)
    ensures !IsBasicAddress(LongMsb(a))
    ensures IsExtendedAddress(LongMsb(a)) && ReadExtendedAddress(LongMsb(a), LongLsb(a)) == a <==> a <= 10239
  {}

  /** Every long address up to 10239, and no other, reads back from the two bytes that carry it. */
  lemma LongAddressRoundTrip(a: bv16, rest: seq<byte>)
    ensures Addr([LongMsb(a), LongLsb(a)] + rest) == Ok(a) <==> a <= 10239
  {
    hide LongMsb, LongLsb, IsBasicAddress, IsExtendedAddress, ReadExtendedAddress;
    LongAddressBytes(a);
  }

  /** An address is never the broadcast address that is_broadcast looks for. */
  lemma NeverBroadcast(data: seq<byte>)
    requires 0 < |data|
    ensures Addr(data) != Ok(0xFFFF)
  {}

  // ---- instructions ----

  /** The functions a group covers and their values, function n in bit n. */
  datatype FunctionGroup = FunctionGroup(groupMask: bv32, flags: bv32)

  const FG_1: bv32 := 0x0000001F
  const FG_2_1: bv32 := 0x000001E0
  const FG_2_0: bv32 := 0x00001E00
  const FG_FEATURE_13_20: bv32 := 0x001FE000
  const FG_FEATURE_21_28: bv32 := 0x1FE00000
  const FG_FEATURE_29_31: bv32 := 0xE0000000

  function NewGroup(groupMask: bv32, flags: bv32): FunctionGroup {
    FunctionGroup(groupMask, flags & groupMask)
  }

  function Difference(a: bv32, b: bv32): bv32 {
    a & !b
  }

  function Union(a: bv32, b: bv32): bv32 {
    a | b
  }

  function UnionWithMask(g: FunctionGroup, other: bv32): bv32 {
    Union(Difference(other, g.groupMask), g.flags)
  }

  /** Function group one: bits 0 to 3 are F1 to F4 and bit 4 is F0. */
  function Fg1(instruction: byte): FunctionGroup {
    NewGroup(FG_1, (((instruction & 0x0F) as bv32) << 1) | (((instruction >> 4) & 1) as bv32))
  }

  /** Function group two: F5 to F8 or F9 to F12. */
  function Fg2(instruction: byte): FunctionGroup {
    if (instruction >> 4) & 1 == 1 then NewGroup(FG_2_1, ((instruction & 0x0F) as bv32) << 5)
    else NewGroup(FG_2_0, ((instruction & 0x0F) as bv32) << 9)
  }

  function FeatureExpansion(first: byte, second: byte): Option<FunctionGroup> {
    if first == 0xDE then Some(NewGroup(FG_FEATURE_13_20, (second as bv32) << 13))
    else if first == 0xDF then Some(NewGroup(FG_FEATURE_21_28, (second as bv32) << 21))
    else if first == 0xD8 then Some(NewGroup(FG_FEATURE_29_31, ((second & 0x07) as bv32) << 29))
    else None
  }

  method ParseFg1(instruction: byte) returns (g: FunctionGroup)
    ensures g == Fg1(instruction)
  {
    var flags: bv32 := 0;
    if instruction & 0x01 != 0 { flags := flags | 0x02; }
    if instruction & 0x02 != 0 { flags := flags | 0x04; }
    if instruction & 0x04 != 0 { flags := flags | 0x08; }
    if instruction & 0x08 != 0 { flags := flags | 0x10; }
    if instruction & 0x10 != 0 { flags := flags | 0x01; }
    g := NewGroup(FG_1, flags);
  }

  method ParseFg2(instruction: byte) returns (g: FunctionGroup)
    ensures g == Fg2(instruction)
  {
    var flags: bv32 := 0;
    var groupMask: bv32;
    if (instruction >> 4) & 1 == 1 {
      if instruction & 0x01 != 0 { flags := flags | 0x020; }
      if instruction & 0x02 != 0 { flags := flags | 0x040; }
      if instruction & 0x04 != 0 { flags := flags | 0x080; }
      if instruction & 0x08 != 0 { flags := flags | 0x100; }
      groupMask := FG_2_1;
    } else {
      if instruction & 0x01 != 0 { flags := flags | 0x0200; }
      if instruction & 0x02 != 0 { flags := flags | 0x0400; }
      if instruction & 0x04 != 0 { flags := flags | 0x0800; }
      if instruction & 0x08 != 0 { flags := flags | 0x1000; }
      groupMask := FG_2_0;
    }
    g := NewGroup(groupMask, flags);
  }

  datatype Instruction = Speed(v: VelocitySetpoint) | Functions(g: FunctionGroup)

  function SpeedBits(b: byte): (speed: byte)
    ensures speed < 128
  {
    b & 0x7F
  }

  predicate DirectionFlag(b: byte) {
    b & 0x80 != 0
  }

  function SpeedOf(b: byte): VelocitySetpoint {
    var speed := SpeedBits(b);
    VelocitySetpoint(if speed == 0 then Stop else if speed == 1 then EmergencyStop
                     else Num(speed as int - 1),
                     if DirectionFlag(b) then Forward else Reverse)
  }

  function Parse(packet: seq<byte>): Result<Instruction, Error>
    requires 0 < |packet|
  {
    match AddressLength(packet)
    case Err(e) => Err(e)
    case Ok(n) =>
      var data := packet[n..];
      if data == [] then Err(Undersize)
      else
        var kind := data[0] >> 5;
        if kind == 1 && data[0] & 0x1F == 0x1F then
          if |data| < 2 then Err(Undersize) else Ok(Speed(SpeedOf(data[1])))
        else if kind == 4 then Ok(Functions(Fg1(data[0])))
        else if kind == 5 then Ok(Functions(Fg2(data[0])))
        else if kind == 6 then
          if |data| < 2 then Err(Undersize)
          else (match FeatureExpansion(data[0], data[1])
                case None => Err(InvalidInstruction)
                case Some(g) => Ok(Functions(g)))
        else Err(InvalidInstruction)
  }

  lemma SameValue(a: byte, b: byte)
    requires a as int == b as int
    ensures a == b
  {}

  lemma SameParts(a: byte, b: byte)
    requires (a & 0x80 == 0) == (b & 0x80 == 0) && a & 0x7F == b & 0x7F
    ensures a == b
  {}

  /** Every speed byte means a different speed and direction, and steps reach 126. */
  lemma SpeedsAreDistinct(a: byte, b: byte)
    requires SpeedOf(a) == SpeedOf(b)
    ensures a == b
    ensures Idx(SpeedOf(a).speedStep) <= TOP_STEP
    ensures SpeedOf(a).speedStep.Num? ==> 1 <= SpeedOf(a).speedStep.n
  {
    if SpeedOf(a).speedStep.Num? {
      SameValue(a & 0x7F, b & 0x7F);
    }
    assert (a & 0x80 == 0) == (b & 0x80 == 0);
    assert a & 0x7F == b & 0x7F;
    SameParts(a, b);
  }

  /** What becomes of every raw packet, by its length, first byte and checksum. */
  lemma DecodeExactly(raw: seq<byte>)
    ensures Decode(raw) == Err(Oversize) <==> 7 <= |raw|
    ensures Decode(raw) == Err(Undersize) <==> |raw| <= 2 || (|raw| == 3 && 192 <= raw[0] <= 231)
    ensures Decode(raw) == Ok(None) <==> 3 <= |raw| <= 6 && raw[0] == 255
    ensures Decode(raw) == Err(InvalidAddress) <==> 3 <= |raw| <= 6 && 232 <= raw[0] <= 254
    ensures Decode(raw) == Err(InvalidChecksum) <==>
      3 <= |raw| <= 6 && raw[0] <= 231 && (192 <= raw[0] ==> 4 <= |raw|) && raw[|raw| - 1] != Xor(raw[..|raw| - 1])
  {
    hide Xor, Protected;
    if raw != [] {
      ChecksumFits(raw);
      LastIsChecksum(raw);
    }
  }
}
