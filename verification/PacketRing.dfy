/** The ring of received packets that the signal interrupt fills and the main loop of core0.c
    empties. */
module PacketRing {
  import opened Wire
  import opened ShiftRegister
  import opened Framing

  const RING_BUFFER_PACKETS := 8
  const RING_BUFFER_BYTES := 5

  /** The largest value of a 32-bit size_t. */
  const INVALID_PACKAGE := 0xFFFF_FFFF

  datatype Packet = Packet(data: seq<byte>, length: nat)

  predicate ValidPacket(p: Packet) {
    |p.data| == RING_BUFFER_BYTES
  }

  /** The bytes that count: the first `length` of the slot. */
  function Content(p: Packet): seq<byte>
    requires ValidPacket(p)
  {
    if p.length <= RING_BUFFER_BYTES then p.data[..p.length] else []
  }

  datatype Ring = Ring(buffer: bv64, packets: seq<Packet>, wr: nat, rd: nat)

  predicate ValidRing(r: Ring) {
    && |r.packets| == RING_BUFFER_PACKETS
    && (forall i :: 0 <= i < RING_BUFFER_PACKETS ==> ValidPacket(r.packets[i]))
    && r.wr < RING_BUFFER_PACKETS && r.rd < RING_BUFFER_PACKETS
  }

  function Increment(idx: nat): nat {
    (idx + 1) % RING_BUFFER_PACKETS
  }

  /** The interrupt: shift one bit in, note in the slot at the write index what was detected, and
      move on when that is a packet. */
  function AfterBit(r: Ring, bit: bool): (r': Ring)
    requires ValidRing(r)
    ensures ValidRing(r')
  {
    var b := ShiftIn(r.buffer, bit);
    match Received(b)
    case None =>
      Ring(b, r.packets[r.wr := r.packets[r.wr].(length := INVALID_PACKAGE)], r.wr, r.rd)
    case Some(bytes) =>
      var p := Packet(bytes + r.packets[r.wr].data[|bytes|..], |bytes|);
      Ring(b, r.packets[r.wr := p], Increment(r.wr), r.rd)
  }

  /** core0.c's globals. The two index fields and the slots are updated in place. */
  class Core0 {
    var inputBitBuffer: bv64
    var packets: array<Packet>
    var wrIdx: nat
    var rdIdx: nat

    ghost function Model(): Ring
      reads this, packets
    {
      Ring(inputBitBuffer, packets[..], wrIdx, rdIdx)
    }

    ghost predicate Valid()
      reads this, packets
    {
      ValidRing(Model())
    }

    constructor ()
      ensures Valid() && fresh(packets)
      ensures Model() == Ring(0, seq(RING_BUFFER_PACKETS, _ => Packet([0, 0, 0, 0, 0], 0)), 0, 0)
    {
      inputBitBuffer, wrIdx, rdIdx := 0, 0, 0;
      packets := new Packet[RING_BUFFER_PACKETS](_ => Packet([0, 0, 0, 0, 0], 0));
    }

    method DetectDccPacket() returns (n: nat)
      ensures n == match Detect(inputBitBuffer) case None => INVALID_PACKAGE case Some(k) => k
    {
      MasksExclusive(inputBitBuffer, 3, 4);
      n := INVALID_PACKAGE;
      if inputBitBuffer & MESSAGE_MASK_3_BYTES == MESSAGE_3_BYTES { n := 3; }
      if inputBitBuffer & MESSAGE_MASK_4_BYTES == MESSAGE_4_BYTES { n := 4; }
      if inputBitBuffer & MESSAGE_MASK_5_BYTES == MESSAGE_5_BYTES { n := 5; }
    }

    method BitsToDccPacketData(p: Packet) returns (q: Packet)
      requires ValidPacket(p) && p.length <= RING_BUFFER_BYTES
      ensures q == Packet(ReadBytes(inputBitBuffer, p.length) + p.data[p.length..], p.length)
    {
      q := p;
      for i := 0 to p.length
        invariant q.length == p.length && ValidPacket(q)
        invariant q.data[..i] == ReadBytes(inputBitBuffer, i)
        invariant q.data[i..] == p.data[i..]
      {
        ghost var before := q.data;
        q := q.(data := q.data[i := ByteAt(inputBitBuffer, i)]);
        assert q.data[..i + 1] == before[..i] + [ByteAt(inputBitBuffer, i)];
        assert q.data[i + 1..] == before[i..][1..];
      }
      assert q.data == q.data[..p.length] + q.data[p.length..];
    }

    method ShiftBit(bit: bool)
      modifies this`inputBitBuffer
      ensures inputBitBuffer == ShiftIn(old(inputBitBuffer), bit)
    {
      var b := inputBitBuffer << 1;
      b := b | (if bit then 1 else 0);
      inputBitBuffer := b;
    }

    /** The falling edge: one bit arrives. */
    method TrackSignalFall(highUs: int)
      requires Valid()
      modifies this, packets
      ensures Valid() && packets == old(packets)
      ensures Model() == AfterBit(old(Model()), BitOfHalfWave(highUs))
    {
      var bit := true;
      if highUs > ZERO_BIT_THRESHOLD_US { bit := false; }
      ShiftBit(bit);
      var n := DetectDccPacket();
      packets[wrIdx] := packets[wrIdx].(length := n);
      if packets[wrIdx].length != INVALID_PACKAGE {
        var p := BitsToDccPacketData(packets[wrIdx]);
        packets[wrIdx] := p;
        wrIdx := (wrIdx + 1) % RING_BUFFER_PACKETS;
      }
    }

    /** One pass of the main loop, when no interrupt falls into it: the oldest packet, if the two
        indices differ. */
    method Poll() returns (p: Option<Packet>)
      requires Valid()
      modifies this`rdIdx
      ensures Valid()
      ensures if old(rdIdx) == wrIdx then p.None? && rdIdx == old(rdIdx)
              else p == Some(packets[old(rdIdx)]) && rdIdx == Increment(old(rdIdx))
    {
      p := None;
      if wrIdx != rdIdx {
        p := Some(packets[rdIdx]);
        rdIdx := (rdIdx + 1) % RING_BUFFER_PACKETS;
      }
    }
  }

  // ---- interrupt and main loop interleaved ----

  /** The main loop is preempted anywhere, so evaluating a packet has a beginning and an end.
      `seen` is the slot at the beginning of the evaluation under way, `delivered` what was read
      by the end of each one. */
  datatype System = System(ring: Ring, seen: Option<Packet>, delivered: seq<seq<byte>>)

  datatype Step = Bit(bit: bool) | Begin | End

  function Next(s: System, step: Step): (s': System)
    requires ValidRing(s.ring)
    ensures ValidRing(s'.ring)
  {
    match step
    case Bit(x) => s.(ring := AfterBit(s.ring, x))
    case Begin =>
      if s.seen.None? && s.ring.wr != s.ring.rd then s.(seen := Some(s.ring.packets[s.ring.rd])) else s
    case End =>
      if s.seen.None? then s
      else System(s.ring.(rd := Increment(s.ring.rd)), None,
                  s.delivered + [Content(s.ring.packets[s.ring.rd])])
  }

  function Start(b: bv64): (s: System)
    ensures ValidRing(s.ring)
  {
    System(Ring(b, seq(RING_BUFFER_PACKETS, _ => Packet([0, 0, 0, 0, 0], 0)), 0, 0), None, [])
  }

  function Run(b: bv64, steps: seq<Step>): (s: System)
    ensures ValidRing(s.ring)
  {
    if steps == [] then Start(b) else Next(Run(b, steps[..|steps| - 1]), steps[|steps| - 1])
  }

  function BitsOf(steps: seq<Step>): seq<bool> {
    if steps == [] then []
    else
      var rest := BitsOf(steps[..|steps| - 1]);
      match steps[|steps| - 1]
      case Bit(x) => rest + [x]
      case _ => rest
  }

  /** What was framed in a sequence of bits, whoever reads it. */
  function Frames(b: bv64, bits: seq<bool>): seq<seq<byte>> {
    if bits == [] then []
    else
      var rest := Frames(b, bits[..|bits| - 1]);
      match Received(ShiftAll(b, bits))
      case None => rest
      case Some(bytes) => rest + [bytes]
  }

  function Outstanding(b: bv64, steps: seq<Step>): int {
    |Frames(b, BitsOf(steps))| - |Run(b, steps).delivered|
  }

  /** At no time are more than seven packets outstanding. */
  predicate NeverFull(b: bv64, steps: seq<Step>) {
    (steps != [] ==> NeverFull(b, steps[..|steps| - 1])) && Outstanding(b, steps) < RING_BUFFER_PACKETS
  }

  ghost predicate Fifo(s: System, framed: seq<seq<byte>>) {
    var d, f := |s.delivered|, |framed|;
    && ValidRing(s.ring)
    && d <= f < d + RING_BUFFER_PACKETS
    && s.delivered == framed[..d]
    && s.ring.rd == d % RING_BUFFER_PACKETS && s.ring.wr == f % RING_BUFFER_PACKETS
    && (forall j :: d <= j < f ==> framed[j] != [] && Content(s.ring.packets[j % RING_BUFFER_PACKETS]) == framed[j])
    && (s.seen.Some? ==> d < f && s.seen.value == s.ring.packets[s.ring.rd])
  }

  lemma NearbySlots(j: nat, f: nat)
    requires j < f < j + RING_BUFFER_PACKETS
    ensures j % RING_BUFFER_PACKETS != f % RING_BUFFER_PACKETS
  {}

  lemma SlotsRepeat(d: nat)
    ensures d % RING_BUFFER_PACKETS == (d + RING_BUFFER_PACKETS) % RING_BUFFER_PACKETS
  {}

  /** The slot the interrupt writes holds an unread packet exactly when eight are outstanding. */
  lemma WriteSlotIsUnread(d: nat, f: nat)
    requires d <= f <= d + RING_BUFFER_PACKETS
    ensures (exists j :: d <= j < f && j % RING_BUFFER_PACKETS == f % RING_BUFFER_PACKETS) <==>
            f == d + RING_BUFFER_PACKETS
  {
    forall j: nat | d <= j < f && f < j + RING_BUFFER_PACKETS
      ensures j % RING_BUFFER_PACKETS != f % RING_BUFFER_PACKETS
    {
      NearbySlots(j, f);
    }
    if f == d + RING_BUFFER_PACKETS {
      SlotsRepeat(d);
    }
  }

  /** Writing that slot leaves the unread ones alone, as long as fewer than eight are unread. */
  lemma OtherSlots(s: System, framed: seq<seq<byte>>, p: Packet)
    requires Fifo(s, framed) && ValidPacket(p)
    ensures var packets := s.ring.packets[s.ring.wr := p];
      forall j :: |s.delivered| <= j < |framed| ==>
        packets[j % RING_BUFFER_PACKETS] == s.ring.packets[j % RING_BUFFER_PACKETS]
  {
    WriteSlotIsUnread(|s.delivered|, |framed|);
  }

  /** An interrupt changes the slot at the write index and nothing else. */
  lemma AfterBitSlot(r: Ring, x: bool)
    requires ValidRing(r)
    ensures var r' := AfterBit(r, x);
      && r'.packets == r.packets[r.wr := r'.packets[r.wr]] && r'.rd == r.rd
      && match Received(ShiftIn(r.buffer, x)) {
           case None => r'.wr == r.wr && r'.packets[r.wr].length == INVALID_PACKAGE
           case Some(bytes) => r'.wr == Increment(r.wr) && bytes != [] && Content(r'.packets[r.wr]) == bytes
         }
  {}

  /** A ring with the same indices and the same unread slots is as good. */
  lemma UnreadKeepsFifo(s: System, framed: seq<seq<byte>>, r: Ring)
    requires Fifo(s, framed) && ValidRing(r) && r.rd == s.ring.rd && r.wr == s.ring.wr
    requires forall j :: |s.delivered| <= j < |framed| ==>
      r.packets[j % RING_BUFFER_PACKETS] == s.ring.packets[j % RING_BUFFER_PACKETS]
    ensures Fifo(s.(ring := r), framed)
  {
    hide Content;
    if s.seen.Some? {
      assert r.packets[|s.delivered| % RING_BUFFER_PACKETS] == s.seen.value;
    }
  }

  lemma IncrementCounts(n: nat)
    ensures Increment(n % RING_BUFFER_PACKETS) == (n + 1) % RING_BUFFER_PACKETS
  {}

  /** Moving the write index on publishes the slot it pointed to. */
  lemma PublishKeepsFifo(s: System, framed: seq<seq<byte>>, bytes: seq<byte>)
    requires Fifo(s, framed) && |framed| + 1 < |s.delivered| + RING_BUFFER_PACKETS
    requires bytes != [] && Content(s.ring.packets[s.ring.wr]) == bytes
    ensures Fifo(s.(ring := s.ring.(wr := Increment(s.ring.wr))), framed + [bytes])
  {
    hide Content;
    IncrementCounts(|framed|);
  }

  lemma BitKeepsFifo(s: System, framed: seq<seq<byte>>, x: bool)
    requires Fifo(s, framed)
    requires Received(ShiftIn(s.ring.buffer, x)).Some? ==> |framed| + 1 < |s.delivered| + RING_BUFFER_PACKETS
    ensures Fifo(Next(s, Bit(x)),
                 match Received(ShiftIn(s.ring.buffer, x)) case None => framed case Some(bytes) => framed + [bytes])
  {
    var r' := AfterBit(s.ring, x);
    AfterBitSlot(s.ring, x);
    OtherSlots(s, framed, r'.packets[s.ring.wr]);
    UnreadKeepsFifo(s, framed, r'.(wr := s.ring.wr));
    if r'.wr != s.ring.wr {
      PublishKeepsFifo(s.(ring := r'.(wr := s.ring.wr)), framed, Content(r'.packets[s.ring.wr]));
    }
  }

  lemma ReaderKeepsFifo(s: System, framed: seq<seq<byte>>, step: Step)
    requires Fifo(s, framed) && !step.Bit?
    ensures Fifo(Next(s, step), framed)
  {
    hide Content;
    IncrementCounts(|s.delivered|);
    if step.End? && s.seen.Some? {
      assert Content(s.ring.packets[|s.delivered| % RING_BUFFER_PACKETS]) == framed[|s.delivered|];
    }
  }

  lemma NextBuffer(s: System, step: Step)
    requires ValidRing(s.ring)
    ensures Next(s, step).ring.buffer == if step.Bit? then ShiftIn(s.ring.buffer, step.bit) else s.ring.buffer
  {}

  lemma ShiftAllSnoc(b: bv64, bits: seq<bool>, x: bool)
    ensures ShiftAll(b, bits + [x]) == ShiftIn(ShiftAll(b, bits), x)
  {
    assert (bits + [x])[..|bits|] == bits;
  }

  lemma {:induction false} RunBuffer(b: bv64, steps: seq<Step>)
    ensures Run(b, steps).ring.buffer == ShiftAll(b, BitsOf(steps))
  {
    if steps != [] {
      var init, step := steps[..|steps| - 1], steps[|steps| - 1];
      RunBuffer(b, init);
      NextBuffer(Run(b, init), step);
      if step.Bit? {
        ShiftAllSnoc(b, BitsOf(init), step.bit);
      }
    }
  }

  lemma FramesSnoc(b: bv64, bits: seq<bool>, len: nat)
    requires 0 < len <= |bits|
    ensures Frames(b, bits[..len]) == Frames(b, bits[..len - 1]) +
      match Received(ShiftAll(b, bits[..len])) case None => [] case Some(bytes) => [bytes]
  {
    assert bits[..len][..len - 1] == bits[..len - 1];
  }

  lemma FifoMeansPrefix(s: System, framed: seq<seq<byte>>)
    requires Fifo(s, framed)
    ensures s.delivered <= framed
    ensures s.ring.rd == s.ring.wr ==> s.delivered == framed
  {}

  /** Under every interleaving that never lets eight packets wait, the packets delivered are a
      prefix of the packets framed, in order, each as it was framed; and no slot changes while it
      is evaluated. */
  lemma {:induction false} RingIsFifo(b: bv64, steps: seq<Step>)
    requires NeverFull(b, steps)
    ensures Fifo(Run(b, steps), Frames(b, BitsOf(steps)))
  {
    if steps != [] {
      var init, step := steps[..|steps| - 1], steps[|steps| - 1];
      RingIsFifo(b, init);
      RunBuffer(b, init);
      if step.Bit? {
        assert BitsOf(steps)[..|BitsOf(steps)| - 1] == BitsOf(init);
        BitKeepsFifo(Run(b, init), Frames(b, BitsOf(init)), step.bit);
      } else {
        ReaderKeepsFifo(Run(b, init), Frames(b, BitsOf(init)), step);
      }
    }
  }

  /** The reader can tell from the two indices whether packets wait, after every step of a run. */
  predicate IndicesTell(b: bv64, steps: seq<Step>) {
    && (steps != [] ==> IndicesTell(b, steps[..|steps| - 1]))
    && (Run(b, steps).ring.rd == Run(b, steps).ring.wr <==> Outstanding(b, steps) == 0)
  }

  lemma EqualIndices(s: System, framed: seq<seq<byte>>)
    requires Fifo(s, framed)
    ensures s.ring.rd == s.ring.wr <==> |framed| == |s.delivered|
  {}

  /** The eighth outstanding packet makes the ring look empty. */
  lemma EighthLooksEmpty(s: System, framed: seq<seq<byte>>, x: bool)
    requires Fifo(s, framed) && |framed| + 1 == |s.delivered| + RING_BUFFER_PACKETS
    requires Received(ShiftIn(s.ring.buffer, x)).Some?
    ensures var s1 := Next(s, Bit(x)); s1.ring.wr == s1.ring.rd && s1.delivered == s.delivered
  {
    AfterBitSlot(s.ring, x);
    IncrementCounts(|framed|);
  }

  lemma LastStepStaysBelow(b: bv64, steps: seq<Step>)
    requires steps != [] && NeverFull(b, steps[..|steps| - 1])
    requires Run(b, steps).ring.rd == Run(b, steps).ring.wr <==> Outstanding(b, steps) == 0
    ensures Outstanding(b, steps) < RING_BUFFER_PACKETS
  {
    hide Fifo, Received, Content;
    var init, step := steps[..|steps| - 1], steps[|steps| - 1];
    var s, framed := Run(b, init), Frames(b, BitsOf(init));
    RingIsFifo(b, init);
    RunBuffer(b, init);
    if step.Bit? {
      assert BitsOf(steps)[..|BitsOf(steps)| - 1] == BitsOf(init);
      ShiftAllSnoc(b, BitsOf(init), step.bit);
      if Received(ShiftIn(s.ring.buffer, step.bit)).Some? && |framed| + 1 == |s.delivered| + RING_BUFFER_PACKETS {
        EighthLooksEmpty(s, framed, step.bit);
      }
    }
  }

  /** Seven is the exact capacity: the reader can tell throughout a run whether packets wait exactly
      when there are never eight. */
  lemma {:induction false} CapacityExactly(b: bv64, steps: seq<Step>)
    ensures NeverFull(b, steps) <==> IndicesTell(b, steps)
  {
    if steps != [] {
      CapacityExactly(b, steps[..|steps| - 1]);
    }
    if NeverFull(b, steps) {
      RingIsFifo(b, steps);
      EqualIndices(Run(b, steps), Frames(b, BitsOf(steps)));
    } else if steps != [] && NeverFull(b, steps[..|steps| - 1]) && IndicesTell(b, steps) {
      LastStepStaysBelow(b, steps);
    }
    hide Run, Frames, Fifo;
  }

  lemma OldestHasLength(s: System, framed: seq<seq<byte>>)
    requires Fifo(s, framed) && |s.delivered| < |framed|
    ensures s.ring.packets[s.ring.rd].length != INVALID_PACKAGE
  {
    assert framed[|s.delivered|] != [];
  }

  /** What the eighth does: the reader, if it is idle, sees nothing to read, and the next bit that ends
      no packet destroys the length of the oldest unread one, even while that is being evaluated. */
  lemma EighthPacketLosesTheOldest(s: System, framed: seq<seq<byte>>, x: bool, y: bool)
    requires Fifo(s, framed) && |framed| + 1 == |s.delivered| + RING_BUFFER_PACKETS
    requires Received(ShiftIn(s.ring.buffer, x)).Some?
    ensures var s1 := Next(s, Bit(x));
      && (s.seen.None? ==> Next(s1, Begin) == s1)
      && (Received(ShiftIn(s1.ring.buffer, y)).None? ==>
            var s2 := Next(s1, Bit(y));
            && s2.ring.rd == s.ring.rd && s2.seen == s.seen
            && s2.ring.packets[s2.ring.rd].length == INVALID_PACKAGE
            && (s.seen.Some? ==> s2.ring.packets[s2.ring.rd] != s2.seen.value))
  {
    hide Content, Received;
    EighthLooksEmpty(s, framed, x);
    var s1 := Next(s, Bit(x));
    AfterBitSlot(s.ring, x);
    AfterBitSlot(s1.ring, y);
    OldestHasLength(s, framed);
  }

  // ---- from the track to the reader ----

  /** The messages of a stream the firmware can receive, each last byte first. */
  function Payloads(ms: seq<Message>): seq<seq<byte>> {
    if ms == [] then []
    else
      var bytes := ms[|ms| - 1].bytes;
      Payloads(ms[..|ms| - 1]) + if 3 <= |bytes| <= 5 then [Reverse(bytes)] else []
  }

  /** The reports due after the first `from` and up to the first `len` bits of a stream. */
  function Reports(ms: seq<Message>, from: nat, len: nat): seq<seq<byte>>
    requires from <= len
    decreases len
  {
    if len == from then []
    else
      Reports(ms, from, len - 1) + match Expected(ms, len) case None => [] case Some(bytes) => [bytes]
  }

  lemma {:induction false} FramesAreReports(b: bv64, ms: seq<Message>, len: nat)
    requires ms != [] && (forall m :: m in ms ==> WellFormed(m))
    requires ms[0].preamble <= len <= |Stream(ms)|
    ensures Frames(b, Stream(ms)[..len]) ==
            Frames(b, Stream(ms)[..ms[0].preamble]) + Reports(ms, ms[0].preamble, len)
  {
    hide Frames, Received, Expected, ShiftAll, Stream, WellFormed, Matches;
    if ms[0].preamble < len {
      FramesAreReports(b, ms, len - 1);
      FramingIsExact(b, ms, len);
      FramesSnoc(b, Stream(ms), len);
    }
  }

  lemma {:induction false} ReportsOfPrefix(ms: seq<Message>, from: nat, len: nat)
    requires ms != [] && from <= len <= |Stream(ms[..|ms| - 1])|
    ensures Reports(ms, from, len) == Reports(ms[..|ms| - 1], from, len)
    decreases len
  {
    if from < len {
      ReportsOfPrefix(ms, from, len - 1);
    }
  }

  lemma ExpectedInLast(ms: seq<Message>, len: nat)
    requires ms != [] && |Stream(ms[..|ms| - 1])| < len <= |Stream(ms)|
    ensures Expected(ms, len) ==
      var bytes := ms[|ms| - 1].bytes;
      if len == |Stream(ms)| && 3 <= |bytes| <= 5 then Some(Reverse(bytes)) else None
  {
    hide Stream;
    assert Expected(ms[..|ms| - 1], len).None?;
  }

  lemma {:induction false} ReportsInLast(ms: seq<Message>, from: nat, len: nat)
    requires ms != [] && |Stream(ms[..|ms| - 1])| <= from <= len <= |Stream(ms)|
    ensures Reports(ms, from, len) ==
      var bytes := ms[|ms| - 1].bytes;
      if from < len == |Stream(ms)| && 3 <= |bytes| <= 5 then [Reverse(bytes)] else []
    decreases len
  {
    hide Expected, Stream;
    if from < len {
      ReportsInLast(ms, from, len - 1);
      ExpectedInLast(ms, len);
    }
  }

  lemma {:induction false} ReportsSplit(ms: seq<Message>, from: nat, mid: nat, len: nat)
    requires from <= mid <= len
    ensures Reports(ms, from, len) == Reports(ms, from, mid) + Reports(ms, mid, len)
    decreases len
  {
    if mid < len {
      ReportsSplit(ms, from, mid, len - 1);
    }
  }

  lemma {:induction false} ReportsArePayloads(ms: seq<Message>)
    requires ms != [] && (forall m :: m in ms ==> WellFormed(m))
    ensures ms[0].preamble <= |Stream(ms)|
    ensures Reports(ms, ms[0].preamble, |Stream(ms)|) == Payloads(ms)
  {
    var init := ms[..|ms| - 1];
    StreamLonger(ms);
    if init == [] {
      ReportsInLast(ms, ms[0].preamble, |Stream(ms)|);
    } else {
      ReportsArePayloads(init);
      ReportsOfPrefix(ms, ms[0].preamble, |Stream(init)|);
      ReportsInLast(ms, |Stream(init)|, |Stream(ms)|);
      ReportsSplit(ms, ms[0].preamble, |Stream(init)|, |Stream(ms)|);
    }
  }

  lemma OnesSplit(j: nat, k: nat)
    requires j <= k
    ensures Ones(k) == Ones(j) + Ones(k - j)
  {}

  lemma NoSecondPacket(b: bv64, j: nat, k: nat)
    requires j < k && Received(ShiftAll(b, Ones(j))).Some?
    ensures Received(ShiftAll(b, Ones(k))).None?
  {
    hide FrameAt, ShiftAll, ReadBytes, Ones;
    ReceivedIsFrame(b, Ones(j));
    OnesSplit(j, k);
    var w := History(b) + Ones(j);
    assert History(b) + Ones(k) == w + Ones(k - j);
    if Detect(ShiftAll(b, Ones(k))).Some? {
      ReceivedIsFrame(b, Ones(k));
      NoFrameAfterOnes(w, Detect(ShiftAll(b, Ones(j))).value, k - j, Detect(ShiftAll(b, Ones(k))).value);
    }
  }

  /** A run of ones frames at most one packet, whatever was in the register. */
  lemma {:induction false} OnesFrameOnce(b: bv64, k: nat)
    ensures |Frames(b, Ones(k))| <= 1
    ensures Frames(b, Ones(k)) != [] ==> exists j: nat :: j <= k && Received(ShiftAll(b, Ones(j))).Some?
  {
    hide Received, ShiftAll;
    if k > 0 {
      OnesFrameOnce(b, k - 1);
      assert Ones(k)[..k - 1] == Ones(k - 1);
      if Frames(b, Ones(k - 1)) != [] {
        var j: nat :| j <= k - 1 && Received(ShiftAll(b, Ones(j))).Some?;
        NoSecondPacket(b, j, k);
      }
    }
  }

  lemma {:induction false} StreamBegins(ms: seq<Message>)
    requires ms != []
    ensures ms[0].preamble <= |Stream(ms)| && Stream(ms)[..ms[0].preamble] == Ones(ms[0].preamble)
  {
    if 1 < |ms| {
      StreamBegins(ms[..|ms| - 1]);
    }
  }

  /** End to end: whatever was in the register, apart from one packet that the noise before the first
      start bit may have framed, the packets delivered are the messages of three to five bytes that were
      sent, in order, none lost, none invented, as far as the reader has come. */
  lemma SentIsDelivered(b: bv64, ms: seq<Message>, steps: seq<Step>)
    requires ms != [] && (forall m :: m in ms ==> WellFormed(m))
    requires NeverFull(b, steps) && BitsOf(steps) == Stream(ms)
    ensures ms[0].preamble <= |Stream(ms)|
    ensures |Frames(b, Stream(ms)[..ms[0].preamble])| <= 1
    ensures Run(b, steps).delivered <= Frames(b, Stream(ms)[..ms[0].preamble]) + Payloads(ms)
    ensures Run(b, steps).ring.rd == Run(b, steps).ring.wr ==>
      Run(b, steps).delivered == Frames(b, Stream(ms)[..ms[0].preamble]) + Payloads(ms)
  {
    StreamBegins(ms);
    OnesFrameOnce(b, ms[0].preamble);
    RingIsFifo(b, steps);
    FifoMeansPrefix(Run(b, steps), Frames(b, BitsOf(steps)));
    ReportsArePayloads(ms);
    FramesAreReports(b, ms, |Stream(ms)|);
    assert Stream(ms)[..|Stream(ms)|] == Stream(ms);
  }

  // ---- a reader that does not keep up ----

  /** The interrupts of a sequence of bits, with the main loop busy elsewhere. */
  function OnlyBits(bits: seq<bool>): seq<Step> {
    if bits == [] then [] else OnlyBits(bits[..|bits| - 1]) + [Bit(bits[|bits| - 1])]
  }

  lemma NothingYet(b: bv64)
    ensures BitsOf([]) == [] && Run(b, []).delivered == []
  {}

  lemma OneMoreBit(b: bv64, steps: seq<Step>, x: bool)
    ensures BitsOf(steps + [Bit(x)]) == BitsOf(steps) + [x]
    ensures Run(b, steps + [Bit(x)]).delivered == Run(b, steps).delivered
  {
    hide AfterBit;
    assert (steps + [Bit(x)])[..|steps|] == steps;
  }

  lemma {:induction false} NothingDelivered(b: bv64, bits: seq<bool>)
    ensures BitsOf(OnlyBits(bits)) == bits && Run(b, OnlyBits(bits)).delivered == []
  {
    hide BitsOf, Run;
    if bits == [] {
      NothingYet(b);
    } else {
      var init, x := bits[..|bits| - 1], bits[|bits| - 1];
      NothingDelivered(b, init);
      OneMoreBit(b, OnlyBits(init), x);
    }
  }

  lemma {:induction false} PayloadsOfReceivable(ms: seq<Message>)
    requires forall m :: m in ms ==> 3 <= |m.bytes| <= 5
    ensures |Payloads(ms)| == |ms|
  {
    if ms != [] {
      PayloadsOfReceivable(ms[..|ms| - 1]);
    }
  }

  /** Eight messages the firmware can receive fill the ring, if the main loop takes none of them. */
  lemma EightMessagesFill(b: bv64, ms: seq<Message>)
    requires RING_BUFFER_PACKETS <= |ms| && (forall m :: m in ms ==> WellFormed(m) && 3 <= |m.bytes| <= 5)
    ensures !NeverFull(b, OnlyBits(Stream(ms)))
  {
    hide Frames, Stream, Run, OnlyBits, Payloads;
    StreamBegins(ms);
    NothingDelivered(b, Stream(ms));
    FramesAreReports(b, ms, |Stream(ms)|);
    ReportsArePayloads(ms);
    PayloadsOfReceivable(ms);
    assert Stream(ms)[..|Stream(ms)|] == Stream(ms);
  }

  // ---- a reader that catches up ----

  /** k evaluations, one after another. */
  function Evaluations(k: nat): seq<Step> {
    if k == 0 then [] else Evaluations(k - 1) + [Begin, End]
  }

  /** The main loop takes the oldest packet, whether its evaluation had begun or not. */
  lemma EvaluationDelivers(s: System, framed: seq<seq<byte>>)
    requires Fifo(s, framed) && |s.delivered| < |framed|
    ensures var t := Next(Next(s, Begin), End);
      && Fifo(t, framed) && t.delivered == s.delivered + [framed[|s.delivered|]]
      && t.ring.packets == s.ring.packets && t.ring.wr == s.ring.wr && t.ring.buffer == s.ring.buffer
  {
    hide Content;
    EqualIndices(s, framed);
    ReaderKeepsFifo(s, framed, Begin);
    ReaderKeepsFifo(Next(s, Begin), framed, End);
    assert Content(s.ring.packets[|s.delivered| % RING_BUFFER_PACKETS]) == framed[|s.delivered|];
  }

  lemma RunEvaluates(b: bv64, steps: seq<Step>)
    ensures Run(b, steps + [Begin, End]) == Next(Next(Run(b, steps), Begin), End)
    ensures BitsOf(steps + [Begin, End]) == BitsOf(steps)
  {
    hide Next;
    assert (steps + [Begin, End])[..|steps| + 1] == steps + [Begin];
    assert (steps + [Begin])[..|steps|] == steps;
  }

  lemma FifoPrefix(s: System, framed: seq<seq<byte>>)
    requires Fifo(s, framed)
    ensures |s.delivered| <= |framed| && s.delivered == framed[..|s.delivered|]
  {}

  lemma RunDelivers(b: bv64, steps: seq<Step>, framed: seq<seq<byte>>)
    requires Fifo(Run(b, steps), framed) && |Run(b, steps).delivered| < |framed|
    ensures Fifo(Run(b, steps + [Begin, End]), framed)
    ensures Run(b, steps + [Begin, End]).delivered == framed[..|Run(b, steps).delivered| + 1]
    ensures BitsOf(steps + [Begin, End]) == BitsOf(steps)
  {
    hide Run, Fifo, BitsOf, Next;
    EvaluationDelivers(Run(b, steps), framed);
    FifoPrefix(Run(b, steps), framed);
    RunEvaluates(b, steps);
  }

  /** As many evaluations as packets are outstanding deliver them all. */
  lemma {:induction false} ReaderCatchesUp(b: bv64, steps: seq<Step>, k: nat)
    requires NeverFull(b, steps) && k <= Outstanding(b, steps)
    ensures var framed, t := Frames(b, BitsOf(steps)), Run(b, steps + Evaluations(k));
      && Fifo(t, framed) && t.delivered == framed[..|Run(b, steps).delivered| + k]
      && BitsOf(steps + Evaluations(k)) == BitsOf(steps)
  {
    hide Run, Frames, Fifo, BitsOf, NeverFull, Next, Content;
    var framed := Frames(b, BitsOf(steps));
    if k == 0 {
      RingIsFifo(b, steps);
      assert steps + Evaluations(0) == steps;
      FifoPrefix(Run(b, steps), framed);
    } else {
      assert steps + Evaluations(k) == steps + Evaluations(k - 1) + [Begin, End];
      ReaderCatchesUp(b, steps, k - 1);
      RunDelivers(b, steps + Evaluations(k - 1), framed);
    }
  }

  /** End to end, with a reader that catches up in the end: exactly the messages sent are delivered, after
      at most one packet out of the noise. */
  lemma AllSentIsDelivered(b: bv64, ms: seq<Message>, steps: seq<Step>)
    requires ms != [] && (forall m :: m in ms ==> WellFormed(m))
    requires NeverFull(b, steps) && BitsOf(steps) == Stream(ms)
    ensures ms[0].preamble <= |Stream(ms)| && 0 <= Outstanding(b, steps)
    ensures var noise := Frames(b, Stream(ms)[..ms[0].preamble]);
      |noise| <= 1 && Run(b, steps + Evaluations(Outstanding(b, steps))).delivered == noise + Payloads(ms)
  {
    hide Run, Fifo, NeverFull, Evaluations;
    RingIsFifo(b, steps);
    FifoPrefix(Run(b, steps), Frames(b, BitsOf(steps)));
    ReaderCatchesUp(b, steps, Outstanding(b, steps));
    StreamBegins(ms);
    OnesFrameOnce(b, ms[0].preamble);
    ReportsArePayloads(ms);
    FramesAreReports(b, ms, |Stream(ms)|);
    assert Stream(ms)[..|Stream(ms)|] == Stream(ms);
    hide Frames, Stream, Payloads;
  }
}
