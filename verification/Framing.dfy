/** Packet detection on the bit stream (core0.c), against the general packet format of section A
    of NMRA S-9.2. */
module Framing {
  import opened Wire
  import opened ShiftRegister

  /** The length the firmware reports after a bit, if the register matches a mask. */
  function Detect(b: bv64): (r: Option<nat>)
    ensures r.Some? ==> 3 <= r.value <= 5
  {
    if Matches(b, 5) then Some(5)
    else if Matches(b, 4) then Some(4)
    else if Matches(b, 3) then Some(3)
    else None
  }

  function ReadBytes(b: bv64, n: nat): (r: seq<byte>)
    requires n <= 5
    ensures |r| == n
  {
    seq(n, i requires 0 <= i < n => ByteAt(b, i))
  }

  // ---- what a transmitter sends ----

  datatype Message = Message(preamble: nat, bytes: seq<byte>)

  /** At least ten preamble bits and at least one byte. */
  predicate WellFormed(m: Message) {
    10 <= m.preamble && 1 <= |m.bytes|
  }

  function Ones(n: nat): (r: seq<bool>)
    ensures |r| == n && forall i :: 0 <= i < n ==> r[i]
  {
    seq(n, _ => true)
  }

  /** Each byte is preceded by a zero bit. */
  function Body(bytes: seq<byte>): (r: seq<bool>)
    ensures |r| == 9 * |bytes|
  {
    if bytes == [] then [] else Body(bytes[..|bytes| - 1]) + [false] + ByteBits(bytes[|bytes| - 1])
  }

  function Encode(m: Message): (r: seq<bool>)
    ensures |r| == m.preamble + 9 * |m.bytes| + 1
  {
    Ones(m.preamble) + Body(m.bytes) + [true]
  }

  function Stream(ms: seq<Message>): seq<bool> {
    if ms == [] then [] else Stream(ms[..|ms| - 1]) + Encode(ms[|ms| - 1])
  }

  /** What a receiver should report after the first `len` bits of the stream: the bytes of the
      message that has just ended, last byte first, if there are three to five of them. */
  function Expected(ms: seq<Message>, len: nat): Option<seq<byte>> {
    if ms == [] || |Stream(ms)| < len then None
    else if len == |Stream(ms)| then
      var bytes := ms[|ms| - 1].bytes;
      if 3 <= |bytes| <= 5 then Some(Reverse(bytes)) else None
    else Expected(ms[..|ms| - 1], len)
  }

  // ---- being locked on to a message ----

  predicate GroupStart(w: seq<bool>, s: nat, i: nat)
    requires s + 9 * i < |w|
  {
    w[s + 9 * i]
  }

  predicate DataBit(w: seq<bool>, s: nat, i: nat, t: nat)
    requires s + 9 * i + 1 + t < |w|
  {
    w[s + 9 * i + 1 + t]
  }

  /** Position s of the history is the first start bit of a message with the given bytes, and what
      arrived since is that message as far as it goes, then ones. */
  ghost predicate Locked(w: seq<bool>, s: nat, bytes: seq<byte>) {
    && 1 <= |bytes| && 10 <= s < |w|
    && (forall p :: s - 10 <= p < s ==> w[p])
    && (forall i: nat :: i < |bytes| && s + 9 * i < |w| ==> !GroupStart(w, s, i))
    && (forall i: nat, t: nat :: i < |bytes| && t < 8 && s + 9 * i + 1 + t < |w| ==>
          DataBit(w, s, i, t) == ByteBit(bytes[i], t))
    && (forall p :: s + 9 * |bytes| <= p < |w| ==> w[p])
  }

  /** A frame that claimed an earlier start bit would need a zero among the ten ones before s. */
  lemma FrameNotBeforeStart(w: seq<bool>, s: nat, n: nat)
    requires 1 <= n && 11 + 9 * n <= |w| && 10 <= s < |w|
    requires forall p :: s - 10 <= p < s ==> w[p]
    requires |w| - 1 - 9 * n < s
    ensures !FrameAt(w, n)
  {
    var z := |w| - 1 - 9 * n;
    var j := (s - 1 - z) / 9;
    assert s - 10 <= z + 9 * j < s;
    assert GroupBit(w, n - j);
  }

  /** A frame that claimed a later start bit would need ten ones where the message has one of its
      start bits, or a zero where only ones follow the message. */
  lemma FrameNotAfterStart(w: seq<bool>, s: nat, bytes: seq<byte>, n: nat)
    requires Locked(w, s, bytes) && 1 <= n && 11 + 9 * n <= |w|
    requires s < |w| - 1 - 9 * n
    ensures !FrameAt(w, n)
  {
    var z := |w| - 1 - 9 * n;
    if s + 9 * |bytes| <= z {
      assert GroupBit(w, n);
    } else {
      var i := (z - 1 - s) / 9;
      assert !GroupStart(w, s, i);
      assert !Back(w, |w| - 1 - (s + 9 * i));
    }
  }

  /** While locked, the shape of an n-byte message is seen only when the last bit is the end bit of
      the message and the message has n bytes. */
  lemma LockedFrame(w: seq<bool>, s: nat, bytes: seq<byte>, n: nat)
    requires Locked(w, s, bytes) && 1 <= n
    ensures FrameAt(w, n) <==> |w| == s + 9 * |bytes| + 1 && n == |bytes|
  {
    var m := |bytes|;
    if 11 + 9 * n <= |w| {
      var z := |w| - 1 - 9 * n;
      if z < s {
        FrameNotBeforeStart(w, s, n);
      } else if s < z {
        FrameNotAfterStart(w, s, bytes, n);
      } else if n < m {
        assert Back(w, 0) == GroupStart(w, s, n);
      } else if m < n {
        assert GroupBit(w, n - m);
      } else {
        forall i | 1 <= i <= n ensures !GroupBit(w, i) {
          assert GroupBit(w, i) == GroupStart(w, s, n - i);
        }
      }
    }
  }

  lemma LockedData(w: seq<bool>, s: nat, bytes: seq<byte>, i: nat)
    requires Locked(w, s, bytes) && |w| == s + 9 * |bytes| + 1 && i < |bytes|
    ensures DataAt(w, i, bytes[|bytes| - 1 - i])
  {
    var j := |bytes| - 1 - i;
    forall t: nat | t < 8 ensures Back(w, 9 * i + 8 - t) == ByteBit(bytes[j], t) {
      assert DataBit(w, s, j, t) == Back(w, 9 * i + 8 - t);
    }
  }

  /** Further ones keep the receiver locked on to a message that has ended. */
  lemma LockedThroughOnes(w: seq<bool>, s: nat, bytes: seq<byte>, more: seq<bool>)
    requires Locked(w, s, bytes) && s + 9 * |bytes| <= |w|
    requires forall i :: 0 <= i < |more| ==> more[i]
    ensures Locked(w + more, s, bytes)
  {
    var w' := w + more;
    forall i: nat | i < |bytes| && s + 9 * i < |w'| ensures !GroupStart(w', s, i) {
      assert !GroupStart(w, s, i);
    }
    forall i: nat, t: nat | i < |bytes| && t < 8 && s + 9 * i + 1 + t < |w'|
      ensures DataBit(w', s, i, t) == ByteBit(bytes[i], t)
    {
      assert DataBit(w', s, i, t) == DataBit(w, s, i, t);
    }
  }

  /** After a frame no number of ones makes another: its own zeros would stand where the second one
      needs its ten ones, or its ten ones where the second one needs a zero. */
  lemma NoFrameAfterOnes(w: seq<bool>, m: nat, k: nat, n: nat)
    requires FrameAt(w, m) && 1 <= m && 1 <= k && 1 <= n
    ensures !FrameAt(w + Ones(k), n)
  {
    var w' := w + Ones(k);
    if 11 + 9 * n <= |w'| {
      if 9 <= k {
        assert GroupBit(w', 1);
      } else if m < n {
        assert Back(w', 9 * (m + 1)) == Back(w, 9 * m + 9 - k);
        assert GroupBit(w', m + 1);
      } else {
        assert Back(w', 9 * n + k) == GroupBit(w, n);
        assert !Back(w', 9 * n + k);
      }
    }
  }

  // ---- the layout of an encoded message ----

  lemma {:induction false} BodyLayout(bytes: seq<byte>, i: nat)
    requires i < |bytes|
    ensures !Body(bytes)[9 * i]
    ensures forall t: nat :: t < 8 ==> Body(bytes)[9 * i + 1 + t] == ByteBit(bytes[i], t)
  {
    var init := bytes[..|bytes| - 1];
    if i < |bytes| - 1 {
      BodyLayout(init, i);
    }
  }

  /** Once the first start bit of a message arrived after its preamble, the receiver is locked. */
  lemma EncodeLocks(w: seq<bool>, m: Message, len: nat)
    requires WellFormed(m) && m.preamble < len <= |Encode(m)|
    ensures Locked(w + Encode(m)[..len], |w| + m.preamble, m.bytes)
  {
    var w', s, bytes := w + Encode(m)[..len], |w| + m.preamble, m.bytes;
    forall i: nat | i < |bytes| && s + 9 * i < |w'| ensures !GroupStart(w', s, i) {
      BodyLayout(bytes, i);
      assert GroupStart(w', s, i) == Body(bytes)[9 * i];
    }
    forall i: nat, t: nat | i < |bytes| && t < 8 && s + 9 * i + 1 + t < |w'|
      ensures DataBit(w', s, i, t) == ByteBit(bytes[i], t)
    {
      BodyLayout(bytes, i);
      assert DataBit(w', s, i, t) == Body(bytes)[9 * i + 1 + t];
    }
  }

  /** The message the receiver is locked on to after the first `len` bits of a stream, and where
      in the history its first start bit is. */
  ghost function LockOf(w: seq<bool>, ms: seq<Message>, len: nat): (seq<byte>, nat)
    requires ms != []
  {
    var init, m := ms[..|ms| - 1], ms[|ms| - 1];
    if init == [] || |Stream(init)| + m.preamble < len
    then (m.bytes, |w| + |Stream(init)| + m.preamble)
    else LockOf(w, init, if len <= |Stream(init)| then len else |Stream(init)|)
  }

  /** The receiver is locked on to that message, and a report is due exactly at its end bit. */
  ghost predicate LockedAfter(w: seq<bool>, ms: seq<Message>, len: nat)
    requires ms != [] && len <= |Stream(ms)|
  {
    var (bytes, s) := LockOf(w, ms, len);
    && Locked(w + Stream(ms)[..len], s, bytes)
    && Expected(ms, len) ==
         (if |w| + len == s + 9 * |bytes| + 1 && 3 <= |bytes| <= 5 then Some(Reverse(bytes)) else None)
    && (len == |Stream(ms)| ==> |w| + len == s + 9 * |bytes| + 1)
  }

  lemma LocksOnLast(w: seq<bool>, ms: seq<Message>, len: nat)
    requires ms != [] && WellFormed(ms[|ms| - 1])
    requires |Stream(ms[..|ms| - 1])| + ms[|ms| - 1].preamble < len <= |Stream(ms)|
    ensures LockedAfter(w, ms, len)
  {
    hide Locked, WellFormed;
    var init, m := ms[..|ms| - 1], ms[|ms| - 1];
    var n := |Stream(init)|;
    assert w + Stream(ms)[..len] == (w + Stream(init)) + Encode(m)[..len - n];
    EncodeLocks(w + Stream(init), m, len - n);
    assert Expected(init, len).None?;
  }

  lemma LocksOnEarlier(w: seq<bool>, ms: seq<Message>, len: nat)
    requires 2 <= |ms| && len <= |Stream(ms[..|ms| - 1])|
    requires LockedAfter(w, ms[..|ms| - 1], len)
    ensures LockedAfter(w, ms, len)
  {
    assert Stream(ms)[..len] == Stream(ms[..|ms| - 1])[..len];
  }

  lemma LocksThroughPreamble(w: seq<bool>, ms: seq<Message>, len: nat)
    requires 2 <= |ms|
    requires |Stream(ms[..|ms| - 1])| < len <= |Stream(ms[..|ms| - 1])| + ms[|ms| - 1].preamble
    requires LockedAfter(w, ms[..|ms| - 1], |Stream(ms[..|ms| - 1])|)
    ensures LockedAfter(w, ms, len)
  {
    var init, m := ms[..|ms| - 1], ms[|ms| - 1];
    var n := |Stream(init)|;
    var (bytes, s) := LockOf(w, init, n);
    var more := Encode(m)[..len - n];
    assert Stream(init)[..n] == Stream(init);
    LockedThroughOnes(w + Stream(init), s, bytes, more);
    assert w + Stream(ms)[..len] == (w + Stream(init)) + more;
    assert Expected(init, len).None?;
  }

  lemma {:induction false} StreamLonger(ms: seq<Message>)
    requires ms != []
    ensures ms[0].preamble < |Stream(ms)|
  {
    if 1 < |ms| {
      StreamLonger(ms[..|ms| - 1]);
    }
  }

  lemma {:induction false} StreamLocks(w: seq<bool>, ms: seq<Message>, len: nat)
    requires ms != [] && (forall m :: m in ms ==> WellFormed(m))
    requires ms[0].preamble < len <= |Stream(ms)|
    ensures LockedAfter(w, ms, len)
  {
    assert Stream([]) == [];
    hide Stream, LockedAfter, WellFormed;
    var init, m := ms[..|ms| - 1], ms[|ms| - 1];
    if init == [] || |Stream(init)| + m.preamble < len {
      LocksOnLast(w, ms, len);
    } else if len <= |Stream(init)| {
      StreamLocks(w, init, len);
      LocksOnEarlier(w, ms, len);
    } else {
      StreamLonger(init);
      StreamLocks(w, init, |Stream(init)|);
      LocksThroughPreamble(w, ms, len);
    }
  }

  // ---- from the history back to the register ----

  /** Holds, with the bit positions as shift amounts. */
  ghost predicate Agrees(b: bv64, w: seq<bool>) {
    64 <= |w| && forall k: bv8 :: k < 64 ==> Bit(b, k) == Back(w, k as int)
  }

  lemma HoldsAgrees(b: bv64, w: seq<bool>)
    requires Holds(b, w)
    ensures Agrees(b, w)
  {
    forall k: bv8 | k < 64 ensures Bit(b, k) == Back(w, k as int) {
      assert At(b, k as int, Back(w, k as int));
    }
  }

  lemma FrameBits3(w: seq<bool>)
    requires 64 <= |w|
    ensures FrameAt(w, 3) <==>
      Back(w, 0) && !Back(w, 9) && !Back(w, 18) && !Back(w, 27) &&
      Back(w, 28) && Back(w, 29) && Back(w, 30) && Back(w, 31) && Back(w, 32) &&
      Back(w, 33) && Back(w, 34) && Back(w, 35) && Back(w, 36) && Back(w, 37)
  {
    assert GroupBit(w, 1) == Back(w, 9) && GroupBit(w, 2) == Back(w, 18) && GroupBit(w, 3) == Back(w, 27);
  }

  lemma FrameBits4(w: seq<bool>)
    requires 64 <= |w|
    ensures FrameAt(w, 4) <==>
      Back(w, 0) && !Back(w, 9) && !Back(w, 18) && !Back(w, 27) && !Back(w, 36) &&
      Back(w, 37) && Back(w, 38) && Back(w, 39) && Back(w, 40) && Back(w, 41) &&
      Back(w, 42) && Back(w, 43) && Back(w, 44) && Back(w, 45) && Back(w, 46)
  {
    assert GroupBit(w, 1) == Back(w, 9) && GroupBit(w, 2) == Back(w, 18) && GroupBit(w, 3) == Back(w, 27);
    assert GroupBit(w, 4) == Back(w, 36);
  }

  lemma FrameBits5(w: seq<bool>)
    requires 64 <= |w|
    ensures FrameAt(w, 5) <==>
      Back(w, 0) && !Back(w, 9) && !Back(w, 18) && !Back(w, 27) && !Back(w, 36) && !Back(w, 45) &&
      Back(w, 46) && Back(w, 47) && Back(w, 48) && Back(w, 49) && Back(w, 50) &&
      Back(w, 51) && Back(w, 52) && Back(w, 53) && Back(w, 54) && Back(w, 55)
  {
    assert GroupBit(w, 1) == Back(w, 9) && GroupBit(w, 2) == Back(w, 18) && GroupBit(w, 3) == Back(w, 27);
    assert GroupBit(w, 4) == Back(w, 36) && GroupBit(w, 5) == Back(w, 45);
  }

  lemma MatchesFrame(b: bv64, w: seq<bool>)
    requires Agrees(b, w)
    ensures forall n: nat :: 3 <= n <= 5 ==> (Matches(b, n) <==> FrameAt(w, n))
  {
    Masks(b);
    FrameBits3(w);
    FrameBits4(w);
    FrameBits5(w);
  }

  lemma DataBits(w: seq<bool>, i: nat, x: byte)
    requires 9 * i + 9 <= |w| && DataAt(w, i, x)
    ensures ByteBit(x, 0) == Back(w, 9 * i + 8)
    ensures ByteBit(x, 1) == Back(w, 9 * i + 7)
    ensures ByteBit(x, 2) == Back(w, 9 * i + 6)
    ensures ByteBit(x, 3) == Back(w, 9 * i + 5)
    ensures ByteBit(x, 4) == Back(w, 9 * i + 4)
    ensures ByteBit(x, 5) == Back(w, 9 * i + 3)
    ensures ByteBit(x, 6) == Back(w, 9 * i + 2)
    ensures ByteBit(x, 7) == Back(w, 9 * i + 1)
  {}

  lemma SameBits(x: byte, y: byte)
    requires ByteBit(x, 0) == ByteBit(y, 0) && ByteBit(x, 1) == ByteBit(y, 1)
    requires ByteBit(x, 2) == ByteBit(y, 2) && ByteBit(x, 3) == ByteBit(y, 3)
    requires ByteBit(x, 4) == ByteBit(y, 4) && ByteBit(x, 5) == ByteBit(y, 5)
    requires ByteBit(x, 6) == ByteBit(y, 6) && ByteBit(x, 7) == ByteBit(y, 7)
    ensures x == y
  {}

  // Where the bits of the extracted bytes come from.

  lemma RegisterByte0(b: bv64)
    ensures ByteBit(ByteAt(b, 0), 0) == Bit(b, 8) && ByteBit(ByteAt(b, 0), 1) == Bit(b, 7)
    ensures ByteBit(ByteAt(b, 0), 2) == Bit(b, 6) && ByteBit(ByteAt(b, 0), 3) == Bit(b, 5)
    ensures ByteBit(ByteAt(b, 0), 4) == Bit(b, 4) && ByteBit(ByteAt(b, 0), 5) == Bit(b, 3)
    ensures ByteBit(ByteAt(b, 0), 6) == Bit(b, 2) && ByteBit(ByteAt(b, 0), 7) == Bit(b, 1)
  {}

  lemma RegisterByte1(b: bv64)
    ensures ByteBit(ByteAt(b, 1), 0) == Bit(b, 17) && ByteBit(ByteAt(b, 1), 1) == Bit(b, 16)
    ensures ByteBit(ByteAt(b, 1), 2) == Bit(b, 15) && ByteBit(ByteAt(b, 1), 3) == Bit(b, 14)
    ensures ByteBit(ByteAt(b, 1), 4) == Bit(b, 13) && ByteBit(ByteAt(b, 1), 5) == Bit(b, 12)
    ensures ByteBit(ByteAt(b, 1), 6) == Bit(b, 11) && ByteBit(ByteAt(b, 1), 7) == Bit(b, 10)
  {}

  lemma RegisterByte2(b: bv64)
    ensures ByteBit(ByteAt(b, 2), 0) == Bit(b, 26) && ByteBit(ByteAt(b, 2), 1) == Bit(b, 25)
    ensures ByteBit(ByteAt(b, 2), 2) == Bit(b, 24) && ByteBit(ByteAt(b, 2), 3) == Bit(b, 23)
    ensures ByteBit(ByteAt(b, 2), 4) == Bit(b, 22) && ByteBit(ByteAt(b, 2), 5) == Bit(b, 21)
    ensures ByteBit(ByteAt(b, 2), 6) == Bit(b, 20) && ByteBit(ByteAt(b, 2), 7) == Bit(b, 19)
  {}

  lemma RegisterByte3(b: bv64)
    ensures ByteBit(ByteAt(b, 3), 0) == Bit(b, 35) && ByteBit(ByteAt(b, 3), 1) == Bit(b, 34)
    ensures ByteBit(ByteAt(b, 3), 2) == Bit(b, 33) && ByteBit(ByteAt(b, 3), 3) == Bit(b, 32)
    ensures ByteBit(ByteAt(b, 3), 4) == Bit(b, 31) && ByteBit(ByteAt(b, 3), 5) == Bit(b, 30)
    ensures ByteBit(ByteAt(b, 3), 6) == Bit(b, 29) && ByteBit(ByteAt(b, 3), 7) == Bit(b, 28)
  {}

  lemma RegisterByte4(b: bv64)
    ensures ByteBit(ByteAt(b, 4), 0) == Bit(b, 44) && ByteBit(ByteAt(b, 4), 1) == Bit(b, 43)
    ensures ByteBit(ByteAt(b, 4), 2) == Bit(b, 42) && ByteBit(ByteAt(b, 4), 3) == Bit(b, 41)
    ensures ByteBit(ByteAt(b, 4), 4) == Bit(b, 40) && ByteBit(ByteAt(b, 4), 5) == Bit(b, 39)
    ensures ByteBit(ByteAt(b, 4), 6) == Bit(b, 38) && ByteBit(ByteAt(b, 4), 7) == Bit(b, 37)
  {}

  lemma ByteMatches0(b: bv64, w: seq<bool>, x: byte)
    requires Agrees(b, w) && DataAt(w, 0, x)
    ensures ByteAt(b, 0) == x
  {
    DataBits(w, 0, x);
    RegisterByte0(b);
    SameBits(ByteAt(b, 0), x);
  }

  lemma ByteMatches1(b: bv64, w: seq<bool>, x: byte)
    requires Agrees(b, w) && DataAt(w, 1, x)
    ensures ByteAt(b, 1) == x
  {
    DataBits(w, 1, x);
    RegisterByte1(b);
    SameBits(ByteAt(b, 1), x);
  }

  lemma ByteMatches2(b: bv64, w: seq<bool>, x: byte)
    requires Agrees(b, w) && DataAt(w, 2, x)
    ensures ByteAt(b, 2) == x
  {
    DataBits(w, 2, x);
    RegisterByte2(b);
    SameBits(ByteAt(b, 2), x);
  }

  lemma ByteMatches3(b: bv64, w: seq<bool>, x: byte)
    requires Agrees(b, w) && DataAt(w, 3, x)
    ensures ByteAt(b, 3) == x
  {
    DataBits(w, 3, x);
    RegisterByte3(b);
    SameBits(ByteAt(b, 3), x);
  }

  lemma ByteMatches4(b: bv64, w: seq<bool>, x: byte)
    requires Agrees(b, w) && DataAt(w, 4, x)
    ensures ByteAt(b, 4) == x
  {
    DataBits(w, 4, x);
    RegisterByte4(b);
    SameBits(ByteAt(b, 4), x);
  }

  lemma ByteMatchesData(b: bv64, w: seq<bool>, i: nat, x: byte)
    requires Agrees(b, w) && i < 5 && DataAt(w, i, x)
    ensures ByteAt(b, i) == x
  {
    if i == 0 {
      ByteMatches0(b, w, x);
    } else if i == 1 {
      ByteMatches1(b, w, x);
    } else if i == 2 {
      ByteMatches2(b, w, x);
    } else if i == 3 {
      ByteMatches3(b, w, x);
    } else {
      ByteMatches4(b, w, x);
    }
  }

  /** What the firmware takes out of the register after a bit. */
  function Received(b: bv64): Option<seq<byte>> {
    match Detect(b)
    case None => None
    case Some(n) => Some(ReadBytes(b, n))
  }

  lemma ReceivedIsFrame(b: bv64, bits: seq<bool>)
    requires Detect(ShiftAll(b, bits)).Some?
    ensures FrameAt(History(b) + bits, Detect(ShiftAll(b, bits)).value)
  {
    var b', w := ShiftAll(b, bits), History(b) + bits;
    RegisterHolds(b, bits);
    HoldsAgrees(b', w);
    MatchesFrame(b', w);
  }

  lemma LockedMatches(b: bv64, w: seq<bool>, s: nat, bytes: seq<byte>)
    requires Agrees(b, w) && Locked(w, s, bytes)
    ensures forall n: nat :: 3 <= n <= 5 ==> (Matches(b, n) <==> |w| == s + 9 * |bytes| + 1 && n == |bytes|)
  {
    hide Matches, Locked, Agrees, FrameAt;
    MatchesFrame(b, w);
    forall n: nat | 3 <= n <= 5
      ensures Matches(b, n) <==> |w| == s + 9 * |bytes| + 1 && n == |bytes|
    {
      LockedFrame(w, s, bytes, n);
    }
  }

  /** What a register shows that holds the history of a message the receiver is locked on to: its length
      and its bytes at the end bit, and nothing at any other. */
  lemma LockedRegister(b: bv64, w: seq<bool>, s: nat, bytes: seq<byte>)
    requires Agrees(b, w) && Locked(w, s, bytes)
    ensures Received(b) == if |w| == s + 9 * |bytes| + 1 && 3 <= |bytes| <= 5 then Some(Reverse(bytes)) else None
  {
    hide Matches, Locked, Agrees, ByteAt;
    LockedMatches(b, w, s, bytes);
    if Detect(b).Some? {
      assert Detect(b) == Some(|bytes|);
      forall i: nat | i < |bytes| ensures ByteAt(b, i) == Reverse(bytes)[i] {
        LockedData(w, s, bytes, i);
        ByteMatchesData(b, w, i, bytes[|bytes| - 1 - i]);
      }
      assert ReadBytes(b, |bytes|) == Reverse(bytes);
    }
  }

  /** Framing is exact and synchronises itself: whatever the register held before, from the first
      start bit of a stream of messages on, the firmware reports after each bit what it should. */
  lemma FramingIsExact(b: bv64, ms: seq<Message>, len: nat)
    requires ms != [] && (forall m :: m in ms ==> WellFormed(m))
    requires ms[0].preamble < len <= |Stream(ms)|
    ensures Received(ShiftAll(b, Stream(ms)[..len])) == Expected(ms, len)
    ensures forall m: nat, n: nat :: 3 <= m < n <= 5 ==>
      !(Matches(ShiftAll(b, Stream(ms)[..len]), m) && Matches(ShiftAll(b, Stream(ms)[..len]), n))
  {
    hide Matches, Locked, Agrees, Received, Expected, LockOf, ShiftAll, Stream, WellFormed;
    var b', w := ShiftAll(b, Stream(ms)[..len]), History(b) + Stream(ms)[..len];
    RegisterHolds(b, Stream(ms)[..len]);
    HoldsAgrees(b', w);
    StreamLocks(History(b), ms, len);
    var (bytes, s) := LockOf(History(b), ms, len);
    LockedRegister(b', w, s, bytes);
    LockedMatches(b', w, s, bytes);
  }
}
