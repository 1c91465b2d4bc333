/** The 64-bit input register of core0.c and what its contents mean as a history of bits. */
module ShiftRegister {
  import opened Wire

  const MESSAGE_3_BYTES: bv64 := 0x3FF0000001
  const MESSAGE_MASK_3_BYTES: bv64 := 0x3FF8040201
  const MESSAGE_4_BYTES: bv64 := 0x7FE000000001
  const MESSAGE_MASK_4_BYTES: bv64 := 0x7FF008040201
  const MESSAGE_5_BYTES: bv64 := 0xFFC00000000001
  const MESSAGE_MASK_5_BYTES: bv64 := 0xFFE01008040201

  /** A high half-wave longer than this many microseconds is a zero bit. */
  const ZERO_BIT_THRESHOLD_US := 87

  function BitOfHalfWave(highUs: int): bool {
    highUs <= ZERO_BIT_THRESHOLD_US
  }

  /** The half-waves of section A of NMRA S-9.1: a decoder takes 52 to 64 us for a one and 90 us or more
      for a zero. */
  lemma HalfWavesAreRead(highUs: int)
    ensures 52 <= highUs <= 64 ==> BitOfHalfWave(highUs)
    ensures 90 <= highUs ==> !BitOfHalfWave(highUs)
    ensures BitOfHalfWave(highUs) <==> highUs <= 87
  {}

  function ShiftIn(b: bv64, x: bool): bv64 {
    (b << 1) | (if x then 1 else 0)
  }

  /** The register after the given bits arrived, the oldest first. */
  function ShiftAll(b: bv64, bits: seq<bool>): bv64 {
    if bits == [] then b else ShiftIn(ShiftAll(b, bits[..|bits| - 1]), bits[|bits| - 1])
  }

  predicate Bit(b: bv64, k: bv8)
    requires k < 64
  {
    (b >> k) & 1 == 1
  }

  /** Bit number n of the register, counted from the newest bit, is v. */
  ghost predicate At(b: bv64, n: nat, v: bool)
    requires n < 64
  {
    forall k: bv8 :: k < 64 && k as int == n ==> Bit(b, k) == v
  }

  ghost predicate BitNo(b: bv64, n: nat) {
    exists k: bv8 :: k < 64 && k as int == n && Bit(b, k)
  }

  /** The bits of a register as a history, the oldest first. */
  ghost function History(b: bv64): (r: seq<bool>)
    ensures |r| == 64
  {
    seq(64, i requires 0 <= i < 64 => BitNo(b, 63 - i))
  }

  /** The mask test for a message of n bytes, n in 3..5. */
  predicate Matches(b: bv64, n: nat)
    requires 3 <= n <= 5
  {
    if n == 3 then b & MESSAGE_MASK_3_BYTES == MESSAGE_3_BYTES
    else if n == 4 then b & MESSAGE_MASK_4_BYTES == MESSAGE_4_BYTES
    else b & MESSAGE_MASK_5_BYTES == MESSAGE_5_BYTES
  }

  /** The low byte of `b >> (i * 9 + 1)`. */
  function ByteAt(b: bv64, i: nat): byte
    requires i < 5
  {
    if i == 0 then ((b >> 1) & 0xFF) as byte
    else if i == 1 then ((b >> 10) & 0xFF) as byte
    else if i == 2 then ((b >> 19) & 0xFF) as byte
    else if i == 3 then ((b >> 28) & 0xFF) as byte
    else ((b >> 37) & 0xFF) as byte
  }

  /** The bit that arrived k bits before the newest one. */
  predicate Back(w: seq<bool>, k: nat)
    requires k < |w|
  {
    w[|w| - 1 - k]
  }

  /** The bit i groups of nine before the newest one. */
  predicate GroupBit(w: seq<bool>, i: nat)
    requires 9 * i < |w|
  {
    Back(w, 9 * i)
  }

  /** The last bits of a history have the shape of a message of n bytes: ten ones, n groups of a
      zero and eight data bits, and a final one. */
  ghost predicate FrameAt(w: seq<bool>, n: nat) {
    && 11 + 9 * n <= |w|
    && Back(w, 0)
    && (forall i :: 1 <= i <= n ==> !GroupBit(w, i))
    && (forall t :: 9 * n + 1 <= t <= 9 * n + 10 ==> Back(w, t))
  }

  /** The eight bits that end 9 * i bits before the newest bit are the bits of x. */
  ghost predicate DataAt(w: seq<bool>, i: nat, x: byte)
    requires 9 * i + 9 <= |w|
  {
    forall t: nat :: t < 8 ==> Back(w, 9 * i + 8 - t) == ByteBit(x, t)
  }

  // ---- one shift ----

  lemma ShiftKeeps(b: bv64, x: bool, k: bv8)
    requires 1 <= k < 64
    ensures Bit(ShiftIn(b, x), k) == Bit(b, k - 1)
  {}

  lemma ShiftNewest(b: bv64, x: bool)
    ensures Bit(ShiftIn(b, x), 0) == x
  {}

  lemma Predecessor(k: bv8)
    requires 1 <= k as int
    ensures 1 <= k && (k - 1) as int == k as int - 1
  {}

  lemma AtNewest(b: bv64, x: bool)
    ensures At(ShiftIn(b, x), 0, x)
  {
    forall k: bv8 | k < 64 && k as int == 0 ensures Bit(ShiftIn(b, x), k) == x {
      assert k == 0;
      ShiftNewest(b, x);
    }
  }

  lemma AtOlder(b: bv64, x: bool, n: nat, v: bool)
    requires 1 <= n < 64 && At(b, n - 1, v)
    ensures At(ShiftIn(b, x), n, v)
  {
    forall k: bv8 | k < 64 && k as int == n ensures Bit(ShiftIn(b, x), k) == v {
      Predecessor(k);
      ShiftKeeps(b, x, k);
      assert Bit(b, k - 1) == v;
    }
  }

  lemma SameIndex(j: bv8, k: bv8)
    requires j as int == k as int
    ensures j == k
  {}

  lemma AtHistory(b: bv64, n: nat)
    requires n < 64
    ensures At(b, n, History(b)[63 - n])
  {
    hide Bit;
    forall k: bv8 | k < 64 && k as int == n ensures Bit(b, k) == BitNo(b, n) {
      if j: bv8 :| j < 64 && j as int == n && Bit(b, j) {
        SameIndex(j, k);
      }
    }
  }

  lemma HistoryBack(b: bv64, n: nat)
    requires n < 64
    ensures Back(History(b), n) == History(b)[63 - n]
  {}

  lemma BackOneMore(w: seq<bool>, bits: seq<bool>, n: nat)
    requires bits != [] && n < |w|
    ensures var init := bits[..|bits| - 1];
      Back(w + bits, n) == if n == 0 then bits[|bits| - 1] else Back(w + init, n - 1)
  {}

  /** The register is exactly the last 64 bits of its history: what it held before followed by
      every bit shifted in since. */
  lemma {:induction false} RegisterIsHistory(b: bv64, bits: seq<bool>, n: nat)
    requires n < 64
    ensures At(ShiftAll(b, bits), n, Back(History(b) + bits, n))
    decreases |bits|
  {
    hide At, ShiftIn, Back;
    if bits == [] {
      AtHistory(b, n);
      HistoryBack(b, n);
      assert History(b) + bits == History(b);
    } else {
      var older, x := bits[..|bits| - 1], bits[|bits| - 1];
      BackOneMore(History(b), bits, n);
      if n == 0 {
        AtNewest(ShiftAll(b, older), x);
      } else {
        RegisterIsHistory(b, older, n - 1);
        AtOlder(ShiftAll(b, older), x, n, Back(History(b) + older, n - 1));
      }
    }
  }

  ghost predicate Holds(b: bv64, w: seq<bool>) {
    64 <= |w| && forall n: nat :: n < 64 ==> At(b, n, Back(w, n))
  }

  lemma RegisterHolds(b: bv64, bits: seq<bool>)
    ensures Holds(ShiftAll(b, bits), History(b) + bits)
  {
    forall n: nat | n < 64 ensures At(ShiftAll(b, bits), n, Back(History(b) + bits, n)) {
      RegisterIsHistory(b, bits, n);
    }
  }

  // ---- the masks ----

  lemma Masks(b: bv64)
    ensures Matches(b, 3) <==>
      Bit(b, 0) && !Bit(b, 9) && !Bit(b, 18) && !Bit(b, 27) &&
      Bit(b, 28) && Bit(b, 29) && Bit(b, 30) && Bit(b, 31) && Bit(b, 32) &&
      Bit(b, 33) && Bit(b, 34) && Bit(b, 35) && Bit(b, 36) && Bit(b, 37)
    ensures Matches(b, 4) <==>
      Bit(b, 0) && !Bit(b, 9) && !Bit(b, 18) && !Bit(b, 27) && !Bit(b, 36) &&
      Bit(b, 37) && Bit(b, 38) && Bit(b, 39) && Bit(b, 40) && Bit(b, 41) &&
      Bit(b, 42) && Bit(b, 43) && Bit(b, 44) && Bit(b, 45) && Bit(b, 46)
    ensures Matches(b, 5) <==>
      Bit(b, 0) && !Bit(b, 9) && !Bit(b, 18) && !Bit(b, 27) && !Bit(b, 36) && !Bit(b, 45) &&
      Bit(b, 46) && Bit(b, 47) && Bit(b, 48) && Bit(b, 49) && Bit(b, 50) &&
      Bit(b, 51) && Bit(b, 52) && Bit(b, 53) && Bit(b, 54) && Bit(b, 55)
  {}

  /** No register content matches two of the masks. */
  lemma MasksExclusive(b: bv64, m: nat, n: nat)
    requires 3 <= m < n <= 5
    ensures !(Matches(b, m) && Matches(b, n))
  {}
}
