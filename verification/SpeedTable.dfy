/** The two-segment speed table (motor/src/speed/table.rs, and core1.c's init_controller). */
module SpeedTable {
  import opened Numbers

  const SPEED_TABLE_LEN := 127
  const MIDPOINT := 63
  const U16_MAX := 65535

  /** CV2, CV6 and CV5. The two upper levels are scaled to the 12-bit range of the ADC. */
  datatype Config = Config(vStart: u8, vMid: u8, vHigh: u8)

  function VMid(c: Config): nat { 16 * c.vMid }

  function VMax(c: Config): nat { 16 * c.vHigh }

  /** The levels a segment can run between. */
  predicate Level(v: int) {
    0 <= v <= 4080
  }

  // ---- the table in exact arithmetic ----

  /** 63 times the interpolated value. */
  function Numerator(start: int, end: int, idx: int): int {
    (end - start) * idx + 63 * start
  }

  /** The interpolated value to the nearest integer. */
  function Entry(start: int, end: int, idx: int): int {
    (2 * Numerator(start, end, idx) + 63) / 126
  }

  function TableEntry(c: Config, i: nat): int {
    if i == 0 then 0
    else if i <= MIDPOINT then Entry(c.vStart, VMid(c), i - 1)
    else Entry(VMid(c), VMax(c), i - MIDPOINT)
  }

  // ---- the table as the program computes it ----

  function Interpolated(start: int, end: int, idx: int): real {
    (end - start) as real / 63.0 * idx as real + start as real
  }

  function Clamp(x: real): real {
    if x < 0.0 then 0.0 else if x > U16_MAX as real then U16_MAX as real else x
  }

  /** Adding a half before the truncating cast. */
  function ToEntry(x: real): int {
    (Clamp(x) + 0.5).Floor
  }

  lemma LevelTimes(v: int, k: int)
    requires Level(v) && 0 <= k
    ensures 0 <= v * k <= 4080 * k
  {
    assert 0 <= (4080 - v) * k;
  }

  lemma Weights(start: int, end: int, idx: int)
    ensures Numerator(start, end, idx) == end * idx + start * (63 - idx)
  {}

  lemma NumeratorBounds(start: int, end: int, idx: int)
    requires Level(start) && Level(end) && 0 <= idx <= 63
    ensures 0 <= Numerator(start, end, idx) <= 63 * 4080
  {
    hide Numerator;
    Weights(start, end, idx);
    LevelTimes(end, idx);
    LevelTimes(start, 63 - idx);
  }

  lemma InterpolatedIsQuotient(start: int, end: int, idx: int)
    ensures 63.0 * Interpolated(start, end, idx) == Numerator(start, end, idx) as real
  {
    var m := (end - start) as real / 63.0;
    assert 63.0 * (m * idx as real) == (63.0 * m) * idx as real;
    assert ((end - start) * idx) as real == (end - start) as real * idx as real;
  }

  /** No interpolated value is nearer than 1/126 to a rounding tie. */
  lemma TieMargin(start: int, end: int, idx: int, tie: int)
    ensures var x, half := Interpolated(start, end, idx), tie as real + 0.5;
      x - half >= 1.0 / 126.0 || half - x >= 1.0 / 126.0
  {
    InterpolatedIsQuotient(start, end, idx);
    var odd := 2 * Numerator(start, end, idx) - 63 * (2 * tie + 1);
    assert odd % 2 == 1;
    assert odd >= 1 || odd <= -1;
    assert 126.0 * (Interpolated(start, end, idx) - (tie as real + 0.5)) == odd as real;
  }

  lemma NearestQuotient(num: int)
    ensures var q := (2 * num + 63) / 126; 126 * q + 1 <= 2 * num + 63 <= 126 * q + 125
  {
    var q, r := (2 * num + 63) / 126, (2 * num + 63) % 126;
    assert 2 * num + 63 == 126 * q + r;
    assert r == 2 * (num + 31 - 63 * q) + 1;
  }

  lemma EntryQuotient(start: int, end: int, idx: int)
    ensures var e, twice := Entry(start, end, idx), 2 * Numerator(start, end, idx);
      126 * e + 1 <= twice + 63 <= 126 * e + 125
  {
    hide Numerator;
    NearestQuotient(Numerator(start, end, idx));
  }

  /** The same margin about the nearest integer. */
  lemma EntryBand(start: int, end: int, idx: int)
    ensures var x, e := Interpolated(start, end, idx), Entry(start, end, idx) as real;
      e + 1.0 / 126.0 <= x + 0.5 <= e + 125.0 / 126.0
  {
    InterpolatedIsQuotient(start, end, idx);
    EntryQuotient(start, end, idx);
    hide Interpolated, Entry, Numerator;
    var x, e := Interpolated(start, end, idx), Entry(start, end, idx);
    var num := Numerator(start, end, idx);
    assert (126 * e + 1) as real <= (2 * num + 63) as real <= (126 * e + 125) as real;
  }

  lemma InterpolatedIsLevel(start: int, end: int, idx: int)
    requires Level(start) && Level(end) && 0 <= idx <= 63
    ensures 0.0 <= Interpolated(start, end, idx) <= 4080.0 && 0.0 <= start as real <= 4080.0
    ensures (end - start) as real / 63.0 * idx as real + start as real == Interpolated(start, end, idx)
  {
    InterpolatedIsQuotient(start, end, idx);
    NumeratorBounds(start, end, idx);
  }

  /** So every evaluation that is off by less than 1/126 gives the same entry. */
  lemma RoundingIsFloatProof(start: int, end: int, idx: int, x: real)
    requires Level(start) && Level(end) && 0 <= idx <= 63
    requires -1.0 / 126.0 < x - Interpolated(start, end, idx) < 1.0 / 126.0
    ensures ToEntry(x) == Entry(start, end, idx)
  {
    EntryBand(start, end, idx);
    InterpolatedIsLevel(start, end, idx);
    hide Interpolated, Entry;
    var e := Entry(start, end, idx);
    assert e as real <= Clamp(x) + 0.5 < e as real + 1.0;
  }

  // ---- rounding errors of 32-bit floating point ----

  /** Half a unit in the last place, relative, of an IEEE 754 binary32 result. */
  const UNIT_ROUNDOFF: real := 1.0 / 16777216.0

  /** y is a floating point result for the exact value x. */
  predicate Rounded(x: real, y: real) {
    var a := if x < 0.0 then -x else x;
    -(a * UNIT_ROUNDOFF) <= y - x <= a * UNIT_ROUNDOFF
  }

  predicate Near(x: real, y: real, e: real) {
    -e <= y - x <= e
  }

  lemma RoundedIsNear(x: real, y: real, bound: real, e: real)
    requires Rounded(x, y) && -bound <= x <= bound && bound * UNIT_ROUNDOFF <= e
    ensures Near(x, y, e)
  {}

  lemma ProductWithin(d: real, e: real, k: real)
    requires d <= e && 0.0 <= k <= 63.0 && 0.0 <= e
    ensures d * k <= 63.0 * e
  {
    assert 0.0 <= (e - d) * k;
    assert 0.0 <= (63.0 - k) * e;
    assert (e - d) * k == e * k - d * k;
    assert (63.0 - k) * e == 63.0 * e - e * k;
  }

  lemma ScaledIsNear(x: real, y: real, e: real, k: real)
    requires Near(x, y, e) && 0.0 <= k <= 63.0 && 0.0 <= e
    ensures Near(x * k, y * k, 63.0 * e)
  {
    var d := y - x;
    assert y * k - x * k == d * k;
    ProductWithin(d, e, k);
    ProductWithin(-d, e, k);
    assert -d * k == -(d * k);
  }

  lemma SlopeIsNear(start: int, end: int, slope: real)
    requires Level(start) && Level(end) && Rounded((end - start) as real / 63.0, slope)
    ensures Near((end - start) as real / 63.0, slope, 0.00001)
  {
    RoundedIsNear((end - start) as real / 63.0, slope, 65.0, 0.00001);
  }

  /** The errors of the three last operations, on values of the size of a level. */
  lemma ErrorsAddUp(x: real, start: real, exact: real, scaled: real, product: real, sum: real, shifted: real)
    requires 0.0 <= x <= 4080.0 && 0.0 <= start <= 4080.0 && exact + start == x
    requires Near(exact, scaled, 0.00063)
    requires Rounded(scaled, product) && Rounded(product + start, sum) && Rounded(Clamp(sum) + 0.5, shifted)
    ensures Near(x, shifted - 0.5, 0.003)
  {
    RoundedIsNear(scaled, product, 4090.0, 0.00025);
    RoundedIsNear(product + start, sum, 8200.0, 0.0005);
    RoundedIsNear(Clamp(sum) + 0.5, shifted, 8200.0, 0.0005);
  }

  lemma RoundingFromShifted(start: int, end: int, idx: int, y: real)
    requires Level(start) && Level(end) && 0 <= idx <= 63
    requires Near(Interpolated(start, end, idx), y, 0.003)
    ensures (y + 0.5).Floor == Entry(start, end, idx)
  {
    EntryBand(start, end, idx);
    hide Interpolated, Entry;
    var e := Entry(start, end, idx);
    assert e as real <= y + 0.5 < e as real + 1.0;
  }

  /** The slope, its product with the index, the sum and the sum with a half, each rounded, end in
      the entry of the exact table. */
  lemma FloatTableIsExact(start: int, end: int, idx: int, slope: real, product: real, sum: real, shifted: real)
    requires Level(start) && Level(end) && 0 <= idx <= 63
    requires Rounded((end - start) as real / 63.0, slope)
    requires Rounded(slope * idx as real, product)
    requires Rounded(product + start as real, sum)
    requires Rounded(Clamp(sum) + 0.5, shifted)
    ensures shifted.Floor == Entry(start, end, idx)
  {
    hide *;
    var m, x := (end - start) as real / 63.0, Interpolated(start, end, idx);
    SlopeIsNear(start, end, slope);
    ScaledIsNear(m, slope, 0.00001, idx as real);
    InterpolatedIsLevel(start, end, idx);
    ErrorsAddUp(x, start as real, m * idx as real, slope * idx as real, product, sum, shifted);
    RoundingFromShifted(start, end, idx, shifted - 0.5);
    assert shifted - 0.5 + 0.5 == shifted;
  }

  function CalcStep(start: int, end: int, idx: int): (r: nat)
    requires Level(start) && Level(end) && 0 <= idx <= 63
    ensures r == Entry(start, end, idx) <= 4080
  {
    RoundingIsFloatProof(start, end, idx, Interpolated(start, end, idx));
    NumeratorBounds(start, end, idx);
    ToEntry(Interpolated(start, end, idx))
  }

  /** Filling the table in place. */
  method Build(c: Config) returns (table: array<nat>)
    ensures fresh(table) && table.Length == SPEED_TABLE_LEN
    ensures forall i :: 0 <= i < SPEED_TABLE_LEN ==> table[i] == TableEntry(c, i) <= 4080
  {
    hide Entry;
    table := new nat[SPEED_TABLE_LEN](_ => 0);
    table[0] := 0;
    for i := 1 to MIDPOINT + 1
      invariant table[0] == 0
      invariant forall k :: 1 <= k < i ==> table[k] == TableEntry(c, k) <= 4080
    {
      table[i] := CalcStep(c.vStart, VMid(c), i - 1);
    }
    for i := MIDPOINT + 1 to SPEED_TABLE_LEN
      invariant table[0] == 0
      invariant forall k :: 1 <= k < i ==> table[k] == TableEntry(c, k) <= 4080
    {
      table[i] := CalcStep(VMid(c), VMax(c), i - MIDPOINT);
    }
  }

  // ---- the shape of the table ----

  /** Neighbours in a segment differ by the slope, rounded down or up. */
  lemma NeighboursDifferBySlope(start: int, end: int, idx: int)
    ensures var d := Entry(start, end, idx + 1) - Entry(start, end, idx);
      d == (end - start) / 63 || d == ((end - start) + 62) / 63
  {
    assert Numerator(start, end, idx + 1) == Numerator(start, end, idx) + (end - start);
  }

  lemma EntryIsMonotone(start: int, end: int, i: int, j: int)
    requires start <= end && i <= j
    ensures Entry(start, end, i) <= Entry(start, end, j)
  {
    assert (end - start) * i <= (end - start) * j;
  }

  lemma SegmentEnds(start: int, end: int)
    ensures Entry(start, end, 0) == start && Entry(start, end, 63) == end
  {}

  lemma InLowerSegment(c: Config, i: nat)
    requires c.vStart <= VMid(c)
    ensures 1 <= i <= MIDPOINT ==> c.vStart <= TableEntry(c, i) <= VMid(c)
  {
    hide Entry;
    SegmentEnds(c.vStart, VMid(c));
    if 1 <= i <= MIDPOINT {
      EntryIsMonotone(c.vStart, VMid(c), 0, i - 1);
      EntryIsMonotone(c.vStart, VMid(c), i - 1, 63);
    }
  }

  lemma InUpperSegment(c: Config, i: nat)
    requires VMid(c) <= VMax(c)
    ensures MIDPOINT < i ==> VMid(c) <= TableEntry(c, i)
  {
    hide Entry;
    SegmentEnds(VMid(c), VMax(c));
    if MIDPOINT < i {
      EntryIsMonotone(VMid(c), VMax(c), 0, i - MIDPOINT);
    }
  }

  lemma EntriesInOrder(c: Config, i: nat, j: nat)
    requires c.vStart <= VMid(c) <= VMax(c) && i <= j < SPEED_TABLE_LEN
    ensures TableEntry(c, i) <= TableEntry(c, j)
  {
    InLowerSegment(c, i);
    InLowerSegment(c, j);
    InUpperSegment(c, i);
    InUpperSegment(c, j);
    if 1 <= i && j <= MIDPOINT {
      EntryIsMonotone(c.vStart, VMid(c), i - 1, j - 1);
    } else if MIDPOINT < i {
      EntryIsMonotone(VMid(c), VMax(c), i - MIDPOINT, j - MIDPOINT);
    }
  }

  /** The table never falls exactly when the three levels are in order. */
  lemma TableRisesExactly(c: Config)
    ensures (forall i: nat, j: nat :: i <= j < SPEED_TABLE_LEN ==> TableEntry(c, i) <= TableEntry(c, j)) <==>
            c.vStart <= VMid(c) <= VMax(c)
  {
    SegmentEnds(c.vStart, VMid(c));
    SegmentEnds(VMid(c), VMax(c));
    if c.vStart <= VMid(c) <= VMax(c) {
      forall i: nat, j: nat | i <= j < SPEED_TABLE_LEN ensures TableEntry(c, i) <= TableEntry(c, j) {
        EntriesInOrder(c, i, j);
      }
    } else if VMid(c) < c.vStart {
      assert TableEntry(c, 63) < TableEntry(c, 1);
    } else {
      assert TableEntry(c, 126) < TableEntry(c, 64);
    }
  }

  /** Every entry, in the CVs: from CV2 in 63 equal steps to 16 * CV6, which index 64 would have had, and
      from there in 63 to 16 * CV5, each to the nearest integer. */
  lemma TableIsNearest(c: Config, i: nat)
    requires i < SPEED_TABLE_LEN
    ensures TableEntry(c, 0) == 0
    ensures 1 <= i <= 63 ==>
      -31 <= 63 * (TableEntry(c, i) - c.vStart) - (16 * c.vMid - c.vStart) * (i - 1) <= 31
    ensures 64 <= i ==>
      -31 <= 63 * (TableEntry(c, i) - 16 * c.vMid) - (16 * c.vHigh - 16 * c.vMid) * (i - 63) <= 31
  {
    hide Entry;
    if 1 <= i <= 63 {
      EntryQuotient(c.vStart, VMid(c), i - 1);
    } else if 64 <= i {
      EntryQuotient(VMid(c), VMax(c), i - 63);
    }
  }

  /** Whatever was computed, an entry fits 16 bits. */
  lemma EntriesFit(x: real)
    ensures 0 <= ToEntry(x) <= 65535
    ensures x < 0.0 ==> ToEntry(x) == 0
    ensures 65535.0 < x ==> ToEntry(x) == 65535
  {}
}
