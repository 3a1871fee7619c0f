/**
  When the levels of the bucket list spill, and which ledgers each of their
  buckets then covers.  `n` is the number of levels, `kNumLevels`.
 */
module Schedule {
  import opened Bits

  function LevelSize(level: nat): (s: nat)
    ensures s > 0
  {
    Pow2(2 * (level + 1))
  }

  function LevelHalf(level: nat): (h: nat)
    ensures 2 * h == LevelSize(level) && h > 0
  {
    LevelSize(level) / 2
  }

  /** `v & ~(m - 1)` for a power of two `m`: `MaskBitwise` below. */
  function Mask(v: nat, m: nat): nat
    requires m > 0
  {
    v - v % m
  }

  lemma MaskBitwise(v: nat, k: nat)
    requires v < Pow2(32) && k <= 32
    ensures Pow2(k) <= Pow2(32)
    ensures Mask(v, Pow2(k)) == And(v, Not(32, Pow2(k) - 1))
  {
    AndNotLow(v, 32, k);
  }

  predicate LevelShouldSpill(n: nat, ledger: nat, level: nat) {
    level != n - 1 && (ledger == Mask(ledger, LevelHalf(level)) || ledger == Mask(ledger, LevelSize(level)))
  }

  predicate KeepDeadEntries(n: nat, level: nat) {
    level < n - 1
  }

  predicate ShouldMergeWithEmptyCurr(n: nat, ledger: nat, level: nat) {
    level != 0 &&
    var mergeStartLedger := Mask(ledger, LevelHalf(level - 1));
    LevelShouldSpill(n, mergeStartLedger + LevelHalf(level - 1), level)
  }

  // ---- Arithmetic of the schedule

  lemma HalfQuadruples(level: nat)
    ensures LevelHalf(0) == 2
    ensures LevelHalf(level + 1) == 4 * LevelHalf(level)
    ensures LevelHalf(level) >= 2
  {
    assert Pow2(2 * (level + 2)) == 2 * Pow2(2 * (level + 1) + 1) == 4 * Pow2(2 * (level + 1));
    assert Pow2(2 * (level + 1)) == 2 * Pow2(2 * level + 1) == 4 * Pow2(2 * level);
    assert Pow2(2) == 2 * Pow2(1) == 4 * Pow2(0);
  }

  lemma MaskBounds(v: nat, m: nat)
    requires m > 0
    ensures Mask(v, m) <= v < Mask(v, m) + m
    ensures Mask(v, m) % m == 0
    ensures Mask(v, m) == v <==> v % m == 0
    ensures v < m ==> Mask(v, m) == 0
    ensures Mask(v, m) == 0 ==> v < m
    ensures Mask(v, m) > 0 ==> Mask(v, m) >= m
  {
    var q := v / m;
    assert v == m * q + v % m;
    ModUnique(m * q, m, q, 0);
    if v < m {
      ModUnique(v, m, 0, v);
    }
    if q >= 1 {
      assert m * q >= m;
    }
  }

  /** Rounding changes only at multiples, and then by one step. */
  lemma MaskNext(v: nat, m: nat)
    requires m > 0
    ensures (v + 1) % m == 0 ==> v + 1 >= m && Mask(v, m) == v + 1 - m && Mask(v + 1, m) == v + 1
    ensures (v + 1) % m != 0 ==> Mask(v + 1, m) == Mask(v, m)
  {
    var q, r := v / m, v % m;
    assert v == m * q + r;
    if r == m - 1 {
      assert v + 1 == m * (q + 1) + 0;
      ModUnique(v + 1, m, q + 1, 0);
    } else {
      ModUnique(v + 1, m, q, r + 1);
    }
  }

  lemma MaskCoarser(v: nat, m: nat, f: nat)
    requires m > 0 && f > 0
    ensures m * f > 0
    ensures Mask(v, m * f) <= Mask(v, m)
    ensures v % (m * f) == 0 ==> v % m == 0
    ensures Mask(v, m * f) % m == 0
  {
    assert m * f > 0;
    var b := Mask(v, m * f);
    var q := v / (m * f);
    assert b == (m * f) * q;
    assert b == m * (f * q) + 0;
    ModUnique(b, m, f * q, 0);
    MaskBounds(v, m * f);
    var r := v - b;
    assert v == m * (f * q + r / m) + r % m by {
      assert r == m * (r / m) + r % m;
      assert m * (f * q + r / m) == m * (f * q) + m * (r / m);
    }
    ModUnique(v, m, f * q + r / m, r % m);
    assert r / m >= 0;
    assert r % m <= r;
  }

  lemma SpillIffMultiple(n: nat, ledger: nat, level: nat)
    ensures LevelShouldSpill(n, ledger, level) <==> level != n - 1 && ledger % LevelHalf(level) == 0
  {
    MaskBounds(ledger, LevelHalf(level));
    MaskBounds(ledger, LevelSize(level));
    MaskCoarser(ledger, LevelHalf(level), 2);
  }

  // ---- The ledgers each bucket covers

  /** How far the boundaries of a level lag behind multiples of its half size: 1, 5, 21, 85, ... */
  function Skew(level: nat): nat {
    if level == 0 then 1 else Skew(level - 1) + 2 * LevelHalf(level - 1)
  }

  function Clamp(x: int): nat {
    if x < 0 then 0 else x
  }

  /** The newest ledger in `curr` of a level; the next older bucket ends where this one starts. */
  function CurrTop(n: nat, ledger: nat, level: nat): nat {
    if level >= n then 0
    else if level == 0 then ledger
    else Clamp(Mask(ledger, LevelHalf(level - 1)) - LevelHalf(level - 1) - Skew(level - 1))
  }

  /** The newest ledger in `snap` of a level, and the one before the oldest in its `curr`. */
  function SnapTop(n: nat, ledger: nat, level: nat): nat {
    if level + 1 >= n then 0
    else Clamp(Mask(ledger, LevelHalf(level)) - Skew(level))
  }

  lemma {:induction false} SkewBelowHalf(level: nat)
    ensures Skew(level) < LevelHalf(level)
  {
    HalfQuadruples(level);
    if level == 0 {
    } else {
      HalfQuadruples(level - 1);
      SkewBelowHalf(level - 1);
    }
  }

  /** The buckets tile the ledgers from `ledger` down to 1. */
  lemma Descending(n: nat, ledger: nat, level: nat)
    requires level < n
    ensures CurrTop(n, ledger, 0) <= ledger
    ensures CurrTop(n, ledger, level) >= SnapTop(n, ledger, level) >= CurrTop(n, ledger, level + 1)
    ensures CurrTop(n, ledger, n) == 0
  {
    if level > 0 {
      HalfQuadruples(level - 1);
      MaskCoarser(ledger, LevelHalf(level - 1), 4);
    }
    MaskBounds(ledger, LevelHalf(level));
  }

  // ---- `sizeOfCurr` and `sizeOfSnap`

  function Max(a: nat, b: nat): nat {
    if a < b then b else a
  }

  function SizeOfCurr(n: nat, ledger: nat, level: nat): (size: nat)
    requires n >= 2 && ledger != 0 && level < n
    ensures size == CurrTop(n, ledger, level) - SnapTop(n, ledger, level)
    decreases ledger, 3 * level + 1
  {
    Descending(n, ledger, level);
    if level == 0 then
      CurrSizeAtZero(n, ledger);
      if ledger == 1 then 1 else 1 + ledger % 2
    else
      var size := LevelSize(level);
      var half := LevelHalf(level);
      if level != n - 1 && Mask(ledger, half) != 0 then
        var sizeDelta := Pow2(2 * level - 1);
        CurrSizeSteps(n, ledger, level);
        if Mask(ledger, half) == ledger || Mask(ledger, size) == ledger then
          sizeDelta
        else
          var prevSize := LevelSize(level - 1);
          var prevHalf := LevelHalf(level - 1);
          var previousRelevantLedger := Max(Max(Mask(ledger - 1, prevHalf), Mask(ledger - 1, prevSize)),
                                            Max(Mask(ledger - 1, half), Mask(ledger - 1, size)));
          if Mask(ledger, prevHalf) == ledger || Mask(ledger, prevSize) == ledger then
            SizeOfCurr(n, previousRelevantLedger, level) + sizeDelta
          else
            SizeOfCurr(n, previousRelevantLedger, level)
      else
        SnapTopStartsAtZero(n, ledger, level);
        ledger - SizeBelow(n, ledger, level)
  }

  function SizeOfSnap(n: nat, ledger: nat, level: nat): (size: nat)
    requires n >= 2 && ledger != 0 && level < n
    ensures size == SnapTop(n, ledger, level) - CurrTop(n, ledger, level + 1)
    decreases ledger, 3 * level + 2
  {
    if level == n - 1 then 0
    else
      SnapSize(n, ledger, level);
      if Mask(ledger, LevelSize(level)) != 0 then LevelHalf(level)
      else ledger - (SizeBelow(n, ledger, level) + SizeOfCurr(n, ledger, level))
  }

  /** The sum the two functions above take over the younger levels. */
  function SizeBelow(n: nat, ledger: nat, level: nat): (size: nat)
    requires n >= 2 && ledger != 0 && level < n
    ensures size == ledger - CurrTop(n, ledger, level)
    decreases ledger, 3 * level
  {
    if level == 0 then 0
    else SizeBelow(n, ledger, level - 1) + SizeOfCurr(n, ledger, level - 1) + SizeOfSnap(n, ledger, level - 1)
  }

  lemma CurrSizeAtZero(n: nat, ledger: nat)
    requires n >= 2 && ledger != 0
    ensures CurrTop(n, ledger, 0) - SnapTop(n, ledger, 0) == if ledger == 1 then 1 else 1 + ledger % 2
  {
    HalfQuadruples(0);
  }

  /** While a level is filling up nothing older than its `curr` exists. */
  lemma SnapTopStartsAtZero(n: nat, ledger: nat, level: nat)
    requires 0 < level < n && (level == n - 1 || Mask(ledger, LevelHalf(level)) == 0)
    ensures SnapTop(n, ledger, level) == 0
  {
  }

  lemma SnapSize(n: nat, ledger: nat, level: nat)
    requires level + 1 < n
    ensures Mask(ledger, LevelSize(level)) != 0 ==>
              SnapTop(n, ledger, level) - CurrTop(n, ledger, level + 1) == LevelHalf(level)
    ensures Mask(ledger, LevelSize(level)) == 0 ==> CurrTop(n, ledger, level + 1) == 0
  {
    var half := LevelHalf(level);
    MaskBounds(ledger, LevelSize(level));
    MaskCoarser(ledger, half, 2);
    MaskBounds(ledger, half);
    SkewBelowHalf(level);
    if ledger < LevelSize(level) {
      MultipleBelowDouble(Mask(ledger, half), half);
    }
  }

  lemma MultipleBelowDouble(v: nat, m: nat)
    requires m > 0 && v % m == 0 && v < 2 * m
    ensures v <= m
  {
    if v > m {
      ModUnique(v, m, 1, v - m);
    }
  }

  lemma MaskBetween(u: nat, v: nat, m: nat)
    requires m > 0 && Mask(v, m) <= u <= v
    ensures Mask(u, m) == Mask(v, m)
  {
    var q := v / m;
    assert v == m * q + v % m;
    ModUnique(u, m, q, u - m * q);
  }

  lemma CurrSizeFull(n: nat, ledger: nat, level: nat)
    requires 0 < level && level + 1 < n && Mask(ledger, LevelHalf(level)) != 0
    ensures CurrTop(n, ledger, level) - SnapTop(n, ledger, level)
         == Mask(ledger, LevelHalf(level - 1)) - Mask(ledger, LevelHalf(level)) + LevelHalf(level - 1)
  {
    HalfQuadruples(level - 1);
    SkewBelowHalf(level);
    MaskBounds(ledger, LevelHalf(level));
    MaskCoarser(ledger, LevelHalf(level - 1), 4);
  }

  lemma PreviousRelevant(v: nat, p: nat)
    requires p > 0
    ensures Max(Max(Mask(v, p), Mask(v, 2 * p)), Max(Mask(v, 4 * p), Mask(v, 8 * p))) == Mask(v, p)
    ensures Mask(Mask(v, p), p) == Mask(v, p)
    ensures Mask(Mask(v, p), 4 * p) == Mask(v, 4 * p)
  {
    MaskCoarser(v, p, 2);
    MaskCoarser(v, p, 4);
    MaskCoarser(v, p, 8);
    MaskBounds(v, p);
    MaskBounds(Mask(v, p), p);
    MaskBetween(Mask(v, p), v, 4 * p);
  }

  function FullSize(v: nat, p: nat): int
    requires p > 0
  {
    Mask(v, p) - Mask(v, 4 * p) + p
  }

  lemma SizeRecurrence(v: nat, p: nat)
    requires p > 0 && Mask(v, 4 * p) != 0
    ensures Mask(v, 8 * p) == v ==> Mask(v, 4 * p) == v
    ensures Mask(v, 2 * p) == v ==> Mask(v, p) == v
    ensures Mask(v, 4 * p) == v ==> FullSize(v, p) == p
    ensures Mask(v, 4 * p) != v ==>
              var u := Mask(v - 1, p);
              && u == Max(Max(Mask(v - 1, p), Mask(v - 1, 2 * p)), Max(Mask(v - 1, 4 * p), Mask(v - 1, 8 * p)))
              && u < v && Mask(u, 4 * p) == Mask(v, 4 * p) && 0 < u
              && FullSize(v, p) == FullSize(u, p) + if Mask(v, p) == v then p else 0
  {
    hide Mask, Max;
    MaskCoarser(v, 4 * p, 2);
    MaskBounds(v, 8 * p);
    MaskBounds(v, 4 * p);
    MaskCoarser(v, p, 2);
    MaskBounds(v, 2 * p);
    MaskBounds(v, p);
    MaskCoarser(v, p, 4);
    if Mask(v, 4 * p) != v {
      PreviousRelevant(v - 1, p);
      MaskNext(v - 1, 4 * p);
      MaskNext(v - 1, p);
      MaskBounds(v - 1, p);
      MaskCoarser(v - 1, p, 4);
    }
  }

  /** `curr` of a full level grows by one spill of the level below, and restarts when it spills itself. */
  lemma CurrSizeSteps(n: nat, ledger: nat, level: nat)
    requires 0 < level && level + 1 < n && Mask(ledger, LevelHalf(level)) != 0
    ensures var size, half, prevSize, prevHalf :=
              LevelSize(level), LevelHalf(level), LevelSize(level - 1), LevelHalf(level - 1);
            var delta := Pow2(2 * level - 1);
            if Mask(ledger, half) == ledger || Mask(ledger, size) == ledger then
              CurrTop(n, ledger, level) - SnapTop(n, ledger, level) == delta
            else
              var previous := Max(Max(Mask(ledger - 1, prevHalf), Mask(ledger - 1, prevSize)),
                                  Max(Mask(ledger - 1, half), Mask(ledger - 1, size)));
              && 0 < previous < ledger
              && CurrTop(n, ledger, level) - SnapTop(n, ledger, level)
              == CurrTop(n, previous, level) - SnapTop(n, previous, level)
                 + (if Mask(ledger, prevHalf) == ledger || Mask(ledger, prevSize) == ledger then delta else 0)
  {
    var p := LevelHalf(level - 1);
    HalfQuadruples(level - 1);
    CurrSizeFull(n, ledger, level);
    SizeRecurrence(ledger, p);
    assert LevelSize(level) == 8 * p && LevelHalf(level) == 4 * p && LevelSize(level - 1) == 2 * p;
    assert Pow2(2 * level - 1) == p;
    if Mask(ledger, 4 * p) != ledger {
      CurrSizeFull(n, Mask(ledger - 1, p), level);
    }
  }
}
