/**
 * The levelling curve of utils/habitUtils.ts (`getXpForLevel`,
 * `calculateLevel`), over exact reals: the factor 1.1 is 11/10 and no
 * rounding takes place.
 */
module Leveling {

  /** The growth factor 1.1 of the curve. */
  const Growth: real := 11.0 / 10.0

  function Pow(b: real, n: nat): real
  {
    if n == 0 then 1.0 else b * Pow(b, n - 1)
  }

  lemma {:induction false} PowGrowthAtLeastOne(n: nat)
    ensures Pow(Growth, n) >= 1.0
  {
    if n > 0 {
      PowGrowthAtLeastOne(n - 1);
    }
  }

  /**
   * `getXpForLevel(level)`: the experience needed to advance from `level` to
   * the next, `level * 100 * 1.1^(level - 1)`; it is at least 100 per level.
   */
  function XpForLevel(level: nat): (xp: real)
    requires level >= 1
    ensures xp >= 100.0 * level as real
  {
    PowGrowthAtLeastOne(level - 1);
    level as real * 100.0 * Pow(Growth, level - 1)
  }

  /** Each level costs strictly more than the one before. */
  lemma XpForLevelIncreases(level: nat)
    requires level >= 1
    ensures XpForLevel(level) < XpForLevel(level + 1)
  {
    var p := Pow(Growth, level - 1);
    PowGrowthAtLeastOne(level - 1);
    var l := level as real;
    assert Pow(Growth, level) == Growth * p;
    calc {
      XpForLevel(level + 1);
      (l + 1.0) * 100.0 * (Growth * p);
      l * 100.0 * p + (l + 11.0) * 10.0 * p;
    >
      l * 100.0 * p;
      XpForLevel(level);
    }
  }

  /** The cost of a level grows with the level. */
  lemma {:induction false} XpForLevelMonotone(a: nat, b: nat)
    requires 1 <= a < b
    ensures XpForLevel(a) < XpForLevel(b)
  {
    XpForLevelIncreases(b - 1);
    if a < b - 1 {
      XpForLevelMonotone(a, b - 1);
    }
  }

  /** The total experience spent to climb from level 1 to `level`. */
  function XpToReach(level: nat): real
    requires level >= 1
  {
    if level == 1 then 0.0 else XpToReach(level - 1) + XpForLevel(level - 1)
  }

  lemma {:induction false} XpToReachMonotone(a: nat, b: nat)
    requires 1 <= a <= b
    ensures XpToReach(a) <= XpToReach(b)
  {
    if a < b {
      XpToReachMonotone(a, b - 1);
    }
  }

  /**
   * `level` is the level of `xp`: the experience reaches the level (level 1
   * is where everybody starts) but not the next one.
   */
  predicate IsLevelOf(xp: real, level: nat)
  {
    level >= 1 && (level == 1 || XpToReach(level) <= xp) && xp < XpToReach(level + 1)
  }

  /** Percentage of the way from `level` to the next. */
  function Progress(xp: real, level: nat): real
    requires level >= 1
  {
    (xp - XpToReach(level)) / XpForLevel(level) * 100.0
  }

  /**
   * `calculateLevel(xp)`: subtract the cost of each level while the remaining
   * experience covers it; the result is the level reached and the share of
   * the next level's cost already earned.
   */
  method CalculateLevel(xp: real) returns (level: nat, progress: real)
    ensures IsLevelOf(xp, level)
    ensures progress == Progress(xp, level)
    ensures xp >= 0.0 ==> 0.0 <= progress < 100.0
  {
    var remaining := xp;
    level := 1;
    while remaining >= XpForLevel(level)
      invariant level >= 1
      invariant remaining == xp - XpToReach(level)
      invariant level == 1 || remaining >= 0.0
      decreases remaining.Floor
    {
      remaining := remaining - XpForLevel(level);
      level := level + 1;
    }
    progress := (remaining / XpForLevel(level)) * 100.0;
    FractionBelowOne(remaining, XpForLevel(level));
  }

  lemma FractionBelowOne(r: real, t: real)
    requires 0.0 < t && r < t
    ensures r / t < 1.0
  {
    assert (r / t) * t == r;
  }

  /** More experience never means a lower level. */
  lemma LevelMonotone(xp1: real, xp2: real, level1: nat, level2: nat)
    requires IsLevelOf(xp1, level1) && IsLevelOf(xp2, level2)
    requires xp1 <= xp2
    ensures level1 <= level2
  {
    if level1 > level2 {
      XpToReachMonotone(level2 + 1, level1);
    }
  }

  /** An amount of experience has exactly one level. */
  lemma LevelUnique(xp: real, level1: nat, level2: nat)
    requires IsLevelOf(xp, level1) && IsLevelOf(xp, level2)
    ensures level1 == level2
  {
    LevelMonotone(xp, xp, level1, level2);
    LevelMonotone(xp, xp, level2, level1);
  }

  /** No experience is level 1 with no progress; exactly 100 is level 2 with no progress. */
  lemma LevelExamples()
    ensures IsLevelOf(0.0, 1) && Progress(0.0, 1) == 0.0
    ensures IsLevelOf(100.0, 2) && Progress(100.0, 2) == 0.0
  {
    assert XpForLevel(1) == 100.0;
    assert XpForLevel(2) == 220.0;
    assert XpToReach(2) == 100.0;
    assert XpToReach(3) == 320.0;
  }
}
