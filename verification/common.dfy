/**
 * Definitions shared by the two programs: a nullable slot, the
 * `randomBetween` helper both programs define identically, and the
 * "first strict maximum" rule both winner loops follow.
 */
module Common {

  /** A nullable value: `None` stands for a NULL pointer. */
  datatype Option<+T> = None | Some(value: T)

  /** The C remainder `a % b` for a non-negative dividend: it truncates toward
      zero, so for `a >= 0` its result has the sign of `a` whatever the sign of `b`. */
  function CRem(a: nat, b: int): (r: int)
    requires b != 0
    ensures 0 <= r < (if b < 0 then -b else b)
    ensures a < (if b < 0 then -b else b) ==> r == a
  {
    if b < 0 then a % -b else a % b
  }

  /** `randomBetween(lower, upper)`: `(rand() % (upper - lower + 1)) + lower`,
      where `draw` is the value `rand()` returned (never negative). */
  function RandomBetween(lower: int, upper: int, draw: nat): (r: int)
    requires upper - lower + 1 != 0
    ensures lower <= upper ==> lower <= r <= upper
  {
    CRem(draw, upper - lower + 1) + lower
  }

  /** Every value of the range is produced by some draw. */
  lemma RandomBetweenCovers(lower: int, upper: int, v: int)
    requires lower <= v <= upper
    ensures RandomBetween(lower, upper, v - lower) == v
  {
    var n := upper - lower + 1;
    assert 0 <= v - lower < n;
    assert (v - lower) % n == v - lower;
  }

  /** `i` is where a scan `if (s[k] > best) { best = s[k]; at = k; }` that
      starts below every element settles: a maximum, and strictly larger than
      everything before it, so a later equal value never takes over. */
  ghost predicate IsFirstMax(s: seq<int>, i: int)
  {
    && 0 <= i < |s|
    && (forall k :: 0 <= k < |s| ==> s[k] <= s[i])
    && (forall k :: 0 <= k < i ==> s[k] < s[i])
  }

  /** The first maximum is unique, so a winner loop's result is determined. */
  lemma FirstMaxUnique(s: seq<int>, i: int, j: int)
    requires IsFirstMax(s, i) && IsFirstMax(s, j)
    ensures i == j
  {
    // both are maxima, so they hold the same value; an earlier index
    // would then have to be strictly smaller than the later one
    assert s[i] <= s[j] && s[j] <= s[i];
  }
}
