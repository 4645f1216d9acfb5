/**
 * Slot-index arithmetic of the rotation: `backups` slots, advanced one at a
 * time and wrapping to 0, and the previous slot computed with Go's `%`.
 */
module Slots {

  /** Go's integer remainder, which truncates toward zero (unlike Dafny's `%`). */
  function GoRem(a: int, b: int): (r: int)
    requires b > 0
    ensures a >= 0 ==> 0 <= r < b && r == a % b
    ensures a < 0 ==> -b < r <= 0
  {
    if a >= 0 then a % b else -((-a) % b)
  }

  /** The slot after `cur`, as the rotation counts it. */
  function Next(cur: int, backups: int): int
    requires backups >= 1
  {
    (cur + 1) % backups
  }

  /** Index of the previous log file: `(cur - 1 + backups) % backups` in Go. */
  function PrevIndex(cur: int, backups: int): (r: int)
    requires backups >= 1
    ensures 0 <= cur ==> 0 <= r < backups
  {
    GoRem(cur - 1 + backups, backups)
  }

  /** Going back one slot and then forward one lands on the current slot. */
  lemma PrevThenNext(cur: int, backups: int)
    requires 0 <= cur < backups
    ensures Next(PrevIndex(cur, backups), backups) == cur
  {
  }

  /** After a rotation, the previous slot is the one that was active before it. */
  lemma NextThenPrev(cur: int, backups: int)
    requires 0 <= cur < backups
    ensures PrevIndex(Next(cur, backups), backups) == cur
  {
  }

  /** Advancing from an in-range slot moves to the following slot, or wraps to 0 from the last one. */
  lemma NextStep(cur: int, backups: int)
    requires 0 <= cur < backups
    ensures Next(cur, backups) == if cur + 1 < backups then cur + 1 else 0
  {
  }

  /** The active slot after `k` rotations starting from `cur`. */
  function Rotated(cur: int, k: nat, backups: int): int
    requires backups >= 1
  {
    if k == 0 then cur else Next(Rotated(cur, k - 1, backups), backups)
  }

  /** Within one cycle, `k` rotations advance the slot by `k`, wrapping once past the last slot. */
  lemma {:induction false} RotatedWithinCycle(cur: int, k: nat, backups: int)
    requires 0 <= cur < backups && k <= backups
    ensures Rotated(cur, k, backups) == if cur + k < backups then cur + k else cur + k - backups
  {
    if k > 0 {
      RotatedWithinCycle(cur, k - 1, backups);
      NextStep(Rotated(cur, k - 1, backups), backups);
    }
  }

  /**
   * A slot that rotation truncates is not truncated again before every other
   * slot has been active: fewer than `backups` rotations never come back to
   * it, and exactly `backups` rotations do.
   */
  lemma SlotReusedOnlyAfterFullCycle(cur: int, k: nat, backups: int)
    requires 0 <= cur < backups && 0 < k <= backups
    ensures Rotated(cur, k, backups) == cur <==> k == backups
  {
    RotatedWithinCycle(cur, k, backups);
  }
}
