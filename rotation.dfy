/**
 * Circular rotation of a 64-bit block (roll_right and roll_left).
 *
 * Both are written as two shifts and an OR.  In C a shift by the full
 * width is undefined, so the count must lie strictly between 0 and 64.
 */
module Rotation {
  import opened Words

  /** Every bit moves `count` places towards the low end; the low bits wrap to the top. */
  function RollRight(block: Block, count: bv64): Block
    requires 0 < count < 64
  {
    (block >> count) | (block << (64 - count))
  }

  /** Every bit moves `count` places towards the high end; the high bits wrap to the bottom. */
  function RollLeft(block: Block, count: bv64): Block
    requires 0 < count < 64
  {
    (block << count) | (block >> (64 - count))
  }

  /** The shift-and-OR definitions agree with Dafny's own rotations at the count the cipher uses. */
  lemma RollsAreRotations(x: Block)
    ensures RollLeft(x, 10) == x.RotateLeft(10)
    ensures RollRight(x, 10) == x.RotateRight(10)
  {
  }

  /** Rolling left and right by the cipher's count undo each other, in either order. */
  lemma RollInverse(x: Block)
    ensures RollLeft(RollRight(x, 10), 10) == x
    ensures RollRight(RollLeft(x, 10), 10) == x
  {
  }
}
