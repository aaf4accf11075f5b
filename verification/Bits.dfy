/** The bitwise operators on non-negative integers, bit by bit, and what they come to on a single
    bit. */
module Bits {
  import opened PowersOfTwo

  function And(a: nat, b: nat): nat {
    if a == 0 || b == 0 then 0
    else (if a % 2 == 1 && b % 2 == 1 then 1 else 0) + 2 * And(a / 2, b / 2)
  }

  function Or(a: nat, b: nat): nat {
    if a == 0 then b else if b == 0 then a
    else (if a % 2 == 1 || b % 2 == 1 then 1 else 0) + 2 * Or(a / 2, b / 2)
  }

  function Xor(a: nat, b: nat): nat {
    if a == 0 then b else if b == 0 then a
    else (if a % 2 != b % 2 then 1 else 0) + 2 * Xor(a / 2, b / 2)
  }

  /** On a number below its double, a single bit is tested by a comparison, cleared by a subtraction
      and set by an addition. */
  lemma {:induction false} SingleBit(j: nat, bit: nat)
    requires IsPowerOfTwo(bit) && j < 2 * bit
    ensures And(j, bit) != 0 <==> j >= bit
    ensures j >= bit ==> Xor(j, bit) == j - bit
    ensures j < bit ==> Or(j, bit) == j + bit
    decreases bit
  {
    if bit > 1 && j > 0 {
      SingleBit(j / 2, bit / 2);
    }
  }
}
