/** Powers of two, as a property of a number and as a function of the exponent. */
module PowersOfTwo {

  predicate IsPowerOfTwo(n: nat): (b: bool)
    ensures b ==> n >= 1
  {
    n == 1 || (n > 1 && n % 2 == 0 && IsPowerOfTwo(n / 2))
  }

  /** Nothing lies strictly between a power of two and its double. */
  lemma {:induction false} PowersAreSpaced(n: nat, len: nat)
    requires IsPowerOfTwo(n) && IsPowerOfTwo(len)
    ensures len < n ==> 2 * len <= n
    decreases n
  {
    if len > 1 && n > 1 {
      PowersAreSpaced(n / 2, len / 2);
    }
  }

  function PowerOfTwo(k: nat): (n: nat)
    ensures IsPowerOfTwo(n)
  {
    if k == 0 then 1 else 2 * PowerOfTwo(k - 1)
  }

  lemma {:induction false} PowerOfSum(a: nat, b: nat)
    ensures PowerOfTwo(a + b) == PowerOfTwo(a) * PowerOfTwo(b)
  {
    hide IsPowerOfTwo;
    if a > 0 {
      PowerOfSum(a - 1, b);
      DoubleProduct(PowerOfTwo(a - 1), PowerOfTwo(b));
    }
  }

  lemma DoubleProduct(x: nat, y: nat)
    ensures 2 * (x * y) == 2 * x * y
  {
  }

  lemma TwoTo8()
    ensures PowerOfTwo(8) == 256
  {
  }

  lemma TwoTo64()
    ensures PowerOfTwo(64) == 0x1_0000_0000_0000_0000
  {
    hide PowerOfTwo, IsPowerOfTwo;
    TwoTo8();
    PowerOfSum(8, 8);
    PowerOfSum(16, 16);
    PowerOfSum(32, 32);
  }
}
