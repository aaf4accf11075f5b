/** Index arithmetic of the ring buffer: free-running counters of a fixed word size, masked on
    access. Counters are kept modulo `word` (2^64 for a 64-bit `usize`). */
module WrappingIndex {
  import opened PowersOfTwo
  import opened Bits

  /** The remainder of `a` by `m`, by repeated subtraction. */
  function Wrap(a: nat, m: nat): (r: nat)
    requires m > 0
    ensures r < m
  {
    if a < m then a else Wrap(a - m, m)
  }

  lemma {:induction false} WrapIsRemainder(a: nat, m: nat) returns (q: nat)
    requires m > 0
    ensures a == m * q + Wrap(a, m)
  {
    if a < m {
      q := 0;
    } else {
      q := WrapIsRemainder(a - m, m);
      q := q + 1;
    }
  }

  /** The remainder by `2 * h` is the lowest bit and the remainder of the rest by `h`. */
  lemma {:induction false} WrapByDouble(x: nat, h: nat)
    requires h > 0
    ensures Wrap(x, 2 * h) == x % 2 + 2 * Wrap(x / 2, h)
    decreases x
  {
    if x >= 2 * h {
      WrapByDouble(x - 2 * h, h);
      assert (x - 2 * h) / 2 == x / 2 - h && (x - 2 * h) % 2 == x % 2;
    }
  }

  /** Masking with one less than a power of two is the remainder by it. */
  lemma {:induction false} MaskIsRemainder(x: nat, cap: nat)
    requires IsPowerOfTwo(cap)
    ensures And(x, cap - 1) == Wrap(x, cap)
    decreases cap
  {
    hide Wrap;
    if cap == 1 {
      WrapByOne(x);
    } else {
      MaskIsRemainder(x / 2, cap / 2);
      assert (cap - 1) / 2 == cap / 2 - 1 && (cap - 1) % 2 == 1;
      WrapByDouble(x, cap / 2);
      assert And(x, cap - 1) == x % 2 + 2 * And(x / 2, cap / 2 - 1);
    }
  }

  lemma {:induction false} WrapByOne(x: nat)
    ensures Wrap(x, 1) == 0
    decreases x
  {
    if x > 0 {
      WrapByOne(x - 1);
    }
  }

  function WrappingSub(a: nat, b: nat, word: nat): (d: nat)
    requires a < word && b < word
    ensures d < word
  {
    if a >= b then a - b else a + word - b
  }

  function WrappingAdd(a: nat, b: nat, word: nat): (c: nat)
    requires word > 0
    ensures c < word
  {
    Wrap(a + b, word)
  }

  /** Wrapping an addend first makes no difference. */
  lemma {:induction false} WrapOfSum(a: nat, b: nat, m: nat)
    requires m > 0
    ensures Wrap(Wrap(a, m) + b, m) == Wrap(a + b, m)
  {
    if a >= m {
      WrapOfSum(a - m, b, m);
    }
  }

  /** Dropping one word does not change a remainder by a smaller power of two. */
  lemma {:induction false} WrapDropsWord(a: nat, word: nat, cap: nat)
    requires IsPowerOfTwo(word) && IsPowerOfTwo(cap) && cap <= word
    ensures Wrap(a + word, cap) == Wrap(a, cap)
    decreases word
  {
    hide Wrap;
    PowersAreSpaced(word, cap);
    if cap < word {
      WrapDropsWord(a, word / 2, cap);
      WrapDropsWord(a + word / 2, word / 2, cap);
      assert a + word / 2 + word / 2 == a + word;
    } else {
      WrapDropsOne(a, cap);
    }
  }

  lemma WrapDropsOne(a: nat, m: nat)
    requires m > 0
    ensures Wrap(a + m, m) == Wrap(a, m)
  {
  }

  lemma {:induction false} WrapTwice(a: nat, word: nat, cap: nat)
    requires IsPowerOfTwo(word) && IsPowerOfTwo(cap) && cap <= word
    ensures Wrap(Wrap(a, word), cap) == Wrap(a, cap)
    decreases a
  {
    if a >= word {
      WrapTwice(a - word, word, cap);
      WrapDropsWord(a - word, word, cap);
    }
  }

  /** A wrapped counter selects the cell its true value selects. */
  lemma CellOfWrapped(counter: nat, i: nat, word: nat, cap: nat)
    requires IsPowerOfTwo(word) && IsPowerOfTwo(cap) && cap <= word
    ensures Wrap(WrappingAdd(Wrap(counter, word), i, word), cap) == Wrap(counter + i, cap)
  {
    WrapOfSum(counter, i, word);
    WrapTwice(counter + i, word, cap);
  }

  /** The wrapped difference of two counters less than a word apart is their true difference. */
  lemma {:induction false} DifferenceWraps(a: nat, b: nat, word: nat)
    requires word > 0 && b <= a < b + word
    ensures WrappingSub(Wrap(a, word), Wrap(b, word), word) == a - b
    decreases b
  {
    if b >= word {
      DifferenceWraps(a - word, b - word, word);
    }
  }

  /** Counters less than a capacity apart select different cells. */
  lemma {:induction false} CellsDistinct(a: nat, b: nat, cap: nat)
    requires cap > 0 && a < b < a + cap
    ensures Wrap(a, cap) != Wrap(b, cap)
    decreases a
  {
    if a >= cap {
      CellsDistinct(a - cap, b - cap, cap);
    }
  }
}
