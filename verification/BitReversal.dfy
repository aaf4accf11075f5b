/** Bit reversal of an index, and the permutation it induces on sequences of power-of-two length. */
module BitReversal {
  import opened PowersOfTwo
  import opened Bits

  /** The `log2(n)`-bit reversal of `i`: the lowest bit of `i` becomes the highest of the result. */
  function Rev(i: nat, n: nat): (r: nat)
    requires IsPowerOfTwo(n) && i < n
    ensures r < n
    decreases n
  {
    if n == 1 then 0 else (if i % 2 == 1 then n / 2 else 0) + Rev(i / 2, n / 2)
  }

  /** The other reading: the highest bit of an index becomes the lowest of its reversal. */
  lemma {:induction false} RevFromTheTop(k: nat, h: nat)
    requires IsPowerOfTwo(2 * h) && k < h
    ensures Rev(k, 2 * h) == 2 * Rev(k, h)
    ensures Rev(k + h, 2 * h) == 2 * Rev(k, h) + 1
    decreases h
  {
    hide Rev, IsPowerOfTwo;
    HalfPower(h);
    RevUnfolds(k, 2 * h);
    RevUnfolds(k + h, 2 * h);
    RevUnfolds(k, h);
    if h > 1 {
      RevFromTheTop(k / 2, h / 2);
      assert (k + h) / 2 == k / 2 + h / 2 && (k + h) % 2 == k % 2;
    }
  }

  lemma HalfPower(h: nat)
    requires IsPowerOfTwo(2 * h)
    ensures IsPowerOfTwo(h) && (h > 1 ==> h == 2 * (h / 2) && IsPowerOfTwo(h / 2))
  {
  }

  lemma RevUnfolds(i: nat, n: nat)
    requires IsPowerOfTwo(n) && i < n
    ensures n == 1 ==> i == 0 && Rev(i, n) == 0
    ensures n > 1 ==> IsPowerOfTwo(n / 2) && i / 2 < n / 2
    ensures n > 1 ==> Rev(i, n) == (if i % 2 == 1 then n / 2 else 0) + Rev(i / 2, n / 2)
  {
  }

  /** Reversing twice gives the index back. */
  lemma {:induction false} RevInvolution(i: nat, n: nat)
    requires IsPowerOfTwo(n) && i < n
    ensures Rev(Rev(i, n), n) == i
    decreases n
  {
    hide Rev, IsPowerOfTwo;
    RevUnfolds(i, n);
    if n > 1 {
      TopBit(n);
      RevFromTheTop(Rev(i / 2, n / 2), n / 2);
      RevInvolution(i / 2, n / 2);
    }
  }

  /** The sequence whose element `k` is element `Rev(k)` of `x`. */
  function Permuted<T>(x: seq<T>): (p: seq<T>)
    requires IsPowerOfTwo(|x|)
    ensures |p| == |x|
  {
    seq(|x|, k requires 0 <= k < |x| => x[Rev(k, |x|)])
  }

  /** The permutation undoes itself, so it loses and duplicates nothing. */
  lemma PermutedInvolution<T>(x: seq<T>)
    requires IsPowerOfTwo(|x|)
    ensures Permuted(Permuted(x)) == x
  {
    forall k | 0 <= k < |x| ensures Permuted(Permuted(x))[k] == x[k] {
      RevInvolution(k, |x|);
    }
  }

  /** One reversed-carry increment: the body of the `for` loop of the FFT, before the swap. */
  method NextReversed(n: nat, i: nat, j0: nat) returns (j: nat)
    requires IsPowerOfTwo(n) && 1 <= i < n
    requires j0 == Rev(i - 1, n)
    ensures j == Rev(i, n)
  {
    hide And, Or, Xor, Rev, IsPowerOfTwo;
    j := j0;
    var bit := n / 2;
    ghost var m: nat := i - 1;   // the part of the index whose carry is still travelling
    TopBit(n);
    SingleBit(j, bit);
    while And(j, bit) != 0
      invariant bit >= 1 && IsPowerOfTwo(bit) && IsPowerOfTwo(2 * bit) && m + 1 < 2 * bit
      invariant j == Rev(m, 2 * bit) && (And(j, bit) != 0 <==> j >= bit)
      invariant Rev(m + 1, 2 * bit) == Rev(i, n)
      decreases bit
    {
      CarryTravels(m, bit);
      SingleBit(j, bit);
      j := Xor(j, bit);
      bit := bit / 2;
      m := m / 2;
      SingleBit(j, bit);
    }
    CarryEnds(m, bit);
    SingleBit(j, bit);
    j := Or(j, bit);
  }

  lemma TopBit(n: nat)
    requires IsPowerOfTwo(n) && n > 1
    ensures n == 2 * (n / 2) && IsPowerOfTwo(n / 2)
  {
  }

  /** While the reversal has its top bit, the carry of the index travels past its lowest bit. */
  lemma CarryTravels(m: nat, bit: nat)
    requires IsPowerOfTwo(bit) && IsPowerOfTwo(2 * bit) && m + 1 < 2 * bit && Rev(m, 2 * bit) >= bit
    ensures bit > 1 && bit == 2 * (bit / 2) && IsPowerOfTwo(bit / 2) && m / 2 + 1 < bit
    ensures Rev(m / 2, bit) == Rev(m, 2 * bit) - bit
    ensures Rev(m / 2 + 1, bit) == Rev(m + 1, 2 * bit)
  {
    assert m % 2 == 1;
    assert (m + 1) / 2 == m / 2 + 1;
  }

  lemma CarryEnds(m: nat, bit: nat)
    requires IsPowerOfTwo(bit) && IsPowerOfTwo(2 * bit) && m + 1 < 2 * bit && Rev(m, 2 * bit) < bit
    ensures Rev(m + 1, 2 * bit) == Rev(m, 2 * bit) + bit
  {
    assert m % 2 == 0;
    assert (m + 1) / 2 == m / 2;
  }

  /** What the permutation loop has reached before iteration `i`: exactly the positions on a pair
      whose smaller member is below `i` have been exchanged. */
  ghost predicate PermutedBelow<T>(x: seq<T>, y: seq<T>, i: nat)
    requires IsPowerOfTwo(|x|) && |y| == |x|
  {
    forall k :: 0 <= k < |x| ==> y[k] == if k < i || Rev(k, |x|) < i then x[Rev(k, |x|)] else x[k]
  }

  lemma PermuteStep<T>(x: seq<T>, y: seq<T>, i: nat)
    requires IsPowerOfTwo(|x|) && |y| == |x| && i < |x| && PermutedBelow(x, y, i)
    ensures Rev(i, |x|) <= i ==> PermutedBelow(x, y, i + 1)
    ensures var j := Rev(i, |x|); i < j ==> PermutedBelow(x, y[i := y[j]][j := y[i]], i + 1)
  {
    RevInvolution(i, |x|);
    forall k | 0 <= k < |x| && Rev(k, |x|) == i ensures k == Rev(i, |x|) {
      RevInvolution(k, |x|);
    }
  }

  method Swap<T>(a: array<T>, i: nat, j: nat)
    requires i < a.Length && j < a.Length
    modifies a
    ensures a[..] == old(a[..])[i := old(a[j])][j := old(a[i])]
    ensures multiset(a[..]) == multiset(old(a[..]))
  {
    a[i], a[j] := a[j], a[i];
  }

  /** The bit-reversal permutation loop, in place. */
  method Permute<T>(a: array<T>)
    requires IsPowerOfTwo(a.Length)
    modifies a
    ensures a[..] == Permuted(old(a[..]))
    ensures multiset(a[..]) == multiset(old(a[..]))
  {
    hide IsPowerOfTwo, Rev, PermutedBelow, Permuted;
    var n := a.Length;
    ghost var x := a[..];
    var j := 0;
    PermuteBegins(x);
    for i := 1 to n
      invariant j == Rev(i - 1, n)
      invariant PermutedBelow(x, a[..], i)
      invariant multiset(a[..]) == multiset(x)
    {
      j := NextReversed(n, i, j);
      PermuteStep(x, a[..], i);
      if i < j {
        Swap(a, i, j);
      }
    }
    PermuteEnds(x, a[..]);
  }

  lemma PermuteBegins<T>(x: seq<T>)
    requires IsPowerOfTwo(|x|)
    ensures Rev(0, |x|) == 0 && PermutedBelow(x, x, 1)
  {
    RevZero(|x|);
  }

  lemma PermuteEnds<T>(x: seq<T>, y: seq<T>)
    requires IsPowerOfTwo(|x|) && |y| == |x| && PermutedBelow(x, y, |x|)
    ensures y == Permuted(x)
  {
  }

  lemma {:induction false} RevZero(n: nat)
    requires IsPowerOfTwo(n)
    ensures Rev(0, n) == 0
    ensures forall k :: 0 <= k < n && Rev(k, n) == 0 ==> k == 0
  {
    if n > 1 {
      RevZero(n / 2);
    }
    forall k | 0 <= k < n && Rev(k, n) == 0 ensures k == 0 {
      RevInvolution(k, n);
    }
  }
}
