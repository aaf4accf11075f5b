/** How reading a whole number as a 64-bit float changes it: `f64` has 53 significant bits, and parsing
    rounds to the nearest value, halves to the even one. */
module Doubles {
  import opened PowersOfTwo

  /** How many low bits of `n` a double does not hold. */
  function Exponent(n: nat): nat {
    if n < 0x20_0000_0000_0000 then 0 else 1 + Exponent(n / 2)
  }

  /** The double nearest to `n` among the multiples of `u`, of two equally near ones the even multiple. */
  function RoundTo(n: nat, u: nat): nat
    requires u > 0
  {
    var q, r := n / u, n % u;
    if 2 * r < u || (2 * r == u && q % 2 == 0) then q * u else (q + 1) * u
  }

  function Rounded(n: nat): nat {
    RoundTo(n, PowerOfTwo(Exponent(n)))
  }

  /** A whole number that is a double, whatever its size. */
  ghost predicate IsDouble(d: nat) {
    exists m: nat, k: nat :: Scaled(m, k, d)
  }

  predicate Scaled(m: nat, k: nat, d: nat) {
    m < 0x20_0000_0000_0000 && d == m * PowerOfTwo(k)
  }

  function Distance(a: nat, b: nat): nat {
    if a >= b then a - b else b - a
  }

  lemma {:induction false} ExponentBounds(n: nat)
    ensures n < 0x20_0000_0000_0000 * PowerOfTwo(Exponent(n))
    ensures Exponent(n) > 0 ==> n >= 0x10_0000_0000_0000 * PowerOfTwo(Exponent(n))
  {
    hide IsPowerOfTwo;
    if n >= 0x20_0000_0000_0000 {
      ExponentBounds(n / 2);
    }
  }

  lemma {:induction false} ExponentOf(n: nat, e: nat)
    requires 0x10_0000_0000_0000 * PowerOfTwo(e) <= n < 0x20_0000_0000_0000 * PowerOfTwo(e)
    ensures Exponent(n) == e
    decreases e
  {
    hide IsPowerOfTwo;
    if e > 0 {
      PositivePower(e - 1);
      ExponentOf(n / 2, e - 1);
    }
  }

  lemma {:induction false} PositivePower(k: nat)
    ensures PowerOfTwo(k) >= 1
  {
    hide IsPowerOfTwo;
    if k > 0 {
      PositivePower(k - 1);
    }
  }

  lemma Division(n: nat, u: nat)
    requires u > 0
    ensures n == n / u * u + n % u && n % u < u
  {
  }

  lemma SmallQuotient(n: nat, u: nat, bound: nat)
    requires u > 0 && n < bound * u
    ensures n / u < bound
  {
    Division(n, u);
    if n / u >= bound {
      NotLess(n / u, bound, u);
    }
  }

  lemma NotLess(a: nat, b: nat, u: nat)
    requires a >= b
    ensures a * u >= b * u
  {
  }

  lemma LargeQuotient(n: nat, u: nat, bound: nat)
    requires u > 0 && n >= bound * u
    ensures n / u >= bound
  {
    Division(n, u);
    if n / u + 1 <= bound {
      NotLess(bound, n / u + 1, u);
    }
  }

  /** Rounding yields a double. */
  lemma RoundedIsDouble(n: nat)
    ensures IsDouble(Rounded(n))
  {
    hide IsPowerOfTwo, PowerOfTwo, Exponent;
    var e := Exponent(n);
    var u := PowerOfTwo(e);
    ExponentBounds(n);
    PositivePower(e);
    SmallQuotient(n, u, 0x20_0000_0000_0000);
    var q := n / u;
    if Rounded(n) == q * u {
      assert Scaled(q, e, Rounded(n));
    } else if q + 1 < 0x20_0000_0000_0000 {
      assert Scaled(q + 1, e, Rounded(n));
    } else {
      TwoTo53();
      PowerOfSum(53, e);
      assert Scaled(1, 53 + e, Rounded(n));
    }
  }

  /** And no double is nearer. */
  lemma RoundedIsNearest(n: nat, d: nat)
    requires IsDouble(d)
    ensures Distance(Rounded(n), n) <= Distance(d, n)
  {
    hide IsPowerOfTwo, PowerOfTwo, Exponent;
    var m: nat, k: nat :| Scaled(m, k, d);
    var e := Exponent(n);
    var u := PowerOfTwo(e);
    PositivePower(e);
    if k >= e {
      PowerOfSum(k - e, e);
      Associate(m, PowerOfTwo(k - e), u);
      NearestMultiple(n, u, m * PowerOfTwo(k - e));
    } else {
      SmallerDouble(n, m, k);
      ExponentBounds(n);
      LargeQuotient(n, u, 0x10_0000_0000_0000);
      NotLess(n / u, 0x10_0000_0000_0000, u);
      Division(n, u);
      NearestMultiple(n, u, n / u);
    }
  }

  lemma Associate(a: nat, b: nat, c: nat)
    ensures a * (b * c) == a * b * c
  {
  }

  /** The rounding moves `n` by no more than the smaller of the two gaps around it. */
  lemma RoundsToNearerEnd(n: nat, u: nat)
    requires u > 0
    ensures Distance(RoundTo(n, u), n) <= n % u && Distance(RoundTo(n, u), n) <= u - n % u
  {
    Division(n, u);
    NextMultiple(n / u, u);
  }

  lemma NextMultiple(p: nat, u: nat)
    ensures (p + 1) * u == p * u + u
  {
  }

  lemma NearestMultiple(n: nat, u: nat, q: nat)
    requires u > 0
    ensures Distance(RoundTo(n, u), n) <= Distance(q * u, n)
  {
    hide RoundTo;
    RoundsToNearerEnd(n, u);
    Division(n, u);
    var p := n / u;
    if q <= p {
      NotLess(p, q, u);
    } else {
      NotLess(q, p + 1, u);
      NextMultiple(p, u);
    }
  }

  /** A double of finer spacing than those around `n` lies below the smallest of these. */
  lemma SmallerDouble(n: nat, m: nat, k: nat)
    requires m < 0x20_0000_0000_0000 && k < Exponent(n)
    ensures m * PowerOfTwo(k) <= 0x10_0000_0000_0000 * PowerOfTwo(Exponent(n))
  {
    hide IsPowerOfTwo, Exponent;
    var e := Exponent(n);
    PowersGrow(k, e - 1);
    NotLess(0x20_0000_0000_0000, m, PowerOfTwo(k));
  }

  lemma {:induction false} PowersGrow(j: nat, k: nat)
    requires j <= k
    ensures PowerOfTwo(j) <= PowerOfTwo(k)
    decreases k - j
  {
    hide IsPowerOfTwo;
    if j < k {
      PowersGrow(j, k - 1);
    }
  }

  /** Exactly the doubles are left as they are. */
  lemma RoundedKeepsDoubles(n: nat)
    ensures Rounded(n) == n <==> IsDouble(n)
  {
    hide Rounded, IsDouble;
    RoundedIsDouble(n);
    if IsDouble(n) {
      RoundedIsNearest(n, n);
    }
  }

  lemma TwoTo53()
    ensures PowerOfTwo(53) == 0x20_0000_0000_0000
  {
    hide PowerOfTwo, IsPowerOfTwo;
    TwoToSmall();
    PowerOfSum(8, 8);
    PowerOfSum(16, 16);
    PowerOfSum(5, 16);
    PowerOfSum(32, 21);
    TwoTo8();
  }

  lemma TwoToSmall()
    ensures PowerOfTwo(5) == 32 && PowerOfTwo(11) == 2048 && PowerOfTwo(12) == 4096
  {
  }

  /** Up to 2^53 every whole number is a double. */
  lemma SmallWholesAreDoubles(n: nat)
    requires n <= 0x20_0000_0000_0000
    ensures Rounded(n) == n
  {
    hide PowerOfTwo, IsPowerOfTwo, Rounded;
    RoundedKeepsDoubles(n);
    if n < 0x20_0000_0000_0000 {
      PowerZero();
      assert Scaled(n, 0, n);
    } else {
      TwoTo53();
      assert Scaled(1, 53, n);
    }
  }

  lemma PowerZero()
    ensures PowerOfTwo(0) == 1
  {
  }

  /** Of two doubles equally near, the even multiple of their spacing is taken. */
  lemma TiesGoToEven(n: nat, q: nat)
    requires var u := PowerOfTwo(Exponent(n)); q * u < n < (q + 1) * u && n - q * u == (q + 1) * u - n
    ensures Rounded(n) == (if q % 2 == 0 then q else q + 1) * PowerOfTwo(Exponent(n))
  {
    hide PowerOfTwo, IsPowerOfTwo, Exponent;
    var u := PowerOfTwo(Exponent(n));
    PositivePower(Exponent(n));
    NextMultiple(q, u);
    QuotientIs(n, u, q);
  }

  lemma QuotientIs(n: nat, u: nat, q: nat)
    requires u > 0 && q * u <= n < q * u + u
    ensures n / u == q && n % u == n - q * u
  {
    Division(n, u);
    if n / u > q {
      NotLess(n / u, q + 1, u);
      NextMultiple(q, u);
    } else if n / u < q {
      NotLess(q, n / u + 1, u);
      NextMultiple(n / u, u);
    }
  }

  // ---- around the largest 64-bit integer ----

  /** From 2^64 on, numbers up to half a spacing above it are rounded down to it. */
  lemma RoundedAbove64(n: nat)
    requires 0x1_0000_0000_0000_0000 <= n < 0x2_0000_0000_0000_0000
    ensures Rounded(n) == 0x1_0000_0000_0000_0000 <==> n <= 0x1_0000_0000_0000_0800
    ensures Rounded(n) >= 0x1_0000_0000_0000_0000
  {
    hide PowerOfTwo, IsPowerOfTwo, Exponent;
    TwoToSmall();
    ExponentOf(n, 12);
  }

  /** Rounding keeps to its side of every double. */
  lemma RoundedStaysBelow(n: nat, d: nat)
    requires IsDouble(d)
    ensures n <= d ==> Rounded(n) <= d
    ensures n >= d ==> Rounded(n) >= d
  {
    hide Rounded, IsDouble;
    RoundedIsNearest(n, d);
  }

  /** Exactly the numbers up to 2^64 and half a spacing are read as at most 2^64. */
  lemma RoundedAtMost64(n: nat)
    ensures Rounded(n) <= 0x1_0000_0000_0000_0000 <==> n <= 0x1_0000_0000_0000_0800
  {
    hide PowerOfTwo, IsPowerOfTwo, Rounded;
    TwoTo64();
    TwoTo65();
    assert Scaled(1, 64, 0x1_0000_0000_0000_0000) && Scaled(1, 65, 0x2_0000_0000_0000_0000);
    if n < 0x1_0000_0000_0000_0000 {
      RoundedStaysBelow(n, 0x1_0000_0000_0000_0000);
    } else if n < 0x2_0000_0000_0000_0000 {
      RoundedAbove64(n);
    } else {
      RoundedStaysBelow(n, 0x2_0000_0000_0000_0000);
    }
  }

  lemma TwoTo65()
    ensures PowerOfTwo(65) == 0x2_0000_0000_0000_0000
  {
    hide PowerOfTwo, IsPowerOfTwo;
    TwoTo64();
    PowerOfSum(1, 64);
    TwoToOne();
  }

  lemma TwoToOne()
    ensures PowerOfTwo(1) == 2
  {
  }

  /** The largest 64-bit integer is not a double: it is read as 2^64. */
  lemma LargestWord()
    ensures Rounded(0xFFFF_FFFF_FFFF_FFFF) == 0x1_0000_0000_0000_0000
  {
    hide PowerOfTwo, IsPowerOfTwo, Exponent;
    TwoToSmall();
    ExponentOf(0xFFFF_FFFF_FFFF_FFFF, 11);
  }

  // ---- the finite doubles ----

  /** Whether reading `n` yields infinity: 53 bits scaled by more than 2^971 are past every finite
      double. */
  predicate Overflows(n: nat) {
    Exponent(Rounded(n)) > 971
  }

  /** That is, whether the rounded value reaches 2^1024. */
  lemma OverflowsFrom1024(n: nat, top: nat)
    requires top == 1024
    ensures Overflows(n) <==> Rounded(n) >= PowerOfTwo(top)
  {
    hide PowerOfTwo, IsPowerOfTwo, Rounded, Exponent;
    var r := Rounded(n);
    var e := Exponent(r);
    ExponentBounds(r);
    TwoTo53();
    TwoTo52();
    PowerOfSum(53, 971);
    PowerOfSum(52, 972);
    if e > 971 {
      PowersGrow(972, e);
    } else {
      PowersGrow(e, 971);
    }
  }

  lemma TwoTo52()
    ensures PowerOfTwo(52) == 0x10_0000_0000_0000
  {
    hide PowerOfTwo, IsPowerOfTwo;
    TwoTo53();
    TwoToOne();
    PowerOfSum(1, 52);
  }

  lemma OverflowIsFar(n: nat)
    requires Overflows(n)
    ensures n > 0x1_0000_0000_0000_0800
  {
    hide PowerOfTwo, IsPowerOfTwo, Rounded, Exponent;
    RoundedAtMost64(n);
    ExponentBounds(Rounded(n));
    TwoTo65();
    TwoTo52();
    PowerOfSum(52, 13);
    PowersGrow(13, Exponent(Rounded(n)));
  }
}
