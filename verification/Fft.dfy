/** The in-place iterative radix-2 FFT, proved equal to the naive discrete Fourier transform for
    every power-of-two length. The twiddle of a stage of length `len` is `root(len)`; the source
    computes it as cos/sin of -2*pi/len, and the proof uses only that squaring the twiddle of one
    stage gives the twiddle of the stage before. */
module Fft {
  import opened ComplexArithmetic
  import opened BitReversal
  import opened PowersOfTwo

  /** What the stage twiddles must satisfy up to length `n`. */
  ghost predicate RootsOfUnity(root: nat -> Complex, n: nat) {
    && root(1) == ONE
    && (n >= 2 ==> root(2) == Neg(ONE))
    && forall m: nat :: 1 <= m && 2 * m <= n ==> Mul(root(2 * m), root(2 * m)) == root(m)
  }

  /** The definition: bin `k` is the sum over `t < m` of `x[t] * w^(t*k)`. */
  function DftSum(x: seq<Complex>, w: Complex, k: nat, m: nat): Complex
    requires m <= |x|
  {
    if m == 0 then ZERO else Add(DftSum(x, w, k, m - 1), Mul(x[m - 1], Pow(w, (m - 1) * k)))
  }

  function DftBin(x: seq<Complex>, w: Complex, k: nat): Complex {
    DftSum(x, w, k, |x|)
  }

  lemma {:induction false} DftSumIsPoly(x: seq<Complex>, w: Complex, k: nat, m: nat)
    requires m <= |x|
    ensures DftSum(x, w, k, m) == Poly(x[..m], Pow(w, k))
  {
    hide Mul, Add, Pow, Poly;
    if m > 0 {
      DftSumIsPoly(x, w, k, m - 1);
      assert x[..m] == x[..m - 1] + [x[m - 1]];
      PolySnoc(x[..m - 1], x[m - 1], Pow(w, k));
      assert (m - 1) * k == k * (m - 1);
      PowPow(w, k, m - 1);
    } else {
      EmptyPoly(Pow(w, k));
    }
  }

  lemma EmptyPoly(z: Complex)
    ensures Poly([], z) == ZERO
  {
  }

  // ---- one stage: merging two half-length transforms ----

  /** The butterflies of one block: `e` and `o` are the transforms of its two halves. */
  function Combine(e: seq<Complex>, o: seq<Complex>, w: Complex): (c: seq<Complex>)
    requires |e| == |o|
    ensures |c| == 2 * |e|
  {
    seq(2 * |e|, k requires 0 <= k < 2 * |e| =>
      if k < |e| then Add(e[k], Mul(o[k], Pow(w, k)))
      else Sub(e[k - |e|], Mul(o[k - |e|], Pow(w, k - |e|))))
  }

  /** The transform of a sequence that is already in bit-reversed order, as the stages compute it. */
  function Stages(p: seq<Complex>, root: nat -> Complex): (c: seq<Complex>)
    requires IsPowerOfTwo(|p|)
    ensures |c| == |p|
    decreases |p|
  {
    if |p| == 1 then p
    else Combine(Stages(p[..|p| / 2], root), Stages(p[|p| / 2..], root), root(|p|))
  }

  lemma SmallPowers(z: Complex)
    ensures Pow(z, 1) == z && Pow(z, 2) == Mul(z, z)
  {
    assert Pow(z, 1) == Mul(z, Pow(z, 0)) == z;
  }

  lemma {:induction false} HalfTurn(root: nat -> Complex, n: nat, h: nat)
    requires h > 0 && IsPowerOfTwo(2 * h) && 2 * h <= n && RootsOfUnity(root, n)
    ensures Pow(root(2 * h), h) == Neg(ONE)
    decreases h
  {
    SmallPowers(root(2 * h));
    hide Pow, Mul;
    if h > 1 {
      var q := h / 2;
      HalfTurn(root, n, q);
      PowPow(root(2 * h), 2, q);
      assert Mul(root(2 * h), root(2 * h)) == root(h);
    }
  }

  lemma PermutedTop(x: seq<Complex>, h: nat, k: nat)
    requires |x| == 2 * h && k < h && IsPowerOfTwo(|x|)
    ensures Permuted(x)[k] == x[2 * Rev(k, h)] && Permuted(x)[k + h] == x[2 * Rev(k, h) + 1]
  {
    RevFromTheTop(k, h);
  }

  lemma PermutedEvensOdds(x: seq<Complex>, h: nat, k: nat)
    requires |x| == 2 * h && k < h && IsPowerOfTwo(|x|)
    ensures Permuted(Evens(x))[k] == x[2 * Rev(k, h)]
    ensures Permuted(Odds(x))[k] == x[2 * Rev(k, h) + 1]
  {
    var r := Rev(k, h);
    assert Evens(x)[r] == x[2 * r] && Odds(x)[r] == x[2 * r + 1];
  }

  lemma PermutedHalves(x: seq<Complex>, h: nat)
    requires |x| == 2 * h && h > 0 && IsPowerOfTwo(|x|)
    ensures Permuted(x)[..h] == Permuted(Evens(x))
    ensures Permuted(x)[h..] == Permuted(Odds(x))
  {
    var p, e, o := Permuted(x), Permuted(Evens(x)), Permuted(Odds(x));
    assert |p| == 2 * h && |e| == h && |o| == h;
    forall k | 0 <= k < h ensures p[k] == e[k] && p[k + h] == o[k] {
      PermutedTop(x, h, k);
      PermutedEvensOdds(x, h, k);
    }
  }

  lemma SquareOfPower(w: Complex, k: nat)
    ensures Mul(Pow(w, k), Pow(w, k)) == Pow(Mul(w, w), k)
  {
    PowAdd(w, k, k);
    PowPow(w, 2, k);
    SmallPowers(w);
    assert 2 * k == k + k;
  }

  /** Half a turn negates a power of the root, so the two halves share one square. */
  lemma OppositePower(root: nat -> Complex, h: nat, k: nat)
    requires h > 0 && IsPowerOfTwo(2 * h) && RootsOfUnity(root, 2 * h)
    ensures Pow(root(2 * h), k + h) == Neg(Pow(root(2 * h), k))
    ensures Mul(Pow(root(2 * h), k), Pow(root(2 * h), k)) == Pow(root(h), k)
    ensures Mul(Pow(root(2 * h), k + h), Pow(root(2 * h), k + h)) == Pow(root(h), k)
  {
    var w := root(2 * h);
    assert Mul(w, w) == root(h);
    SquareOfPower(w, k);
    PowAdd(w, k, h);
    HalfTurn(root, 2 * h, h);
    MulNegation(Pow(w, k));
  }

  lemma MulNegation(z: Complex)
    ensures Mul(z, Neg(ONE)) == Neg(z) && Mul(Neg(z), Neg(z)) == Mul(z, z)
  {
  }

  /** A bin in the lower half, and its partner in the upper half, from the half-length bins. */
  lemma ButterflyIsSplit(x: seq<Complex>, root: nat -> Complex, h: nat, k: nat)
    requires |x| == 2 * h && k < h && IsPowerOfTwo(|x|) && RootsOfUnity(root, |x|)
    ensures var z := Pow(root(2 * h), k);
            var e, o := Poly(Evens(x), Pow(root(h), k)), Poly(Odds(x), Pow(root(h), k));
            && Poly(x, z) == Add(e, Mul(o, z))
            && Poly(x, Pow(root(2 * h), k + h)) == Sub(e, Mul(o, z))
  {
    OppositePower(root, h, k);
    var z, y := Pow(root(2 * h), k), Pow(root(2 * h), k + h);
    PolySplit(x, z);
    PolySplit(x, y);
    var e, o := Poly(Evens(x), Pow(root(h), k)), Poly(Odds(x), Pow(root(h), k));
    MulCommutes(z, o);
    AddOpposite(e, o, z);
  }

  lemma AddOpposite(e: Complex, o: Complex, z: Complex)
    ensures Add(e, Mul(Neg(z), o)) == Sub(e, Mul(o, z))
  {
  }

  /** The naive bin as a polynomial evaluated at a power of the root. */
  lemma DftBinIsPoly(x: seq<Complex>, w: Complex, k: nat)
    ensures DftBin(x, w, k) == Poly(x, Pow(w, k))
  {
    DftSumIsPoly(x, w, k, |x|);
    assert x[..|x|] == x;
  }

  /** Combining the bins of the even and of the odd samples gives the bins of the whole. */
  lemma CombinedBin(x: seq<Complex>, root: nat -> Complex, h: nat, e: seq<Complex>, o: seq<Complex>, j: nat)
    requires |x| == 2 * h && |e| == |o| == h && j < h && IsPowerOfTwo(|x|) && RootsOfUnity(root, |x|)
    requires e[j] == DftBin(Evens(x), root(h), j) && o[j] == DftBin(Odds(x), root(h), j)
    ensures Combine(e, o, root(2 * h))[j] == DftBin(x, root(2 * h), j)
    ensures Combine(e, o, root(2 * h))[j + h] == DftBin(x, root(2 * h), j + h)
  {
    hide DftBin, Poly, Pow, Mul, Add, Sub, Combine;
    DftBinIsPoly(Evens(x), root(h), j);
    DftBinIsPoly(Odds(x), root(h), j);
    DftBinIsPoly(x, root(2 * h), j);
    DftBinIsPoly(x, root(2 * h), j + h);
    ButterflyIsSplit(x, root, h, j);
    CombineAt(e, o, root(2 * h), j);
    CombineAt(e, o, root(2 * h), j + h);
  }

  lemma OnePointDft(x: seq<Complex>, root: nat -> Complex)
    requires |x| == 1
    ensures Stages(Permuted(x), root)[0] == DftBin(x, root(1), 0)
  {
    DftBinIsPoly(x, root(1), 0);
    assert Permuted(x) == x;
    PolyOfOne(x, Pow(root(1), 0));
  }

  lemma HalvesOf(x: seq<Complex>, root: nat -> Complex)
    requires IsPowerOfTwo(|x|) && |x| > 1 && RootsOfUnity(root, |x|)
    ensures |x| % 2 == 0 && |Evens(x)| == |Odds(x)| == |x| / 2 && |x| == 2 * (|x| / 2)
    ensures IsPowerOfTwo(|x| / 2) && RootsOfUnity(root, |x| / 2)
  {
  }

  lemma StagesOfHalves(x: seq<Complex>, root: nat -> Complex, h: nat)
    requires |x| == 2 * h && IsPowerOfTwo(|x|)
    ensures h > 0 && IsPowerOfTwo(h)
    ensures Stages(Permuted(x), root)
         == Combine(Stages(Permuted(Evens(x)), root), Stages(Permuted(Odds(x)), root), root(2 * h))
  {
    PermutedHalves(x, h);
    StagesUnfold(Permuted(x), root, h);
  }

  /** The stages applied to the bit-reversed input give every bin of the naive transform. */
  lemma {:induction false} StagesAreDft(x: seq<Complex>, root: nat -> Complex, k: nat)
    requires IsPowerOfTwo(|x|) && k < |x| && RootsOfUnity(root, |x|)
    ensures Stages(Permuted(x), root)[k] == DftBin(x, root(|x|), k)
    decreases |x|
  {
    hide DftBin, Combine, Stages, Permuted, RootsOfUnity, IsPowerOfTwo, Evens, Odds;
    if |x| == 1 {
      OnePointDft(x, root);
    } else {
      HalvesOf(x, root);
      var h := |x| / 2;
      var j := if k < h then k else k - h;
      StagesAreDft(Evens(x), root, j);
      StagesAreDft(Odds(x), root, j);
      StagesOfHalves(x, root, h);
      CombinedBin(x, root, h, Stages(Permuted(Evens(x)), root), Stages(Permuted(Odds(x)), root), j);
    }
  }

  lemma PolyOfOne(x: seq<Complex>, z: Complex)
    requires |x| == 1
    ensures Poly(x, z) == x[0]
  {
    assert x[1..] == [];
    assert Mul(z, ZERO) == ZERO;
  }

  lemma StagesUnfold(p: seq<Complex>, root: nat -> Complex, h: nat)
    requires |p| == 2 * h && IsPowerOfTwo(|p|)
    ensures h > 0 && IsPowerOfTwo(h)
    ensures Stages(p, root) == Combine(Stages(p[..h], root), Stages(p[h..], root), root(|p|))
  {
  }

  lemma CombineAt(e: seq<Complex>, o: seq<Complex>, w: Complex, k: nat)
    requires |e| == |o| && k < 2 * |e|
    ensures Combine(e, o, w)[k] == if k < |e| then Add(e[k], Mul(o[k], Pow(w, k)))
                                   else Sub(e[k - |e|], Mul(o[k - |e|], Pow(w, k - |e|)))
  {
  }

  // ---- the loops ----

  /** The value a finished butterfly leaves at position `t` of the block that starts at `i`. */
  function Butterflied(x: seq<Complex>, i: nat, h: nat, w: Complex, t: nat): Complex
    requires i <= t < i + 2 * h <= |x|
  {
    if t < i + h then Add(x[t], Mul(x[t + h], Pow(w, t - i)))
    else Sub(x[t - h], Mul(x[t], Pow(w, t - h - i)))
  }

  /** `y` is `x` after the first `k` butterflies of the block of length `2 * h` that starts at `i`. */
  ghost predicate Butterflies(x: seq<Complex>, y: seq<Complex>, i: nat, h: nat, w: Complex, k: nat)
    requires i + 2 * h <= |x| && |y| == |x| && k <= h
  {
    forall t {:trigger y[t]} :: 0 <= t < |x| ==>
      y[t] == if i <= t < i + k || i + h <= t < i + h + k then Butterflied(x, i, h, w, t) else x[t]
  }

  lemma ButterfliesDone(x: seq<Complex>, y: seq<Complex>, i: nat, h: nat, w: Complex)
    requires i + 2 * h <= |x| && |y| == |x| && Butterflies(x, y, i, h, w, h)
    ensures y[i..i + 2 * h] == Combine(x[i..i + h], x[i + h..i + 2 * h], w)
    ensures y[..i] == x[..i] && y[i + 2 * h..] == x[i + 2 * h..]
  {
    hide Add, Sub, Mul, Pow, Combine, Butterflies;
    var e, o := x[i..i + h], x[i + h..i + 2 * h];
    var block, c := y[i..i + 2 * h], Combine(e, o, w);
    forall k | 0 <= k < 2 * h ensures block[k] == c[k] {
      ButterflyDone(x, y, i, h, w, i + k);
      CombineAt(e, o, w, k);
    }
    OutsideBlock(x, y, i, h, w);
  }

  lemma ButterflyDone(x: seq<Complex>, y: seq<Complex>, i: nat, h: nat, w: Complex, t: nat)
    requires i <= t < i + 2 * h <= |x| && |y| == |x| && Butterflies(x, y, i, h, w, h)
    ensures y[t] == Butterflied(x, i, h, w, t)
  {
    hide Butterflied;
  }

  lemma OutsideBlock(x: seq<Complex>, y: seq<Complex>, i: nat, h: nat, w: Complex)
    requires i + 2 * h <= |x| && |y| == |x| && Butterflies(x, y, i, h, w, h)
    ensures y[..i] == x[..i] && y[i + 2 * h..] == x[i + 2 * h..]
  {
    hide Butterflied;
  }

  /** One pass of the innermost loop body. */
  method Butterfly(a: array<Complex>, p: nat, q: nat, w: Complex)
    requires p < q < a.Length
    modifies a
    ensures a[..] == old(a[..])[p := Add(old(a[p]), Mul(old(a[q]), w))][q := Sub(old(a[p]), Mul(old(a[q]), w))]
  {
    var u := a[p];
    var v := Mul(a[q], w);
    a[p] := Add(u, v);
    a[q] := Sub(u, v);
  }

  /** The innermost loop: all butterflies of one block, with the twiddle accumulated by repeated
      multiplication. */
  method ButterflyBlock(a: array<Complex>, i: nat, h: nat, wlen: Complex)
    requires i + 2 * h <= a.Length
    modifies a
    ensures a[..][i..i + 2 * h] == Combine(old(a[..])[i..i + h], old(a[..])[i + h..i + 2 * h], wlen)
    ensures a[..][..i] == old(a[..])[..i] && a[..][i + 2 * h..] == old(a[..])[i + 2 * h..]
  {
    var w := ONE;
    for k := 0 to h
      invariant w == Pow(wlen, k)
      invariant Butterflies(old(a[..]), a[..], i, h, wlen, k)
    {
      ghost var y := a[..];
      Butterfly(a, i + k, i + k + h, w);
      ButterflyStep(old(a[..]), y, a[..], i, h, wlen, k);
      w := Mul(w, wlen);
      MulCommutes(Pow(wlen, k), wlen);
    }
    ButterfliesDone(old(a[..]), a[..], i, h, wlen);
  }

  lemma ButterflyStep(x: seq<Complex>, y: seq<Complex>, z: seq<Complex>, i: nat, h: nat, w: Complex, k: nat)
    requires i + 2 * h <= |x| && |y| == |x| == |z| && k < h && Butterflies(x, y, i, h, w, k)
    requires var p, q := i + k, i + k + h; var v := Mul(y[q], Pow(w, k));
             z == y[p := Add(y[p], v)][q := Sub(y[p], v)]
    ensures Butterflies(x, z, i, h, w, k + 1)
  {
    hide Mul, Add, Sub, Pow;
    assert y[i + k] == x[i + k] && y[i + k + h] == x[i + k + h];
    assert z[i + k] == Butterflied(x, i, h, w, i + k);
    assert z[i + k + h] == Butterflied(x, i, h, w, i + k + h);
    forall t | 0 <= t < |x| && t != i + k && t != i + k + h ensures z[t] == y[t] {
    }
  }

  // ---- aligned blocks ----

  predicate Multiple(n: nat, len: nat)
    requires len > 0
  {
    n == 0 || (n >= len && Multiple(n - len, len))
  }

  lemma {:induction false} MultipleSum(a: nat, b: nat, len: nat)
    requires len > 0 && Multiple(a, len) && Multiple(b, len)
    ensures Multiple(a + b, len)
    decreases a
  {
    if a > 0 {
      MultipleSum(a - len, b, len);
    }
  }

  lemma MultipleStep(n: nat, len: nat)
    requires len > 0 && Multiple(n, len)
    ensures Multiple(n + len, len)
  {
  }

  lemma {:induction false} PowersDivide(n: nat, len: nat)
    requires IsPowerOfTwo(n) && IsPowerOfTwo(len) && len <= n
    ensures Multiple(n, len)
    decreases n
  {
    if len < n {
      PowersAreSpaced(n, len);
      PowersDivide(n / 2, len);
      MultipleSum(n / 2, n / 2, len);
    }
  }

  /** The concatenated transforms of the consecutive blocks of length `len` of `p`. */
  ghost function Blocks(p: seq<Complex>, root: nat -> Complex, len: nat): (c: seq<Complex>)
    requires IsPowerOfTwo(len) && Multiple(|p|, len)
    ensures |c| == |p|
    decreases |p|
  {
    if p == [] then [] else Stages(p[..len], root) + Blocks(p[len..], root, len)
  }

  lemma {:induction false} BlocksSnoc(p: seq<Complex>, q: seq<Complex>, root: nat -> Complex, len: nat)
    requires IsPowerOfTwo(len) && Multiple(|p|, len) && |q| == len
    ensures Multiple(|p + q|, len)
    ensures Blocks(p + q, root, len) == Blocks(p, root, len) + Stages(q, root)
    decreases |p|
  {
    hide Stages, IsPowerOfTwo;
    MultipleSum(|p|, |q|, len);
    if p == [] {
      assert p + q == q && q[..len] == q && q[len..] == [];
    } else {
      assert (p + q)[..len] == p[..len] && (p + q)[len..] == p[len..] + q;
      BlocksSnoc(p[len..], q, root, len);
    }
  }

  lemma {:induction false} BlocksOfOne(p: seq<Complex>, root: nat -> Complex)
    ensures Multiple(|p|, 1) && Blocks(p, root, 1) == p
    decreases |p|
  {
    if p != [] {
      BlocksOfOne(p[1..], root);
      assert p == p[..1] + p[1..];
    }
  }

  /** What one stage has reached at block start `i`: blocks of the new length before it, blocks of
      the old length from it on. */
  ghost predicate StageAt(p: seq<Complex>, y: seq<Complex>, root: nat -> Complex, h: nat, i: nat)
    requires IsPowerOfTwo(h) && IsPowerOfTwo(2 * h) && |y| == |p| && i <= |p|
  {
    && Multiple(i, 2 * h) && Multiple(|p| - i, 2 * h) && Multiple(|p| - i, h)
    && y[..i] == Blocks(p[..i], root, 2 * h)
    && y[i..] == Blocks(p[i..], root, h)
  }

  /** Before a block is combined its two halves hold the transforms of the halves of the input. */
  lemma BlockHalves(p: seq<Complex>, y: seq<Complex>, root: nat -> Complex, h: nat, i: nat)
    requires IsPowerOfTwo(h) && IsPowerOfTwo(2 * h) && |y| == |p| && i < |p| && StageAt(p, y, root, h, i)
    ensures i + 2 * h <= |p|
    ensures y[i..i + h] == Stages(p[i..i + h], root) && y[i + h..i + 2 * h] == Stages(p[i + h..i + 2 * h], root)
    ensures Multiple(|p| - i - 2 * h, 2 * h) && Multiple(|p| - i - 2 * h, h)
    ensures y[i + 2 * h..] == Blocks(p[i + 2 * h..], root, h)
  {
    hide Stages, IsPowerOfTwo;
    BlockSlices(p, i, h);
    BlockSlices(y, i, h);
    var q := p[i..];
    assert Multiple(|q| - h, h) && Multiple(|q| - 2 * h, h);
    var s1, s2, s3 := Stages(q[..h], root), Stages(q[h..][..h], root), Blocks(q[h..][h..], root, h);
    assert Blocks(q, root, h) == s1 + Blocks(q[h..], root, h) == s1 + (s2 + s3);
    assert |s1| == h && |s2| == h;
    ThreeParts(s1, s2, s3);
  }

  lemma ThreeParts(s1: seq<Complex>, s2: seq<Complex>, s3: seq<Complex>)
    requires |s1| == |s2|
    ensures var s, h := s1 + (s2 + s3), |s1|; s[..h] == s1 && s[h..2 * h] == s2 && s[2 * h..] == s3
  {
  }

  lemma BlockSlices(p: seq<Complex>, i: nat, h: nat)
    requires i + 2 * h <= |p|
    ensures p[i..i + 2 * h][..h] == p[i..i + h] && p[i..i + 2 * h][h..] == p[i + h..i + 2 * h]
    ensures p[i..][..h] == p[i..i + h] && p[i..][h..2 * h] == p[i..][h..][..h] == p[i + h..i + 2 * h]
    ensures p[i..][2 * h..] == p[i..][h..][h..] == p[i + 2 * h..]
    ensures p[..i] + p[i..i + 2 * h] == p[..i + 2 * h]
  {
  }

  lemma StagesOfBlock(p: seq<Complex>, root: nat -> Complex, h: nat, i: nat)
    requires IsPowerOfTwo(2 * h) && i + 2 * h <= |p|
    ensures h > 0 && IsPowerOfTwo(h)
    ensures Stages(p[i..i + 2 * h], root)
         == Combine(Stages(p[i..i + h], root), Stages(p[i + h..i + 2 * h], root), root(2 * h))
  {
    hide Stages, Combine, IsPowerOfTwo;
    StagesUnfold(p[i..i + 2 * h], root, h);
    BlockSlices(p, i, h);
  }

  lemma StageStep(p: seq<Complex>, y: seq<Complex>, z: seq<Complex>, root: nat -> Complex, h: nat, i: nat)
    requires IsPowerOfTwo(h) && IsPowerOfTwo(2 * h) && |y| == |p| == |z| && i < |p| && StageAt(p, y, root, h, i)
    requires i + 2 * h <= |p| && z[i..i + 2 * h] == Combine(y[i..i + h], y[i + h..i + 2 * h], root(2 * h))
    requires z[..i] == y[..i] && z[i + 2 * h..] == y[i + 2 * h..]
    ensures StageAt(p, z, root, h, i + 2 * h)
  {
    hide Stages, Combine, IsPowerOfTwo, Blocks, Multiple;
    BlockHalves(p, y, root, h, i);
    StagesOfBlock(p, root, h, i);
    MultipleStep(i, 2 * h);
    BlocksSnoc(p[..i], p[i..i + 2 * h], root, 2 * h);
    BlockSlices(p, i, h);
    BlockSlices(z, i, h);
  }

  lemma StageEnds(p: seq<Complex>, y: seq<Complex>, root: nat -> Complex, h: nat)
    requires IsPowerOfTwo(h) && IsPowerOfTwo(2 * h) && |y| == |p| && Multiple(|p|, h) && Multiple(|p|, 2 * h)
    ensures y == Blocks(p, root, h) ==> StageAt(p, y, root, h, 0)
    ensures StageAt(p, y, root, h, |p|) ==> y == Blocks(p, root, 2 * h)
  {
    assert p[0..] == p && y[0..] == y && p[..|p|] == p && y[..|y|] == y;
  }

  /** One pass of the middle loop body. */
  method StageBlock(a: array<Complex>, ghost p: seq<Complex>, root: nat -> Complex, len: nat, ghost h: nat, i: nat)
    requires IsPowerOfTwo(h) && IsPowerOfTwo(len) && len == 2 * h && |p| == a.Length && i < a.Length
    requires StageAt(p, a[..], root, h, i)
    modifies a
    ensures i + 2 * h <= a.Length && StageAt(p, a[..], root, h, i + 2 * h)
  {
    hide Stages, Combine, Blocks, Multiple, StageAt, IsPowerOfTwo;
    ghost var y := a[..];
    BlockHalves(p, y, root, h, i);
    ButterflyBlock(a, i, len / 2, root(len));
    StageStep(p, y, a[..], root, h, i);
  }

  /** The middle loop: one stage, doubling the block length from `h` to `len`. */
  method Stage(a: array<Complex>, ghost p: seq<Complex>, root: nat -> Complex, len: nat, ghost h: nat)
    requires IsPowerOfTwo(a.Length) && IsPowerOfTwo(len) && len == 2 * h && len <= a.Length
    requires |p| == a.Length && IsPowerOfTwo(h) && Multiple(|p|, h) && a[..] == Blocks(p, root, h)
    modifies a
    ensures Multiple(|p|, len) && a[..] == Blocks(p, root, len)
  {
    hide Stages, Combine, Blocks, Multiple, StageAt, IsPowerOfTwo;
    PowersDivide(a.Length, len);
    StageEnds(p, a[..], root, h);
    var i := 0;
    while i < a.Length
      invariant i <= a.Length && StageAt(p, a[..], root, h, i)
    {
      StageBlock(a, p, root, len, h, i);
      i := i + len;
    }
    StageEnds(p, a[..], root, h);
  }

  /** The outer loop: all stages, from blocks of one sample to one block of all. */
  method AllStages(a: array<Complex>, root: nat -> Complex)
    requires IsPowerOfTwo(a.Length)
    modifies a
    ensures a[..] == Stages(old(a[..]), root)
  {
    hide Stages, Combine, Blocks, Multiple, IsPowerOfTwo;
    var n := a.Length;
    ghost var p := a[..];
    BlocksOfOne(p, root);
    OneIsPower();
    var len := 2;
    ghost var h := 1;
    while len <= n
      invariant len == 2 * h && IsPowerOfTwo(h) && h <= n
      invariant Multiple(n, h) && a[..] == Blocks(p, root, h)
      decreases 2 * n - len
    {
      DoubleIsPower(h);
      Stage(a, p, root, len, h);
      h := len;
      len := 2 * len;
    }
    PowersAreSpaced(n, h);
    OneBlock(p, root);
  }

  lemma OneIsPower()
    ensures IsPowerOfTwo(1)
  {
  }

  lemma DoubleIsPower(h: nat)
    requires IsPowerOfTwo(h)
    ensures IsPowerOfTwo(2 * h)
  {
  }

  lemma OneBlock(p: seq<Complex>, root: nat -> Complex)
    requires IsPowerOfTwo(|p|) && Multiple(|p|, |p|)
    ensures Blocks(p, root, |p|) == Stages(p, root)
  {
    hide Stages;
    assert p[..|p|] == p && p[|p|..] == [];
  }

  /** The whole transform: every bin of the naive transform of the input, in place. */
  method Transform(a: array<Complex>, root: nat -> Complex)
    requires IsPowerOfTwo(a.Length) && RootsOfUnity(root, a.Length)
    modifies a
    ensures forall k: nat :: k < a.Length ==> a[k] == DftBin(old(a[..]), root(a.Length), k)
  {
    ghost var x := a[..];
    if a.Length <= 1 {
      assert Permuted(x) == x;
    } else {
      Permute(a);
      AllStages(a, root);
    }
    forall k: nat | k < a.Length ensures a[k] == DftBin(x, root(a.Length), k) {
      StagesAreDft(x, root, k);
    }
  }
}
