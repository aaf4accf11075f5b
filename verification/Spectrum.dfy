/** The analysis entry point over the FFT: window, transform, keep the first half of the bins. For real
    samples bin `n - k` is the conjugate of bin `k`; `HalfSpectrum` says what the kept half determines. */
module Spectrum {
  import opened ComplexArithmetic
  import opened PowersOfTwo
  import opened Fft

  function Windowed(samples: seq<real>, window: seq<real>): (x: seq<Complex>)
    requires |samples| == |window|
    ensures |x| == |samples|
  {
    seq(|samples|, t requires 0 <= t < |samples| => Complex(samples[t] * window[t], 0.0))
  }

  /** The magnitudes of the first `n / 2` bins of the windowed samples. The square root is a
      parameter: exact reals have none that is computed. */
  method MagnitudeSpectrum(samples: seq<real>, window: seq<real>, root: nat -> Complex, sqrt: real -> real)
    returns (bins: seq<real>)
    requires |samples| == |window| && IsPowerOfTwo(|samples|) && RootsOfUnity(root, |samples|)
    ensures |bins| == |samples| / 2
    ensures forall k: nat :: k < |bins| ==>
      bins[k] == sqrt(NormSq(DftBin(Windowed(samples, window), root(|samples|), k)))
  {
    var x := Windowed(samples, window);
    var buf := new Complex[|x|](t requires 0 <= t < |x| => x[t]);
    assert buf[..] == x;
    Transform(buf, root);
    bins := seq(|x| / 2, k requires 0 <= k < |x| / 2 && k < buf.Length reads buf => sqrt(NormSq(buf[k])));
  }

  // ---- the mirrored half ----

  ghost predicate IsReal(x: seq<Complex>) {
    forall t :: 0 <= t < |x| ==> x[t].im == 0.0
  }

  lemma NormOfProduct(a: Complex, b: Complex)
    ensures NormSq(Mul(a, b)) == NormSq(a) * NormSq(b)
  {
    var p, q, r, s := a.re, a.im, b.re, b.im;
    assert (p * r - q * s) * (p * r - q * s) == p * p * (r * r) - 2.0 * (p * r) * (q * s) + q * q * (s * s);
    assert (p * s + q * r) * (p * s + q * r) == p * p * (s * s) + 2.0 * (p * r) * (q * s) + q * q * (r * r);
    assert (p * p + q * q) * (r * r + s * s) == p * p * (r * r) + p * p * (s * s) + q * q * (r * r) + q * q * (s * s);
  }

  lemma SquareAgainstOne(v: real)
    requires v >= 0.0
    ensures v < 1.0 ==> v * v < 1.0
    ensures v > 1.0 ==> v * v > 1.0
  {
    if v < 1.0 {
      assert v * v <= v * 1.0;
    } else {
      assert v * v >= v * 1.0;
    }
  }

  lemma UnitSquare(v: real)
    requires v >= 0.0 && v * v == 1.0
    ensures v == 1.0
  {
    SquareAgainstOne(v);
  }

  lemma NormIsNotNegative(z: Complex)
    ensures NormSq(z) >= 0.0
  {
  }

  lemma SquareOfRoot(root: nat -> Complex, n: nat, m: nat)
    requires IsPowerOfTwo(m) && 1 < m <= n && RootsOfUnity(root, n)
    ensures IsPowerOfTwo(m / 2) && Mul(root(m), root(m)) == root(m / 2)
  {
    hide Mul;
    assert m == 2 * (m / 2);
  }

  lemma FirstRoot(root: nat -> Complex, n: nat)
    requires n >= 1 && RootsOfUnity(root, n)
    ensures root(1) == ONE
  {
  }

  lemma {:induction false} UnitRoot(root: nat -> Complex, n: nat, m: nat)
    requires IsPowerOfTwo(m) && m <= n && RootsOfUnity(root, n)
    ensures NormSq(root(m)) == 1.0
    decreases m
  {
    hide NormSq, Mul, RootsOfUnity, IsPowerOfTwo;
    if m > 1 {
      SquareOfRoot(root, n, m);
      UnitRoot(root, n, m / 2);
      NormOfProduct(root(m), root(m));
      NormIsNotNegative(root(m));
      UnitSquare(NormSq(root(m)));
    } else {
      FirstRoot(root, n);
      UnitOne();
    }
  }

  lemma {:induction false} UnitPower(w: Complex, k: nat)
    requires NormSq(w) == 1.0
    ensures NormSq(Pow(w, k)) == 1.0
  {
    hide NormSq, Mul;
    if k > 0 {
      UnitPower(w, k - 1);
      NormOfProduct(w, Pow(w, k - 1));
    } else {
      UnitOne();
    }
  }

  lemma UnitOne()
    ensures NormSq(ONE) == 1.0
  {
  }

  /** On the unit circle an inverse is the conjugate. */
  lemma InverseIsConjugate(z: Complex, y: Complex)
    requires NormSq(z) == 1.0 && Mul(z, y) == ONE
    ensures y == Conj(z)
  {
    assert Mul(Conj(z), z) == ONE;
    MulAssociates(Conj(z), z, y);
    UnitProducts(y, Conj(z));
  }

  lemma UnitProducts(y: Complex, c: Complex)
    ensures Mul(ONE, y) == y && Mul(c, ONE) == c
  {
  }

  lemma ConjugatePower(root: nat -> Complex, h: nat, k: nat)
    requires h > 0 && IsPowerOfTwo(2 * h) && RootsOfUnity(root, 2 * h) && k <= 2 * h
    ensures Pow(root(2 * h), 2 * h - k) == Conj(Pow(root(2 * h), k))
  {
    hide Mul, Pow, NormSq;
    var w := root(2 * h);
    HalfTurn(root, 2 * h, h);
    PowAdd(w, h, h);
    NegSquared();
    PowAdd(w, k, 2 * h - k);
    UnitRoot(root, 2 * h, 2 * h);
    UnitPower(w, k);
    InverseIsConjugate(Pow(w, k), Pow(w, 2 * h - k));
  }

  lemma NegSquared()
    ensures Mul(Neg(ONE), Neg(ONE)) == ONE
  {
  }

  lemma {:induction false} PolyConjugate(x: seq<Complex>, z: Complex)
    requires IsReal(x)
    ensures Poly(x, Conj(z)) == Conj(Poly(x, z))
  {
    if x != [] {
      PolyConjugate(x[1..], z);
      ConjugateStep(x[0], z, Poly(x[1..], z));
    }
  }

  lemma ConjugateStep(a: Complex, z: Complex, p: Complex)
    requires a.im == 0.0
    ensures Add(a, Mul(Conj(z), Conj(p))) == Conj(Add(a, Mul(z, p)))
  {
  }

  lemma WindowedIsReal(samples: seq<real>, window: seq<real>)
    requires |samples| == |window|
    ensures IsReal(Windowed(samples, window))
  {
  }

  /** For a real sequence bin `n - k` is the conjugate of bin `k`; bin `n / 2` mirrors only itself. */
  lemma MirroredBin(x: seq<Complex>, root: nat -> Complex, h: nat, k: nat)
    requires |x| == 2 * h && h > 0 && IsPowerOfTwo(2 * h) && RootsOfUnity(root, 2 * h) && k <= 2 * h && IsReal(x)
    ensures DftBin(x, root(2 * h), 2 * h - k) == Conj(DftBin(x, root(2 * h), k))
  {
    hide DftBin, Poly, Pow, IsReal, NormSq, Conj, RootsOfUnity, IsPowerOfTwo;
    var w := root(2 * h);
    ConjugatePower(root, h, k);
    DftBinIsPoly(x, w, k);
    DftBinIsPoly(x, w, 2 * h - k);
    PolyConjugate(x, Pow(w, k));
  }

  /** For the analysed samples: the magnitudes of mirrored bins are equal. */
  lemma MirroredBins(samples: seq<real>, window: seq<real>, root: nat -> Complex, h: nat, k: nat)
    requires |samples| == |window| == 2 * h && h > 0 && IsPowerOfTwo(2 * h) && RootsOfUnity(root, 2 * h) && k <= 2 * h
    ensures var x := Windowed(samples, window); var w := root(2 * h);
            && DftBin(x, w, 2 * h - k) == Conj(DftBin(x, w, k))
            && NormSq(DftBin(x, w, 2 * h - k)) == NormSq(DftBin(x, w, k))
  {
    hide DftBin, Windowed, IsReal, NormSq, Conj, RootsOfUnity, IsPowerOfTwo;
    WindowedIsReal(samples, window);
    MirroredBin(Windowed(samples, window), root, h, k);
    ConjugateNorm(DftBin(Windowed(samples, window), root(2 * h), k));
  }

  lemma ConjugateNorm(z: Complex)
    ensures NormSq(Conj(z)) == NormSq(z)
  {
  }
}
