/** What the kept half of the bins determines. The bins of a transform determine its input; the first
    half of them, bin `n / 2` being left out, determine a real input up to an alternating signal. With a
    window that is zero somewhere, as the Hann window is at its ends, that signal cannot occur. */
module HalfSpectrum {
  import opened ComplexArithmetic
  import opened PowersOfTwo
  import opened Fft
  import opened Spectrum

  // ---- the bins determine the samples ----

  ghost predicate SameBin(x: seq<Complex>, y: seq<Complex>, w: Complex, k: nat) {
    DftBin(x, w, k) == DftBin(y, w, k)
  }

  ghost predicate SameBins(x: seq<Complex>, y: seq<Complex>, w: Complex, n: nat) {
    forall k: nat :: k < n ==> SameBin(x, y, w, k)
  }

  /** A bin in the lower half, and its partner in the upper half, from the bins of the even and of the
      odd samples. */
  lemma BinsOfHalves(x: seq<Complex>, root: nat -> Complex, h: nat, k: nat)
    requires |x| == 2 * h && k < h && IsPowerOfTwo(2 * h) && RootsOfUnity(root, 2 * h)
    ensures var w := root(2 * h); var z := Pow(w, k);
            var e, o := DftBin(Evens(x), root(h), k), DftBin(Odds(x), root(h), k);
            && DftBin(x, w, k) == Add(e, Mul(o, z))
            && DftBin(x, w, k + h) == Sub(e, Mul(o, z))
  {
    hide DftBin, Poly, Pow, Mul, Add, Sub, RootsOfUnity, IsPowerOfTwo, Evens, Odds;
    DftBinIsPoly(Evens(x), root(h), k);
    DftBinIsPoly(Odds(x), root(h), k);
    DftBinIsPoly(x, root(2 * h), k);
    DftBinIsPoly(x, root(2 * h), k + h);
    ButterflyIsSplit(x, root, h, k);
  }

  /** A butterfly can be undone. */
  lemma ButterflyIsInjective(e: Complex, o: Complex, f: Complex, p: Complex, z: Complex)
    requires NormSq(z) == 1.0
    requires Add(e, Mul(o, z)) == Add(f, Mul(p, z)) && Sub(e, Mul(o, z)) == Sub(f, Mul(p, z))
    ensures e == f && o == p
  {
    SumAndDifference(e, Mul(o, z), f, Mul(p, z));
    UndoTwiddle(o, z);
    UndoTwiddle(p, z);
  }

  lemma SumAndDifference(a: Complex, b: Complex, c: Complex, d: Complex)
    requires Add(a, b) == Add(c, d) && Sub(a, b) == Sub(c, d)
    ensures a == c && b == d
  {
  }

  lemma UndoTwiddle(a: Complex, z: Complex)
    requires NormSq(z) == 1.0
    ensures Mul(Mul(a, z), Conj(z)) == a
  {
    MulAssociates(a, z, Conj(z));
    assert Mul(z, Conj(z)) == ONE;
    UnitProducts(a, a);
  }

  lemma HalvesAgree(x: seq<Complex>, y: seq<Complex>, root: nat -> Complex, h: nat)
    requires |x| == |y| == 2 * h && h > 0 && IsPowerOfTwo(2 * h) && RootsOfUnity(root, 2 * h)
    requires SameBins(x, y, root(2 * h), 2 * h)
    ensures SameBins(Evens(x), Evens(y), root(h), h) && SameBins(Odds(x), Odds(y), root(h), h)
  {
    hide DftBin, Pow, Mul, Add, Sub, RootsOfUnity, IsPowerOfTwo, Evens, Odds, NormSq;
    forall k: nat | k < h
      ensures SameBin(Evens(x), Evens(y), root(h), k) && SameBin(Odds(x), Odds(y), root(h), k)
    {
      assert SameBin(x, y, root(2 * h), k) && SameBin(x, y, root(2 * h), k + h);
      BinsOfHalves(x, root, h, k);
      BinsOfHalves(y, root, h, k);
      UnitRoot(root, 2 * h, 2 * h);
      UnitPower(root(2 * h), k);
      ButterflyIsInjective(DftBin(Evens(x), root(h), k), DftBin(Odds(x), root(h), k),
                           DftBin(Evens(y), root(h), k), DftBin(Odds(y), root(h), k), Pow(root(2 * h), k));
    }
  }

  lemma SameHalves(x: seq<Complex>, y: seq<Complex>)
    requires |x| == |y| && |x| % 2 == 0 && Evens(x) == Evens(y) && Odds(x) == Odds(y)
    ensures x == y
  {
    forall t | 0 <= t < |x| ensures x[t] == y[t] {
      if t % 2 == 0 {
        assert Evens(x)[t / 2] == Evens(y)[t / 2];
      } else {
        assert Odds(x)[t / 2] == Odds(y)[t / 2];
      }
    }
  }

  /** No two inputs have the same bins: the transform loses nothing. */
  lemma {:induction false} BinsDetermine(x: seq<Complex>, y: seq<Complex>, root: nat -> Complex)
    requires |x| == |y| && IsPowerOfTwo(|x|) && RootsOfUnity(root, |x|)
    requires SameBins(x, y, root(|x|), |x|)
    ensures x == y
    decreases |x|
  {
    hide DftBin, RootsOfUnity, IsPowerOfTwo, Evens, Odds;
    if |x| == 1 {
      assert SameBin(x, y, root(1), 0);
      OnlyBin(x, root(1));
      OnlyBin(y, root(1));
    } else {
      HalvesOf(x, root);
      HalvesOf(y, root);
      HalvesAgree(x, y, root, |x| / 2);
      BinsDetermine(Evens(x), Evens(y), root);
      BinsDetermine(Odds(x), Odds(y), root);
      SameHalves(x, y);
    }
  }

  lemma OnlyBin(x: seq<Complex>, w: Complex)
    requires |x| == 1
    ensures DftBin(x, w, 0) == x[0]
  {
    DftBinIsPoly(x, w, 0);
    PolyOfOne(x, Pow(w, 0));
  }

  // ---- the bins of a constant and of an alternating signal ----

  function Constant(c: Complex, n: nat): (x: seq<Complex>)
    ensures |x| == n
  {
    seq(n, _ => c)
  }

  function Alternating(c: real, n: nat): (x: seq<Complex>)
    ensures |x| == n
  {
    seq(n, t => Complex(if t % 2 == 0 then c else -c, 0.0))
  }

  function Times(n: nat, c: Complex): Complex {
    Complex(n as real * c.re, n as real * c.im)
  }

  lemma HalvesOfConstant(c: Complex, h: nat)
    ensures Evens(Constant(c, 2 * h)) == Odds(Constant(c, 2 * h)) == Constant(c, h)
  {
  }

  lemma HalvesOfAlternating(c: real, h: nat)
    ensures Evens(Alternating(c, 2 * h)) == Constant(Complex(c, 0.0), h)
    ensures Odds(Alternating(c, 2 * h)) == Constant(Complex(-c, 0.0), h)
  {
  }

  lemma ConstantButterfly(h: nat, c: Complex)
    ensures Add(Times(h, c), Mul(Times(h, c), ONE)) == Times(2 * h, c)
    ensures Sub(Times(h, c), Mul(Times(h, c), ONE)) == ZERO
  {
    hide Mul, Times;
    UnitProducts(c, Times(h, c));
    TwiceTimes(h, c);
  }

  lemma TwiceTimes(h: nat, c: Complex)
    ensures Add(Times(h, c), Times(h, c)) == Times(2 * h, c)
    ensures Times(1, c) == c
  {
  }

  lemma NothingTwiddled(d: Complex)
    ensures Add(ZERO, Mul(ZERO, d)) == ZERO && Sub(ZERO, Mul(ZERO, d)) == ZERO
  {
    MulCommutes(ZERO, d);
    ZeroTwiddled(d);
  }

  lemma ZeroTwiddled(d: Complex)
    ensures Mul(d, ZERO) == ZERO
  {
    assert d.re * 0.0 == 0.0 && d.im * 0.0 == 0.0;
  }

  lemma PowZero(w: Complex)
    ensures Pow(w, 0) == ONE
  {
  }

  /** All of a constant is in bin 0. */
  lemma {:induction false} ConstantBin(c: Complex, n: nat, root: nat -> Complex, k: nat)
    requires k < n && IsPowerOfTwo(n) && RootsOfUnity(root, n)
    ensures DftBin(Constant(c, n), root(n), k) == if k == 0 then Times(n, c) else ZERO
    decreases n
  {
    hide DftBin, Mul, Add, Sub, Pow, RootsOfUnity, IsPowerOfTwo, Evens, Odds, Times, Constant;
    if n == 1 {
      OnlyBin(Constant(c, 1), root(1));
      TwiceTimes(1, c);
      ConstantAt(c, 1);
    } else {
      var h := n / 2;
      HalvesOf(Constant(c, n), root);
      var j := if k < h then k else k - h;
      ConstantBin(c, h, root, j);
      HalvesOfConstant(c, h);
      BinsOfHalves(Constant(c, n), root, h, j);
      PowZero(root(n));
      ConstantButterfly(h, c);
      NothingTwiddled(Pow(root(n), j));
    }
  }

  lemma ConstantAt(c: Complex, n: nat)
    requires n > 0
    ensures Constant(c, n)[0] == c
  {
  }

  lemma AlternatingButterfly(h: nat, c: real)
    ensures Add(Times(h, Complex(c, 0.0)), Mul(Times(h, Complex(-c, 0.0)), ONE)) == ZERO
    ensures Sub(Times(h, Complex(c, 0.0)), Mul(Times(h, Complex(-c, 0.0)), ONE)) == Complex((2 * h) as real * c, 0.0)
  {
  }

  /** All of an alternating signal is in bin `n / 2`, the first one left out. */
  lemma AlternatingBin(c: real, h: nat, root: nat -> Complex, k: nat)
    requires h > 0 && k < 2 * h && IsPowerOfTwo(2 * h) && RootsOfUnity(root, 2 * h)
    ensures DftBin(Alternating(c, 2 * h), root(2 * h), k) == if k == h then Complex((2 * h) as real * c, 0.0) else ZERO
  {
    hide DftBin, Mul, Add, Sub, Pow, RootsOfUnity, IsPowerOfTwo, Evens, Odds, Times, Constant, Alternating;
    HalvesOf(Alternating(c, 2 * h), root);
    var j := if k < h then k else k - h;
    HalvesOfAlternating(c, h);
    ConstantBin(Complex(c, 0.0), h, root, j);
    ConstantBin(Complex(-c, 0.0), h, root, j);
    BinsOfHalves(Alternating(c, 2 * h), root, h, j);
    PowZero(root(2 * h));
    AlternatingButterfly(h, c);
    NothingTwiddled(Pow(root(2 * h), j));
  }

  // ---- differences of inputs ----

  function Minus(x: seq<Complex>, y: seq<Complex>): (d: seq<Complex>)
    requires |x| == |y|
    ensures |d| == |x|
  {
    seq(|x|, t requires 0 <= t < |x| => Sub(x[t], y[t]))
  }

  lemma DifferenceStep(a: Complex, b: Complex, x: Complex, y: Complex, p: Complex)
    ensures Add(Sub(a, b), Mul(Sub(x, y), p)) == Sub(Add(a, Mul(x, p)), Add(b, Mul(y, p)))
  {
  }

  lemma {:induction false} SumOfDifference(x: seq<Complex>, y: seq<Complex>, w: Complex, k: nat, m: nat)
    requires |x| == |y| && m <= |x|
    ensures DftSum(Minus(x, y), w, k, m) == Sub(DftSum(x, w, k, m), DftSum(y, w, k, m))
  {
    hide Mul, Add, Pow;
    if m > 0 {
      SumOfDifference(x, y, w, k, m - 1);
      DifferenceStep(DftSum(x, w, k, m - 1), DftSum(y, w, k, m - 1), x[m - 1], y[m - 1], Pow(w, (m - 1) * k));
    }
  }

  lemma BinOfDifference(x: seq<Complex>, y: seq<Complex>, w: Complex, k: nat)
    requires |x| == |y|
    ensures DftBin(Minus(x, y), w, k) == Sub(DftBin(x, w, k), DftBin(y, w, k))
    ensures SameBin(x, y, w, k) <==> DftBin(Minus(x, y), w, k) == ZERO
  {
    SumOfDifference(x, y, w, k, |x|);
  }

  // ---- what the kept half determines ----

  /** Together with bin `n / 2` the kept half is everything: it determines all the bins, and so the
      samples. Without it, it does not: see `SilentAlternation`. */
  lemma KeptAndMiddleDetermine(x: seq<Complex>, y: seq<Complex>, root: nat -> Complex, h: nat)
    requires |x| == |y| == 2 * h && h > 0 && IsPowerOfTwo(2 * h) && RootsOfUnity(root, 2 * h) && IsReal(x) && IsReal(y)
    requires SameBins(x, y, root(2 * h), h)
    ensures SameBin(x, y, root(2 * h), h) <==> SameBins(x, y, root(2 * h), 2 * h)
    ensures SameBins(x, y, root(2 * h), 2 * h) <==> x == y
  {
    hide DftBin, RootsOfUnity, IsPowerOfTwo, IsReal;
    var w := root(2 * h);
    if SameBin(x, y, w, h) {
      forall k: nat | k < 2 * h ensures SameBin(x, y, w, k) {
        if k > h {
          assert SameBin(x, y, w, 2 * h - k);
          MirroredBin(x, root, h, 2 * h - k);
          MirroredBin(y, root, h, 2 * h - k);
        }
      }
    }
    if SameBins(x, y, w, 2 * h) {
      BinsDetermine(x, y, root);
    }
  }

  ghost predicate DifferByAlternation(x: seq<Complex>, y: seq<Complex>, c: real)
    requires |x| == |y|
  {
    Minus(x, y) == Alternating(c, |x|)
  }

  lemma DifferenceIsReal(x: seq<Complex>, y: seq<Complex>)
    requires |x| == |y| && IsReal(x) && IsReal(y)
    ensures IsReal(Minus(x, y))
  {
  }

  lemma AlternatingIsReal(c: real, n: nat)
    ensures IsReal(Alternating(c, n))
  {
  }

  lemma SelfConjugate(z: Complex)
    requires z == Conj(z)
    ensures z == Complex(z.re, 0.0)
  {
  }

  lemma Divided(b: real, n: nat)
    requires n > 0
    ensures n as real * (b / n as real) == b
  {
  }

  /** A real sequence whose kept bins are all zero is an alternating signal. */
  lemma NothingKept(d: seq<Complex>, root: nat -> Complex, h: nat) returns (c: real)
    requires |d| == 2 * h && h > 0 && IsPowerOfTwo(2 * h) && RootsOfUnity(root, 2 * h) && IsReal(d)
    requires forall k: nat :: k < h ==> DftBin(d, root(2 * h), k) == ZERO
    ensures d == Alternating(c, 2 * h)
  {
    hide DftBin, RootsOfUnity, IsPowerOfTwo, IsReal, Conj, Alternating;
    var w := root(2 * h);
    MirroredBin(d, root, h, h);
    SelfConjugate(DftBin(d, w, h));
    c := DftBin(d, w, h).re / (2 * h) as real;
    Divided(DftBin(d, w, h).re, 2 * h);
    AlternatingIsReal(c, 2 * h);
    forall k: nat | k <= h ensures SameBin(d, Alternating(c, 2 * h), w, k) {
      AlternatingBin(c, h, root, k);
    }
    KeptAndMiddleDetermine(d, Alternating(c, 2 * h), root, h);
  }

  /** Exactly what the cut loses: two real inputs have the same kept bins if and only if they differ by
      an alternating signal. */
  lemma KeptDetermineUpToAlternation(x: seq<Complex>, y: seq<Complex>, root: nat -> Complex, h: nat)
    requires |x| == |y| == 2 * h && h > 0 && IsPowerOfTwo(2 * h) && RootsOfUnity(root, 2 * h) && IsReal(x) && IsReal(y)
    ensures SameBins(x, y, root(2 * h), h) <==> exists c: real :: DifferByAlternation(x, y, c)
  {
    hide DftBin, RootsOfUnity, IsPowerOfTwo, IsReal, Alternating, Minus, SameBin;
    var w := root(2 * h);
    if SameBins(x, y, w, h) {
      forall k: nat | k < h ensures DftBin(Minus(x, y), w, k) == ZERO {
        assert SameBin(x, y, w, k);
        BinOfDifference(x, y, w, k);
      }
      DifferenceIsReal(x, y);
      var c := NothingKept(Minus(x, y), root, h);
      assert DifferByAlternation(x, y, c);
    }
    if c: real :| DifferByAlternation(x, y, c) {
      forall k: nat | k < h ensures SameBin(x, y, w, k) {
        AlternatingBin(c, h, root, k);
        BinOfDifference(x, y, w, k);
      }
    }
  }

  // ---- the window decides ----

  /** Whether frames that are windowed differently always differ in a kept bin. */
  ghost predicate KeptDecide(window: seq<real>, w: Complex) {
    forall a, b :: |a| == |b| == |window| && SameBins(Windowed(a, window), Windowed(b, window), w, |window| / 2)
      ==> Windowed(a, window) == Windowed(b, window)
  }

  /** A frame that the window turns into an alternating signal. */
  function Alternated(window: seq<real>): (a: seq<real>)
    requires forall t :: 0 <= t < |window| ==> window[t] != 0.0
    ensures |a| == |window|
  {
    seq(|window|, t requires 0 <= t < |window| => (if t % 2 == 0 then 1.0 else -1.0) / window[t])
  }

  function Silence(n: nat): (a: seq<real>)
    ensures |a| == n
  {
    seq(n, _ => 0.0)
  }

  lemma AlternatedDiffers(window: seq<real>)
    requires |window| > 0 && forall t :: 0 <= t < |window| ==> window[t] != 0.0
    ensures var x, y := Windowed(Alternated(window), window), Windowed(Silence(|window|), window);
            DifferByAlternation(x, y, 1.0) && x != y
  {
    var x, y := Windowed(Alternated(window), window), Windowed(Silence(|window|), window);
    forall t | 0 <= t < |window|
      ensures x[t] == Complex(if t % 2 == 0 then 1.0 else -1.0, 0.0) && y[t] == ZERO
    {
      Cancelled(if t % 2 == 0 then 1.0 else -1.0, window[t]);
    }
    assert x[0] != y[0];
  }

  lemma Cancelled(a: real, b: real)
    requires b != 0.0
    ensures a / b * b == a
  {
  }

  lemma NoAlternationAtZero(x: seq<Complex>, y: seq<Complex>, c: real, t: nat)
    requires |x| == |y| && t < |x| && x[t] == y[t] && DifferByAlternation(x, y, c)
    ensures x == y
  {
    assert Minus(x, y)[t] == Alternating(c, |x|)[t];
    assert c == 0.0;
    forall u | 0 <= u < |x| ensures x[u] == y[u] {
      assert Minus(x, y)[u] == Alternating(c, |x|)[u];
    }
  }

  lemma WindowedAtZero(a: seq<real>, window: seq<real>, t: nat)
    requires |a| == |window| && t < |window| && window[t] == 0.0
    ensures Windowed(a, window)[t] == ZERO
  {
  }

  /** The kept half of the bins determines the windowed frame, and with it every bin left out, exactly
      when the window is zero somewhere. */
  lemma KeptDecideIffWindowVanishes(window: seq<real>, root: nat -> Complex, h: nat)
    requires |window| == 2 * h && h > 0 && IsPowerOfTwo(2 * h) && RootsOfUnity(root, 2 * h)
    ensures KeptDecide(window, root(2 * h)) <==> exists t :: 0 <= t < |window| && window[t] == 0.0
  {
    hide DftBin, RootsOfUnity, IsPowerOfTwo, IsReal, Windowed, SameBins, DifferByAlternation, Alternated, Silence;
    var w := root(2 * h);
    if t :| 0 <= t < |window| && window[t] == 0.0 {
      forall a, b | |a| == |b| == |window| && SameBins(Windowed(a, window), Windowed(b, window), w, h)
        ensures Windowed(a, window) == Windowed(b, window)
      {
        WindowedIsReal(a, window);
        WindowedIsReal(b, window);
        KeptDetermineUpToAlternation(Windowed(a, window), Windowed(b, window), root, h);
        var c: real :| DifferByAlternation(Windowed(a, window), Windowed(b, window), c);
        WindowedAtZero(a, window, t);
        WindowedAtZero(b, window, t);
        NoAlternationAtZero(Windowed(a, window), Windowed(b, window), c, t);
      }
    } else {
      var a, b := Alternated(window), Silence(|window|);
      WindowedIsReal(a, window);
      WindowedIsReal(b, window);
      AlternatedDiffers(window);
      KeptDetermineUpToAlternation(Windowed(a, window), Windowed(b, window), root, h);
      assert SameBins(Windowed(a, window), Windowed(b, window), w, h);
    }
  }

  /** The Hann window; `cosine(i)` is the cosine of `2 * pi * i / (n - 1)`. */
  function Hann(n: nat, cosine: nat -> real): (window: seq<real>)
    ensures |window| == n
  {
    if n <= 1 then seq(n, _ => 1.0) else seq(n, i requires 0 <= i < n => 0.5 - 0.5 * cosine(i))
  }

  /** Behind a Hann window nothing is lost by the cut. */
  lemma HannKeepsAll(cosine: nat -> real, root: nat -> Complex, h: nat)
    requires h > 0 && IsPowerOfTwo(2 * h) && RootsOfUnity(root, 2 * h) && cosine(0) == 1.0
    ensures KeptDecide(Hann(2 * h, cosine), root(2 * h))
  {
    hide KeptDecide, RootsOfUnity, IsPowerOfTwo;
    assert Hann(2 * h, cosine)[0] == 0.0;
    KeptDecideIffWindowVanishes(Hann(2 * h, cosine), root, h);
  }

  /** Behind the flat window of two samples the frame `1, -1` has the kept bin of silence. */
  lemma SilentAlternation(root: nat -> Complex)
    requires RootsOfUnity(root, 2)
    ensures var x, y := Windowed([1.0, -1.0], [1.0, 1.0]), Windowed([0.0, 0.0], [1.0, 1.0]);
            SameBins(x, y, root(2), 1) && !SameBin(x, y, root(2), 1)
  {
    hide DftBin, RootsOfUnity, Windowed, Minus, Alternating, SameBin;
    var x, y := Windowed([1.0, -1.0], [1.0, 1.0]), Windowed([0.0, 0.0], [1.0, 1.0]);
    ShortAlternation();
    AlternatingBin(1.0, 1, root, 0);
    AlternatingBin(1.0, 1, root, 1);
    BinOfDifference(x, y, root(2), 0);
    BinOfDifference(x, y, root(2), 1);
  }

  lemma ShortAlternation()
    ensures Minus(Windowed([1.0, -1.0], [1.0, 1.0]), Windowed([0.0, 0.0], [1.0, 1.0])) == Alternating(1.0, 2)
  {
    hide Windowed;
    var window := [1.0, 1.0];
    var x, y := Windowed([1.0, -1.0], window), Windowed([0.0, 0.0], window);
    FlatWindow([1.0, -1.0], window, 0);
    FlatWindow([1.0, -1.0], window, 1);
    FlatWindow([0.0, 0.0], window, 0);
    FlatWindow([0.0, 0.0], window, 1);
    assert x == [Complex(1.0, 0.0), Complex(-1.0, 0.0)] && y == [ZERO, ZERO];
  }

  lemma FlatWindow(a: seq<real>, window: seq<real>, t: nat)
    requires |a| == |window| && t < |a| && window[t] == 1.0
    ensures Windowed(a, window)[t] == Complex(a[t], 0.0)
  {
  }
}
