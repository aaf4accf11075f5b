/** Exact complex numbers: the `Complex` operations of the FFT over `real`, with the ring laws,
    powers and polynomial evaluation that the transform's proof needs. */
module ComplexArithmetic {

  datatype Complex = Complex(re: real, im: real)

  const ZERO := Complex(0.0, 0.0)
  const ONE := Complex(1.0, 0.0)

  function Add(a: Complex, b: Complex): Complex {
    Complex(a.re + b.re, a.im + b.im)
  }

  function Sub(a: Complex, b: Complex): Complex {
    Complex(a.re - b.re, a.im - b.im)
  }

  function Mul(a: Complex, b: Complex): Complex {
    Complex(a.re * b.re - a.im * b.im, a.re * b.im + a.im * b.re)
  }

  function NormSq(a: Complex): real {
    a.re * a.re + a.im * a.im
  }

  function Neg(a: Complex): Complex {
    Complex(-a.re, -a.im)
  }

  function Conj(a: Complex): Complex {
    Complex(a.re, -a.im)
  }

  function Pow(z: Complex, k: nat): Complex {
    if k == 0 then ONE else Mul(z, Pow(z, k - 1))
  }

  /** The polynomial with coefficients `x`, lowest degree first, at the point `z`. */
  function Poly(x: seq<Complex>, z: Complex): Complex {
    if x == [] then ZERO else Add(x[0], Mul(z, Poly(x[1..], z)))
  }

  lemma MulCommutes(a: Complex, b: Complex)
    ensures Mul(a, b) == Mul(b, a)
  {
  }

  lemma MulAssociates(a: Complex, b: Complex, c: Complex)
    ensures Mul(a, Mul(b, c)) == Mul(Mul(a, b), c)
  {
    assert a.re * (b.re * c.re - b.im * c.im) - a.im * (b.re * c.im + b.im * c.re)
        == (a.re * b.re - a.im * b.im) * c.re - (a.re * b.im + a.im * b.re) * c.im;
    assert a.re * (b.re * c.im + b.im * c.re) + a.im * (b.re * c.re - b.im * c.im)
        == (a.re * b.re - a.im * b.im) * c.im + (a.re * b.im + a.im * b.re) * c.re;
  }

  lemma MulDistributes(a: Complex, b: Complex, c: Complex)
    ensures Mul(a, Add(b, c)) == Add(Mul(a, b), Mul(a, c))
  {
  }

  lemma {:induction false} PowAdd(z: Complex, a: nat, b: nat)
    ensures Pow(z, a + b) == Mul(Pow(z, a), Pow(z, b))
  {
    if a > 0 {
      hide Mul;
      PowAdd(z, a - 1, b);
      MulAssociates(z, Pow(z, a - 1), Pow(z, b));
    }
  }

  lemma {:induction false} PowPow(z: Complex, a: nat, b: nat)
    ensures Pow(z, a * b) == Pow(Pow(z, a), b)
  {
    hide Mul;
    if b > 0 {
      assert a * b == a + a * (b - 1);
      PowPow(z, a, b - 1);
      PowAdd(z, a, a * (b - 1));
    } else {
      assert a * b == 0;
    }
  }

  lemma ConstantPoly(c: Complex, z: Complex)
    ensures Add(c, Mul(z, ZERO)) == Add(ZERO, Mul(c, ONE)) == c
  {
  }

  /** Appending a coefficient adds its monomial. */
  lemma {:induction false} PolySnoc(x: seq<Complex>, c: Complex, z: Complex)
    ensures Poly(x + [c], z) == Add(Poly(x, z), Mul(c, Pow(z, |x|)))
  {
    hide Mul;
    if x == [] {
      assert x + [c] == [c] && [c][1..] == [];
      ConstantPoly(c, z);
    } else {
      assert (x + [c])[1..] == x[1..] + [c];
      PolySnoc(x[1..], c, z);
      var p, q := Poly(x[1..], z), Pow(z, |x| - 1);
      MulDistributes(z, p, Mul(c, q));
      MulAssociates(z, c, q);
      MulCommutes(z, c);
      MulAssociates(c, z, q);
      assert Poly(x + [c], z) == Add(x[0], Add(Mul(z, p), Mul(c, Mul(z, q))));
    }
  }

  /** The coefficients at even, respectively odd, positions. */
  function Evens(x: seq<Complex>): (e: seq<Complex>)
    requires |x| % 2 == 0
  {
    seq(|x| / 2, i requires 0 <= i < |x| / 2 => x[2 * i])
  }

  function Odds(x: seq<Complex>): (o: seq<Complex>)
    requires |x| % 2 == 0
  {
    seq(|x| / 2, i requires 0 <= i < |x| / 2 => x[2 * i + 1])
  }

  /** Splitting a polynomial into its even and odd halves: the algebra behind one FFT stage. */
  lemma {:induction false} PolySplit(x: seq<Complex>, z: Complex)
    requires |x| % 2 == 0
    ensures Poly(x, z) == Add(Poly(Evens(x), Mul(z, z)), Mul(z, Poly(Odds(x), Mul(z, z))))
  {
    hide Mul, Add;
    if x != [] {
      var y := x[2..];
      PolySplit(y, z);
      assert Evens(x) == [x[0]] + Evens(y) && Odds(x) == [x[1]] + Odds(y);
      assert Evens(x)[1..] == Evens(y) && Odds(x)[1..] == Odds(y) && x[1..][1..] == y;
      var zz := Mul(z, z);
      var e, o := Poly(Evens(y), zz), Poly(Odds(y), zz);
      SplitStep(x[0], x[1], z, e, o);
      assert Poly(x[1..], z) == Add(x[1], Mul(z, Poly(y, z)));
      assert Poly(Evens(x), zz) == Add(x[0], Mul(zz, e));
      assert Poly(Odds(x), zz) == Add(x[1], Mul(zz, o));
    } else {
      ZeroSum(z);
    }
  }

  lemma ZeroSum(z: Complex)
    ensures Add(ZERO, Mul(z, ZERO)) == ZERO
  {
  }

  lemma SplitStep(a: Complex, b: Complex, z: Complex, e: Complex, o: Complex)
    ensures Add(a, Mul(z, Add(b, Mul(z, Add(e, Mul(z, o))))))
         == Add(Add(a, Mul(Mul(z, z), e)), Mul(z, Add(b, Mul(Mul(z, z), o))))
  {
    hide Mul;
    var zz := Mul(z, z);
    MulDistributes(z, e, Mul(z, o));
    MulAssociates(z, z, o);
    MulDistributes(z, b, Add(Mul(z, e), Mul(zz, o)));
    MulDistributes(z, Mul(z, e), Mul(zz, o));
    MulAssociates(z, z, e);
    MulDistributes(z, b, Mul(zz, o));
  }
}
