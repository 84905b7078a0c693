/** Complex numbers over the reals, as pairs. */
module ComplexNumbers {
  type Complex = (real, real)

  const ZERO: Complex := (0.0, 0.0)
  const ONE: Complex := (1.0, 0.0)
  const MINUS_ONE: Complex := (-1.0, 0.0)

  function Add(a: Complex, b: Complex): Complex {
    (a.0 + b.0, a.1 + b.1)
  }

  function Sub(a: Complex, b: Complex): Complex {
    (a.0 - b.0, a.1 - b.1)
  }

  function Re(ar: real, ai: real, br: real, bi: real): real {
    ar * br - ai * bi
  }

  function Im(ar: real, ai: real, br: real, bi: real): real {
    ar * bi + ai * br
  }

  function Mul(a: Complex, b: Complex): Complex {
    (Re(a.0, a.1, b.0, b.1), Im(a.0, a.1, b.0, b.1))
  }

  function Power(w: Complex, n: nat): Complex {
    if n == 0 then ONE else Mul(Power(w, n - 1), w)
  }

  /** The sums of products in a butterfly are the product with the conjugate of (wr, wi). */
  lemma TwiddleProduct(wr: real, wi: real, tr: real, ti: real)
    ensures Mul((wr, -wi), (tr, ti)) == (wr * tr + wi * ti, wr * ti - wi * tr)
  {
    Negated(wi, ti);
    Negated(wi, tr);
    assert Re(wr, -wi, tr, ti) == wr * tr - -wi * ti;
    assert Im(wr, -wi, tr, ti) == wr * ti + -wi * tr;
  }

  lemma Negated(x: real, y: real)
    ensures -x * y == 0.0 - x * y
  {
  }

  lemma Distributes(x: real, y: real, z: real)
    ensures (x + y) * z == x * z + y * z && (x - y) * z == x * z - y * z
    ensures z * (x + y) == z * x + z * y && z * (x - y) == z * x - z * y
  {
  }

  lemma Associates(x: real, y: real, z: real)
    ensures (x * y) * z == x * (y * z)
  {
  }

  lemma MulAssociates(a: Complex, b: Complex, c: Complex)
    ensures Mul(Mul(a, b), c) == Mul(a, Mul(b, c))
  {
    hide Re, Im;
    RealPart(a.0, a.1, b.0, b.1, c.0, c.1);
    ImaginaryPart(a.0, a.1, b.0, b.1, c.0, c.1);
  }

  lemma RealPart(ar: real, ai: real, br: real, bi: real, cr: real, ci: real)
    ensures Re(Re(ar, ai, br, bi), Im(ar, ai, br, bi), cr, ci) == Re(ar, ai, Re(br, bi, cr, ci), Im(br, bi, cr, ci))
  {
    Distributes(ar * br, ai * bi, cr);
    Distributes(ar * bi, ai * br, ci);
    Distributes(br * cr, bi * ci, ar);
    Distributes(br * ci, bi * cr, ai);
    Associates(ar, br, cr);
    Associates(ai, bi, cr);
    Associates(ar, bi, ci);
    Associates(ai, br, ci);
  }

  lemma ImaginaryPart(ar: real, ai: real, br: real, bi: real, cr: real, ci: real)
    ensures Im(Re(ar, ai, br, bi), Im(ar, ai, br, bi), cr, ci) == Im(ar, ai, Re(br, bi, cr, ci), Im(br, bi, cr, ci))
  {
    Distributes(ar * br, ai * bi, ci);
    Distributes(ar * bi, ai * br, cr);
    Distributes(br * ci, bi * cr, ar);
    Distributes(br * cr, bi * ci, ai);
    Associates(ar, br, ci);
    Associates(ai, bi, ci);
    Associates(ar, bi, cr);
    Associates(ai, br, cr);
  }

  lemma MulOne(a: Complex)
    ensures Mul(a, ONE) == a && Mul(ONE, a) == a
    ensures Mul(a, MINUS_ONE) == Sub(ZERO, a)
  {
  }

  lemma MulAdds(a: Complex, b: Complex, c: Complex)
    ensures Mul(Add(a, b), c) == Add(Mul(a, c), Mul(b, c))
    ensures Mul(Sub(a, b), c) == Sub(Mul(a, c), Mul(b, c))
  {
    hide Re, Im;
    PartsAdd(a.0, a.1, b.0, b.1, c.0, c.1);
  }

  lemma PartsAdd(ar: real, ai: real, br: real, bi: real, cr: real, ci: real)
    ensures Re(ar + br, ai + bi, cr, ci) == Re(ar, ai, cr, ci) + Re(br, bi, cr, ci)
    ensures Im(ar + br, ai + bi, cr, ci) == Im(ar, ai, cr, ci) + Im(br, bi, cr, ci)
    ensures Re(ar - br, ai - bi, cr, ci) == Re(ar, ai, cr, ci) - Re(br, bi, cr, ci)
    ensures Im(ar - br, ai - bi, cr, ci) == Im(ar, ai, cr, ci) - Im(br, bi, cr, ci)
  {
    Distributes(ar, br, cr);
    Distributes(ai, bi, ci);
    Distributes(ar, br, ci);
    Distributes(ai, bi, cr);
  }

  /** Sums rearranged. */
  lemma AddExchanges(a: Complex, b: Complex, c: Complex, d: Complex)
    ensures Add(Add(a, b), Add(c, d)) == Add(Add(Add(a, c), b), d)
    ensures Sub(Add(a, b), Add(c, d)) == Add(Sub(a, c), Sub(b, d))
    ensures Add(Add(a, b), Sub(ZERO, d)) == Add(a, Sub(b, d))
    ensures Add(Add(a, b), d) == Add(a, Add(b, d))
    ensures Sub(b, d) == Add(b, Sub(ZERO, d))
  {
  }

  lemma {:induction false} PowerAdds(w: Complex, m: nat, n: nat)
    ensures Power(w, m + n) == Mul(Power(w, m), Power(w, n))
  {
    hide Mul;
    if n == 0 {
      MulOne(Power(w, m));
    } else {
      PowerAdds(w, m, n - 1);
      MulAssociates(Power(w, m), Power(w, n - 1), w);
    }
  }

  lemma {:induction false} PowerCycles(w: Complex, n: nat, u: nat)
    requires Power(w, n) == ONE
    ensures Power(w, u * n) == ONE
  {
    hide Mul;
    if u == 0 {
      assert u * n == 0;
    } else {
      PowerCycles(w, n, u - 1);
      assert u * n == (u - 1) * n + n;
      PowerAdds(w, (u - 1) * n, n);
      MulOne(ONE);
    }
  }
}
