/** Complex samples of the imaging stage (`cx_real_t`), kept as exact pairs of reals.
    The values themselves are opaque to this model: only how they are placed, copied,
    added and scaled by real weights matters. */
module Complex {

  datatype Cx = Cx(re: real, im: real)

  function Zero(): Cx { Cx(0.0, 0.0) }

  /** A real number seen as a complex one. */
  function OfReal(x: real): Cx { Cx(x, 0.0) }

  function Add(a: Cx, b: Cx): Cx { Cx(a.re + b.re, a.im + b.im) }

  /** Product of a complex value with a real one. */
  function Scale(a: Cx, k: real): Cx { Cx(a.re * k, a.im * k) }

  /** Squared magnitude: |a|^2. */
  function NormSq(a: Cx): real { a.re * a.re + a.im * a.im }

  /** Adding `v*w` and then `v*k` is adding `v*(w+k)`. */
  lemma AddScaleTwice(a: Cx, v: Cx, w: real, k: real)
    ensures Add(Add(a, Scale(v, w)), Scale(v, k)) == Add(a, Scale(v, w + k))
  {
    assert v.re * w + v.re * k == v.re * (w + k);
    assert v.im * w + v.im * k == v.im * (w + k);
  }

  /** Scaling distributes over addition. */
  lemma ScaleAdd(a: Cx, b: Cx, k: real)
    ensures Scale(Add(a, b), k) == Add(Scale(a, k), Scale(b, k))
  {
    assert (a.re + b.re) * k == a.re * k + b.re * k;
    assert (a.im + b.im) * k == a.im * k + b.im * k;
  }

  lemma AddAssoc(a: Cx, b: Cx, c: Cx)
    ensures Add(Add(a, b), c) == Add(a, Add(b, c))
  {
  }

  lemma AddComm(a: Cx, b: Cx)
    ensures Add(a, b) == Add(b, a)
  {
  }

  lemma AddZero(a: Cx)
    ensures Add(a, Zero()) == a
  {
  }

  lemma ZeroAdd(a: Cx)
    ensures Add(Zero(), a) == a
  {
  }

  lemma AddSelf(a: Cx)
    ensures Add(a, a) == Scale(a, 2.0)
  {
  }

  lemma AddScaleZero(a: Cx, v: Cx)
    ensures Add(a, Scale(v, 0.0)) == a
  {
  }
}
