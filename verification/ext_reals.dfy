/** Non-negative-or-not real costs extended with positive infinity, the value
    the search code uses (Double.POSITIVE_INFINITY) for "not reached yet" and
    for an impassable road. */
module ExtReals {

  datatype ExtReal = Fin(v: real) | Inf

  /** Addition saturating at infinity. */
  function Add(a: ExtReal, b: ExtReal): (r: ExtReal)
    ensures r.Fin? <==> a.Fin? && b.Fin?
    ensures r.Fin? ==> r.v == a.v + b.v
  {
    if a.Inf? || b.Inf? then Inf else Fin(a.v + b.v)
  }

  /** Strict order: every finite value is below infinity, infinity is below nothing. */
  predicate Lt(a: ExtReal, b: ExtReal) {
    match (a, b)
    case (Fin(x), Fin(y)) => x < y
    case (Fin(_), Inf) => true
    case (Inf, _) => false
  }

  predicate Le(a: ExtReal, b: ExtReal) {
    !Lt(b, a)
  }

  function Min(a: ExtReal, b: ExtReal): (r: ExtReal)
    ensures Le(r, a) && Le(r, b)
    ensures r == a || r == b
  {
    if Lt(b, a) then b else a
  }

  predicate NonNeg(a: ExtReal) {
    a.Inf? || a.v >= 0.0
  }

  lemma LeTrans(a: ExtReal, b: ExtReal, c: ExtReal)
    requires Le(a, b) && Le(b, c)
    ensures Le(a, c)
  {
  }

  lemma AddMono(a: ExtReal, b: ExtReal, c: ExtReal, d: ExtReal)
    requires Le(a, c) && Le(b, d)
    ensures Le(Add(a, b), Add(c, d))
  {
  }

  lemma AddAssoc(a: ExtReal, b: ExtReal, c: ExtReal)
    ensures Add(Add(a, b), c) == Add(a, Add(b, c))
  {
  }

  lemma AddNonNeg(a: ExtReal, b: ExtReal)
    requires NonNeg(b)
    ensures Le(a, Add(a, b))
  {
  }

  /** Multiplication by a positive factor; infinity stays infinity. */
  function Scale(k: real, a: ExtReal): (r: ExtReal)
    requires k > 0.0
    ensures r.Fin? <==> a.Fin?
    ensures r.Fin? ==> r.v == k * a.v
  {
    if a.Inf? then Inf else Fin(k * a.v)
  }

  /** Scaling distributes over addition. */
  lemma ScaleAdd(k: real, a: ExtReal, b: ExtReal)
    requires k > 0.0
    ensures Scale(k, Add(a, b)) == Add(Scale(k, a), Scale(k, b))
  {
    if a.Fin? && b.Fin? {
      assert k * (a.v + b.v) == k * a.v + k * b.v;
    }
  }

  /** Scaling by a positive factor keeps the order, in both directions. */
  lemma ScaleLt(k: real, a: ExtReal, b: ExtReal)
    requires k > 0.0
    ensures Lt(Scale(k, a), Scale(k, b)) <==> Lt(a, b)
  {
    if a.Fin? && b.Fin? {
      if a.v < b.v {
        assert k * b.v - k * a.v == k * (b.v - a.v);
      } else {
        assert k * a.v - k * b.v == k * (a.v - b.v);
      }
    }
  }
}
