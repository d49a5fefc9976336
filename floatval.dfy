/** The element type of the running median: a wrapper around one number.
    The source wraps a 64-bit float; here the payload is a `real`, which
    excludes NaN and the infinities and makes negation and comparison exact. */
module FloatVals {

  /** Result of a three-way comparison. */
  datatype Ordering = Less | Equal | Greater

  datatype FloatVal = FloatVal(v: real) {

    /** Wraps a number. */
    static function New(x: real): (r: FloatVal)
      ensures r.v == x
    {
      FloatVal(x)
    }

    /** The wrapped value with its sign flipped; used to turn the max-heap
        of the upper half into a min-heap. */
    function Neg(): (r: FloatVal)
      ensures r.v + v == 0.0
    {
      FloatVal(-v)
    }

    /** Total order on wrapped values: the order of the payloads. */
    function Cmp(other: FloatVal): (r: Ordering)
      ensures r == Less <==> v < other.v
      ensures r == Equal <==> this == other
      ensures r == Greater <==> other.v < v
    {
      if v < other.v then Less
      else if other.v < v then Greater
      else Equal
    }

    /** The derived `<` of the source, which compares the payloads; it
        agrees with `Cmp`. */
    function Lt(other: FloatVal): (r: bool)
      ensures r <==> Cmp(other) == Less
    {
      v < other.v
    }

    /** The derived `>` of the source; it agrees with `Cmp`. */
    function Gt(other: FloatVal): (r: bool)
      ensures r <==> Cmp(other) == Greater
    {
      other.v < v
    }

    /** The derived `<=` of the source; it agrees with `Cmp`. */
    function Le(other: FloatVal): (r: bool)
      ensures r <==> Cmp(other) != Greater
    {
      v <= other.v
    }
  }

  /** Negating twice gives back the original value. */
  lemma NegInvolution(x: FloatVal)
    ensures x.Neg().Neg() == x
  {
  }

  /** Negation reverses the order, which is what makes a max-heap of
      negated values behave as a min-heap of the values themselves. */
  lemma NegReversesOrder(a: FloatVal, b: FloatVal)
    ensures a.Neg().Cmp(b.Neg()) == b.Cmp(a)
  {
  }

  /** `Cmp` is antisymmetric and `Le` is a total order. */
  lemma CmpIsTotalOrder(a: FloatVal, b: FloatVal, c: FloatVal)
    ensures a.Cmp(b) == Less <==> b.Cmp(a) == Greater
    ensures a.Le(b) || b.Le(a)
    ensures a.Le(b) && b.Le(a) ==> a == b
    ensures a.Le(b) && b.Le(c) ==> a.Le(c)
  {
  }
}
