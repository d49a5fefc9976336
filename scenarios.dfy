/** Runs of the running median on symbolic inputs, each proved from the
    contracts of `Median` alone, and the median on two concrete inputs. */
module Scenarios {
  import opened FloatVals
  import opened Heaps
  import opened MedianSpec
  import opened Stats

  /** Before any update the median reads as 0. */
  method Fresh() returns (r: real)
    ensures r == 0.0
  {
    var m := new Median();
    r := m.Get();
  }

  /** A single value is its own median. */
  method OneValue(x: FloatVal) returns (r: real)
    ensures r == x.v
  {
    var m := new Median();
    m.Update(x);
    assert m.items == [x];
    MedianOfOne(x);
    r := m.Get();
  }

  /** The median of four values in increasing order is the average of the
      middle two. */
  lemma MedianOfFour(s: seq<FloatVal>, a: FloatVal, b: FloatVal, c: FloatVal, d: FloatVal)
    requires s == [a, b, c, d] && a.v <= b.v <= c.v <= d.v
    ensures MedianOf(s) == 0.5 * (b.v + c.v)
  {
    assert Sorted(s) by {
      forall i, j | 0 <= i < j < |s| ensures s[i].Le(s[j]) {
        assert s[i].v <= s[j].v;
      }
    }
    MedianOfSorted(s);
    assert |s| / 2 == 2 && |s| % 2 == 0;
  }

  /** The median of 1, 2, 3, 4 is 2.5. */
  lemma MedianOneToFour()
    ensures MedianOf([FloatVal(1.0), FloatVal(2.0), FloatVal(3.0), FloatVal(4.0)]) == 2.5
  {
    MedianOfFour([FloatVal(1.0), FloatVal(2.0), FloatVal(3.0), FloatVal(4.0)],
                 FloatVal(1.0), FloatVal(2.0), FloatVal(3.0), FloatVal(4.0));
  }

  /** The median of the single value 5 is 5. */
  lemma MedianOfFive()
    ensures MedianOf([FloatVal(5.0)]) == 5.0
  {
    MedianOfOne(FloatVal(5.0));
  }

  /** Four values in increasing order (1, 2, 3, 4, say) end with the
      average of the middle two as the median (2.5). */
  method FourValues(a: FloatVal, b: FloatVal, c: FloatVal, d: FloatVal) returns (r: real)
    requires a.v <= b.v <= c.v <= d.v
    ensures r == 0.5 * (b.v + c.v)
  {
    var m := new Median();
    ghost var s0 := m.items;
    m.Update(a);
    ghost var s1 := m.items;
    m.Update(b);
    ghost var s2 := m.items;
    m.Update(c);
    ghost var s3 := m.items;
    m.Update(d);
    ghost var s4 := m.items;
    AppendFour(s0, s1, s2, s3, s4, a, b, c, d);
    MedianOfFour(s4, a, b, c, d);
    r := m.Get();
  }

  /** Four appends to the empty sequence. */
  lemma AppendFour(s0: seq<FloatVal>, s1: seq<FloatVal>, s2: seq<FloatVal>, s3: seq<FloatVal>,
                   s4: seq<FloatVal>, a: FloatVal, b: FloatVal, c: FloatVal, d: FloatVal)
    requires s0 == [] && s1 == s0 + [a] && s2 == s1 + [b] && s3 == s2 + [c] && s4 == s3 + [d]
    ensures s4 == [a, b, c, d]
  {
  }

  /** The median of equal values is that value. */
  lemma MedianOfEqual(s: seq<FloatVal>, x: FloatVal)
    requires s == [x, x] || s == [x, x, x]
    ensures MedianOf(s) == x.v
  {
    MedianOfSorted(s);
  }

  /** Two equal values: one in each heap, and that value as the median. */
  method TwoEqual(two: FloatVal) returns (m: Median)
    ensures fresh(m) && m.Valid()
    ensures m.items == [two, two]
    ensures m.sm.Len() == 1 && m.lg.Len() == 1 && m.med == two
  {
    m := new Median();
    m.Update(two);
    m.Update(two);
    MedianOfEqual(m.items, two);
    SecondOfTwo(m.sm, m.lg, m.items);
  }

  /** Three equal values: the third one ties with the median, and since the
      heaps are then equal in size it goes to the lower heap, leaving the
      lower heap with two values and the upper heap with one. */
  method ThreeEqual(three: FloatVal) returns (lower: nat, upper: nat, r: real)
    ensures lower == 2 && upper == 1 && r == three.v
  {
    var m := TwoEqual(three);
    m.Update(three);
    assert m.items == [three, three, three];
    MedianOfEqual(m.items, three);
    lower, upper, r := m.sm.Len(), m.lg.Len(), m.Get();
  }

  /** With two values, both heaps hold one. */
  lemma SecondOfTwo(sm: Heap, lg: Heap, xs: seq<FloatVal>)
    requires Halves(sm, lg, multiset(xs), 1) && |xs| == 2
    ensures sm.Len() == 1 && lg.Len() == 1
  {
    NegatedSize(lg.elems);
    assert |multiset(xs)| == 2;
    assert |sm.elems + Negated(lg.elems)| == 2;
    assert sm.Len() + lg.Len() == 2;
  }
}
