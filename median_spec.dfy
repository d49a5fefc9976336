/** What "the median of the values seen so far" means, independently of
    the two heaps: sort the values, take the middle element for an odd
    count and the average of the two middle elements for an even count. */
module MedianSpec {
  import opened FloatVals
  import opened Heaps

  /** Non-decreasing order. */
  ghost predicate Sorted(s: seq<FloatVal>) {
    forall i, j :: 0 <= i < j < |s| ==> s[i].Le(s[j])
  }

  /** Every element of `lower` is at most every element of `upper`. */
  ghost predicate AllLe(lower: multiset<FloatVal>, upper: multiset<FloatVal>) {
    forall a, b :: a in lower && b in upper ==> a.Le(b)
  }

  /** Adding to the lower half a value no larger than the smallest upper
      value keeps the halves ordered. */
  lemma AllLeAddLower(lower: multiset<FloatVal>, upper: multiset<FloatVal>,
                      x: FloatVal, lo: FloatVal)
    requires AllLe(lower, upper)
    requires upper != multiset{} ==> IsMin(lo, upper) && x.Le(lo)
    ensures AllLe(lower + multiset{x}, upper)
  {
  }

  /** Adding to the upper half a value no smaller than the largest lower
      value keeps the halves ordered. */
  lemma AllLeAddUpper(lower: multiset<FloatVal>, upper: multiset<FloatVal>,
                      x: FloatVal, hi: FloatVal)
    requires AllLe(lower, upper)
    requires lower != multiset{} ==> IsMax(hi, lower) && hi.Le(x)
    ensures AllLe(lower, upper + multiset{x})
  {
  }

  /** Moving the largest lower value to the upper half keeps the halves
      ordered. */
  lemma AllLeMoveUp(lower: multiset<FloatVal>, upper: multiset<FloatVal>, f: FloatVal)
    requires AllLe(lower, upper) && IsMax(f, lower)
    ensures AllLe(lower - multiset{f}, upper + multiset{f})
  {
  }

  /** Moving the smallest upper value to the lower half keeps the halves
      ordered. */
  lemma AllLeMoveDown(lower: multiset<FloatVal>, upper: multiset<FloatVal>, f: FloatVal)
    requires AllLe(lower, upper) && IsMin(f, upper)
    ensures AllLe(lower + multiset{f}, upper - multiset{f})
  {
  }

  /** Every non-empty multiset has a smallest element. */
  lemma {:induction false} MinExists(m: multiset<FloatVal>)
    requires m != multiset{}
    ensures exists x :: IsMin(x, m)
    decreases |m|
  {
    var y :| y in m;
    var rest := m - multiset{y};
    var bottom := y;
    if rest != multiset{} {
      MinExists(rest);
      var z :| IsMin(z, rest);
      if z.Le(y) {
        bottom := z;
      }
    }
    forall w | w in m ensures bottom.Le(w) {
      PickedOrRest(m, y, w);
    }
    assert bottom in m by { PickedOrRest(m, y, bottom); }
    assert IsMin(bottom, m);
  }

  /** The values of `m` in non-decreasing order, by repeatedly taking a
      smallest one. */
  ghost function Sort(m: multiset<FloatVal>): seq<FloatVal>
    decreases |m|
  {
    if m == multiset{} then []
    else
      MinExists(m);
      var x :| IsMin(x, m);
      [x] + Sort(m - multiset{x})
  }

  /** The median of a sorted non-empty sequence. */
  function Middle(s: seq<FloatVal>): real
    requires |s| > 0
  {
    var n := |s|;
    if n % 2 == 1 then s[n / 2].v
    else 0.5 * (s[n / 2 - 1].v + s[n / 2].v)
  }

  /** The median of the values in `xs`, taken in sorted order. */
  ghost function MedianOf(xs: seq<FloatVal>): real
    requires |xs| > 0
  {
    SortIsSortedPermutation(multiset(xs));
    Middle(Sort(multiset(xs)))
  }

  /** `Sort(m)` is a sorted arrangement of exactly the values of `m`. */
  lemma {:induction false} SortIsSortedPermutation(m: multiset<FloatVal>)
    ensures |Sort(m)| == |m|
    ensures multiset(Sort(m)) == m
    ensures Sorted(Sort(m))
    decreases |m|
  {
    if m != multiset{} {
      MinExists(m);
      var x :| IsMin(x, m);
      var rest := m - multiset{x};
      SortStep(m, x);
      SortIsSortedPermutation(rest);
      assert multiset([x] + Sort(rest)) == m by {
        assert multiset([x] + Sort(rest)) == multiset{x} + rest;
      }
      SortedCons(x, Sort(rest));
    }
  }

  /** Putting a value no larger than any element in front of a sorted
      sequence keeps it sorted. */
  lemma SortedCons(x: FloatVal, t: seq<FloatVal>)
    requires Sorted(t) && forall y :: y in multiset(t) ==> x.Le(y)
    ensures Sorted([x] + t)
  {
    var s := [x] + t;
    forall i, j | 0 <= i < j < |s| ensures s[i].Le(s[j]) {
      assert s[j] == t[j - 1];
      if i == 0 {
        assert t[j - 1] in multiset(t);
      } else {
        assert s[i] == t[i - 1];
      }
    }
  }

  /** A sorted sequence is determined by its values: the sorted order is
      unique, so `Sort` is "the" sorted input. */
  lemma {:induction false} SortUnique(s: seq<FloatVal>, m: multiset<FloatVal>)
    requires Sorted(s) && multiset(s) == m
    ensures s == Sort(m)
    decreases |s|
  {
    if s != [] {
      var x := s[0];
      assert s == [x] + s[1..];
      SortedHeadIsMin(s);
      SortStep(m, x);
      assert multiset(s[1..]) == m - multiset{x} by {
        assert multiset(s) == multiset([x]) + multiset(s[1..]);
      }
      SortUnique(s[1..], m - multiset{x});
    }
  }

  /** The first element of a sorted sequence is a smallest one. */
  lemma SortedHeadIsMin(s: seq<FloatVal>)
    requires Sorted(s) && s != []
    ensures IsMin(s[0], multiset(s))
  {
    forall y | y in multiset(s) ensures s[0].Le(y) {
      var j :| 0 <= j < |s| && s[j] == y;
      if j > 0 { assert s[0].Le(s[j]); }
    }
  }

  /** A smallest element is unique, so it is the one `Sort` takes first. */
  lemma SortStep(m: multiset<FloatVal>, x: FloatVal)
    requires IsMin(x, m)
    ensures Sort(m) == [x] + Sort(m - multiset{x})
  {
    forall c | IsMin(c, m) ensures c == x {
      CmpIsTotalOrder(c, x, c);
    }
  }

  /** Sorting two halves that are ordered with respect to each other
      gives the sorted lower half followed by the sorted upper half. */
  lemma SortConcat(lower: multiset<FloatVal>, upper: multiset<FloatVal>)
    requires AllLe(lower, upper)
    ensures Sort(lower + upper) == Sort(lower) + Sort(upper)
  {
    var sl, su := Sort(lower), Sort(upper);
    SortIsSortedPermutation(lower);
    SortIsSortedPermutation(upper);
    SortedConcat(sl, su);
    assert multiset(sl + su) == lower + upper;
    SortUnique(sl + su, lower + upper);
  }

  /** Two sorted sequences, every element of the first at most every
      element of the second, concatenate to a sorted sequence. */
  lemma SortedConcat(sl: seq<FloatVal>, su: seq<FloatVal>)
    requires Sorted(sl) && Sorted(su) && AllLe(multiset(sl), multiset(su))
    ensures Sorted(sl + su)
  {
    var s := sl + su;
    forall i, j | 0 <= i < j < |s| ensures s[i].Le(s[j]) {
      if j < |sl| {
        assert s[i] == sl[i] && s[j] == sl[j];
      } else if i >= |sl| {
        assert s[i] == su[i - |sl|] && s[j] == su[j - |sl|];
      } else {
        assert s[i] == sl[i] && sl[i] in multiset(sl);
        assert s[j] == su[j - |sl|] && su[j - |sl|] in multiset(su);
      }
    }
  }

  /** The last element of a sorted arrangement of `m` is its largest
      element. */
  lemma SortLast(m: multiset<FloatVal>, hi: FloatVal)
    requires IsMax(hi, m)
    ensures |Sort(m)| > 0 && Sort(m)[|Sort(m)| - 1] == hi
  {
    SortIsSortedPermutation(m);
    var s := Sort(m);
    assert hi in multiset(s);
    var last := s[|s| - 1];
    assert last in multiset(s);
    var j :| 0 <= j < |s| && s[j] == hi;
    assert hi.Le(last) by { if j < |s| - 1 { assert s[j].Le(s[|s| - 1]); } }
    CmpIsTotalOrder(hi, last, hi);
  }

  /** The first element of a sorted arrangement of `m` is its smallest
      element. */
  lemma SortFirst(m: multiset<FloatVal>, lo: FloatVal)
    requires IsMin(lo, m)
    ensures |Sort(m)| > 0 && Sort(m)[0] == lo
  {
    SortIsSortedPermutation(m);
    var s := Sort(m);
    assert lo in multiset(s);
    var first := s[0];
    assert first in multiset(s);
    var k :| 0 <= k < |s| && s[k] == lo;
    assert first.Le(lo) by { if k > 0 { assert s[0].Le(s[k]); } }
    CmpIsTotalOrder(lo, first, lo);
  }

  /** The two-heap median formula is the median of the sorted values: with
      `lower` and `upper` ordered and within one in size, the median is
      the average of the lower maximum and the upper minimum when they are
      equal in size, otherwise the extreme element of the larger one. */
  lemma MedianFromHalves(lower: multiset<FloatVal>, upper: multiset<FloatVal>,
                         hi: FloatVal, lo: FloatVal)
    requires AllLe(lower, upper)
    requires |lower| <= |upper| + 1 && |upper| <= |lower| + 1
    requires lower != multiset{} ==> IsMax(hi, lower)
    requires upper != multiset{} ==> IsMin(lo, upper)
    requires |lower| + |upper| > 0
    ensures |Sort(lower + upper)| > 0
    ensures |lower| == |upper| ==> Middle(Sort(lower + upper)) == 0.5 * (hi.v + lo.v)
    ensures |lower| < |upper| ==> Middle(Sort(lower + upper)) == lo.v
    ensures |upper| < |lower| ==> Middle(Sort(lower + upper)) == hi.v
  {
    SortConcat(lower, upper);
    var sl, su := Sort(lower), Sort(upper);
    SortIsSortedPermutation(lower);
    SortIsSortedPermutation(upper);
    if lower != multiset{} {
      SortLast(lower, hi);
    }
    if upper != multiset{} {
      SortFirst(upper, lo);
    }
    MiddleOfConcat(sl, su);
  }

  /** Where the middle of a concatenation falls when the two parts are
      within one in length. */
  lemma MiddleOfConcat(sl: seq<FloatVal>, su: seq<FloatVal>)
    requires |sl| <= |su| + 1 && |su| <= |sl| + 1 && |sl| + |su| > 0
    ensures |sl| == |su| ==> Middle(sl + su) == 0.5 * (sl[|sl| - 1].v + su[0].v)
    ensures |sl| < |su| ==> Middle(sl + su) == su[0].v
    ensures |su| < |sl| ==> Middle(sl + su) == sl[|sl| - 1].v
  {
    var s := sl + su;
    var n := |s|;
    if |sl| == |su| {
      assert n / 2 == |sl| && n % 2 == 0;
      assert s[n / 2 - 1] == sl[|sl| - 1];
      assert s[n / 2] == su[0];
    } else if |sl| < |su| {
      assert n / 2 == |sl| && n % 2 == 1;
      assert s[n / 2] == su[0];
    } else {
      assert n / 2 == |su| && n % 2 == 1;
      assert s[n / 2] == sl[|sl| - 1];
    }
  }

  /** The median of a single value is that value. */
  lemma MedianOfOne(x: FloatVal)
    ensures MedianOf([x]) == x.v
  {
    MedianFromHalves(multiset{x}, multiset{}, x, x);
    assert multiset([x]) == multiset{x} + multiset{};
  }

  /** The median of an already sorted sequence is its middle. */
  lemma MedianOfSorted(s: seq<FloatVal>)
    requires Sorted(s) && |s| > 0
    ensures MedianOf(s) == Middle(s)
  {
    SortUnique(s, multiset(s));
  }
}
