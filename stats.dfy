/** The running median of src/stats.rs: values seen so far are split
    between `sm`, a max-heap of the lower half, and `lg`, a max-heap of the
    NEGATED values of the upper half (so its top is minus the smallest
    upper value), and `med` caches the current median. */
module Stats {
  import opened FloatVals
  import opened Heaps
  import opened MedianSpec

  /** A fixed element of a non-empty multiset, used to walk it. */
  ghost function Pick(m: multiset<FloatVal>): FloatVal
    requires m != multiset{}
  {
    var x :| x in m; x
  }

  /** The values of `m` with their signs flipped back: the abstraction
      of the negated upper heap. */
  ghost function Negated(m: multiset<FloatVal>): multiset<FloatVal>
    decreases |m|
  {
    if m == multiset{} then multiset{}
    else
      var x := Pick(m);
      multiset{x.Neg()} + Negated(m - multiset{x})
  }

  /** `y` occurs in `Negated(m)` as often as `-y` occurs in `m`. */
  lemma {:induction false} NegatedCount(m: multiset<FloatVal>, y: FloatVal)
    ensures Negated(m)[y] == m[y.Neg()]
    decreases |m|
  {
    if m != multiset{} {
      var x := Pick(m);
      NegatedCount(m - multiset{x}, y);
      NegInvolution(x);
      NegInvolution(y);
    }
  }

  /** Pushing `x` onto the negated heap adds `-x` to the upper half. */
  lemma NegatedAdd(m: multiset<FloatVal>, x: FloatVal)
    ensures Negated(m + multiset{x}) == Negated(m) + multiset{x.Neg()}
  {
    forall y ensures Negated(m + multiset{x})[y] == (Negated(m) + multiset{x.Neg()})[y] {
      NegatedAddAt(m, x, y);
    }
  }

  lemma NegatedAddAt(m: multiset<FloatVal>, x: FloatVal, y: FloatVal)
    ensures Negated(m + multiset{x})[y] == (Negated(m) + multiset{x.Neg()})[y]
  {
    NegatedCount(m + multiset{x}, y);
    NegatedCount(m, y);
    NegInvolution(x);
    NegInvolution(y);
  }

  /** Popping `x` off the negated heap removes `-x` from the upper half. */
  lemma NegatedRemove(m: multiset<FloatVal>, x: FloatVal)
    requires x in m
    ensures Negated(m - multiset{x}) == Negated(m) - multiset{x.Neg()}
  {
    var rest := m - multiset{x};
    assert rest + multiset{x} == m;
    NegatedAdd(rest, x);
    AddThenRemove(Negated(rest), x.Neg());
  }

  lemma AddThenRemove(n: multiset<FloatVal>, y: FloatVal)
    ensures n + multiset{y} - multiset{y} == n
  {
  }

  /** A single negated value, flipped back. */
  lemma NegatedOne(t: FloatVal)
    ensures Negated(multiset{t}) == multiset{t.Neg()}
  {
    NegatedAdd(multiset{}, t);
    assert multiset{} + multiset{t} == multiset{t};
  }

  /** Negation preserves size and turns the empty multiset into itself. */
  lemma {:induction false} NegatedSize(m: multiset<FloatVal>)
    ensures |Negated(m)| == |m|
    decreases |m|
  {
    if m != multiset{} {
      NegatedSize(m - multiset{Pick(m)});
    }
  }

  /** `y` is an upper-half value exactly when `-y` is in the negated heap. */
  lemma NegatedMember(m: multiset<FloatVal>, y: FloatVal)
    ensures y in Negated(m) <==> y.Neg() in m
  {
    NegatedCount(m, y);
  }

  /** The top of the negated heap is minus the smallest upper-half value. */
  lemma NegatedTop(m: multiset<FloatVal>, t: FloatVal)
    requires IsMax(t, m)
    ensures IsMin(t.Neg(), Negated(m))
  {
    NegatedMember(m, t.Neg());
    NegInvolution(t);
    forall y | y in Negated(m) ensures t.Neg().Le(y) {
      NegatedMember(m, y);
      NegInvolution(y);
    }
  }

  /** A heap of size one holds exactly its top. */
  lemma SingletonHeap(m: multiset<FloatVal>, t: FloatVal)
    requires |m| <= 1 && t in m
    ensures m == multiset{t}
  {
    assert |m - multiset{t}| == 0;
    assert m == (m - multiset{t}) + multiset{t};
  }

  /** `sm` and the un-negated `lg` split `all` into a lower and an upper
      half, every lower value at most every upper value, with sizes that
      differ by at most `slack`. */
  ghost predicate Halves(sm: Heap, lg: Heap, all: multiset<FloatVal>, slack: nat) {
    && sm.Len() <= lg.Len() + slack
    && lg.Len() <= sm.Len() + slack
    && AllLe(sm.elems, Negated(lg.elems))
    && sm.elems + Negated(lg.elems) == all
  }

  /** Pushing onto the lower heap a value no larger than the smallest upper
      value (lines 58, 66, 81, 84). */
  lemma PushLower(sm: Heap, lg: Heap, all: multiset<FloatVal>, x: FloatVal)
    requires Halves(sm, lg, all, 1)
    requires lg.Peek().Some? ==> x.v <= -lg.Peek().value.v
    ensures Halves(sm.Push(x), lg, all + multiset{x}, 2)
  {
    var upper := Negated(lg.elems);
    NegatedSize(lg.elems);
    if lg.Peek().Some? {
      NegatedTop(lg.elems, lg.Peek().value);
      AllLeAddLower(sm.elems, upper, x, lg.Peek().value.Neg());
    } else {
      AllLeAddLower(sm.elems, upper, x, x);
    }
    assert sm.elems + multiset{x} + upper == all + multiset{x};
  }

  /** Pushing the negation of a value no smaller than the largest lower
      value onto the upper heap (lines 74, 79, 86). */
  lemma PushUpper(sm: Heap, lg: Heap, all: multiset<FloatVal>, x: FloatVal)
    requires Halves(sm, lg, all, 1)
    requires sm.Peek().Some? ==> sm.Peek().value.v <= x.v
    ensures Halves(sm, lg.Push(x.Neg()), all + multiset{x}, 2)
  {
    var upper := Negated(lg.elems);
    NegatedSize(lg.elems);
    NegatedSize(lg.Push(x.Neg()).elems);
    NegatedAdd(lg.elems, x.Neg());
    NegInvolution(x);
    assert Negated(lg.Push(x.Neg()).elems) == upper + multiset{x};
    if sm.Peek().Some? {
      AllLeAddUpper(sm.elems, upper, x, sm.Peek().value);
    } else {
      AllLeAddUpper(sm.elems, upper, x, x);
    }
    assert sm.elems + (upper + multiset{x}) == all + multiset{x};
  }

  /** Two emptied heaps, each given one value, the smaller one below. */
  lemma OneEach(lower: Heap, upper: Heap, a: FloatVal, b: FloatVal)
    requires lower.elems == multiset{} && upper.elems == multiset{} && a.Le(b)
    ensures Halves(lower.Push(a), upper.Push(b.Neg()), multiset{a} + multiset{b}, 1)
  {
    assert lower.Push(a) == Heap(multiset{a});
    assert upper.Push(b.Neg()) == Heap(multiset{b.Neg()});
    NegatedAdd(multiset{}, b.Neg());
    NegInvolution(b);
    assert multiset{} + multiset{b.Neg()} == multiset{b.Neg()};
    assert Negated(multiset{b.Neg()}) == multiset{b};
    NegatedSize(multiset{b.Neg()});
  }

  /** Popping a heap of one value leaves it empty. */
  lemma PopSingleton(h: Heap, t: FloatVal)
    requires h.Len() <= 1 && h.Peek() == Some(t)
    ensures h.elems == multiset{t}
    ensures h.Pop() == (Heap(multiset{}), Some(t))
  {
    SingletonHeap(h.elems, t);
  }

  /** The second item, when the first sits alone in the lower heap and the
      new one is smaller: the two change places (lines 69-72). */
  lemma SwapIntoLower(sm: Heap, lg: Heap, all: multiset<FloatVal>, x: FloatVal)
    requires Halves(sm, lg, all, 1)
    requires lg.Len() == 0 && sm.Peek().Some? && x.Lt(sm.Peek().value)
    ensures sm.Pop().1.Some?
    ensures Halves(sm.Pop().0.Push(x), lg.Push(sm.Pop().1.value.Neg()), all + multiset{x}, 1)
  {
    var t := sm.Peek().value;
    assert sm.elems == multiset{t} && sm.Pop() == (Heap(multiset{}), Some(t)) by {
      PopSingleton(sm, t);
    }
    assert all == multiset{t} by {
      NegatedSize(lg.elems);
    }
    OneEach(sm.Pop().0, lg, x, t);
    assert multiset{x} + multiset{t} == all + multiset{x};
  }

  /** The second item, when the first sits alone in the upper heap and the
      new one is larger: the two change places (lines 61-64). This state is
      never reached from `Median.new`, see `Median.UpperAloneIsDead`. */
  lemma SwapIntoUpper(sm: Heap, lg: Heap, all: multiset<FloatVal>, x: FloatVal)
    requires Halves(sm, lg, all, 1)
    requires sm.Len() == 0 && lg.Peek().Some? && x.Neg().Lt(lg.Peek().value)
    ensures lg.Pop().1.Some?
    ensures Halves(sm.Push(lg.Pop().1.value.Neg()), lg.Pop().0.Push(x.Neg()), all + multiset{x}, 1)
  {
    var t := lg.Peek().value;
    assert lg.elems == multiset{t} && lg.Pop() == (Heap(multiset{}), Some(t)) by {
      PopSingleton(lg, t);
    }
    assert all == multiset{t.Neg()} by {
      NegatedOne(t);
    }
    OneEach(sm, lg.Pop().0, t.Neg(), x);
    assert multiset{t.Neg()} + multiset{x} == all + multiset{x};
  }

  /** The rebalance when the lower heap is two larger: its top moves to the
      upper heap, negated (line 92). */
  lemma MoveUp(sm: Heap, lg: Heap, all: multiset<FloatVal>)
    requires Halves(sm, lg, all, 2) && sm.Len() == lg.Len() + 2
    ensures sm.Pop().1.Some?
    ensures Halves(sm.Pop().0, lg.Push(sm.Pop().1.value.Neg()), all, 1)
  {
    var f := sm.Peek().value;
    var upper := Negated(lg.elems);
    NegatedAdd(lg.elems, f.Neg());
    NegInvolution(f);
    NegatedSize(lg.Push(f.Neg()).elems);
    AllLeMoveUp(sm.elems, upper, f);
    assert sm.elems - multiset{f} + (upper + multiset{f}) == all;
  }

  /** The rebalance when the upper heap is two larger: its top moves to the
      lower heap, un-negated (line 94). */
  lemma MoveDown(sm: Heap, lg: Heap, all: multiset<FloatVal>)
    requires Halves(sm, lg, all, 2) && lg.Len() == sm.Len() + 2
    ensures lg.Pop().1.Some?
    ensures Halves(sm.Push(lg.Pop().1.value.Neg()), lg.Pop().0, all, 1)
  {
    var t := lg.Peek().value;
    var upper := Negated(lg.elems);
    NegatedTop(lg.elems, t);
    NegatedRemove(lg.elems, t);
    NegatedSize(lg.Pop().0.elems);
    AllLeMoveDown(sm.elems, upper, t.Neg());
    assert t.Neg() in upper;
    assert sm.elems + multiset{t.Neg()} + (upper - multiset{t.Neg()}) == all;
  }

  /** When the heaps hold the items as balanced, ordered halves, the median
      of the items follows from the heap tops: the average of the lower top
      and the un-negated upper top for equal sizes, else the top of the
      larger heap (lines 98-104). */
  lemma MedianAtTops(sm: Heap, lg: Heap, xs: seq<FloatVal>)
    requires Halves(sm, lg, multiset(xs), 1) && xs != []
    ensures sm.Peek().Some? || lg.Peek().Some?
    ensures sm.Len() == lg.Len() ==>
              sm.Peek().Some? && lg.Peek().Some? &&
              MedianOf(xs) == 0.5 * (sm.Peek().value.v - lg.Peek().value.v)
    ensures sm.Len() < lg.Len() ==> lg.Peek().Some? && MedianOf(xs) == -lg.Peek().value.v
    ensures lg.Len() < sm.Len() ==> sm.Peek().Some? && MedianOf(xs) == sm.Peek().value.v
  {
    NegatedSize(lg.elems);
    var hi := if sm.elems == multiset{} then xs[0] else MaxOf(sm.elems);
    var lo := if lg.elems == multiset{} then xs[0] else MaxOf(lg.elems).Neg();
    if lg.elems != multiset{} {
      NegatedTop(lg.elems, MaxOf(lg.elems));
    }
    assert |multiset(xs)| > 0 by { assert xs[0] in multiset(xs); }
    MedianFromHalves(sm.elems, Negated(lg.elems), hi, lo);
  }

  /** What makes routing by the cached median sound: with both heaps
      non-empty, the lower top is at most the median of the items and the
      median at most the un-negated upper top. */
  lemma TopsBracketMedian(sm: Heap, lg: Heap, xs: seq<FloatVal>)
    requires Halves(sm, lg, multiset(xs), 1)
    requires sm.Len() > 0 && lg.Len() > 0
    ensures xs != [] && sm.Peek().Some? && lg.Peek().Some?
    ensures sm.Peek().value.v <= MedianOf(xs) <= -lg.Peek().value.v
  {
    NegatedSize(lg.elems);
    assert xs != [] by { assert sm.Peek().value in multiset(xs); }
    MedianAtTops(sm, lg, xs);
    var hi, t := sm.Peek().value, lg.Peek().value;
    NegatedTop(lg.elems, t);
    assert hi.Le(t.Neg());
  }

  class Median {
    /** Max-heap of the lower half. */
    var sm: Heap
    /** Max-heap of the negated upper half. */
    var lg: Heap
    /** The cached median. */
    var med: FloatVal
    /** Every item passed to `Update`, in order. */
    ghost var items: seq<FloatVal>

    /** The object invariant: the heap sizes differ by at most one, every
        lower value is at most every un-negated upper value, the halves hold
        exactly the items, the lower heap is non-empty once an item has
        arrived, and `med` is their median (0 before any item). */
    ghost predicate Valid()
      reads this
    {
      && Halves(sm, lg, multiset(items), 1)
      && (items != [] ==> sm.Len() > 0)
      && med.v == (if items == [] then 0.0 else MedianOf(items))
    }

    /** Two empty heaps and a median of 0. */
    constructor ()
      ensures Valid()
      ensures items == [] && sm.elems == multiset{} && lg.elems == multiset{}
      ensures med.v == 0.0
    {
      sm := Heap.New();
      lg := Heap.New();
      med := FloatVal(0.0);
      items := [];
      new;
      NegatedSize(lg.elems);
    }

    /** The cached median: 0 before any item, then the median of the items. */
    function Get(): (r: real)
      reads this
      requires Valid()
      ensures items == [] ==> r == 0.0
      ensures items != [] ==> r == MedianOf(items)
    {
      med.v
    }

    /** The cached median agrees with the heap tops: it is what the
        recomputation at the end of `Update` derives from them. */
    lemma CacheMatchesTops()
      requires Valid() && items != []
      ensures sm.Peek().Some? || lg.Peek().Some?
      ensures sm.Len() == lg.Len() ==>
                sm.Peek().Some? && lg.Peek().Some? &&
                med.v == 0.5 * (sm.Peek().value.v - lg.Peek().value.v)
      ensures sm.Len() < lg.Len() ==> lg.Peek().Some? && med.v == -lg.Peek().value.v
      ensures lg.Len() < sm.Len() ==> sm.Peek().Some? && med.v == sm.Peek().value.v
    {
      MedianAtTops(sm, lg, items);
    }

    /** The branch of `update` for "lower heap empty, upper heap not" is
        dead: under the invariant an empty lower heap means no items at all,
        and so an empty upper heap too. */
    lemma UpperAloneIsDead()
      requires Valid()
      ensures sm.Len() == 0 ==> lg.Len() == 0 && items == []
    {
      NegatedSize(lg.elems);
    }

    /** The placement step of `update` (lines 57-89): the first two items
        are placed directly, later ones are routed by the cached median, a
        tie going to the lower heap unless it is already the larger one. The
        result may be two out of balance. */
    static method Place(sm: Heap, lg: Heap, med: FloatVal, item: FloatVal,
                        ghost all: multiset<FloatVal>)
      returns (sm': Heap, lg': Heap)
      requires Halves(sm, lg, all, 1)
      requires sm.Len() > 0 && lg.Len() > 0 ==>
                 sm.Peek().value.v <= med.v <= -lg.Peek().value.v
      ensures Halves(sm', lg', all + multiset{item}, 2)
      ensures sm'.Len() > 0
      ensures sm.Len() == 0 && lg.Len() == 0 ==> sm' == sm.Push(item) && lg' == lg
      ensures sm.Len() > 0 && lg.Len() > 0 && item.Gt(med) ==>
                sm' == sm && lg' == lg.Push(item.Neg())
      ensures sm.Len() > 0 && lg.Len() > 0 && item.Lt(med) ==>
                sm' == sm.Push(item) && lg' == lg
      ensures sm.Len() > 0 && lg.Len() > 0 && item == med ==>
                if sm.Len() <= lg.Len()
                then sm' == sm.Push(item) && lg' == lg
                else sm' == sm && lg' == lg.Push(item.Neg())
    {
      NegatedSize(lg.elems);
      if sm.Len() == 0 && lg.Len() == 0 {
        // first element
        PushLower(sm, lg, all, item);
        sm', lg' := sm.Push(item), lg;
      } else if sm.Len() == 0 {
        // second element, with the first one in the upper heap
        if item.Neg().Lt(lg.Peek().value) {
          SwapIntoUpper(sm, lg, all, item);
          var (rest, f) := lg.Pop();
          lg' := rest.Push(item.Neg());
          sm' := sm.Push(f.value.Neg());
        } else {
          PushLower(sm, lg, all, item);
          sm', lg' := sm.Push(item), lg;
        }
      } else if lg.Len() == 0 {
        // second element, with the first one in the lower heap
        if item.Lt(sm.Peek().value) {
          SwapIntoLower(sm, lg, all, item);
          var (rest, f) := sm.Pop();
          sm' := rest.Push(item);
          lg' := lg.Push(f.value.Neg());
        } else {
          PushUpper(sm, lg, all, item);
          sm', lg' := sm, lg.Push(item.Neg());
        }
      } else {
        // third and later elements: route by the cached median
        if item.Gt(med) {
          PushUpper(sm, lg, all, item);
          sm', lg' := sm, lg.Push(item.Neg());
        } else if item.Lt(med) {
          PushLower(sm, lg, all, item);
          sm', lg' := sm.Push(item), lg;
        } else if sm.Len() <= lg.Len() {
          PushLower(sm, lg, all, item);
          sm', lg' := sm.Push(item), lg;
        } else {
          PushUpper(sm, lg, all, item);
          sm', lg' := sm, lg.Push(item.Neg());
        }
      }
    }

    /** The rebalancing step of `update` (lines 90-95): when one heap is two
        larger than the other its top moves across, which restores the size
        balance and keeps the halves ordered; otherwise nothing changes. */
    static method Rebalance(sm: Heap, lg: Heap, ghost all: multiset<FloatVal>)
      returns (sm': Heap, lg': Heap)
      requires Halves(sm, lg, all, 2)
      ensures Halves(sm', lg', all, 1)
      ensures sm.Len() > 0 ==> sm'.Len() > 0
      ensures sm.Len() <= lg.Len() + 1 && lg.Len() <= sm.Len() + 1 ==> sm' == sm && lg' == lg
    {
      if sm.Len() == lg.Len() + 2 {
        MoveUp(sm, lg, all);
        var (rest, f) := sm.Pop();
        sm' := rest;
        lg' := lg.Push(f.value.Neg());
      } else if lg.Len() == sm.Len() + 2 {
        MoveDown(sm, lg, all);
        var (rest, f) := lg.Pop();
        lg' := rest;
        sm' := sm.Push(f.value.Neg());
      } else {
        sm', lg' := sm, lg;
      }
    }

    /** The recomputation step of `update` (lines 98-104): the average of
        the lower top and the un-negated upper top when the heaps are equal
        in size, else the (un-negated) top of the larger one; this is the
        median of the items. */
    static method Recompute(sm: Heap, lg: Heap, ghost xs: seq<FloatVal>) returns (m: real)
      requires Halves(sm, lg, multiset(xs), 1) && xs != []
      ensures m == MedianOf(xs)
    {
      MedianAtTops(sm, lg, xs);
      if sm.Len() == lg.Len() {
        m := 0.5 * (sm.Peek().value.v - lg.Peek().value.v);
      } else if sm.Len() < lg.Len() {
        m := -lg.Peek().value.v;
      } else {
        m := sm.Peek().value.v;
      }
    }

    /** One whole step of `update` on the heap values: placement,
        rebalancing and recomputation of the median. */
    static method Step(sm: Heap, lg: Heap, med: FloatVal, item: FloatVal, ghost xs: seq<FloatVal>)
      returns (sm': Heap, lg': Heap, m: real)
      requires Halves(sm, lg, multiset(xs), 1)
      requires xs != [] ==> sm.Len() > 0
      requires xs != [] ==> med.v == MedianOf(xs)
      ensures Halves(sm', lg', multiset(xs + [item]), 1)
      ensures sm'.Len() > 0
      ensures m == MedianOf(xs + [item])
      ensures xs == [] ==> sm'.elems == multiset{item} && lg'.elems == multiset{}
      ensures sm.Len() > 0 && lg.Len() > 0 && item == med ==>
                if sm.Len() <= lg.Len()
                then sm' == sm.Push(item) && lg' == lg
                else sm' == sm && lg' == lg.Push(item.Neg())
    {
      ghost var ys := xs + [item];
      assert multiset(ys) == multiset(xs) + multiset{item};
      NegatedSize(lg.elems);
      if sm.Len() > 0 && lg.Len() > 0 {
        TopsBracketMedian(sm, lg, xs);
      }
      var sm1, lg1 := Place(sm, lg, med, item, multiset(xs));
      sm', lg' := Rebalance(sm1, lg1, multiset(ys));
      m := Recompute(sm', lg', ys);
    }

    /** Inserts `item` (src/stats.rs `update`): places it, rebalances, and
        recomputes the median from the heap tops. */
    method Update(item: FloatVal)
      requires Valid()
      modifies this
      ensures Valid()
      ensures items == old(items) + [item]
      ensures med.v == MedianOf(items)
      ensures sm.elems != multiset{}
      ensures old(items) == [] ==> sm.elems == multiset{item} && lg.elems == multiset{}
      ensures old(sm.Len() > 0 && lg.Len() > 0) && item == old(med) ==>
                if old(sm.Len() <= lg.Len())
                then sm == old(sm.Push(item)) && lg == old(lg)
                else sm == old(sm) && lg == old(lg.Push(item.Neg()))
    {
      var sm', lg', m := Step(sm, lg, med, item, items);
      sm, lg, med, items := sm', lg', med.(v := m), items + [item];
    }
  }
}
