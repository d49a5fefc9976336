/** The priority queue the running median is built on: a max-heap of
    `FloatVal`s with push, peek-max and pop-max, in the role of the
    standard library's binary heap. Only its observable behaviour is
    modelled: its contents are a multiset and the top is a largest element. */
module Heaps {
  import opened FloatVals

  datatype Option<T> = None | Some(value: T)

  /** `x` is a largest element of `m`. */
  ghost predicate IsMax(x: FloatVal, m: multiset<FloatVal>) {
    x in m && forall y :: y in m ==> y.Le(x)
  }

  /** `x` is a smallest element of `m`. */
  ghost predicate IsMin(x: FloatVal, m: multiset<FloatVal>) {
    x in m && forall y :: y in m ==> x.Le(y)
  }

  /** Every non-empty multiset has a largest element. */
  lemma {:induction false} MaxExists(m: multiset<FloatVal>)
    requires m != multiset{}
    ensures exists x :: IsMax(x, m)
    decreases |m|
  {
    var y :| y in m;
    var rest := m - multiset{y};
    var top := y;
    if rest != multiset{} {
      MaxExists(rest);
      var z :| IsMax(z, rest);
      if y.Le(z) {
        top := z;
      }
    }
    forall w | w in m ensures w.Le(top) {
      PickedOrRest(m, y, w);
    }
    assert top in m by { PickedOrRest(m, y, top); }
    assert IsMax(top, m);
  }

  /** An element of `m` is either `y` or an element of `m` without one `y`. */
  lemma PickedOrRest(m: multiset<FloatVal>, y: FloatVal, w: FloatVal)
    requires y in m
    ensures w in m <==> w == y || w in m - multiset{y}
  {
  }

  /** The largest element of a non-empty multiset. */
  function MaxOf(m: multiset<FloatVal>): (r: FloatVal)
    requires m != multiset{}
    ensures IsMax(r, m)
  {
    MaxExists(m);
    var x :| x in m && forall y :: y in m ==> y.Le(x);
    x
  }

  /** A max-heap, held by value: the two heaps of the running median are
      owned by it and never shared. */
  datatype Heap = Heap(elems: multiset<FloatVal>) {

    /** An empty heap. */
    static function New(): (h: Heap)
      ensures h.Len() == 0 && h.Peek().None?
    {
      Heap(multiset{})
    }

    /** The number of elements; zero exactly for the empty heap. */
    function Len(): (n: nat)
      ensures n == 0 <==> elems == multiset{}
    {
      |elems|
    }

    /** The top of the heap, a largest element, or `None` when empty. */
    function Peek(): (r: Option<FloatVal>)
      ensures r.None? <==> elems == multiset{}
      ensures r.Some? ==> IsMax(r.value, elems)
    {
      if elems == multiset{} then None else Some(MaxOf(elems))
    }

    /** The heap with `x` added. */
    function Push(x: FloatVal): (h: Heap)
      ensures h.Len() == Len() + 1
      ensures h.elems == elems + multiset{x}
    {
      Heap(elems + multiset{x})
    }

    /** The top together with the heap without it; the heap unchanged and
        `None` when it is empty. */
    function Pop(): (r: (Heap, Option<FloatVal>))
      ensures r.1 == Peek()
      ensures r.1.Some? ==> r.0.elems == elems - multiset{r.1.value} && r.0.Len() + 1 == Len()
      ensures r.1.None? ==> r.0 == this
    {
      match Peek()
      case None => (this, None)
      case Some(t) => (Heap(elems - multiset{t}), Some(t))
    }
  }

  /** Popping a non-empty heap and pushing the popped top back restores
      the heap. */
  lemma PopThenPush(h: Heap)
    requires h.Len() > 0
    ensures h.Pop().1.Some? && h.Pop().0.Push(h.Pop().1.value) == h
  {
    var t := h.Peek().value;
    assert h.elems - multiset{t} + multiset{t} == h.elems;
  }

  /** After a push the top is the larger of the pushed value and the old
      top. */
  lemma PushThenPeek(h: Heap, x: FloatVal)
    ensures h.Push(x).Peek().Some?
    ensures h.Peek().None? ==> h.Push(x).Peek().value == x
    ensures h.Peek().Some? ==>
              h.Push(x).Peek().value.v == (if x.v < h.Peek().value.v then h.Peek().value.v else x.v)
  {
    var t := h.Push(x).Peek().value;
    if h.Peek().None? {
      assert h.Push(x).elems == multiset{x};
    } else {
      var u := h.Peek().value;
      assert u in h.Push(x).elems && x in h.Push(x).elems;
      assert t == x || t in h.elems;
    }
  }
}
