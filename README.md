# Running median of `st`, modelled in Dafny

`st` is a command-line tool that reads numbers and prints statistics about
them. This project models its running median, `src/stats.rs`. Values are
split between two binary heaps:

- `sm` is a max-heap holding the lower half of the values seen so far.
- `lg` is a max-heap holding the upper half, each value stored negated, so
  that its top is minus the smallest upper value.

`update` places a new value in one of the heaps. When one heap becomes two
larger than the other, it moves that heap's top across. It then caches the
median, computed from the two tops, in `med`. `get` returns the cached
value.

The model has five modules:

- `FloatVals` (`floatval.dfy`): the wrapped number, with `new`, `neg` and the
  comparison the heaps use.
- `Heaps` (`heap.dfy`): the binary heap, seen through what it does. Its
  contents are a multiset; `peek` and `pop` return a largest element, or
  `None` on an empty heap; `push` adds one element.
- `MedianSpec` (`median_spec.dfy`): an independent definition of "the median
  of the values". The values are sorted by repeated minimum extraction, and
  the median is the middle element, or the mean of the two middle ones. It
  also proves that the sorted order is unique and that the two-heap formula
  gives this median.
- `Stats` (`stats.dfy`): the `Median` object.
  - It is a class with fields `sm`, `lg` and `med`, plus a ghost field
    `items` that records every value passed to `Update`.
  - Its invariant `Valid()` says five things:
    - the heap sizes differ by at most one;
    - every lower value is at most every un-negated upper value;
    - the lower half plus the un-negated upper half is exactly the multiset
      of items;
    - `sm` is non-empty once an item has arrived;
    - `med` is the median of the items, or 0 before any item.
  - `Update` keeps the source's branches, and it keeps `lg` negated.
    - `Update` applies `Step`, one whole `update` on the heap values, to
      the object's fields.
    - `Step` runs three phases: `Place` (the first three comments of
      `update`: first element, second element, third and later elements),
      `Rebalance` (the fix-up of the sizes) and `Recompute` (the new
      median).
    - Each phase is proved against `Halves`, the invariant on two heap
      values.
- `Scenarios` (`scenarios.dfy`): runs on symbolic inputs.
  - Before any update `get` reads 0.
  - One value is its own median.
  - Four increasing values give the mean of the middle two.
  - Three equal values end with heap sizes 2 and 1.

### Behaviour worth noting

- Before the first update, `get` returns 0, the initial `med`
  (src/stats.rs:45, 50-52).
- The second value is handled by two branches. One is for a first value in
  `sm` and one for a first value in `lg` (src/stats.rs:60-75). The branch
  for `lg` is kept as written, and `Median.UpperAloneIsDead` proves that it
  is never taken.
- A value equal to the cached median goes to `sm` when `sm` is not larger
  than `lg`, and to `lg` otherwise (src/stats.rs:82-87).

## Model

| member | source | states |
|---|---|---|
| FloatVals.FloatVal.New | src/stats.rs:12-14 | the wrapped value is the given number |
| FloatVals.FloatVal.Neg | src/stats.rs:16-18 | the negation's value is minus the original value |
| FloatVals.NegInvolution | src/stats.rs:16-18 | negating twice gives back the original value |
| FloatVals.FloatVal.Cmp | src/stats.rs:22-26 | `Less`, `Equal` or `Greater` exactly when the values are smaller, equal or greater |
| FloatVals.NegReversesOrder | src/stats.rs:21-26 | negation reverses the comparison, so a max-heap of negated values acts as a min-heap |
| FloatVals.FloatVal.Lt | src/stats.rs:5 | the derived `<` (used at lines 61, 69 and 80) holds exactly when `cmp` gives `Less` |
| FloatVals.FloatVal.Gt | src/stats.rs:5 | the derived `>` (used at line 78) holds exactly when `cmp` gives `Greater` |
| FloatVals.FloatVal.Le | src/stats.rs:5 | the derived `<=` holds exactly when `cmp` does not give `Greater` |
| FloatVals.CmpIsTotalOrder | src/stats.rs:22-28 | `cmp` is antisymmetric, and `<=` is total, antisymmetric and transitive |
| Heaps.MaxOf | src/stats.rs:34-35 | a largest element of a non-empty heap |
| Heaps.Heap.New | src/stats.rs:43-44 | the new heap is empty and has no top |
| Heaps.Heap.Len | src/stats.rs:57 | the size is zero exactly for the empty heap (`len`, used at lines 57, 60, 68, 83, 91, 93, 98 and 100) |
| Heaps.Heap.Peek | src/stats.rs:61 | `None` exactly when the heap is empty, otherwise a largest element |
| Heaps.Heap.Push | src/stats.rs:58 | the contents gain exactly the pushed value, and the size grows by one |
| Heaps.Heap.Pop | src/stats.rs:62 | returns the top that `peek` shows and removes exactly that value; leaves an empty heap unchanged |
| Heaps.PopThenPush | src/stats.rs:62-64 | pushing back a popped top restores the heap |
| Heaps.PushThenPeek | src/stats.rs:58-86 | after a push the top is the larger of the pushed value and the old top |
| MedianSpec.SortIsSortedPermutation | src/stats.rs:97-104 | the reference sort has the same length and multiset as its input, and is ordered |
| MedianSpec.SortUnique | src/stats.rs:97-104 | any ordered arrangement of a multiset is the reference sort |
| MedianSpec.SortConcat | src/stats.rs:97-104 | sorting two halves, every lower value at most every upper value, gives the sorted lower half followed by the sorted upper half |
| MedianSpec.SortFirst | src/stats.rs:101 | the first sorted value is the smallest value, the one the negated upper heap keeps on top |
| MedianSpec.SortLast | src/stats.rs:103 | the last sorted value is the largest value, the one the lower heap keeps on top |
| MedianSpec.MedianFromHalves | src/stats.rs:97-104 | for ordered halves whose sizes differ by at most one, the median is the mean of the lower maximum and the upper minimum when sizes are equal, else the extreme value of the larger half |
| MedianSpec.MiddleOfConcat | src/stats.rs:97-104 | where the middle of a concatenation of two near-equal parts falls |
| MedianSpec.MedianOfOne | src/stats.rs:57-58 | the median of one value is that value |
| MedianSpec.MedianOfSorted | src/stats.rs:97-104 | the median of an already sorted sequence is its middle |
| Stats.NegatedCount | src/stats.rs:35 | a value occurs in the un-negated upper half as often as its negation occurs in `lg` |
| Stats.NegatedAdd | src/stats.rs:63 | pushing `-x` onto `lg` adds `x` to the upper half |
| Stats.NegatedRemove | src/stats.rs:94 | popping `t` from `lg` removes `-t` from the upper half |
| Stats.NegatedSize | src/stats.rs:35 | un-negating keeps the size |
| Stats.NegatedMember | src/stats.rs:35 | `y` is an upper value exactly when `-y` is in `lg` |
| Stats.NegatedTop | src/stats.rs:61 | the top of `lg`, negated, is the smallest upper value |
| Stats.PushLower | src/stats.rs:58 | pushing onto `sm` a value no larger than the smallest upper value keeps the halves ordered, with the item added and the sizes within two |
| Stats.PushUpper | src/stats.rs:74 | pushing the negation of a value no smaller than the lower top onto `lg` keeps the halves ordered, with the item added and the sizes within two |
| Stats.SwapIntoUpper | src/stats.rs:60-64 | second item, first item alone in `lg`, new item larger: after the exchange both heaps hold one value, ordered and balanced |
| Stats.SwapIntoLower | src/stats.rs:68-72 | second item, first item alone in `sm`, new item smaller: after the exchange both heaps hold one value, ordered and balanced |
| Stats.MoveUp | src/stats.rs:91-92 | moving the negated top of `sm` onto `lg` turns sizes that differ by two into equal sizes and keeps the halves ordered and the items unchanged |
| Stats.MoveDown | src/stats.rs:93-94 | moving the un-negated top of `lg` onto `sm` does the same in the other direction |
| Stats.TopsBracketMedian | src/stats.rs:77-88 | with both heaps non-empty, lower top <= median of the items <= un-negated upper top, which makes routing by the median sound |
| Stats.MedianAtTops | src/stats.rs:97-104 | under the invariant, the three formulas on the heap tops give the median of the items |
| Stats.Median.constructor | src/stats.rs:41-47 | both heaps empty, no items, median 0, and the invariant holds |
| Stats.Median.Get | src/stats.rs:50-52 | 0 before any update, otherwise the median of all items so far |
| Stats.Median.CacheMatchesTops | src/stats.rs:97-104 | the cached median is what the tops give |
| Stats.Median.UpperAloneIsDead | src/stats.rs:60-67 | under the invariant an empty `sm` means no items, so the branch "`sm` empty, `lg` not" is never taken |
| Stats.Median.Place | src/stats.rs:56-89 | the new item joins the halves, which stay ordered with sizes within two. The first item goes to `sm`; an item above the median goes to `lg`, negated; one below goes to `sm`; a tie goes to `sm` unless `sm` is already larger |
| Stats.Median.Rebalance | src/stats.rs:90-95 | the sizes end within one, the halves stay ordered and hold the same items, and nothing changes when the sizes were already within one |
| Stats.Median.Recompute | src/stats.rs:97-104 | the value computed from the tops is the median of the items |
| Stats.Median.Step | src/stats.rs:55-105 | from heaps that split the items, the new heaps split the items plus the new one, ordered and within one in size, with `sm` non-empty, and the new median is the median of all of them. The first item ends alone in `sm`; a tie with the median goes to `sm` when `sm` is not larger, else to `lg` negated, and nothing else moves |
| Stats.Median.Update | src/stats.rs:55-105 | the invariant is kept and the item is appended to the items. The new median is the median of all items, and `sm` is non-empty. The first update leaves the item alone in `sm`. A tie with the median goes to `sm` when `sm` is not larger, else to `lg` negated, and nothing else moves |
| Scenarios.Fresh | src/stats.rs:41-52 | before any update `get` reads 0 |
| Scenarios.OneValue | src/stats.rs:55-58 | after one update `get` reads that value |
| Scenarios.FourValues | src/stats.rs:55-105 | after four increasing values (such as 1, 2, 3, 4), `get` reads the mean of the middle two (2.5) |
| Scenarios.MedianOneToFour | src/stats.rs:98-99 | the median of 1, 2, 3, 4 is 2.5 |
| Scenarios.MedianOfFive | src/stats.rs:57-58 | the median of the single value 5 is 5 |
| Scenarios.ThreeEqual | src/stats.rs:82-84 | three equal values leave two values in `sm` and one in `lg`, and the median is that value |

## Left out

- `src/main.rs` is not part of this model. It reads input lines, parses
  them as `f64`, and computes the mean, variance, min, max and sum.
- Floating point: values are `real`.
  - So there is no NaN, no infinity, and no distinction between `-0.0` and
    `0.0`.
  - `cmp`'s `unwrap_or(Equal)` fallback for unordered values can never
    apply. Without NaN, the derived `PartialOrd` and the hand-written
    `Ord` agree.
  - Rounding of `0.5 * (a - b)` is not modelled.
  - Overflow at src/stats.rs:99 is not modelled. In `f64`,
    `sm.peek().v - lg.peek().v` is `+inf` when both tops are large, even
    though each is finite. For the inputs 1e308, 1.5e308, 1.6e308 the
    second update caches `med = +inf`. The third value is then smaller than
    `med` (line 80) and goes to `sm`, above the 1.5e308 in `lg`. From then
    on the halves are out of order, and `get` returns 1.6e308 where the
    median is 1.5e308. The model computes on exact reals, so it always
    caches the true median, and `Median.Step` and `Median.Update` assume
    no overflow.
- `BinaryHeap` internals (the array layout and sift-up/down) are left out.
  Only the behaviour `update` relies on is modelled: contents, the top is a
  largest element, push, and pop-max.
- If several equal values are all largest, the model's `peek` picks one of
  them. A real heap might pick a different one, but they are equal, so
  `update` sees no difference.
- Heaps are held in `Median` by value, as `Heap` datatypes in fields that
  `Update` reassigns. The source owns its heaps and never shares them, so
  there is no aliasing to model.
- `unwrap()` on an empty `peek`/`pop` is not modelled as a panic. Every call
  site is on a heap known to be non-empty, and the model proves this.
