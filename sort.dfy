/** The sort template of sort/sort.go: introsort on a Go slice, which is
    quicksort with Bentley-McIlroy three-way partitioning that falls back to
    heapsort when it recurses too deep and to insertion sort on short ranges.
    The slice is an array sorted in place; `Less` is the template's
    comparator, fixed here as a parameter `less` that is a strict weak
    order. */
module Sort {
  import opened Order
  import Heap

  // ---------------------------------------------------------------------------
  // What the routines promise, stated on the slice's contents

  /** No element of `s[a..b]` is less than one before it. */
  ghost predicate Sorted<A>(s: seq<A>, less: (A, A) -> bool, a: int, b: int)
    requires 0 <= a <= b <= |s|
  {
    forall i, j {:trigger less(s[j], s[i])} :: a <= i < j < b ==> !less(s[j], s[i])
  }

  /** What `IsSorted` checks: no element is less than the one before it. */
  ghost predicate AdjacentSorted<A>(s: seq<A>, less: (A, A) -> bool) {
    forall i :: 0 < i < |s| ==> !less(s[i], s[i - 1])
  }

  /** `t` is `s` with only `s[a..b]` rearranged. */
  ghost predicate Permuted<A>(s: seq<A>, t: seq<A>, a: int, b: int) {
    0 <= a <= b <= |s| == |t| && multiset(s) == multiset(t) &&
    forall k :: 0 <= k < |s| && !(a <= k < b) ==> s[k] == t[k]
  }

  /** No element of `s[a..m]` is greater than an element of `s[m..b]`. */
  ghost predicate NotAbove<A>(s: seq<A>, less: (A, A) -> bool, a: int, m: int, b: int)
    requires 0 <= a <= m <= b <= |s|
  {
    forall i, j {:trigger less(s[j], s[i])} :: a <= i < m <= j < b ==> !less(s[j], s[i])
  }

  lemma PermutedRefl<A>(s: seq<A>, a: int, b: int)
    requires 0 <= a <= b <= |s|
    ensures Permuted(s, s, a, b)
  {
  }

  lemma PermutedTrans<A>(s: seq<A>, t: seq<A>, u: seq<A>, a: int, b: int)
    requires Permuted(s, t, a, b) && Permuted(t, u, a, b)
    ensures Permuted(s, u, a, b)
  {
  }

  /** A rearrangement of a range is one of any range around it. */
  lemma PermutedWiden<A>(s: seq<A>, t: seq<A>, a: int, b: int, a': int, b': int)
    requires Permuted(s, t, a, b) && 0 <= a' <= a && b <= b' <= |s|
    ensures Permuted(s, t, a', b')
  {
  }

  /** The range itself holds the same elements before and after. */
  lemma PermutedRange<A>(s: seq<A>, t: seq<A>, a: int, b: int)
    requires Permuted(s, t, a, b)
    ensures multiset(s[a..b]) == multiset(t[a..b])
  {
    assert s[..a] == t[..a];
    assert s[b..] == t[b..];
    Thirds(s, a, b);
    Thirds(t, a, b);
    MultisetCancel(multiset(s[..a]), multiset(s[a..b]), multiset(t[a..b]), multiset(s[b..]));
  }

  /** A list is its three pieces around `a` and `b`. */
  lemma Thirds<A>(s: seq<A>, a: int, b: int)
    requires 0 <= a <= b <= |s|
    ensures multiset(s) == multiset(s[..a]) + multiset(s[a..b]) + multiset(s[b..])
  {
    assert s == s[..a] + s[a..b] + s[b..];
  }

  lemma MultisetCancel<A>(x: multiset<A>, y: multiset<A>, y': multiset<A>, z: multiset<A>)
    requires x + y + z == x + y' + z
    ensures y == y'
  {
    forall e
      ensures y[e] == y'[e]
    {
      assert (x + y + z)[e] == (x + y' + z)[e];
    }
  }

  /** Every element of a rearranged range was somewhere in that range. */
  lemma PermutedFrom<A>(s: seq<A>, t: seq<A>, a: int, b: int, k: int) returns (k': int)
    requires Permuted(s, t, a, b) && a <= k < b
    ensures a <= k' < b && t[k] == s[k']
  {
    PermutedRange(s, t, a, b);
    assert t[k] == t[a..b][k - a];
    assert t[k] in multiset(s[a..b]);
    var i :| 0 <= i < b - a && s[a..b][i] == t[k];
    k' := a + i;
  }

  /** An exchange inside a range rearranges that range. */
  lemma PermutedSwap<A>(s: seq<A>, i: int, j: int, a: int, b: int)
    requires 0 <= a <= i < b <= |s| && a <= j < b
    ensures Permuted(s, Heap.Swap(s, i, j), a, b)
  {
  }

  /** Sorted pieces, none above the next, make a sorted whole. */
  lemma SortedJoin<A>(s: seq<A>, less: (A, A) -> bool, a: int, m: int, b: int)
    requires 0 <= a <= m <= b <= |s|
    requires Sorted(s, less, a, m) && Sorted(s, less, m, b) && NotAbove(s, less, a, m, b)
    ensures Sorted(s, less, a, b)
  {
  }

  // ---------------------------------------------------------------------------
  // swap and min (sort.go:20-29)

  /** `swap(data, i, j)` */
  method Swap<A>(data: array<A>, i: int, j: int)
    requires 0 <= i < data.Length && 0 <= j < data.Length
    modifies data
    ensures data[..] == Heap.Swap(old(data[..]), i, j)
  {
    data[i], data[j] := data[j], data[i];
  }

  /** `min(a, b)` */
  function Min(a: int, b: int): (m: int)
    ensures m <= a && m <= b && (m == a || m == b)
  {
    if a < b then a else b
  }

  // ---------------------------------------------------------------------------
  // IsSorted (sort.go:205-214)

  /** Under a strict weak order, checking neighbours is checking all pairs. */
  lemma {:induction false} AdjacentSortedIsSorted<A(!new)>(s: seq<A>, less: (A, A) -> bool)
    requires StrictWeakOrder(less)
    ensures AdjacentSorted(s, less) <==> Sorted(s, less, 0, |s|)
  {
    if AdjacentSorted(s, less) {
      forall i, j | 0 <= i < j < |s|
        ensures !less(s[j], s[i])
      {
        AdjacentReach(s, less, i, j);
      }
    }
  }

  lemma {:induction false} AdjacentReach<A(!new)>(s: seq<A>, less: (A, A) -> bool, i: int, j: int)
    requires StrictWeakOrder(less) && AdjacentSorted(s, less) && 0 <= i <= j < |s|
    ensures !less(s[j], s[i])
    decreases j - i
  {
    if i < j {
      AdjacentReach(s, less, i, j - 1);
      assert !less(s[j], s[j - 1]);
    }
  }

  /** `IsSorted`: scans from the end for an element less than its
      predecessor. */
  method IsSorted<A>(data: array<A>, less: (A, A) -> bool) returns (r: bool)
    ensures r <==> AdjacentSorted(data[..], less)
  {
    var n := data.Length;
    var i := n - 1;
    while i > 0
      invariant 0 <= i < n || (i == -1 && n == 0)
      invariant forall k :: i < k < n ==> !less(data[k], data[k - 1])
    {
      if less(data[i], data[i - 1]) {
        return false;
      }
      i := i - 1;
    }
    return true;
  }

  // ---------------------------------------------------------------------------
  // insertionSort (sort.go:31-38)

  /** How the elements stand while the inner loop of `insertionSort` moves
      `x` down from position `i`: `x` is at `j`, the elements on either side
      of it are each in order, none before `j` is above one after it, and
      every element after `j` is greater than `x`. */
  ghost predicate Inserting<A>(s: seq<A>, less: (A, A) -> bool, a: int, j: int, i: int, x: A) {
    0 <= a <= j <= i < |s| && s[j] == x &&
    Sorted(s, less, a, j) && Sorted(s, less, j + 1, i + 1) &&
    (forall p, q {:trigger less(s[q], s[p])} :: a <= p < j < q <= i ==> !less(s[q], s[p])) &&
    (forall q :: j < q <= i ==> less(x, s[q]))
  }

  /** The invariant of that loop: besides, only `orig[a..i+1]` has been
      rearranged. */
  ghost predicate InsertingFrom<A>(orig: seq<A>, s: seq<A>, less: (A, A) -> bool, a: int, j: int, i: int, x: A) {
    Permuted(orig, s, a, i + 1) && Inserting(s, less, a, j, i, x)
  }

  lemma InsertStart<A(!new)>(s: seq<A>, less: (A, A) -> bool, a: int, i: int)
    requires 0 <= a < i < |s| && Sorted(s, less, a, i)
    ensures InsertingFrom(s, s, less, a, i, i, s[i])
  {
    PermutedRefl(s, a, i + 1);
  }

  /** One exchange of the inner loop. */
  lemma InsertStep<A(!new)>(orig: seq<A>, s: seq<A>, less: (A, A) -> bool, a: int, j: int, i: int, x: A, t: seq<A>)
    requires InsertingFrom(orig, s, less, a, j, i, x) && a < j && less(s[j], s[j - 1])
    requires t == Heap.Swap(s, j, j - 1)
    ensures InsertingFrom(orig, t, less, a, j - 1, i, x)
  {
    InsertSwap(s, less, a, j, i, x);
    PermutedSwap(s, j, j - 1, a, i + 1);
    PermutedTrans(orig, s, Heap.Swap(s, j, j - 1), a, i + 1);
  }

  lemma InsertSwap<A(!new)>(s: seq<A>, less: (A, A) -> bool, a: int, j: int, i: int, x: A)
    requires Inserting(s, less, a, j, i, x) && a < j && less(s[j], s[j - 1])
    ensures Inserting(Heap.Swap(s, j, j - 1), less, a, j - 1, i, x)
  {
    var t := Heap.Swap(s, j, j - 1);
    forall p, q | j <= p < q <= i
      ensures !less(t[q], t[p])
    {
      if p == j {
        assert t[p] == s[j - 1] && t[q] == s[q];
      }
    }
  }

  /** Where the inner loop stops, `s[a..i+1]` is in order. */
  lemma InsertDone<A(!new)>(s: seq<A>, less: (A, A) -> bool, a: int, j: int, i: int, x: A)
    requires StrictWeakOrder(less) && Inserting(s, less, a, j, i, x)
    requires j == a || !less(s[j], s[j - 1])
    ensures Sorted(s, less, a, i + 1)
  {
    forall p, q | a <= p < q <= i
      ensures !less(s[q], s[p])
    {
      if q == j && p < j - 1 {
        assert !less(s[j - 1], s[p]);
      } else if p == j && q > j {
        Asymmetric(less, x, s[q]);
      }
    }
  }

  /** `insertionSort(data, a, b)`: sorts `data[a:b]`, moving each element
      down past the greater ones before it. */
  method InsertionSort<A(!new)>(data: array<A>, less: (A, A) -> bool, a: int, b: int)
    requires StrictWeakOrder(less) && 0 <= a <= b <= data.Length
    modifies data
    ensures Permuted(old(data[..]), data[..], a, b)
    ensures Sorted(data[..], less, a, b)
  {
    PermutedRefl(data[..], a, b);
    var i := a + 1;
    while i < b
      invariant a < i <= b || (i == a + 1 && a == b)
      invariant Permuted(old(data[..]), data[..], a, b)
      invariant Sorted(data[..], less, a, if i <= b then i else b)
    {
      ghost var s := data[..];
      InsertDown(data, less, a, i);
      PermutedWiden(s, data[..], a, i + 1, a, b);
      PermutedTrans(old(data[..]), s, data[..], a, b);
      i := i + 1;
    }
  }

  /** The inner loop of `insertionSort`: `data[i]` moves down past the
      greater elements of the sorted `data[a:i]`. */
  method InsertDown<A(!new)>(data: array<A>, less: (A, A) -> bool, a: int, i: int)
    requires StrictWeakOrder(less) && 0 <= a < i < data.Length
    requires Sorted(data[..], less, a, i)
    modifies data
    ensures Permuted(old(data[..]), data[..], a, i + 1)
    ensures Sorted(data[..], less, a, i + 1)
  {
    ghost var orig, x := data[..], data[i];
    InsertStart(orig, less, a, i);
    var j := i;
    while j > a && less(data[j], data[j - 1])
      invariant InsertingFrom(orig, data[..], less, a, j, i, x)
      decreases j
    {
      ghost var s := data[..];
      Swap(data, j, j - 1);
      InsertStep(orig, s, less, a, j, i, x, data[..]);
      j := j - 1;
    }
    InsertDone(data[..], less, a, j, i, x);
  }

  // ---------------------------------------------------------------------------
  // siftDown and heapSort (sort.go:40-75)
  //
  // `siftDown` is the sift-down of heap/heap.go with the order turned round:
  // it keeps a heap with the greatest element at the top, which is a heap
  // under `Flip(less)`. Its proof is the heap module's, on the slice
  // `data[first:first+hi]`.

  /** Go's `/`, which truncates toward zero: the remainder `x - q * y` is
      smaller than `y` in size and has the sign of `x`. */
  function Quot(x: int, y: int): (q: int)
    requires y > 0
    ensures x >= 0 ==> 0 <= x - q * y < y
    ensures x < 0 ==> -y < x - q * y <= 0
  {
    if x >= 0 then x / y else -((-x) / y)
  }

  /** The child `siftDown` picks at sort.go:45-51: the right one when the
      left one is less than it, else the left one. */
  ghost predicate SiftChild<A>(s: seq<A>, less: (A, A) -> bool, hi: int, first: int, root: int, child: int)
    requires 0 <= first && 0 <= root && first + hi <= |s|
  {
    2 * root + 1 < hi &&
    if 2 * root + 2 < hi && less(s[first + 2 * root + 1], s[first + 2 * root + 2])
    then child == 2 * root + 2
    else child == 2 * root + 1
  }

  /** The slice `siftDown` works on is a max-heap from `lo` on, except that
      the element at `lo` may be out of place. */
  ghost predicate HeapBelow<A(!new)>(s: seq<A>, less: (A, A) -> bool, lo: int, hi: int, first: int)
    requires 0 <= first && 0 <= hi && first + hi <= |s|
  {
    Heap.Ordered(s[first..first + hi], Flip(less), hi, lo, lo, -1)
  }

  /** The invariant of the loop in `siftDown`: only the slice has been
      rearranged and, when it started as `HeapBelow`, the sift-down
      invariant holds with the hole at `root`. */
  ghost predicate Sifting<A(!new)>(orig: seq<A>, s: seq<A>, less: (A, A) -> bool, lo: int, hi: int, first: int, root: int) {
    0 <= first && 0 <= hi && 0 <= lo && first + hi <= |orig| && lo <= root &&
    Permuted(orig, s, first, first + hi) && SiftHole(orig, s, less, lo, hi, first, root)
  }

  /** The heap part of `Sifting`. */
  ghost predicate SiftHole<A(!new)>(orig: seq<A>, s: seq<A>, less: (A, A) -> bool, lo: int, hi: int, first: int, root: int) {
    0 <= first && 0 <= hi && first + hi <= |orig| && first + hi <= |s| &&
    (HeapBelow(orig, less, lo, hi, first) ==>
       Heap.DownInv(orig[first..first + hi], s[first..first + hi], Flip(less), lo, root, hi))
  }

  /** What `siftDown` achieves. */
  ghost predicate Sifted<A(!new)>(orig: seq<A>, s: seq<A>, less: (A, A) -> bool, lo: int, hi: int, first: int) {
    0 <= first && 0 <= hi && 0 <= lo && first + hi <= |orig| &&
    Permuted(orig, s, first, first + hi) && SiftHeap(orig, s, less, lo, hi, first)
  }

  /** The heap part of `Sifted`. */
  ghost predicate SiftHeap<A(!new)>(orig: seq<A>, s: seq<A>, less: (A, A) -> bool, lo: int, hi: int, first: int) {
    0 <= first && 0 <= hi && first + hi <= |orig| && first + hi <= |s| &&
    (HeapBelow(orig, less, lo, hi, first) ==>
       Heap.DownPost(orig[first..first + hi], s[first..first + hi], Flip(less), lo, hi))
  }

  /** An exchange inside the slice is the exchange on the slice. */
  lemma SliceSwap<A>(s: seq<A>, first: int, hi: int, i: int, j: int)
    requires 0 <= first && 0 <= i < hi && 0 <= j < hi && first + hi <= |s|
    ensures Heap.Swap(s, first + i, first + j)[first..first + hi] == Heap.Swap(s[first..first + hi], i, j)
  {
  }

  lemma SiftStart<A(!new)>(s: seq<A>, less: (A, A) -> bool, lo: int, hi: int, first: int)
    requires 0 <= first && 0 <= hi && 0 <= lo && first + hi <= |s|
    ensures Sifting(s, s, less, lo, hi, first, lo)
  {
    PermutedRefl(s, first, first + hi);
    if HeapBelow(s, less, lo, hi, first) {
      Heap.DownStart(s[first..first + hi], Flip(less), lo, hi);
    }
  }

  /** The child picked is one no sibling is greater than. */
  lemma SiftChildLesser<A(!new)>(s: seq<A>, less: (A, A) -> bool, hi: int, first: int, root: int, child: int)
    requires StrictWeakOrder(less) && 0 <= first && 0 <= root && 0 <= hi && first + hi <= |s|
    requires SiftChild(s, less, hi, first, root, child)
    ensures Heap.LesserChild(s[first..first + hi], Flip(less), hi, root, child)
  {
    FlipOrder(less);
    var h := s[first..first + hi];
    if child == 2 * root + 2 {
      Asymmetric(less, h[2 * root + 1], h[2 * root + 2]);
      Heap.RightChosen(h, Flip(less), hi, root);
    } else {
      Heap.LeftChosen(h, Flip(less), hi, root);
    }
  }

  /** One exchange of `siftDown`. */
  lemma SiftStep<A(!new)>(orig: seq<A>, s: seq<A>, less: (A, A) -> bool, lo: int, hi: int, first: int, root: int, child: int, x: int, y: int)
    requires StrictWeakOrder(less) && Sifting(orig, s, less, lo, hi, first, root)
    requires SiftChild(s, less, hi, first, root, child) && less(s[first + root], s[first + child])
    requires x == first + root && y == first + child
    ensures Sifting(orig, Heap.Swap(s, x, y), less, lo, hi, first, child)
  {
    var t := Heap.Swap(s, x, y);
    PermutedSwap(s, x, y, first, first + hi);
    PermutedTrans(orig, s, t, first, first + hi);
    SiftHoleStep(orig, s, less, lo, hi, first, root, child);
  }

  /** The heap part of one exchange: the hole moves down to the child. */
  lemma SiftHoleStep<A(!new)>(orig: seq<A>, s: seq<A>, less: (A, A) -> bool, lo: int, hi: int, first: int, root: int, child: int)
    requires StrictWeakOrder(less) && SiftHole(orig, s, less, lo, hi, first, root) && 0 <= root
    requires SiftChild(s, less, hi, first, root, child) && less(s[first + root], s[first + child])
    ensures SiftHole(orig, Heap.Swap(s, first + root, first + child), less, lo, hi, first, child)
  {
    if HeapBelow(orig, less, lo, hi, first) {
      var g, h := orig[first..first + hi], s[first..first + hi];
      FlipOrder(less);
      SiftChildLesser(s, less, hi, first, root, child);
      assert h[child] == s[first + child] && h[root] == s[first + root];
      Heap.DownStep(g, h, Flip(less), lo, root, hi, child);
      SliceSwap(s, first, hi, root, child);
    }
  }

  /** Where `siftDown` stops, the slice is a max-heap from `lo` on. */
  lemma SiftDone<A(!new)>(orig: seq<A>, s: seq<A>, less: (A, A) -> bool, lo: int, hi: int, first: int, root: int, child: int)
    requires StrictWeakOrder(less) && Sifting(orig, s, less, lo, hi, first, root)
    requires 2 * root + 1 >= hi ||
             (SiftChild(s, less, hi, first, root, child) && !less(s[first + root], s[first + child]))
    ensures Sifted(orig, s, less, lo, hi, first)
  {
    if HeapBelow(orig, less, lo, hi, first) {
      FlipOrder(less);
      var g, h := orig[first..first + hi], s[first..first + hi];
      if 2 * root + 1 >= hi {
        Heap.DownLeaf(g, h, Flip(less), lo, root, hi);
      } else {
        SiftChildLesser(s, less, hi, first, root, child);
        Heap.DownDone(g, h, Flip(less), lo, root, hi, child);
      }
    }
  }

  /** `siftDown(data, lo, hi, first)`: the element at `first+lo` changes
      places with its greater child while it is less than it. When the
      subtrees below it were max-heaps, the slice is a max-heap from `lo` on
      afterwards. */
  method SiftDown<A(!new)>(data: array<A>, less: (A, A) -> bool, lo: int, hi: int, first: int)
    requires StrictWeakOrder(less) && 0 <= lo && 0 <= hi && 0 <= first && first + hi <= data.Length
    modifies data
    ensures Sifted(old(data[..]), data[..], less, lo, hi, first)
  {
    SiftStart(data[..], less, lo, hi, first);
    var root := lo;
    while true
      invariant Sifting(old(data[..]), data[..], less, lo, hi, first, root)
      decreases hi - root
    {
      var child := 2 * root + 1;
      if child >= hi {
        SiftDone(old(data[..]), data[..], less, lo, hi, first, root, child);
        break;
      }
      if child + 1 < hi && less(data[first + child], data[first + child + 1]) {
        child := child + 1;
      }
      if !less(data[first + root], data[first + child]) {
        SiftDone(old(data[..]), data[..], less, lo, hi, first, root, child);
        return;
      }
      var x, y := first + root, first + child;
      SiftStep(old(data[..]), data[..], less, lo, hi, first, root, child, x, y);
      Swap(data, x, y);
      root := child;
    }
  }

  /** `s[a..a+n]` is a max-heap in its parents from `lo` on. */
  ghost predicate MaxHeap<A(!new)>(s: seq<A>, less: (A, A) -> bool, a: int, n: int, lo: int) {
    0 <= a && 0 <= n && a + n <= |s| && Heap.Ordered(s[a..a + n], Flip(less), n, lo, -1, -1)
  }

  /** The invariant of heapSort's first loop: the parents after `i` are in
      heap order. */
  ghost predicate Heapifying<A(!new)>(orig: seq<A>, s: seq<A>, less: (A, A) -> bool, a: int, b: int, i: int) {
    -1 <= i && Permuted(orig, s, a, b) && MaxHeap(s, less, a, b - a, i + 1)
  }

  /** The invariant of heapSort's second loop: `s[a..a+i+1]` is a max-heap,
      and behind it the elements popped so far, sorted and none below it. */
  ghost predicate Popping<A(!new)>(orig: seq<A>, s: seq<A>, less: (A, A) -> bool, a: int, b: int, i: int) {
    -1 <= i < b - a && Permuted(orig, s, a, b) && MaxHeap(s, less, a, i + 1, 0) &&
    Sorted(s, less, a + i + 1, b) && NotAbove(s, less, a, a + i + 1, b)
  }

  /** Between the swap and the sift of the second loop: the greatest element
      has joined the sorted tail, and the heap is out of order at its root. */
  ghost predicate Popped<A(!new)>(orig: seq<A>, s: seq<A>, less: (A, A) -> bool, a: int, b: int, i: int) {
    0 <= i < b - a && Permuted(orig, s, a, b) && HeapBelow(s, less, 0, i, a) &&
    Sorted(s, less, a + i, b) && NotAbove(s, less, a, a + i, b)
  }

  /** No node at or after `(hi-1)/2` has a child, so the heap order already
      holds there. */
  lemma HeapifyStart<A(!new)>(s: seq<A>, less: (A, A) -> bool, a: int, b: int)
    requires 0 <= a <= b <= |s|
    ensures Heapifying(s, s, less, a, b, Quot(b - a - 1, 2))
  {
    PermutedRefl(s, a, b);
    var n, i := b - a, Quot(b - a - 1, 2);
    forall k | 0 < k < n
      ensures Heap.Parent(k) < i + 1
    {
    }
  }

  lemma HeapifyStep<A(!new)>(orig: seq<A>, s: seq<A>, t: seq<A>, less: (A, A) -> bool, a: int, b: int, i: int, hi: int, first: int)
    requires Heapifying(orig, s, less, a, b, i) && 0 <= i
    requires hi == b - a && first == a && Sifted(s, t, less, i, hi, first)
    ensures Heapifying(orig, t, less, a, b, i - 1)
  {
    PermutedTrans(orig, s, t, a, b);
    assert HeapBelow(s, less, i, b - a, a);
  }

  lemma PopStart<A(!new)>(orig: seq<A>, s: seq<A>, less: (A, A) -> bool, a: int, b: int)
    requires Heapifying(orig, s, less, a, b, -1)
    ensures Popping(orig, s, less, a, b, b - a - 1)
  {
  }

  /** The top of the heap `s[a..a+n]` is a greatest element of it. */
  lemma MaxHeapTop<A(!new)>(s: seq<A>, less: (A, A) -> bool, a: int, n: int)
    requires StrictWeakOrder(less) && MaxHeap(s, less, a, n, 0)
    ensures forall k :: a <= k < a + n ==> !less(s[a], s[k])
  {
    FlipOrder(less);
    var h := s[a..a + n];
    Heap.HeapIsOrdered(h, Flip(less));
    forall k | a <= k < a + n
      ensures !less(s[a], s[k])
    {
      Heap.HeapMin(h, Flip(less), k - a);
    }
  }

  /** `swap(data, first, first+i)` moves the greatest element of the heap to
      the front of the sorted tail. */
  lemma PopSwap<A(!new)>(orig: seq<A>, s: seq<A>, less: (A, A) -> bool, a: int, b: int, i: int, x: int, t: seq<A>)
    requires StrictWeakOrder(less) && Popping(orig, s, less, a, b, i) && 0 <= i && x == a + i
    requires t == Heap.Swap(s, a, x)
    ensures Popped(orig, t, less, a, b, i)
  {
    PermutedSwap(s, a, x, a, b);
    PermutedTrans(orig, s, t, a, b);
    MaxHeapTop(s, less, a, i + 1);
    var g, h := s[a..a + i + 1], t[a..a + i];
    forall k {:trigger Heap.Parent(k)} | 0 < k < i && Heap.Parent(k) != 0
      ensures !less(h[Heap.Parent(k)], h[k])
    {
      var p := Heap.Parent(k);
      assert h[k] == g[k] && h[p] == g[p];
    }
    forall p, q | a + i <= p < q < b
      ensures !less(t[q], t[p])
    {
      if p > a + i {
        assert t[q] == s[q] && t[p] == s[p];
      }
    }
    forall p, q | a <= p < a + i <= q < b
      ensures !less(t[q], t[p])
    {
      var p' := if p == a then x else p;
      assert t[p] == s[p'];
      if q == x {
        assert !less(s[a], s[p']);
      } else {
        assert t[q] == s[q];
      }
    }
  }

  /** `siftDown(data, lo, i, first)` restores the heap in front of the
      sorted tail. */
  lemma PopSift<A(!new)>(orig: seq<A>, t: seq<A>, u: seq<A>, less: (A, A) -> bool, a: int, b: int, i: int, lo: int, first: int)
    requires Popped(orig, t, less, a, b, i)
    requires lo == 0 && first == a && Sifted(t, u, less, lo, i, first)
    ensures Popping(orig, u, less, a, b, i - 1)
  {
    PermutedWiden(t, u, a, a + i, a, b);
    PermutedTrans(orig, t, u, a, b);
    forall p, q | a + i <= p < q < b
      ensures !less(u[q], u[p])
    {
      assert u[q] == t[q] && u[p] == t[p];
    }
    forall p, q | a <= p < a + i <= q < b
      ensures !less(u[q], u[p])
    {
      var p' := PermutedFrom(t, u, a, a + i, p);
      assert u[q] == t[q];
    }
  }

  /** `heapSort(data, a, b)`: sorts `data[a:b]` by building a max-heap in it
      and popping its greatest element to the back until it is empty. */
  method HeapSort<A(!new)>(data: array<A>, less: (A, A) -> bool, a: int, b: int)
    requires StrictWeakOrder(less) && 0 <= a <= b <= data.Length
    modifies data
    ensures Permuted(old(data[..]), data[..], a, b)
    ensures Sorted(data[..], less, a, b)
  {
    var hi := b - a;
    ghost var orig := data[..];
    BuildHeap(data, less, a, b);
    PopStart(orig, data[..], less, a, b);
    var i := hi - 1;
    while i >= 0
      invariant Popping(orig, data[..], less, a, b, i)
      decreases i + 1
    {
      PopRound(data, less, a, b, i, orig);
      i := i - 1;
    }
  }

  /** The first loop of `heapSort`: builds a heap with the greatest element
      at the top of `data[a:b]`. */
  method BuildHeap<A(!new)>(data: array<A>, less: (A, A) -> bool, a: int, b: int)
    requires StrictWeakOrder(less) && 0 <= a <= b <= data.Length
    modifies data
    ensures Heapifying(old(data[..]), data[..], less, a, b, -1)
  {
    var first, hi := a, b - a;
    ghost var orig := data[..];
    HeapifyStart(orig, less, a, b);
    var i := Quot(hi - 1, 2);
    while i >= 0
      invariant Heapifying(orig, data[..], less, a, b, i)
      decreases i + 1
    {
      ghost var s := data[..];
      SiftDown(data, less, i, hi, first);
      HeapifyStep(orig, s, data[..], less, a, b, i, hi, first);
      i := i - 1;
    }
  }

  /** The body of heapSort's second loop: `data[first]`, the greatest element
      of the heap `data[first:first+i+1]`, changes places with the last, and
      `siftDown(data, lo, i, first)` restores the heap in front of it. */
  method PopRound<A(!new)>(data: array<A>, less: (A, A) -> bool, a: int, b: int, i: int, ghost orig: seq<A>)
    requires StrictWeakOrder(less) && b <= data.Length && 0 <= i && Popping(orig, data[..], less, a, b, i)
    modifies data
    ensures Popping(orig, data[..], less, a, b, i - 1)
  {
    var first, lo := a, 0;
    var x := first + i;
    ghost var s := data[..];
    Swap(data, first, x);
    PopSwap(orig, s, less, a, b, i, x, data[..]);
    ghost var t := data[..];
    SiftDown(data, less, lo, i, first);
    PopSift(orig, t, data[..], less, a, b, i, lo, first);
  }

  // ---------------------------------------------------------------------------
  // medianOfThree and swapRange (sort.go:80-103)

  /** One step of the bubble sort in `medianOfThree`: `s[i]` and `s[j]`
      change places when `s[i]` is less. */
  function CondSwap<A>(s: seq<A>, less: (A, A) -> bool, i: int, j: int): (r: seq<A>)
    requires 0 <= i < |s| && 0 <= j < |s|
    ensures |r| == |s| && multiset(r) == multiset(s)
    ensures forall k :: 0 <= k < |s| && k != i && k != j ==> r[k] == s[k]
  {
    if less(s[i], s[j]) then Heap.Swap(s, i, j) else s
  }

  /** What `medianOfThree` leaves in the slice. */
  function Median3<A>(s: seq<A>, less: (A, A) -> bool, a: int, b: int, c: int): (r: seq<A>)
    requires 0 <= a < |s| && 0 <= b < |s| && 0 <= c < |s|
    ensures |r| == |s|
  {
    CondSwap(CondSwap(CondSwap(s, less, a, b), less, c, a), less, a, b)
  }

  /** After a step, `s[i]` is not less than `s[j]`. */
  lemma CondSwapOrders<A(!new)>(s: seq<A>, less: (A, A) -> bool, i: int, j: int)
    requires StrictWeakOrder(less) && 0 <= i < |s| && 0 <= j < |s|
    ensures !less(CondSwap(s, less, i, j)[i], CondSwap(s, less, i, j)[j])
  {
    Asymmetric(less, s[i], s[j]);
  }

  /** Only the three places change, and they keep their three values. */
  lemma Median3Moves<A>(s: seq<A>, less: (A, A) -> bool, a: int, b: int, c: int)
    requires 0 <= a < |s| && 0 <= b < |s| && 0 <= c < |s|
    ensures var r := Median3(s, less, a, b, c);
      multiset(r) == multiset(s) &&
      (forall k :: 0 <= k < |s| && k != a && k != b && k != c ==> r[k] == s[k]) &&
      (a != b && b != c && a != c ==> multiset{r[a], r[b], r[c]} == multiset{s[a], s[b], s[c]})
  {
  }

  /** The median of three ends up at `a`, the least at `b` and the greatest
      at `c`. When `b` and `c` are the same place there is no such order to
      reach. */
  lemma Median3Sorts<A(!new)>(s: seq<A>, less: (A, A) -> bool, a: int, b: int, c: int)
    requires StrictWeakOrder(less)
    requires 0 <= a < |s| && 0 <= b < |s| && 0 <= c < |s| && b != c
    ensures var r := Median3(s, less, a, b, c);
      !less(r[a], r[b]) && !less(r[c], r[a])
  {
    var s1 := CondSwap(s, less, a, b);
    var s2 := CondSwap(s1, less, c, a);
    var r := CondSwap(s2, less, a, b);
    CondSwapOrders(s, less, a, b);
    CondSwapOrders(s1, less, c, a);
    CondSwapOrders(s2, less, a, b);
    if a != b && a != c && less(s2[a], s2[b]) {
      assert r[a] == s2[b] && r[b] == s2[a] && r[c] == s2[c];
      assert !less(s2[c], s2[b]);
    }
  }

  /** `medianOfThree(data, a, b, c)`: three conditional exchanges that leave
      `data[b] <= data[a] <= data[c]`, so that `data[a]` holds the median of
      the three. */
  method MedianOfThree<A(!new)>(data: array<A>, less: (A, A) -> bool, a: int, b: int, c: int)
    requires 0 <= a < data.Length && 0 <= b < data.Length && 0 <= c < data.Length
    modifies data
    ensures data[..] == Median3(old(data[..]), less, a, b, c)
  {
    var m0, m1, m2 := b, a, c;
    ghost var s := data[..];
    if less(data[m1], data[m0]) {
      Swap(data, m1, m0);
    }
    assert data[..] == CondSwap(s, less, a, b);
    s := data[..];
    if less(data[m2], data[m1]) {
      Swap(data, m2, m1);
    }
    assert data[..] == CondSwap(s, less, c, a);
    s := data[..];
    if less(data[m1], data[m0]) {
      Swap(data, m1, m0);
    }
    assert data[..] == CondSwap(s, less, a, b);
  }

  /** `t` is `s` except in the blocks of `n` elements at `x` and at `y`. */
  ghost predicate Outside<A>(s: seq<A>, t: seq<A>, x: int, y: int, n: int) {
    |t| == |s| &&
    forall k :: 0 <= k < |s| && !(x <= k < x + n) && !(y <= k < y + n) ==> t[k] == s[k]
  }

  /** `t` is `s` with the blocks of `n` elements at `x` and at `y`
      exchanged. */
  ghost predicate Exchanged<A>(s: seq<A>, t: seq<A>, x: int, y: int, n: int) {
    Outside(s, t, x, y, n) &&
    (forall k :: x <= k < x + n ==> 0 <= k < |s| && 0 <= k - x + y < |s| && t[k] == s[k - x + y]) &&
    (forall k :: y <= k < y + n ==> 0 <= k < |s| && 0 <= k - y + x < |s| && t[k] == s[k - y + x])
  }

  /** The invariant of the loop in `swapRange`. */
  ghost predicate SwappingRange<A>(orig: seq<A>, s: seq<A>, a: int, b: int, n: int, i: int) {
    0 <= i && (i == 0 || i <= n) && multiset(s) == multiset(orig) && Outside(orig, s, a, b, i) &&
    (a + n <= b || b + n <= a ==> Exchanged(orig, s, a, b, i))
  }

  lemma SwapRangeStep<A>(orig: seq<A>, s: seq<A>, a: int, b: int, n: int, i: int, x: int, y: int)
    requires SwappingRange(orig, s, a, b, n, i) && i < n
    requires 0 <= a && 0 <= b && a + n <= |s| && b + n <= |s| && x == a + i && y == b + i
    ensures SwappingRange(orig, Heap.Swap(s, x, y), a, b, n, i + 1)
  {
  }

  lemma SwapRangeDone<A>(orig: seq<A>, s: seq<A>, a: int, b: int, n: int, i: int)
    requires SwappingRange(orig, s, a, b, n, i) && i >= n
    ensures multiset(s) == multiset(orig) && Outside(orig, s, a, b, n)
    ensures a + n <= b || b + n <= a ==> Exchanged(orig, s, a, b, n)
  {
  }

  /** `swapRange(data, a, b, n)`: exchanges `data[a+i]` and `data[b+i]` for
      each `i` below `n` in turn. When the two blocks do not overlap, which
      is how `doPivot` uses it, they change places; in any case only the
      blocks are touched and nothing is lost. */
  method SwapRange<A>(data: array<A>, a: int, b: int, n: int)
    requires n <= 0 || (0 <= a && 0 <= b && a + n <= data.Length && b + n <= data.Length)
    modifies data
    ensures multiset(data[..]) == multiset(old(data[..]))
    ensures Outside(old(data[..]), data[..], a, b, n)
    ensures a + n <= b || b + n <= a ==> Exchanged(old(data[..]), data[..], a, b, n)
  {
    var i := 0;
    while i < n
      invariant SwappingRange(old(data[..]), data[..], a, b, n, i)
    {
      var x, y := a + i, b + i;
      SwapRangeStep(old(data[..]), data[..], a, b, n, i, x, y);
      Swap(data, x, y);
      i := i + 1;
    }
    SwapRangeDone(old(data[..]), data[..], a, b, n, i);
  }

  // ---------------------------------------------------------------------------
  // doPivot (sort.go:104-166): Bentley-McIlroy three-way partitioning

  /** Every element of `s[i..j]` is less than `p`. */
  ghost predicate Below<A>(s: seq<A>, less: (A, A) -> bool, i: int, j: int, p: A) {
    forall k :: i <= k < j ==> 0 <= k < |s| && less(s[k], p)
  }

  /** Every element of `s[i..j]` is greater than `p`. */
  ghost predicate Above<A>(s: seq<A>, less: (A, A) -> bool, i: int, j: int, p: A) {
    forall k :: i <= k < j ==> 0 <= k < |s| && less(p, s[k])
  }

  /** Every element of `s[i..j]` is neither less nor greater than `p`. */
  ghost predicate Level<A>(s: seq<A>, less: (A, A) -> bool, i: int, j: int, p: A) {
    forall k :: i <= k < j ==> 0 <= k < |s| && !less(s[k], p) && !less(p, s[k])
  }

  /** What `doPivot` returns: `s[lo..hi]` split at `midlo` and `midhi` into
      the elements less than `s[midlo]`, those level with it, and those
      greater. */
  ghost predicate Partitioned<A>(s: seq<A>, less: (A, A) -> bool, lo: int, midlo: int, midhi: int, hi: int) {
    0 <= lo <= midlo < midhi <= hi <= |s| &&
    Below(s, less, lo, midlo, s[midlo]) && Level(s, less, midlo, midhi, s[midlo]) &&
    Above(s, less, midhi, hi, s[midlo])
  }

  /** The invariant of the partitioning loop, with the pivot at `lo`:
      `s[lo+1..a]` level with it, `s[a..b]` less, `s[b..c]` not yet
      examined, `s[c..d]` greater, `s[d..hi]` level. */
  ghost predicate Partitioning<A>(orig: seq<A>, s: seq<A>, less: (A, A) -> bool, lo: int, hi: int, a: int, b: int, c: int, d: int) {
    lo < a <= b <= c <= d <= hi && Permuted(orig, s, lo, hi) &&
    Level(s, less, lo + 1, a, s[lo]) && Below(s, less, a, b, s[lo]) &&
    Above(s, less, c, d, s[lo]) && Level(s, less, d, hi, s[lo])
  }

  /** The upward scan stopped at an element greater than the pivot. */
  ghost predicate Stopped<A>(s: seq<A>, less: (A, A) -> bool, lo: int, b: int, c: int) {
    0 <= lo < |s| && (b < c ==> 0 <= b < |s| && less(s[lo], s[b]))
  }

  /** Each `medianOfThree` of `doPivot` rearranges `s[lo..hi]`. */
  lemma MedianPermuted<A>(orig: seq<A>, s: seq<A>, less: (A, A) -> bool, x: int, y: int, z: int, lo: int, hi: int)
    requires Permuted(orig, s, lo, hi) && lo <= x < hi && lo <= y < hi && lo <= z < hi
    ensures Permuted(orig, Median3(s, less, x, y, z), lo, hi)
  {
    Median3Moves(s, less, x, y, z);
    PermutedTrans(orig, s, Median3(s, less, x, y, z), lo, hi);
  }

  lemma PivotStart<A>(orig: seq<A>, s: seq<A>, less: (A, A) -> bool, lo: int, hi: int)
    requires Permuted(orig, s, lo, hi) && lo < hi
    ensures Partitioning(orig, s, less, lo, hi, lo + 1, lo + 1, hi, hi)
  {
  }

  /** `data[b] < pivot`: `b++`. */
  lemma LeftBelow<A>(orig: seq<A>, s: seq<A>, less: (A, A) -> bool, lo: int, hi: int, a: int, b: int, c: int, d: int)
    requires Partitioning(orig, s, less, lo, hi, a, b, c, d) && b < c && less(s[b], s[lo])
    ensures Partitioning(orig, s, less, lo, hi, a, b + 1, c, d)
  {
  }

  /** `data[b] = pivot`: `swap(data, a, b); a++; b++`. */
  lemma LeftLevel<A>(orig: seq<A>, s: seq<A>, less: (A, A) -> bool, lo: int, hi: int, a: int, b: int, c: int, d: int)
    requires Partitioning(orig, s, less, lo, hi, a, b, c, d) && b < c
    requires !less(s[b], s[lo]) && !less(s[lo], s[b])
    ensures Partitioning(orig, Heap.Swap(s, a, b), less, lo, hi, a + 1, b + 1, c, d)
  {
    var t := Heap.Swap(s, a, b);
    PermutedSwap(s, a, b, lo, hi);
    PermutedTrans(orig, s, t, lo, hi);
    assert t[lo] == s[lo];
  }

  /** `data[c-1] > pivot`: `c--`. */
  lemma RightAbove<A>(orig: seq<A>, s: seq<A>, less: (A, A) -> bool, lo: int, hi: int, a: int, b: int, c: int, d: int)
    requires Partitioning(orig, s, less, lo, hi, a, b, c, d) && Stopped(s, less, lo, b, c)
    requires b < c && less(s[lo], s[c - 1])
    ensures Partitioning(orig, s, less, lo, hi, a, b, c - 1, d) && Stopped(s, less, lo, b, c - 1)
  {
  }

  /** `data[c-1] = pivot`: `swap(data, c-1, d-1); c--; d--`. */
  lemma RightLevel<A(!new)>(orig: seq<A>, s: seq<A>, less: (A, A) -> bool, lo: int, hi: int, a: int, b: int, c: int, d: int, x: int, y: int)
    requires StrictWeakOrder(less)
    requires Partitioning(orig, s, less, lo, hi, a, b, c, d) && Stopped(s, less, lo, b, c)
    requires b < c && !less(s[lo], s[c - 1]) && !less(s[c - 1], s[lo]) && x == c - 1 && y == d - 1
    ensures Partitioning(orig, Heap.Swap(s, x, y), less, lo, hi, a, b, x, y)
    ensures Stopped(Heap.Swap(s, x, y), less, lo, b, x)
  {
    var t := Heap.Swap(s, x, y);
    PermutedSwap(s, x, y, lo, hi);
    PermutedTrans(orig, s, t, lo, hi);
    assert t[lo] == s[lo];
    if b < x {
      assert t[b] == s[b];
    }
  }

  /** `data[b] > pivot` and `data[c-1] < pivot`: `swap(data, b, c-1); b++; c--`. */
  lemma Exchange<A(!new)>(orig: seq<A>, s: seq<A>, less: (A, A) -> bool, lo: int, hi: int, a: int, b: int, c: int, d: int, y: int)
    requires StrictWeakOrder(less)
    requires Partitioning(orig, s, less, lo, hi, a, b, c, d) && Stopped(s, less, lo, b, c)
    requires b < c && less(s[c - 1], s[lo]) && y == c - 1
    ensures b < y && Partitioning(orig, Heap.Swap(s, b, y), less, lo, hi, a, b + 1, y, d)
  {
    Asymmetric(less, s[lo], s[b]);
    var t := Heap.Swap(s, b, y);
    PermutedSwap(s, b, y, lo, hi);
    PermutedTrans(orig, s, t, lo, hi);
    assert t[lo] == s[lo];
  }

  /** `s[lo..hi]`, a rearrangement of `orig[lo..hi]`, holds the elements
      less than `p`, then level ones, then greater ones, then level ones,
      split at `i`, `j` and `k`. */
  ghost predicate Blocks<A>(orig: seq<A>, s: seq<A>, less: (A, A) -> bool, lo: int, hi: int, i: int, j: int, k: int, p: A) {
    lo <= i <= j <= k <= hi && Permuted(orig, s, lo, hi) &&
    Below(s, less, lo, i, p) && Level(s, less, i, j, p) && Above(s, less, j, k, p) && Level(s, less, k, hi, p)
  }

  /** `swapRange(data, lo, b-n, n)` with `n = min(b-a, a-lo)` moves the
      elements less than the pivot to the front, ahead of those level with
      it. */
  lemma FinishLeft<A(!new)>(orig: seq<A>, s: seq<A>, t: seq<A>, less: (A, A) -> bool, lo: int, hi: int, a: int, b: int, d: int,
                            n: int, x: int, midlo: int)
    requires StrictWeakOrder(less) && Partitioning(orig, s, less, lo, hi, a, b, b, d)
    requires n == Min(b - a, a - lo) && x == b - n && midlo == lo + b - a
    requires multiset(t) == multiset(s) && (lo + n <= x || x + n <= lo ==> Exchanged(s, t, lo, x, n))
    ensures Blocks(orig, t, less, lo, hi, midlo, b, d, s[lo])
  {
    assert lo + n <= x;
    var p := s[lo];
    assert Permuted(s, t, lo, hi);
    PermutedTrans(orig, s, t, lo, hi);
    assert !less(p, p);
    forall k | lo <= k < lo + b - a
      ensures less(t[k], p)
    {
      if k >= lo + n {
        assert t[k] == s[k];
      }
    }
    forall k | lo + b - a <= k < b
      ensures !less(t[k], p) && !less(p, t[k])
    {
      if k < b - n {
        assert t[k] == s[k];
      }
    }
    forall k | b <= k < hi
      ensures t[k] == s[k]
    {
    }
  }

  /** `swapRange(data, c, hi-n, n)` with `n = min(hi-d, d-c)` moves the
      elements level with the pivot from the back to the middle, ahead of
      those greater than it. */
  lemma FinishRight<A(!new)>(orig: seq<A>, s: seq<A>, t: seq<A>, less: (A, A) -> bool, lo: int, hi: int, a: int, b: int, d: int,
                             n: int, x: int, p: A, midlo: int, midhi: int)
    requires StrictWeakOrder(less) && lo < a && Blocks(orig, s, less, lo, hi, midlo, b, d, p)
    requires n == Min(hi - d, d - b) && x == hi - n && midlo == lo + b - a && midhi == hi - (d - b)
    requires multiset(t) == multiset(s) && (b + n <= x || x + n <= b ==> Exchanged(s, t, b, x, n))
    ensures Blocks(orig, t, less, lo, hi, midlo, midhi, hi, p)
  {
    assert b + n <= x;
    assert Permuted(s, t, lo, hi);
    PermutedTrans(orig, s, t, lo, hi);
    forall k | lo <= k < b
      ensures t[k] == s[k]
    {
    }
    forall k | b <= k < hi - (d - b)
      ensures !less(t[k], p) && !less(p, t[k])
    {
      if k >= b + n {
        assert t[k] == s[k];
      }
    }
    forall k | hi - (d - b) <= k < hi
      ensures less(p, t[k])
    {
      if k < hi - n {
        assert t[k] == s[k];
      }
    }
  }

  /** The split around the pivot is a split around any element level with
      it, such as the one `doPivot` leaves at `midlo`. */
  lemma Reanchor<A(!new)>(orig: seq<A>, s: seq<A>, less: (A, A) -> bool, lo: int, midlo: int, midhi: int, hi: int, p: A)
    requires StrictWeakOrder(less) && midlo < midhi && Blocks(orig, s, less, lo, hi, midlo, midhi, hi, p)
    ensures Partitioned(s, less, lo, midlo, midhi, hi)
  {
    var m := s[midlo];
    assert !less(m, p) && !less(p, m);
    forall k | lo <= k < midlo
      ensures less(s[k], m)
    {
      assert less(s[k], p) && !less(m, p);
    }
    forall k | midlo <= k < midhi
      ensures !less(s[k], m) && !less(m, s[k])
    {
      assert !less(s[k], p) && !less(p, s[k]);
      assert !less(s[k], m) by { assert !less(s[k], p) && !less(p, m); }
      assert !less(m, s[k]) by { assert !less(m, p) && !less(p, s[k]); }
    }
    forall k | midhi <= k < hi
      ensures less(m, s[k])
    {
      assert less(p, s[k]) && !less(p, m);
    }
  }

  /** The pivot choice at the head of `doPivot`: Tukey's ninther when the
      range is longer than 40, then the median of `data[lo]`, `data[m]`
      and `data[hi-1]` moved to `data[lo]`. */
  method ChoosePivot<A(!new)>(data: array<A>, less: (A, A) -> bool, lo: int, hi: int)
    requires 0 <= lo < hi <= data.Length
    modifies data
    ensures Permuted(old(data[..]), data[..], lo, hi)
  {
    var m := lo + (hi - lo) / 2;
    PermutedRefl(data[..], lo, hi);
    ghost var g := data[..];
    if hi - lo > 40 {
      var s := (hi - lo) / 8;
      var x, y, z := lo, lo + s, lo + 2 * s;
      MedianOfThree(data, less, x, y, z);
      MedianPermuted(old(data[..]), g, less, x, y, z, lo, hi);
      g := data[..];
      x, y, z := m, m - s, m + s;
      MedianOfThree(data, less, x, y, z);
      MedianPermuted(old(data[..]), g, less, x, y, z, lo, hi);
      g := data[..];
      x, y, z := hi - 1, hi - 1 - s, hi - 1 - 2 * s;
      MedianOfThree(data, less, x, y, z);
      MedianPermuted(old(data[..]), g, less, x, y, z, lo, hi);
      g := data[..];
    }
    var last := hi - 1;
    MedianOfThree(data, less, lo, m, last);
    MedianPermuted(old(data[..]), g, less, lo, m, last, lo, hi);
  }

  /** The first inner loop of `doPivot`: `b` moves up over elements less
      than the pivot, and level ones are exchanged to `a`, until `b` meets
      `c` or stops at an element greater than the pivot. */
  method ScanUp<A>(data: array<A>, less: (A, A) -> bool, ghost orig: seq<A>, lo: int, hi: int, a0: int, b0: int, c: int, d: int)
      returns (a: int, b: int)
    requires Partitioning(orig, data[..], less, lo, hi, a0, b0, c, d)
    modifies data
    ensures Partitioning(orig, data[..], less, lo, hi, a, b, c, d) && Stopped(data[..], less, lo, b, c)
    ensures b0 <= b
  {
    var pivot := lo;
    a, b := a0, b0;
    while b < c
      invariant Partitioning(orig, data[..], less, lo, hi, a, b, c, d) && b0 <= b
      decreases c - b
    {
      if less(data[b], data[pivot]) {
        LeftBelow(orig, data[..], less, lo, hi, a, b, c, d);
        b := b + 1;
      } else if !less(data[pivot], data[b]) {
        LeftLevel(orig, data[..], less, lo, hi, a, b, c, d);
        Swap(data, a, b);
        a, b := a + 1, b + 1;
      } else {
        break;
      }
    }
  }

  /** The second inner loop of `doPivot`: `c` moves down over elements
      greater than the pivot, and level ones are exchanged to `d-1`, until
      `c` meets `b` or stops above an element less than the pivot. */
  method ScanDown<A(!new)>(data: array<A>, less: (A, A) -> bool, ghost orig: seq<A>, lo: int, hi: int, a: int, b: int, c0: int, d0: int)
      returns (c: int, d: int)
    requires StrictWeakOrder(less)
    requires Partitioning(orig, data[..], less, lo, hi, a, b, c0, d0) && Stopped(data[..], less, lo, b, c0)
    modifies data
    ensures Partitioning(orig, data[..], less, lo, hi, a, b, c, d) && Stopped(data[..], less, lo, b, c)
    ensures c <= c0 && (b < c ==> less(data[c - 1], data[lo]))
  {
    var pivot := lo;
    c, d := c0, d0;
    while b < c
      invariant Partitioning(orig, data[..], less, lo, hi, a, b, c, d) && Stopped(data[..], less, lo, b, c)
      invariant c <= c0
      decreases c - b
    {
      var x := c - 1;
      if less(data[pivot], data[x]) {
        RightAbove(orig, data[..], less, lo, hi, a, b, c, d);
        c := x;
      } else if !less(data[x], data[pivot]) {
        var y := d - 1;
        RightLevel(orig, data[..], less, lo, hi, a, b, c, d, x, y);
        Swap(data, x, y);
        c, d := x, y;
      } else {
        break;
      }
    }
  }

  /** The end of `doPivot`: once `b` has met `c`, two `swapRange`s move
      the blocks level with the pivot, from both ends, into the middle. */
  method Gather<A(!new)>(data: array<A>, less: (A, A) -> bool, ghost orig: seq<A>, lo: int, hi: int, a: int, b: int, d: int)
      returns (midlo: int, midhi: int)
    requires StrictWeakOrder(less) && Partitioning(orig, data[..], less, lo, hi, a, b, b, d)
    modifies data
    ensures Permuted(orig, data[..], lo, hi)
    ensures Partitioned(data[..], less, lo, midlo, midhi, hi)
  {
    var c := b;
    midlo, midhi := lo + b - a, hi - (d - c);
    var n := Min(b - a, a - lo);
    var x := b - n;
    ghost var g := data[..];
    ghost var p := g[lo];
    SwapRange(data, lo, x, n);
    FinishLeft(orig, g, data[..], less, lo, hi, a, b, d, n, x, midlo);
    n := Min(hi - d, d - c);
    x := hi - n;
    g := data[..];
    SwapRange(data, c, x, n);
    FinishRight(orig, g, data[..], less, lo, hi, a, b, d, n, x, p, midlo, midhi);
    Reanchor(orig, data[..], less, lo, midlo, midhi, hi, p);
  }

  /** `doPivot(data, lo, hi)`: chooses a pivot, partitions `data[lo:hi]`
      into the elements less than it, those level with it and those greater,
      and returns where the middle block starts and ends. */
  method DoPivot<A(!new)>(data: array<A>, less: (A, A) -> bool, lo: int, hi: int) returns (midlo: int, midhi: int)
    requires StrictWeakOrder(less) && 0 <= lo < hi <= data.Length
    modifies data
    ensures Permuted(old(data[..]), data[..], lo, hi)
    ensures Partitioned(data[..], less, lo, midlo, midhi, hi)
  {
    ChoosePivot(data, less, lo, hi);
    ghost var orig := old(data[..]);
    var a, b, c, d := lo + 1, lo + 1, hi, hi;
    PivotStart(orig, data[..], less, lo, hi);
    while true
      invariant Partitioning(orig, data[..], less, lo, hi, a, b, c, d)
      decreases c - b
    {
      a, b := ScanUp(data, less, orig, lo, hi, a, b, c, d);
      c, d := ScanDown(data, less, orig, lo, hi, a, b, c, d);
      if b >= c {
        break;
      }
      var y := c - 1;
      Exchange(orig, data[..], less, lo, hi, a, b, c, d, y);
      Swap(data, b, y);
      b, c := b + 1, y;
    }

    midlo, midhi := Gather(data, less, orig, lo, hi, a, b, d);
  }

  // ---------------------------------------------------------------------------
  // quickSort and Sort (sort.go:168-203)

  /** The invariant of the loop in `quickSort(data, a0, b0, ...)`: the part
      left of `a` and the part from `b` on are sorted and in place, and what
      remains to sort, `s[a..b]`, lies between them. */
  ghost predicate QuickInv<A>(orig: seq<A>, s: seq<A>, less: (A, A) -> bool, a0: int, b0: int, a: int, b: int) {
    a0 <= a <= b <= b0 && Permuted(orig, s, a0, b0) &&
    Sorted(s, less, a0, a) && Sorted(s, less, b, b0) &&
    NotAbove(s, less, a0, a, b0) && NotAbove(s, less, a0, b, b0)
  }

  /** After `doPivot` in the loop of `quickSort`. */
  ghost predicate Pivoted<A>(orig: seq<A>, s: seq<A>, less: (A, A) -> bool, a0: int, b0: int, a: int, b: int, mlo: int, mhi: int) {
    QuickInv(orig, s, less, a0, b0, a, b) && Partitioned(s, less, a, mlo, mhi, b)
  }

  lemma QuickStart<A>(s: seq<A>, less: (A, A) -> bool, a0: int, b0: int)
    requires 0 <= a0 <= b0 <= |s|
    ensures QuickInv(s, s, less, a0, b0, a0, b0)
  {
    PermutedRefl(s, a0, b0);
  }

  /** Rearranging what remains to sort keeps the invariant. */
  lemma QuickInvKeep<A>(orig: seq<A>, s: seq<A>, t: seq<A>, less: (A, A) -> bool, a0: int, b0: int, a: int, b: int)
    requires QuickInv(orig, s, less, a0, b0, a, b) && Permuted(s, t, a, b)
    ensures QuickInv(orig, t, less, a0, b0, a, b)
  {
    PermutedWiden(s, t, a, b, a0, b0);
    PermutedTrans(orig, s, t, a0, b0);
    forall i, j | a0 <= i < a <= j < b0
      ensures !less(t[j], t[i])
    {
      var j' := j;
      if j < b {
        j' := PermutedFrom(s, t, a, b, j);
      }
      assert t[i] == s[i] && t[j] == s[j'];
    }
    forall i, j | a0 <= i < b <= j < b0
      ensures !less(t[j], t[i])
    {
      var i' := i;
      if a <= i {
        i' := PermutedFrom(s, t, a, b, i);
      }
      assert t[i] == s[i'] && t[j] == s[j];
    }
    forall i, j | b <= i < j < b0
      ensures !less(t[j], t[i])
    {
      assert t[i] == s[i] && t[j] == s[j];
    }
  }

  /** When the range is finished by another sort, the whole is sorted. */
  lemma QuickFinish<A>(orig: seq<A>, s: seq<A>, t: seq<A>, less: (A, A) -> bool, a0: int, b0: int, a: int, b: int)
    requires QuickInv(orig, s, less, a0, b0, a, b) && Permuted(s, t, a, b) && Sorted(t, less, a, b)
    ensures Permuted(orig, t, a0, b0) && Sorted(t, less, a0, b0)
  {
    QuickInvKeep(orig, s, t, less, a0, b0, a, b);
    SortedJoin(t, less, a0, a, b);
    SortedJoin(t, less, a0, b, b0);
  }

  /** `doPivot` rearranges what remains to sort. */
  lemma QuickPivot<A>(orig: seq<A>, s: seq<A>, t: seq<A>, less: (A, A) -> bool, a0: int, b0: int, a: int, b: int, mlo: int, mhi: int)
    requires QuickInv(orig, s, less, a0, b0, a, b) && Permuted(s, t, a, b) && Partitioned(t, less, a, mlo, mhi, b)
    ensures Pivoted(orig, t, less, a0, b0, a, b, mlo, mhi)
  {
    QuickInvKeep(orig, s, t, less, a0, b0, a, b);
  }

  /** Rearranging one side of the pivot keeps the partition. */
  lemma PartitionedKeep<A>(t: seq<A>, u: seq<A>, less: (A, A) -> bool, a: int, mlo: int, mhi: int, b: int, x: int, y: int)
    requires Partitioned(t, less, a, mlo, mhi, b) && Permuted(t, u, x, y)
    requires (x == a && y == mlo) || (x == mhi && y == b)
    ensures Partitioned(u, less, a, mlo, mhi, b)
  {
    var p := t[mlo];
    assert u[mlo] == p;
    forall k | x <= k < y
      ensures if x == a then less(u[k], p) else less(p, u[k])
    {
      var k' := PermutedFrom(t, u, x, y, k);
    }
  }

  /** The three blocks `doPivot` makes are in order, and the middle one is
      sorted. */
  lemma PartitionOrder<A(!new)>(u: seq<A>, less: (A, A) -> bool, a: int, mlo: int, mhi: int, b: int)
    requires StrictWeakOrder(less) && Partitioned(u, less, a, mlo, mhi, b)
    ensures Sorted(u, less, mlo, mhi) && NotAbove(u, less, a, mlo, b) && NotAbove(u, less, mlo, mhi, b)
  {
    var m := u[mlo];
    forall i, j | mlo <= i < j < mhi
      ensures !less(u[j], u[i])
    {
      assert !less(u[j], m) && !less(m, u[i]);
    }
    forall i, j | a <= i < mlo <= j < b
      ensures !less(u[j], u[i])
    {
      if j < mhi {
        assert less(u[i], m) && !less(u[j], m);
      } else {
        assert less(u[i], m) && less(m, u[j]);
        Asymmetric(less, u[i], u[j]);
      }
    }
    forall i, j | mlo <= i < mhi <= j < b
      ensures !less(u[j], u[i])
    {
      assert less(m, u[j]) && !less(m, u[i]);
    }
  }

  /** `quickSort(data, a, mlo, ...)` has sorted the left side: the loop
      goes on with `a = mhi`. */
  lemma QuickLeft<A(!new)>(orig: seq<A>, t: seq<A>, u: seq<A>, less: (A, A) -> bool, a0: int, b0: int, a: int, b: int, mlo: int, mhi: int)
    requires StrictWeakOrder(less) && Pivoted(orig, t, less, a0, b0, a, b, mlo, mhi)
    requires Permuted(t, u, a, mlo) && Sorted(u, less, a, mlo)
    ensures QuickInv(orig, u, less, a0, b0, mhi, b)
  {
    PermutedWiden(t, u, a, mlo, a, b);
    QuickInvKeep(orig, t, u, less, a0, b0, a, b);
    PartitionedKeep(t, u, less, a, mlo, mhi, b, a, mlo);
    PartitionOrder(u, less, a, mlo, mhi, b);
    SortedJoin(u, less, a, mlo, mhi);
    SortedJoin(u, less, a0, a, mhi);
  }

  /** `quickSort(data, mhi, b, ...)` has sorted the right side: the loop
      goes on with `b = mlo`. */
  lemma QuickRight<A(!new)>(orig: seq<A>, t: seq<A>, u: seq<A>, less: (A, A) -> bool, a0: int, b0: int, a: int, b: int, mlo: int, mhi: int)
    requires StrictWeakOrder(less) && Pivoted(orig, t, less, a0, b0, a, b, mlo, mhi)
    requires Permuted(t, u, mhi, b) && Sorted(u, less, mhi, b)
    ensures QuickInv(orig, u, less, a0, b0, a, mlo)
  {
    PermutedWiden(t, u, mhi, b, a, b);
    QuickInvKeep(orig, t, u, less, a0, b0, a, b);
    PartitionedKeep(t, u, less, a, mlo, mhi, b, mhi, b);
    PartitionOrder(u, less, a, mlo, mhi, b);
    SortedJoin(u, less, mlo, mhi, b);
    SortedJoin(u, less, mlo, b, b0);
  }

  /** `quickSort(data, a, b, maxDepth)`: sorts `data[a:b]`, partitioning it
      and recursing into the smaller side while more than seven elements
      remain, with heapsort once `maxDepth` partitions have been made and
      insertion sort for the rest. */
  method QuickSort<A(!new)>(data: array<A>, less: (A, A) -> bool, a0: int, b0: int, maxDepth0: int)
    requires StrictWeakOrder(less) && 0 <= a0 <= b0 <= data.Length
    modifies data
    ensures Permuted(old(data[..]), data[..], a0, b0)
    ensures Sorted(data[..], less, a0, b0)
    decreases b0 - a0
  {
    var a, b, maxDepth := a0, b0, maxDepth0;
    QuickStart(data[..], less, a0, b0);
    while b - a > 7
      invariant QuickInv(old(data[..]), data[..], less, a0, b0, a, b)
      decreases b - a
    {
      if maxDepth == 0 {
        ghost var s := data[..];
        HeapSort(data, less, a, b);
        QuickFinish(old(data[..]), s, data[..], less, a0, b0, a, b);
        return;
      }
      maxDepth := maxDepth - 1;
      ghost var s := data[..];
      var mlo, mhi := DoPivot(data, less, a, b);
      QuickPivot(old(data[..]), s, data[..], less, a0, b0, a, b, mlo, mhi);
      ghost var t := data[..];
      if mlo - a < b - mhi {
        QuickSort(data, less, a, mlo, maxDepth);
        QuickLeft(old(data[..]), t, data[..], less, a0, b0, a, b, mlo, mhi);
        a := mhi;
      } else {
        QuickSort(data, less, mhi, b, maxDepth);
        QuickRight(old(data[..]), t, data[..], less, a0, b0, a, b, mlo, mhi);
        b := mlo;
      }
    }
    ghost var s := data[..];
    if b - a > 1 {
      InsertionSort(data, less, a, b);
    } else {
      PermutedRefl(s, a, b);
    }
    QuickFinish(old(data[..]), s, data[..], less, a0, b0, a, b);
  }

  /** The number of bits in the binary form of `n`, `ceil(lg(n+1))`. */
  function BitLen(n: int): (k: nat)
    decreases n
  {
    if n <= 0 then 0 else 1 + BitLen(n / 2)
  }

  function Pow2(k: nat): (p: nat)
  {
    if k == 0 then 1 else 2 * Pow2(k - 1)
  }

  /** `BitLen(n)` is the `k` with `2^(k-1) <= n < 2^k`. */
  lemma {:induction false} BitLenBounds(n: int)
    requires n > 0
    ensures Pow2(BitLen(n) - 1) <= n < Pow2(BitLen(n))
    decreases n
  {
    if n > 1 {
      BitLenBounds(n / 2);
    }
  }

  /** The head of `Sort`: `maxDepth` counts the halvings of `n` down to
      zero, then doubles. */
  method MaxDepth(n: int) returns (maxDepth: int)
    ensures maxDepth == 2 * BitLen(n)
  {
    maxDepth := 0;
    var i := n;
    while i > 0
      invariant maxDepth + BitLen(i) == BitLen(n)
      decreases i
    {
      maxDepth := maxDepth + 1;
      i := i / 2;
    }
    maxDepth := maxDepth * 2;
  }

  /** `Sort(data)`: sorts the whole slice. The sort is not stable: elements
      level with each other may end up in any order. */
  method Sort<A(!new)>(data: array<A>, less: (A, A) -> bool)
    requires StrictWeakOrder(less)
    modifies data
    ensures multiset(data[..]) == multiset(old(data[..]))
    ensures Sorted(data[..], less, 0, data.Length)
  {
    var n := data.Length;
    var maxDepth := MaxDepth(n);
    QuickSort(data, less, 0, n, maxDepth);
  }
}
