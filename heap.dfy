/** The heap template of heap/heap.go: a binary min-heap kept in a Go slice,
    ordered by the template's `Less`. Element `j` is a child of element
    `(j-1)/2`, and the heap invariant is that no child is less than its
    parent, so the minimum sits at index 0. */
module Heap {
  import opened Order

  /** The parent index as heap.go:100 computes it, `(j-1)/2` with Go's `/`,
      which truncates toward zero: the root is its own parent, and so is
      index -1. */
  function Parent(j: int): (p: int)
    ensures j > 0 ==> 0 <= p < j && (j == 2 * p + 1 || j == 2 * p + 2)
    ensures j <= 0 ==> -2 < (j - 1) - 2 * p <= 0
    ensures p == j <==> j == 0 || j == -1
  {
    if j > 0 then (j - 1) / 2 else -((1 - j) / 2)
  }

  /** The heap invariant as heap.go:11-14 states it: `!Less(h[j], h[i])` for
      `j = 2*i+1` or `2*i+2` with `j < len(h)`. */
  ghost predicate IsHeap<A>(h: seq<A>, less: (A, A) -> bool) {
    forall i, j :: 0 <= i < |h| && 0 <= j < |h| && (j == 2 * i + 1 || j == 2 * i + 2) ==>
      !less(h[j], h[i])
  }

  /** The invariant on `h[..n]`, restricted to the children of parents from
      `lo` on, and not asked of the children of `skipParent` nor of the
      element `skipChild` (use -1 to skip nothing). */
  ghost predicate Ordered<A>(h: seq<A>, less: (A, A) -> bool, n: int, lo: int, skipParent: int, skipChild: int)
    requires n <= |h|
  {
    forall k {:trigger Parent(k)} :: 0 < k < n && Parent(k) >= lo && Parent(k) != skipParent && k != skipChild ==>
      !less(h[k], h[Parent(k)])
  }

  /** No child of `i` in `h[..n]` is less than `x`. */
  ghost predicate ChildrenNotBelow<A>(h: seq<A>, less: (A, A) -> bool, n: int, i: int, x: A)
    requires n <= |h|
  {
    forall k :: 0 < k < n && (k == 2 * i + 1 || k == 2 * i + 2) ==> !less(h[k], x)
  }

  /** `hs[i], hs[j] = hs[j], hs[i]` */
  function Swap<A>(s: seq<A>, i: nat, j: nat): (r: seq<A>)
    requires i < |s| && j < |s|
    ensures |r| == |s| && r[i] == s[j] && r[j] == s[i]
    ensures forall k :: 0 <= k < |s| && k != i && k != j ==> r[k] == s[k]
    ensures multiset(r) == multiset(s)
  {
    s[i := s[j]][j := s[i]]
  }

  lemma HeapIsOrdered<A>(h: seq<A>, less: (A, A) -> bool)
    ensures IsHeap(h, less) <==> Ordered(h, less, |h|, 0, -1, -1)
  {
    if IsHeap(h, less) {
      forall k | 0 < k < |h|
        ensures !less(h[k], h[Parent(k)])
      {
        var p := Parent(k);
        assert k == 2 * p + 1 || k == 2 * p + 2;
      }
    }
    if Ordered(h, less, |h|, 0, -1, -1) {
      forall i, j | 0 <= i < |h| && 0 <= j < |h| && (j == 2 * i + 1 || j == 2 * i + 2)
        ensures !less(h[j], h[i])
      {
        assert Parent(j) == i;
      }
    }
  }

  /** The root of a heap is a minimum: nothing in it is less. */
  lemma {:induction false} HeapMin<A(!new)>(h: seq<A>, less: (A, A) -> bool, k: nat)
    requires StrictWeakOrder(less) && IsHeap(h, less) && k < |h|
    ensures !less(h[k], h[0])
    decreases k
  {
    if k > 0 {
      HeapIsOrdered(h, less);
      var p := Parent(k);
      HeapMin(h, less, p);
      assert !less(h[k], h[p]);
    }
  }

  /** An exchange below `n` leaves `s[n..]` as it was. */
  lemma SwapBelow<A>(s: seq<A>, i: nat, j: nat, n: nat)
    requires i < n && j < n && n <= |s|
    ensures Swap(s, i, j)[n..] == s[n..]
  {
  }

  /** The invariant on `h[..n]` is the invariant of the heap `h[..n]`. */
  lemma OrderedPrefix<A>(h: seq<A>, less: (A, A) -> bool, n: nat)
    requires n <= |h| && Ordered(h, less, n, 0, -1, -1)
    ensures IsHeap(h[..n], less)
  {
    HeapIsOrdered(h[..n], less);
  }

  /** A heap on `h[..n]` whose element `i` has been replaced: every edge
      not touching `i` holds, and the children of `i` are not below its
      parent. */
  lemma HoleAt<A(!new)>(h: seq<A>, less: (A, A) -> bool, was: A, i: nat, n: nat)
    requires StrictWeakOrder(less) && i < n <= |h|
    requires Ordered(h[i := was], less, n, 0, -1, -1)
    ensures Ordered(h, less, n, 0, i, i)
    ensures 0 < i ==> ChildrenNotBelow(h, less, n, i, h[Parent(i)])
  {
    var g := h[i := was];
    if 0 < i {
      forall k | 0 < k < n && Parent(k) == i
        ensures !less(h[k], h[Parent(i)])
      {
        assert !less(g[k], g[i]) && !less(g[i], g[Parent(i)]);
      }
    }
  }

  // ---------------------------------------------------------------------------
  // up (heap.go:98-108)

  /** What `up` keeps between exchanges, started from `g` at `j0`: the
      element at `j` may be less than its parent, and then its children are
      not. */
  ghost predicate UpInv<A>(g: seq<A>, h: seq<A>, less: (A, A) -> bool, j0: int, j: int, n: int) {
    0 <= j <= j0 < n <= |h| && |h| == |g| && multiset(h) == multiset(g) &&
    h[n..] == g[n..] &&
    Ordered(h, less, n, 0, -1, j) &&
    (j > 0 && less(h[j], h[Parent(j)]) ==> ChildrenNotBelow(h, less, n, j, h[Parent(j)]))
  }

  /** One exchange of `up`: the hole moves from `j` to its parent. */
  lemma UpStep<A(!new)>(g: seq<A>, h: seq<A>, less: (A, A) -> bool, j0: int, j: int, n: int)
    requires StrictWeakOrder(less) && UpInv(g, h, less, j0, j, n)
    requires 0 < j && less(h[j], h[Parent(j)])
    ensures UpInv(g, Swap(h, Parent(j), j), less, j0, Parent(j), n)
  {
    var p := Parent(j);
    var h' := Swap(h, p, j);
    SwapBelow(h, p, j, n);
    Asymmetric(less, h[j], h[p]);
    forall k | 0 < k < n && k != p
      ensures !less(h'[k], h'[Parent(k)])
    {
      if Parent(k) == p && k != j {
        assert !less(h[k], h[p]);
      }
    }
    if p > 0 {
      forall k | 0 < k < n && Parent(k) == p
        ensures !less(h'[k], h'[Parent(p)])
      {
        assert !less(h[p], h[Parent(p)]);
        if k != j {
          assert !less(h[k], h[p]);
        }
      }
    }
  }

  // ---------------------------------------------------------------------------
  // down (heap.go:110-127)

  /** What `down` keeps between exchanges, started from `g` at `i0`: every
      edge from `i0` down holds except those from the hole `i` to its
      children, which are not below the hole's parent; nothing before the
      first child of `i0`, except `i0` itself, nor from `n` on has moved. */
  ghost predicate DownInv<A>(g: seq<A>, h: seq<A>, less: (A, A) -> bool, i0: int, i: int, n: int) {
    0 <= i0 <= i && 0 <= n <= |h| && |h| == |g| && multiset(h) == multiset(g) &&
    (i == i0 || Parent(i) >= i0) &&
    h[n..] == g[n..] &&
    (forall k :: 0 <= k < |h| && k != i0 && k <= 2 * i0 ==> h[k] == g[k]) &&
    Ordered(h, less, n, i0, i, -1) &&
    (i != i0 ==> i < n && ChildrenNotBelow(h, less, n, i, h[Parent(i)])) &&
    (i == i0 ==> h == g) &&
    (i != i0 && 0 < i0 < n && ChildrenNotBelow(g, less, n, i0, g[Parent(i0)]) ==>
       !less(h[i0], h[Parent(i0)]))
  }

  /** What `down(i0, n)` achieves. */
  ghost predicate DownPost<A>(g: seq<A>, h: seq<A>, less: (A, A) -> bool, i0: int, n: int) {
    0 <= i0 && 0 <= n <= |h| && |h| == |g| && multiset(h) == multiset(g) &&
    h[n..] == g[n..] &&
    (forall k :: 0 <= k < |h| && k != i0 && k <= 2 * i0 ==> h[k] == g[k]) &&
    Ordered(h, less, n, i0, -1, -1) &&
    (0 < i0 < n && ChildrenNotBelow(g, less, n, i0, g[Parent(i0)]) ==>
       ChildrenNotBelow(h, less, n, i0, h[Parent(i0)]) || !less(h[i0], h[Parent(i0)]))
  }

  /** `j` is a child of `i` in `h[..n]` and no sibling is less than it:
      the child `down` picks. */
  ghost predicate LesserChild<A>(h: seq<A>, less: (A, A) -> bool, n: int, i: int, j: int)
    requires n <= |h|
  {
    0 <= i && 0 < j < n && Parent(j) == i &&
    forall k :: 0 < k < n && (k == 2 * i + 1 || k == 2 * i + 2) ==> !less(h[k], h[j])
  }

  /** The left child may be taken when there is no right one or the right
      one is not less. */
  lemma LeftChosen<A(!new)>(h: seq<A>, less: (A, A) -> bool, n: int, i: int)
    requires StrictWeakOrder(less) && 0 <= i && 2 * i + 1 < n <= |h|
    requires 2 * i + 2 < n ==> !less(h[2 * i + 2], h[2 * i + 1])
    ensures LesserChild(h, less, n, i, 2 * i + 1)
  {
  }

  /** The right child may be taken when the left one is not less. */
  lemma RightChosen<A(!new)>(h: seq<A>, less: (A, A) -> bool, n: int, i: int)
    requires StrictWeakOrder(less) && 0 <= i && 2 * i + 2 < n <= |h|
    requires !less(h[2 * i + 1], h[2 * i + 2])
    ensures LesserChild(h, less, n, i, 2 * i + 2)
  {
  }

  /** `down` starts with the hole at `i0` and nothing moved. */
  lemma DownStart<A>(h: seq<A>, less: (A, A) -> bool, i0: int, n: int)
    requires 0 <= i0 && 0 <= n <= |h| && Ordered(h, less, n, i0, i0, -1)
    ensures DownInv(h, h, less, i0, i0, n)
  {
  }

  /** Where `down` stops, at a hole with no children, the whole subtree is
      in order. */
  lemma DownLeaf<A(!new)>(g: seq<A>, h: seq<A>, less: (A, A) -> bool, i0: int, i: int, n: int)
    requires StrictWeakOrder(less) && DownInv(g, h, less, i0, i, n)
    requires 2 * i + 1 >= n
    ensures DownPost(g, h, less, i0, n)
  {
    if i != i0 && 0 < i0 < n && ChildrenNotBelow(g, less, n, i0, g[Parent(i0)]) {
      assert !less(h[i0], h[Parent(i0)]);
    }
  }

  /** Where `down` stops, at a hole whose lesser child `j` is not less than
      it, the whole subtree is in order. */
  lemma DownDone<A(!new)>(g: seq<A>, h: seq<A>, less: (A, A) -> bool, i0: int, i: int, n: int, j: int)
    requires StrictWeakOrder(less) && DownInv(g, h, less, i0, i, n)
    requires LesserChild(h, less, n, i, j) && !less(h[j], h[i])
    ensures DownPost(g, h, less, i0, n)
  {
    if i != i0 && 0 < i0 < n && ChildrenNotBelow(g, less, n, i0, g[Parent(i0)]) {
      assert !less(h[i0], h[Parent(i0)]);
    }
  }

  /** One exchange of `down`: the hole moves from `i` to its lesser child `j`. */
  lemma DownStep<A(!new)>(g: seq<A>, h: seq<A>, less: (A, A) -> bool, i0: int, i: int, n: int, j: int)
    requires StrictWeakOrder(less) && DownInv(g, h, less, i0, i, n)
    requires LesserChild(h, less, n, i, j) && less(h[j], h[i])
    ensures DownInv(g, Swap(h, i, j), less, i0, j, n)
  {
    var h' := Swap(h, i, j);
    SwapBelow(h, i, j, n);
    DownStepOrder(h, less, i0, i, n, j);
    forall k | 0 <= k < |h'| && k != i0 && k <= 2 * i0
      ensures h'[k] == g[k]
    {
      assert k != i && k != j;
    }
  }

  /** The edges `down` has put in order stay in order when the hole moves
      down to its lesser child `j`. */
  lemma DownStepOrder<A(!new)>(h: seq<A>, less: (A, A) -> bool, i0: int, i: int, n: int, j: int)
    requires StrictWeakOrder(less) && 0 <= i0 <= i && n <= |h|
    requires Ordered(h, less, n, i0, i, -1)
    requires i != i0 ==> i < n && ChildrenNotBelow(h, less, n, i, h[Parent(i)])
    requires LesserChild(h, less, n, i, j) && less(h[j], h[i])
    ensures Ordered(Swap(h, i, j), less, n, i0, j, -1)
    ensures ChildrenNotBelow(Swap(h, i, j), less, n, j, h[j])
  {
    var h' := Swap(h, i, j);
    Asymmetric(less, h[j], h[i]);
    forall k | 0 < k < n && Parent(k) >= i0 && Parent(k) != j
      ensures !less(h'[k], h'[Parent(k)])
    {
      if k == i {
        assert !less(h[j], h[Parent(i)]);
      } else if Parent(k) == i && k != j {
        assert !less(h[k], h[j]);
      }
    }
    forall k | 0 < k < n && (k == 2 * j + 1 || k == 2 * j + 2)
      ensures !less(h'[k], h[j])
    {
      assert Parent(k) == j;
    }
  }

  /** Where `up` stops, at the root or below a parent that is not greater,
      every edge holds. */
  lemma UpDone<A(!new)>(g: seq<A>, h: seq<A>, less: (A, A) -> bool, j0: int, j: int, n: int)
    requires StrictWeakOrder(less) && UpInv(g, h, less, j0, j, n)
    requires j == 0 || !less(h[j], h[Parent(j)])
    ensures Ordered(h, less, n, 0, -1, -1)
  {
  }

  /** After `down(i, n)` from a heap whose element `i` was replaced, what
      `up(i)` asks for holds: only the edge from `i` to its parent may be
      out of order, and when it is, the children of `i` are not below that
      parent. */
  lemma DownThenUp<A(!new)>(g: seq<A>, h: seq<A>, less: (A, A) -> bool, i: int, n: int)
    requires StrictWeakOrder(less) && 0 <= i < n <= |g|
    requires Ordered(g, less, n, 0, i, i)
    requires 0 < i ==> ChildrenNotBelow(g, less, n, i, g[Parent(i)])
    requires DownPost(g, h, less, i, n)
    ensures Ordered(h, less, n, 0, -1, i)
    ensures i > 0 && less(h[i], h[Parent(i)]) ==> ChildrenNotBelow(h, less, n, i, h[Parent(i)])
  {
    forall k | 0 < k < n && k != i && Parent(k) < i
      ensures !less(h[k], h[Parent(k)])
    {
      var p := Parent(k);
      assert h[k] == g[k];
      assert p <= 2 * i;
      assert h[p] == g[p];
    }
    if 0 < i {
      assert h[Parent(i)] == g[Parent(i)];
    }
  }

  /** A heap stored in a slice. `Less` is a package-level function of the
      template; here it is fixed when the heap is made. */
  class Heap<A(!new)> {
    var h: seq<A>
    const less: (A, A) -> bool

    constructor (less: (A, A) -> bool, h: seq<A>)
      ensures this.less == less && this.h == h
    {
      this.less := less;
      this.h := h;
    }

    /** `Init`: heapify, whatever the contents. */
    method Init()
      requires StrictWeakOrder(less)
      modifies this
      ensures IsHeap(h, less)
      ensures multiset(h) == multiset(old(h))
    {
      var n := |h|;
      var i := n / 2 - 1;
      while i >= 0
        invariant -1 <= i <= n / 2 - 1 || (i == -1 && n < 2)
        invariant |h| == n && multiset(h) == multiset(old(h))
        invariant Ordered(h, less, n, i + 1, -1, -1)
        decreases i
      {
        Down(i, n);
        i := i - 1;
      }
      HeapIsOrdered(h, less);
    }

    /** `Push`: `x` is appended and moved up to its place. */
    method Push(x: A)
      requires StrictWeakOrder(less) && IsHeap(h, less)
      modifies this
      ensures IsHeap(h, less)
      ensures |h| == |old(h)| + 1
      ensures multiset(h) == multiset(old(h)) + multiset{x}
    {
      HeapIsOrdered(h, less);
      h := h + [x];
      Up(|h| - 1, |h|);
      HeapIsOrdered(h, less);
    }

    /** `Pop`: the root changes places with the last element, which then
        moves down; the old root is cut off and returned. Go indexes out of
        range on an empty heap. */
    method Pop() returns (result: A)
      requires StrictWeakOrder(less) && IsHeap(h, less) && |h| > 0
      modifies this
      ensures result == old(h[0])
      ensures forall k :: 0 <= k < |old(h)| ==> !less(old(h)[k], result)
      ensures IsHeap(h, less)
      ensures |h| == |old(h)| - 1
      ensures multiset(h) + multiset{result} == multiset(old(h))
    {
      forall k | 0 <= k < |h| { HeapMin(h, less, k); }
      HeapIsOrdered(h, less);
      var n := |h| - 1;
      h := Swap(h, 0, n);
      Down(0, n);
      result := h[n];
      Truncate(n);
    }

    /** `Remove(i)`: element `i` changes places with the last one, which then
        moves down or up; the old element `i` is cut off and returned. */
    method Remove(i: nat) returns (result: A)
      requires StrictWeakOrder(less) && IsHeap(h, less) && i < |h|
      modifies this
      ensures result == old(h[i])
      ensures IsHeap(h, less)
      ensures |h| == |old(h)| - 1
      ensures multiset(h) + multiset{result} == multiset(old(h))
    {
      HeapIsOrdered(h, less);
      var n := |h| - 1;
      if n != i {
        ghost var was := h[i];
        h := Swap(h, i, n);
        HoleAt(h, less, was, i, n);
        ghost var g := h;
        Down(i, n);
        DownThenUp(g, h, less, i, n);
        Up(i, n);
      }
      result := h[n];
      Truncate(n);
    }

    /** `*h = hs[:n]`, once `hs[:n]` is in order. */
    method Truncate(n: nat)
      requires n + 1 == |h| && Ordered(h, less, n, 0, -1, -1)
      modifies this
      ensures h == old(h[..n]) && IsHeap(h, less)
      ensures multiset(h) + multiset{old(h[n])} == multiset(old(h))
    {
      assert h == h[..n] + [h[n]];
      OrderedPrefix(h, less, n);
      h := h[..n];
    }

    /** `Fix(i)`: the heap is restored after `h[i]`, which was `was` while
        `h` was a heap, has been changed. Outside the slice `down` stops at
        once; `up` then stops at once for -1, and for 0 on an empty heap,
        because those are their own parents, and otherwise indexes `h[i]`
        out of range, which panics. */
    method Fix(i: int, ghost was: A) returns (panicked: bool)
      requires StrictWeakOrder(less)
      requires 0 <= i < |h| ==> IsHeap(h[i := was], less)
      modifies this
      ensures panicked <==> i < -1 || (0 < i && |old(h)| <= i)
      ensures 0 <= i < |old(h)| ==> IsHeap(h, less)
      ensures !(0 <= i < |old(h)|) ==> h == old(h)
      ensures multiset(h) == multiset(old(h))
    {
      if i < 0 || i >= |h| {
        return i < -1 || 0 < i;
      }
      panicked := false;
      HeapIsOrdered(h[i := was], less);
      HoleAt(h, less, was, i, |h|);
      ghost var g := h;
      Down(i, |h|);
      DownThenUp(g, h, less, i, |h|);
      Up(i, |h|);
      HeapIsOrdered(h, less);
    }

    /** `up(j)`: the element at `j` changes places with its parent while it is
        less than it. Only indices up to `j` are touched, so the elements
        from `n` on, which are not part of the heap, are left as they are. */
    method Up(j0: nat, ghost n: nat)
      requires StrictWeakOrder(less) && j0 < n <= |h|
      requires Ordered(h, less, n, 0, -1, j0)
      requires j0 > 0 && less(h[j0], h[Parent(j0)]) ==> ChildrenNotBelow(h, less, n, j0, h[Parent(j0)])
      modifies this
      ensures |h| == |old(h)| && multiset(h) == multiset(old(h))
      ensures h[n..] == old(h[n..])
      ensures Ordered(h, less, n, 0, -1, -1)
    {
      var s, j := h, j0;
      while true
        invariant UpInv(old(h), s, less, j0, j, n)
        decreases j
      {
        var i := Parent(j);
        if i == j || !less(s[j], s[i]) {
          UpDone(old(h), s, less, j0, j, n);
          break;
        }
        UpStep(old(h), s, less, j0, j, n);
        s := Swap(s, i, j);
        j := i;
      }
      h := s;
    }

    /** `down(i, n)`: the element at `i` changes places with its lesser
        child while that child is less than it; only indices below `n` and in
        the subtree of `i` are touched. */
    method Down(i0: nat, n: nat)
      requires StrictWeakOrder(less) && n <= |h|
      requires Ordered(h, less, n, i0, i0, -1)
      modifies this
      ensures DownPost(old(h), h, less, i0, n)
    {
      var s, i := h, i0;
      DownStart(s, less, i0, n);
      while true
        invariant DownInv(old(h), s, less, i0, i, n)
        decreases n - i
      {
        var j1 := 2 * i + 1;
        if j1 >= n {
          DownLeaf(old(h), s, less, i0, i, n);
          break;
        }
        var j := j1;
        var j2 := j1 + 1;
        if j2 < n && !less(s[j1], s[j2]) {
          j := j2;
          RightChosen(s, less, n, i);
        } else {
          if j2 < n {
            Asymmetric(less, s[j1], s[j2]);
          }
          LeftChosen(s, less, n, i);
        }
        if !less(s[j], s[i]) {
          DownDone(old(h), s, less, i0, i, n, j);
          break;
        }
        DownStep(old(h), s, less, i0, i, n, j);
        s := Swap(s, i, j);
        i := j;
      }
      h := s;
    }
  }
}
