/** The `TreeMap` of treemap/treemap.go: a map sorted by key, kept in the
    red-black tree of module `RBTree`, with C++-style forward and reverse
    iterators. The map's contents are the tree's entries in order; this
    module first gives the map operations on a sorted list of entries, which
    is what the tree operations are proved against. */
module TreeMap {
  import opened Order
  import opened RBTree

  // ----- The map as a sorted list of entries -----

  /** Neither key is less than the other: the map treats them as one key. */
  predicate Equiv<K>(less: (K, K) -> bool, a: K, b: K) {
    !less(a, b) && !less(b, a)
  }

  /** Equivalence is an equivalence relation under a strict weak order, and
      less-than does not tell equivalent keys apart. */
  lemma EquivFacts<K(!new)>(less: (K, K) -> bool)
    requires StrictWeakOrder(less)
    ensures forall a, b, c :: Equiv(less, a, b) && Equiv(less, b, c) ==> Equiv(less, a, c)
    ensures forall a, b, c :: less(a, b) && Equiv(less, b, c) ==> less(a, c)
    ensures forall a, b, c :: Equiv(less, a, b) && less(b, c) ==> less(a, c)
  {
  }

  /** The position of the first entry whose key is not less than `k`. */
  function LowerIndex<K, V>(less: (K, K) -> bool, e: seq<(K, V)>, k: K): (i: nat)
    ensures i <= |e|
    decreases |e|
  {
    if e == [] || !less(e[0].0, k) then 0 else 1 + LowerIndex(less, e[1..], k)
  }

  /** The position of the first entry whose key is greater than `k`. */
  function UpperIndex<K, V>(less: (K, K) -> bool, e: seq<(K, V)>, k: K): (i: nat)
    ensures i <= |e|
    decreases |e|
  {
    if e == [] || less(k, e[0].0) then 0 else 1 + UpperIndex(less, e[1..], k)
  }

  /** In a sorted list the lower bound splits the keys less than `k` from
      the others. */
  lemma {:induction false} LowerIndexSplits<K(!new), V>(less: (K, K) -> bool, e: seq<(K, V)>, k: K)
    requires StrictWeakOrder(less) && Sorted(less, e)
    ensures forall j :: 0 <= j < LowerIndex(less, e, k) ==> less(e[j].0, k)
    ensures forall j :: LowerIndex(less, e, k) <= j < |e| ==> !less(e[j].0, k)
    decreases |e|
  {
    if e != [] {
      if less(e[0].0, k) {
        LowerIndexSplits(less, e[1..], k);
        forall j | 0 <= j < LowerIndex(less, e, k)
          ensures less(e[j].0, k)
        {
          if j > 0 {
            assert e[j] == e[1..][j - 1];
          }
        }
        forall j | LowerIndex(less, e, k) <= j < |e|
          ensures !less(e[j].0, k)
        {
          assert e[j] == e[1..][j - 1];
        }
      } else {
        forall j | 0 < j < |e|
          ensures !less(e[j].0, k)
        {
          assert less(e[0].0, e[j].0);
        }
      }
    }
  }

  /** In a sorted list the upper bound splits the keys greater than `k`
      from the others. */
  lemma {:induction false} UpperIndexSplits<K(!new), V>(less: (K, K) -> bool, e: seq<(K, V)>, k: K)
    requires StrictWeakOrder(less) && Sorted(less, e)
    ensures forall j :: 0 <= j < UpperIndex(less, e, k) ==> !less(k, e[j].0)
    ensures forall j :: UpperIndex(less, e, k) <= j < |e| ==> less(k, e[j].0)
    decreases |e|
  {
    if e != [] {
      if !less(k, e[0].0) {
        UpperIndexSplits(less, e[1..], k);
        forall j | 0 <= j < UpperIndex(less, e, k)
          ensures !less(k, e[j].0)
        {
          if j > 0 {
            assert e[j] == e[1..][j - 1];
          }
        }
        forall j | UpperIndex(less, e, k) <= j < |e|
          ensures less(k, e[j].0)
        {
          assert e[j] == e[1..][j - 1];
        }
      } else {
        forall j | 0 < j < |e|
          ensures less(k, e[j].0)
        {
          assert less(e[0].0, e[j].0);
        }
      }
    }
  }

  /** A position that splits the keys less than `k` from the others is the
      lower bound. */
  lemma {:induction false} LowerIndexAt<K, V>(less: (K, K) -> bool, e: seq<(K, V)>, k: K, i: nat)
    requires i <= |e|
    requires forall j :: 0 <= j < i ==> less(e[j].0, k)
    requires i < |e| ==> !less(e[i].0, k)
    ensures LowerIndex(less, e, k) == i
    decreases |e|
  {
    if i > 0 {
      assert less(e[0].0, k);
      forall j | 0 <= j < i - 1
        ensures less(e[1..][j].0, k)
      {
        assert e[1..][j] == e[j + 1];
      }
      LowerIndexAt(less, e[1..], k, i - 1);
    }
  }

  /** A position that splits the keys greater than `k` from the others is
      the upper bound. */
  lemma {:induction false} UpperIndexAt<K, V>(less: (K, K) -> bool, e: seq<(K, V)>, k: K, i: nat)
    requires i <= |e|
    requires forall j :: 0 <= j < i ==> !less(k, e[j].0)
    requires i < |e| ==> less(k, e[i].0)
    ensures UpperIndex(less, e, k) == i
    decreases |e|
  {
    if i > 0 {
      assert !less(k, e[0].0);
      forall j | 0 <= j < i - 1
        ensures !less(k, e[1..][j].0)
      {
        assert e[1..][j] == e[j + 1];
      }
      UpperIndexAt(less, e[1..], k, i - 1);
    }
  }

  /** Each key of a sorted list is found at its own position. */
  lemma KeyIndex<K(!new), V>(less: (K, K) -> bool, e: seq<(K, V)>, i: nat)
    requires StrictWeakOrder(less) && Sorted(less, e) && i < |e|
    ensures LowerIndex(less, e, e[i].0) == i
  {
    LowerIndexAt(less, e, e[i].0, i);
  }

  /** Some entry has a key equivalent to `k`. */
  predicate Has<K, V>(less: (K, K) -> bool, e: seq<(K, V)>, k: K) {
    var i := LowerIndex(less, e, k);
    i < |e| && !less(k, e[i].0)
  }

  /** `Has` finds exactly the keys of the list, up to equivalence. */
  lemma HasIff<K(!new), V>(less: (K, K) -> bool, e: seq<(K, V)>, k: K)
    requires StrictWeakOrder(less) && Sorted(less, e)
    ensures Has(less, e, k) <==> exists j :: 0 <= j < |e| && Equiv(less, e[j].0, k)
  {
    LowerIndexSplits(less, e, k);
    var i := LowerIndex(less, e, k);
    if j :| 0 <= j < |e| && Equiv(less, e[j].0, k) {
      if i < j {
        assert less(e[i].0, e[j].0);
        assert !less(e[i].0, k);
      }
    }
  }

  /** The value the map holds for `k`, if any. */
  datatype Option<T> = None | Some(value: T)

  function Lookup<K, V>(less: (K, K) -> bool, e: seq<(K, V)>, k: K): (r: Option<V>)
    ensures r.Some? <==> Has(less, e, k)
  {
    var i := LowerIndex(less, e, k);
    if i < |e| && !less(k, e[i].0) then Some(e[i].1) else None
  }

  /** Looking up the key of an entry gives that entry's value. */
  lemma LookupEntry<K(!new), V>(less: (K, K) -> bool, e: seq<(K, V)>, j: nat, k: K)
    requires StrictWeakOrder(less) && Sorted(less, e)
    requires j < |e| && Equiv(less, e[j].0, k)
    ensures Lookup(less, e, k) == Some(e[j].1)
  {
    LowerIndexSplits(less, e, k);
    var i := LowerIndex(less, e, k);
    if i < j {
      assert less(e[i].0, e[j].0);
      assert !less(e[i].0, k);
      EquivFacts(less);
    }
  }

  /** A key equivalent to none of the list's keys is not found. */
  lemma LookupMissing<K(!new), V>(less: (K, K) -> bool, e: seq<(K, V)>, k: K)
    requires StrictWeakOrder(less) && Sorted(less, e)
    requires forall j :: 0 <= j < |e| ==> !Equiv(less, e[j].0, k)
    ensures Lookup(less, e, k) == None
  {
    HasIff(less, e, k);
  }

  /** `Set` on the list: overwrite the value of the entry with an
      equivalent key (keeping that entry's key), or insert a new entry in
      key order. */
  function Put<K, V>(less: (K, K) -> bool, e: seq<(K, V)>, k: K, v: V): (r: seq<(K, V)>)
    ensures |r| == if Has(less, e, k) then |e| else |e| + 1
  {
    var i := LowerIndex(less, e, k);
    if i < |e| && !less(k, e[i].0) then e[i := (e[i].0, v)] else e[..i] + [(k, v)] + e[i..]
  }

  /** `Del` on the list: drop the entry with an equivalent key, if any. */
  function Remove<K, V>(less: (K, K) -> bool, e: seq<(K, V)>, k: K): (r: seq<(K, V)>)
    ensures |r| == if Has(less, e, k) then |e| - 1 else |e|
  {
    var i := LowerIndex(less, e, k);
    if i < |e| && !less(k, e[i].0) then e[..i] + e[i + 1..] else e
  }

  /** `Put` keeps the list sorted and gives the map semantics: `k` now maps
      to `v`, every other key keeps its value. */
  lemma PutSpec<K(!new), V>(less: (K, K) -> bool, e: seq<(K, V)>, k: K, v: V)
    requires StrictWeakOrder(less) && Sorted(less, e)
    ensures Sorted(less, Put(less, e, k, v))
    ensures forall k' :: Lookup(less, Put(less, e, k, v), k') ==
                         (if Equiv(less, k, k') then Some(v) else Lookup(less, e, k'))
  {
    var r := Put(less, e, k, v);
    var i := LowerIndex(less, e, k);
    LowerIndexSplits(less, e, k);
    EquivFacts(less);
    if Has(less, e, k) {
      assert Sorted(less, r) by {
        forall a, b | 0 <= a < b < |r|
          ensures less(r[a].0, r[b].0)
        {
          assert r[a].0 == e[a].0 && r[b].0 == e[b].0;
        }
      }
      forall k'
        ensures Lookup(less, r, k') == if Equiv(less, k, k') then Some(v) else Lookup(less, e, k')
      {
        if Equiv(less, k, k') {
          assert Equiv(less, r[i].0, k');
          LookupEntry(less, r, i, k');
        } else if j :| 0 <= j < |e| && Equiv(less, e[j].0, k') {
          assert j != i;
          LookupEntry(less, r, j, k');
          LookupEntry(less, e, j, k');
        } else {
          LookupMissing(less, r, k');
          LookupMissing(less, e, k');
        }
      }
    } else {
      assert Sorted(less, r) by {
        forall a, b | 0 <= a < b < |r|
          ensures less(r[a].0, r[b].0)
        {
          if b < i {
            assert r[a] == e[a] && r[b] == e[b];
          } else if b == i {
            assert r[a] == e[a];
          } else if a < i {
            assert r[a] == e[a] && r[b] == e[b - 1];
          } else if a == i {
            assert r[b] == e[b - 1];
            assert !less(e[b - 1].0, k);
            assert !Equiv(less, e[b - 1].0, k) by {
              if b - 1 > i { assert less(e[i].0, e[b - 1].0); }
            }
          } else {
            assert r[a] == e[a - 1] && r[b] == e[b - 1];
          }
        }
      }
      forall k'
        ensures Lookup(less, r, k') == if Equiv(less, k, k') then Some(v) else Lookup(less, e, k')
      {
        assert r[i] == (k, v);
        if Equiv(less, k, k') {
          LookupEntry(less, r, i, k');
        } else if j :| 0 <= j < |e| && Equiv(less, e[j].0, k') {
          var j' := if j < i then j else j + 1;
          assert r[j'] == e[j];
          LookupEntry(less, r, j', k');
          LookupEntry(less, e, j, k');
        } else {
          forall j | 0 <= j < |r|
            ensures !Equiv(less, r[j].0, k')
          {
            if j < i {
              assert r[j] == e[j];
            } else if j > i {
              assert r[j] == e[j - 1];
            }
          }
          LookupMissing(less, r, k');
          LookupMissing(less, e, k');
        }
      }
    }
  }

  /** `Remove` keeps the list sorted and gives the map semantics: `k` has
      no value any more, every other key keeps its value. */
  lemma RemoveSpec<K(!new), V>(less: (K, K) -> bool, e: seq<(K, V)>, k: K)
    requires StrictWeakOrder(less) && Sorted(less, e)
    ensures Sorted(less, Remove(less, e, k))
    ensures forall k' :: Lookup(less, Remove(less, e, k), k') ==
                         (if Equiv(less, k, k') then None else Lookup(less, e, k'))
  {
    var r := Remove(less, e, k);
    var i := LowerIndex(less, e, k);
    LowerIndexSplits(less, e, k);
    EquivFacts(less);
    if Has(less, e, k) {
      assert Sorted(less, r) by {
        forall a, b | 0 <= a < b < |r|
          ensures less(r[a].0, r[b].0)
        {
          var a', b' := if a < i then a else a + 1, if b < i then b else b + 1;
          assert r[a] == e[a'] && r[b] == e[b'];
        }
      }
      forall k'
        ensures Lookup(less, r, k') == if Equiv(less, k, k') then None else Lookup(less, e, k')
      {
        if j :| 0 <= j < |r| && Equiv(less, r[j].0, k') {
          var j' := if j < i then j else j + 1;
          assert r[j] == e[j'];
          LookupEntry(less, r, j, k');
          LookupEntry(less, e, j', k');
        } else {
          LookupMissing(less, r, k');
          if !Equiv(less, k, k') {
            forall j | 0 <= j < |e|
              ensures !Equiv(less, e[j].0, k')
            {
              if j < i {
                assert r[j] == e[j];
              } else if j > i {
                assert r[j - 1] == e[j];
              }
            }
            LookupMissing(less, e, k');
          }
        }
      }
    } else {
      forall k' | Equiv(less, k, k')
        ensures Lookup(less, e, k') == None
      {
        forall j | 0 <= j < |e|
          ensures !Equiv(less, e[j].0, k')
        {
          HasIff(less, e, k);
        }
        LookupMissing(less, e, k');
      }
    }
  }

  // ----- Searching the tree (treemap.go:145-193, 213-226) -----

  /** Every key of `s` is less than `k`. */
  ghost predicate AllBelow<K, V>(less: (K, K) -> bool, s: seq<(K, V)>, k: K) {
    forall j :: 0 <= j < |s| ==> less(s[j].0, k)
  }

  /** `k` is less than every key of `s`. */
  ghost predicate AllAbove<K, V>(less: (K, K) -> bool, k: K, s: seq<(K, V)>) {
    forall j :: 0 <= j < |s| ==> less(k, s[j].0)
  }

  /** No key of `s` is less than `k`. */
  ghost predicate NoneBelow<K, V>(less: (K, K) -> bool, s: seq<(K, V)>, k: K) {
    forall j :: 0 <= j < |s| ==> !less(s[j].0, k)
  }

  /** `k` is less than no key of `s`. */
  ghost predicate NoneAbove<K, V>(less: (K, K) -> bool, k: K, s: seq<(K, V)>) {
    forall j :: 0 <= j < |s| ==> !less(k, s[j].0)
  }

  /** In a search tree, the keys of a node's left subtree are less than its
      key, and its key is less than those of its right subtree. */
  lemma NodeOrder<K(!new), V>(less: (K, K) -> bool, z: Zipper<K, V>)
    requires Sorted(less, Entries(Whole(z))) && z.focus.Node?
    ensures AllBelow(less, Entries(z.focus.left), z.focus.key)
    ensures AllAbove(less, z.focus.key, Entries(z.focus.right))
  {
    var t := z.focus;
    var e := Entries(Whole(z));
    PlugEntries(t, z.up);
    var a, l := |Before(z.up)|, Entries(t.left);
    assert e[a + |l|] == (t.key, t.value);
    forall j | 0 <= j < |l|
      ensures less(l[j].0, t.key)
    {
      assert e[a + j] == l[j];
    }
    var r := Entries(t.right);
    forall j | 0 <= j < |r|
      ensures less(t.key, r[j].0)
    {
      assert e[a + |l| + 1 + j] == r[j];
    }
  }

  /** A step to the left child when `k` is less than the node's key keeps
      all the keys after the subtree greater than `k`. */
  lemma StepLeftAbove<K(!new), V>(less: (K, K) -> bool, z: Zipper<K, V>, k: K)
    requires StrictWeakOrder(less) && Sorted(less, Entries(Whole(z))) && z.focus.Node?
    requires less(k, z.focus.key) && AllAbove(less, k, After(z.up))
    ensures AllAbove(less, k, After(DownLeft(z).up))
  {
    NodeOrder(less, z);
    var r := Entries(z.focus.right);
    assert After(DownLeft(z).up) == [(z.focus.key, z.focus.value)] + r + After(z.up);
    forall j | 0 <= j < |r|
      ensures less(k, r[j].0)
    {
      assert less(z.focus.key, r[j].0);
    }
  }

  /** Stepping to the left child of a node whose key is not less than `k`
      keeps every key after the subtree not less than `k`. */
  lemma StepLeftNotBelow<K(!new), V>(less: (K, K) -> bool, z: Zipper<K, V>, k: K)
    requires StrictWeakOrder(less) && Sorted(less, Entries(Whole(z))) && z.focus.Node?
    requires !less(z.focus.key, k) && NoneBelow(less, After(z.up), k)
    ensures NoneBelow(less, After(DownLeft(z).up), k)
  {
    NodeOrder(less, z);
    var r := Entries(z.focus.right);
    assert After(DownLeft(z).up) == [(z.focus.key, z.focus.value)] + r + After(z.up);
    forall j | 0 <= j < |r|
      ensures !less(r[j].0, k)
    {
      assert less(z.focus.key, r[j].0);
    }
  }

  /** A step to the right child when the node's key is less than `k` keeps
      all the keys before the subtree less than `k`. */
  lemma StepRightBelow<K(!new), V>(less: (K, K) -> bool, z: Zipper<K, V>, k: K)
    requires StrictWeakOrder(less) && Sorted(less, Entries(Whole(z))) && z.focus.Node?
    requires less(z.focus.key, k) && AllBelow(less, Before(z.up), k)
    ensures AllBelow(less, Before(DownRight(z).up), k)
  {
    NodeOrder(less, z);
    var l := Entries(z.focus.left);
    assert Before(DownRight(z).up) == Before(z.up) + l + [(z.focus.key, z.focus.value)];
    forall j | 0 <= j < |l|
      ensures less(l[j].0, k)
    {
      assert less(l[j].0, z.focus.key);
    }
  }

  /** A step to the right child when `k` is not less than the node's key:
      all the keys before the subtree stay such that `k` is not less. */
  lemma StepRightNotAbove<K(!new), V>(less: (K, K) -> bool, z: Zipper<K, V>, k: K)
    requires StrictWeakOrder(less) && Sorted(less, Entries(Whole(z))) && z.focus.Node?
    requires !less(k, z.focus.key) && NoneAbove(less, k, Before(z.up))
    ensures NoneAbove(less, k, Before(DownRight(z).up))
  {
    NodeOrder(less, z);
    var l := Entries(z.focus.left);
    assert Before(DownRight(z).up) == Before(z.up) + l + [(z.focus.key, z.focus.value)];
    forall j | 0 <= j < |l|
      ensures !less(k, l[j].0)
    {
      assert less(l[j].0, z.focus.key);
    }
  }

  /** `z` is the node of the tree `root` holding the entry of key `k`. */
  ghost predicate Located<K, V>(less: (K, K) -> bool, root: Tree<K, V>, z: Zipper<K, V>, k: K) {
    z.focus.Node? && Whole(z) == root && Equiv(less, z.focus.key, k) &&
    Index(z) == LowerIndex(less, Entries(root), k)
  }

  /** A search that ends at a node with a key equivalent to `k`, with the
      keys before it below and after it above `k`, has found `k`. */
  lemma FoundAt<K(!new), V>(less: (K, K) -> bool, z: Zipper<K, V>, k: K)
    requires StrictWeakOrder(less) && Sorted(less, Entries(Whole(z))) && z.focus.Node?
    requires Equiv(less, z.focus.key, k)
    requires AllBelow(less, Before(z.up), k)
    ensures Located(less, Whole(z), z, k) && Has(less, Entries(Whole(z)), k)
    ensures Lookup(less, Entries(Whole(z)), k) == Some(z.focus.value)
  {
    var e := Entries(Whole(z));
    NodeOrder(less, z);
    IndexEntry(z);
    PlugEntries(z.focus, z.up);
    var b, l := Before(z.up), Entries(z.focus.left);
    EquivFacts(less);
    forall j | 0 <= j < Index(z)
      ensures less(e[j].0, k)
    {
      if j < |b| {
        assert e[j] == b[j];
      } else {
        assert e[j] == l[j - |b|];
      }
    }
    LowerIndexAt(less, e, k, Index(z));
  }

  /** A search that falls off the tree between keys below `k` and keys
      above it shows that `k` is absent, and where it would go. */
  lemma MissingAt<K(!new), V>(less: (K, K) -> bool, z: Zipper<K, V>, k: K)
    requires StrictWeakOrder(less) && Sorted(less, Entries(Whole(z))) && z.focus.Nil?
    requires AllBelow(less, Before(z.up), k) && AllAbove(less, k, After(z.up))
    ensures Entries(Whole(z)) == Before(z.up) + After(z.up)
    ensures LowerIndex(less, Entries(Whole(z)), k) == |Before(z.up)|
    ensures !Has(less, Entries(Whole(z)), k)
  {
    var e := Entries(Whole(z));
    PlugEntries(z.focus, z.up);
    var b, a := Before(z.up), After(z.up);
    assert e == b + a;
    forall j | 0 <= j < |b|
      ensures less(e[j].0, k)
    {
      assert e[j] == b[j];
    }
    if |a| > 0 {
      assert e[|b|] == a[0];
      Asymmetric(less, k, a[0].0);
    }
    LowerIndexAt(less, e, k, |b|);
  }

  // ----- Set and Del on the tree (treemap.go:65-112) -----

  /** Overwriting the value at the node found for `key` is `Put` on the
      entries, keeps the tree valid, and keeps the first key. */
  lemma OverwriteSpec<K(!new), V>(less: (K, K) -> bool, z: Zipper<K, V>, key: K, value: V, H: int)
    requires StrictWeakOrder(less) && Sorted(less, Entries(Whole(z))) && z.focus.Node?
    requires Equiv(less, z.focus.key, key) && AllBelow(less, Before(z.up), key)
    requires RB(Whole(z), H) && IsBlack(Whole(z))
    ensures Has(less, Entries(Whole(z)), key)
    ensures var r := Plug(z.focus.(value := value), z.up);
      Entries(r) == Put(less, Entries(Whole(z)), key, value) &&
      RB(r, H) && IsBlack(r) && First(Entries(r)) == First(Entries(Whole(z)))
  {
    var t := z.focus;
    var t' := t.(value := value);
    FoundAt(less, z, key);
    NodeSplit(z);
    NodeSplit(Zipper(t', z.up));
    OverwriteSplit(less, Entries(Whole(z)), key, value, Before(z.up) + Entries(t.left), (t.key, t.value), Entries(t.right) + After(z.up));
    NewValueRB(t, z.up, value, H);
  }

  /** A node's value has no part in the red-black shape. */
  lemma NewValueRB<K, V>(t: Tree<K, V>, up: seq<Frame<K, V>>, value: V, H: int)
    requires t.Node? && RB(Plug(t, up), H) && IsBlack(Plug(t, up))
    ensures RB(Plug(t.(value := value), up), H) && IsBlack(Plug(t.(value := value), up))
  {
    var t' := t.(value := value);
    UnplugRB(t, up, H);
    var h := H - Blacks(up);
    assert RB(t', h);
    PlugRB(t', up, h);
  }

  /** Replacing the value at `key`'s position, which holds an equivalent
      key, is `Put`, and the first key stays. */
  lemma OverwriteSplit<K, V>(less: (K, K) -> bool, e: seq<(K, V)>, key: K, value: V, x: seq<(K, V)>, m: (K, V), y: seq<(K, V)>)
    requires e == x + [m] + y && LowerIndex(less, e, key) == |x| && Equiv(less, m.0, key)
    ensures Has(less, e, key) && Put(less, e, key, value) == x + [(m.0, value)] + y
    ensures First(Put(less, e, key, value)) == First(e)
  {
    SplitAround(x, m, y);
    assert e[|x| := (m.0, value)] == x + [(m.0, value)] + y;
  }

  /** Inserting at `key`'s position, where no equivalent key is, is `Put`. */
  lemma InsertSplit<K, V>(less: (K, K) -> bool, e: seq<(K, V)>, key: K, value: V, b: seq<(K, V)>, a: seq<(K, V)>)
    requires e == b + a && LowerIndex(less, e, key) == |b| && !Has(less, e, key)
    ensures Put(less, e, key, value) == b + [(key, value)] + a
  {
    assert e[..|b|] == b && e[|b|..] == a;
  }

  /** Where the search for a new key fell off the tree, the path `up` leads
      to the nil child that the new node replaces. */
  lemma PlugNode<K, V>(t: Tree<K, V>, up: seq<Frame<K, V>>)
    requires up != []
    ensures |Before(up)| + |After(up)| > 0
  {
  }

  /** `if t.beginNode.left != nil { t.beginNode = t.beginNode.left }`: the
      begin node gains a left child exactly when the new node was hung on
      the left of the begin node (the end node when the map was empty), and
      that is exactly when the new key comes first. */
  lemma InsertBegin<K(!new), V>(less: (K, K) -> bool, e: seq<(K, V)>, up: seq<Frame<K, V>>, key: K, value: V,
                                begin: Handle<K>, gained: bool)
    requires StrictWeakOrder(less) && Sorted(less, e) && e == Before(up) + After(up)
    requires begin == First(e)
    requires gained == ((up == [] || up[0].fromLeft) && match begin
                          case End => up == []
                          case Keyed(bk) => up != [] && up[0].key == bk
                          case Null => false)
    ensures First(Before(up) + [(key, value)] + After(up)) == (if gained then Keyed(key) else begin)
  {
    var b, a := Before(up), After(up);
    if up != [] {
      PlugNode(Nil, up);
      if up[0].fromLeft {
        assert a[0] == (up[0].key, up[0].value);
        if b != [] {
          assert e[|b|] == a[0];
          assert less(e[0].0, e[|b|].0);
        }
      } else {
        assert b != [];
      }
    }
  }

  /** The first entry after `z`'s is taken out when `z` is the first node:
      its right child (which is then a leaf, by the red-black invariant),
      or else its parent, or else the end. */
  lemma DeleteBegin<K(!new), V>(less: (K, K) -> bool, z: Zipper<K, V>, H: int, begin: Handle<K>, nb: Handle<K>)
    requires StrictWeakOrder(less) && Sorted(less, Entries(Whole(z))) && z.focus.Node?
    requires RB(Whole(z), H) && IsBlack(Whole(z))
    requires begin == First(Entries(Whole(z)))
    requires nb == if begin != Keyed(z.focus.key) then begin
                   else if z.focus.right.Node? then Keyed(z.focus.right.key)
                   else if z.up == [] then End
                   else Keyed(z.up[0].key)
    ensures nb == First(Before(z.up) + Entries(z.focus.left) + Entries(z.focus.right) + After(z.up))
  {
    var t := z.focus;
    var e := Entries(Whole(z));
    var b, l, r, a := Before(z.up), Entries(t.left), Entries(t.right), After(z.up);
    PlugEntries(t, z.up);
    IndexEntry(z);
    var i := Index(z);
    if i > 0 {
      assert less(e[0].0, e[i].0);
    } else {
      assert e[0] == (t.key, t.value);
    }
    assert z.up != [] && !z.up[0].fromLeft ==> b != [];
    if begin == Keyed(t.key) {
      assert b == [] && l == [];
      UnplugRB(t, z.up, H);
      var h := H - Blacks(z.up);
      if t.right.Node? {
        var h' := if t.isBlack then h - 1 else h;
        HeightNonNegative(t.left, h');
        HeightNonNegative(t.right, h');
        HeightNonNegative(t.right.left, if t.right.isBlack then h' - 1 else h');
        assert t.right.left.Nil?;
      }
    }
  }

  /** Hanging a red leaf for an absent `key` where the search fell off the
      tree gives `Put`'s entries, a tree `insertFixup` accepts, and the new
      first key when `gained`. */
  lemma InsertSpec<K(!new), V>(less: (K, K) -> bool, z: Zipper<K, V>, key: K, value: V, H: int,
                               begin: Handle<K>, gained: bool)
    requires StrictWeakOrder(less) && Sorted(less, Entries(Whole(z))) && z.focus.Nil?
    requires AllBelow(less, Before(z.up), key) && AllAbove(less, key, After(z.up))
    requires RB(Whole(z), H) && IsBlack(Whole(z))
    requires begin == First(Entries(Whole(z)))
    requires gained == ((z.up == [] || z.up[0].fromLeft) && match begin
                          case End => z.up == []
                          case Keyed(bk) => z.up != [] && z.up[0].key == bk
                          case Null => false)
    ensures var e, x := Entries(Whole(z)), Zipper(Node(false, Nil, key, value, Nil), z.up);
      !Has(less, e, key) && Fits(x.up, 0, false) &&
      Entries(Whole(x)) == Put(less, e, key, value) &&
      First(Entries(Whole(x))) == (if gained then Keyed(key) else begin)
  {
    var e, x := Entries(Whole(z)), Zipper(Node(false, Nil, key, value, Nil), z.up);
    MissingAt(less, z, key);
    InsertBegin(less, e, z.up, key, value, begin, gained);
    InsertSplit(less, e, key, value, Before(z.up), After(z.up));
    LeafEntries(z.up, key, value);
    LeafFits(z, H);
  }

  /** The entries of a tree with a new leaf hung at the end of `up`. */
  lemma LeafEntries<K, V>(up: seq<Frame<K, V>>, key: K, value: V)
    ensures Entries(Plug(Node(false, Nil, key, value, Nil), up)) == Before(up) + [(key, value)] + After(up)
  {
    PlugEntries(Node(false, Nil, key, value, Nil), up);
  }

  /** The path to a nil child of a red-black tree takes a red leaf. */
  lemma LeafFits<K, V>(z: Zipper<K, V>, H: int)
    requires z.focus.Nil? && RB(Whole(z), H) && IsBlack(Whole(z))
    ensures Fits(z.up, 0, false)
  {
    UnplugRB(z.focus, z.up, H);
  }

  /** Taking out the node found for `key` leaves `Remove`'s entries, and
      `nb` is their first key. */
  lemma DeleteSpec<K(!new), V>(less: (K, K) -> bool, z: Zipper<K, V>, key: K, H: int, begin: Handle<K>, nb: Handle<K>)
    requires StrictWeakOrder(less) && Sorted(less, Entries(Whole(z))) && Located(less, Whole(z), z, key)
    requires RB(Whole(z), H) && IsBlack(Whole(z))
    requires begin == First(Entries(Whole(z)))
    requires nb == if begin != Keyed(z.focus.key) then begin
                   else if z.focus.right.Node? then Keyed(z.focus.right.key)
                   else if z.up == [] then End
                   else Keyed(z.up[0].key)
    ensures var e, r := Entries(Whole(z)), Before(z.up) + Entries(z.focus.left) + Entries(z.focus.right) + After(z.up);
      Has(less, e, key) && r == Remove(less, e, key) && nb == First(r)
  {
    DeleteBegin(less, z, H, begin, nb);
    RemoveAt(less, z, key);
  }

  /** The entries without the node found for `key` are `Remove`'s. */
  lemma RemoveAt<K, V>(less: (K, K) -> bool, z: Zipper<K, V>, key: K)
    requires Located(less, Whole(z), z, key)
    ensures var e := Entries(Whole(z));
      Has(less, e, key) &&
      Before(z.up) + Entries(z.focus.left) + Entries(z.focus.right) + After(z.up) == Remove(less, e, key)
  {
    var t := z.focus;
    NodeSplit(z);
    RemoveSplit(less, Entries(Whole(z)), key, Before(z.up) + Entries(t.left), (t.key, t.value), Entries(t.right) + After(z.up));
  }

  /** The tree's entries around the node at the focus. */
  lemma NodeSplit<K, V>(z: Zipper<K, V>)
    requires z.focus.Node?
    ensures var t := z.focus;
      Entries(Whole(z)) == (Before(z.up) + Entries(t.left)) + [(t.key, t.value)] + (Entries(t.right) + After(z.up))
  {
    PlugEntries(z.focus, z.up);
  }

  /** Dropping the entry at `key`'s position, which holds an equivalent
      key, is `Remove`. */
  lemma RemoveSplit<K, V>(less: (K, K) -> bool, e: seq<(K, V)>, key: K, x: seq<(K, V)>, m: (K, V), y: seq<(K, V)>)
    requires e == x + [m] + y && LowerIndex(less, e, key) == |x| && Equiv(less, m.0, key)
    ensures Has(less, e, key) && x + y == Remove(less, e, key)
  {
    SplitAround(x, m, y);
  }

  /** Cutting a list around one of its elements. */
  lemma SplitAround<T>(x: seq<T>, m: T, y: seq<T>)
    ensures var s := x + [m] + y; |x| < |s| && s[|x|] == m && s[..|x|] == x && s[|x| + 1..] == y
  {
  }

  // ----- Bounds and positions (treemap.go:145-211, 242-260) -----

  /** The key of a node is found at the node's own position. */
  lemma KeyAt<K(!new), V>(less: (K, K) -> bool, z: Zipper<K, V>)
    requires StrictWeakOrder(less) && Sorted(less, Entries(Whole(z))) && z.focus.Node?
    ensures Index(z) < |Entries(Whole(z))| && Entries(Whole(z))[Index(z)].0 == z.focus.key
    ensures LowerIndex(less, Entries(Whole(z)), z.focus.key) == Index(z)
  {
    IndexEntry(z);
    KeyIndex(less, Entries(Whole(z)), Index(z));
  }

  /** The lower-bound search ends at a node whose key is less than `k` and
      which has no right child: the lower bound is the first entry after
      the subtree. */
  lemma LowerBoundAfter<K(!new), V>(less: (K, K) -> bool, z: Zipper<K, V>, k: K)
    requires StrictWeakOrder(less) && Sorted(less, Entries(Whole(z))) && z.focus.Node?
    requires less(z.focus.key, k) && z.focus.right.Nil?
    requires AllBelow(less, Before(z.up), k) && NoneBelow(less, After(z.up), k)
    ensures var e := Entries(Whole(z)); e[LowerIndex(less, e, k)..] == After(z.up)
  {
    var e := Entries(Whole(z));
    NodeOrder(less, z);
    PlugEntries(z.focus, z.up);
    var b, l, a := Before(z.up), Entries(z.focus.left), After(z.up);
    assert e == b + l + [(z.focus.key, z.focus.value)] + a;
    var i := |e| - |a|;
    forall j | 0 <= j < i
      ensures less(e[j].0, k)
    {
      if j < |b| {
        assert e[j] == b[j];
      } else if j < |b| + |l| {
        assert e[j] == l[j - |b|];
      }
    }
    if i < |e| {
      assert e[i] == a[0];
    }
    LowerIndexAt(less, e, k, i);
    assert e[i..] == a;
  }

  /** The lower-bound search ends at a node whose key is not less than `k`
      and which has no left child: the lower bound is that node. */
  lemma LowerBoundHere<K(!new), V>(less: (K, K) -> bool, z: Zipper<K, V>, k: K)
    requires StrictWeakOrder(less) && Sorted(less, Entries(Whole(z))) && z.focus.Node?
    requires !less(z.focus.key, k) && z.focus.left.Nil?
    requires AllBelow(less, Before(z.up), k)
    ensures LowerIndex(less, Entries(Whole(z)), k) == Index(z)
  {
    var e := Entries(Whole(z));
    IndexEntry(z);
    PlugEntries(z.focus, z.up);
    forall j | 0 <= j < Index(z)
      ensures less(e[j].0, k)
    {
      assert e[j] == Before(z.up)[j];
    }
    LowerIndexAt(less, e, k, Index(z));
  }

  /** The upper-bound search ends at a node whose key `k` is not less than
      and which has no right child: the upper bound is the first entry
      after the subtree. */
  lemma UpperBoundAfter<K(!new), V>(less: (K, K) -> bool, z: Zipper<K, V>, k: K)
    requires StrictWeakOrder(less) && Sorted(less, Entries(Whole(z))) && z.focus.Node?
    requires !less(k, z.focus.key) && z.focus.right.Nil?
    requires NoneAbove(less, k, Before(z.up)) && AllAbove(less, k, After(z.up))
    ensures var e := Entries(Whole(z)); e[UpperIndex(less, e, k)..] == After(z.up)
  {
    var e := Entries(Whole(z));
    NodeOrder(less, z);
    PlugEntries(z.focus, z.up);
    var b, l, a := Before(z.up), Entries(z.focus.left), After(z.up);
    assert e == b + l + [(z.focus.key, z.focus.value)] + a;
    var i := |e| - |a|;
    forall j | 0 <= j < i
      ensures !less(k, e[j].0)
    {
      if j < |b| {
        assert e[j] == b[j];
      } else if j < |b| + |l| {
        assert e[j] == l[j - |b|];
        assert less(l[j - |b|].0, z.focus.key);
      }
    }
    if i < |e| {
      assert e[i] == a[0];
    }
    UpperIndexAt(less, e, k, i);
    assert e[i..] == a;
  }

  /** The upper-bound search ends at a node whose key is greater than `k`
      and which has no left child: the upper bound is that node. */
  lemma UpperBoundHere<K(!new), V>(less: (K, K) -> bool, z: Zipper<K, V>, k: K)
    requires StrictWeakOrder(less) && Sorted(less, Entries(Whole(z))) && z.focus.Node?
    requires less(k, z.focus.key) && z.focus.left.Nil?
    requires NoneAbove(less, k, Before(z.up))
    ensures UpperIndex(less, Entries(Whole(z)), k) == Index(z)
  {
    var e := Entries(Whole(z));
    IndexEntry(z);
    PlugEntries(z.focus, z.up);
    forall j | 0 <= j < Index(z)
      ensures !less(k, e[j].0)
    {
      assert e[j] == Before(z.up)[j];
    }
    UpperIndexAt(less, e, k, Index(z));
  }

  /** A handle to a node, kept across calls: nil, the end node, or the node
      holding a key. Node pointers that outlive a call (`beginNode`, an
      iterator's `node`) are handles here, since a node's key is what
      identifies it (keys are unique and stay with their node). */
  datatype Handle<K> = Null | End | Keyed(key: K)

  /** The handle of the first entry of `s`, or the end. */
  function First<K, V>(s: seq<(K, V)>): (h: Handle<K>)
    ensures h.End? <==> s == []
    ensures h.Keyed? ==> h.key == s[0].0
  {
    if s == [] then End else Keyed(s[0].0)
  }

  /** The handle of the last entry of `s`, or nil. */
  function Last<K, V>(s: seq<(K, V)>): (h: Handle<K>)
    ensures h.Null? <==> s == []
    ensures h.Keyed? ==> h.key == s[|s| - 1].0
  {
    if s == [] then Null else Keyed(s[|s| - 1].0)
  }

  /** The position in the map's order of the node a handle refers to: -1
      for nil (before the first), the number of entries for the end node. */
  ghost function Position<K(!new), V>(t: TreeMap<K, V>, h: Handle<K>): int
    reads t
  {
    match h
    case Null => -1
    case End => |t.Contents()|
    case Keyed(k) => LowerIndex(t.less, t.Contents(), k)
  }

  /** The handle refers to nil, the end node, or a node of the map. */
  ghost predicate Refers<K(!new), V>(t: TreeMap<K, V>, h: Handle<K>)
    reads t
  {
    t.Valid() && (h.Keyed? ==> Position(t, h) < |t.Contents()| && t.Contents()[Position(t, h)].0 == h.key)
  }

  /** Iteration is in increasing key order: the node after another in the
      map's order holds a greater key. */
  lemma NextIsGreater<K(!new), V>(t: TreeMap<K, V>, a: Handle<K>, b: Handle<K>)
    requires Refers(t, a) && Refers(t, b) && a.Keyed? && b.Keyed?
    requires Position(t, b) == Position(t, a) + 1
    ensures t.less(a.key, b.key)
  {
  }

  /** The handle of the node at the focus of `z`, which is at `z`'s
      position. */
  lemma HandleAt<K(!new), V>(t: TreeMap<K, V>, z: Zipper<K, V>)
    requires t.Valid() && z.focus.Node? && Whole(z) == t.root
    ensures Refers(t, Keyed(z.focus.key)) && Position(t, Keyed(z.focus.key)) == Index(z)
  {
    KeyAt(t.less, z);
  }

  /** `TreeMap`: `root` is `endNode.left`; the end node's zero key and
      value are `endKey` and `endValue`. */
  class TreeMap<K(==,!new), V> {
    var root: Tree<K, V>
    var beginNode: Handle<K>
    var count: int
    const less: (K, K) -> bool
    const endKey: K
    const endValue: V
    ghost var height: int

    /** The map's entries in key order. */
    ghost function Contents(): seq<(K, V)>
      reads this
    {
      Entries(root)
    }

    /** The invariant: a search tree that is a red-black tree with a black
        root, `count` entries, and `beginNode` at the first one. */
    ghost predicate Valid()
      reads this
    {
      StrictWeakOrder(less) && Sorted(less, Entries(root)) &&
      RB(root, height) && IsBlack(root) &&
      count == |Entries(root)| && beginNode == First(Entries(root))
    }

    /** `New`: an empty map ordered by `less`. */
    constructor New(less: (K, K) -> bool, endKey: K, endValue: V)
      requires StrictWeakOrder(less)
      ensures Valid() && Contents() == [] && count == 0 && beginNode == End
      ensures this.less == less && this.endKey == endKey && this.endValue == endValue
    {
      this.less := less;
      this.endKey := endKey;
      this.endValue := endValue;
      root := Nil;
      beginNode := End;
      count := 0;
      height := 0;
    }

    /** `Len` */
    method Len() returns (n: int)
      requires Valid()
      ensures n == |Contents()|
    {
      n := count;
    }

    /** `findNode`: the node holding a key equivalent to `id`, or nil. */
    method FindNode(id: K) returns (r: NodeRef<K, V>)
      requires Valid()
      ensures !r.EndNode?
      ensures r.NoNode? <==> !Has(less, Contents(), id)
      ensures r.At? ==> Located(less, root, r.z, id)
      ensures r.At? ==> Lookup(less, Contents(), id) == Some(r.z.focus.value)
    {
      var current := Zipper(root, []);
      while current.focus.Node?
        invariant Whole(current) == root
        invariant AllBelow(less, Before(current.up), id) && AllAbove(less, id, After(current.up))
        decreases current.focus
      {
        if less(id, current.focus.key) {
          StepLeftAbove(less, current, id);
          current := DownLeft(current);
        } else if less(current.focus.key, id) {
          StepRightBelow(less, current, id);
          current := DownRight(current);
        } else {
          FoundAt(less, current, id);
          return At(current);
        }
      }
      MissingAt(less, current, id);
      return NoNode;
    }

    /** `Get`: the value for `id` and `true`, or the end node's value and
        `false` when `id` is absent. */
    method Get(id: K) returns (v: V, found: bool)
      requires Valid()
      ensures Lookup(less, Contents(), id) == (if found then Some(v) else None)
      ensures !found ==> v == endValue
    {
      var node := FindNode(id);
      if node.NoNode? {
        return endValue, false;
      }
      return node.z.focus.value, true;
    }

    /** `Contains` */
    method Contains(id: K) returns (b: bool)
      requires Valid()
      ensures b <==> Has(less, Contents(), id)
    {
      var node := FindNode(id);
      b := !node.NoNode?;
    }

    /** `Set`: a search from the root either finds the key, and then
        only the value is overwritten, or falls off the tree, and then a red
        leaf is hung where it fell off and `insertFixup` rebalances. */
    method Set(key: K, value: V)
      requires Valid()
      modifies this
      ensures Valid()
      ensures Contents() == Put(less, old(Contents()), key, value)
      ensures count == old(count) + (if Has(less, old(Contents()), key) then 0 else 1)
    {
      ghost var e := Entries(root);
      PutSpec(less, e, key, value);
      var current := Zipper(root, []);
      var goLeft := true;
      while current.focus.Node?
        invariant unchanged(this)
        invariant Whole(current) == root
        invariant AllBelow(less, Before(current.up), key) && AllAbove(less, key, After(current.up))
        invariant current.up != [] ==> goLeft == current.up[0].fromLeft
        invariant current.up == [] ==> goLeft
        decreases current.focus
      {
        if less(key, current.focus.key) {
          StepLeftAbove(less, current, key);
          current := DownLeft(current);
          goLeft := true;
        } else if less(current.focus.key, key) {
          StepRightBelow(less, current, key);
          current := DownRight(current);
          goLeft := false;
        } else {
          OverwriteSpec(less, current, key, value, height);
          root := Plug(current.focus.(value := value), current.up);
          return;
        }
      }
      // the new red node, hung on the side of its parent the search took
      var x := Zipper(Node(false, Nil, key, value, Nil), current.up);
      // the begin node gains a left child when it is the new node's parent
      var parentIsBegin := match beginNode
        case End => current.up == []
        case Keyed(bk) => current.up != [] && current.up[0].key == bk
        case Null => false;
      InsertSpec(less, current, key, value, height, beginNode, parentIsBegin && goLeft);
      if parentIsBegin && goLeft {
        beginNode := Keyed(key);
      }
      root, height := InsertFixup(x);
      count := count + 1;
    }

    /** `Del`: nothing happens when the key is absent. Otherwise, when the
        node is the begin node, the begin node moves to the next node, then
        `removeNode` takes the node out. */
    method Del(key: K)
      requires Valid()
      modifies this
      ensures Valid()
      ensures Contents() == Remove(less, old(Contents()), key)
      ensures count == old(count) - (if Has(less, old(Contents()), key) then 1 else 0)
    {
      ghost var e := Entries(root);
      RemoveSpec(less, e, key);
      var node := FindNode(key);
      if node.NoNode? {
        return;
      }
      var z := node.z;
      ghost var nb := beginNode;
      if beginNode == Keyed(z.focus.key) {
        if z.focus.right.Node? {
          beginNode := Keyed(z.focus.right.key);
        } else if z.up == [] {
          beginNode := End;
        } else {
          beginNode := Keyed(z.up[0].key);
        }
      }
      DeleteSpec(less, z, key, height, nb, beginNode);
      count := count - 1;
      root, height := RemoveNode(z, height);
    }

    /** `LowerBound`: an iterator at the first entry whose key is not
        less than `key`, or at the end. */
    method LowerBound(key: K) returns (it: ForwardIterator<K, V>)
      requires Valid()
      ensures fresh(it) && it.tree == this && Refers(this, it.node)
      ensures it.node == First(Contents()[LowerIndex(less, Contents(), key)..])
    {
      var result := End;
      if root.Nil? {
        it := new ForwardIterator(this, End);
        return;
      }
      var node := Zipper(root, []);
      while true
        invariant node.focus.Node? && Whole(node) == root
        invariant AllBelow(less, Before(node.up), key) && NoneBelow(less, After(node.up), key)
        invariant result == First(After(node.up))
        decreases node.focus
      {
        if less(node.focus.key, key) {
          if node.focus.right.Node? {
            StepRightBelow(less, node, key);
            node := DownRight(node);
          } else {
            LowerBoundAfter(less, node, key);
            break;
          }
        } else {
          result := Keyed(node.focus.key);
          if node.focus.left.Node? {
            StepLeftNotBelow(less, node, key);
            node := DownLeft(node);
          } else {
            LowerBoundHere(less, node, key);
            KeyAt(less, node);
            break;
          }
        }
      }
      ghost var e := Contents();
      ghost var i := LowerIndex(less, e, key);
      assert result == First(e[i..]);
      if result.Keyed? {
        KeyIndex(less, e, i);
      }
      it := new ForwardIterator(this, result);
    }

    /** `UpperBound`: an iterator at the first entry whose key is greater
        than `key`, or at the end. */
    method UpperBound(key: K) returns (it: ForwardIterator<K, V>)
      requires Valid()
      ensures fresh(it) && it.tree == this && Refers(this, it.node)
      ensures it.node == First(Contents()[UpperIndex(less, Contents(), key)..])
    {
      var result := End;
      if root.Nil? {
        it := new ForwardIterator(this, End);
        return;
      }
      var node := Zipper(root, []);
      while true
        invariant node.focus.Node? && Whole(node) == root
        invariant NoneAbove(less, key, Before(node.up)) && AllAbove(less, key, After(node.up))
        invariant result == First(After(node.up))
        decreases node.focus
      {
        if !less(key, node.focus.key) {
          if node.focus.right.Node? {
            StepRightNotAbove(less, node, key);
            node := DownRight(node);
          } else {
            UpperBoundAfter(less, node, key);
            break;
          }
        } else {
          result := Keyed(node.focus.key);
          if node.focus.left.Node? {
            StepLeftAbove(less, node, key);
            node := DownLeft(node);
          } else {
            UpperBoundHere(less, node, key);
            KeyAt(less, node);
            break;
          }
        }
      }
      ghost var e := Contents();
      ghost var i := UpperIndex(less, e, key);
      assert result == First(e[i..]);
      if result.Keyed? {
        KeyIndex(less, e, i);
      }
      it := new ForwardIterator(this, result);
    }

    /** `Range`: the iterators `LowerBound(from)` and `UpperBound(to)`,
        between which lie the entries with keys from `from` to `to`. */
    method Range(from: K, to: K) returns (lo: ForwardIterator<K, V>, hi: ForwardIterator<K, V>)
      requires Valid()
      ensures fresh(lo) && lo.tree == this && Refers(this, lo.node)
      ensures fresh(hi) && hi.tree == this && Refers(this, hi.node)
      ensures lo.node == First(Contents()[LowerIndex(less, Contents(), from)..])
      ensures hi.node == First(Contents()[UpperIndex(less, Contents(), to)..])
    {
      lo := LowerBound(from);
      hi := UpperBound(to);
    }

    /** `Iterator`: a forward iterator at the begin node, the first entry. */
    method Iterator() returns (it: ForwardIterator<K, V>)
      requires Valid()
      ensures fresh(it) && it.tree == this && Refers(this, it.node)
      ensures it.node == First(Contents())
      ensures Contents() != [] ==> Position(this, it.node) == 0
    {
      it := new ForwardIterator(this, beginNode);
    }

    /** `Reverse`: a reverse iterator at the last entry, or nil when the map
        is empty. */
    method Reverse() returns (it: ReverseIterator<K, V>)
      requires Valid()
      ensures fresh(it) && it.tree == this && Refers(this, it.node)
      ensures it.node == Last(Contents()) && Position(this, it.node) == |Contents()| - 1
    {
      var node := Null;
      if root.Nil? {
      } else {
        var m, _ := MostRight(Zipper(root, []));
        HandleAt(this, m);
        node := Keyed(m.focus.key);
      }
      it := new ReverseIterator(this, node);
    }

    /** `Clear` */
    method Clear()
      requires Valid()
      modifies this
      ensures Valid() && Contents() == [] && count == 0 && beginNode == End
    {
      count := 0;
      beginNode := End;
      root := Nil;
      height := 0;
    }
  }

  /** `ForwardIterator`: walks the map in increasing key order. Go passes
      it by value and mutates a copy's `node` through a pointer receiver;
      here it is an object whose `node` the steps update. */
  class ForwardIterator<K(==,!new), V> {
    const tree: TreeMap<K, V>
    var node: Handle<K>

    constructor (tree: TreeMap<K, V>, node: Handle<K>)
      ensures this.tree == tree && this.node == node
    {
      this.tree := tree;
      this.node := node;
    }

    /** `Valid`: the iterator has not run off the end. */
    method Valid() returns (b: bool)
      requires Refers(tree, node)
      ensures b <==> Position(tree, node) < |tree.Contents()|
    {
      b := node != End;
    }

    /** `Next`: moves to the next entry; stepping from the end panics
        ("out of bound iteration"), and so does stepping from nil. */
    method Next() returns (panicked: bool)
      requires Refers(tree, node)
      modifies this
      ensures Refers(tree, node)
      ensures panicked <==> old(node).End? || old(node).Null?
      ensures panicked ==> node == old(node)
      ensures !panicked ==> Position(tree, node) == old(Position(tree, node)) + 1
    {
      if node == End {
        return true;
      }
      if node == Null {
        return true;
      }
      var found := tree.FindNode(node.key);
      var r, _ := Successor(found.z);
      if r.EndNode? {
        node := End;
      } else {
        HandleAt(tree, r.z);
        node := Keyed(r.z.focus.key);
      }
      return false;
    }

    /** `Prev`: moves to the previous entry; stepping back from the first
        entry leaves the iterator at nil and panics, and so does stepping
        from nil. */
    method Prev() returns (panicked: bool)
      requires Refers(tree, node)
      modifies this
      ensures Refers(tree, node)
      ensures panicked <==> old(Position(tree, node)) <= 0
      ensures panicked ==> node == Null
      ensures !panicked ==> Position(tree, node) == old(Position(tree, node)) - 1
    {
      if node == Null {
        return true;
      }
      var r: NodeRef<K, V>;
      if node == End {
        r := PredecessorOfEnd(tree.root);
      } else {
        var found := tree.FindNode(node.key);
        r := Predecessor(found.z);
      }
      if r.NoNode? {
        node := Null;
        return true;
      }
      HandleAt(tree, r.z);
      node := Keyed(r.z.focus.key);
      return false;
    }

    /** `Key`: the key at the iterator; the end node holds the zero key, and
        a nil node is dereferenced, which panics. */
    method Key() returns (k: K, panicked: bool)
      requires Refers(tree, node)
      ensures panicked <==> node.Null?
      ensures !panicked ==> k == if node.End? then tree.endKey else tree.Contents()[Position(tree, node)].0
    {
      if node == Null {
        return tree.endKey, true;
      }
      if node == End {
        return tree.endKey, false;
      }
      return node.key, false;
    }

    /** `Value`: the value at the iterator; the end node holds the zero
        value, and a nil node is dereferenced, which panics. */
    method Value() returns (v: V, panicked: bool)
      requires Refers(tree, node)
      ensures panicked <==> node.Null?
      ensures !panicked ==> v == if node.End? then tree.endValue else tree.Contents()[Position(tree, node)].1
    {
      if node == Null {
        return tree.endValue, true;
      }
      if node == End {
        return tree.endValue, false;
      }
      var found := tree.FindNode(node.key);
      IndexEntry(found.z);
      return found.z.focus.value, false;
    }
  }

  /** `ReverseIterator`: walks the map in decreasing key order. */
  class ReverseIterator<K(==,!new), V> {
    const tree: TreeMap<K, V>
    var node: Handle<K>

    constructor (tree: TreeMap<K, V>, node: Handle<K>)
      ensures this.tree == tree && this.node == node
    {
      this.tree := tree;
      this.node := node;
    }

    /** `Valid`: the iterator has not run off the front. */
    method Valid() returns (b: bool)
      requires Refers(tree, node)
      ensures b <==> 0 <= Position(tree, node)
    {
      b := node != Null;
    }

    /** `Next`: moves to the previous entry in key order; from the first
        entry it moves to nil, and stepping from nil panics. */
    method Next() returns (panicked: bool)
      requires Refers(tree, node)
      modifies this
      ensures Refers(tree, node)
      ensures panicked <==> old(node).Null?
      ensures panicked ==> node == old(node)
      ensures !panicked ==> Position(tree, node) == old(Position(tree, node)) - 1
    {
      if node == Null {
        return true;
      }
      var r: NodeRef<K, V>;
      if node == End {
        r := PredecessorOfEnd(tree.root);
      } else {
        var found := tree.FindNode(node.key);
        r := Predecessor(found.z);
      }
      if r.NoNode? {
        node := Null;
      } else {
        HandleAt(tree, r.z);
        node := Keyed(r.z.focus.key);
      }
      return false;
    }

    /** `Prev`: moves to the next entry in key order, from nil to the begin
        node; reaching the end node panics ("out of bound iteration"), and
        stepping from the end node fails on its missing parent. */
    method Prev() returns (panicked: bool)
      requires Refers(tree, node)
      modifies this
      ensures Refers(tree, node)
      ensures panicked <==> old(Position(tree, node)) + 1 >= |tree.Contents()|
      ensures panicked ==> node == End || node == old(node)
      ensures !panicked ==> Position(tree, node) == old(Position(tree, node)) + 1
    {
      if node == End {
        return true;
      }
      if node == Null {
        node := tree.beginNode;
        if node.Keyed? {
          KeyIndex(tree.less, tree.Contents(), 0);
        }
      } else {
        var found := tree.FindNode(node.key);
        var r, _ := Successor(found.z);
        if r.EndNode? {
          node := End;
        } else {
          HandleAt(tree, r.z);
          node := Keyed(r.z.focus.key);
        }
      }
      if node == End {
        return true;
      }
      return false;
    }

    /** `Key`: the key at the iterator; the end node holds the zero key, and
        a nil node is dereferenced, which panics. */
    method Key() returns (k: K, panicked: bool)
      requires Refers(tree, node)
      ensures panicked <==> node.Null?
      ensures !panicked ==> k == if node.End? then tree.endKey else tree.Contents()[Position(tree, node)].0
    {
      if node == Null {
        return tree.endKey, true;
      }
      if node == End {
        return tree.endKey, false;
      }
      return node.key, false;
    }

    /** `Value`: the value at the iterator; the end node holds the zero
        value, and a nil node is dereferenced, which panics. */
    method Value() returns (v: V, panicked: bool)
      requires Refers(tree, node)
      ensures panicked <==> node.Null?
      ensures !panicked ==> v == if node.End? then tree.endValue else tree.Contents()[Position(tree, node)].1
    {
      if node == Null {
        return tree.endValue, true;
      }
      if node == End {
        return tree.endValue, false;
      }
      var found := tree.FindNode(node.key);
      IndexEntry(found.z);
      return found.z.focus.value, false;
    }
  }
}
