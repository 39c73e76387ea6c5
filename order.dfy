/** The comparison the sort, heap and tree-map templates are instantiated
    with. The templates only ever ask `Less(a, b)`, and they are correct for
    any `Less` that is a strict weak order, which is what Go's own sort and
    heap packages demand of it. */
module Order {

  /** Irreflexive, transitive, and with "not less" transitive too (so that
      incomparable elements form equivalence classes). */
  ghost predicate StrictWeakOrder<T(!new)>(less: (T, T) -> bool) {
    (forall a :: !less(a, a)) &&
    (forall a, b, c {:trigger less(a, b), less(b, c), less(a, c)} ::
       less(a, b) && less(b, c) ==> less(a, c)) &&
    (forall a, b, c {:trigger less(a, b), less(b, c), less(a, c)} ::
       !less(a, b) && !less(b, c) ==> !less(a, c))
  }

  lemma Asymmetric<T(!new)>(less: (T, T) -> bool, a: T, b: T)
    requires StrictWeakOrder(less)
    ensures less(a, b) ==> !less(b, a)
  {
    assert !less(a, a);
  }

  /** The converse order: `Flip(less)(a, b)` is `less(b, a)`. */
  function Flip<T(!new)>(less: (T, T) -> bool): (greater: (T, T) -> bool)
    ensures forall a, b :: greater(a, b) == less(b, a)
  {
    (a: T, b: T) => less(b, a)
  }

  /** The converse of a strict weak order is one. */
  lemma FlipOrder<T(!new)>(less: (T, T) -> bool)
    requires StrictWeakOrder(less)
    ensures StrictWeakOrder(Flip(less))
  {
    var greater := Flip(less);
    forall a, b, c | greater(a, b) && greater(b, c)
      ensures greater(a, c)
    {
      assert less(c, b) && less(b, a);
    }
    forall a, b, c | !greater(a, b) && !greater(b, c)
      ensures !greater(a, c)
    {
      assert !less(c, b) && !less(b, a);
    }
  }
}
