/** The set template of set/set.go: a Python-like set of elements of the
    template parameter type, kept as the keys of a Go map whose values are
    empty structs. Here the keys are a Dafny `set`; every `range` over the map
    is a loop that picks the elements one at a time in an arbitrary order, as
    Go's map iteration does. */
module Set {

  class Set<A(==)> {
    /** The keys of `s.m`. */
    var m: set<A>

    /** `NewSizedSet`: the capacity is only a hint for the map's allocation,
        and Go's `make` of a map treats a negative hint as zero. */
    constructor NewSizedSet(capacity: int)
      ensures m == {}
    {
      m := {};
    }

    /** `NewSet` */
    constructor NewSet()
      ensures m == {}
    {
      m := {};
    }

    /** `Len`: the number of distinct elements. */
    method Len() returns (n: int)
      ensures n == |m|
    {
      return |m|;
    }

    /** `Contains` */
    method Contains(elem: A) returns (found: bool)
      ensures found <==> elem in m
    {
      return elem in m;
    }

    /** `Add`: afterwards `elem` is in the set; nothing else changes. */
    method Add(elem: A) returns (r: Set<A>)
      modifies this
      ensures m == old(m) + {elem}
      ensures r == this
    {
      m := m + {elem};
      return this;
    }

    /** `AddList` */
    method AddList(elems: seq<A>) returns (r: Set<A>)
      modifies this
      ensures m == old(m) + (set i | 0 <= i < |elems| :: elems[i])
      ensures r == this
    {
      var i := 0;
      while i < |elems|
        invariant 0 <= i <= |elems|
        invariant m == old(m) + (set k | 0 <= k < i :: elems[k])
      {
        m := m + {elems[i]};
        i := i + 1;
      }
      return this;
    }

    /** `Discard`: afterwards `elem` is absent; nothing else changes. */
    method Discard(elem: A) returns (r: Set<A>)
      modifies this
      ensures m == old(m) - {elem}
      ensures r == this
    {
      m := m - {elem};
      return this;
    }

    /** `Remove`: whether `elem` was there; afterwards it is not. */
    method Remove(elem: A) returns (found: bool)
      modifies this
      ensures found <==> elem in old(m)
      ensures m == old(m) - {elem}
    {
      found := elem in m;
      if found {
        m := m - {elem};
      }
    }

    /** `Pop`: `Remove`, also handing back the element asked for. */
    method Pop(elem: A) returns (e: A, found: bool)
      modifies this
      ensures e == elem
      ensures found <==> elem in old(m)
      ensures m == old(m) - {elem}
    {
      found := elem in m;
      if found {
        m := m - {elem};
      }
      return elem, found;
    }

    /** `AsList`: every element exactly once, in map order. */
    method AsList() returns (elems: seq<A>)
      ensures |elems| == |m|
      ensures forall x :: x in m <==> x in elems
      ensures forall i, j :: 0 <= i < j < |elems| ==> elems[i] != elems[j]
    {
      elems := [];
      var rest := m;
      while rest != {}
        invariant rest <= m
        invariant forall x :: x in m <==> x in rest || x in elems
        invariant forall x :: x in elems ==> x !in rest
        invariant forall i, j :: 0 <= i < j < |elems| ==> elems[i] != elems[j]
        invariant |elems| + |rest| == |m|
        decreases |rest|
      {
        var elem :| elem in rest;
        elems := elems + [elem];
        rest := rest - {elem};
      }
    }

    /** `Clear` */
    method Clear() returns (r: Set<A>)
      modifies this
      ensures m == {}
      ensures r == this
    {
      m := {};
      return this;
    }

    /** `Copy`: a new set with the same elements. */
    method Copy() returns (r: Set<A>)
      ensures fresh(r)
      ensures r.m == m
    {
      r := new Set.NewSizedSet(|m|);
      var rest := m;
      while rest != {}
        invariant rest <= m
        invariant r.m == m - rest
        decreases |rest|
      {
        var elem :| elem in rest;
        r.m := r.m + {elem};
        rest := rest - {elem};
      }
    }

    /** `Difference`: a new set of the elements of this one that the other
        lacks. Both operands are left as they were. */
    method Difference(other: Set<A>) returns (r: Set<A>)
      ensures fresh(r)
      ensures r.m == m - other.m
    {
      r := new Set.NewSizedSet(|m|);
      var rest := m;
      while rest != {}
        invariant rest <= m
        invariant r.m == (m - rest) - other.m
        decreases |rest|
      {
        var elem :| elem in rest;
        if elem !in other.m {
          r.m := r.m + {elem};
        }
        rest := rest - {elem};
      }
    }

    /** `DifferenceUpdate`: the elements of the other set are deleted from
        this one. When `other` is this set, it ends up empty. */
    method DifferenceUpdate(other: Set<A>) returns (r: Set<A>)
      modifies this
      ensures m == old(m) - old(other.m)
      ensures other != this ==> other.m == old(other.m)
      ensures r == this
    {
      var theirs := other.m;
      var rest := theirs;
      while rest != {}
        invariant rest <= theirs
        invariant m == old(m) - (theirs - rest)
        decreases |rest|
      {
        var elem :| elem in rest;
        m := m - {elem};
        rest := rest - {elem};
      }
      return this;
    }

    /** `Intersection`: a new set of the elements in both. */
    method Intersection(other: Set<A>) returns (r: Set<A>)
      ensures fresh(r)
      ensures r.m == m * other.m
    {
      r := new Set.NewSizedSet(|m| + |other.m|);
      var rest := m;
      while rest != {}
        invariant rest <= m
        invariant r.m == (m - rest) * other.m
        decreases |rest|
      {
        var elem :| elem in rest;
        if elem in other.m {
          r.m := r.m + {elem};
        }
        rest := rest - {elem};
      }
      rest := other.m;
      while rest != {}
        invariant rest <= other.m
        invariant r.m == m * other.m
        decreases |rest|
      {
        var elem :| elem in rest;
        if elem in m {
          r.m := r.m + {elem};
        }
        rest := rest - {elem};
      }
    }

    /** `IntersectionUpdate`: the elements the other set lacks are deleted
        from this one, while ranging over it. */
    method IntersectionUpdate(other: Set<A>) returns (r: Set<A>)
      modifies this
      ensures m == old(m) * old(other.m)
      ensures other != this ==> other.m == old(other.m)
      ensures r == this
    {
      var theirs := other.m;
      var rest := m;
      while rest != {}
        invariant rest <= old(m)
        invariant m == rest + (old(m) - rest) * theirs
        invariant other != this ==> other.m == theirs
        invariant other == this ==> theirs == old(m)
        decreases |rest|
      {
        var elem :| elem in rest;
        if elem !in other.m {
          m := m - {elem};
        }
        rest := rest - {elem};
      }
      return this;
    }

    /** `Union`: a new set of the elements in either. */
    method Union(other: Set<A>) returns (r: Set<A>)
      ensures fresh(r)
      ensures r.m == m + other.m
    {
      r := new Set.NewSizedSet(|m| + |other.m|);
      var rest := m;
      while rest != {}
        invariant rest <= m
        invariant r.m == m - rest
        decreases |rest|
      {
        var elem :| elem in rest;
        r.m := r.m + {elem};
        rest := rest - {elem};
      }
      rest := other.m;
      while rest != {}
        invariant rest <= other.m
        invariant r.m == m + (other.m - rest)
        decreases |rest|
      {
        var elem :| elem in rest;
        r.m := r.m + {elem};
        rest := rest - {elem};
      }
    }

    /** `Update`: the elements of the other set are added to this one. */
    method Update(other: Set<A>) returns (r: Set<A>)
      modifies this
      ensures m == old(m) + old(other.m)
      ensures other != this ==> other.m == old(other.m)
      ensures r == this
    {
      var theirs := other.m;
      var rest := theirs;
      while rest != {}
        invariant rest <= theirs
        invariant m == old(m) + (theirs - rest)
        decreases |rest|
      {
        var elem :| elem in rest;
        m := m + {elem};
        rest := rest - {elem};
      }
      return this;
    }

    /** `IsSuperset`: every element of the other set is in this one, and
        when `strict`, the other set is also smaller. */
    method IsSuperset(strict: bool, other: Set<A>) returns (b: bool)
      ensures b <==> other.m <= m && (strict ==> |other.m| < |m|)
    {
      if strict && |other.m| >= |m| {
        return false;
      }
      var outer := other.m;
      label A:
      while outer != {}
        invariant outer <= other.m
        invariant forall v :: v in other.m && v !in outer ==> v in m
        decreases |outer|
      {
        var v :| v in outer;
        outer := outer - {v};
        var inner := m;
        while inner != {}
          invariant inner <= m
          invariant v in m ==> v in inner
          decreases |inner|
        {
          var i :| i in inner;
          if v == i {
            continue A;
          }
          inner := inner - {i};
        }
        return false;
      }
      return true;
    }

    /** `IsSubset`: every element of this set is in the other one, and when
        `strict`, this set is also smaller. */
    method IsSubset(strict: bool, other: Set<A>) returns (b: bool)
      ensures b <==> m <= other.m && (strict ==> |m| < |other.m|)
    {
      if strict && |m| >= |other.m| {
        return false;
      }
      var outer := m;
      label A:
      while outer != {}
        invariant outer <= m
        invariant forall v :: v in m && v !in outer ==> v in other.m
        decreases |outer|
      {
        var v :| v in outer;
        outer := outer - {v};
        var inner := other.m;
        while inner != {}
          invariant inner <= other.m
          invariant v in other.m ==> v in inner
          decreases |inner|
        {
          var i :| i in inner;
          if v == i {
            continue A;
          }
          inner := inner - {i};
        }
        return false;
      }
      return true;
    }

    /** `IsDisjoint`: no element is in both sets. */
    method IsDisjoint(other: Set<A>) returns (b: bool)
      ensures b <==> m * other.m == {}
    {
      var rest := m;
      while rest != {}
        invariant rest <= m
        invariant (m - rest) * other.m == {}
        decreases |rest|
      {
        var v :| v in rest;
        var found := other.Contains(v);
        if found {
          assert v in m * other.m;
          return false;
        }
        rest := rest - {v};
      }
      return true;
    }

    /** `SymmetricDifference`: the union with the intersection taken out,
        which is the elements in exactly one of the two sets. */
    method SymmetricDifference(other: Set<A>) returns (r: Set<A>)
      ensures fresh(r)
      ensures r.m == (m - other.m) + (other.m - m)
    {
      r := Union(other);
      var work := Intersection(other);
      var rest := work.m;
      while rest != {}
        invariant rest <= work.m && work.m == m * other.m
        invariant r.m == (m + other.m) - (work.m - rest)
        decreases |rest|
      {
        var v :| v in rest;
        r.m := r.m - {v};
        rest := rest - {v};
      }
      assert r.m == (m + other.m) - m * other.m;
    }

    /** `SymmetricDifferenceUpdate`: `*s = *work`, this set takes the
        contents of the symmetric difference. */
    method SymmetricDifferenceUpdate(other: Set<A>) returns (r: Set<A>)
      modifies this
      ensures m == (old(m) - old(other.m)) + (old(other.m) - old(m))
      ensures other != this ==> other.m == old(other.m)
      ensures r == this
    {
      var work := SymmetricDifference(other);
      m := work.m;
      return this;
    }
  }
}
