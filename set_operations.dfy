/** Value-level operations on small sets, as the grid and the solver use them:
    union, difference, intersection, symmetric difference, complement,
    subset and membership tests, in-place removal, cardinality and ranges. */
module SetOperations {

  /** `setsUnion` and `operator+`. */
  function Union<T(!new)>(a: set<T>, b: set<T>): (c: set<T>)
    ensures forall x :: x in c <==> x in a || x in b
    ensures a <= c && b <= c
  {
    a + b
  }

  /** `setsDifference` and `operator-`. */
  function Difference<T(!new)>(a: set<T>, b: set<T>): (c: set<T>)
    ensures forall x :: x in c <==> x in a && x !in b
    ensures c <= a && c !! b
  {
    a - b
  }

  /** `setsIntersection` and `operator*`. */
  function Intersection<T(!new)>(a: set<T>, b: set<T>): (c: set<T>)
    ensures forall x :: x in c <==> x in a && x in b
    ensures c <= a && c <= b
  {
    a * b
  }

  /** `operator^`, written in the source as (A + B) - (A * B). */
  function SymmetricDifference<T(!new)>(a: set<T>, b: set<T>): (c: set<T>)
  {
    Difference(Union(a, b), Intersection(a, b))
  }

  /** `Not(universe, s)`: the complement of `s` within `universe`. */
  function Not<T(!new)>(universe: set<T>, s: set<T>): (c: set<T>)
  {
    Difference(universe, s)
  }

  /** `isAnElementOf`: a lookup in the set. */
  function IsAnElementOf<T>(x: T, s: set<T>): (found: bool)
    ensures found <==> x in s
  {
    x in s
  }

  /** `sizeOf`: the number of elements. */
  function SizeOf<T>(s: set<T>): (n: int)
    ensures n >= 0
    ensures n == 0 <==> s == {}
  {
    |s|
  }

  /** The symmetric difference holds exactly the elements that lie in one of
      the two sets but not in both. */
  lemma SymmetricDifferenceIsExclusiveOr<T(!new)>(a: set<T>, b: set<T>, x: T)
    ensures x in SymmetricDifference(a, b) <==> (x in a) != (x in b)
  {
  }

  /** Complement within a universe partitions that universe. */
  lemma NotPartitionsUniverse<T(!new)>(universe: set<T>, s: set<T>)
    requires s <= universe
    ensures Not(universe, s) !! s
    ensures Union(Not(universe, s), s) == universe
    ensures Not(universe, Not(universe, s)) == s
  {
  }

  /** `isASubsetOf(setA, setB)`: despite its name, it answers whether every
      element of `setB` lies in `setA`, i.e. setB <= setA.  It walks setB and
      looks each element up in setA, stopping at the first miss.  The
      source's shortcut for two references to the same object answers true,
      which is what the walk answers too, since every set contains itself. */
  method IsASubsetOf<T>(setA: set<T>, setB: set<T>) returns (r: bool)
    ensures r <==> setB <= setA
  {
    var rest := setB;
    while rest != {}
      invariant rest <= setB
      invariant forall x :: x in setB && x !in rest ==> x in setA
      decreases rest
    {
      var x :| x in rest;
      if !IsAnElementOf(x, setA) {
        return false;
      }
      rest := rest - {x};
    }
    return true;
  }

  /** `removeElements(tobeRemoved, set)`: overwrites `set` with
      set - tobeRemoved and reports whether that changed it. */
  method RemoveElements<T(!new)>(tobeRemoved: set<T>, s: set<T>) returns (s': set<T>, changed: bool)
    ensures s' == Difference(s, tobeRemoved)
    ensures changed <==> s * tobeRemoved != {}
    ensures changed <==> s' != s
    ensures !changed ==> s' == s
  {
    var temp := s;
    s' := Difference(s, tobeRemoved);
    changed := temp != s';
    DifferenceChanges(s, tobeRemoved);
  }

  /** A subset is no larger, and a proper subset strictly smaller. */
  lemma SizeOfSubset<T>(a: set<T>, b: set<T>)
    requires a <= b
    ensures SizeOf(a) <= SizeOf(b)
    ensures a != b ==> SizeOf(a) < SizeOf(b)
  {
    assert b == a + (b - a);
    assert a !! (b - a);
    if a != b {
      assert b - a != {};
    }
  }

  /** Removing elements changes a set exactly when some of them are in it. */
  lemma DifferenceChanges<T(!new)>(s: set<T>, rem: set<T>)
    ensures Difference(s, rem) != s <==> s * rem != {}
  {
    if Difference(s, rem) != s {
      var x :| x in s && x !in Difference(s, rem);
      assert x in s * rem;
    }
  }

  /** Removing fewer elements than a set has leaves some behind. */
  lemma DifferenceNonEmpty<T(!new)>(s: set<T>, rem: set<T>)
    ensures SizeOf(s) > SizeOf(rem) ==> Difference(s, rem) != {}
  {
    if Difference(s, rem) == {} {
      assert s <= rem;
      SizeOfSubset(s, rem);
    }
  }

  /** `makeRange(b, e)`: the integers of the half-open range [b, e). */
  method MakeRange(b: int, e: int) returns (r: set<int>)
    ensures forall i :: i in r <==> b <= i < e
    ensures |r| == if b < e then e - b else 0
  {
    r := {};
    var i := b;
    while i < e
      invariant b <= i || e <= b
      invariant i <= e || i == b
      invariant forall k :: k in r <==> b <= k < i
      invariant |r| == if b < i then i - b else 0
    {
      r := r + {i};
      i := i + 1;
    }
  }
}
