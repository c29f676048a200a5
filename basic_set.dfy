/** The basic set type of set.go: a sequence of elements kept free of equal pairs
    by adding only absent elements, with removal by swapping in the last element,
    equality that lets sets be elements of sets, and the power set. */
module BasicSet {
  import opened Seqs
  import opened Element

  /** The set after adding `e`: unchanged when an equal element is present,
      otherwise `e` appended at the end. */
  function Insert<A(==)>(eq: (A, A) -> bool, s: seq<Elem<A>>, e: Elem<A>): seq<Elem<A>>
  {
    if Has(eq, s, e) then s else s + [e]
  }

  /** The set after removing `e`: the first element equal to `e` is overwritten by
      the last element and the last position is dropped; unchanged when nothing
      is equal to `e`. */
  function Without<A(==)>(eq: (A, A) -> bool, s: seq<Elem<A>>, e: Elem<A>): seq<Elem<A>>
  {
    if Has(eq, s, e) then SwapRemove(s, MatchIndex(eq, s, e)) else s
  }

  /** A set whose value a pointer-receiver method replaces. */
  class Set<A(==)> {
    var elems: seq<Elem<A>>

    constructor (s: seq<Elem<A>>)
      ensures elems == s
    {
      elems := s;
    }

    /** Adds `e` unless an equal element is already present. */
    method AddElement(eq: (A, A) -> bool, e: Elem<A>)
      modifies this
      ensures elems == Insert(eq, old(elems), e)
    {
      var found := HasElement(eq, elems, e);
      if !found {
        elems := elems + [e];
      }
    }

    /** Removes the first element equal to `e`, if any, by swapping it with the last
        element and shortening the set by one. */
    method RemoveElement(eq: (A, A) -> bool, e: Elem<A>)
      modifies this
      ensures elems == Without(eq, old(elems), e)
    {
      var i := 0;
      while i < |elems|
        invariant 0 <= i <= |elems| && elems == old(elems)
        invariant forall k :: 0 <= k < i ==> !Element.Equal(eq, e, elems[k])
      {
        if Element.Equal(eq, e, elems[i]) {
          var s := elems;
          var last := |s| - 1;
          s := s[i := s[last]][last := s[i]];
          elems := s[..last];
          assert MatchIndex(eq, old(elems), e) == i;
          return;
        }
        i := i + 1;
      }
    }
  }

  /** `Set.Equal`: false unless the argument is a `Set` of the same length; then a
      scan that every element of the receiver is found in the argument. */
  method Equal<A(==)>(eq: (A, A) -> bool, s: seq<Elem<A>>, e: Elem<A>) returns (r: bool)
    ensures !e.Nested? || e.kind != SetKind ==> !r
    ensures e.Nested? && |s| != |e.elems| ==> !r
    ensures e.Nested? && e.kind == SetKind && |s| == |e.elems| ==>
              (r <==> forall i :: 0 <= i < |s| ==> Has(eq, e.elems, s[i]))
    ensures r == Element.Equal(eq, Nested(SetKind, s), e)
  {
    if !e.Nested? || e.kind != SetKind {
      return false;
    }
    var t := e.elems;
    if |s| != |t| {
      return false;
    }
    for i := 0 to |s|
      invariant forall k :: 0 <= k < i ==> Has(eq, t, s[k])
    {
      var found := HasElement(eq, t, s[i]);
      if !found {
        return false;
      }
    }
    return true;
  }

  // ----- adding and removing keep the set invariant ----------------------------

  /** Adding keeps the set free of equal pairs, provided `e` and the present
      elements compare symmetrically (only the direction `e.Equal(x)` is asked). */
  lemma InsertKeepsDistinct<A>(eq: (A, A) -> bool, s: seq<Elem<A>>, e: Elem<A>)
    requires Distinct(eq, s)
    requires forall i :: 0 <= i < |s| ==> Symetric(eq, e, s[i])
    ensures Distinct(eq, Insert(eq, s, e))
  {
    if !Has(eq, s, e) {
      var r := s + [e];
      forall i, j | 0 <= i < |r| && 0 <= j < |r| && i != j ensures !Element.Equal(eq, r[i], r[j]) {
        if i == |s| {
          assert !Element.Equal(eq, e, s[j]);
        } else if j == |s| {
          assert !Element.Equal(eq, e, s[i]) && Symetric(eq, e, s[i]);
        }
      }
    }
  }

  /** After adding, a reflexive `e` is found, and whatever was found still is. */
  lemma InsertHas<A>(eq: (A, A) -> bool, s: seq<Elem<A>>, e: Elem<A>, x: Elem<A>)
    ensures Reflexive(eq, e) ==> Has(eq, Insert(eq, s, e), e)
    ensures Has(eq, s, x) ==> Has(eq, Insert(eq, s, e), x)
    ensures Has(eq, Insert(eq, s, e), x) <==> Has(eq, s, x) || (!Has(eq, s, e) && Element.Equal(eq, x, e))
  {
    if !Has(eq, s, e) {
      HasConcat(eq, s, [e], x);
      HasConcat(eq, s, [e], e);
      assert Has(eq, [e], x) <==> Element.Equal(eq, x, e) by {
        assert [e][0] == e;
      }
      assert Has(eq, [e], e) <==> Element.Equal(eq, e, e) by {
        assert [e][0] == e;
      }
    }
  }

  /** Removal keeps the set free of equal pairs, with no assumption on the relation:
      every pair of positions afterwards was a pair of positions before. */
  lemma WithoutKeepsDistinct<A>(eq: (A, A) -> bool, s: seq<Elem<A>>, e: Elem<A>)
    requires Distinct(eq, s)
    ensures Distinct(eq, Without(eq, s, e))
  {
    if Has(eq, s, e) {
      var k := MatchIndex(eq, s, e);
      var r := SwapRemove(s, k);
      var last := |s| - 1;
      forall i, j | 0 <= i < |r| && 0 <= j < |r| && i != j ensures !Element.Equal(eq, r[i], r[j]) {
        var i' := if i == k then last else i;
        var j' := if j == k then last else j;
        assert r[i] == s[i'] && r[j] == s[j'] && i' != j';
      }
    }
  }

  /** Removal shortens the set by one exactly when an equal element was present, and
      then drops exactly one occurrence of the first such element. */
  lemma WithoutSize<A>(eq: (A, A) -> bool, s: seq<Elem<A>>, e: Elem<A>)
    ensures |Without(eq, s, e)| == if Has(eq, s, e) then |s| - 1 else |s|
    ensures Has(eq, s, e) ==>
              multiset(Without(eq, s, e)) == multiset(s) - multiset{s[MatchIndex(eq, s, e)]}
    ensures !Has(eq, s, e) ==> Without(eq, s, e) == s
  {
    if Has(eq, s, e) {
      SwapRemoveMultiset(s, MatchIndex(eq, s, e));
    }
  }

  /** In a duplicate-free set whose elements and `e` obey the laws, removal takes out
      precisely the elements equal to `e`, and no value is left twice. */
  lemma WithoutMembers<A>(eq: (A, A) -> bool, s: seq<Elem<A>>, e: Elem<A>)
    requires Laws(eq, s + [e]) && Distinct(eq, s)
    ensures NoRepeats(Without(eq, s, e))
    ensures forall x :: x in Without(eq, s, e) <==> x in s && !Element.Equal(eq, e, x)
  {
    var xs := s + [e];
    forall i | 0 <= i < |s| ensures Reflexive(eq, s[i]) {
      assert s[i] in xs;
    }
    DistinctNoRepeats(eq, s);
    if Has(eq, s, e) {
      var k := MatchIndex(eq, s, e);
      SwapRemoveMembers(s, k);
      forall x | x in s && x != s[k] ensures !Element.Equal(eq, e, x) {
        if Element.Equal(eq, e, x) {
          assert x in xs && e in xs && s[k] in xs;
          UseSymetric(eq, xs, e, x);
          UseTransitive(eq, xs, x, e, s[k]);
          DistinctEqualSame(eq, s, x, s[k]);
        }
      }
    }
  }

  // ----- the power set ---------------------------------------------------------

  /** 2 to the power `n`. */
  function Pow2(n: nat): (p: nat)
    ensures p >= 1
  {
    if n == 0 then 1 else 2 * Pow2(n - 1)
  }

  /** The subsets built by the doubling algorithm: start from the empty subset; for
      each element, append a copy of every subset so far extended by it. */
  function Subsets<T>(s: seq<T>): seq<seq<T>>
    decreases |s|
  {
    if s == [] then [[]]
    else
      var p := Subsets(s[..|s| - 1]);
      p + seq(|p|, i requires 0 <= i < |p| => p[i] + [s[|s| - 1]])
  }

  /** Each subset as a nested set of kind `k`. */
  function Wrap<A>(k: Kind, r: seq<seq<Elem<A>>>): (w: seq<Elem<A>>)
    ensures |w| == |r|
    ensures forall i :: 0 <= i < |r| ==> w[i] == Nested(k, r[i])
  {
    seq(|r|, i requires 0 <= i < |r| => Nested(k, r[i]))
  }

  /** The power set of `s` with subsets of kind `k`. */
  function PowerSetOf<A>(k: Kind, s: seq<Elem<A>>): seq<Elem<A>>
  {
    Wrap(k, Subsets(s))
  }

  /** The elements of `s` chosen by the binary digits of `m`: bit `i` of `m` (the
      digit of weight `Pow2(i)`) chooses `s[i]`; order is kept. */
  function Select<T>(s: seq<T>, m: nat): seq<T>
    decreases |s|
  {
    if s == [] then []
    else
      var n := |s| - 1;
      Select(s[..n], m % Pow2(n)) + (if (m / Pow2(n)) % 2 == 1 then [s[n]] else [])
  }

  /** Division facts for the masks below `2 * p`. */
  lemma Halves(m: nat, p: nat)
    requires 1 <= p && m < 2 * p
    ensures m < p ==> m % p == m && m / p == 0
    ensures p <= m ==> m % p == m - p && m / p == 1
  {
  }

  /** Choosing from `t + [x]` by `m`: the digits below the top choose from `t`, the
      top digit chooses `x`. */
  lemma SelectLast<T>(t: seq<T>, x: T, m: nat)
    requires m < 2 * Pow2(|t|)
    ensures m < Pow2(|t|) ==> Select(t + [x], m) == Select(t, m)
    ensures Pow2(|t|) <= m ==> Select(t + [x], m) == Select(t, m - Pow2(|t|)) + [x]
  {
    var s := t + [x];
    assert s[..|t|] == t;
    Halves(m, Pow2(|t|));
  }

  /** One position of the enumeration for `t + [x]`, given the enumeration for `t`. */
  lemma SubsetsByMaskStep<T>(t: seq<T>, x: T, m: nat)
    requires |Subsets(t)| == Pow2(|t|)
    requires forall m' :: 0 <= m' < Pow2(|t|) ==> Subsets(t)[m'] == Select(t, m')
    requires m < 2 * Pow2(|t|)
    ensures m < |Subsets(t + [x])| && Subsets(t + [x])[m] == Select(t + [x], m)
  {
    var s := t + [x];
    assert s[..|s| - 1] == t;
    var q := Subsets(t);
    assert Subsets(s) == q + seq(|q|, i requires 0 <= i < |q| => q[i] + [x]);
    SelectLast(t, x, m);
    if m >= Pow2(|t|) {
      assert Subsets(s)[m] == q[m - Pow2(|t|)] + [x];
    }
  }

  /** The doubling algorithm enumerates the subsets in binary counting order: the
      subset at position `m` is the one chosen by the digits of `m`. In particular
      there are `2^n` of them and every choice of elements occurs. */
  lemma {:induction false} SubsetsByMask<T>(s: seq<T>)
    ensures |Subsets(s)| == Pow2(|s|)
    ensures forall m :: 0 <= m < Pow2(|s|) ==> Subsets(s)[m] == Select(s, m)
    decreases |s|
  {
    if s != [] {
      var t, x := s[..|s| - 1], s[|s| - 1];
      assert s == t + [x];
      SubsetsByMask(t);
      forall m | 0 <= m < Pow2(|s|) ensures Subsets(s)[m] == Select(s, m) {
        SubsetsByMaskStep(t, x, m);
      }
    }
  }

  /** The first subset is the empty one and the last is `s` itself. */
  lemma {:induction false} SubsetsEnds<T>(s: seq<T>)
    ensures |Subsets(s)| == Pow2(|s|)
    ensures Subsets(s)[0] == []
    ensures Subsets(s)[Pow2(|s|) - 1] == s
    decreases |s|
  {
    if s != [] {
      var n := |s| - 1;
      SubsetsEnds(s[..n]);
      assert s == s[..n] + [s[n]];
    }
  }

  /** The power set has `2^n` elements, the first the empty set and the last `s`. */
  lemma PowerSetShape<A>(k: Kind, s: seq<Elem<A>>)
    ensures |PowerSetOf(k, s)| == Pow2(|s|)
    ensures PowerSetOf(k, s)[0] == Nested(k, [])
    ensures PowerSetOf(k, s)[Pow2(|s|) - 1] == Nested(k, s)
    ensures forall m :: 0 <= m < Pow2(|s|) ==> PowerSetOf(k, s)[m] == Nested(k, Select(s, m))
  {
    SubsetsEnds(s);
    SubsetsByMask(s);
  }

  /** The power set contains the empty set, and contains `s` itself once the
      elements of `s` pass the reflexive-law validator. */
  lemma PowerSetHasEnds<A>(eq: (A, A) -> bool, k: Kind, s: seq<Elem<A>>)
    ensures Has(eq, PowerSetOf(k, s), Nested(k, []))
    ensures (forall i :: 0 <= i < |s| ==> Reflexive(eq, s[i])) ==> Has(eq, PowerSetOf(k, s), Nested(k, s))
  {
    PowerSetShape(k, s);
    var ps := PowerSetOf(k, s);
    assert Element.Equal(eq, Nested(k, []), ps[0]);
    if forall i :: 0 <= i < |s| ==> Reflexive(eq, s[i]) {
      NestedReflexive(eq, k, s);
      assert Element.Equal(eq, Nested(k, s), ps[Pow2(|s|) - 1]);
    }
  }

  /** Appending the same element keeps different collections different. */
  lemma ExtendDiffers<T>(u: seq<T>, v: seq<T>, x: T)
    requires multiset(u) != multiset(v)
    ensures multiset(u + [x]) != multiset(v + [x])
  {
    if multiset(u + [x]) == multiset(v + [x]) {
      forall y ensures multiset(u)[y] == multiset(v)[y] {
        assert multiset(u + [x])[y] == multiset(u)[y] + (if y == x then 1 else 0);
        assert multiset(v + [x])[y] == multiset(v)[y] + (if y == x then 1 else 0);
      }
      MultisetExt(multiset(u), multiset(v));
    }
  }

  /** Extending a subset by a value it lacks keeps it free of repeats and within `s`. */
  lemma ExtendSubset<T>(s: seq<T>, u: seq<T>, x: T)
    requires NoRepeats(u) && x !in u && x in s
    requires forall y :: y in u ==> y in s
    ensures NoRepeats(u + [x])
    ensures forall y :: y in u + [x] ==> y in s
  {
    forall i, j | 0 <= i < |u| + 1 && 0 <= j < |u| + 1 && i != j ensures (u + [x])[i] != (u + [x])[j] {
      if i < |u| && j < |u| {
        assert (u + [x])[i] == u[i] && (u + [x])[j] == u[j];
      }
    }
  }

  /** One doubling step keeps the collections pairwise different: two old ones, two
      extended ones, or an old one (without `x`) against an extended one (with it). */
  lemma DoubledDiffer<T>(p: seq<seq<T>>, q: seq<seq<T>>, x: T, a: nat, b: nat)
    requires |q| == 2 * |p|
    requires forall i :: 0 <= i < |p| ==> q[i] == p[i] && q[i + |p|] == p[i] + [x]
    requires forall i :: 0 <= i < |p| ==> x !in p[i]
    requires forall i, j :: 0 <= i < |p| && 0 <= j < |p| && i != j ==> multiset(p[i]) != multiset(p[j])
    requires a < |q| && b < |q| && a != b
    ensures multiset(q[a]) != multiset(q[b])
  {
    var n := |p|;
    if a < n && b < n {
      assert q[a] == p[a] && q[b] == p[b];
    } else if a >= n && b >= n {
      assert q[a] == p[a - n] + [x] && q[b] == p[b - n] + [x];
      ExtendDiffers(p[a - n], p[b - n], x);
    } else {
      var c := if a < n then a else b;
      var d := if a < n then b else a;
      assert q[c] == p[c] && q[d] == p[d - n] + [x];
      assert x in multiset(q[d]) && x !in multiset(q[c]);
    }
  }

  /** For a sequence without repeated values, each subset of the doubling
      enumeration takes its values from `s` without repeats, and no two positions
      hold the same collection. */
  lemma {:induction false} SubsetsDiffer<T>(s: seq<T>)
    requires NoRepeats(s)
    ensures forall a :: 0 <= a < |Subsets(s)| ==> NoRepeats(Subsets(s)[a])
    ensures forall a, y :: 0 <= a < |Subsets(s)| && y in Subsets(s)[a] ==> y in s
    ensures forall a, b :: 0 <= a < |Subsets(s)| && 0 <= b < |Subsets(s)| && a != b ==>
              multiset(Subsets(s)[a]) != multiset(Subsets(s)[b])
    decreases |s|
  {
    if s != [] {
      var n := |s| - 1;
      var t, x := s[..n], s[n];
      forall i, j | 0 <= i < |t| && 0 <= j < |t| && i != j ensures t[i] != t[j] {
        assert t[i] == s[i] && t[j] == s[j];
      }
      forall y | y in t ensures y in s && y != x {
        var i :| 0 <= i < |t| && t[i] == y;
        assert s[i] == y;
      }
      SubsetsDiffer(t);
      var p := Subsets(t);
      var q := Subsets(s);
      assert q == p + seq(|p|, i requires 0 <= i < |p| => p[i] + [x]);
      forall i | 0 <= i < |p| ensures q[i] == p[i] && q[i + |p|] == p[i] + [x] && x !in p[i] {
        assert x in p[i] ==> x in t;
      }
      forall a | 0 <= a < |q| ensures NoRepeats(q[a]) && forall y :: y in q[a] ==> y in s {
        if a >= |p| {
          ExtendSubset(s, p[a - |p|], x);
        }
      }
      forall a, b | 0 <= a < |q| && 0 <= b < |q| && a != b ensures multiset(q[a]) != multiset(q[b]) {
        DoubledDiffer(p, q, x, a, b);
      }
    }
  }

  /** The power set of a set is a set: different subsets of a duplicate-free `s`
      (of either kind) are never `Equal`, so `2^n` is its cardinality. */
  lemma PowerSetDistinct<A>(eq: (A, A) -> bool, k: Kind, s: seq<Elem<A>>)
    requires Distinct(eq, s) && NoRepeats(s)
    ensures Distinct(eq, PowerSetOf(k, s))
  {
    SubsetsDiffer(s);
    var r := Subsets(s);
    var w := PowerSetOf(k, s);
    forall a, b | 0 <= a < |w| && 0 <= b < |w| && a != b ensures !Element.Equal(eq, w[a], w[b]) {
      if Element.Equal(eq, w[a], w[b]) {
        NestedEqualSame(eq, s, k, r[a], r[b]);
      }
    }
  }

  /** The doubling loop itself, for subsets of kind `k`; each new subset is the old
      one's elements with the current element appended. */
  method PowerSetOfKind<A>(k: Kind, s: seq<Elem<A>>) returns (r: seq<Elem<A>>)
    ensures r == PowerSetOf(k, s)
  {
    r := [Nested(k, [])];
    for i := 0 to |s|
      invariant r == PowerSetOf(k, s[..i])
    {
      var es := s[i];
      ghost var p := Subsets(s[..i]);
      var u: seq<Elem<A>> := [];
      for j := 0 to |r|
        invariant |u| == j
        invariant forall l :: 0 <= l < j ==> u[l] == Nested(k, p[l] + [es])
      {
        u := u + [Nested(k, r[j].elems + [es])];
      }
      assert s[..i + 1][..i] == s[..i];
      r := r + u;
    }
    assert s[..|s|] == s;
  }

  /** `Set.PowerSet`: the power set, its subsets of the dynamic type `Set`. This is
      the intended result; the Go loop appends to subsets that can share a backing
      array, so from five elements on its subsets can be overwritten. */
  method PowerSet<A>(s: seq<Elem<A>>) returns (r: seq<Elem<A>>)
    ensures r == PowerSetOf(SetKind, s)
    ensures |r| == Pow2(|s|) && r[0] == Nested(SetKind, []) && r[|r| - 1] == Nested(SetKind, s)
  {
    r := PowerSetOfKind(SetKind, s);
    PowerSetShape(SetKind, s);
  }

  // ----- the package example ---------------------------------------------------

  /** Integers compared by value, the element type of the package example. */
  function IntEqual(a: int, b: int): bool
  {
    a == b
  }

  /** Adding 1, 4, 4, 2, 2, 3, 4 to the empty set leaves 1, 4, 2, 3. */
  lemma ExampleInserts()
    ensures Insert(IntEqual, Insert(IntEqual, Insert(IntEqual, Insert(IntEqual, Insert(IntEqual,
              Insert(IntEqual, Insert(IntEqual, [], Atom(1)), Atom(4)), Atom(4)), Atom(2)), Atom(2)),
              Atom(3)), Atom(4))
            == [Atom(1), Atom(4), Atom(2), Atom(3)]
  {
    var eq := IntEqual;
    var a1, a2, a3, a4 := Atom(1), Atom(2), Atom(3), Atom(4);
    assert Insert(eq, [], a1) == [a1];
    assert Insert(eq, [a1], a4) == [a1, a4] by {
      assert !Element.Equal(eq, a4, [a1][0]);
    }
    assert Insert(eq, [a1, a4], a4) == [a1, a4] by {
      assert Element.Equal(eq, a4, [a1, a4][1]);
    }
    assert Insert(eq, [a1, a4], a2) == [a1, a4, a2] by {
      assert !Element.Equal(eq, a2, [a1, a4][0]) && !Element.Equal(eq, a2, [a1, a4][1]);
    }
    assert Insert(eq, [a1, a4, a2], a2) == [a1, a4, a2] by {
      assert Element.Equal(eq, a2, [a1, a4, a2][2]);
    }
    assert Insert(eq, [a1, a4, a2], a3) == [a1, a4, a2, a3] by {
      assert !Element.Equal(eq, a3, [a1, a4, a2][0]) && !Element.Equal(eq, a3, [a1, a4, a2][1])
          && !Element.Equal(eq, a3, [a1, a4, a2][2]);
    }
    assert Insert(eq, [a1, a4, a2, a3], a4) == [a1, a4, a2, a3] by {
      assert Element.Equal(eq, a4, [a1, a4, a2, a3][1]);
    }
  }

  /** Removing 4 from 1, 4, 2, 3 moves the last element into its place. */
  lemma ExampleRemove()
    ensures Without(IntEqual, [Atom(1), Atom(4), Atom(2), Atom(3)], Atom(4)) == [Atom(1), Atom(3), Atom(2)]
  {
    var s0 := [Atom(1), Atom(4), Atom(2), Atom(3)];
    assert Element.Equal(IntEqual, Atom(4), s0[1]);
    assert !Element.Equal(IntEqual, Atom(4), s0[0]);
    assert MatchIndex(IntEqual, s0, Atom(4)) == 1;
  }

  /** The set 1, 3, 2 has 8 subsets, and its power set contains the set itself. */
  lemma ExamplePowerSet()
    ensures |PowerSetOf(SetKind, [Atom(1), Atom(3), Atom(2)])| == 8
    ensures Has(IntEqual, PowerSetOf(SetKind, [Atom(1), Atom(3), Atom(2)]), Nested(SetKind, [Atom(1), Atom(3), Atom(2)]))
  {
    var s1 := [Atom(1), Atom(3), Atom(2)];
    PowerSetShape(SetKind, s1);
    assert Pow2(3) == 8;
    forall i | 0 <= i < |s1| ensures Reflexive(IntEqual, s1[i]) { }
    PowerSetHasEnds(IntEqual, SetKind, s1);
  }

  /** The package example: adding 1, 4, 4, 2, 2, 3, 4 to the empty set leaves 1, 4,
      2, 3; removing 4 then moves 3 into its place, leaving 1, 3, 2; that set has 8
      subsets, and the power set contains the set itself. */
  lemma ExampleSession()
    ensures var eq := IntEqual;
            var s0 := Insert(eq, Insert(eq, Insert(eq, Insert(eq, Insert(eq, Insert(eq, Insert(eq,
                        [], Atom(1)), Atom(4)), Atom(4)), Atom(2)), Atom(2)), Atom(3)), Atom(4));
            && s0 == [Atom(1), Atom(4), Atom(2), Atom(3)]
            && Without(eq, s0, Atom(4)) == [Atom(1), Atom(3), Atom(2)]
            && |PowerSetOf(SetKind, Without(eq, s0, Atom(4)))| == 8
            && Has(eq, PowerSetOf(SetKind, Without(eq, s0, Atom(4))), Nested(SetKind, Without(eq, s0, Atom(4))))
  {
    ExampleInserts();
    ExampleRemove();
    ExamplePowerSet();
  }
}
