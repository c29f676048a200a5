/** The extended set type of setm.go, part two: the operations with a value
    receiver, which build a new set (union, intersection, difference in their
    several algorithms, symmetric difference, Cartesian product, filtering,
    mapping, the power set) or answer a question about the receiver. */
module SetAlgebra {
  import opened Seqs
  import opened Element
  import opened BasicSet
  import opened ExtendedSet

  // ----- membership tests used as filters ----------------------------------------

  /** Holds for elements with no equal element in `t`. */
  function NotIn<A(==)>(eq: (A, A) -> bool, t: seq<Elem<A>>): Elem<A> -> bool
  {
    e => !Has(eq, t, e)
  }

  /** Holds for elements with an equal element in `t`. */
  function In<A(==)>(eq: (A, A) -> bool, t: seq<Elem<A>>): Elem<A> -> bool
  {
    e => Has(eq, t, e)
  }

  /** Holds for elements found in none of the sets `ts`. */
  function InNone<A(==)>(eq: (A, A) -> bool, ts: seq<seq<Elem<A>>>): Elem<A> -> bool
  {
    e => forall k :: 0 <= k < |ts| ==> !Has(eq, ts[k], e)
  }

  /** Holds for elements found in each of the sets `ts`. */
  function InAll<A(==)>(eq: (A, A) -> bool, ts: seq<seq<Elem<A>>>): Elem<A> -> bool
  {
    e => forall k :: 0 <= k < |ts| ==> Has(eq, ts[k], e)
  }

  /** The elements of the sets `ts`, set after set. */
  function Concat<T>(ts: seq<seq<T>>): seq<T>
    decreases |ts|
  {
    if ts == [] then [] else Concat(ts[..|ts| - 1]) + ts[|ts| - 1]
  }

  // ----- construction, size, membership ------------------------------------------

  /** `NewSetM`: adds the arguments one at a time to the empty set. */
  method NewSetM<A(==)>(eq: (A, A) -> bool, es: seq<Elem<A>>) returns (n: seq<Elem<A>>)
    ensures n == AddAll(eq, [], es)
  {
    var p := new SetM.Empty();
    for i := 0 to |es|
      invariant p.elems == AddAll(eq, [], es[..i])
    {
      assert es[..i + 1][..i] == es[..i];
      var _ := p.Add(eq, es[i]);
    }
    assert es[..|es|] == es;
    n := p.elems;
  }

  /** A set built by `NewSetM` is free of equal pairs, has every argument as a
      member, and has no more elements than arguments, when the laws hold on the
      arguments. */
  lemma NewSetMIsSet<A>(eq: (A, A) -> bool, es: seq<Elem<A>>)
    requires Laws(eq, es)
    ensures Distinct(eq, AddAll(eq, [], es))
    ensures forall k :: 0 <= k < |es| ==> Has(eq, AddAll(eq, [], es), es[k])
    ensures |AddAll(eq, [], es)| <= |es|
  {
    assert [] + es == es;
    AddAllDistinct(eq, [], es);
    AddAllShape(eq, [], es);
    AddAllHas(eq, [], es);
    forall k | 0 <= k < |es| ensures Reflexive(eq, es[k]) {
      assert es[k] in es;
    }
  }

  /** `Cardinality`: the number of elements. */
  function Cardinality<A>(s: seq<Elem<A>>): nat
  {
    |s|
  }

  /** `IsEmpty`: whether the set has no elements. */
  function IsEmpty<A>(s: seq<Elem<A>>): bool
  {
    |s| == 0
  }

  /** Adding raises the cardinality by one exactly when the element was absent, and
      removing lowers it by one exactly when an equal element was present. */
  lemma CardinalityAddRemove<A>(eq: (A, A) -> bool, s: seq<Elem<A>>, e: Elem<A>)
    ensures Cardinality(Insert(eq, s, e)) == Cardinality(s) + (if Has(eq, s, e) then 0 else 1)
    ensures Cardinality(Without(eq, s, e)) == Cardinality(s) - (if Has(eq, s, e) then 1 else 0)
  {
    WithoutSize(eq, s, e);
  }

  /** A set of elements that pass the reflexive validator is empty exactly when
      nothing is a member of it. */
  lemma IsEmptyNoMembers<A>(eq: (A, A) -> bool, s: seq<Elem<A>>)
    requires forall i :: 0 <= i < |s| ==> Reflexive(eq, s[i])
    ensures IsEmpty(s) <==> forall x :: !Has(eq, s, x)
  {
    if !IsEmpty(s) {
      assert Element.Equal(eq, s[0], s[0]);
      assert Has(eq, s, s[0]);
    }
  }

  /** `Contains`: whether every argument is a member; true for no arguments. */
  method Contains<A(==)>(eq: (A, A) -> bool, s: seq<Elem<A>>, es: seq<Elem<A>>) returns (r: bool)
    ensures r <==> forall k :: 0 <= k < |es| ==> Has(eq, s, es[k])
    ensures es == [] ==> r
  {
    for i := 0 to |es|
      invariant forall k :: 0 <= k < i ==> Has(eq, s, es[k])
    {
      var found := HasElement(eq, s, es[i]);
      if !found {
        return false;
      }
    }
    return true;
  }

  /** `SetM.Equal`: false unless the argument is a `SetM` of the same length; then
      whether the receiver contains every element of the argument. */
  method Equal<A(==)>(eq: (A, A) -> bool, s: seq<Elem<A>>, e: Elem<A>) returns (r: bool)
    ensures !e.Nested? || e.kind != SetMKind ==> !r
    ensures e.Nested? && |s| != |e.elems| ==> !r
    ensures e.Nested? && e.kind == SetMKind && |s| == |e.elems| ==>
              (r <==> forall j :: 0 <= j < |e.elems| ==> Has(eq, s, e.elems[j]))
    ensures r == Element.Equal(eq, Nested(SetMKind, s), e)
  {
    if !e.Nested? || e.kind != SetMKind {
      return false;
    }
    var t := e.elems;
    if |s| != |t| {
      return false;
    }
    r := Contains(eq, s, t);
  }

  /** On duplicate-free sets under the laws, the two set types agree on equality,
      although `Set.Equal` checks one inclusion and `SetM.Equal` the other. */
  lemma EqualKindsAgree<A>(eq: (A, A) -> bool, s: seq<Elem<A>>, t: seq<Elem<A>>)
    requires Laws(eq, s + t) && Distinct(eq, s) && Distinct(eq, t)
    ensures Element.Equal(eq, Nested(SetKind, s), Nested(SetKind, t))
         == Element.Equal(eq, Nested(SetMKind, s), Nested(SetMKind, t))
  {
    LawsOnPart(eq, s + t, t + s);
    if |s| == |t| {
      if Subset(eq, s, t) {
        SubsetBothWays(eq, s, t);
      }
      if Subset(eq, t, s) {
        SubsetBothWays(eq, t, s);
      }
    }
  }

  /** `IsSubset`: whether every element of `s` is found in `t`. */
  method IsSubset<A(==)>(eq: (A, A) -> bool, s: seq<Elem<A>>, t: seq<Elem<A>>) returns (r: bool)
    ensures r <==> forall i :: 0 <= i < |s| ==> Has(eq, t, s[i])
  {
    for i := 0 to |s|
      invariant forall k :: 0 <= k < i ==> Has(eq, t, s[k])
    {
      var found := HasElement(eq, t, s[i]);
      if !found {
        return false;
      }
    }
    return true;
  }

  /** `IsSuperset`: `t.IsSubset(s)`. */
  method IsSuperset<A(==)>(eq: (A, A) -> bool, s: seq<Elem<A>>, t: seq<Elem<A>>) returns (r: bool)
    ensures r <==> forall j :: 0 <= j < |t| ==> Has(eq, s, t[j])
  {
    r := IsSubset(eq, t, s);
  }

  /** Under the laws, a duplicate-free subset is no larger than its superset, and a
      subset of equal size is also a superset. */
  lemma SubsetBounds<A>(eq: (A, A) -> bool, s: seq<Elem<A>>, t: seq<Elem<A>>)
    requires Laws(eq, s + t) && Distinct(eq, s) && Subset(eq, s, t)
    ensures Cardinality(s) <= Cardinality(t)
    ensures Cardinality(s) == Cardinality(t) ==> Subset(eq, t, s)
  {
    SubsetSize(eq, s, t);
    if |s| == |t| {
      SubsetBothWays(eq, s, t);
    }
  }

  // ----- difference and intersection ----------------------------------------------

  /** `Difference`: the elements of `s` not found in `t`, in order. */
  method Difference<A(==)>(eq: (A, A) -> bool, s: seq<Elem<A>>, t: seq<Elem<A>>) returns (d: seq<Elem<A>>)
    ensures d == Seqs.Filter(s, NotIn(eq, t))
  {
    d := [];
    for i := 0 to |s|
      invariant d == Seqs.Filter(s[..i], NotIn(eq, t))
    {
      assert s[..i + 1][..i] == s[..i];
      var found := HasElement(eq, t, s[i]);
      if !found {
        d := d + [s[i]];
      }
    }
    assert s[..|s|] == s;
  }

  /** `Intersect`: the elements of `s` found in `t`, in order. */
  method Intersect<A(==)>(eq: (A, A) -> bool, s: seq<Elem<A>>, t: seq<Elem<A>>) returns (r: seq<Elem<A>>)
    ensures r == Seqs.Filter(s, In(eq, t))
  {
    r := [];
    for i := 0 to |s|
      invariant r == Seqs.Filter(s[..i], In(eq, t))
    {
      assert s[..i + 1][..i] == s[..i];
      var found := HasElement(eq, t, s[i]);
      if found {
        r := r + [s[i]];
      }
    }
    assert s[..|s|] == s;
  }

  /** Difference and intersection split `s`: each element of `s` goes to exactly one
      of them according to whether `t` has it, and together they hold `s`'s elements
      exactly as often as `s` does. */
  lemma DifferenceIntersectPartition<A>(eq: (A, A) -> bool, s: seq<Elem<A>>, t: seq<Elem<A>>)
    ensures multiset(Seqs.Filter(s, NotIn(eq, t))) + multiset(Seqs.Filter(s, In(eq, t))) == multiset(s)
    ensures forall x :: x in Seqs.Filter(s, NotIn(eq, t)) <==> x in s && !Has(eq, t, x)
    ensures forall x :: x in Seqs.Filter(s, In(eq, t)) <==> x in s && Has(eq, t, x)
  {
    FilterPartition(s, In(eq, t));
    FilterAgrees(s, Not(In(eq, t)), NotIn(eq, t));
    FilterMembers(s, NotIn(eq, t));
    FilterMembers(s, In(eq, t));
  }

  /** Every order-preserving filter of a set is a set; this covers `Difference`,
      `Intersect`, `DifferenceV`, `IntersectV` and `Filter`. */
  lemma FilterKeepsDistinct<A>(eq: (A, A) -> bool, s: seq<Elem<A>>, p: Elem<A> -> bool)
    requires Distinct(eq, s)
    ensures Distinct(eq, Seqs.Filter(s, p))
  {
    FilterSub(s, p);
    DistinctSub(eq, s, Seqs.Filter(s, p));
  }

  /** `DifferenceV`: the elements of `s` found in none of `ts`, in order. */
  method DifferenceV<A(==)>(eq: (A, A) -> bool, s: seq<Elem<A>>, ts: seq<seq<Elem<A>>>) returns (d: seq<Elem<A>>)
    ensures d == Seqs.Filter(s, InNone(eq, ts))
  {
    d := [];
    for i := 0 to |s|
      invariant d == Seqs.Filter(s[..i], InNone(eq, ts))
    {
      assert s[..i + 1][..i] == s[..i];
      var e := s[i];
      var keep := true;
      for k := 0 to |ts|
        invariant keep <==> forall m :: 0 <= m < k ==> !Has(eq, ts[m], e)
      {
        var found := HasElement(eq, ts[k], e);
        if found {
          keep := false;
          break;
        }
      }
      if keep {
        d := d + [e];
      }
    }
    assert s[..|s|] == s;
  }

  /** `IntersectV`: the elements of `s` found in every one of `ts`, in order. */
  method IntersectV<A(==)>(eq: (A, A) -> bool, s: seq<Elem<A>>, ts: seq<seq<Elem<A>>>) returns (r: seq<Elem<A>>)
    ensures r == Seqs.Filter(s, InAll(eq, ts))
  {
    r := [];
    for i := 0 to |s|
      invariant r == Seqs.Filter(s[..i], InAll(eq, ts))
    {
      assert s[..i + 1][..i] == s[..i];
      var e := s[i];
      var keep := true;
      for k := 0 to |ts|
        invariant keep <==> forall m :: 0 <= m < k ==> Has(eq, ts[m], e)
      {
        var found := HasElement(eq, ts[k], e);
        if !found {
          keep := false;
          break;
        }
      }
      if keep {
        r := r + [e];
      }
    }
    assert s[..|s|] == s;
  }

  /** With no other sets, both variadic forms return `s` itself; with one set they
      are the two-set forms. */
  lemma VariadicForms<A>(eq: (A, A) -> bool, s: seq<Elem<A>>, t: seq<Elem<A>>)
    ensures Seqs.Filter(s, InNone(eq, [])) == s
    ensures Seqs.Filter(s, InAll(eq, [])) == s
    ensures Seqs.Filter(s, InNone(eq, [t])) == Seqs.Filter(s, NotIn(eq, t))
    ensures Seqs.Filter(s, InAll(eq, [t])) == Seqs.Filter(s, In(eq, t))
  {
    FilterKeepsAll(s, InNone(eq, []));
    FilterKeepsAll(s, InAll(eq, []));
    forall x | x in s ensures InNone(eq, [t])(x) == NotIn(eq, t)(x) && InAll(eq, [t])(x) == In(eq, t)(x) {
      assert [t][0] == t;
    }
    FilterAgrees(s, InNone(eq, [t]), NotIn(eq, t));
    FilterAgrees(s, InAll(eq, [t]), In(eq, t));
  }

  /** `Difference2`: a copy of `s` with each element of `c` removed in turn. */
  method Difference2<A(==)>(eq: (A, A) -> bool, s: seq<Elem<A>>, c: seq<Elem<A>>) returns (r: seq<Elem<A>>)
    ensures r == RemoveEach(eq, s, c)
  {
    var d := new SetM.Copy(s);
    for i := 0 to |c|
      invariant d.elems == RemoveEach(eq, s, c[..i])
    {
      assert c[..i + 1][..i] == c[..i];
      var _ := d.Remove(eq, c[i]);
    }
    assert c[..|c|] == c;
    r := d.elems;
  }

  /** `Intersect2`: a copy of `s` from which each element of `s` not found in `t` is
      removed in turn. */
  method Intersect2<A(==)>(eq: (A, A) -> bool, s: seq<Elem<A>>, t: seq<Elem<A>>) returns (r: seq<Elem<A>>)
    ensures r == RemoveEach(eq, s, Seqs.Filter(s, NotIn(eq, t)))
  {
    var d := new SetM.Copy(s);
    for i := 0 to |s|
      invariant d.elems == RemoveEach(eq, s, Seqs.Filter(s[..i], NotIn(eq, t)))
    {
      assert s[..i + 1][..i] == s[..i];
      ghost var c := Seqs.Filter(s[..i], NotIn(eq, t));
      var found := HasElement(eq, t, s[i]);
      assert NotIn(eq, t)(s[i]) == !found;
      if !found {
        assert Seqs.Filter(s[..i + 1], NotIn(eq, t)) == c + [s[i]];
        assert (c + [s[i]])[..|c|] == c;
        var _ := d.Remove(eq, s[i]);
      } else {
        assert Seqs.Filter(s[..i + 1], NotIn(eq, t)) == c;
      }
    }
    assert s[..|s|] == s;
    r := d.elems;
  }

  /** For a duplicate-free set under the laws, removing the elements of `c` one by
      one gives the same elements as filtering out those found in `c`. */
  lemma Difference2Agrees<A>(eq: (A, A) -> bool, s: seq<Elem<A>>, c: seq<Elem<A>>)
    requires Laws(eq, s + c) && Distinct(eq, s)
    ensures multiset(RemoveEach(eq, s, c)) == multiset(Seqs.Filter(s, NotIn(eq, c)))
  {
    RemoveEachMembers(eq, s, c);
    FilterMembers(s, NotIn(eq, c));
    forall i | 0 <= i < |s| ensures Reflexive(eq, s[i]) {
      assert s[i] in s + c;
    }
    DistinctNoRepeats(eq, s);
    FilterNoRepeats(s, NotIn(eq, c));
    SameMembersSameMultiset(RemoveEach(eq, s, c), Seqs.Filter(s, NotIn(eq, c)));
  }

  /** For a duplicate-free set under the laws, `Intersect2` gives the same elements
      as `Intersect`. */
  lemma Intersect2Agrees<A>(eq: (A, A) -> bool, s: seq<Elem<A>>, t: seq<Elem<A>>)
    requires Laws(eq, s) && Distinct(eq, s)
    ensures multiset(RemoveEach(eq, s, Seqs.Filter(s, NotIn(eq, t)))) == multiset(Seqs.Filter(s, In(eq, t)))
  {
    var c := Seqs.Filter(s, NotIn(eq, t));
    assert forall y :: y in s + c ==> y in s by {
      FilterMembers(s, NotIn(eq, t));
    }
    FilterMembers(s, NotIn(eq, t));
    FilterMembers(s, In(eq, t));
    LawsOnPart(eq, s, s + c);
    RemoveEachMembers(eq, s, c);
    forall x | x in s ensures Has(eq, c, x) <==> x in c {
      UseReflexive(eq, s, x);
      if Has(eq, c, x) {
        var j :| 0 <= j < |c| && Element.Equal(eq, x, c[j]);
        DistinctEqualSame(eq, s, x, c[j]);
      }
    }
    forall i | 0 <= i < |s| ensures Reflexive(eq, s[i]) {
      assert s[i] in s;
    }
    DistinctNoRepeats(eq, s);
    FilterNoRepeats(s, In(eq, t));
    SameMembersSameMultiset(RemoveEach(eq, s, c), Seqs.Filter(s, In(eq, t)));
  }

  // ----- union ---------------------------------------------------------------------

  /** `Union`: a copy of `s` to which each element of `t` is added in turn. */
  method Union<A(==)>(eq: (A, A) -> bool, s: seq<Elem<A>>, t: seq<Elem<A>>) returns (r: seq<Elem<A>>)
    ensures r == AddAll(eq, s, t)
  {
    var u := new SetM.Copy(s);
    for i := 0 to |t|
      invariant u.elems == AddAll(eq, s, t[..i])
    {
      assert t[..i + 1][..i] == t[..i];
      var _ := u.Add(eq, t[i]);
    }
    assert t[..|t|] == t;
    r := u.elems;
  }

  /** The union keeps `s` as a prefix, adds at most the elements of `t`, and has
      exactly the members of `s` and `t`; for a duplicate-free `s` under the laws it
      is duplicate-free and at least as large as each operand that is. */
  lemma UnionIsSetUnion<A>(eq: (A, A) -> bool, s: seq<Elem<A>>, t: seq<Elem<A>>)
    requires Distinct(eq, s) && Laws(eq, s + t)
    ensures |s| <= |AddAll(eq, s, t)| <= |s| + |t|
    ensures AddAll(eq, s, t)[..|s|] == s
    ensures forall x :: x in AddAll(eq, s, t) ==> x in s || x in t
    ensures forall j :: 0 <= j < |t| ==> Has(eq, AddAll(eq, s, t), t[j])
    ensures Distinct(eq, AddAll(eq, s, t))
    ensures Distinct(eq, t) ==> |t| <= |AddAll(eq, s, t)|
  {
    var u := AddAll(eq, s, t);
    AddAllShape(eq, s, t);
    AddAllFrom(eq, s, t);
    AddAllHas(eq, s, t);
    AddAllDistinct(eq, s, t);
    forall j | 0 <= j < |t| ensures Reflexive(eq, t[j]) {
      assert t[j] in s + t;
    }
    if Distinct(eq, t) {
      LawsOnPart(eq, s + t, t + u);
      SubsetSize(eq, t, u);
    }
  }

  /** `UnionV`: a copy of `s` to which the elements of each of `ts` are added in
      turn. */
  method UnionV<A(==)>(eq: (A, A) -> bool, s: seq<Elem<A>>, ts: seq<seq<Elem<A>>>) returns (r: seq<Elem<A>>)
    ensures r == AddAll(eq, s, Concat(ts))
  {
    var u := new SetM.Copy(s);
    for k := 0 to |ts|
      invariant u.elems == AddAll(eq, s, Concat(ts[..k]))
    {
      ghost var before := Concat(ts[..k]);
      var t := ts[k];
      assert before + t[..0] == before;
      for i := 0 to |t|
        invariant u.elems == AddAll(eq, s, before + t[..i])
      {
        assert (before + t[..i + 1])[..|before + t[..i + 1]| - 1] == before + t[..i];
        var _ := u.Add(eq, t[i]);
      }
      assert ts[..k + 1][..k] == ts[..k];
      assert t[..|t|] == t;
    }
    assert ts[..|ts|] == ts;
    r := u.elems;
  }

  /** `UnionV` with no other sets is `s`; with one more set it is one more `Union`. */
  lemma UnionVSteps<A>(eq: (A, A) -> bool, s: seq<Elem<A>>, ts: seq<seq<Elem<A>>>, t: seq<Elem<A>>)
    ensures AddAll(eq, s, Concat([])) == s
    ensures AddAll(eq, s, Concat(ts + [t])) == AddAll(eq, AddAll(eq, s, Concat(ts)), t)
  {
    assert (ts + [t])[..|ts|] == ts;
    AddAllConcat(eq, s, Concat(ts), t);
  }

  // ----- symmetric difference ------------------------------------------------------

  /** The set built by `SymmetricDifference`: a copy of `s` in which each element of
      `t` is removed if `s` has it and appended otherwise. */
  function SymDiff<A(==)>(eq: (A, A) -> bool, s: seq<Elem<A>>, t: seq<Elem<A>>): seq<Elem<A>>
    decreases |t|
  {
    if t == [] then s
    else
      var d := SymDiff(eq, s, t[..|t| - 1]);
      var e := t[|t| - 1];
      if Has(eq, s, e) then Without(eq, d, e) else d + [e]
  }

  /** `SymmetricDifference`. */
  method SymmetricDifference<A(==)>(eq: (A, A) -> bool, s: seq<Elem<A>>, t: seq<Elem<A>>) returns (r: seq<Elem<A>>)
    ensures r == SymDiff(eq, s, t)
  {
    var d := new SetM.Copy(s);
    for i := 0 to |t|
      invariant d.elems == SymDiff(eq, s, t[..i])
    {
      assert t[..i + 1][..i] == t[..i];
      var found := HasElement(eq, s, t[i]);
      if found {
        var _ := d.Remove(eq, t[i]);
      } else {
        d.elems := d.elems + [t[i]];
      }
    }
    assert t[..|t|] == t;
    r := d.elems;
  }

  /** For duplicate-free `s` and `t` under the laws, the symmetric difference is
      duplicate-free and its members are exactly the elements that are in one of
      `s`, `t` and have no equal element in the other. */
  lemma {:induction false} SymDiffMembers<A>(eq: (A, A) -> bool, s: seq<Elem<A>>, t: seq<Elem<A>>)
    requires Laws(eq, s + t) && Distinct(eq, s) && Distinct(eq, t)
    ensures Distinct(eq, SymDiff(eq, s, t))
    ensures forall x :: x in SymDiff(eq, s, t) <==>
              (x in s && !Has(eq, t, x)) || (x in t && !Has(eq, s, x))
    decreases |t|
  {
    if t != [] {
      var n := |t| - 1;
      var e := t[n];
      var xs := s + t;
      var tn := t[..n];
      assert t == tn + [e];
      LawsOnPart(eq, xs, s + tn);
      SymDiffMembers(eq, s, tn);
      var d := SymDiff(eq, s, tn);
      assert Distinct(eq, d);
      assert forall x :: x in d <==> (x in s && !Has(eq, tn, x)) || (x in tn && !Has(eq, s, x));
      forall x | x in d ensures x in xs {
      }
      forall x | x in xs ensures Has(eq, t, x) <==> Has(eq, tn, x) || Element.Equal(eq, e, x) {
        HasConcat(eq, tn, [e], x);
        assert Has(eq, [e], x) <==> Element.Equal(eq, x, [e][0]);
        assert e in xs;
        UseSymetric(eq, xs, x, e);
      }
      if Has(eq, s, e) {
        SymDiffRemoveStep(eq, s, t, d);
      } else {
        SymDiffAppendStep(eq, s, t, d);
      }
    }
  }

  /** The step of `SymDiffMembers` for a last element of `t` that `s` has. */
  lemma SymDiffRemoveStep<A>(eq: (A, A) -> bool, s: seq<Elem<A>>, t: seq<Elem<A>>, d: seq<Elem<A>>)
    requires t != [] && Laws(eq, s + t) && Distinct(eq, s) && Distinct(eq, t)
    requires Has(eq, s, t[|t| - 1])
    requires Distinct(eq, d)
    requires forall x :: x in d <==> (x in s && !Has(eq, t[..|t| - 1], x)) || (x in t[..|t| - 1] && !Has(eq, s, x))
    requires forall x :: x in s + t ==> (Has(eq, t, x) <==> Has(eq, t[..|t| - 1], x) || Element.Equal(eq, t[|t| - 1], x))
    ensures Distinct(eq, Without(eq, d, t[|t| - 1]))
    ensures forall x :: x in Without(eq, d, t[|t| - 1]) <==>
              (x in s && !Has(eq, t, x)) || (x in t && !Has(eq, s, x))
  {
    var n := |t| - 1;
    var e := t[n];
    var xs := s + t;
    var tn := t[..n];
    assert t == tn + [e];
    forall y | y in d + [e] ensures y in xs {
      if y in d {
      }
    }
    LawsOnPart(eq, xs, d + [e]);
    WithoutKeepsDistinct(eq, d, e);
    WithoutMembers(eq, d, e);
    forall x ensures x in Without(eq, d, e) <==> (x in s && !Has(eq, t, x)) || (x in t && !Has(eq, s, x)) {
      if x in t && !Has(eq, s, x) {
        assert x != e;
        assert x in tn;
      }
    }
  }

  /** The step of `SymDiffMembers` for a last element of `t` that `s` lacks. */
  lemma SymDiffAppendStep<A>(eq: (A, A) -> bool, s: seq<Elem<A>>, t: seq<Elem<A>>, d: seq<Elem<A>>)
    requires t != [] && Laws(eq, s + t) && Distinct(eq, s) && Distinct(eq, t)
    requires !Has(eq, s, t[|t| - 1])
    requires Distinct(eq, d)
    requires forall x :: x in d <==> (x in s && !Has(eq, t[..|t| - 1], x)) || (x in t[..|t| - 1] && !Has(eq, s, x))
    requires forall x :: x in s + t ==> (Has(eq, t, x) <==> Has(eq, t[..|t| - 1], x) || Element.Equal(eq, t[|t| - 1], x))
    ensures Distinct(eq, d + [t[|t| - 1]])
    ensures forall x :: x in d + [t[|t| - 1]] <==>
              (x in s && !Has(eq, t, x)) || (x in t && !Has(eq, s, x))
  {
    var n := |t| - 1;
    var e := t[n];
    var xs := s + t;
    var tn := t[..n];
    assert t == tn + [e];
    assert e in xs;
    forall i | 0 <= i < |d| ensures !Element.Equal(eq, d[i], e) && !Element.Equal(eq, e, d[i]) {
      assert d[i] in d;
      assert d[i] in xs;
      UseSymetric(eq, xs, d[i], e);
      if d[i] in s {
        var j :| 0 <= j < |s| && s[j] == d[i];
      } else {
        var j :| 0 <= j < n && tn[j] == d[i];
        assert t[j] == d[i];
      }
    }
    var r := d + [e];
    forall i, j | 0 <= i < |r| && 0 <= j < |r| && i != j ensures !Element.Equal(eq, r[i], r[j]) {
      if i < |d| && j < |d| {
        assert r[i] == d[i] && r[j] == d[j];
      }
    }
    forall x | x in s ensures !Element.Equal(eq, e, x) {
      assert x in xs;
      UseSymetric(eq, xs, x, e);
    }
  }

  // ----- Cartesian product -------------------------------------------------------------

  /** Row-major bound: position `a * m + b` of `n` rows of length `m` is in range. */
  lemma RowBound(a: nat, b: nat, m: nat, n: nat)
    requires b < m && a < n
    ensures a * m + b < n * m
  {
    var d: nat := n - (a + 1);
    assert n * m == (a + 1 + d) * m;
    assert (a + 1 + d) * m == a * m + m + d * m;
    assert d * m >= 0;
  }

  /** The ordered pairs of `x` with each element of `t`, in order. */
  function Row<A>(x: Elem<A>, t: seq<Elem<A>>): (r: seq<Elem<A>>)
    ensures |r| == |t|
    ensures forall j :: 0 <= j < |t| ==> r[j] == Pair(x, t[j])
  {
    seq(|t|, j requires 0 <= j < |t| => Pair(x, t[j]))
  }

  /** The ordered pairs of `s` and `t`, row after row. */
  function Product<A>(s: seq<Elem<A>>, t: seq<Elem<A>>): (r: seq<Elem<A>>)
    ensures |r| == |s| * |t|
    decreases |s|
  {
    if s == [] then []
    else
      var n := |s| - 1;
      assert |s| * |t| == n * |t| + |t|;
      Product(s[..n], t) + Row(s[n], t)
  }

  /** One position of the product: the pair of `s[i]` and `t[j]` sits at
      `i * |t| + j`. */
  lemma {:induction false} ProductAt<A>(s: seq<Elem<A>>, t: seq<Elem<A>>, i: nat, j: nat)
    requires i < |s| && j < |t|
    ensures i * |t| + j < |s| * |t| && Product(s, t)[i * |t| + j] == Pair(s[i], t[j])
    decreases |s|
  {
    var n := |s| - 1;
    var m := |t|;
    RowBound(i, j, m, |s|);
    if i < n {
      RowBound(i, j, m, n);
      ProductAt(s[..n], t, i, j);
      assert s[..n][i] == s[i];
    } else {
      assert Product(s, t)[i * m + j] == Row(s[n], t)[j];
    }
  }

  /** Every element of the product is the pair of an element of `s` with one of `t`. */
  lemma {:induction false} ProductPairs<A>(s: seq<Elem<A>>, t: seq<Elem<A>>, x: Elem<A>)
    requires x in Product(s, t)
    ensures exists i, j :: 0 <= i < |s| && 0 <= j < |t| && x == Pair(s[i], t[j])
    decreases |s|
  {
    var n := |s| - 1;
    if x in Product(s[..n], t) {
      ProductPairs(s[..n], t, x);
      var i, j :| 0 <= i < n && 0 <= j < |t| && x == Pair(s[..n][i], t[j]);
      assert s[..n][i] == s[i];
    } else {
      var j :| 0 <= j < |t| && Row(s[n], t)[j] == x;
    }
  }

  /** Every position of the product is `i * |t| + j` for a row `i` and a column `j`. */
  lemma {:induction false} ProductIndex<A>(s: seq<Elem<A>>, t: seq<Elem<A>>, p: nat) returns (i: nat, j: nat)
    requires p < |s| * |t|
    ensures i < |s| && j < |t| && p == i * |t| + j
    decreases |s|
  {
    var n := |s| - 1;
    assert |s| * |t| == n * |t| + |t|;
    if p < n * |t| {
      i, j := ProductIndex(s[..n], t, p);
    } else {
      i, j := n, p - n * |t|;
    }
  }

  /** The product of two sequences without repeated values is a set: pairs are
      equal only when identical, and each position holds a different pair, so
      `|s| * |t|` is its cardinality. Identity stands for Go's `==` on the atom
      values, as in `PairEqualIsIdentity`. */
  lemma ProductDistinct<A>(eq: (A, A) -> bool, s: seq<Elem<A>>, t: seq<Elem<A>>)
    requires NoRepeats(s) && NoRepeats(t)
    ensures Distinct(eq, Product(s, t))
  {
    var r := Product(s, t);
    forall p, q | 0 <= p < |r| && 0 <= q < |r| && p != q ensures !Element.Equal(eq, r[p], r[q]) {
      var i, j := ProductIndex(s, t, p);
      var i2, j2 := ProductIndex(s, t, q);
      ProductAt(s, t, i, j);
      ProductAt(s, t, i2, j2);
      PairEqualIsIdentity(eq, s[i], t[j], r[q]);
    }
  }

  /** `CartesianProduct`: fills a new array of `|s| * |t|` elements, row by row,
      with a running position counter. */
  method CartesianProduct<A>(s: seq<Elem<A>>, t: seq<Elem<A>>) returns (r: seq<Elem<A>>)
    ensures r == Product(s, t)
  {
    ghost var q := Product(s, t);
    var m := |t|;
    var p := new Elem<A>[|s| * m](_ => Nested(SetMKind, []));
    var i := 0;
    for a := 0 to |s|
      invariant i == a * m
      invariant forall k :: 0 <= k < i ==> k < p.Length && p[k] == q[k]
    {
      for b := 0 to m
        invariant i == a * m + b
        invariant forall k :: 0 <= k < i ==> k < p.Length && p[k] == q[k]
      {
        ProductAt(s, t, a, b);
        p[i] := Pair(s[a], t[b]);
        i := i + 1;
      }
      assert (a + 1) * m == a * m + m;
    }
    r := p[..];
  }

  // ----- filtering, mapping, power set ------------------------------------------------

  /** `Filter`: the elements for which `f` holds, in order. */
  method Filter<A>(s: seq<Elem<A>>, f: Elem<A> -> bool) returns (r: seq<Elem<A>>)
    ensures r == Seqs.Filter(s, f)
  {
    r := [];
    for i := 0 to |s|
      invariant r == Seqs.Filter(s[..i], f)
    {
      assert s[..i + 1][..i] == s[..i];
      if f(s[i]) {
        r := r + [s[i]];
      }
    }
    assert s[..|s|] == s;
  }

  /** The images of the elements of `s` under `f`, in order. */
  function Apply<A>(s: seq<Elem<A>>, f: Elem<A> -> Elem<A>): (r: seq<Elem<A>>)
    ensures |r| == |s|
  {
    seq(|s|, i requires 0 <= i < |s| => f(s[i]))
  }

  /** `Map`: adds the image of each element to a new set. */
  method Map<A(==)>(eq: (A, A) -> bool, s: seq<Elem<A>>, f: Elem<A> -> Elem<A>) returns (r: seq<Elem<A>>)
    ensures r == AddAll(eq, [], Apply(s, f))
  {
    var m := new SetM.Empty();
    for i := 0 to |s|
      invariant m.elems == AddAll(eq, [], Apply(s[..i], f))
    {
      assert Apply(s[..i + 1], f)[..i] == Apply(s[..i], f);
      var _ := m.Add(eq, f(s[i]));
    }
    assert s[..|s|] == s;
    r := m.elems;
  }

  /** The mapped set has at most as many elements as `s`, holds only images, and,
      under the laws on the images, is duplicate-free and has every image. */
  lemma MapIsImage<A>(eq: (A, A) -> bool, s: seq<Elem<A>>, f: Elem<A> -> Elem<A>)
    ensures Cardinality(AddAll(eq, [], Apply(s, f))) <= Cardinality(s)
    ensures forall y :: y in AddAll(eq, [], Apply(s, f)) ==> exists i :: 0 <= i < |s| && y == f(s[i])
    ensures Laws(eq, Apply(s, f)) ==>
              Distinct(eq, AddAll(eq, [], Apply(s, f)))
              && forall i :: 0 <= i < |s| ==> Has(eq, AddAll(eq, [], Apply(s, f)), f(s[i]))
  {
    var im := Apply(s, f);
    AddAllShape(eq, [], im);
    AddAllFrom(eq, [], im);
    forall y | y in AddAll(eq, [], im) ensures exists i :: 0 <= i < |s| && y == f(s[i]) {
      var i :| 0 <= i < |im| && im[i] == y;
    }
    if Laws(eq, im) {
      NewSetMIsSet(eq, im);
      forall i | 0 <= i < |s| ensures Has(eq, AddAll(eq, [], im), f(s[i])) {
        assert im[i] == f(s[i]);
      }
    }
  }

  /** `SetM.PowerSet`: the power set, its subsets of the dynamic type `SetM`. This
      is the intended result; the Go loop appends to subsets that can share a
      backing array, so from five elements on its subsets can be overwritten. */
  method PowerSet<A>(s: seq<Elem<A>>) returns (r: seq<Elem<A>>)
    ensures r == PowerSetOf(SetMKind, s)
    ensures |r| == Pow2(|s|) && r[0] == Nested(SetMKind, []) && r[|r| - 1] == Nested(SetMKind, s)
  {
    r := PowerSetOfKind(SetMKind, s);
    PowerSetShape(SetMKind, s);
  }
}
