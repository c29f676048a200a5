/** Flattening of nested `SetM`s (setm.go): `Flatten`, and `Flatten2` both as it
    is written, where the recursive closure ignores its argument, and as it is
    evidently meant, recursing into each nested set. Only elements of the dynamic
    type `SetM` are opened; a nested `Set` of set.go is an ordinary element. */
module Flattening {
  import opened Seqs
  import opened Element
  import opened BasicSet
  import opened ExtendedSet
  import opened SetAlgebra

  /** Whether `e` has the dynamic type `SetM`. */
  predicate IsSetM<A>(e: Elem<A>)
  {
    e.Nested? && e.kind == SetMKind
  }

  /** The non-`SetM` elements at any depth of nesting, in depth-first order. */
  function Leaves<A>(s: seq<Elem<A>>): seq<Elem<A>>
    decreases SeqSize(s)
  {
    if s == [] then []
    else
      var n := |s| - 1;
      Leaves(s[..n]) + (if IsSetM(s[n]) then Leaves(s[n].elems) else [s[n]])
  }

  /** The set `Flatten` builds: for each element in order, a nested `SetM` has its
      own flattening added, and any other element is added itself. */
  function FlattenOf<A(==)>(eq: (A, A) -> bool, s: seq<Elem<A>>): seq<Elem<A>>
    decreases SeqSize(s)
  {
    if s == [] then []
    else
      var n := |s| - 1;
      var f := FlattenOf(eq, s[..n]);
      if IsSetM(s[n]) then AddAll(eq, f, FlattenOf(eq, s[n].elems)) else Insert(eq, f, s[n])
  }

  /** `Flatten`: recursive, adding each nested set's flattening with `UnionR`. */
  method Flatten<A(==)>(eq: (A, A) -> bool, s: seq<Elem<A>>) returns (r: seq<Elem<A>>)
    ensures r == FlattenOf(eq, s)
    decreases SeqSize(s)
  {
    var f := new SetM.Empty();
    for i := 0 to |s|
      invariant f.elems == FlattenOf(eq, s[..i])
    {
      assert s[..i + 1][..i] == s[..i];
      var e := s[i];
      if e.Nested? && e.kind == SetMKind {
        var sub := Flatten(eq, e.elems);
        f.UnionR(eq, sub);
      } else {
        var _ := f.Add(eq, e);
      }
    }
    assert s[..|s|] == s;
    r := f.elems;
  }

  /** No leaf is a `SetM`. */
  lemma {:induction false} LeavesNoSetM<A>(s: seq<Elem<A>>)
    ensures forall x :: x in Leaves(s) ==> !IsSetM(x)
    decreases SeqSize(s)
  {
    if s != [] {
      var n := |s| - 1;
      LeavesNoSetM(s[..n]);
      if IsSetM(s[n]) {
        LeavesNoSetM(s[n].elems);
      }
    }
  }

  /** Every element of the flattening is a leaf; so none is a `SetM`. */
  lemma {:induction false} FlattenNoSetM<A>(eq: (A, A) -> bool, s: seq<Elem<A>>)
    ensures forall x :: x in FlattenOf(eq, s) ==> x in Leaves(s)
    ensures forall k :: 0 <= k < |FlattenOf(eq, s)| ==> !IsSetM(FlattenOf(eq, s)[k])
    decreases SeqSize(s)
  {
    if s != [] {
      var n := |s| - 1;
      FlattenNoSetM(eq, s[..n]);
      var f := FlattenOf(eq, s[..n]);
      if IsSetM(s[n]) {
        FlattenNoSetM(eq, s[n].elems);
        AddAllFrom(eq, f, FlattenOf(eq, s[n].elems));
      }
    }
    LeavesNoSetM(s);
    var r := FlattenOf(eq, s);
    forall k | 0 <= k < |r| ensures !IsSetM(r[k]) {
      assert r[k] in r;
    }
  }

  /** Under the laws on the leaves, `Flatten` builds the same set as adding all
      leaves, in depth-first order, to the empty set, which is what the corrected
      `Flatten2` does. */
  lemma {:induction false} FlattenIsFlatten2<A>(eq: (A, A) -> bool, s: seq<Elem<A>>)
    requires Laws(eq, Leaves(s))
    ensures FlattenOf(eq, s) == AddAll(eq, [], Leaves(s))
    decreases SeqSize(s)
  {
    if s != [] {
      var n := |s| - 1;
      var l1 := Leaves(s[..n]);
      LawsOnPart(eq, Leaves(s), l1);
      FlattenIsFlatten2(eq, s[..n]);
      var d := AddAll(eq, [], l1);
      if IsSetM(s[n]) {
        var l2 := Leaves(s[n].elems);
        LawsOnPart(eq, Leaves(s), l2);
        FlattenIsFlatten2(eq, s[n].elems);
        AddAllFrom(eq, [], l1);
        LawsOnPart(eq, Leaves(s), d + l2);
        AddAllAbsorb(eq, d, l2);
        AddAllConcat(eq, [], l1, l2);
      } else {
        assert (l1 + [s[n]])[..|l1|] == l1;
      }
    }
  }

  /** Under the laws on the leaves, the flattening is free of equal pairs and has
      every leaf as a member. */
  lemma FlattenIsSet<A>(eq: (A, A) -> bool, s: seq<Elem<A>>)
    requires Laws(eq, Leaves(s))
    ensures Distinct(eq, FlattenOf(eq, s))
    ensures forall k :: 0 <= k < |Leaves(s)| ==> Has(eq, FlattenOf(eq, s), Leaves(s)[k])
  {
    FlattenIsFlatten2(eq, s);
    NewSetMIsSet(eq, Leaves(s));
  }

  /** A set with no nested `SetM` is its own list of leaves, and flattening it just
      adds its elements to the empty set. */
  lemma {:induction false} FlattenFlat<A>(eq: (A, A) -> bool, r: seq<Elem<A>>)
    requires forall k :: 0 <= k < |r| ==> !IsSetM(r[k])
    ensures Leaves(r) == r
    ensures FlattenOf(eq, r) == AddAll(eq, [], r)
    decreases |r|
  {
    if r != [] {
      var n := |r| - 1;
      FlattenFlat(eq, r[..n]);
      assert r == r[..n] + [r[n]];
    }
  }

  /** Under the laws on the leaves, flattening twice is flattening once. */
  lemma FlattenIdempotent<A>(eq: (A, A) -> bool, s: seq<Elem<A>>)
    requires Laws(eq, Leaves(s))
    ensures FlattenOf(eq, FlattenOf(eq, s)) == FlattenOf(eq, s)
  {
    var r := FlattenOf(eq, s);
    FlattenNoSetM(eq, s);
    FlattenFlat(eq, r);
    FlattenIsSet(eq, s);
    AddAllDistinctUnchanged(eq, r);
  }

  // ----- Flatten2 ----------------------------------------------------------------------

  /** The recursive closure of `Flatten2` as written: whatever set it is called on,
      it scans the outer set `s` from position `k`, calling itself again on each
      nested `SetM` and adding every other element to the result `f`. `fuel` is the
      depth of recursive calls allowed; `None` means that depth was exceeded. */
  function ScanWritten<A(==)>(eq: (A, A) -> bool, s: seq<Elem<A>>, f: seq<Elem<A>>, k: nat, fuel: nat)
    : Option<seq<Elem<A>>>
    decreases fuel, |s| - k
  {
    if k >= |s| then Some(f)
    else if IsSetM(s[k]) then
      if fuel == 0 then None
      else
        match ScanWritten(eq, s, f, 0, fuel - 1)
        case None => None
        case Some(f2) => ScanWritten(eq, s, f2, k + 1, fuel)
    else ScanWritten(eq, s, Insert(eq, f, s[k]), k + 1, fuel)
  }

  /** `Flatten2` as written, with a bound on the depth of recursive calls. */
  function Flatten2Written<A(==)>(eq: (A, A) -> bool, s: seq<Elem<A>>, fuel: nat): Option<seq<Elem<A>>>
  {
    ScanWritten(eq, s, [], 0, fuel)
  }

  /** Once the scan reaches a nested `SetM`, it exceeds any depth bound. */
  lemma {:induction false} ScanWrittenFails<A>(eq: (A, A) -> bool, s: seq<Elem<A>>, f: seq<Elem<A>>, k: nat, fuel: nat, j: nat)
    requires k <= j < |s| && IsSetM(s[j])
    ensures ScanWritten(eq, s, f, k, fuel) == None
    decreases fuel, j - k
  {
    if IsSetM(s[k]) {
      if fuel > 0 {
        ScanWrittenFails(eq, s, f, 0, fuel - 1, j);
      }
    } else {
      ScanWrittenFails(eq, s, Insert(eq, f, s[k]), k + 1, fuel, j);
    }
  }

  /** `Flatten2` as written never finishes on a set with a nested `SetM`: for every
      depth bound the recursion exceeds it, since each call rescans the outer set
      and meets the same nested set again. */
  lemma Flatten2WrittenDiverges<A>(eq: (A, A) -> bool, s: seq<Elem<A>>, fuel: nat)
    requires exists j :: 0 <= j < |s| && IsSetM(s[j])
    ensures Flatten2Written(eq, s, fuel) == None
  {
    var j :| 0 <= j < |s| && IsSetM(s[j]);
    ScanWrittenFails(eq, s, [], 0, fuel, j);
  }

  /** Adding `[e] + es` is inserting `e` and then adding `es`. */
  lemma AddAllFront<A>(eq: (A, A) -> bool, f: seq<Elem<A>>, e: Elem<A>, es: seq<Elem<A>>)
    ensures AddAll(eq, f, [e] + es) == AddAll(eq, Insert(eq, f, e), es)
  {
    AddAllConcat(eq, f, [e], es);
    assert [e][..0] == [];
  }

  /** On a set without nested `SetM`s the scan adds the remaining elements. */
  lemma {:induction false} ScanWrittenFlat<A>(eq: (A, A) -> bool, s: seq<Elem<A>>, f: seq<Elem<A>>, k: nat, fuel: nat)
    requires forall i :: 0 <= i < |s| ==> !IsSetM(s[i])
    requires k <= |s|
    ensures ScanWritten(eq, s, f, k, fuel) == Some(AddAll(eq, f, s[k..]))
    decreases |s| - k
  {
    if k < |s| {
      ScanWrittenFlat(eq, s, Insert(eq, f, s[k]), k + 1, fuel);
      assert s[k..] == [s[k]] + s[k + 1..];
      AddAllFront(eq, f, s[k], s[k + 1..]);
    }
  }

  /** On a set without nested `SetM`s, `Flatten2` as written finishes within any
      depth bound and agrees with `Flatten`. */
  lemma Flatten2WrittenFlat<A>(eq: (A, A) -> bool, s: seq<Elem<A>>, fuel: nat)
    requires forall i :: 0 <= i < |s| ==> !IsSetM(s[i])
    ensures Flatten2Written(eq, s, fuel) == Some(FlattenOf(eq, s))
  {
    ScanWrittenFlat(eq, s, [], 0, fuel);
    assert s[0..] == s;
    FlattenFlat(eq, s);
  }

  /** The closure of `Flatten2` as evidently intended: it scans the set it is called
      on, recursing into each nested `SetM` and adding every other element. */
  method Collect<A(==)>(eq: (A, A) -> bool, f: SetM<A>, s: seq<Elem<A>>)
    modifies f
    ensures f.elems == AddAll(eq, old(f.elems), Leaves(s))
    decreases SeqSize(s)
  {
    for i := 0 to |s|
      invariant f.elems == AddAll(eq, old(f.elems), Leaves(s[..i]))
    {
      assert s[..i + 1][..i] == s[..i];
      var e := s[i];
      ghost var before := f.elems;
      if e.Nested? && e.kind == SetMKind {
        Collect(eq, f, e.elems);
        AddAllConcat(eq, old(f.elems), Leaves(s[..i]), Leaves(e.elems));
      } else {
        var _ := f.Add(eq, e);
        assert (Leaves(s[..i]) + [e])[..|Leaves(s[..i])|] == Leaves(s[..i]);
      }
    }
    assert s[..|s|] == s;
  }

  /** `Flatten2` corrected: every leaf, in depth-first order, added to an empty set. */
  method Flatten2<A(==)>(eq: (A, A) -> bool, s: seq<Elem<A>>) returns (r: seq<Elem<A>>)
    ensures r == AddAll(eq, [], Leaves(s))
  {
    var f := new SetM.Empty();
    Collect(eq, f, s);
    r := f.elems;
  }
}
