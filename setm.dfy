/** The extended set type of setm.go, part one: the two folds that specify most of
    its operations (adding a sequence of elements one at a time, removing one),
    and the operations that replace the receiver's value through a pointer. */
module ExtendedSet {
  import opened Seqs
  import opened Element
  import opened BasicSet

  datatype Option<T> = None | Some(value: T)

  // ----- adding many elements --------------------------------------------------

  /** The set after adding the elements of `es` one at a time, in order: an element
      is appended unless the set grown so far already has an equal one. */
  function AddAll<A(==)>(eq: (A, A) -> bool, s: seq<Elem<A>>, es: seq<Elem<A>>): seq<Elem<A>>
    decreases |es|
  {
    if es == [] then s else Insert(eq, AddAll(eq, s, es[..|es| - 1]), es[|es| - 1])
  }

  /** Adding one more element of `es` is one more insertion. */
  lemma AddAllStep<A>(eq: (A, A) -> bool, s: seq<Elem<A>>, es: seq<Elem<A>>, i: nat)
    requires i < |es|
    ensures AddAll(eq, s, es[..i + 1]) == Insert(eq, AddAll(eq, s, es[..i]), es[i])
  {
    assert es[..i + 1][..i] == es[..i];
  }

  /** One scan step of `AddV`: the element is appended unless the set so far has it. */
  lemma AddAllNext<A>(eq: (A, A) -> bool, r: seq<Elem<A>>, es: seq<Elem<A>>, i: nat, s: seq<Elem<A>>, found: bool)
    requires i < |es| && s == AddAll(eq, r, es[..i]) && found == Has(eq, s, es[i])
    ensures AddAll(eq, r, es[..i + 1]) == if found then s else s + [es[i]]
  {
    AddAllStep(eq, r, es, i);
  }

  /** Adding never disturbs the original elements: `s` is a prefix, at most `|es|`
      elements are appended, and each appended element is one of `es`. */
  lemma {:induction false} AddAllShape<A>(eq: (A, A) -> bool, s: seq<Elem<A>>, es: seq<Elem<A>>)
    ensures |s| <= |AddAll(eq, s, es)| <= |s| + |es|
    ensures AddAll(eq, s, es)[..|s|] == s
    ensures forall i :: |s| <= i < |AddAll(eq, s, es)| ==> AddAll(eq, s, es)[i] in es
    decreases |es|
  {
    if es != [] {
      AddAllShape(eq, s, es[..|es| - 1]);
    }
  }

  /** Every element of the result is an element of `s` or of `es`. */
  lemma AddAllFrom<A>(eq: (A, A) -> bool, s: seq<Elem<A>>, es: seq<Elem<A>>)
    ensures forall x :: x in AddAll(eq, s, es) ==> x in s || x in es
  {
    AddAllShape(eq, s, es);
    var r := AddAll(eq, s, es);
    forall x | x in r ensures x in s || x in es {
      var i :| 0 <= i < |r| && r[i] == x;
      if i < |s| {
        assert r[..|s|][i] == x;
      }
    }
  }

  /** Adding `a` and then `b` is adding `a + b`. */
  lemma {:induction false} AddAllConcat<A>(eq: (A, A) -> bool, s: seq<Elem<A>>, a: seq<Elem<A>>, b: seq<Elem<A>>)
    ensures AddAll(eq, AddAll(eq, s, a), b) == AddAll(eq, s, a + b)
    decreases |b|
  {
    if b == [] {
      assert a + b == a;
    } else {
      var n := |b| - 1;
      AddAllConcat(eq, s, a, b[..n]);
      assert (a + b)[..|a + b| - 1] == a + b[..n];
    }
  }

  /** Adding changes nothing exactly when every added element already has an equal
      element in the set. */
  lemma {:induction false} AddAllPresent<A>(eq: (A, A) -> bool, s: seq<Elem<A>>, es: seq<Elem<A>>)
    ensures AddAll(eq, s, es) == s <==> forall k :: 0 <= k < |es| ==> Has(eq, s, es[k])
    decreases |es|
  {
    if es != [] {
      var n := |es| - 1;
      var r := AddAll(eq, s, es[..n]);
      AddAllPresent(eq, s, es[..n]);
      AddAllShape(eq, s, es[..n]);
      if AddAll(eq, s, es) == s {
        assert |r| == |s| && Has(eq, r, es[n]);
        assert r == r[..|s|];
        forall k | 0 <= k < |es| ensures Has(eq, s, es[k]) {
          if k < n {
            assert es[..n][k] == es[k];
          }
        }
      }
    }
  }

  /** Whatever the set had it keeps, and each reflexive added element is found. */
  lemma {:induction false} AddAllHas<A>(eq: (A, A) -> bool, s: seq<Elem<A>>, es: seq<Elem<A>>)
    ensures forall x :: Has(eq, s, x) ==> Has(eq, AddAll(eq, s, es), x)
    ensures forall k :: 0 <= k < |es| && Reflexive(eq, es[k]) ==> Has(eq, AddAll(eq, s, es), es[k])
    decreases |es|
  {
    if es != [] {
      var n := |es| - 1;
      var r := AddAll(eq, s, es[..n]);
      var e := es[n];
      assert AddAll(eq, s, es) == Insert(eq, r, e);
      AddAllHas(eq, s, es[..n]);
      forall x | Has(eq, s, x) ensures Has(eq, Insert(eq, r, e), x) {
        assert Has(eq, r, x);
        InsertHas(eq, r, e, x);
      }
      forall k | 0 <= k < |es| && Reflexive(eq, es[k]) ensures Has(eq, Insert(eq, r, e), es[k]) {
        if k < n {
          assert es[..n][k] == es[k];
          assert Has(eq, r, es[k]);
        }
        InsertHas(eq, r, e, es[k]);
      }
    }
  }

  /** An element found in the result is found in `s` or in `es`; under the laws the
      converse holds too, so the result has exactly the members of `s` and `es`. */
  lemma AddAllMembers<A>(eq: (A, A) -> bool, s: seq<Elem<A>>, es: seq<Elem<A>>, x: Elem<A>)
    ensures Has(eq, AddAll(eq, s, es), x) ==> Has(eq, s, x) || Has(eq, es, x)
    ensures Laws(eq, s + es + [x]) ==>
              (Has(eq, AddAll(eq, s, es), x) <==> Has(eq, s, x) || Has(eq, es, x))
  {
    var r := AddAll(eq, s, es);
    AddAllFrom(eq, s, es);
    AddAllHas(eq, s, es);
    if Has(eq, r, x) {
      var i :| 0 <= i < |r| && Element.Equal(eq, x, r[i]);
      if r[i] in s {
        var j :| 0 <= j < |s| && s[j] == r[i];
      } else {
        var j :| 0 <= j < |es| && es[j] == r[i];
      }
    }
    if Laws(eq, s + es + [x]) && Has(eq, es, x) {
      var xs := s + es + [x];
      var k :| 0 <= k < |es| && Element.Equal(eq, x, es[k]);
      assert es[k] in xs && x in xs;
      UseReflexive(eq, xs, es[k]);
      AddAllHas(eq, s, es);
      AddAllShape(eq, s, es);
      forall z | z in r ensures z in xs {
      }
      HasThroughEqual(eq, xs, r, x, es[k]);
    }
  }

  /** Adding keeps the set free of equal pairs when the laws hold on the elements
      involved. */
  lemma {:induction false} AddAllDistinct<A>(eq: (A, A) -> bool, s: seq<Elem<A>>, es: seq<Elem<A>>)
    requires Distinct(eq, s) && Laws(eq, s + es)
    ensures Distinct(eq, AddAll(eq, s, es))
    decreases |es|
  {
    if es != [] {
      var n := |es| - 1;
      var xs := s + es;
      LawsOnPart(eq, xs, s + es[..n]);
      AddAllDistinct(eq, s, es[..n]);
      var r := AddAll(eq, s, es[..n]);
      AddAllFrom(eq, s, es[..n]);
      forall i | 0 <= i < |r| ensures Symetric(eq, es[n], r[i]) {
        assert r[i] in xs && es[n] in xs;
      }
      InsertKeepsDistinct(eq, r, es[n]);
    }
  }

  /** A duplicate-free sequence is its own deduplication. */
  lemma {:induction false} AddAllDistinctUnchanged<A>(eq: (A, A) -> bool, s: seq<Elem<A>>)
    requires Distinct(eq, s)
    ensures AddAll(eq, [], s) == s
    decreases |s|
  {
    if s != [] {
      var n := |s| - 1;
      var t := s[..n];
      assert Distinct(eq, t) && !Has(eq, t, s[n]) by {
        DistinctLast(eq, s);
      }
      AddAllDistinctUnchanged(eq, t);
      assert AddAll(eq, [], s) == Insert(eq, t, s[n]);
      assert s == t + [s[n]];
    }
  }

  /** Under the laws, an element found in the deduplicated copy of `es` is found in
      the set grown by adding `es` to `s`. */
  lemma AbsorbFound<A>(eq: (A, A) -> bool, s: seq<Elem<A>>, es: seq<Elem<A>>, l: Elem<A>)
    requires Laws(eq, s + es + [l])
    requires Has(eq, AddAll(eq, [], es), l)
    ensures Has(eq, AddAll(eq, s, es), l)
  {
    var xs := s + es + [l];
    var d := AddAll(eq, [], es);
    var r := AddAll(eq, s, es);
    var i :| 0 <= i < |d| && Element.Equal(eq, l, d[i]);
    AddAllFrom(eq, [], es);
    assert d[i] in d;
    var k :| 0 <= k < |es| && es[k] == d[i];
    assert d[i] in xs && l in xs;
    UseReflexive(eq, xs, d[i]);
    AddAllHas(eq, s, es);
    assert Has(eq, r, es[k]);
    AddAllFrom(eq, s, es);
    forall z | z in r ensures z in xs {
    }
    HasThroughEqual(eq, xs, r, l, d[i]);
  }

  /** Under the laws, adding a deduplicated copy of `es` is the same as adding `es`. */
  lemma {:induction false} AddAllAbsorb<A>(eq: (A, A) -> bool, s: seq<Elem<A>>, es: seq<Elem<A>>)
    requires Laws(eq, s + es)
    ensures AddAll(eq, s, AddAll(eq, [], es)) == AddAll(eq, s, es)
    decreases |es|
  {
    if es != [] {
      var n := |es| - 1;
      var l := es[n];
      var d := AddAll(eq, [], es[..n]);
      var r := AddAll(eq, s, es[..n]);
      assert s + es == s + es[..n] + [l];
      LawsOnPart(eq, s + es, s + es[..n]);
      AddAllAbsorb(eq, s, es[..n]);
      if Has(eq, d, l) {
        AbsorbFound(eq, s, es[..n], l);
      } else {
        assert (d + [l])[..|d|] == d;
      }
    }
  }

  // ----- removing many elements ------------------------------------------------

  /** The set after removing the elements of `c` one at a time, in order. */
  function RemoveEach<A(==)>(eq: (A, A) -> bool, s: seq<Elem<A>>, c: seq<Elem<A>>): seq<Elem<A>>
    decreases |c|
  {
    if c == [] then s else Without(eq, RemoveEach(eq, s, c[..|c| - 1]), c[|c| - 1])
  }

  /** In a duplicate-free set, under the laws, removing the elements of `c` leaves
      exactly the elements with no equal element in `c`, still free of duplicates. */
  lemma {:induction false} RemoveEachMembers<A>(eq: (A, A) -> bool, s: seq<Elem<A>>, c: seq<Elem<A>>)
    requires Laws(eq, s + c) && Distinct(eq, s)
    ensures Distinct(eq, RemoveEach(eq, s, c))
    ensures NoRepeats(RemoveEach(eq, s, c))
    ensures forall x :: x in RemoveEach(eq, s, c) <==> x in s && !Has(eq, c, x)
    decreases |c|
  {
    var xs := s + c;
    forall i | 0 <= i < |s| ensures Reflexive(eq, s[i]) {
      assert s[i] in xs;
    }
    DistinctNoRepeats(eq, s);
    if c != [] {
      var n := |c| - 1;
      var e := c[n];
      LawsOnPart(eq, xs, s + c[..n]);
      RemoveEachMembers(eq, s, c[..n]);
      var r := RemoveEach(eq, s, c[..n]);
      assert NoRepeats(r);
      assert Distinct(eq, r);
      assert forall x :: x in r ==> x in s;
      forall y | y in r + [e] ensures y in xs {
        if y in r {
          assert y in s && !Has(eq, c[..n], y);
        }
      }
      LawsOnPart(eq, xs, r + [e]);
      WithoutKeepsDistinct(eq, r, e);
      WithoutMembers(eq, r, e);
      assert c == c[..n] + [e];
      forall x | x in s ensures Has(eq, c, x) <==> Has(eq, c[..n], x) || Element.Equal(eq, e, x) {
        HasConcat(eq, c[..n], [e], x);
        assert Has(eq, [e], x) <==> Element.Equal(eq, x, [e][0]);
        assert x in xs && e in xs;
        UseSymetric(eq, xs, x, e);
      }
    }
  }

  // ----- popping ---------------------------------------------------------------

  /** The set after taking out position `i`, the others keeping their order. */
  function PopAt<T>(s: seq<T>, i: nat): (r: seq<T>)
    requires i < |s|
    ensures |r| == |s| - 1
    ensures multiset(r) == multiset(s) - multiset{s[i]}
  {
    assert s == s[..i] + [s[i]] + s[i + 1..];
    s[..i] + s[i + 1..]
  }

  /** Random choices for successive pops from a set of `n` elements: each is a valid
      position of the set as it is at that point. */
  ghost predicate ValidPicks(n: nat, picks: seq<nat>)
  {
    && |picks| <= n
    && forall k :: 0 <= k < |picks| ==> picks[k] < n - k
  }

  /** The elements returned by popping with the given choices, in order. */
  function Drain<T>(s: seq<T>, picks: seq<nat>): seq<T>
    requires ValidPicks(|s|, picks)
    decreases |picks|
  {
    if picks == [] then []
    else
      assert ValidPicks(|s| - 1, picks[1..]) by {
        forall k | 0 <= k < |picks| - 1 ensures picks[1..][k] < |s| - 1 - k {
          assert picks[k + 1] < |s| - (k + 1);
        }
      }
      [s[picks[0]]] + Drain(PopAt(s, picks[0]), picks[1..])
  }

  /** Popping as many times as there are elements returns each element exactly as
      often as the set holds it, whatever the random choices. */
  lemma {:induction false} DrainMultiset<T>(s: seq<T>, picks: seq<nat>)
    requires ValidPicks(|s|, picks) && |picks| == |s|
    ensures multiset(Drain(s, picks)) == multiset(s)
    decreases |picks|
  {
    if picks != [] {
      var p := picks[0];
      var rest := PopAt(s, p);
      assert ValidPicks(|rest|, picks[1..]) by {
        forall k | 0 <= k < |picks| - 1 ensures picks[1..][k] < |rest| - k {
          assert picks[k + 1] < |s| - (k + 1);
        }
      }
      DrainMultiset(rest, picks[1..]);
      var d := Drain(s, picks);
      assert d == [s[p]] + Drain(rest, picks[1..]);
      assert multiset(d) == multiset{s[p]} + multiset(rest);
      assert s[p] in multiset(s);
      forall x ensures multiset(d)[x] == multiset(s)[x] { }
      MultisetExt(multiset(d), multiset(s));
    }
  }

  /** Popping until the set is empty returns each element exactly as often as the
      set holds it, and from a set without repeated values, `n` pops return `n`
      different values. */
  lemma DrainAll<T>(s: seq<T>, picks: seq<nat>)
    requires ValidPicks(|s|, picks) && |picks| == |s|
    ensures multiset(Drain(s, picks)) == multiset(s)
    ensures NoRepeats(s) ==> NoRepeats(Drain(s, picks))
  {
    DrainMultiset(s, picks);
    NoRepeatsCount(s);
    NoRepeatsCount(Drain(s, picks));
  }

  /** What `RemoveIf` keeps: if `o` splits, counted with multiplicity, into the
      elements of `s`, none satisfying `f`, and a part `gone` all satisfying `f`,
      then `s` holds exactly the elements of `o` that `f` rejects. */
  lemma KeptByFilter<T>(o: seq<T>, s: seq<T>, gone: multiset<T>, f: T -> bool)
    requires multiset(s) + gone == multiset(o)
    requires forall k :: 0 <= k < |s| ==> !f(s[k])
    requires forall x :: x in gone ==> f(x)
    ensures multiset(s) == multiset(Filter(o, Not(f)))
  {
    var m := multiset(Filter(o, Not(f)));
    forall x ensures multiset(s)[x] == m[x] {
      FilterCount(o, Not(f), x);
      assert Not(f)(x) == !f(x);
      assert multiset(o)[x] == multiset(s)[x] + gone[x];
      if f(x) {
        forall k | 0 <= k < |s| ensures s[k] != x { }
        assert x !in multiset(s);
      } else {
        assert x !in gone;
      }
    }
    MultisetExt(multiset(s), m);
  }

  /** One removal step of `RemoveIf`: swap-removing a rejected element at `i` keeps
      the checked prefix and moves the element from the set to the removed part. */
  lemma RemoveIfStep<T>(s: seq<T>, i: nat, gone: multiset<T>, f: T -> bool)
    requires i < |s| && f(s[i])
    requires forall k :: 0 <= k < i ==> !f(s[k])
    ensures forall k :: 0 <= k < i ==> !f(SwapRemove(s, i)[k])
    ensures multiset(SwapRemove(s, i)) + (gone + multiset{s[i]}) == multiset(s) + gone
  {
    SwapRemoveMultiset(s, i);
    var a := multiset(SwapRemove(s, i)) + (gone + multiset{s[i]});
    assert s[i] in multiset(s);
    forall x ensures a[x] == (multiset(s) + gone)[x] { }
    MultisetExt(a, multiset(s) + gone);
  }

  // ----- the set object ----------------------------------------------------------

  /** `Pop` and `RemoveIf` keep a set free of equal pairs: what remains keeps no
      more occurrences than the set had. */
  lemma RemovalsKeepDistinct<A>(eq: (A, A) -> bool, s: seq<Elem<A>>, i: nat, r: seq<Elem<A>>, f: Elem<A> -> bool)
    requires Distinct(eq, s)
    ensures i < |s| ==> Distinct(eq, PopAt(s, i))
    ensures multiset(r) == multiset(Filter(s, Not(f))) ==> Distinct(eq, r)
  {
    if i < |s| {
      DistinctSub(eq, s, PopAt(s, i));
    }
    if multiset(r) == multiset(Filter(s, Not(f))) {
      FilterSub(s, Not(f));
      DistinctSub(eq, s, r);
    }
  }

  /** A set whose value the pointer-receiver methods replace. */
  class SetM<A(==)> {
    var elems: seq<Elem<A>>

    /** The zero value: the empty set. */
    constructor Empty()
      ensures elems == []
    {
      elems := [];
    }

    /** `Copy`: a newly allocated set with the same elements (a shallow copy). */
    constructor Copy(s: seq<Elem<A>>)
      ensures elems == s
    {
      elems := s;
    }

    /** Adds `e` unless an equal element is present; reports whether it did. */
    method Add(eq: (A, A) -> bool, e: Elem<A>) returns (added: bool)
      modifies this
      ensures added <==> !Has(eq, old(elems), e)
      ensures elems == Insert(eq, old(elems), e)
    {
      var found := HasElement(eq, elems, e);
      if found {
        return false;
      }
      elems := elems + [e];
      return true;
    }

    /** Adds each of `es` in order; reports whether anything was added. The scan
        first looks for an argument that is missing and only then copies the set. */
    method AddV(eq: (A, A) -> bool, es: seq<Elem<A>>) returns (added: bool)
      modifies this
      ensures added <==> exists k :: 0 <= k < |es| && !Has(eq, old(elems), es[k])
      ensures elems == AddAll(eq, old(elems), es)
    {
      var r := elems;
      var i := 0;
      while true
        invariant 0 <= i <= |es| && elems == r
        invariant AddAll(eq, r, es[..i]) == r
        decreases |es| - i
      {
        if i == |es| {
          assert es[..i] == es;
          AddAllPresent(eq, r, es);
          return false;
        }
        var found := HasElement(eq, r, es[i]);
        AddAllNext(eq, r, es, i, r, found);
        if !found {
          break;
        }
        i := i + 1;
      }
      ghost var first := i;
      var s := r + [es[i]];
      i := i + 1;
      while i < |es|
        invariant first < i <= |es| && !Has(eq, r, es[first])
        invariant s == AddAll(eq, r, es[..i])
      {
        var found := HasElement(eq, s, es[i]);
        AddAllNext(eq, r, es, i, s, found);
        if !found {
          s := s + [es[i]];
        }
        i := i + 1;
      }
      assert es[..i] == es;
      assert 0 <= first < |es| && !Has(eq, r, es[first]);
      elems := s;
      return true;
    }

    /** Removes the first element equal to `e` by swapping in the last element;
        reports whether there was one. */
    method Remove(eq: (A, A) -> bool, e: Elem<A>) returns (found: bool)
      modifies this
      ensures found <==> Has(eq, old(elems), e)
      ensures elems == Without(eq, old(elems), e)
    {
      var i := 0;
      while i < |elems|
        invariant 0 <= i <= |elems| && elems == old(elems)
        invariant forall k :: 0 <= k < i ==> !Element.Equal(eq, e, elems[k])
      {
        if Element.Equal(eq, e, elems[i]) {
          var s := elems;
          var last := |s| - 1;
          s := s[i := s[last]][last := s[i]];
          elems := s[..last];
          assert MatchIndex(eq, old(elems), e) == i;
          return true;
        }
        i := i + 1;
      }
      return false;
    }

    /** Removes every element satisfying `f`, each by swapping in the current last
        element; the kept elements may change order. Reports whether anything was
        removed. */
    method RemoveIf(f: Elem<A> -> bool) returns (removed: bool)
      modifies this
      ensures forall k :: 0 <= k < |elems| ==> !f(elems[k])
      ensures multiset(elems) == multiset(Filter(old(elems), Not(f)))
      ensures removed <==> exists k :: 0 <= k < |old(elems)| && f(old(elems)[k])
    {
      var s := elems;
      ghost var gone: multiset<Elem<A>> := multiset{};
      removed := false;
      var i := 0;
      while i < |s|
        invariant 0 <= i <= |s|
        invariant forall k :: 0 <= k < i ==> !f(s[k])
        invariant multiset(s) + gone == multiset(old(elems))
        invariant forall x :: x in gone ==> f(x)
        invariant removed <==> gone != multiset{}
        invariant !removed ==> s == old(elems)
        decreases |s| - i
      {
        if f(s[i]) {
          var last := |s| - 1;
          ghost var s0 := s;
          s := s[i := s[last]][last := s[i]];
          s := s[..last];
          SwapTruncate(s0, i);
          RemoveIfStep(s0, i, gone, f);
          gone := gone + multiset{s0[i]};
          removed := true;
        } else {
          i := i + 1;
        }
      }
      KeptByFilter(old(elems), s, gone, f);
      if removed {
        ghost var x :| x in gone;
        assert x in multiset(old(elems));
      }
      elems := s;
    }

    /** Removes and returns the element at the randomly chosen position `i`, the
        others shifting down one place; on the empty set returns nothing. */
    method Pop(i: nat) returns (e: Option<Elem<A>>, ok: bool)
      requires elems != [] ==> i < |elems|
      modifies this
      ensures old(elems) == [] ==> !ok && e == None && elems == old(elems)
      ensures old(elems) != [] ==> ok && e == Some(old(elems)[i]) && elems == PopAt(old(elems), i)
    {
      var s := elems;
      if |s| == 0 {
        return None, false;
      }
      e := Some(s[i]);
      var k := i;
      while k < |s| - 1
        invariant i <= k <= |s| - 1 && |s| == |elems|
        invariant forall j :: 0 <= j < i ==> s[j] == elems[j]
        invariant forall j :: i <= j < k ==> s[j] == elems[j + 1]
        invariant forall j :: k <= j < |s| ==> s[j] == elems[j]
      {
        s := s[k := s[k + 1]];
        k := k + 1;
      }
      var last := |s| - 1;
      elems := s[..last];
      ok := true;
    }

    /** Makes the set empty. */
    method Clear()
      modifies this
      ensures elems == []
    {
      elems := [];
    }

    /** Removes each element of `c` in turn. */
    method DifferenceR(eq: (A, A) -> bool, c: seq<Elem<A>>)
      modifies this
      ensures elems == RemoveEach(eq, old(elems), c)
    {
      for i := 0 to |c|
        invariant elems == RemoveEach(eq, old(elems), c[..i])
      {
        assert c[..i + 1][..i] == c[..i];
        var _ := Remove(eq, c[i]);
      }
      assert c[..|c|] == c;
    }

    /** Adds each element of `t` in turn. */
    method UnionR(eq: (A, A) -> bool, t: seq<Elem<A>>)
      modifies this
      ensures elems == AddAll(eq, old(elems), t)
    {
      for i := 0 to |t|
        invariant elems == AddAll(eq, old(elems), t[..i])
      {
        assert t[..i + 1][..i] == t[..i];
        var _ := Add(eq, t[i]);
      }
      assert t[..|t|] == t;
    }
  }
}
