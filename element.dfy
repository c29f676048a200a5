/** The element contract of the package: every value that can sit in a set answers
    `Equal(other)`. The model closes the open interface into one datatype whose
    variants are the element kinds the package itself defines (ordered pairs and
    its two set types) plus atoms of a caller-chosen type `A`, whose equality is
    the caller-supplied relation `eq`. */
module Element {
  import opened Seqs

  /** The dynamic type of a nested set: `Set` of set.go or `SetM` of setm.go. */
  datatype Kind = SetKind | SetMKind

  /** A value that can be an element of a set. */
  datatype Elem<A> =
    | Atom(val: A)
    | Pair(a: Elem<A>, b: Elem<A>)
    | Nested(kind: Kind, elems: seq<Elem<A>>)

  /** Number of constructors in an element; the termination measure of `Equal`. */
  function Size<A>(x: Elem<A>): (n: nat)
    ensures n >= 1
  {
    match x
    case Atom(_) => 1
    case Pair(a, b) => 1 + Size(a) + Size(b)
    case Nested(_, s) => 1 + SeqSize(s)
  }

  /** Total size of the elements of a sequence. */
  function SeqSize<A>(s: seq<Elem<A>>): (n: nat)
    ensures forall i :: 0 <= i < |s| ==> Size(s[i]) <= n
  {
    if s == [] then 0 else SeqSize(s[..|s| - 1]) + Size(s[|s| - 1])
  }

  /** `x.Equal(y)`, dispatched on the dynamic type of the receiver `x`:
      an atom asks the caller's relation and refuses non-atoms; an ordered pair
      uses the host's structural identity on pairs; a `Set` requires a `Set`
      argument of the same length in which each of its own elements is found;
      a `SetM` requires a `SetM` argument of the same length each of whose
      elements is found in the receiver. */
  function Equal<A(==)>(eq: (A, A) -> bool, x: Elem<A>, y: Elem<A>): bool
    decreases Size(x) + Size(y), 0
  {
    match x
    case Atom(v) => y.Atom? && eq(v, y.val)
    case Pair(_, _) => y.Pair? && x == y
    case Nested(SetKind, s) =>
      y.Nested? && y.kind == SetKind && |s| == |y.elems| && Subset(eq, s, y.elems)
    case Nested(SetMKind, s) =>
      y.Nested? && y.kind == SetMKind && |s| == |y.elems| && Subset(eq, y.elems, s)
  }

  /** `s.HasElement(e)`: some element of `s` is equal to `e`, asked as `e.Equal(ex)`. */
  function Has<A(==)>(eq: (A, A) -> bool, s: seq<Elem<A>>, e: Elem<A>): bool
    decreases Size(e) + SeqSize(s), 1
  {
    exists i :: 0 <= i < |s| && Equal(eq, e, s[i])
  }

  /** `s.IsSubset(t)`: every element of `s` is found in `t`. */
  function Subset<A(==)>(eq: (A, A) -> bool, s: seq<Elem<A>>, t: seq<Elem<A>>): bool
    decreases SeqSize(s) + SeqSize(t), 2
  {
    forall j :: 0 <= j < |s| ==> Has(eq, t, s[j])
  }

  /** The reflexive-law validator: `e.Equal(e)`. */
  function Reflexive<A(==)>(eq: (A, A) -> bool, e: Elem<A>): bool
  {
    Equal(eq, e, e)
  }

  /** The symmetric-law validator: `a.Equal(b) == b.Equal(a)`. */
  function Symetric<A(==)>(eq: (A, A) -> bool, a: Elem<A>, b: Elem<A>): bool
  {
    Equal(eq, a, b) == Equal(eq, b, a)
  }

  /** The transitive-law validator: vacuously true unless `a.Equal(b)` and `b.Equal(c)`. */
  function Transitive<A(==)>(eq: (A, A) -> bool, a: Elem<A>, b: Elem<A>, c: Elem<A>): bool
  {
    if Equal(eq, a, b) && Equal(eq, b, c) then Equal(eq, a, c) else true
  }

  /** The three validators hold on every choice of elements drawn from `xs`. This is
      the caller obligation of the package, stated for the elements at hand. */
  ghost predicate Laws<A>(eq: (A, A) -> bool, xs: seq<Elem<A>>)
  {
    && (forall x {:trigger Reflexive(eq, x)} :: x in xs ==> Reflexive(eq, x))
    && (forall x, y {:trigger Symetric(eq, x, y)} :: x in xs && y in xs ==> Symetric(eq, x, y))
    && (forall x, y, z {:trigger Transitive(eq, x, y, z)} ::
          x in xs && y in xs && z in xs ==> Transitive(eq, x, y, z))
  }

  /** The set invariant: no two positions hold equal elements. */
  ghost predicate Distinct<A>(eq: (A, A) -> bool, s: seq<Elem<A>>)
  {
    forall i, j :: 0 <= i < |s| && 0 <= j < |s| && i != j ==> !Equal(eq, s[i], s[j])
  }

  /** Linear scan for an element equal to `e`, stopping at the first one. */
  method HasElement<A(==)>(eq: (A, A) -> bool, s: seq<Elem<A>>, e: Elem<A>) returns (found: bool)
    ensures found == Has(eq, s, e)
  {
    for i := 0 to |s|
      invariant forall k :: 0 <= k < i ==> !Equal(eq, e, s[k])
    {
      if Equal(eq, e, s[i]) {
        return true;
      }
    }
    return false;
  }

  // ----- using the laws -------------------------------------------------------

  lemma UseReflexive<A>(eq: (A, A) -> bool, xs: seq<Elem<A>>, x: Elem<A>)
    requires Laws(eq, xs) && x in xs
    ensures Equal(eq, x, x)
  {
    assert Reflexive(eq, x);
  }

  lemma UseSymetric<A>(eq: (A, A) -> bool, xs: seq<Elem<A>>, x: Elem<A>, y: Elem<A>)
    requires Laws(eq, xs) && x in xs && y in xs
    ensures Equal(eq, x, y) == Equal(eq, y, x)
  {
    assert Symetric(eq, x, y);
  }

  lemma UseTransitive<A>(eq: (A, A) -> bool, xs: seq<Elem<A>>, x: Elem<A>, y: Elem<A>, z: Elem<A>)
    requires Laws(eq, xs) && x in xs && y in xs && z in xs
    requires Equal(eq, x, y) && Equal(eq, y, z)
    ensures Equal(eq, x, z)
  {
    assert Transitive(eq, x, y, z);
  }

  /** The laws on a collection hold on every part of it. */
  lemma LawsOnPart<A>(eq: (A, A) -> bool, xs: seq<Elem<A>>, ys: seq<Elem<A>>)
    requires Laws(eq, xs)
    requires forall y :: y in ys ==> y in xs
    ensures Laws(eq, ys)
  {
  }

  // ----- facts about membership ----------------------------------------------

  /** Membership in a concatenation. */
  lemma HasConcat<A>(eq: (A, A) -> bool, a: seq<Elem<A>>, b: seq<Elem<A>>, x: Elem<A>)
    ensures Has(eq, a + b, x) <==> Has(eq, a, x) || Has(eq, b, x)
  {
    if Has(eq, a + b, x) {
      var i :| 0 <= i < |a + b| && Equal(eq, x, (a + b)[i]);
      if i < |a| {
        assert Equal(eq, x, a[i]);
      } else {
        assert Equal(eq, x, b[i - |a|]);
      }
    }
    if Has(eq, b, x) {
      var i :| 0 <= i < |b| && Equal(eq, x, b[i]);
      assert (a + b)[|a| + i] == b[i];
      assert Equal(eq, x, (a + b)[|a| + i]);
    }
    if Has(eq, a, x) {
      var i :| 0 <= i < |a| && Equal(eq, x, a[i]);
      assert Equal(eq, x, (a + b)[i]);
    }
  }

  /** Under the laws, an element equal to one found in `s` is found in `s` too. */
  lemma HasThroughEqual<A>(eq: (A, A) -> bool, xs: seq<Elem<A>>, s: seq<Elem<A>>, x: Elem<A>, y: Elem<A>)
    requires Laws(eq, xs) && x in xs && y in xs && forall z :: z in s ==> z in xs
    requires Equal(eq, x, y) && Has(eq, s, y)
    ensures Has(eq, s, x)
  {
    var i :| 0 <= i < |s| && Equal(eq, y, s[i]);
    UseTransitive(eq, xs, x, y, s[i]);
  }

  /** Dropping the last element keeps a set duplicate-free, and the dropped element
      is not found in what remains. */
  lemma DistinctLast<A>(eq: (A, A) -> bool, s: seq<Elem<A>>)
    requires s != [] && Distinct(eq, s)
    ensures Distinct(eq, s[..|s| - 1])
    ensures !Has(eq, s[..|s| - 1], s[|s| - 1])
  {
    var n := |s| - 1;
    var t := s[..n];
    forall i, j | 0 <= i < |t| && 0 <= j < |t| && i != j ensures !Equal(eq, t[i], t[j]) {
      assert t[i] == s[i] && t[j] == s[j];
    }
    forall i | 0 <= i < |t| ensures !Equal(eq, s[n], t[i]) {
      assert t[i] == s[i];
    }
  }

  /** A duplicate-free sequence of reflexive elements repeats no value. */
  lemma DistinctNoRepeats<A>(eq: (A, A) -> bool, s: seq<Elem<A>>)
    requires Distinct(eq, s)
    requires forall i :: 0 <= i < |s| ==> Reflexive(eq, s[i])
    ensures NoRepeats(s)
  {
    forall i, j | 0 <= i < |s| && 0 <= j < |s| && i != j ensures s[i] != s[j] {
      assert Reflexive(eq, s[i]) && !Equal(eq, s[i], s[j]);
    }
  }

  /** Within a duplicate-free sequence, equal elements stand at the same position. */
  lemma DistinctEqualSame<A>(eq: (A, A) -> bool, s: seq<Elem<A>>, x: Elem<A>, y: Elem<A>)
    requires Distinct(eq, s) && x in s && y in s && Equal(eq, x, y)
    ensures x == y
  {
    var i :| 0 <= i < |s| && s[i] == x;
    var j :| 0 <= j < |s| && s[j] == y;
    assert i == j;
  }

  /** Whatever keeps no more occurrences than a duplicate-free sequence is itself
      duplicate-free: removals and filters produce sets. */
  lemma DistinctSub<A>(eq: (A, A) -> bool, s: seq<Elem<A>>, t: seq<Elem<A>>)
    requires Distinct(eq, s) && multiset(t) <= multiset(s)
    ensures Distinct(eq, t)
  {
    forall i, j | 0 <= i < |t| && 0 <= j < |t| && i != j ensures !Equal(eq, t[i], t[j]) {
      var a, b := TwoPositions(s, t, i, j);
    }
  }

  /** Within a duplicate-free `s`, a subset test between collections drawn from `s`
      finds each element itself. */
  lemma SubsetOfDistinct<A>(eq: (A, A) -> bool, s: seq<Elem<A>>, a: seq<Elem<A>>, b: seq<Elem<A>>)
    requires Distinct(eq, s) && Subset(eq, a, b)
    requires forall y :: y in a ==> y in s
    requires forall y :: y in b ==> y in s
    ensures forall y :: y in a ==> y in b
  {
    forall y | y in a ensures y in b {
      var i :| 0 <= i < |a| && a[i] == y;
      assert Has(eq, b, a[i]);
      var j :| 0 <= j < |b| && Equal(eq, y, b[j]);
      DistinctEqualSame(eq, s, y, b[j]);
    }
  }

  /** Two sets of the same kind drawn, without repeats, from the elements of a
      duplicate-free `s` are `Equal` only when they hold the same elements. */
  lemma NestedEqualSame<A>(eq: (A, A) -> bool, s: seq<Elem<A>>, k: Kind, u: seq<Elem<A>>, v: seq<Elem<A>>)
    requires Distinct(eq, s) && NoRepeats(u) && NoRepeats(v)
    requires forall y :: y in u ==> y in s
    requires forall y :: y in v ==> y in s
    requires Equal(eq, Nested(k, u), Nested(k, v))
    ensures multiset(u) == multiset(v)
  {
    if k == SetKind {
      SubsetOfDistinct(eq, s, u, v);
      IncludedSameSize(u, v);
    } else {
      SubsetOfDistinct(eq, s, v, u);
      IncludedSameSize(v, u);
    }
  }

  // ----- the law validators on the element kinds -----------------------------

  /** A set (of either type) is equal to itself when its elements are. */
  lemma NestedReflexive<A>(eq: (A, A) -> bool, k: Kind, s: seq<Elem<A>>)
    requires forall i :: 0 <= i < |s| ==> Reflexive(eq, s[i])
    ensures Reflexive(eq, Nested(k, s))
  {
    forall j | 0 <= j < |s| ensures Has(eq, s, s[j]) {
      assert Reflexive(eq, s[j]);
    }
  }

  /** If the caller's relation is reflexive on atoms, every element passes the
      reflexive-law validator, however deeply sets and pairs are nested. */
  lemma {:induction false} ReflexiveEverywhere<A>(eq: (A, A) -> bool, x: Elem<A>)
    requires forall v :: eq(v, v)
    ensures Reflexive(eq, x)
    decreases Size(x)
  {
    match x
    case Atom(v) =>
      assert eq(v, v);
    case Pair(_, _) =>
    case Nested(k, s) =>
      forall i | 0 <= i < |s| ensures Reflexive(eq, s[i]) {
        ReflexiveEverywhere(eq, s[i]);
      }
      NestedReflexive(eq, k, s);
  }

  /** An atom whose relation is not reflexive (a raw floating-point NaN) is caught
      by the reflexive-law validator. */
  lemma IrreflexiveAtomCaught<A>(eq: (A, A) -> bool, v: A)
    requires !eq(v, v)
    ensures !Reflexive(eq, Atom(v))
  {
  }

  /** `OrderedPair.Equal` is identity of the pair, whatever the argument. Go compares
      the components with its own `==`; this takes that `==` to be identity on `A`,
      which it is not for floating-point atoms (NaN, signed zero). */
  lemma PairEqualIsIdentity<A>(eq: (A, A) -> bool, a: Elem<A>, b: Elem<A>, y: Elem<A>)
    ensures Equal(eq, Pair(a, b), y) <==> y == Pair(a, b)
  {
  }

  /** Ordered pairs pass all three validators against any other elements, in any
      position, whatever the caller's relation, given that Go's `==` on the atom
      values is identity on `A`. */
  lemma PairLaws<A>(eq: (A, A) -> bool, a: Elem<A>, b: Elem<A>, y: Elem<A>, z: Elem<A>)
    ensures Reflexive(eq, Pair(a, b))
    ensures Symetric(eq, Pair(a, b), y)
    ensures Transitive(eq, Pair(a, b), y, z)
    ensures Transitive(eq, y, Pair(a, b), z)
    ensures Transitive(eq, y, z, Pair(a, b))
  {
    var p := Pair(a, b);
    assert Equal(eq, y, p) ==> y == p;
    assert Equal(eq, z, p) ==> z == p;
  }

  /** For each position of `s`, the first position of `t` holding an equal element. */
  function MatchMap<A(==)>(eq: (A, A) -> bool, s: seq<Elem<A>>, t: seq<Elem<A>>): (f: seq<int>)
    requires Subset(eq, s, t)
    ensures |f| == |s|
    ensures forall i :: 0 <= i < |s| ==> 0 <= f[i] < |t| && Equal(eq, s[i], t[f[i]])
  {
    seq(|s|, i requires 0 <= i < |s| => MatchIndex(eq, t, s[i]))
  }

  /** Under the laws, different elements of a duplicate-free `s` match different
      positions of `t`. */
  lemma MatchMapInjective<A>(eq: (A, A) -> bool, s: seq<Elem<A>>, t: seq<Elem<A>>)
    requires Laws(eq, s + t) && Distinct(eq, s) && Subset(eq, s, t)
    ensures NoRepeats(MatchMap(eq, s, t))
  {
    var xs := s + t;
    var f := MatchMap(eq, s, t);
    forall a, b | 0 <= a < |s| && 0 <= b < |s| && a != b ensures f[a] != f[b] {
      if f[a] == f[b] {
        var u := t[f[a]];
        assert s[a] in xs && s[b] in xs && u in xs;
        UseSymetric(eq, xs, s[b], u);
        UseTransitive(eq, xs, s[a], u, s[b]);
      }
    }
  }

  /** Pigeonhole: a duplicate-free `s` whose elements all occur in `t` is no longer
      than `t`, when the laws hold. */
  lemma SubsetSize<A>(eq: (A, A) -> bool, s: seq<Elem<A>>, t: seq<Elem<A>>)
    requires Laws(eq, s + t) && Distinct(eq, s) && Subset(eq, s, t)
    ensures |s| <= |t|
  {
    MatchMapInjective(eq, s, t);
    InjectionBound(MatchMap(eq, s, t), |t|);
  }

  /** The reason `Set.Equal` checks only one inclusion: between two sequences of the
      same length, the first duplicate-free, inclusion one way gives inclusion the
      other way once the laws hold on their elements. */
  lemma SubsetBothWays<A>(eq: (A, A) -> bool, s: seq<Elem<A>>, t: seq<Elem<A>>)
    requires Laws(eq, s + t)
    requires Distinct(eq, s)
    requires |s| == |t|
    requires Subset(eq, s, t)
    ensures Subset(eq, t, s)
  {
    var xs := s + t;
    var f := MatchMap(eq, s, t);
    MatchMapInjective(eq, s, t);
    InjectionOnto(f);
    forall j | 0 <= j < |t| ensures Has(eq, s, t[j]) {
      assert j in f;
      var i :| 0 <= i < |f| && f[i] == j;
      assert s[i] in xs && t[j] in xs;
      UseSymetric(eq, xs, s[i], t[j]);
    }
  }

  /** The position of the first element of `s` equal to `e`. */
  function MatchIndex<A(==)>(eq: (A, A) -> bool, s: seq<Elem<A>>, e: Elem<A>): (k: nat)
    requires Has(eq, s, e)
    ensures k < |s| && Equal(eq, e, s[k])
    ensures forall j :: 0 <= j < k ==> !Equal(eq, e, s[j])
  {
    if Equal(eq, e, s[0]) then 0
    else
      assert Has(eq, s[1..], e) by {
        var i :| 0 <= i < |s| && Equal(eq, e, s[i]);
        assert s[1..][i - 1] == s[i];
      }
      1 + MatchIndex(eq, s[1..], e)
  }
}
