/** Visiting the elements of a `SetM` in random order (setm.go): `Do`, `DoWhile`,
    and the iterator function returned by `IterFunc`. The random permutation that
    the package draws is a parameter here; the calls of the visitor are recorded as
    the sequence of elements it is called on. */
module Iteration {
  import opened Seqs
  import opened Element
  import opened ExtendedSet

  /** `Do`: calls the visitor on `s[perm[0]]`, `s[perm[1]]`, ...; returns the
      elements it was called on, which are those of `s`, each exactly once per
      occurrence. */
  method Do<A>(s: seq<Elem<A>>, perm: seq<int>) returns (visited: seq<Elem<A>>)
    requires IsPermutation(perm, |s|)
    ensures visited == Gather(s, perm)
    ensures multiset(visited) == multiset(s)
  {
    visited := [];
    for k := 0 to |perm|
      invariant visited == Gather(s, perm[..k])
    {
      visited := visited + [s[perm[k]]];
    }
    assert perm[..|perm|] == perm;
    PermutedMultiset(s, perm);
  }

  /** `DoWhile`: calls `f` in the permuted order until it returns false. Returns
      whether `f` held for every element, and the elements it was called on: all of
      them when it held throughout, otherwise those up to and including the first
      one it rejected. */
  method DoWhile<A>(s: seq<Elem<A>>, perm: seq<int>, f: Elem<A> -> bool) returns (all: bool, visited: seq<Elem<A>>)
    requires IsPermutation(perm, |s|)
    ensures all <==> forall i :: 0 <= i < |s| ==> f(s[i])
    ensures |visited| <= |s| && visited == Gather(s, perm[..|visited|])
    ensures all ==> |visited| == |s|
    ensures !all ==> |visited| > 0 && !f(visited[|visited| - 1])
    ensures forall k :: 0 <= k < |visited| - 1 ==> f(visited[k])
  {
    visited := [];
    for k := 0 to |perm|
      invariant visited == Gather(s, perm[..k])
      invariant forall m :: 0 <= m < k ==> f(s[perm[m]])
    {
      var e := s[perm[k]];
      visited := visited + [e];
      if !f(e) {
        return false, visited;
      }
    }
    InjectionOnto(perm);
    forall i | 0 <= i < |s| ensures f(s[i]) {
      assert i in perm;
      var m :| 0 <= m < |perm| && perm[m] == i;
    }
    assert perm[..|perm|] == perm;
    return true, visited;
  }

  /** The iterator function returned by `IterFunc`: a cursor over a fixed random
      permutation of the positions of `s`. The set is a snapshot taken when the
      cursor is made, whereas the Go closure reads the caller's slice on each call. */
  class Cursor<A> {
    const s: seq<Elem<A>>
    const perm: seq<int>
    var i: nat
    ghost var yielded: seq<Elem<A>>

    /** The cursor has returned the elements at the first `i` permuted positions. */
    ghost predicate Valid()
      reads this
    {
      && IsPermutation(perm, |s|)
      && i <= |s|
      && yielded == Gather(s, perm[..i])
    }

    /** `IterFunc`: a cursor at the start of the permutation. */
    constructor (s: seq<Elem<A>>, perm: seq<int>)
      requires IsPermutation(perm, |s|)
      ensures Valid() && this.s == s && this.perm == perm && i == 0 && yielded == []
    {
      this.s := s;
      this.perm := perm;
      i := 0;
      yielded := [];
    }

    /** One call of the iterator function: the next element and true, or nothing
        and false once every element has been returned. */
    method Next() returns (e: Option<Elem<A>>, ok: bool)
      requires Valid()
      modifies this
      ensures Valid()
      ensures old(i) < |s| ==> ok && e == Some(s[perm[old(i)]]) && i == old(i) + 1
      ensures old(i) >= |s| ==> !ok && e == None && i == old(i)
      ensures yielded == old(yielded) + (if ok then [e.value] else [])
    {
      if i >= |s| {
        return None, false;
      }
      e := Some(s[perm[i]]);
      assert perm[..i + 1] == perm[..i] + [perm[i]];
      i := i + 1;
      yielded := yielded + [e.value];
      ok := true;
    }
  }

  /** An exhausted cursor has returned each position of `s` exactly once, so each
      element of `s` exactly as often as `s` holds it. */
  lemma CursorExhausted<A>(c: Cursor<A>)
    requires c.Valid() && c.i == |c.s|
    ensures NoRepeats(c.perm[..c.i])
    ensures forall v :: 0 <= v < |c.s| ==> v in c.perm[..c.i]
    ensures multiset(c.yielded) == multiset(c.s)
  {
    assert c.perm[..c.i] == c.perm;
    InjectionOnto(c.perm);
    PermutedMultiset(c.s, c.perm);
  }
}
