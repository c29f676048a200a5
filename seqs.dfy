/** Generic facts about sequences that the set operations rely on: order-preserving
    filtering, removal of a position by swapping in the last element, sequences
    without repeated values, and permutations of positions (the pigeonhole
    principle). Nothing here depends on the element type of the sets. */
module Seqs {

  /** The elements of `s` for which `p` holds, in their original order. */
  function Filter<T>(s: seq<T>, p: T -> bool): (r: seq<T>)
    ensures |r| <= |s|
    decreases |s|
  {
    if s == [] then []
    else Filter(s[..|s| - 1], p) + (if p(s[|s| - 1]) then [s[|s| - 1]] else [])
  }

  /** The complement of a predicate. */
  function Not<T>(p: T -> bool): T -> bool
  {
    x => !p(x)
  }

  /** Membership in a filtered sequence. */
  lemma {:induction false} FilterMembers<T>(s: seq<T>, p: T -> bool)
    ensures forall x :: x in Filter(s, p) <==> x in s && p(x)
    ensures forall i :: 0 <= i < |Filter(s, p)| ==> Filter(s, p)[i] in s && p(Filter(s, p)[i])
    decreases |s|
  {
    if s != [] {
      var n := |s| - 1;
      FilterMembers(s[..n], p);
      assert s == s[..n] + [s[n]];
    }
    var r := Filter(s, p);
    forall i | 0 <= i < |r| ensures r[i] in s && p(r[i]) {
      assert r[i] in r;
    }
  }

  /** Two multisets that count every value alike are equal. */
  lemma MultisetExt<T>(a: multiset<T>, b: multiset<T>)
    requires forall x :: a[x] == b[x]
    ensures a == b
  {
  }

  /** Filtering keeps an element as often as `s` holds it, or drops it entirely. */
  lemma {:induction false} FilterCount<T>(s: seq<T>, p: T -> bool, x: T)
    ensures multiset(Filter(s, p))[x] == if p(x) then multiset(s)[x] else 0
    decreases |s|
  {
    if s != [] {
      var n := |s| - 1;
      var t, y := s[..n], s[n];
      var tail := if p(y) then [y] else [];
      FilterCount(t, p, x);
      assert s == t + [y];
      assert Filter(s, p) == Filter(t, p) + tail;
      assert multiset(s)[x] == multiset(t)[x] + multiset([y])[x];
      assert multiset(Filter(s, p))[x] == multiset(Filter(t, p))[x] + multiset(tail)[x];
    }
  }

  /** Filtering by `p` and by its complement splits `s` into two parts that together
      hold every element of `s` exactly as often as `s` does. */
  lemma FilterPartition<T>(s: seq<T>, p: T -> bool)
    ensures multiset(Filter(s, p)) + multiset(Filter(s, Not(p))) == multiset(s)
  {
    var both := multiset(Filter(s, p)) + multiset(Filter(s, Not(p)));
    forall x ensures both[x] == multiset(s)[x] {
      FilterCount(s, p, x);
      FilterCount(s, Not(p), x);
      assert Not(p)(x) == !p(x);
    }
    MultisetExt(both, multiset(s));
  }

  /** Two predicates that agree on the elements of `s` filter it identically. */
  lemma {:induction false} FilterAgrees<T>(s: seq<T>, p: T -> bool, q: T -> bool)
    requires forall x :: x in s ==> p(x) == q(x)
    ensures Filter(s, p) == Filter(s, q)
    decreases |s|
  {
    if s != [] {
      var n := |s| - 1;
      assert forall x :: x in s[..n] ==> x in s;
      FilterAgrees(s[..n], p, q);
    }
  }

  /** A predicate that holds of every element keeps the whole sequence. */
  lemma {:induction false} FilterKeepsAll<T>(s: seq<T>, p: T -> bool)
    requires forall x :: x in s ==> p(x)
    ensures Filter(s, p) == s
    decreases |s|
  {
    if s != [] {
      var n := |s| - 1;
      var t := s[..n];
      forall x | x in t ensures p(x) {
        var i :| 0 <= i < |t| && t[i] == x;
        assert s[i] == x;
      }
      FilterKeepsAll(t, p);
      assert s[n] in s;
      assert s == t + [s[n]];
    }
  }

  /** No value occurs at two positions of `s`. */
  ghost predicate NoRepeats<T>(s: seq<T>)
  {
    forall i, j :: 0 <= i < |s| && 0 <= j < |s| && i != j ==> s[i] != s[j]
  }

  /** A sequence has no repeats exactly when every value occurs in it at most once. */
  lemma {:induction false} NoRepeatsCount<T>(s: seq<T>)
    ensures NoRepeats(s) <==> forall x :: multiset(s)[x] <= 1
    decreases |s|
  {
    if s != [] {
      var n := |s| - 1;
      NoRepeatsCount(s[..n]);
      assert s == s[..n] + [s[n]];
      if NoRepeats(s) {
        assert NoRepeats(s[..n]);
        assert s[n] !in s[..n];
      } else {
        var i, j :| 0 <= i < |s| && 0 <= j < |s| && i != j && s[i] == s[j];
        if i < n && j < n {
          assert !NoRepeats(s[..n]) by {
            assert s[..n][i] == s[..n][j];
          }
          var y :| multiset(s[..n])[y] > 1;
          assert multiset(s)[y] > 1;
        } else {
          var k := if i < n then i else j;
          assert s[..n][k] == s[n];
          assert multiset(s)[s[n]] > 1;
        }
      }
    }
  }

  /** Filtering cannot introduce repeats. */
  lemma FilterNoRepeats<T>(s: seq<T>, p: T -> bool)
    requires NoRepeats(s)
    ensures NoRepeats(Filter(s, p))
  {
    NoRepeatsCount(s);
    forall x ensures multiset(Filter(s, p))[x] <= 1 {
      FilterCount(s, p, x);
    }
    NoRepeatsCount(Filter(s, p));
  }

  /** Two sequences without repeats that hold the same values hold them equally often. */
  lemma SameMembersSameMultiset<T>(a: seq<T>, b: seq<T>)
    requires NoRepeats(a) && NoRepeats(b)
    requires forall x :: x in a <==> x in b
    ensures multiset(a) == multiset(b)
  {
    NoRepeatsCount(a);
    NoRepeatsCount(b);
    forall x ensures multiset(a)[x] == multiset(b)[x] {
      assert x in a <==> x in multiset(a);
      assert x in b <==> x in multiset(b);
    }
  }

  /** A sub-multiset as large as the whole is the whole. */
  lemma SubMultisetSameSize<T>(a: multiset<T>, b: multiset<T>)
    requires a <= b && |a| == |b|
    ensures a == b
  {
    var d := b - a;
    forall x ensures (a + d)[x] == b[x] { }
    MultisetExt(a + d, b);
    assert |d| == 0;
  }

  /** Filtering keeps at most the occurrences `s` has. */
  lemma FilterSub<T>(s: seq<T>, p: T -> bool)
    ensures multiset(Filter(s, p)) <= multiset(s)
  {
    forall x ensures multiset(Filter(s, p))[x] <= multiset(s)[x] {
      FilterCount(s, p, x);
    }
  }

  /** `s` with position `i` overwritten by the last element and the last position cut
      off: removal in constant time, at the cost of the order. */
  function SwapRemove<T>(s: seq<T>, i: nat): (r: seq<T>)
    requires i < |s|
    ensures |r| == |s| - 1
    ensures forall k :: 0 <= k < |r| ==> r[k] == if k == i then s[|s| - 1] else s[k]
  {
    s[i := s[|s| - 1]][..|s| - 1]
  }

  /** Swapping position `i` with the last position and truncating is swap-removal. */
  lemma SwapTruncate<T>(s: seq<T>, i: nat)
    requires i < |s|
    ensures s[i := s[|s| - 1]][|s| - 1 := s[i]][..|s| - 1] == SwapRemove(s, i)
  {
  }

  /** Swap-removal drops exactly one occurrence of the removed value. */
  lemma SwapRemoveMultiset<T>(s: seq<T>, i: nat)
    requires i < |s|
    ensures multiset(SwapRemove(s, i)) == multiset(s) - multiset{s[i]}
  {
    var n := |s| - 1;
    var u := s[i := s[n]];
    assert u == u[..n] + [u[n]];
    assert multiset(u) == multiset(u[..n]) + multiset{s[n]};
    assert multiset(u) == multiset(s) - multiset{s[i]} + multiset{s[n]};
    assert u[..n] == SwapRemove(s, i);
    var m := multiset(s) - multiset{s[i]};
    forall x ensures multiset(u[..n])[x] == m[x] {
      assert multiset(u)[x] == multiset(u[..n])[x] + multiset{s[n]}[x];
      assert multiset(u)[x] == m[x] + multiset{s[n]}[x];
    }
    MultisetExt(multiset(u[..n]), m);
  }

  /** Swap-removal keeps the values of the other positions, each at one position. */
  lemma SwapRemoveMembers<T>(s: seq<T>, i: nat)
    requires i < |s| && NoRepeats(s)
    ensures NoRepeats(SwapRemove(s, i))
    ensures forall x :: x in SwapRemove(s, i) <==> x in s && x != s[i]
  {
    SwapRemoveMultiset(s, i);
    NoRepeatsCount(s);
    var r := SwapRemove(s, i);
    forall x ensures multiset(r)[x] <= 1 {
      assert multiset(r)[x] <= multiset(s)[x];
    }
    NoRepeatsCount(r);
    forall x ensures x in r <==> x in s && x != s[i] {
      assert x in r <==> x in multiset(r);
      assert x in s <==> x in multiset(s);
      if x == s[i] {
        assert multiset(s)[x] == 1;
      }
    }
  }

  /** Two positions of `t`, whose occurrences `s` all has, correspond to two
      positions of `s` holding the same values. */
  lemma TwoPositions<T>(s: seq<T>, t: seq<T>, i: nat, j: nat) returns (a: nat, b: nat)
    requires multiset(t) <= multiset(s) && i < |t| && j < |t| && i != j
    ensures a < |s| && b < |s| && a != b && s[a] == t[i] && s[b] == t[j]
  {
    assert t[i] in multiset(t);
    a := OtherPosition(s, |s|, t[i]);
    OtherOccurrence(t, i, j);
    assert (multiset(t) - multiset{t[i]})[t[j]] <= (multiset(s) - multiset{s[a]})[t[j]];
    b := OtherPosition(s, a, t[j]);
  }

  /** A value that `s` holds apart from one occurrence at position `a` (none when
      `a` is out of range) sits at another position. */
  lemma OtherPosition<T>(s: seq<T>, a: nat, y: T) returns (b: nat)
    requires y in multiset(s) - (if a < |s| then multiset{s[a]} else multiset{})
    ensures b < |s| && b != a && s[b] == y
  {
    if a < |s| {
      SwapRemoveMultiset(s, a);
      var r := SwapRemove(s, a);
      var d :| 0 <= d < |r| && r[d] == y;
      b := if d == a then |s| - 1 else d;
    } else {
      b :| 0 <= b < |s| && s[b] == y;
    }
  }

  /** The value at position `j` is still there once the occurrence at `i` is taken. */
  lemma OtherOccurrence<T>(t: seq<T>, i: nat, j: nat)
    requires i < |t| && j < |t| && i != j
    ensures t[j] in multiset(t) - multiset{t[i]}
  {
    SwapRemoveMultiset(t, i);
    var c := if j == |t| - 1 then i else j;
    assert SwapRemove(t, i)[c] == t[j];
  }

  /** Two sequences without repeats, of the same length, the first's values all in
      the second, hold the same values. */
  lemma IncludedSameSize<T>(a: seq<T>, b: seq<T>)
    requires NoRepeats(a) && NoRepeats(b) && |a| == |b|
    requires forall y :: y in a ==> y in b
    ensures multiset(a) == multiset(b)
  {
    NoRepeatsCount(a);
    NoRepeatsCount(b);
    forall x ensures multiset(a)[x] <= multiset(b)[x] {
      assert x in a <==> x in multiset(a);
      assert x in b <==> x in multiset(b);
    }
    SubMultisetSameSize(multiset(a), multiset(b));
  }

  /** Pigeonhole principle: `|f|` distinct values below `m` need `|f| <= m`. */
  lemma {:induction false} InjectionBound(f: seq<int>, m: int)
    requires 0 <= m
    requires forall k :: 0 <= k < |f| ==> 0 <= f[k] < m
    requires NoRepeats(f)
    ensures |f| <= m
    decreases |f|
  {
    if f != [] {
      var n := |f| - 1;
      var v := f[n];
      var g := seq(n, k requires 0 <= k < n => if f[k] > v then f[k] - 1 else f[k]);
      forall i, j | 0 <= i < n && 0 <= j < n && i != j ensures g[i] != g[j] {
        assert f[i] != f[j] && f[i] != v && f[j] != v;
      }
      forall k | 0 <= k < n ensures 0 <= g[k] < m - 1 {
        assert f[k] != v;
      }
      InjectionBound(g, m - 1);
    }
  }

  /** Pigeonhole principle: `|f|` distinct values below `|f|` take every such value. */
  lemma InjectionOnto(f: seq<int>)
    requires forall k :: 0 <= k < |f| ==> 0 <= f[k] < |f|
    requires NoRepeats(f)
    ensures forall v :: 0 <= v < |f| ==> v in f
  {
    forall v | 0 <= v < |f| ensures v in f {
      if v !in f {
        var g := seq(|f|, k requires 0 <= k < |f| => if f[k] > v then f[k] - 1 else f[k]);
        forall i, j | 0 <= i < |f| && 0 <= j < |f| && i != j ensures g[i] != g[j] {
          assert f[i] != f[j] && f[i] != v && f[j] != v;
        }
        forall k | 0 <= k < |f| ensures 0 <= g[k] < |f| - 1 {
          assert f[k] != v;
        }
        InjectionBound(g, |f| - 1);
      }
    }
  }

  /** `perm` lists every position below `n` exactly once. */
  ghost predicate IsPermutation(perm: seq<int>, n: int)
  {
    && |perm| == n
    && (forall k :: 0 <= k < |perm| ==> 0 <= perm[k] < n)
    && NoRepeats(perm)
  }

  /** The elements of `s` at the positions listed in `f`, in that order. */
  function Gather<T>(s: seq<T>, f: seq<int>): (r: seq<T>)
    requires forall k :: 0 <= k < |f| ==> 0 <= f[k] < |s|
    ensures |r| == |f|
    ensures forall k :: 0 <= k < |f| ==> r[k] == s[f[k]]
  {
    seq(|f|, k requires 0 <= k < |f| => s[f[k]])
  }

  /** Taking the position of the largest index out of a permutation of `n + 1`
      positions leaves a permutation of `n` positions. */
  lemma PermutationWithout(perm: seq<int>, n: nat, j: nat)
    requires IsPermutation(perm, n + 1) && j < |perm| && perm[j] == n
    ensures IsPermutation(perm[..j] + perm[j + 1..], n)
  {
    var rest := perm[..j] + perm[j + 1..];
    forall k | 0 <= k < |rest| ensures rest[k] == perm[if k < j then k else k + 1] {
    }
    forall k | 0 <= k < |rest| ensures 0 <= rest[k] < n {
      var k' := if k < j then k else k + 1;
      assert rest[k] == perm[k'] && k' != j;
    }
    forall a, b | 0 <= a < |rest| && 0 <= b < |rest| && a != b ensures rest[a] != rest[b] {
      var a' := if a < j then a else a + 1;
      var b' := if b < j then b else b + 1;
      assert rest[a] == perm[a'] && rest[b] == perm[b'];
    }
  }

  /** Gathering along `f` splits around any one of its positions. */
  lemma GatherSplit<T>(s: seq<T>, f: seq<int>, j: nat)
    requires forall k :: 0 <= k < |f| ==> 0 <= f[k] < |s|
    requires j < |f|
    ensures Gather(s, f) == Gather(s, f[..j]) + [s[f[j]]] + Gather(s, f[j + 1..])
  {
  }

  /** Gathering from a prefix of `s` along positions that all lie in that prefix. */
  lemma GatherPrefix<T>(s: seq<T>, n: nat, a: seq<int>, b: seq<int>)
    requires n <= |s|
    requires forall k :: 0 <= k < |a| ==> 0 <= a[k] < n
    requires forall k :: 0 <= k < |b| ==> 0 <= b[k] < n
    ensures Gather(s[..n], a + b) == Gather(s, a) + Gather(s, b)
  {
  }

  /** Gathering along `perm` from `s` is gathering from the prefix of `s` along
      `perm` without the position `j` of the last index, plus the last element. */
  lemma GatherAround<T>(s: seq<T>, perm: seq<int>, j: nat)
    requires |s| > 0
    requires forall k :: 0 <= k < |perm| ==> 0 <= perm[k] < |s|
    requires j < |perm| && perm[j] == |s| - 1
    requires forall k :: 0 <= k < |perm| && k != j ==> perm[k] < |s| - 1
    ensures multiset(Gather(s, perm))
         == multiset(Gather(s[..|s| - 1], perm[..j] + perm[j + 1..])) + multiset{s[|s| - 1]}
  {
    var n := |s| - 1;
    var a, b := perm[..j], perm[j + 1..];
    var ga, gb := Gather(s, a), Gather(s, b);
    assert multiset(Gather(s, perm)) == multiset(ga) + multiset{s[n]} + multiset(gb) by {
      GatherSplit(s, perm, j);
    }
    assert multiset(Gather(s[..n], a + b)) == multiset(ga) + multiset(gb) by {
      forall k | 0 <= k < |a| ensures 0 <= a[k] < n {
        assert a[k] == perm[k];
      }
      forall k | 0 <= k < |b| ensures 0 <= b[k] < n {
        assert b[k] == perm[j + 1 + k];
      }
      GatherPrefix(s, n, a, b);
    }
  }

  /** Visiting `s` in the order of a permutation visits every element as often as
      `s` holds it. */
  lemma {:induction false} PermutedMultiset<T>(s: seq<T>, perm: seq<int>)
    requires IsPermutation(perm, |s|)
    ensures multiset(Gather(s, perm)) == multiset(s)
    decreases |s|
  {
    if s != [] {
      var n := |s| - 1;
      InjectionOnto(perm);
      assert n in perm;
      var j :| 0 <= j < |perm| && perm[j] == n;
      PermutationWithout(perm, n, j);
      forall k | 0 <= k < |perm| && k != j ensures perm[k] < n {
        assert perm[k] != perm[j];
      }
      GatherAround(s, perm, j);
      PermutedMultiset(s[..n], perm[..j] + perm[j + 1..]);
      assert s == s[..n] + [s[n]];
    }
  }
}
