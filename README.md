# A verified model of soniakeys/set

The Go package `set` represents a set as a slice of `Element` values, where
`Element` is an interface with one method, `Equal`. It offers two set types:

- `Set` (set.go) has membership, set equality, adding, removing and the power set.
- `SetM` (setm.go) has the same slice with the usual methods of set libraries:
  - construction from a list;
  - variadic add, remove, conditional remove and random pop;
  - union, intersection, difference and symmetric difference, each in several variants;
  - containment and subset tests;
  - cartesian product, filter, map, power set and flattening;
  - random-order visiting.

Both set types are elements themselves, so sets can be nested.

The model closes the open `Element` interface into one datatype, `Element.Elem`. It has:

- atoms of a caller-chosen type `A`, compared by a caller-supplied relation `eq`;
- the package's `OrderedPair`;
- nested sets, tagged with their dynamic type (`Set` or `SetM`).

`Element.Equal` dispatches as the Go methods of the package's own element types do:

- an atom asks `eq` and refuses non-atoms. This is an assumption about the caller's element types: it is the type assertion that set.go:30-31 calls typical, but a Go `Equal` is user code and could accept a set or a pair;
- a pair compares by structural identity;
- a `Set` requires a `Set` of the same length that holds each of its elements;
- a `SetM` requires a `SetM` of the same length whose elements it holds.

The package asks every `Equal` to be reflexive, symmetric and transitive (set.go:22-28). The model does not assume this globally. Each lemma asks for the laws only over the elements it mentions (`Element.Laws`). For sets with duplicates, symmetry of set equality actually fails, so a global assumption would be contradictory.

Which form each operation takes depends on the Go receiver:

- **Pointer receivers** (`AddElement`, `RemoveElement`, `Add`, `AddV`, `Remove`, `RemoveIf`, `Pop`, `Clear`, `DifferenceR`, `UnionR`) are methods of the classes `BasicSet.Set` and `ExtendedSet.SetM`. Each class has one field, `elems: seq<Elem>`. Each method states its new state through a specification function (`Insert`, `Without`, `AddAll`, `RemoveEach`, `PopAt`), and lemmas prove the properties of those functions.
- **Value receivers** are methods on sequences. Where the source loops, the method loops. Each is proved equal to a specification function, or to a formula, whose meaning is proved separately.

The modules, in dependency order:

- `Seqs` (seqs.dfy): filtering, swap-removal, permutations and injections on plain sequences.
- `Element` (element.dfy): elements, `Equal`, `HasElement`, the three laws.
- `BasicSet` (basic_set.dfy): the `Set` type of set.go, and the example from set_ex_test.go.
- `ExtendedSet` (setm.dfy): the folds `AddAll` and `RemoveEach`, and the `SetM` class.
- `SetAlgebra` (setm_algebra.dfy): the value-receiver operations of setm.go.
- `Flattening` (setm_flatten.dfy): `Flatten`, and `Flatten2` both as written and corrected.
- `Iteration` (setm_iteration.dfy): `Do`, `DoWhile` and the `IterFunc` cursor.

Randomness is a parameter:

- `Pop` receives the index that `rand.Intn` would yield.
- `Do`, `DoWhile` and `IterFunc` receive the permutation that `rand.Perm` would yield.
- `String` prints in a random order, so the example's printed order is one of many. `BasicSet.ExampleSession` states the stored order together with the members.

## Model

| member | source | states |
|---|---|---|
| Element.HasElement | setm.go:286-293 | the loop finds `e` iff some element `ex` has `e.Equal(ex)` (also `Set.HasElement`, set.go:47-54) |
| Element.MatchIndex | set.go:85-95 | the first position whose element equals `e`: it equals `e` and no earlier one does |
| Element.LawsOnPart | set.go:22-28 | the laws on a list carry over to any list of its members |
| Element.HasConcat | set.go:47-54 | membership in `a + b` is membership in `a` or in `b` |
| Element.HasThroughEqual | set.go:47-54 | under the laws, membership is preserved by replacing `x` with an equal element |
| Element.DistinctNoRepeats | set.go:36-42 | a set without equal pairs, over reflexive elements, has no repeated values |
| Element.DistinctEqualSame | set.go:36-42 | two members of a set without equal pairs that are `Equal` are the same position's value |
| Element.NestedReflexive | set.go:59-73 | a set of reflexive elements is itself reflexive (`s.Equal(s)`) |
| Element.ReflexiveEverywhere | set.go:129-131 | if the atom relation is reflexive, every element, nested or not, is reflexive |
| Element.IrreflexiveAtomCaught | set.go:129-131 | `Reflexive` reports false on an atom whose relation is not reflexive |
| Element.PairEqualIsIdentity | setm.go:96-99 | a pair equals exactly the identical pair, Go's `==` on atoms taken as identity |
| Element.PairLaws | setm.go:96-99 | pairs satisfy `Reflexive`, `Symetric` and `Transitive` in every position, Go's `==` on atoms taken as identity |
| Element.MatchMap | set.go:59-73 | a subset test yields, for each element, a position of an equal element in the other set |
| Element.MatchMapInjective | set.go:59-73 | under the laws, that position map of a set without equal pairs is injective |
| Element.SubsetSize | setm.go:347-354 | under the laws, a set without equal pairs is no longer than a set containing it |
| Element.DistinctSub | set.go:36-42 | anything holding no more occurrences than a set without equal pairs is itself without equal pairs |
| Element.NestedEqualSame | set.go:59-73 | two repeat-free sets of the same kind drawn from a set without equal pairs are `Equal` only when they hold the same elements |
| Element.SubsetBothWays | set.go:59-73 | under the laws, equal length plus one-way containment gives containment the other way |
| BasicSet.Set.constructor | set.go:42 | a `Set` holds exactly the given slice |
| BasicSet.Set.AddElement | set.go:76-80 | the new contents are `Insert(old, e)`: unchanged if `e` is present, else `e` appended |
| BasicSet.Set.RemoveElement | set.go:85-95 | the new contents are `Without(old, e)`: the first equal element swapped with the last and truncated |
| BasicSet.Equal | set.go:59-73 | false for a non-`Set` or a different length; otherwise true iff each element of `s` is found in `e` |
| BasicSet.InsertKeepsDistinct | set.go:76-80 | adding keeps a set free of equal pairs, given symmetry between `e` and the members |
| BasicSet.InsertHas | set.go:76-80 | after adding, old members and a reflexive `e` are found; membership is exactly old membership or equality to a new `e` |
| BasicSet.WithoutKeepsDistinct | set.go:85-95 | removing keeps a set free of equal pairs |
| BasicSet.WithoutSize | set.go:85-95 | removing shortens by one and drops one occurrence iff `e` is present, and changes nothing otherwise |
| BasicSet.WithoutMembers | set.go:85-95 | under the laws, the remaining members are exactly the old ones not equal to `e` |
| BasicSet.SubsetsByMask | set.go:112-122 | the doubling construction lists `2^n` subsets; subset `m` holds the elements at the set bits of `m` |
| BasicSet.SubsetsEnds | set.go:112-122 | the first subset is empty and the last is the whole set |
| BasicSet.PowerSetShape | set.go:112-122 | the power set has `2^n` elements, first the empty set, last the set itself, element `m` the subset selected by `m` |
| BasicSet.SubsetsDiffer | set.go:112-122 | over a sequence without repeated values, each enumerated subset is repeat-free and drawn from it, and no two positions hold the same collection |
| BasicSet.PowerSetDistinct | set.go:112-122 | the power set of a set without equal pairs (and without repeated values) has no equal pairs, of either kind, so `2^n` is its cardinality |
| BasicSet.PowerSetHasEnds | set.go:112-122 | the power set contains the empty set, and contains the set when its elements are reflexive |
| BasicSet.PowerSetOfKind | set.go:112-122 | the nested loops compute the doubling construction |
| BasicSet.PowerSet | set.go:112-122 | `Set.PowerSet` returns the power set of `Set`s with its size and its two ends |
| BasicSet.ExampleSession | set_ex_test.go:29-45 | inserting 1,4,4,2,2,3,4 gives {1,4,2,3}; removing 4 gives {1,3,2}; its power set has 8 members and contains it |
| ExtendedSet.AddAllShape | setm.go:59-82 | adding a list keeps the old elements as a prefix and appends at most the list's elements |
| ExtendedSet.AddAllFrom | setm.go:59-82 | every element after adding comes from the set or the list |
| ExtendedSet.AddAllConcat | setm.go:541-549 | adding `a + b` is adding `a` and then `b` |
| ExtendedSet.AddAllPresent | setm.go:59-82 | adding leaves the set unchanged iff every listed element is already present |
| ExtendedSet.AddAllHas | setm.go:59-82 | adding keeps every old member and makes every reflexive listed element a member |
| ExtendedSet.AddAllMembers | setm.go:59-82 | members after adding are old members or listed elements, both ways under the laws |
| ExtendedSet.AddAllDistinct | setm.go:27-33 | under the laws, adding a list keeps a set free of equal pairs |
| ExtendedSet.AddAllDistinctUnchanged | setm.go:27-33 | building from a list without equal pairs returns that list |
| ExtendedSet.AddAllAbsorb | setm.go:534-538 | under the laws, adding the set built from a list is the same as adding the list |
| ExtendedSet.RemoveEachMembers | setm.go:189-193 | under the laws, removing each element of `c` leaves a set whose members are exactly those of `s` not in `c` |
| ExtendedSet.PopAt | setm.go:428-439 | removing position `i` by shifting shortens by one and drops exactly `s[i]` from the multiset |
| ExtendedSet.DrainAll | setm.go:428-439 | popping until empty yields every element of the set exactly once |
| ExtendedSet.KeptByFilter | setm.go:477-491 | what survives the swap-removal loop has the multiset of the elements not satisfying `f` |
| ExtendedSet.RemovalsKeepDistinct | setm.go:428-439 | popping a position, or keeping what `RemoveIf` keeps, leaves a set without equal pairs (also setm.go:477-491) |
| ExtendedSet.SetM.Empty | setm.go:28 | the zero `SetM` is empty |
| ExtendedSet.SetM.Copy | setm.go:127 | a copy holds the same elements |
| ExtendedSet.SetM.Add | setm.go:40-51 | true iff `e` was absent; the new contents are `Insert(old, e)` |
| ExtendedSet.SetM.AddV | setm.go:59-82 | true iff some argument was absent; the new contents are `AddAll(old, es)` |
| ExtendedSet.SetM.Remove | setm.go:460-471 | true iff `e` was present; the new contents are `Without(old, e)` |
| ExtendedSet.SetM.RemoveIf | setm.go:477-491 | no remaining element satisfies `f`; the remainder is, as a multiset, the elements not satisfying `f`; true iff one did |
| ExtendedSet.SetM.Pop | setm.go:428-439 | on an empty set: nothing and false; otherwise the element at the drawn index, true, and that position removed |
| ExtendedSet.SetM.Clear | setm.go:118-121 | the set becomes empty |
| ExtendedSet.SetM.DifferenceR | setm.go:189-193 | the new contents are `RemoveEach(old, c)` |
| ExtendedSet.SetM.UnionR | setm.go:534-538 | the new contents are `AddAll(old, t)` |
| SetAlgebra.NewSetM | setm.go:27-33 | adding each argument to an empty set computes `AddAll([], es)` |
| SetAlgebra.NewSetMIsSet | setm.go:27-33 | under the laws, the result has no equal pairs, contains every argument and is no longer than the list |
| SetAlgebra.CardinalityAddRemove | setm.go:87 | adding raises the cardinality by one iff `e` was absent; removing lowers it by one iff it was present |
| SetAlgebra.IsEmptyNoMembers | setm.go:328 | over reflexive elements, a set is empty iff nothing is a member |
| SetAlgebra.Contains | setm.go:132-139 | true iff every argument is a member; true for no arguments |
| SetAlgebra.Equal | setm.go:224-233 | false for a non-`SetM` or a different length; otherwise true iff each element of `e` is found in `s` |
| SetAlgebra.EqualKindsAgree | setm.go:224-233 | under the laws, for sets without equal pairs, `Set` equality and `SetM` equality agree |
| SetAlgebra.IsSubset | setm.go:347-354 | true iff every element of `s` is found in `t` |
| SetAlgebra.IsSuperset | setm.go:357-359 | true iff every element of `t` is found in `s` |
| SetAlgebra.SubsetBounds | setm.go:347-354 | under the laws, a subset is no larger, and a subset of equal cardinality is the same set |
| SetAlgebra.Difference | setm.go:149-156 | the elements of `s`, in order, that are not found in `t` |
| SetAlgebra.Intersect | setm.go:303-310 | the elements of `s`, in order, that are found in `t` |
| SetAlgebra.DifferenceIntersectPartition | setm.go:149-156 | difference and intersection split `s` as a multiset, with the expected membership of each |
| SetAlgebra.FilterKeepsDistinct | setm.go:149-156 | every order-preserving filter of a set without equal pairs is one: `Difference`, `Intersect`, `DifferenceV`, `IntersectV`, `Filter` |
| SetAlgebra.DifferenceV | setm.go:162-173 | the elements of `s` found in none of the `ts` |
| SetAlgebra.IntersectV | setm.go:314-325 | the elements of `s` found in all of the `ts` |
| SetAlgebra.VariadicForms | setm.go:162-173 | with no sets the variadic forms return `s`; with one set they agree with `Difference` and `Intersect` |
| SetAlgebra.Difference2 | setm.go:178-184 | a copy of `s` with each element of `c` removed |
| SetAlgebra.Intersect2 | setm.go:334-342 | a copy of `s` with each element of `s` not in `t` removed |
| SetAlgebra.Difference2Agrees | setm.go:178-184 | under the laws, `Difference2` has the same elements as `Difference` |
| SetAlgebra.Intersect2Agrees | setm.go:334-342 | under the laws, `Intersect2` has the same elements as `Intersect` |
| SetAlgebra.Union | setm.go:523-529 | `s` with each element of `t` added |
| SetAlgebra.UnionIsSetUnion | setm.go:523-529 | under the laws, the union keeps `s` as a prefix, holds only elements of `s` or `t`, contains all of `t` and has no equal pairs |
| SetAlgebra.UnionV | setm.go:541-549 | `s` with each element of each `t` added, in order |
| SetAlgebra.UnionVSteps | setm.go:541-549 | no sets gives `s`; one more set is one more union |
| SetAlgebra.SymmetricDifference | setm.go:506-516 | the copy-remove-append loop computes `SymDiff(s, t)` |
| SetAlgebra.SymDiffMembers | setm.go:506-516 | under the laws, the result has no equal pairs, and its members are those in exactly one of `s` and `t` |
| SetAlgebra.ProductAt | setm.go:105-115 | position `i*|t|+j` of the product holds `Pair(s[i], t[j])` |
| SetAlgebra.ProductPairs | setm.go:105-115 | every element of the product is a pair of an element of `s` and one of `t` |
| SetAlgebra.ProductIndex | setm.go:105-115 | every position of the product is `i*|t|+j` for a row `i` of `s` and a column `j` of `t` |
| SetAlgebra.ProductDistinct | setm.go:105-115 | the product of two sequences without repeated values has no equal pairs, so `|s|*|t|` is its cardinality, Go's `==` on atoms taken as identity |
| SetAlgebra.CartesianProduct | setm.go:105-115 | the array filled by the nested loops holds the product, `|s|*|t|` pairs in row-major order |
| SetAlgebra.Filter | setm.go:236-243 | the elements of `s`, in order, that satisfy `f` |
| SetAlgebra.Map | setm.go:418-423 | the images `f(e)`, in order, added to an empty set |
| SetAlgebra.MapIsImage | setm.go:418-423 | the image is no larger than `s`, holds only images of elements, and under the laws contains every image |
| SetAlgebra.PowerSet | setm.go:444-454 | `SetM.PowerSet` returns the power set of `SetM`s with its size and its two ends |
| Flattening.Flatten | setm.go:251-260 | the recursive union loop computes `FlattenOf(s)` |
| Flattening.LeavesNoSetM | setm.go:245-250 | no leaf is itself a `SetM` |
| Flattening.FlattenNoSetM | setm.go:245-250 | flattening yields only leaves, so the result has no nested `SetM` |
| Flattening.FlattenIsFlatten2 | setm.go:262-264 | under the laws, `Flatten` builds the set of all leaves in depth-first order, which the corrected `Flatten2` builds |
| Flattening.FlattenIsSet | setm.go:245-250 | under the laws, the flattening has no equal pairs and contains every leaf |
| Flattening.FlattenFlat | setm.go:251-260 | a set with no nested `SetM` is its own leaves, and flattening it builds it afresh |
| Flattening.FlattenIdempotent | setm.go:245-250 | under the laws, flattening a flattened set changes nothing |
| Flattening.ScanWrittenFails | setm.go:265-278 | once the written scan meets a nested `SetM` at or after its position, it exceeds every depth bound |
| Flattening.Flatten2WrittenDiverges | setm.go:265-278 | the written closure rescans the outer set, so with a nested `SetM` it exceeds every bound on recursion depth |
| Flattening.AddAllFront | setm.go:265-278 | adding `[e] + es` is inserting `e` and then adding `es` |
| Flattening.ScanWrittenFlat | setm.go:265-278 | without nested `SetM`s, the written scan from position `k` adds the remaining elements |
| Flattening.Flatten2WrittenFlat | setm.go:265-278 | on a set without nested `SetM`s, the written `Flatten2` finishes and agrees with `Flatten` |
| Flattening.Collect | setm.go:267-275 | the closure, recursing into the set it is given, adds every leaf in order |
| Flattening.Flatten2 | setm.go:265-278 | the corrected `Flatten2` returns the set of all leaves |
| Iteration.Do | setm.go:196-200 | the visitor is called once per position, in permuted order, so on each element as often as it occurs |
| Iteration.DoWhile | setm.go:208-215 | true iff `f` holds for every element; visits stop right after the first rejected element |
| Iteration.Cursor.constructor | setm.go:386-388 | `IterFunc` starts at the first permuted position |
| Iteration.Cursor.Next | setm.go:389-396 | the next permuted element and true, or nothing and false ever after the last |
| Iteration.CursorExhausted | setm.go:386-397 | an exhausted iterator has returned every position exactly once, so every element as often as it occurs |

## Left out

- `Set.String`, `SetM.String` (set.go:98-107, setm.go:494-503): text formatting; only their use of a random order is reflected, in the note on the example.
- `Iter` and `IterBuffered` (setm.go:367-376, 406-413): goroutines and channels. `IterBuffered` sends in a `rand.Perm` order, which is the order of the `IterFunc` cursor. `Iter` sends in stored order, which is that cursor with the identity permutation only.
- Nil elements: `Elem` has no nil value. In Go, `HasElement(nil)` on a non-empty set calls `Equal` on nil and panics, and so does `Map` when `f` returns nil for any element after the first (the first image goes into an empty set without a call of `Equal`); the model has neither case.
- `Element.Equal`: an atom refuses every non-atom argument, which assumes the caller's atom types compare only with their own type (set.go:30-31). The function has no contract of its own; its meaning is in `PairEqualIsIdentity`, `SubsetBothWays`, `EqualKindsAgree`, `NestedReflexive` and `NestedEqualSame`.
- `Flattening.ScanWritten`, `Flattening.Flatten2Written`: the written `Flatten2` (setm.go:265-278) as functions with a depth bound, no contract of their own; their meaning is in `ScanWrittenFails`, `Flatten2WrittenDiverges`, `ScanWrittenFlat` and `Flatten2WrittenFlat`.
- `BasicSet.PowerSetDistinct`: asks that `s` also repeat no value, which follows from having no equal pairs once its elements are reflexive (`DistinctNoRepeats`); a set holding the same irreflexive value twice is not covered.
- Random numbers: `rand.Intn` and `rand.Perm` are parameters, and nothing is claimed about their distribution.
- Slice aliasing. Sequences are values, so in-place writes through a shared backing array are not modelled. This covers `Pop`, `RemoveIf`, `Remove` and `RemoveElement`, which modify the caller's array, and `IterFunc`, whose closure reads the caller's slice on every call, so changes made to it between calls can show up in later results; `Iteration.Cursor` keeps a snapshot instead. It also covers the `append` calls in the two `PowerSet` loops, which can write through spare capacity into an earlier subset once the input has five or more elements. The model computes the intended subsets.
- `OrderedPair.Equal` panics when a component is an uncomparable value, such as a slice. The model compares pairs by structural identity and has no panic.
- `Element.PairEqualIsIdentity`, `Element.PairLaws`, `SetAlgebra.ProductDistinct`: `OrderedPair.Equal` (setm.go:96-99) compares components with Go's `==`, which the model takes to be identity on the atom type `A`. These three lemmas therefore hold only for element types whose `==` is identity. float64 atoms are not such a type: a pair holding NaN is not equal to itself, and the pairs built from +0 and -0 are equal, so a product of sets of floats can hold equal pairs.
- `Iteration.Do`, `Iteration.DoWhile`: the visitor's side effects are not modelled; the sequence of elements it is called on is returned instead.
- `ExtendedSet.SetM.RemoveIf`: states the remaining contents as a multiset, not their order after the swap-removals.
- `SetAlgebra.Difference2Agrees`, `SetAlgebra.Intersect2Agrees`: relate the two algorithms by multiset, not by order, since swap-removal reorders.
- `SetAlgebra.Cardinality`, `SetAlgebra.IsEmpty` (setm.go:87, 328): one-line length tests with no contract of their own; their meaning is in `CardinalityAddRemove` and `IsEmptyNoMembers`.
- The laws named `Reflexive`, `Symetric`, `Transitive` (set.go:129-152) are functions without contracts; they enter through `Element.Laws` and the lemmas that use it.
- doc.go, set_test.go and the floating-point element types of the tests: documentation and test scaffolding.

## Findings

| source | as written | input that shows it | evidently intended | confidence | as-written member | corrected member |
|---|---|---|---|---|---|---|
| setm.go:267-268 | the closure `r` ignores its `SetM` argument and ranges over the outer set `s`, so each recursive call rescans `s` | any set holding a nested `SetM`, such as `SetM{SetM{}}`, recurses without end | range over the argument, recursing into each nested `SetM`, which flattens like `Flatten` | high, not executed | Flattening.Flatten2WrittenDiverges | Flattening.Flatten2 |
