# phpLINQ `EnumerableBase` in Dafny

This is a model of `EnumerableBase`, the abstract PHP class of phpLINQ where every LINQ-style
sequence operator lives. Examples are `where`, `select`, `distinct`, `intersect`, `orderBy` and
`singleOrDefault`.

A phpLINQ sequence is a PHP `Iterator`. The operators walk it with `valid()`, `current()` and
`next()`, and most of them return a lazy generator. The model gives the sequence a fixed list
of items and a cursor position:

- `Enumerables.EnumerableBase` is a class with `const items` and `var pos`.
- Every operator is a method that runs the source's loop over that cursor.
- Each method states two things:
  - what it returns, as a function of `Remaining()`, the elements the cursor has not passed yet;
  - where it leaves the cursor.
- A generator is modelled as drained: the method returns the list the generator yields, and the
  cursor ends where draining leaves it.
- Short-circuiting operators leave the cursor exactly where the source's loop stops; every
  final position is stated exactly. `all`, `any`, `contains`, `takeWhile` and `firstOrDefault`
  advance the cursor before they test an element, and state the position through
  `Sequences.StopAfter`. `take` and `elementAtOrDefault` state it with their own closed
  formulas, and `sequenceEqual` through `Sequences.MismatchIndex`.

A callback argument is an `Arg`: null, a non-callable value, or a callable with a declared
parameter count. Each operator validates it the way `checkForFunctionOrThrow` does and
substitutes the null defaults the same way. Each thrown exception is a `Failure` naming its
message, and the cursor does not move, except in `singleOrDefault`, which throws only after it
has consumed the sequence.

The module layout:

- **Callbacks** (`callbacks.dfy`): the argument checks, the default comparer, sort algorithm and
  predicate, and the overload rule of `firstOrDefault`, `lastOrDefault` and `singleOrDefault`.
- **Sequences** (`sequences.dfy`): the pure functions that specify the operators, and their
  lemmas.
- **Sorting** (`sorting.dfy`): the sort that stands in for PHP's `usort`, sortedness, and
  uniqueness of sorted permutations.
- **Enumerables** (`enumerable_base.dfy`): the class and the operators over int sequences.
- **Scenarios** (`scenarios.dfy`): client code that chains operators on fresh sequences.

Paths below are relative to the repository root.

## Model

| member | source | states |
|---|---|---|
| Callbacks.CheckForFunctionOrThrow | System/Collections/Generic/EnumerableBase.php:122-146 | Passes exactly when the argument is null with `ignoreNull` set, or is a callable with exactly `argCount` parameters; otherwise the error is "Function with argCount arguments required". |
| Callbacks.DefaultComparer | System/Collections/Generic/EnumerableBase.php:362-364 | The default comparer holds exactly for equal values. |
| Callbacks.GetComparerSafe | System/Collections/Generic/EnumerableBase.php:360-368 | A null comparer becomes value equality; a callable comparer is used unchanged. |
| Callbacks.DefaultSortAlgo | System/Collections/Generic/EnumerableBase.php:370-386 | The default sort algorithm returns -1, 0 or 1, negative exactly when x < y, zero exactly when equal, positive exactly when x > y. |
| Callbacks.GetSortAlgoSafe | System/Collections/Generic/EnumerableBase.php:370-386 | A null algorithm becomes the three-way default; a callable one is used unchanged. |
| Callbacks.ToPredicateSafe | System/Collections/Generic/EnumerableBase.php:985-993 | A null predicate becomes the constant `defValue`; a callable one is used unchanged. |
| Callbacks.ResolvePredicateArgs | System/Collections/Generic/EnumerableBase.php:330-339 | A single argument that is neither null nor callable is the default value, and the predicate is then null; otherwise the arguments keep their positions. |
| Callbacks.BadPredicateArgs | System/Collections/Generic/EnumerableBase.php:330-341 | The calls the three *OrDefault operators reject: a lone callable of the wrong arity, or a second argument next to a predicate that is neither null nor a one-parameter callable. |
| Callbacks.ResolvedPredicateCheck | System/Collections/Generic/EnumerableBase.php:330-341 | After the overload rule, the predicate check fails exactly on those rejected calls. |
| Enumerables.EnumerableBase.constructor | System/Linq/Enumerable.php:32-38 | A new sequence over the given items starts with the cursor at the first element. |
| Enumerables.EnumerableBase.IsValid | System/Collections/Generic/EnumerableBase.php:1033 | `valid()`: the cursor is on an element, that is, some element remains. |
| Enumerables.EnumerableBase.Current | System/Collections/Generic/EnumerableBase.php:217 | `current()`: defined only on a valid cursor, it is the first remaining element. |
| Enumerables.EnumerableBase.Next | System/Collections/Generic/EnumerableBase.php:585 | `next()` moves the cursor one element forward, and not past the end. |
| Enumerables.EnumerableBase.Rewind | System/Collections/Generic/EnumerableBase.php:708 | `rewind()` puts the cursor back on the first element, so every item remains. |
| Enumerables.EnumerableBase.Reset | System/Collections/Generic/EnumerableBase.php:688-691 | `reset()` rewinds and returns the same sequence object. |
| Enumerables.EnumerableBase.All | System/Collections/Generic/EnumerableBase.php:38-51 | With a one-parameter callable (null refused), all() is true exactly when every remaining element satisfies it. The cursor stops just past the first failing element. |
| Enumerables.EnumerableBase.Any | System/Collections/Generic/EnumerableBase.php:57-72 | any() is true exactly when some remaining element satisfies the predicate; a null predicate counts every element. The cursor stops just past the first match. |
| Enumerables.EnumerableBase.Contains | System/Collections/Generic/EnumerableBase.php:180-195 | contains() is true exactly when comparer(e, item) holds for some remaining e (null means value equality). The cursor stops just past the first match. |
| Enumerables.EnumerableBase.Where | System/Collections/Generic/EnumerableBase.php:1039-1043 | where() checks for a one-parameter callable (null refused) and yields, in order, exactly the remaining elements that satisfy it. |
| Enumerables.EnumerableBase.WhereInner | System/Collections/Generic/EnumerableBase.php:1045-1055 | The generator yields the filter of the remaining elements and drains the sequence. |
| Enumerables.EnumerableBase.Select | System/Collections/Generic/EnumerableBase.php:714-718 | select() checks for a one-parameter callable (null refused) and yields selector(e) for every remaining e, in order. |
| Enumerables.EnumerableBase.SelectInner | System/Collections/Generic/EnumerableBase.php:720-726 | The generator yields the elementwise image of the remaining elements. |
| Enumerables.EnumerableBase.SelectMany | System/Collections/Generic/EnumerableBase.php:732-736 | selectMany() checks a one-parameter callable and yields the concatenation of the lists it returns, in order. |
| Enumerables.EnumerableBase.SelectManyInner | System/Collections/Generic/EnumerableBase.php:738-747 | The generator yields each returned list's elements in order (inner foreach), element after element. |
| Enumerables.EnumerableBase.TakeWhile | System/Collections/Generic/EnumerableBase.php:902-906 | takeWhile() yields the longest prefix that satisfies the predicate. The cursor stops just past the first failing element. |
| Enumerables.EnumerableBase.TakeWhileInner | System/Collections/Generic/EnumerableBase.php:908-919 | The generator yields that prefix and consumes exactly one element more when one fails. |
| Enumerables.EnumerableBase.Take | System/Collections/Generic/EnumerableBase.php:888-896 | take(count) fails with "count value is invalid!" when count < 0; otherwise it yields the first count elements (all when fewer) and consumes one element past them. |
| Enumerables.EnumerableBase.SkipWhile | System/Collections/Generic/EnumerableBase.php:840-844 | As written, skipWhile() yields every remaining element that fails the predicate, anywhere in the sequence (see Findings). |
| Enumerables.EnumerableBase.SkipWhileInner | System/Collections/Generic/EnumerableBase.php:846-857 | The generator as written: it yields exactly the elements that fail the predicate, and drains the sequence. |
| Enumerables.EnumerableBase.Skip | System/Collections/Generic/EnumerableBase.php:787-795 | skip(count) fails on count < 0; otherwise it yields the remaining elements after the first count (none when fewer) and drains the sequence. |
| Enumerables.EnumerableBase.ElementAtOrDefault | System/Collections/Generic/EnumerableBase.php:282-296 | The element at `index` of the remaining ones, or the default when the index is negative or too large. The cursor stops just past it; a negative index consumes nothing. |
| Enumerables.EnumerableBase.Count | System/Collections/Generic/EnumerableBase.php:202-211 | count() is the number of remaining elements and drains the sequence. |
| Enumerables.EnumerableBase.ToArray | System/Collections/Generic/EnumerableBase.php:942-951 | toArray() is the remaining elements in order, and drains the sequence. |
| Enumerables.EnumerableBase.DefaultIfEmpty | System/Collections/Generic/EnumerableBase.php:223-239 | The remaining elements when there are any, otherwise exactly the default values passed. |
| Enumerables.EnumerableBase.Concat | System/Collections/Generic/EnumerableBase.php:152-174 | concat() yields this sequence's remaining elements followed by the other's, and drains both; a sequence concatenated with itself yields its elements once. |
| Enumerables.EnumerableBase.Zip | System/Collections/Generic/EnumerableBase.php:1061-1066 | zip() checks for a two-parameter callable (null refused) and yields selector(a[i], b[i]) up to the shorter length. The cursor moves by that length. |
| Enumerables.EnumerableBase.ZipInner | System/Collections/Generic/EnumerableBase.php:1068-1076 | The generator advances both cursors in step and stops when one runs out; both move by the shorter length. |
| Enumerables.EnumerableBase.SequenceEqual | System/Collections/Generic/EnumerableBase.php:753-781 | True exactly when both have the same length and comparer holds pairwise. The cursor stops just past the first mismatch. |
| Enumerables.EnumerableBase.Distinct | System/Collections/Generic/EnumerableBase.php:245-251 | distinct() checks a two-parameter comparer or null, and yields each element that matches no element kept before it. |
| Enumerables.EnumerableBase.DistinctInner | System/Collections/Generic/EnumerableBase.php:253-276 | The generator keeps the list of elements yielded so far and yields exactly the distinct pass of the remaining elements. |
| Enumerables.EnumerableBase.Except | System/Collections/Generic/EnumerableBase.php:302-309 | except() yields the remaining elements that no element of distinct(second) matches. |
| Enumerables.EnumerableBase.ExceptInner | System/Collections/Generic/EnumerableBase.php:311-324 | For each element, the exclusion sequence is reset and searched with contains(); the element is yielded exactly when it is not found. |
| Enumerables.EnumerableBase.Intersect | System/Collections/Generic/EnumerableBase.php:431-438 | intersect() works against the pool distinct(second): an element is yielded when some pool element matches it, and that pool element is used up. |
| Enumerables.EnumerableBase.FindMatch | System/Collections/Generic/EnumerableBase.php:447-456 | The inner foreach finds the first pool element v with comparer(v, e), or reports none. |
| Enumerables.EnumerableBase.IntersectInner | System/Collections/Generic/EnumerableBase.php:440-462 | The generator yields the intersect pass: on each match it unsets the matched pool element. |
| Enumerables.EnumerableBase.Union | System/Collections/Generic/EnumerableBase.php:999-1002 | union() is distinct() over the concatenation; a wrong comparer fails before either sequence is consumed. |
| Enumerables.EnumerableBase.FirstOrDefault | System/Collections/Generic/EnumerableBase.php:330-358 | After the overload rule and the check, the first remaining element satisfying the predicate (any element under null), else the default. The cursor stops just past it. "Function with 1 arguments required!" is raised exactly on the rejected calls of BadPredicateArgs. |
| Enumerables.EnumerableBase.FirstOrDefaultWith | System/Collections/Generic/EnumerableBase.php:342-357 | The same loop with the predicate and default already resolved. |
| Enumerables.EnumerableBase.LastOrDefault | System/Collections/Generic/EnumerableBase.php:474-500 | After the overload rule and the check, the last matching element, else the default; drains the sequence. "Function with 1 arguments required!" is raised exactly on the rejected calls of BadPredicateArgs. |
| Enumerables.EnumerableBase.LastOrDefaultWith | System/Collections/Generic/EnumerableBase.php:485-499 | The same loop with the predicate and default already resolved. |
| Enumerables.EnumerableBase.SingleOrDefault | System/Collections/Generic/EnumerableBase.php:801-834 | After the overload rule and the check, "Sequence contains more than one matching element!" when two or more match; otherwise the only match, or the default. It drains the sequence. "Function with 1 arguments required!" is raised exactly on the rejected calls of BadPredicateArgs. |
| Enumerables.EnumerableBase.SingleOrDefaultWith | System/Collections/Generic/EnumerableBase.php:812-833 | The same loop with the predicate and default already resolved. |
| Enumerables.Sum | System/Collections/Generic/EnumerableBase.php:863-882 | sum() is the default when nothing remains, else the sum of the remaining elements from the first one. |
| Enumerables.Multiply | System/Collections/Generic/EnumerableBase.php:560-579 | multiply() is the default when nothing remains, else the product of the remaining elements. |
| Enumerables.Product | System/Collections/Generic/EnumerableBase.php:680-682 | product() is multiply(). |
| Enumerables.Min | System/Collections/Generic/EnumerableBase.php:533-554 | min() is the default when nothing remains, else the smallest remaining element (MinIsLeast). |
| Enumerables.Max | System/Collections/Generic/EnumerableBase.php:506-527 | max() is the default when nothing remains, else the largest remaining element (MaxIsGreatest). |
| Enumerables.OrderByInner | System/Collections/Generic/EnumerableBase.php:644-665 | Buffers one [key(e), e] pair per remaining element, sorts the pairs with the callback as written, algo(x[0], y[1]), and yields the elements. The result is a permutation of the remaining elements, which is the part of the source's behaviour that holds for every selector. The exact order stated is that of the insertion sort standing in for usort, run on this callback (see Findings). |
| Enumerables.OrderBy | System/Collections/Generic/EnumerableBase.php:619-626 | The selector must be a one-parameter callable (null refused), otherwise "Function with 1 arguments required". The algorithm must be two-parameter or null. Then the result is orderByInner with the safe algorithm. |
| Enumerables.OrderByDescending | System/Collections/Generic/EnumerableBase.php:632-642 | The same checks, then orderByInner with the algorithm's results multiplied by -1. |
| Enumerables.Order | System/Collections/Generic/EnumerableBase.php:610-613 | order(): a permutation of the remaining elements, sorted under the algorithm when that is connex (of any two values one compares at most 0 against the other), and ascending under the default. |
| Enumerables.OrderDescending | System/Collections/Generic/EnumerableBase.php:671-674 | orderDescending(): a permutation, sorted under the negated algorithm when that is connex, and descending under the default. |
| Sequences.FirstIndex | System/Collections/Generic/EnumerableBase.php:39-50 | The index of the first element satisfying the test is at most the length. |
| Sequences.FirstIndexSpec | System/Collections/Generic/EnumerableBase.php:39-50 | That index holds the first element satisfying the test, and no earlier element satisfies it. |
| Sequences.FirstIndexIs | System/Collections/Generic/EnumerableBase.php:39-50 | Any index with that property is the first index. |
| Sequences.StopAfter | System/Collections/Generic/EnumerableBase.php:57-72 | A short-circuit loop that advances before testing consumes one element more than the index of the first hit, or everything. |
| Sequences.SubsequenceMembers | System/Collections/Generic/EnumerableBase.php:1045-1055 | Every element of a subsequence occurs in the sequence. |
| Sequences.Filter | System/Collections/Generic/EnumerableBase.php:1045-1055 | Filtering never lengthens the sequence. |
| Sequences.FilterSatisfies | System/Collections/Generic/EnumerableBase.php:1045-1055 | Every element where() yields satisfies the predicate. |
| Sequences.FilterAppend | System/Collections/Generic/EnumerableBase.php:1045-1055 | Filtering distributes over concatenation. |
| Sequences.FilterSnoc | System/Collections/Generic/EnumerableBase.php:1045-1055 | One more element is kept exactly when it satisfies the predicate. |
| Sequences.FilterExtend | System/Collections/Generic/EnumerableBase.php:1045-1055 | The same for a slice of the items grown by one. |
| Sequences.FilterIsSubsequence | System/Collections/Generic/EnumerableBase.php:1045-1055 | where() yields a subsequence of its input. |
| Sequences.FilterMultiset | System/Collections/Generic/EnumerableBase.php:1045-1055 | where() keeps every occurrence of each satisfying element and none of the others. |
| Sequences.FilterCongruence | System/Collections/Generic/EnumerableBase.php:1045-1055 | Predicates that agree on the elements filter alike. |
| Sequences.MatchedBy | System/Collections/Generic/EnumerableBase.php:448-452 | The test of intersect's inner foreach: pool value v matches element e when comparer(v, e) holds. |
| Sequences.FirstOfFilter | System/Collections/Generic/EnumerableBase.php:330-358 | Some element matches exactly when the filter is non-empty, and the filter's head is the first match: firstOrDefault agrees with where(). |
| Sequences.FilterAllFail | System/Collections/Generic/EnumerableBase.php:1045-1055 | Filtering a list whose every element fails yields nothing. |
| Sequences.FilterAllPass | System/Collections/Generic/EnumerableBase.php:1045-1055 | Filtering returns the list exactly when every element passes. |
| Sequences.Map | System/Collections/Generic/EnumerableBase.php:720-726 | select() yields as many elements as its input, the i-th being selector of the i-th. |
| Sequences.MapFusion | System/Collections/Generic/EnumerableBase.php:720-726 | select(f) followed by select(g) is select of their composition. |
| Sequences.FlatMap | System/Collections/Generic/EnumerableBase.php:738-747 | selectMany's result: the lists of the elements, concatenated in order. |
| Sequences.FlatMapAppend | System/Collections/Generic/EnumerableBase.php:738-747 | selectMany distributes over concatenation. |
| Sequences.FlatMapSnoc | System/Collections/Generic/EnumerableBase.php:738-747 | One more element appends its list. |
| Sequences.FlatMapExtend | System/Collections/Generic/EnumerableBase.php:738-747 | The same for a slice of the items grown by one. |
| Sequences.FlatMapOfSingletons | System/Collections/Generic/EnumerableBase.php:738-747 | selectMany with a one-element list per element is select. |
| Sequences.FlatMapMembers | System/Collections/Generic/EnumerableBase.php:738-747 | A value is yielded exactly when it occurs in the list of some element. |
| Sequences.TakeWhile | System/Collections/Generic/EnumerableBase.php:908-919 | A prefix whose elements all satisfy the predicate, followed by one that fails or by the end. |
| Sequences.DropWhile | System/Collections/Generic/EnumerableBase.php:840-857 | The intended skipWhile: the suffix after that prefix, which starts with a failing element or is empty. |
| Sequences.TakeWhileDropWhile | System/Collections/Generic/EnumerableBase.php:840-919 | takeWhile and the intended skipWhile split the input in two. |
| Sequences.SkipWhileAsWritten | System/Collections/Generic/EnumerableBase.php:846-857 | skipWhile as written equals the intended one exactly when no element after the first failing one satisfies the predicate. |
| Sequences.SkipWhileCounterexample | System/Collections/Generic/EnumerableBase.php:846-857 | On [1, 5, 1] with x < 3 the code yields [5]; the intended result is [5, 1]. |
| Sequences.IsDuplicate | System/Collections/Generic/EnumerableBase.php:259-267 | An element is a duplicate when comparer(e, t) holds for some element t kept so far. |
| Sequences.Contains | System/Collections/Generic/EnumerableBase.php:180-195 | contains(): comparer(e, item) holds for some element e. |
| Sequences.DistinctFrom | System/Collections/Generic/EnumerableBase.php:253-276 | The distinct pass continued from a list of kept elements: each element that is not a duplicate is yielded and kept. |
| Sequences.Distinct | System/Collections/Generic/EnumerableBase.php:245-276 | distinct(): the distinct pass from an empty kept list. |
| Sequences.FreshAgainstCons | System/Collections/Generic/EnumerableBase.php:253-276 | The no-duplicate property of a list with one more element in front. |
| Sequences.DistinctFromNoDuplicates | System/Collections/Generic/EnumerableBase.php:253-276 | No element of the distinct pass matches an element kept before it. |
| Sequences.DistinctNoDuplicates | System/Collections/Generic/EnumerableBase.php:253-276 | distinct() yields no element that matches an earlier one. |
| Sequences.DistinctFromKeepsFresh | System/Collections/Generic/EnumerableBase.php:253-276 | The distinct pass leaves a list without duplicates unchanged. |
| Sequences.DistinctIdempotent | System/Collections/Generic/EnumerableBase.php:253-276 | distinct() of distinct() is distinct(). |
| Sequences.DistinctFromIsSubsequence | System/Collections/Generic/EnumerableBase.php:253-276 | distinct() yields a subsequence of its input. |
| Sequences.SubsequenceDropHead | System/Collections/Generic/EnumerableBase.php:253-276 | A subsequence of the tail is a subsequence of the whole. |
| Sequences.DistinctFromCovers | System/Collections/Generic/EnumerableBase.php:253-276 | Every input element is yielded or matches an element kept. |
| Sequences.DistinctFromAppend | System/Collections/Generic/EnumerableBase.php:253-276 | The distinct pass over a concatenation continues over the second part from what the first part kept. |
| Sequences.UnionExtendsDistinct | System/Collections/Generic/EnumerableBase.php:999-1002 | union() begins with distinct() of the first sequence and then adds the second's elements that match nothing kept. |
| Sequences.DefaultComparerIsEquivalence | System/Collections/Generic/EnumerableBase.php:360-368 | The default comparer of getComparerSafe is reflexive, symmetric and transitive. |
| Sequences.Except | System/Collections/Generic/EnumerableBase.php:311-324 | No yielded element matches an excluded element. |
| Sequences.NotIn | System/Collections/Generic/EnumerableBase.php:317-320 | except's test: an element is kept when the exclusion list contains no match for it. |
| Sequences.DistinctPreservesContains | System/Collections/Generic/EnumerableBase.php:311-324 | Under an equivalence comparer, distinct(b) and b match the same values. |
| Sequences.DistinctContainsOnlyFromInput | System/Collections/Generic/EnumerableBase.php:253-276 | Whatever distinct(b) matches, b matches, for any comparer. |
| Sequences.DistinctContainsAllOfInput | System/Collections/Generic/EnumerableBase.php:253-276 | Under an equivalence comparer, whatever b matches, distinct(b) matches. |
| Sequences.ExceptAgainstDistinct | System/Collections/Generic/EnumerableBase.php:302-324 | Under an equivalence comparer, excluding distinct(b) is excluding b. |
| Sequences.RemoveAt | System/Collections/Generic/EnumerableBase.php:452 | Unsetting a pool entry shortens the pool by one. |
| Sequences.IntersectFrom | System/Collections/Generic/EnumerableBase.php:440-462 | intersect's pass: an element is yielded when some pool value matches it, and the first such value leaves the pool. |
| Sequences.IntersectFromStep | System/Collections/Generic/EnumerableBase.php:440-462 | One step of the intersect pass: a matched element is yielded and its pool match removed; otherwise the pool is unchanged. |
| Sequences.ContainsAfterRemove | System/Collections/Generic/EnumerableBase.php:440-462 | What the pool matches after a removal, it matched before. |
| Sequences.IntersectFromBounds | System/Collections/Generic/EnumerableBase.php:440-462 | intersect() yields a subsequence of its input, no more elements than the pool holds, each matching a pool element. |
| Sequences.Zip | System/Collections/Generic/EnumerableBase.php:1068-1076 | zip yields the shorter length of pairs, the i-th being selector(a[i], b[i]). |
| Sequences.MismatchIndex | System/Collections/Generic/EnumerableBase.php:753-781 | The first index where the comparer fails on the pair: every earlier pair matches. |
| Sequences.MismatchIndexIs | System/Collections/Generic/EnumerableBase.php:753-781 | Any index with that property is the mismatch index. |
| Sequences.Sum | System/Collections/Generic/EnumerableBase.php:863-882 | The sum of a non-empty list, added from the first element on. |
| Sequences.Product | System/Collections/Generic/EnumerableBase.php:560-579 | The product of a non-empty list, multiplied from the first element on. |
| Sequences.Min | System/Collections/Generic/EnumerableBase.php:533-554 | The running minimum of a non-empty list, replaced only by a strictly smaller element. |
| Sequences.Max | System/Collections/Generic/EnumerableBase.php:506-527 | The running maximum of a non-empty list, replaced only by a strictly larger element. |
| Sequences.SumAppend | System/Collections/Generic/EnumerableBase.php:863-882 | The sum of a concatenation is the sum of the sums. |
| Sequences.ProductAppend | System/Collections/Generic/EnumerableBase.php:560-579 | The product of a concatenation is the product of the products. |
| Sequences.MinIsLeast | System/Collections/Generic/EnumerableBase.php:533-554 | min's result is an element and no element is smaller. |
| Sequences.MaxIsGreatest | System/Collections/Generic/EnumerableBase.php:506-527 | max's result is an element and no element is larger. |
| Sequences.FoldsExtend | System/Collections/Generic/EnumerableBase.php:506-579 | One more element extends sum, product, min and max as the loop bodies do. |
| Sorting.MixedAlgoInconsistent | System/Collections/Generic/EnumerableBase.php:658-660 | With the key x => -x and the default algorithm, the callback as written is negative both for (1, 2) and for (2, 1), so it is no order. The callback on both keys orders the pair one way only. |
| Sorting.KeyedAlgoIdentity | System/Collections/Generic/EnumerableBase.php:610-613 | With the identity key, the intended callback on both keys and the callback as written are both the sort algorithm itself. |
| Sorting.KeyedOrderSorted | System/Collections/Generic/EnumerableBase.php:619-665 | Under the intended callback and a connex algorithm, orderBy yields a permutation in which each element's key compares at most 0 against its successor's key. |
| Sorting.MixedAlgoIdentity | System/Collections/Generic/EnumerableBase.php:610-613 | With the identity selector, the callback as written is the sort algorithm itself. |
| Sorting.Negated | System/Collections/Generic/EnumerableBase.php:636-638 | orderByDescending's callback is the sort algorithm's result times -1. |
| Sorting.MixedAlgo | System/Collections/Generic/EnumerableBase.php:658-660 | The callback as written, seen on elements: the first element's key against the second element itself. |
| Sorting.KeyedAlgo | System/Collections/Generic/EnumerableBase.php:658-660 | The evidently intended callback: the sort algorithm on both elements' keys. |
| Sorting.Identity | System/Collections/Generic/EnumerableBase.php:610-613 | The selector order() passes: each element is its own key. |
| Sorting.Tagged | System/Collections/Generic/EnumerableBase.php:648-652 | The buffered entry for an element: the pair [key(e), e]. |
| Sorting.Second | System/Collections/Generic/EnumerableBase.php:662-664 | A buffered pair yields its element, entry [1]. |
| Sorting.PairAlgo | System/Collections/Generic/EnumerableBase.php:658-660 | The usort callback on buffered pairs: algo(x[0], y[1]). |
| Sorting.Insert | System/Collections/Generic/EnumerableBase.php:658-660 | Insertion adds exactly one element. |
| Sorting.InsertionSort | System/Collections/Generic/EnumerableBase.php:658-660 | The sort that stands in for usort returns a permutation of its input. |
| Sorting.InsertTagged | System/Collections/Generic/EnumerableBase.php:644-665 | Inserting a buffered pair is inserting its element under MixedAlgo, then buffering. |
| Sorting.InsertionSortTagged | System/Collections/Generic/EnumerableBase.php:644-665 | Sorting the buffered pairs is sorting the elements under MixedAlgo, then buffering. |
| Sorting.Untagged | System/Collections/Generic/EnumerableBase.php:662-664 | Yielding element [1] of each buffered pair gives back the elements. |
| Sorting.SortedPairsElements | System/Collections/Generic/EnumerableBase.php:644-665 | What orderByInner yields is the elements sorted under MixedAlgo(selector, algo). |
| Sorting.InsertSorted | System/Collections/Generic/EnumerableBase.php:658-660 | Under a connex comparison, insertion into a list whose neighbours are in order keeps its neighbours in order. |
| Sorting.InsertionSortSorted | System/Collections/Generic/EnumerableBase.php:658-660 | Under a connex comparison, every element of the sort's result compares at most 0 against its successor. |
| Sorting.OrderedByIdentitySorted | System/Collections/Generic/EnumerableBase.php:610-613 | order() with a connex algorithm has every element compare at most 0 against its successor under that algorithm. |
| Sorting.DefaultOrderAscending | System/Collections/Generic/EnumerableBase.php:610-613 | order() with the default algorithm is ascending. |
| Sorting.DefaultOrderDescending | System/Collections/Generic/EnumerableBase.php:671-674 | orderDescending() with the default algorithm is descending. |
| Sorting.DefaultSortAlgosAreConnex | System/Collections/Generic/EnumerableBase.php:370-386 | The default algorithm and its negation are connex. |
| Sorting.SortedByDefaultIsAscending | System/Collections/Generic/EnumerableBase.php:370-386 | Sorted under the default algorithm means ascending. |
| Sorting.SortedByNegatedDefaultIsDescending | System/Collections/Generic/EnumerableBase.php:632-642 | Sorted under the negated default algorithm means descending. |
| Sorting.AscendingHead | System/Collections/Generic/EnumerableBase.php:610-613 | Every value of an ascending list is at least its head. |
| Sorting.DescendingHead | System/Collections/Generic/EnumerableBase.php:671-674 | Every value of a descending list is at most its head. |
| Sorting.TailMultiset | System/Collections/Generic/EnumerableBase.php:610-613 | Dropping equal heads keeps equal multisets. |
| Sorting.AscendingPermutationUnique | System/Collections/Generic/EnumerableBase.php:610-613 | Two ascending permutations of each other are equal, so order() does not depend on which sorting algorithm is used. |
| Sorting.DescendingPermutationUnique | System/Collections/Generic/EnumerableBase.php:671-674 | The same for orderDescending(). |
| Scenarios.WhereEven | System/Collections/Generic/EnumerableBase.php:1039-1055 | [1, 2, 3, 4, 5].where(x => x % 2 == 0) yields [2, 4]. |
| Scenarios.EvensOfOneToFive | System/Collections/Generic/EnumerableBase.php:1045-1055 | The filter of [1, 2, 3, 4, 5] by evenness is [2, 4]. |
| Scenarios.OrderByDescendingIdentity | System/Collections/Generic/EnumerableBase.php:632-665 | [1, 2, 3].orderByDescending(identity) yields [3, 2, 1]. |
| Scenarios.DescendingOneToThree | System/Collections/Generic/EnumerableBase.php:671-674 | The only descending arrangement of 1, 2, 3 is [3, 2, 1]. |
| Scenarios.IntersectOnce | System/Collections/Generic/EnumerableBase.php:431-462 | [1, 2, 2, 3].intersect([2, 3, 3]) yields [2, 3], each pool element used once. |
| Scenarios.IntersectOfExample | System/Collections/Generic/EnumerableBase.php:440-462 | The intersect pass of that example against distinct([2, 3, 3]) is [2, 3]. |
| Scenarios.IntersectOfExampleTail | System/Collections/Generic/EnumerableBase.php:440-462 | Its last two elements against the pool left after the first match yield [3]. |
| Scenarios.DistinctOfExample | System/Collections/Generic/EnumerableBase.php:253-276 | distinct([2, 3, 3]) is [2, 3]. |
| Scenarios.MatchesDefault | System/Collections/Generic/EnumerableBase.php:447-456 | Under the default comparer, the first matching pool element is the first equal one. |
| Scenarios.ExceptWithoutComparer | System/Collections/Generic/EnumerableBase.php:302-324 | For every list and second list, except(second) with no comparer yields, in order, exactly the elements that do not occur in second. |
| Scenarios.SingleOrDefaultNoMatch | System/Collections/Generic/EnumerableBase.php:801-834 | [1, 2, 3].singleOrDefault(x => x > 10, 0) returns the default 0, not an error. |
| Scenarios.ZipShorter | System/Collections/Generic/EnumerableBase.php:1061-1076 | zip([1, 2, 3], [10, 20], +) yields [11, 22] and stops at the shorter sequence. |
| Scenarios.WhereThenAll | System/Collections/Generic/EnumerableBase.php:38-51 | For every list and predicate, where(p) followed by all(p) is true. |
| Scenarios.ToArrayThenCount | System/Collections/Generic/EnumerableBase.php:942-951 | toArray() has count() elements, and after reset() a second pass reproduces the first. |
| Scenarios.ConcatCount | System/Collections/Generic/EnumerableBase.php:152-174 | concat(t).count() is count() plus t.count(). |
| Scenarios.SelectTwice | System/Collections/Generic/EnumerableBase.php:714-726 | select(f) followed by select(g) yields what select(x => g(f(x))) yields. |
| Scenarios.DistinctTwice | System/Collections/Generic/EnumerableBase.php:245-276 | distinct() followed by distinct() yields what distinct() yields. |

## Left out

- `cast`, `ofType`: these build PHP code as a string and run it with `eval`; there is no such thing to model.
- `groupBy`, `toDictionary`: they build `Dictionary` and `Grouping` objects, whose classes are not part of this model.
- `reverse`: it calls orderByDescending with a selector that counts down from `PHP_INT_MAX`. orderByInner calls that selector once per element, in order, so the keys are fixed. But the usort callback as written compares the first pair's key with the second pair's element (see Findings), so the comparison is no consistent order and the result of that sort is not determined by the source. A model of reverse would state only the order the stand-in sort happens to pick.
- `average`: it divides into a floating-point number.
- `unionInner`: dead code that never yields; `union` does not call it.
- `key()` and the `Iterator` subclass: `key` is abstract, and no modelled operator uses it; toDictionary, left out above, does. The concrete cursor is the list plus position described above.
- `toEnumerable` returns `false` in the base class, and subclasses wrap a generator in a new sequence. Operators therefore return the drained list. The second sequence of `zip`, `sequenceEqual`, `except` and `intersect` is taken as a list, wrapped in a fresh cursor where the source walks it as a cursor.
- Enumerables.EnumerableBase.Concat: the argument is another sequence object, which may be this one; conversion of a PHP array argument to an `ArrayIterator` is not modelled.
- Laziness: a generator runs only as far as its consumer pulls. The model drains it, so it does not show interleavings of a partly consumed generator with other cursor calls.
- Sorting.InsertionSort: PHP's `usort` is native code outside the repository. A stable insertion sort stands in for it. With the identity selector (order, orderDescending) and the default algorithms, sorted permutations are unique, so the result agrees with any correct sort. For another algorithm, the model proves only that each element compares at most 0 against its successor, and only when the algorithm is connex. It does not assume transitivity, so this is weaker than sorted under a total order. The order among elements the algorithm does not separate may differ from usort's. For a non-identity selector the callback as written is no consistent order (Sorting.MixedAlgoInconsistent), so only the permutation is the source's behaviour; the exact order stated is the stand-in's.
- Enumerables.OrderBy: sortedness is not claimed for a general selector, and neither for OrderByDescending nor OrderByInner. The callback as written compares one pair's key with the other pair's element (see Findings), so for a non-identity selector only the permutation is the source's behaviour. The exact result in the ensures is the stand-in insertion sort run on that callback. Sorting.KeyedOrderSorted states what the intended callback would give.
- Enumerables.OrderByInner: the selector is a pure function, called again for each key. The source calls it once per element.
- Callbacks and elements: a callback is a pure Dafny function. Side effects, exceptions thrown from callbacks and reference arguments are not modelled, and `Arg.arity` stands for reflection's parameter count.
- PHP loose comparison (`==`, `<`, `>` across types) is modelled as value equality and integer order. `sum`, `multiply`, `min`, `max` and the order operators are modelled on int sequences with unbounded integers, so PHP's overflow to float is not modelled.
- Enumerables.EnumerableBase.DefaultIfEmpty: the source yields exactly the arguments passed, one default per argument, so a call without arguments on an empty sequence yields nothing, not a single null. The model follows the source.

## Findings

| source | as written | input that shows it | evidently intended | confidence | as-written member | corrected member |
|---|---|---|---|---|---|---|
| System/Collections/Generic/EnumerableBase.php:846-857 | skipWhileInner tests every element and yields those that fail the predicate, so it is where(not p). | [1, 5, 1] with x < 3: it yields [5]. | Skip the leading run that satisfies the predicate, then yield everything after it: [5, 1]. | medium, not executed | Sequences.SkipWhileCounterexample | Sequences.DropWhile |
| System/Collections/Generic/EnumerableBase.php:658-660 | The usort callback of orderByInner is algo(x[0], y[1]): the first pair's key against the second pair's element. | orderBy(x => -x) on [1, 2] with the default algorithm: the callback is -1 for (1, 2) and -1 for (2, 1), so each element is to come before the other. | Compare the keys of both pairs, algo(x[0], y[0]), so the elements come out ordered by key. | high, not executed | Sorting.MixedAlgoInconsistent | Sorting.KeyedOrderSorted |
