/** Pure specifications of what the operators of EnumerableBase compute from the elements a
    cursor has left, and the properties of those specifications. */
module Sequences {
  import Callbacks

  /** The index of the first element satisfying `q`, or |s| when none does. */
  function FirstIndex<T>(s: seq<T>, q: T -> bool): (k: nat)
    ensures k <= |s|
  {
    if |s| == 0 then 0
    else if q(s[0]) then 0
    else 1 + FirstIndex(s[1..], q)
  }

  /** FirstIndex is the index of the first element satisfying `q`, or |s| when there is none. */
  lemma {:induction false} FirstIndexSpec<T>(s: seq<T>, q: T -> bool)
    ensures var k := FirstIndex(s, q);
      (k < |s| ==> q(s[k])) && forall j :: 0 <= j < k ==> !q(s[j])
  {
    if |s| > 0 && !q(s[0]) {
      FirstIndexSpec(s[1..], q);
      forall j | 0 < j < FirstIndex(s, q) ensures !q(s[j]) {
        assert s[j] == s[1..][j - 1];
      }
      if FirstIndex(s, q) < |s| {
        assert s[FirstIndex(s, q)] == s[1..][FirstIndex(s[1..], q)];
      }
    }
  }

  /** FirstIndex is determined by its contract. */
  lemma FirstIndexIs<T>(s: seq<T>, q: T -> bool, k: nat)
    requires k <= |s|
    requires forall j :: 0 <= j < k ==> !q(s[j])
    requires k < |s| ==> q(s[k])
    ensures FirstIndex(s, q) == k
  {
    FirstIndexSpec(s, q);
  }

  /** The negation of a predicate. */
  function Not<T>(p: T -> bool): T -> bool
  {
    x => !p(x)
  }

  /** The values v with comparer(v, x). */
  function MatchedBy<T>(cmp: (T, T) -> bool, x: T): T -> bool
  {
    v => cmp(v, x)
  }

  /** How many elements a loop consumes that calls next() before it tests the element and stops
      at the first element satisfying `q`: up to and including that element, else all. */
  function StopAfter<T>(s: seq<T>, q: T -> bool): (n: nat)
    ensures n <= |s|
    ensures n < |s| ==> FirstIndex(s, q) == n - 1
  {
    var k := FirstIndex(s, q);
    if k < |s| then k + 1 else |s|
  }

  /** `a` is `b` with some elements left out, order kept. */
  ghost predicate IsSubsequence<T>(a: seq<T>, b: seq<T>)
    decreases |b|
  {
    |a| == 0 || (|b| > 0 && ((a[0] == b[0] && IsSubsequence(a[1..], b[1..])) || IsSubsequence(a, b[1..])))
  }

  lemma {:induction false} SubsequenceMembers<T>(a: seq<T>, b: seq<T>)
    requires IsSubsequence(a, b)
    ensures |a| <= |b|
    ensures forall i :: 0 <= i < |a| ==> a[i] in b
    decreases |b|
  {
    if |a| > 0 {
      if a[0] == b[0] && IsSubsequence(a[1..], b[1..]) {
        SubsequenceMembers(a[1..], b[1..]);
        forall i | 0 <= i < |a| ensures a[i] in b {
          if i > 0 { assert a[i] == a[1..][i - 1]; }
        }
      } else {
        SubsequenceMembers(a, b[1..]);
      }
    }
  }

  // ---------------------------------------------------------------- where

  /** The elements of `s` that satisfy `p`, in order. */
  function Filter<T>(s: seq<T>, p: T -> bool): (r: seq<T>)
    ensures |r| <= |s|
  {
    if |s| == 0 then []
    else (if p(s[0]) then [s[0]] else []) + Filter(s[1..], p)
  }

  /** Every element Filter keeps satisfies the predicate. */
  lemma {:induction false} FilterSatisfies<T>(s: seq<T>, p: T -> bool)
    ensures forall i :: 0 <= i < |Filter(s, p)| ==> p(Filter(s, p)[i])
  {
    if |s| > 0 {
      FilterSatisfies(s[1..], p);
      var r := Filter(s, p);
      forall i | 0 <= i < |r| ensures p(r[i]) {
        if p(s[0]) && i > 0 {
          assert r[i] == Filter(s[1..], p)[i - 1];
        } else if !p(s[0]) {
          assert r == Filter(s[1..], p);
        }
      }
    }
  }

  lemma {:induction false} FilterAppend<T>(a: seq<T>, b: seq<T>, p: T -> bool)
    ensures Filter(a + b, p) == Filter(a, p) + Filter(b, p)
  {
    if |a| == 0 {
      assert a + b == b;
    } else {
      assert (a + b)[0] == a[0];
      assert (a + b)[1..] == a[1..] + b;
      FilterAppend(a[1..], b, p);
      var h := if p(a[0]) then [a[0]] else [];
      calc {
        Filter(a + b, p);
        h + Filter(a[1..] + b, p);
        h + (Filter(a[1..], p) + Filter(b, p));
        (h + Filter(a[1..], p)) + Filter(b, p);
      }
    }
  }

  /** One more element at the end: it is kept exactly when it satisfies the predicate. */
  lemma FilterSnoc<T>(s: seq<T>, x: T, p: T -> bool)
    ensures Filter(s + [x], p) == if p(x) then Filter(s, p) + [x] else Filter(s, p)
  {
    FilterAppend(s, [x], p);
    assert Filter([x], p) == if p(x) then [x] else [] by {
      assert [x][1..] == [];
    }
  }

  /** Extending a slice by one element: the new element is kept exactly when it satisfies the
      predicate. */
  lemma FilterExtend<T>(s: seq<T>, lo: nat, hi: nat, p: T -> bool)
    requires lo <= hi < |s|
    ensures Filter(s[lo..hi + 1], p) ==
      if p(s[hi]) then Filter(s[lo..hi], p) + [s[hi]] else Filter(s[lo..hi], p)
  {
    assert s[lo..hi + 1] == s[lo..hi] + [s[hi]];
    FilterSnoc(s[lo..hi], s[hi], p);
  }

  /** Filter's result is a subsequence of its input. */
  lemma {:induction false} FilterIsSubsequence<T>(s: seq<T>, p: T -> bool)
    ensures IsSubsequence(Filter(s, p), s)
  {
    if |s| > 0 {
      FilterIsSubsequence(s[1..], p);
      var r := Filter(s, p);
      if p(s[0]) {
        assert r[0] == s[0] && r[1..] == Filter(s[1..], p);
      } else {
        assert r == Filter(s[1..], p);
      }
    }
  }

  /** Filter keeps every occurrence of every element that satisfies `p` and none other. */
  lemma {:induction false} FilterMultiset<T>(s: seq<T>, p: T -> bool)
    ensures forall x :: multiset(Filter(s, p))[x] == if p(x) then multiset(s)[x] else 0
  {
    if |s| > 0 {
      FilterMultiset(s[1..], p);
      assert s == [s[0]] + s[1..];
      assert multiset(s) == multiset([s[0]]) + multiset(s[1..]);
    }
  }

  /** Filters under predicates that agree on the elements are equal. */
  lemma {:induction false} FilterCongruence<T>(s: seq<T>, p: T -> bool, q: T -> bool)
    requires forall i :: 0 <= i < |s| ==> p(s[i]) == q(s[i])
    ensures Filter(s, p) == Filter(s, q)
  {
    if |s| > 0 {
      FilterCongruence(s[1..], p, q);
    }
  }

  /** The first match is the head of the matches (firstOrDefault against where). */
  lemma {:induction false} FirstOfFilter<T>(s: seq<T>, p: T -> bool)
    ensures |Filter(s, p)| > 0 <==> FirstIndex(s, p) < |s|
    ensures |Filter(s, p)| > 0 ==> Filter(s, p)[0] == s[FirstIndex(s, p)]
  {
    if |s| > 0 {
      FirstOfFilter(s[1..], p);
    }
  }

  // ---------------------------------------------------------------- select, selectMany

  /** `f` applied to every element, in order. */
  function Map<T, U>(s: seq<T>, f: T -> U): (r: seq<U>)
    ensures |r| == |s|
    ensures forall i :: 0 <= i < |s| ==> r[i] == f(s[i])
  {
    if |s| == 0 then [] else [f(s[0])] + Map(s[1..], f)
  }

  /** select(f) followed by select(g) is select of the composition. */
  lemma MapFusion<T, U, W>(s: seq<T>, f: T -> U, g: U -> W)
    ensures Map(Map(s, f), g) == Map(s, x => g(f(x)))
  {
  }

  /** The in-order concatenation of f(x) over the elements x of `s`. */
  function FlatMap<T, U>(s: seq<T>, f: T -> seq<U>): seq<U>
  {
    if |s| == 0 then [] else f(s[0]) + FlatMap(s[1..], f)
  }

  lemma {:induction false} FlatMapAppend<T, U>(a: seq<T>, b: seq<T>, f: T -> seq<U>)
    ensures FlatMap(a + b, f) == FlatMap(a, f) + FlatMap(b, f)
  {
    if |a| == 0 {
      assert a + b == b;
    } else {
      assert (a + b)[1..] == a[1..] + b;
      FlatMapAppend(a[1..], b, f);
    }
  }

  /** One more element at the end contributes its list at the end. */
  lemma FlatMapSnoc<T, U>(s: seq<T>, x: T, f: T -> seq<U>)
    ensures FlatMap(s + [x], f) == FlatMap(s, f) + f(x)
  {
    FlatMapAppend(s, [x], f);
    assert FlatMap([x], f) == f(x) + FlatMap([x][1..], f);
    assert [x][1..] == [];
  }

  /** Extending a slice by one element appends that element's list. */
  lemma FlatMapExtend<T, U>(s: seq<T>, lo: nat, hi: nat, f: T -> seq<U>)
    requires lo <= hi < |s|
    ensures FlatMap(s[lo..hi + 1], f) == FlatMap(s[lo..hi], f) + f(s[hi])
  {
    assert s[lo..hi + 1] == s[lo..hi] + [s[hi]];
    FlatMapSnoc(s[lo..hi], s[hi], f);
  }

  /** selectMany with a selector returning one-element lists is select. */
  lemma {:induction false} FlatMapOfSingletons<T, U>(s: seq<T>, f: T -> U)
    ensures FlatMap(s, x => [f(x)]) == Map(s, f)
  {
    if |s| > 0 {
      FlatMapOfSingletons(s[1..], f);
    }
  }

  /** Every value selectMany yields comes from the list of some element, and every value of
      every element's list is yielded. */
  lemma {:induction false} FlatMapMembers<T, U>(s: seq<T>, f: T -> seq<U>, y: U)
    ensures y in FlatMap(s, f) <==> exists i :: 0 <= i < |s| && y in f(s[i])
  {
    if |s| > 0 {
      FlatMapMembers(s[1..], f, y);
      if y in FlatMap(s[1..], f) {
        var i :| 0 <= i < |s[1..]| && y in f(s[1..][i]);
        assert y in f(s[i + 1]);
      }
      if exists i :: 0 <= i < |s| && y in f(s[i]) {
        var i :| 0 <= i < |s| && y in f(s[i]);
        if i > 0 { assert y in f(s[1..][i - 1]); }
      }
    }
  }

  // ---------------------------------------------------------------- takeWhile, skipWhile

  /** The longest prefix of `s` whose elements all satisfy `p`. */
  function TakeWhile<T>(s: seq<T>, p: T -> bool): (r: seq<T>)
    ensures |r| <= |s| && r == s[..|r|]
    ensures forall i :: 0 <= i < |r| ==> p(r[i])
    ensures |r| < |s| ==> !p(s[|r|])
  {
    FirstIndexSpec(s, Not(p));
    s[..FirstIndex(s, Not(p))]
  }

  /** `s` without its longest prefix of elements satisfying `p`: what skipWhile is evidently
      meant to compute (see SkipWhileAsWritten). */
  function DropWhile<T>(s: seq<T>, p: T -> bool): (r: seq<T>)
    ensures |r| <= |s| && r == s[|s| - |r|..]
    ensures forall i :: 0 <= i < |s| - |r| ==> p(s[i])
    ensures |r| > 0 ==> !p(r[0])
  {
    FirstIndexSpec(s, Not(p));
    s[FirstIndex(s, Not(p))..]
  }

  /** takeWhile and the intended skipWhile split the input. */
  lemma TakeWhileDropWhile<T>(s: seq<T>, p: T -> bool)
    ensures TakeWhile(s, p) + DropWhile(s, p) == s
  {
  }

  /** skipWhile as written keeps the elements that fail `p` wherever they stand; it agrees with
      DropWhile exactly when no element after the leading run satisfies `p`. */
  lemma {:induction false} SkipWhileAsWritten<T>(s: seq<T>, p: T -> bool)
    ensures Filter(s, Not(p)) == DropWhile(s, p) <==>
      forall i :: |s| - |DropWhile(s, p)| <= i < |s| ==> !p(s[i])
  {
    var k := |s| - |DropWhile(s, p)|;
    var np := Not(p);
    FilterAppend(s[..k], s[k..], np);
    assert s == s[..k] + s[k..];
    FilterAllFail(s[..k], np);
    assert Filter(s, np) == Filter(s[k..], np);
    FilterAllPass(s[k..], np);
  }

  lemma {:induction false} FilterAllFail<T>(s: seq<T>, p: T -> bool)
    requires forall i :: 0 <= i < |s| ==> !p(s[i])
    ensures Filter(s, p) == []
  {
    if |s| > 0 { FilterAllFail(s[1..], p); }
  }

  /** Filter returns its input exactly when every element passes. */
  lemma {:induction false} FilterAllPass<T>(s: seq<T>, p: T -> bool)
    ensures Filter(s, p) == s <==> forall i :: 0 <= i < |s| ==> p(s[i])
  {
    if |s| > 0 {
      FilterAllPass(s[1..], p);
      if !p(s[0]) {
        assert |Filter(s, p)| <= |s[1..]| < |s|;
      } else if Filter(s, p) == s {
        assert Filter(s[1..], p) == s[1..];
      }
    }
  }

  /** The counterexample: on [1, 5, 1] with "x < 3", skipWhile as written yields [5] where the
      leading-run reading yields [5, 1]. */
  lemma SkipWhileCounterexample()
    ensures Filter([1, 5, 1], Not((x: int) => x < 3)) == [5]
    ensures DropWhile([1, 5, 1], (x: int) => x < 3) == [5, 1]
  {
    var s := [1, 5, 1];
    FirstIndexIs(s, Not((x: int) => x < 3), 1);
    assert s[1..][1..] == [1];
    assert s[1..][1..][1..] == [];
  }

  // ---------------------------------------------------------------- distinct, union

  /** `x` matches (comparer(x, t)) an element t of `kept`: distinct's duplicate test. */
  predicate IsDuplicate<T>(kept: seq<T>, x: T, cmp: (T, T) -> bool)
  {
    exists j :: 0 <= j < |kept| && cmp(x, kept[j])
  }

  /** Some element e of `s` matches `x` (comparer(e, x)): the test contains() performs. */
  predicate Contains<T>(s: seq<T>, x: T, cmp: (T, T) -> bool)
  {
    exists j :: 0 <= j < |s| && cmp(s[j], x)
  }

  /** The distinct pass continued from the already kept elements `kept`. */
  function DistinctFrom<T>(s: seq<T>, cmp: (T, T) -> bool, kept: seq<T>): seq<T>
  {
    if |s| == 0 then []
    else if IsDuplicate(kept, s[0], cmp) then DistinctFrom(s[1..], cmp, kept)
    else [s[0]] + DistinctFrom(s[1..], cmp, kept + [s[0]])
  }

  /** distinct: each element that matches no earlier kept element, in order. */
  function Distinct<T>(s: seq<T>, cmp: (T, T) -> bool): seq<T>
  {
    DistinctFrom(s, cmp, [])
  }

  /** Every element of `a` matches nothing in `kept` nor any element of `a` before it. */
  ghost predicate FreshAgainst<T>(kept: seq<T>, a: seq<T>, cmp: (T, T) -> bool)
  {
    forall j :: 0 <= j < |a| ==> !IsDuplicate(kept + a[..j], a[j], cmp)
  }

  lemma FreshAgainstCons<T>(kept: seq<T>, x: T, a: seq<T>, cmp: (T, T) -> bool)
    ensures FreshAgainst(kept, [x] + a, cmp) <==>
      !IsDuplicate(kept, x, cmp) && FreshAgainst(kept + [x], a, cmp)
  {
    var xa := [x] + a;
    assert kept + xa[..0] == kept;
    if FreshAgainst(kept, xa, cmp) {
      assert !IsDuplicate(kept + xa[..0], xa[0], cmp);
      forall j | 0 <= j < |a| ensures !IsDuplicate((kept + [x]) + a[..j], a[j], cmp) {
        assert (kept + [x]) + a[..j] == kept + xa[..j + 1];
        assert a[j] == xa[j + 1];
        assert !IsDuplicate(kept + xa[..j + 1], xa[j + 1], cmp);
      }
    }
    if !IsDuplicate(kept, x, cmp) && FreshAgainst(kept + [x], a, cmp) {
      forall j | 0 <= j < |xa| ensures !IsDuplicate(kept + xa[..j], xa[j], cmp) {
        if j > 0 {
          assert kept + xa[..j] == (kept + [x]) + a[..j - 1];
          assert xa[j] == a[j - 1];
          assert !IsDuplicate((kept + [x]) + a[..j - 1], a[j - 1], cmp);
        }
      }
    }
  }

  /** No element of the distinct pass matches a kept element or an element it kept before. */
  lemma {:induction false} DistinctFromNoDuplicates<T>(s: seq<T>, cmp: (T, T) -> bool, kept: seq<T>)
    ensures FreshAgainst(kept, DistinctFrom(s, cmp, kept), cmp)
  {
    if |s| > 0 {
      if IsDuplicate(kept, s[0], cmp) {
        assert DistinctFrom(s, cmp, kept) == DistinctFrom(s[1..], cmp, kept);
        DistinctFromNoDuplicates(s[1..], cmp, kept);
      } else {
        var rest := DistinctFrom(s[1..], cmp, kept + [s[0]]);
        assert DistinctFrom(s, cmp, kept) == [s[0]] + rest;
        DistinctFromNoDuplicates(s[1..], cmp, kept + [s[0]]);
        FreshAgainstCons(kept, s[0], rest, cmp);
      }
    }
  }

  /** No output element of distinct matches an earlier one. */
  lemma DistinctNoDuplicates<T>(s: seq<T>, cmp: (T, T) -> bool)
    ensures var r := Distinct(s, cmp);
      forall i, j :: 0 <= i < j < |r| ==> !cmp(r[j], r[i])
  {
    var r := Distinct(s, cmp);
    DistinctFromNoDuplicates(s, cmp, []);
    forall i, j | 0 <= i < j < |r| ensures !cmp(r[j], r[i]) {
      assert !IsDuplicate([] + r[..j], r[j], cmp);
      assert ([] + r[..j])[i] == r[i];
    }
  }

  /** A pass whose every element is new against what came before keeps everything. */
  lemma {:induction false} DistinctFromKeepsFresh<T>(a: seq<T>, cmp: (T, T) -> bool, kept: seq<T>)
    requires FreshAgainst(kept, a, cmp)
    ensures DistinctFrom(a, cmp, kept) == a
  {
    if |a| > 0 {
      assert a == [a[0]] + a[1..];
      FreshAgainstCons(kept, a[0], a[1..], cmp);
      DistinctFromKeepsFresh(a[1..], cmp, kept + [a[0]]);
    }
  }

  /** Applying distinct twice changes nothing. */
  lemma DistinctIdempotent<T>(s: seq<T>, cmp: (T, T) -> bool)
    ensures Distinct(Distinct(s, cmp), cmp) == Distinct(s, cmp)
  {
    DistinctFromNoDuplicates(s, cmp, []);
    DistinctFromKeepsFresh(Distinct(s, cmp), cmp, []);
  }

  /** The distinct pass keeps a subsequence of its input. */
  lemma {:induction false} DistinctFromIsSubsequence<T>(s: seq<T>, cmp: (T, T) -> bool, kept: seq<T>)
    ensures IsSubsequence(DistinctFrom(s, cmp, kept), s)
  {
    if |s| > 0 {
      if IsDuplicate(kept, s[0], cmp) {
        DistinctFromIsSubsequence(s[1..], cmp, kept);
        SubsequenceDropHead(DistinctFrom(s[1..], cmp, kept), s);
      } else {
        DistinctFromIsSubsequence(s[1..], cmp, kept + [s[0]]);
        var r := [s[0]] + DistinctFrom(s[1..], cmp, kept + [s[0]]);
        assert r[1..] == DistinctFrom(s[1..], cmp, kept + [s[0]]);
      }
    }
  }

  lemma SubsequenceDropHead<T>(a: seq<T>, s: seq<T>)
    requires |s| > 0 && IsSubsequence(a, s[1..])
    ensures IsSubsequence(a, s)
  {
  }

  /** Every input element is kept or matches an element that is kept (or was kept before). */
  lemma {:induction false} DistinctFromCovers<T>(s: seq<T>, cmp: (T, T) -> bool, kept: seq<T>)
    ensures var r := DistinctFrom(s, cmp, kept);
      forall i :: 0 <= i < |s| ==> s[i] in r || IsDuplicate(kept + r, s[i], cmp)
  {
    if |s| > 0 {
      var r := DistinctFrom(s, cmp, kept);
      if IsDuplicate(kept, s[0], cmp) {
        DistinctFromCovers(s[1..], cmp, kept);
        forall i | 0 <= i < |s| ensures s[i] in r || IsDuplicate(kept + r, s[i], cmp) {
          if i == 0 {
            var j :| 0 <= j < |kept| && cmp(s[0], kept[j]);
            assert (kept + r)[j] == kept[j];
          } else {
            assert s[i] == s[1..][i - 1];
          }
        }
      } else {
        var rest := DistinctFrom(s[1..], cmp, kept + [s[0]]);
        DistinctFromCovers(s[1..], cmp, kept + [s[0]]);
        assert (kept + [s[0]]) + rest == kept + r;
        forall i | 0 <= i < |s| ensures s[i] in r || IsDuplicate(kept + r, s[i], cmp) {
          if i > 0 {
            assert s[i] == s[1..][i - 1];
          }
        }
      }
    }
  }

  /** The distinct pass over a concatenation is the pass over the first part, continued over
      the second part with the first part's result as kept. */
  lemma {:induction false} DistinctFromAppend<T>(a: seq<T>, b: seq<T>, cmp: (T, T) -> bool, kept: seq<T>)
    ensures DistinctFrom(a + b, cmp, kept) ==
      DistinctFrom(a, cmp, kept) + DistinctFrom(b, cmp, kept + DistinctFrom(a, cmp, kept))
  {
    if |a| == 0 {
      assert a + b == b;
      assert kept + [] == kept;
    } else {
      assert (a + b)[0] == a[0];
      assert (a + b)[1..] == a[1..] + b;
      if IsDuplicate(kept, a[0], cmp) {
        DistinctFromAppend(a[1..], b, cmp, kept);
      } else {
        DistinctFromAppend(a[1..], b, cmp, kept + [a[0]]);
        assert (kept + [a[0]]) + DistinctFrom(a[1..], cmp, kept + [a[0]]) ==
          kept + DistinctFrom(a, cmp, kept);
      }
    }
  }

  /** union(b) on a: it begins with distinct(a) and then adds the elements of b that match
      nothing kept so far. */
  lemma UnionExtendsDistinct<T>(a: seq<T>, b: seq<T>, cmp: (T, T) -> bool)
    ensures Distinct(a + b, cmp) == Distinct(a, cmp) + DistinctFrom(b, cmp, Distinct(a, cmp))
  {
    DistinctFromAppend(a, b, cmp, []);
    assert [] + Distinct(a, cmp) == Distinct(a, cmp);
  }

  // ---------------------------------------------------------------- except

  /** A comparer that is reflexive, symmetric and transitive. */
  ghost predicate Equivalence<T(!new)>(cmp: (T, T) -> bool)
  {
    (forall x :: cmp(x, x)) &&
    (forall x, y :: cmp(x, y) ==> cmp(y, x)) &&
    (forall x, y, z :: cmp(x, y) && cmp(y, z) ==> cmp(x, z))
  }

  /** getComparerSafe's default comparer (value equality) is an equivalence. */
  lemma DefaultComparerIsEquivalence<T(!new)>()
    ensures Equivalence(Callbacks.DefaultComparer<T>)
  {
  }

  /** except: the elements of `s` that match no element of `excl`, in order. */
  function Except<T>(s: seq<T>, excl: seq<T>, cmp: (T, T) -> bool): (r: seq<T>)
    ensures forall i :: 0 <= i < |r| ==> !Contains(excl, r[i], cmp)
  {
    FilterSatisfies(s, NotIn(excl, cmp));
    Filter(s, NotIn(excl, cmp))
  }

  /** The values that match no element of `excl`. */
  function NotIn<T>(excl: seq<T>, cmp: (T, T) -> bool): T -> bool
  {
    x => !Contains(excl, x, cmp)
  }

  /** Under an equivalence comparer, an element matches distinct(b) exactly when it matches b. */
  lemma DistinctPreservesContains<T(!new)>(b: seq<T>, x: T, cmp: (T, T) -> bool)
    requires Equivalence(cmp)
    ensures Contains(Distinct(b, cmp), x, cmp) <==> Contains(b, x, cmp)
  {
    DistinctContainsOnlyFromInput(b, x, cmp);
    if Contains(b, x, cmp) {
      DistinctContainsAllOfInput(b, x, cmp);
    }
  }

  /** What distinct(b) matches, b matches, for any comparer. */
  lemma DistinctContainsOnlyFromInput<T>(b: seq<T>, x: T, cmp: (T, T) -> bool)
    ensures Contains(Distinct(b, cmp), x, cmp) ==> Contains(b, x, cmp)
  {
    var d := Distinct(b, cmp);
    if Contains(d, x, cmp) {
      DistinctFromIsSubsequence(b, cmp, []);
      SubsequenceMembers(d, b);
      var j :| 0 <= j < |d| && cmp(d[j], x);
      var i :| 0 <= i < |b| && b[i] == d[j];
    }
  }

  /** Under an equivalence, what b matches, distinct(b) matches. */
  lemma DistinctContainsAllOfInput<T(!new)>(b: seq<T>, x: T, cmp: (T, T) -> bool)
    requires Equivalence(cmp) && Contains(b, x, cmp)
    ensures Contains(Distinct(b, cmp), x, cmp)
  {
    var d := Distinct(b, cmp);
    var i :| 0 <= i < |b| && cmp(b[i], x);
    DistinctFromCovers(b, cmp, []);
    assert [] + d == d;
    if b[i] in d {
      var j :| 0 <= j < |d| && d[j] == b[i];
    } else {
      var j :| 0 <= j < |d| && cmp(b[i], d[j]);
      assert cmp(d[j], b[i]);
      assert cmp(d[j], x);
    }
  }

  /** Because except works against distinct(b), under an equivalence comparer it gives what
      working against b itself would give. */
  lemma ExceptAgainstDistinct<T(!new)>(s: seq<T>, b: seq<T>, cmp: (T, T) -> bool)
    requires Equivalence(cmp)
    ensures Except(s, Distinct(b, cmp), cmp) == Except(s, b, cmp)
  {
    forall i | 0 <= i < |s|
      ensures !Contains(Distinct(b, cmp), s[i], cmp) == !Contains(b, s[i], cmp)
    {
      DistinctPreservesContains(b, s[i], cmp);
    }
    FilterCongruence(s, NotIn(Distinct(b, cmp), cmp), NotIn(b, cmp));
  }

  // ---------------------------------------------------------------- intersect

  function RemoveAt<T>(s: seq<T>, k: nat): (r: seq<T>)
    requires k < |s|
    ensures |r| == |s| - 1
  {
    s[..k] + s[k + 1..]
  }

  /** intersect against the pool `pool`: an element is yielded when some pool element matches
      it (comparer(v, x)), and the first such pool element is then removed. */
  function IntersectFrom<T>(s: seq<T>, pool: seq<T>, cmp: (T, T) -> bool): seq<T>
  {
    if |s| == 0 then []
    else
      var k := FirstIndex(pool, MatchedBy(cmp, s[0]));
      if k < |pool| then [s[0]] + IntersectFrom(s[1..], RemoveAt(pool, k), cmp)
      else IntersectFrom(s[1..], pool, cmp)
  }

  /** One step of intersect at index `i` of `s`, as a loop that has already produced `r`
      keeps it: `k` is the index of the first pool element matching s[i], or |pool|. */
  lemma IntersectFromStep<T>(s: seq<T>, i: nat, r: seq<T>, pool: seq<T>, cmp: (T, T) -> bool, k: nat)
    requires i < |s| && k == FirstIndex(pool, MatchedBy(cmp, s[i]))
    ensures k < |pool| ==>
      (r + [s[i]]) + IntersectFrom(s[i + 1..], RemoveAt(pool, k), cmp) == r + IntersectFrom(s[i..], pool, cmp)
    ensures k >= |pool| ==>
      r + IntersectFrom(s[i + 1..], pool, cmp) == r + IntersectFrom(s[i..], pool, cmp)
  {
    assert s[i..][0] == s[i] && s[i..][1..] == s[i + 1..];
    if k < |pool| {
      var tail := IntersectFrom(s[i + 1..], RemoveAt(pool, k), cmp);
      assert IntersectFrom(s[i..], pool, cmp) == [s[i]] + tail;
      assert (r + [s[i]]) + tail == r + ([s[i]] + tail);
    }
  }

  lemma ContainsAfterRemove<T>(pool: seq<T>, k: nat, x: T, cmp: (T, T) -> bool)
    requires k < |pool| && Contains(RemoveAt(pool, k), x, cmp)
    ensures Contains(pool, x, cmp)
  {
    var j :| 0 <= j < |RemoveAt(pool, k)| && cmp(RemoveAt(pool, k)[j], x);
    if j < k { assert RemoveAt(pool, k)[j] == pool[j]; }
    else { assert RemoveAt(pool, k)[j] == pool[j + 1]; }
  }

  /** intersect yields a subsequence of its input, every yielded element matches a pool element,
      and it yields no more elements than the pool has. */
  lemma {:induction false} IntersectFromBounds<T>(s: seq<T>, pool: seq<T>, cmp: (T, T) -> bool)
    ensures var r := IntersectFrom(s, pool, cmp);
      |r| <= |pool| && IsSubsequence(r, s) && forall i :: 0 <= i < |r| ==> Contains(pool, r[i], cmp)
  {
    if |s| > 0 {
      var k := FirstIndex(pool, MatchedBy(cmp, s[0]));
      FirstIndexSpec(pool, MatchedBy(cmp, s[0]));
      var r := IntersectFrom(s, pool, cmp);
      if k < |pool| {
        var rest := IntersectFrom(s[1..], RemoveAt(pool, k), cmp);
        IntersectFromBounds(s[1..], RemoveAt(pool, k), cmp);
        assert r[1..] == rest;
        forall i | 0 <= i < |r| ensures Contains(pool, r[i], cmp) {
          if i == 0 {
            assert cmp(pool[k], s[0]);
          } else {
            assert r[i] == rest[i - 1];
            ContainsAfterRemove(pool, k, r[i], cmp);
          }
        }
      } else {
        IntersectFromBounds(s[1..], pool, cmp);
        SubsequenceDropHead(r, s);
      }
    }
  }

  // ---------------------------------------------------------------- zip

  /** zip: pairs elements up to the shorter length and applies `f` to each pair. */
  function Zip<A, B, C>(a: seq<A>, b: seq<B>, f: (A, B) -> C): (r: seq<C>)
    ensures |r| == if |a| <= |b| then |a| else |b|
    ensures forall i :: 0 <= i < |r| ==> r[i] == f(a[i], b[i])
  {
    if |a| == 0 || |b| == 0 then [] else [f(a[0], b[0])] + Zip(a[1..], b[1..], f)
  }

  /** The first index at which the pairs of `a` and `b` fail the comparer, or the shorter length
      when none does. */
  function MismatchIndex<T>(a: seq<T>, b: seq<T>, cmp: (T, T) -> bool): (k: nat)
    ensures k <= |a| && k <= |b|
    ensures forall j :: 0 <= j < k ==> cmp(a[j], b[j])
    ensures k < |a| && k < |b| ==> !cmp(a[k], b[k])
  {
    if |a| == 0 || |b| == 0 then 0
    else if !cmp(a[0], b[0]) then 0
    else 1 + MismatchIndex(a[1..], b[1..], cmp)
  }

  /** MismatchIndex is determined by its contract. */
  lemma MismatchIndexIs<T>(a: seq<T>, b: seq<T>, cmp: (T, T) -> bool, m: nat)
    requires m <= |a| && m <= |b|
    requires forall j :: 0 <= j < m ==> cmp(a[j], b[j])
    requires m < |a| && m < |b| ==> !cmp(a[m], b[m])
    ensures MismatchIndex(a, b, cmp) == m
  {
  }

  // ---------------------------------------------------------------- aggregates over int

  /** sum: the left fold of + starting from the first element. */
  function Sum(s: seq<int>): int
    requires |s| > 0
  {
    if |s| == 1 then s[0] else Sum(s[..|s| - 1]) + s[|s| - 1]
  }

  lemma {:induction false} SumAppend(a: seq<int>, b: seq<int>)
    requires |a| > 0 && |b| > 0
    ensures Sum(a + b) == Sum(a) + Sum(b)
    decreases |b|
  {
    if |b| == 1 {
      assert (a + b)[..|a + b| - 1] == a;
    } else {
      var b' := b[..|b| - 1];
      assert (a + b)[..|a + b| - 1] == a + b';
      SumAppend(a, b');
    }
  }

  /** multiply: the left fold of * starting from the first element. */
  function Product(s: seq<int>): int
    requires |s| > 0
  {
    if |s| == 1 then s[0] else Product(s[..|s| - 1]) * s[|s| - 1]
  }

  lemma {:induction false} ProductAppend(a: seq<int>, b: seq<int>)
    requires |a| > 0 && |b| > 0
    ensures Product(a + b) == Product(a) * Product(b)
    decreases |b|
  {
    if |b| == 1 {
      assert (a + b)[..|a + b| - 1] == a;
    } else {
      var b' := b[..|b| - 1];
      assert (a + b)[..|a + b| - 1] == a + b';
      ProductAppend(a, b');
      assert Product(a + b) == (Product(a) * Product(b')) * b[|b| - 1];
    }
  }

  /** min: the fold that replaces the result by a strictly smaller element. */
  function Min(s: seq<int>): int
    requires |s| > 0
  {
    if |s| == 1 then s[0]
    else
      var m' := Min(s[..|s| - 1]);
      if s[|s| - 1] < m' then s[|s| - 1] else m'
  }

  /** min's result is an element of the list and no element is smaller. */
  lemma {:induction false} MinIsLeast(s: seq<int>)
    requires |s| > 0
    ensures Min(s) in s
    ensures forall i :: 0 <= i < |s| ==> Min(s) <= s[i]
  {
    if |s| > 1 {
      var init := s[..|s| - 1];
      MinIsLeast(init);
      forall i | 0 <= i < |s| - 1 ensures Min(s) <= s[i] {
        assert s[i] == init[i];
      }
      assert Min(init) in s by {
        var k :| 0 <= k < |init| && init[k] == Min(init);
        assert s[k] == init[k];
      }
    }
  }

  /** max: the fold that replaces the result by a strictly larger element. */
  function Max(s: seq<int>): int
    requires |s| > 0
  {
    if |s| == 1 then s[0]
    else
      var m' := Max(s[..|s| - 1]);
      if s[|s| - 1] > m' then s[|s| - 1] else m'
  }

  /** max's result is an element of the list and no element is larger. */
  lemma {:induction false} MaxIsGreatest(s: seq<int>)
    requires |s| > 0
    ensures Max(s) in s
    ensures forall i :: 0 <= i < |s| ==> s[i] <= Max(s)
  {
    if |s| > 1 {
      var init := s[..|s| - 1];
      MaxIsGreatest(init);
      forall i | 0 <= i < |s| - 1 ensures s[i] <= Max(s) {
        assert s[i] == init[i];
      }
      assert Max(init) in s by {
        var k :| 0 <= k < |init| && init[k] == Max(init);
        assert s[k] == init[k];
      }
    }
  }

  /** Extending a non-empty slice by one element folds that element into the result. */
  lemma FoldsExtend(s: seq<int>, lo: nat, hi: nat)
    requires lo < hi < |s|
    ensures Sum(s[lo..hi + 1]) == Sum(s[lo..hi]) + s[hi]
    ensures Product(s[lo..hi + 1]) == Product(s[lo..hi]) * s[hi]
    ensures Min(s[lo..hi + 1]) == if s[hi] < Min(s[lo..hi]) then s[hi] else Min(s[lo..hi])
    ensures Max(s[lo..hi + 1]) == if s[hi] > Max(s[lo..hi]) then s[hi] else Max(s[lo..hi])
  {
    assert s[lo..hi + 1][..hi - lo] == s[lo..hi];
  }
}
