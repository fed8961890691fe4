/** Client code over EnumerableBase: operator chains on fresh sequences, with the result each
    chain is promised to produce. */
module Scenarios {
  import opened Callbacks
  import Sequences
  import Sorting
  import opened Enumerables

  /** [1, 2, 3, 4, 5].where(x => x % 2 == 0) yields [2, 4]. */
  method WhereEven() returns (r: Result<seq<int>>)
    ensures r == Success([2, 4])
  {
    var e := new EnumerableBase<int>([1, 2, 3, 4, 5]);
    r := e.Where(Callable(1, IsEven));
    EvensOfOneToFive();
  }

  predicate IsEven(x: int) {
    x % 2 == 0
  }

  lemma EvensOfOneToFive()
    ensures Sequences.Filter([1, 2, 3, 4, 5], IsEven) == [2, 4]
  {
    assert [1, 2, 3, 4, 5][1..] == [2, 3, 4, 5];
    assert [2, 3, 4, 5][1..] == [3, 4, 5];
    assert [3, 4, 5][1..] == [4, 5];
    assert [4, 5][1..] == [5];
    assert [5][1..] == [];
  }

  /** [1, 2, 3].orderByDescending(identity) yields [3, 2, 1]. */
  method OrderByDescendingIdentity() returns (r: Result<seq<int>>)
    ensures r == Success([3, 2, 1])
  {
    var e := new EnumerableBase<int>([1, 2, 3]);
    var identity: Arg<int, int -> int> := Callable(1, Sorting.Identity);
    r := OrderByDescending(e, identity, Null);
    Sorting.DefaultOrderDescending([1, 2, 3]);
    DescendingOneToThree(r.value);
  }

  lemma DescendingOneToThree(t: seq<int>)
    requires Sorting.Descending(t) && multiset(t) == multiset([1, 2, 3])
    ensures t == [3, 2, 1]
  {
    assert multiset([3, 2, 1]) == multiset([1, 2, 3]);
    Sorting.DescendingPermutationUnique(t, [3, 2, 1]);
  }

  /** [1, 2, 2, 3].intersect([2, 3, 3]) yields [2, 3]: each pool element is used once. */
  method IntersectOnce() returns (r: Result<seq<int>>)
    ensures r == Success([2, 3])
  {
    var e := new EnumerableBase<int>([1, 2, 2, 3]);
    assert e.Remaining() == [1, 2, 2, 3];
    r := e.Intersect([2, 3, 3], Null);
    IntersectOfExample();
  }

  lemma IntersectOfExample()
    ensures Sequences.IntersectFrom([1, 2, 2, 3], Sequences.Distinct([2, 3, 3], DefaultComparer), DefaultComparer) == [2, 3]
  {
    DistinctOfExample();
    IntersectOfExampleTail();
    var cmp := DefaultComparer<int>;
    assert Sequences.IntersectFrom([2, 2, 3], [2, 3], cmp) == [2, 3] by {
      MatchesDefault(2, [2, 3], 0);
      assert Sequences.RemoveAt([2, 3], 0) == [3] && [2, 2, 3][1..] == [2, 3];
    }
    MatchesDefault(1, [2, 3], 2);
    assert [1, 2, 2, 3][1..] == [2, 2, 3];
  }

  /** The last two elements of the example against the pool left after the first match. */
  lemma IntersectOfExampleTail()
    ensures Sequences.IntersectFrom([2, 3], [3], DefaultComparer) == [3]
  {
    var cmp := DefaultComparer<int>;
    assert Sequences.IntersectFrom([3], [3], cmp) == [3] by {
      MatchesDefault(3, [3], 0);
      assert Sequences.RemoveAt([3], 0) == [] && [3][1..] == [];
    }
    MatchesDefault(2, [3], 1);
    assert [2, 3][1..] == [3];
  }

  lemma DistinctOfExample()
    ensures Sequences.Distinct([2, 3, 3], DefaultComparer) == [2, 3]
  {
    var cmp := DefaultComparer<int>;
    assert Sequences.DistinctFrom([3], cmp, [2, 3]) == [] by {
      assert Sequences.IsDuplicate([2, 3], 3, cmp) by { assert cmp(3, [2, 3][1]); }
      assert [3][1..] == [];
    }
    assert Sequences.DistinctFrom([3, 3], cmp, [2]) == [3] by {
      assert !Sequences.IsDuplicate([2], 3, cmp);
      assert [3, 3][1..] == [3] && [2] + [3] == [2, 3];
    }
    assert Sequences.DistinctFrom([2, 3, 3], cmp, []) == [2, 3] by {
      assert !Sequences.IsDuplicate([], 2, cmp);
      assert [2, 3, 3][1..] == [3, 3] && [] + [2] == [2];
    }
  }

  /** Under the default comparer, the first pool element matching `x` is its first occurrence. */
  lemma MatchesDefault(x: int, pool: seq<int>, k: nat)
    requires k <= |pool| && (k < |pool| ==> pool[k] == x)
    requires forall j :: 0 <= j < k ==> pool[j] != x
    ensures Sequences.FirstIndex(pool, Sequences.MatchedBy(DefaultComparer, x)) == k
  {
    var q := Sequences.MatchedBy(DefaultComparer, x);
    forall v ensures q(v) == (v == x) {
      assert q(v) == DefaultComparer(v, x);
    }
    Sequences.FirstIndexIs(pool, q, k);
  }

  /** except(second) without a comparer keeps exactly the elements that do not occur in
      `second`, in order. */
  method ExceptWithoutComparer<T(==,!new)>(items: seq<T>, second: seq<T>) returns (r: Result<seq<T>>)
    ensures r == Success(Sequences.Filter(items, NotAmong(second)))
  {
    var e := new EnumerableBase<T>(items);
    r := e.Except(second, Null);
    Sequences.DefaultComparerIsEquivalence<T>();
    Sequences.ExceptAgainstDistinct(items, second, DefaultComparer);
    forall i | 0 <= i < |items|
      ensures Sequences.NotIn(second, DefaultComparer)(items[i]) == NotAmong(second)(items[i])
    {
      if items[i] in second {
        var j :| 0 <= j < |second| && second[j] == items[i];
        assert DefaultComparer(second[j], items[i]);
      }
    }
    Sequences.FilterCongruence(items, Sequences.NotIn(second, DefaultComparer), NotAmong(second));
  }

  /** The values that do not occur in `second`. */
  function NotAmong<T(==)>(second: seq<T>): T -> bool
  {
    x => x !in second
  }

  /** [1, 2, 3].singleOrDefault(x => x > 10, 0) returns the default, not an error. */
  method SingleOrDefaultNoMatch() returns (r: Result<Option<int>>)
    ensures r == Success(Some(0))
  {
    var e := new EnumerableBase<int>([1, 2, 3]);
    r := e.SingleOrDefault(TwoArgs(Callable(1, (x: int) => x > 10), Some(0)));
  }

  /** [1, 2, 3].zip([10, 20], (a, b) => a + b) yields [11, 22]: it stops at the shorter one. */
  method ZipShorter() returns (r: Result<seq<int>>)
    ensures r == Success([11, 22])
  {
    var e := new EnumerableBase<int>([1, 2, 3]);
    assert e.Remaining() == [1, 2, 3];
    r := e.Zip([10, 20], Callable(2, Add));
    assert r.value == [Add(1, 10), Add(2, 20)];
  }

  function Add(a: int, b: int): int {
    a + b
  }

  /** where(p) followed by all(p) is true. */
  method WhereThenAll<T(==,!new)>(items: seq<T>, p: T -> bool) returns (r: Result<bool>)
    ensures r == Success(true)
  {
    var e := new EnumerableBase<T>(items);
    var kept := e.Where(Callable(1, p));
    var f := new EnumerableBase<T>(kept.value);
    r := f.All(Callable(1, p));
    Sequences.FilterSatisfies(items, p);
  }

  /** toArray() has count() elements, and after reset() a second pass reproduces the first. */
  method ToArrayThenCount<T(==,!new)>(items: seq<T>) returns (a: seq<T>, again: seq<T>, n: nat)
    ensures a == again == items
    ensures |a| == n
  {
    var e := new EnumerableBase<T>(items);
    a := e.ToArray();
    var self := e.Reset();
    again := self.ToArray();
    var _ := e.Reset();
    n := e.Count();
  }

  /** concat(t).count() is count() plus t.count(). */
  method ConcatCount<T(==,!new)>(s: seq<T>, t: seq<T>) returns (joined: nat, first: nat, second: nat)
    ensures joined == first + second
  {
    var a := new EnumerableBase<T>(s);
    var b := new EnumerableBase<T>(t);
    var both := a.Concat(b);
    var c := new EnumerableBase<T>(both);
    joined := c.Count();
    var _ := a.Reset();
    first := a.Count();
    var _ := b.Reset();
    second := b.Count();
  }

  /** select(f) then select(g) is select(x => g(f(x))). */
  method SelectTwice<T(==,!new), U(==,!new), W>(items: seq<T>, f: T -> U, g: U -> W)
    returns (r: Result<seq<W>>, fused: Result<seq<W>>)
    ensures r == fused && r.Success?
  {
    var e := new EnumerableBase<T>(items);
    var once := e.Select(Callable(1, f));
    var mid := new EnumerableBase<U>(once.value);
    r := mid.Select(Callable(1, g));
    var e' := new EnumerableBase<T>(items);
    fused := e'.Select(Callable(1, (x: T) => g(f(x))));
    Sequences.MapFusion(items, f, g);
  }

  /** distinct() then distinct() is distinct(). */
  method DistinctTwice<T(==,!new)>(items: seq<T>, cmp: (T, T) -> bool) returns (once: Result<seq<T>>, twice: Result<seq<T>>)
    ensures once == twice && once.Success?
  {
    var comparer: Arg<T, (T, T) -> bool> := Callable(2, cmp);
    var e := new EnumerableBase<T>(items);
    once := e.Distinct(comparer);
    var f := new EnumerableBase<T>(once.value);
    twice := f.Distinct(comparer);
    Sequences.DistinctIdempotent(items, cmp);
  }
}
