/** The sort behind orderBy/orderByDescending/order/orderDescending. The source hands its
    buffered items to PHP's built-in usort with a three-way callback; usort's algorithm is not
    part of the source, so an insertion sort stands in for it here. For the default sort
    algorithm and its negation a sorted permutation is unique (AscendingPermutationUnique,
    DescendingPermutationUnique), so
    there the result does not depend on which sorting algorithm is used. */
module Sorting {
  import opened Callbacks
  import Sequences

  /** Each element compares at most 0 against its successor. */
  ghost predicate Sorted<T>(s: seq<T>, cmp: (T, T) -> int)
  {
    forall i :: 0 < i < |s| ==> cmp(s[i - 1], s[i]) <= 0
  }

  /** Connexity: of any two values, one compares at most 0 against the other. This is all the
      insertion sort needs for a sorted result; it is no claim of transitivity, so for an
      algorithm that is not transitive "sorted" means only that neighbours are in order. */
  ghost predicate Connex<T(!new)>(cmp: (T, T) -> int)
  {
    forall x, y :: cmp(x, y) <= 0 || cmp(y, x) <= 0
  }

  /** orderByDescending's callback: the sort algorithm's result times -1. */
  function Negated<T>(algo: (T, T) -> int): (T, T) -> int
  {
    (x, y) => algo(x, y) * -1
  }

  /** The usort callback of orderByInner as written. The buffered items are pairs
      [key(e), e], and the callback compares the FIRST pair's key with the SECOND pair's
      element: algo(x[0], y[1]). On elements that is algo(key(x), y). */
  function MixedAlgo<T>(key: T -> T, algo: (T, T) -> int): (T, T) -> int
  {
    (x, y) => algo(key(x), y)
  }

  /** The sort selector order() and orderDescending() pass: each element is its own key. */
  function Identity<T>(x: T): T
  {
    x
  }

  /** With the identity key the callback as written is the sort algorithm itself. */
  lemma MixedAlgoIdentity<T>(algo: (T, T) -> int, s: seq<T>)
    ensures Sorted(s, MixedAlgo(Identity, algo)) <==> Sorted(s, algo)
  {
    forall i | 0 < i < |s|
      ensures MixedAlgo(Identity, algo)(s[i - 1], s[i]) == algo(s[i - 1], s[i])
    {
      assert Identity(s[i - 1]) == s[i - 1];
    }
  }

  /** A key selector that negates its element. */
  function Minus(x: int): int
  {
    -x
  }

  /** With a key other than the element itself, the callback as written is no consistent
      order: for the key x => -x and the default algorithm it asks for 1 before 2 and also for 2
      before 1, whereas the callback on both keys orders the two one way only. */
  lemma MixedAlgoInconsistent()
    ensures MixedAlgo(Minus, DefaultSortAlgo)(1, 2) < 0 && MixedAlgo(Minus, DefaultSortAlgo)(2, 1) < 0
    ensures KeyedAlgo(Minus, DefaultSortAlgo)(1, 2) > 0 && KeyedAlgo(Minus, DefaultSortAlgo)(2, 1) < 0
  {
    assert Minus(1) == -1 && Minus(2) == -2;
    assert MixedAlgo(Minus, DefaultSortAlgo)(1, 2) == DefaultSortAlgo(-1, 2);
    assert MixedAlgo(Minus, DefaultSortAlgo)(2, 1) == DefaultSortAlgo(-2, 1);
    assert KeyedAlgo(Minus, DefaultSortAlgo)(1, 2) == DefaultSortAlgo(-1, -2);
    assert KeyedAlgo(Minus, DefaultSortAlgo)(2, 1) == DefaultSortAlgo(-2, -1);
  }

  /** The callback orderByInner evidently means: the sort algorithm on the keys of both
      pairs, algo(x[0], y[0]). */
  function KeyedAlgo<T, K>(key: T -> K, algo: (K, K) -> int): (T, T) -> int
  {
    (x, y) => algo(key(x), key(y))
  }

  /** With the identity key the intended callback and the one as written coincide, so
      order() and orderDescending() are unaffected. */
  lemma KeyedAlgoIdentity<T>(algo: (T, T) -> int, x: T, y: T)
    ensures KeyedAlgo(Identity, algo)(x, y) == MixedAlgo(Identity, algo)(x, y) == algo(x, y)
  {
    assert Identity(x) == x && Identity(y) == y;
  }

  /** An entry of the array orderByInner buffers: the pair [key(e), e]. */
  function Tagged<T>(key: T -> T): T -> (T, T)
  {
    x => (key(x), x)
  }

  /** The element of a buffered pair: what orderByInner yields for it. */
  function Second<T>(entry: (T, T)): T
  {
    entry.1
  }

  /** The usort callback of orderByInner on buffered pairs: the first pair's key against the
      second pair's element. */
  function PairAlgo<T>(algo: (T, T) -> int): ((T, T), (T, T)) -> int
  {
    (x: (T, T), y: (T, T)) => algo(x.0, y.1)
  }

  /** `x` inserted before the first element it compares at most 0 against. */
  function Insert<T>(x: T, s: seq<T>, cmp: (T, T) -> int): (r: seq<T>)
    ensures |r| == |s| + 1
    ensures multiset(r) == multiset(s) + multiset{x}
    ensures r[0] == x || (|s| > 0 && r[0] == s[0])
  {
    if |s| == 0 then [x]
    else if cmp(x, s[0]) <= 0 then [x] + s
    else
      assert s == [s[0]] + s[1..];
      [s[0]] + Insert(x, s[1..], cmp)
  }

  /** The stand-in for usort: insertion sort under `cmp`. */
  function InsertionSort<T>(s: seq<T>, cmp: (T, T) -> int): (r: seq<T>)
    ensures |r| == |s|
    ensures multiset(r) == multiset(s)
  {
    if |s| == 0 then []
    else
      assert s == [s[0]] + s[1..];
      Insert(s[0], InsertionSort(s[1..], cmp), cmp)
  }

  /** Inserting a buffered pair among buffered pairs is inserting the element among the
      elements under MixedAlgo, then buffering. */
  lemma {:induction false} InsertTagged<T>(x: T, s: seq<T>, key: T -> T, algo: (T, T) -> int)
    ensures Insert(Tagged(key)(x), Sequences.Map(s, Tagged(key)), PairAlgo(algo)) ==
      Sequences.Map(Insert(x, s, MixedAlgo(key, algo)), Tagged(key))
  {
    var t := Sequences.Map(s, Tagged(key));
    if |s| > 0 {
      assert t[1..] == Sequences.Map(s[1..], Tagged(key));
      assert PairAlgo(algo)(Tagged(key)(x), t[0]) == MixedAlgo(key, algo)(x, s[0]);
      if MixedAlgo(key, algo)(x, s[0]) <= 0 {
        assert ([x] + s)[1..] == s;
      } else {
        InsertTagged(x, s[1..], key, algo);
        var ins := Insert(x, s[1..], MixedAlgo(key, algo));
        assert ([s[0]] + ins)[1..] == ins;
      }
    }
  }

  /** Sorting the buffered pairs with the callback as written is sorting the elements under
      MixedAlgo, then buffering. */
  lemma {:induction false} InsertionSortTagged<T>(s: seq<T>, key: T -> T, algo: (T, T) -> int)
    ensures InsertionSort(Sequences.Map(s, Tagged(key)), PairAlgo(algo)) ==
      Sequences.Map(InsertionSort(s, MixedAlgo(key, algo)), Tagged(key))
  {
    if |s| > 0 {
      var t := Sequences.Map(s, Tagged(key));
      assert t[1..] == Sequences.Map(s[1..], Tagged(key));
      InsertionSortTagged(s[1..], key, algo);
      InsertTagged(s[0], InsertionSort(s[1..], MixedAlgo(key, algo)), key, algo);
    }
  }

  /** Taking the elements back out of the buffered pairs gives the elements. */
  lemma Untagged<T>(s: seq<T>, key: T -> T)
    ensures Sequences.Map(Sequences.Map(s, Tagged(key)), Second) == s
  {
    var r := Sequences.Map(Sequences.Map(s, Tagged(key)), Second);
    forall i | 0 <= i < |s| ensures r[i] == s[i] {
      assert Second(Tagged(key)(s[i])) == s[i];
    }
  }

  /** What orderByInner yields: the elements of the buffered pairs sorted with the callback
      as written are the elements sorted under MixedAlgo. */
  lemma SortedPairsElements<T>(s: seq<T>, key: T -> T, algo: (T, T) -> int)
    ensures Sequences.Map(InsertionSort(Sequences.Map(s, Tagged(key)), PairAlgo(algo)), Second) ==
      InsertionSort(s, MixedAlgo(key, algo))
  {
    InsertionSortTagged(s, key, algo);
    Untagged(InsertionSort(s, MixedAlgo(key, algo)), key);
  }

  lemma {:induction false} InsertSorted<T(!new)>(x: T, s: seq<T>, cmp: (T, T) -> int)
    requires Connex(cmp) && Sorted(s, cmp)
    ensures Sorted(Insert(x, s, cmp), cmp)
  {
    if |s| > 0 && cmp(x, s[0]) > 0 {
      assert cmp(s[0], x) <= 0;
      var rest := Insert(x, s[1..], cmp);
      InsertSorted(x, s[1..], cmp);
      var r := [s[0]] + rest;
      forall i | 0 < i < |r| ensures cmp(r[i - 1], r[i]) <= 0 {
        if i > 1 {
          assert r[i - 1] == rest[i - 2] && r[i] == rest[i - 1];
        } else if |s| > 1 {
          assert s[1..][0] == s[1];
        }
      }
    }
  }

  /** Under a connex comparison the insertion sort's result is sorted. */
  lemma {:induction false} InsertionSortSorted<T(!new)>(s: seq<T>, cmp: (T, T) -> int)
    requires Connex(cmp)
    ensures Sorted(InsertionSort(s, cmp), cmp)
  {
    if |s| > 0 {
      InsertionSortSorted(s[1..], cmp);
      InsertSorted(s[0], InsertionSort(s[1..], cmp), cmp);
    }
  }

  /** orderBy with the intended callback and a connex sort algorithm: a permutation of the
      elements in which every element's key compares at most 0 against its successor's key. */
  lemma KeyedOrderSorted<T(!new), K(!new)>(s: seq<T>, key: T -> K, algo: (K, K) -> int)
    requires Connex(algo)
    ensures var r := InsertionSort(s, KeyedAlgo(key, algo));
      multiset(r) == multiset(s) &&
      forall i :: 0 < i < |r| ==> algo(key(r[i - 1]), key(r[i])) <= 0
  {
    var cmp := KeyedAlgo(key, algo);
    forall x: T, y: T ensures cmp(x, y) <= 0 || cmp(y, x) <= 0 {
      assert cmp(x, y) == algo(key(x), key(y)) && cmp(y, x) == algo(key(y), key(x));
    }
    InsertionSortSorted(s, cmp);
    var r := InsertionSort(s, cmp);
    forall i | 0 < i < |r| ensures algo(key(r[i - 1]), key(r[i])) <= 0 {
      assert cmp(r[i - 1], r[i]) <= 0;
    }
  }

  /** order() and orderDescending() with a connex sort algorithm: the result is sorted under
      that algorithm. */
  lemma OrderedByIdentitySorted<T(!new)>(s: seq<T>, algo: (T, T) -> int)
    requires Connex(algo)
    ensures Sorted(InsertionSort(s, MixedAlgo(Identity, algo)), algo)
  {
    forall x: T, y: T ensures MixedAlgo(Identity, algo)(x, y) == algo(x, y) {
      assert Identity(x) == x;
    }
    InsertionSortSorted(s, MixedAlgo(Identity, algo));
    MixedAlgoIdentity(algo, InsertionSort(s, MixedAlgo(Identity, algo)));
  }

  /** order() with the default sort algorithm yields the elements in ascending order. */
  lemma DefaultOrderAscending(s: seq<int>)
    ensures Ascending(InsertionSort(s, MixedAlgo(Identity, DefaultSortAlgo)))
  {
    DefaultSortAlgosAreConnex();
    OrderedByIdentitySorted(s, DefaultSortAlgo);
    SortedByDefaultIsAscending(InsertionSort(s, MixedAlgo(Identity, DefaultSortAlgo)));
  }

  /** orderDescending() with the default sort algorithm yields them in descending order. */
  lemma DefaultOrderDescending(s: seq<int>)
    ensures Descending(InsertionSort(s, MixedAlgo(Identity, Negated(DefaultSortAlgo))))
  {
    DefaultSortAlgosAreConnex();
    OrderedByIdentitySorted(s, Negated(DefaultSortAlgo));
    SortedByNegatedDefaultIsDescending(InsertionSort(s, MixedAlgo(Identity, Negated(DefaultSortAlgo))));
  }

  /** The default sort algorithm and its negation are connex. */
  lemma DefaultSortAlgosAreConnex()
    ensures Connex(DefaultSortAlgo) && Connex(Negated(DefaultSortAlgo))
  {
  }

  /** Sorted under the default algorithm means ascending. */
  lemma {:induction false} SortedByDefaultIsAscending(s: seq<int>)
    requires Sorted(s, DefaultSortAlgo)
    ensures Ascending(s)
  {
    if |s| > 1 {
      SortedByDefaultIsAscending(s[1..]);
      forall i, j | 0 <= i < j < |s| ensures s[i] <= s[j] {
        if i > 0 {
          assert s[i] == s[1..][i - 1] && s[j] == s[1..][j - 1];
        } else if j > 1 {
          assert DefaultSortAlgo(s[0], s[1]) <= 0;
          assert s[1] == s[1..][0] && s[j] == s[1..][j - 1];
        } else {
          assert DefaultSortAlgo(s[0], s[1]) <= 0;
        }
      }
    }
  }

  /** Sorted under the negated default algorithm means descending. */
  lemma {:induction false} SortedByNegatedDefaultIsDescending(s: seq<int>)
    requires Sorted(s, Negated(DefaultSortAlgo))
    ensures Descending(s)
  {
    if |s| > 1 {
      SortedByNegatedDefaultIsDescending(s[1..]);
      forall i, j | 0 <= i < j < |s| ensures s[i] >= s[j] {
        if i > 0 {
          assert s[i] == s[1..][i - 1] && s[j] == s[1..][j - 1];
        } else if j > 1 {
          assert Negated(DefaultSortAlgo)(s[0], s[1]) <= 0;
          assert DefaultSortAlgo(s[0], s[1]) >= 0;
          assert s[1] == s[1..][0] && s[j] == s[1..][j - 1];
        } else {
          assert Negated(DefaultSortAlgo)(s[0], s[1]) <= 0;
          assert DefaultSortAlgo(s[0], s[1]) >= 0;
        }
      }
    }
  }

  ghost predicate Ascending(s: seq<int>)
  {
    forall i, j :: 0 <= i < j < |s| ==> s[i] <= s[j]
  }

  ghost predicate Descending(s: seq<int>)
  {
    forall i, j :: 0 <= i < j < |s| ==> s[i] >= s[j]
  }

  /** A value of an ascending list is at least its head. */
  lemma AscendingHead(s: seq<int>, x: int)
    requires Ascending(s) && x in multiset(s)
    ensures s[0] <= x
  {
    assert x in s;
    var k :| 0 <= k < |s| && s[k] == x;
    if k > 0 { assert s[0] <= s[k]; }
  }

  lemma DescendingHead(s: seq<int>, x: int)
    requires Descending(s) && x in multiset(s)
    ensures s[0] >= x
  {
    assert x in s;
    var k :| 0 <= k < |s| && s[k] == x;
    if k > 0 { assert s[0] >= s[k]; }
  }

  /** Removing the head keeps the multiset of the rest. */
  lemma TailMultiset(a: seq<int>, b: seq<int>)
    requires |a| > 0 && |b| > 0 && a[0] == b[0] && multiset(a) == multiset(b)
    ensures multiset(a[1..]) == multiset(b[1..])
  {
    assert a == [a[0]] + a[1..];
    assert b == [b[0]] + b[1..];
    assert multiset(a) == multiset{a[0]} + multiset(a[1..]);
    assert multiset(b) == multiset{b[0]} + multiset(b[1..]);
    assert multiset(a[1..]) == multiset(a) - multiset{a[0]};
    assert multiset(b[1..]) == multiset(b) - multiset{b[0]};
  }

  /** Two ascending permutations of one another are equal: the sorted result of order() does
      not depend on the sorting algorithm. */
  lemma {:induction false} AscendingPermutationUnique(a: seq<int>, b: seq<int>)
    requires Ascending(a) && Ascending(b)
    requires multiset(a) == multiset(b)
    ensures a == b
  {
    assert |a| == |multiset(a)| == |multiset(b)| == |b|;
    if |a| > 0 {
      AscendingHead(b, a[0]);
      AscendingHead(a, b[0]);
      TailMultiset(a, b);
      assert Ascending(a[1..]) by {
        forall i, j | 0 <= i < j < |a[1..]| ensures a[1..][i] <= a[1..][j] {
          assert a[1..][i] == a[i + 1] && a[1..][j] == a[j + 1];
        }
      }
      assert Ascending(b[1..]) by {
        forall i, j | 0 <= i < j < |b[1..]| ensures b[1..][i] <= b[1..][j] {
          assert b[1..][i] == b[i + 1] && b[1..][j] == b[j + 1];
        }
      }
      AscendingPermutationUnique(a[1..], b[1..]);
      assert a == [a[0]] + a[1..];
      assert b == [b[0]] + b[1..];
    }
  }

  /** Two descending permutations of one another are equal: the same for orderDescending(). */
  lemma {:induction false} DescendingPermutationUnique(a: seq<int>, b: seq<int>)
    requires Descending(a) && Descending(b)
    requires multiset(a) == multiset(b)
    ensures a == b
  {
    assert |a| == |multiset(a)| == |multiset(b)| == |b|;
    if |a| > 0 {
      DescendingHead(b, a[0]);
      DescendingHead(a, b[0]);
      TailMultiset(a, b);
      assert Descending(a[1..]) by {
        forall i, j | 0 <= i < j < |a[1..]| ensures a[1..][i] >= a[1..][j] {
          assert a[1..][i] == a[i + 1] && a[1..][j] == a[j + 1];
        }
      }
      assert Descending(b[1..]) by {
        forall i, j | 0 <= i < j < |b[1..]| ensures b[1..][i] >= b[1..][j] {
          assert b[1..][i] == b[i + 1] && b[1..][j] == b[j + 1];
        }
      }
      DescendingPermutationUnique(a[1..], b[1..]);
      assert a == [a[0]] + a[1..];
      assert b == [b[0]] + b[1..];
    }
  }
}
