/** EnumerableBase: the sequence operators shared by every phpLINQ sequence, written against the
    PHP Iterator cursor (valid / current / next / rewind).

    A sequence is a fixed list of items and a cursor position into it. Every operator runs the
    source's loop over the cursor: it starts from the elements the cursor has not passed yet
    (Remaining()) and leaves the cursor where the source's loop leaves it. An operator that
    returns a lazy sequence in the source (a generator) returns here the list that generator
    yields when drained, and the cursor ends where draining leaves it. */
module Enumerables {
  import opened Callbacks
  import Sequences
  import Sorting

  class EnumerableBase<T(==,!new)> {
    /** The elements the concrete sequence iterates over. */
    const items: seq<T>
    /** The cursor: index of the current element; |items| when the cursor is past the end. */
    var pos: nat

    ghost predicate Valid()
      reads this
    {
      pos <= |items|
    }

    constructor (items: seq<T>)
      ensures Valid() && this.items == items && pos == 0
    {
      this.items := items;
      pos := 0;
    }

    /** The elements from the cursor on. */
    function Remaining(): seq<T>
      reads this
      requires Valid()
    {
      items[pos..]
    }

    /** valid(): the cursor is on an element. */
    predicate IsValid()
      reads this
    {
      pos < |items|
    }

    /** current(): the element under the cursor, the first remaining one. */
    function Current(): T
      reads this
      requires IsValid()
    {
      items[pos]
    }

    /** next(): moves past the current element; at the end it stays there. */
    method Next()
      requires Valid()
      modifies this
      ensures Valid()
      ensures pos == if old(pos) < |items| then old(pos) + 1 else old(pos)
    {
      if pos < |items| {
        pos := pos + 1;
      }
    }

    /** rewind(): back to the first element. */
    method Rewind()
      modifies this
      ensures Valid() && pos == 0 && Remaining() == items
    {
      pos := 0;
    }

    /** reset(): rewinds and returns this same sequence. */
    method Reset() returns (self: EnumerableBase<T>)
      modifies this
      ensures self == this
      ensures Valid() && pos == 0 && Remaining() == items
    {
      Rewind();
      self := this;
    }

    // ------------------------------------------------------------ short-circuiting queries

    /** all(): true when every remaining element satisfies the predicate; stops after the first
        element that does not. The predicate must be a one-parameter callable (null is refused). */
    method All(pred: Arg<T, T -> bool>) returns (r: Result<bool>)
      requires Valid()
      modifies this
      ensures Valid()
      ensures CheckForFunctionOrThrow(pred, 1, false).Fail? ==>
        r == Failure(FunctionRequired(1)) && pos == old(pos)
      ensures CheckForFunctionOrThrow(pred, 1, false).Pass? ==>
        var rest := old(Remaining());
        r == Success(forall k :: 0 <= k < |rest| ==> pred.call(rest[k])) &&
        pos == old(pos) + Sequences.StopAfter(rest, Sequences.Not(pred.call))
    {
      var check := CheckForFunctionOrThrow(pred, 1, false);
      if check.Fail? {
        return Failure(check.error);
      }
      var p := pred.call;
      ghost var rest := Remaining();
      while IsValid()
        invariant Valid() && old(pos) <= pos
        invariant forall k :: old(pos) <= k < pos ==> p(items[k])
        decreases |items| - pos
      {
        var i := Current();
        Next();
        if !p(i) {
          Sequences.FirstIndexIs(rest, Sequences.Not(p), pos - 1 - old(pos));
          return Success(false);
        }
      }
      Sequences.FirstIndexIs(rest, Sequences.Not(p), |rest|);
      return Success(true);
    }

    /** any(): true when some remaining element satisfies the predicate; stops after the first
        one that does. A null predicate stands for "true", so then any() asks for non-emptiness. */
    method Any(pred: Arg<T, T -> bool>) returns (r: Result<bool>)
      requires Valid()
      modifies this
      ensures Valid()
      ensures CheckForFunctionOrThrow(pred, 1).Fail? ==>
        r == Failure(FunctionRequired(1)) && pos == old(pos)
      ensures CheckForFunctionOrThrow(pred, 1).Pass? ==>
        var rest := old(Remaining());
        var p := ToPredicateSafe(pred);
        r == Success(exists k :: 0 <= k < |rest| && p(rest[k])) &&
        pos == old(pos) + Sequences.StopAfter(rest, p)
    {
      var check := CheckForFunctionOrThrow(pred, 1);
      if check.Fail? {
        return Failure(check.error);
      }
      var p := ToPredicateSafe(pred);
      ghost var rest := Remaining();
      while IsValid()
        invariant Valid() && old(pos) <= pos
        invariant forall k :: old(pos) <= k < pos ==> !p(items[k])
        decreases |items| - pos
      {
        var i := Current();
        Next();
        if p(i) {
          Sequences.FirstIndexIs(rest, p, pos - 1 - old(pos));
          return Success(true);
        }
      }
      Sequences.FirstIndexIs(rest, p, |rest|);
      return Success(false);
    }

    /** contains(): true when comparer(element, item) holds for some remaining element; stops
        after the first such element. A null comparer is value equality. */
    method Contains(item: T, comparer: Arg<T, (T, T) -> bool>) returns (r: Result<bool>)
      requires Valid()
      modifies this
      ensures Valid()
      ensures CheckForFunctionOrThrow(comparer, 2).Fail? ==>
        r == Failure(FunctionRequired(2)) && pos == old(pos)
      ensures CheckForFunctionOrThrow(comparer, 2).Pass? ==>
        var rest := old(Remaining());
        var cmp := GetComparerSafe(comparer);
        r == Success(Sequences.Contains(rest, item, cmp)) &&
        pos == old(pos) + Sequences.StopAfter(rest, Sequences.MatchedBy(cmp, item))
    {
      var check := CheckForFunctionOrThrow(comparer, 2);
      if check.Fail? {
        return Failure(check.error);
      }
      var cmp := GetComparerSafe(comparer);
      ghost var rest := Remaining();
      ghost var q := Sequences.MatchedBy(cmp, item);
      while IsValid()
        invariant Valid() && old(pos) <= pos
        invariant forall k :: old(pos) <= k < pos ==> !cmp(items[k], item)
        decreases |items| - pos
      {
        var i := Current();
        Next();
        if cmp(i, item) {
          assert q(rest[pos - 1 - old(pos)]);
          Sequences.FirstIndexIs(rest, q, pos - 1 - old(pos));
          return Success(true);
        }
      }
      assert forall j :: 0 <= j < |rest| ==> !q(rest[j]);
      Sequences.FirstIndexIs(rest, q, |rest|);
      return Success(false);
    }

    // ------------------------------------------------------------ projections and filters

    /** where(): the remaining elements that satisfy the predicate, in order. */
    method Where(pred: Arg<T, T -> bool>) returns (r: Result<seq<T>>)
      requires Valid()
      modifies this
      ensures Valid()
      ensures CheckForFunctionOrThrow(pred, 1, false).Fail? ==>
        r == Failure(FunctionRequired(1)) && pos == old(pos)
      ensures CheckForFunctionOrThrow(pred, 1, false).Pass? ==>
        r == Success(Sequences.Filter(old(Remaining()), pred.call)) && pos == |items|
    {
      var check := CheckForFunctionOrThrow(pred, 1, false);
      if check.Fail? {
        return Failure(check.error);
      }
      var result := WhereInner(pred.call);
      return Success(result);
    }

    /** whereInner: the generator behind where(). */
    method WhereInner(p: T -> bool) returns (r: seq<T>)
      requires Valid()
      modifies this
      ensures Valid()
      ensures r == Sequences.Filter(old(Remaining()), p) && pos == |items|
    {
      ghost var start := pos;
      r := [];
      while IsValid()
        invariant Valid() && start <= pos
        invariant r == Sequences.Filter(items[start..pos], p)
        decreases |items| - pos
      {
        var i := Current();
        Sequences.FilterExtend(items, start, pos, p);
        if p(i) {
          r := r + [i];
        }
        Next();
      }
      assert items[start..pos] == old(Remaining());
    }

    /** select(): the selector applied to each remaining element. */
    method Select<U>(selector: Arg<T, T -> U>) returns (r: Result<seq<U>>)
      requires Valid()
      modifies this
      ensures Valid()
      ensures CheckForFunctionOrThrow(selector, 1, false).Fail? ==>
        r == Failure(FunctionRequired(1)) && pos == old(pos)
      ensures CheckForFunctionOrThrow(selector, 1, false).Pass? ==>
        r == Success(Sequences.Map(old(Remaining()), selector.call)) && pos == |items|
    {
      var check := CheckForFunctionOrThrow(selector, 1, false);
      if check.Fail? {
        return Failure(check.error);
      }
      var result := SelectInner(selector.call);
      return Success(result);
    }

    /** selectInner: the generator behind select(). */
    method SelectInner<U>(f: T -> U) returns (r: seq<U>)
      requires Valid()
      modifies this
      ensures Valid()
      ensures r == Sequences.Map(old(Remaining()), f) && pos == |items|
    {
      ghost var start := pos;
      r := [];
      while IsValid()
        invariant Valid() && start <= pos
        invariant |r| == pos - start
        invariant forall k :: 0 <= k < |r| ==> r[k] == f(items[start + k])
        decreases |items| - pos
      {
        r := r + [f(Current())];
        Next();
      }
      assert r == Sequences.Map(old(Remaining()), f);
    }

    /** selectMany(): the lists the selector returns for the remaining elements, flattened. */
    method SelectMany<U>(selector: Arg<T, T -> seq<U>>) returns (r: Result<seq<U>>)
      requires Valid()
      modifies this
      ensures Valid()
      ensures CheckForFunctionOrThrow(selector, 1, false).Fail? ==>
        r == Failure(FunctionRequired(1)) && pos == old(pos)
      ensures CheckForFunctionOrThrow(selector, 1, false).Pass? ==>
        r == Success(Sequences.FlatMap(old(Remaining()), selector.call)) && pos == |items|
    {
      var check := CheckForFunctionOrThrow(selector, 1, false);
      if check.Fail? {
        return Failure(check.error);
      }
      var result := SelectManyInner(selector.call);
      return Success(result);
    }

    /** selectManyInner: the generator behind selectMany(); yields each returned list's
        elements in order. */
    method SelectManyInner<U>(f: T -> seq<U>) returns (r: seq<U>)
      requires Valid()
      modifies this
      ensures Valid()
      ensures r == Sequences.FlatMap(old(Remaining()), f) && pos == |items|
    {
      ghost var start := pos;
      r := [];
      while IsValid()
        invariant Valid() && start <= pos
        invariant r == Sequences.FlatMap(items[start..pos], f)
        decreases |items| - pos
      {
        var inner := f(Current());
        ghost var before := r;
        var j := 0;
        while j < |inner|
          invariant 0 <= j <= |inner|
          invariant r == before + inner[..j]
        {
          r := r + [inner[j]];
          j := j + 1;
        }
        assert inner[..j] == inner;
        Sequences.FlatMapExtend(items, start, pos, f);
        Next();
      }
      assert items[start..pos] == old(Remaining());
    }

    // ------------------------------------------------------------ prefixes and suffixes

    /** takeWhile(): the remaining elements up to the first one that fails the predicate. That
        first failing element is consumed as well. */
    method TakeWhile(pred: Arg<T, T -> bool>) returns (r: Result<seq<T>>)
      requires Valid()
      modifies this
      ensures Valid()
      ensures CheckForFunctionOrThrow(pred, 1, false).Fail? ==>
        r == Failure(FunctionRequired(1)) && pos == old(pos)
      ensures CheckForFunctionOrThrow(pred, 1, false).Pass? ==>
        var rest := old(Remaining());
        r == Success(Sequences.TakeWhile(rest, pred.call)) &&
        pos == old(pos) + Sequences.StopAfter(rest, Sequences.Not(pred.call))
    {
      var check := CheckForFunctionOrThrow(pred, 1, false);
      if check.Fail? {
        return Failure(check.error);
      }
      var result := TakeWhileInner(pred.call);
      return Success(result);
    }

    /** takeWhileInner: the generator behind takeWhile(). */
    method TakeWhileInner(p: T -> bool) returns (r: seq<T>)
      requires Valid()
      modifies this
      ensures Valid()
      ensures var rest := old(Remaining());
        r == Sequences.TakeWhile(rest, p) &&
        pos == old(pos) + Sequences.StopAfter(rest, Sequences.Not(p))
    {
      ghost var start := pos;
      ghost var rest := Remaining();
      r := [];
      while IsValid()
        invariant Valid() && start <= pos
        invariant r == items[start..pos]
        invariant forall k :: start <= k < pos ==> p(items[k])
        decreases |items| - pos
      {
        var i := Current();
        Next();
        if !p(i) {
          Sequences.FirstIndexIs(rest, Sequences.Not(p), pos - 1 - start);
          assert r == rest[..pos - 1 - start];
          return;
        }
        r := r + [i];
      }
      Sequences.FirstIndexIs(rest, Sequences.Not(p), |rest|);
      assert r == rest;
      assert Sequences.TakeWhile(rest, p) == rest;
    }

    /** take(): the first `count` remaining elements, by takeWhile with a predicate that
        compares a post-decremented counter with 0. Taking stops after consuming the first element past the count. */
    method Take(count: int) returns (r: Result<seq<T>>)
      requires Valid()
      modifies this
      ensures Valid()
      ensures count < 0 ==> r == Failure(InvalidCount) && pos == old(pos)
      ensures count >= 0 ==>
        var rest := old(Remaining());
        r == Success(if count <= |rest| then rest[..count] else rest) &&
        pos == old(pos) + (if count < |rest| then count + 1 else |rest|)
    {
      if count < 0 {
        return Failure(InvalidCount);
      }
      var counter := count;
      var result := [];
      while IsValid()
        invariant Valid() && old(pos) <= pos <= old(pos) + count
        invariant counter == count - (pos - old(pos))
        invariant result == items[old(pos)..pos]
        decreases |items| - pos
      {
        var i := Current();
        Next();
        var taking := counter > 0;
        counter := counter - 1;
        if !taking {
          assert pos == old(pos) + count + 1;
          assert result == old(Remaining())[..count];
          return Success(result);
        }
        result := result + [i];
      }
      ghost var rest := old(Remaining());
      assert result == rest && |rest| <= count;
      assert pos == old(pos) + |rest|;
      assert (if count <= |rest| then rest[..count] else rest) == rest;
      return Success(result);
    }

    /** skipWhile() as written: the remaining elements that FAIL the predicate, from anywhere in
        the sequence, rather than everything after the first element that fails it. */
    method SkipWhile(pred: Arg<T, T -> bool>) returns (r: Result<seq<T>>)
      requires Valid()
      modifies this
      ensures Valid()
      ensures CheckForFunctionOrThrow(pred, 1, false).Fail? ==>
        r == Failure(FunctionRequired(1)) && pos == old(pos)
      ensures CheckForFunctionOrThrow(pred, 1, false).Pass? ==>
        r == Success(Sequences.Filter(old(Remaining()), Sequences.Not(pred.call))) && pos == |items|
    {
      var check := CheckForFunctionOrThrow(pred, 1, false);
      if check.Fail? {
        return Failure(check.error);
      }
      var result := SkipWhileInner(pred.call);
      return Success(result);
    }

    /** skipWhileInner: the generator behind skipWhile(); it skips every element that satisfies
        the predicate, not only the leading ones. */
    method SkipWhileInner(p: T -> bool) returns (r: seq<T>)
      requires Valid()
      modifies this
      ensures Valid()
      ensures r == Sequences.Filter(old(Remaining()), Sequences.Not(p)) && pos == |items|
    {
      ghost var start := pos;
      ghost var np := Sequences.Not(p);
      r := [];
      while IsValid()
        invariant Valid() && start <= pos
        invariant r == Sequences.Filter(items[start..pos], np)
        decreases |items| - pos
      {
        var i := Current();
        Sequences.FilterExtend(items, start, pos, np);
        Next();
        if p(i) {
          continue;
        }
        r := r + [i];
      }
      assert items[start..pos] == old(Remaining());
    }

    /** skip(): the remaining elements after the first `count`, by skipWhile with a predicate that
        compares a post-decremented counter with 0. Because that predicate is true exactly for the first `count`
        elements, skipWhile's defect does not show here. */
    method Skip(count: int) returns (r: Result<seq<T>>)
      requires Valid()
      modifies this
      ensures Valid()
      ensures count < 0 ==> r == Failure(InvalidCount) && pos == old(pos)
      ensures count >= 0 ==>
        var rest := old(Remaining());
        r == Success(if count <= |rest| then rest[count..] else []) && pos == |items|
    {
      if count < 0 {
        return Failure(InvalidCount);
      }
      var counter := count;
      var result := [];
      while IsValid()
        invariant Valid() && old(pos) <= pos
        invariant counter == count - (pos - old(pos))
        invariant result == if pos - old(pos) <= count then [] else items[old(pos) + count..pos]
        decreases |items| - pos
      {
        var i := Current();
        Next();
        var skipping := counter > 0;
        counter := counter - 1;
        if skipping {
          continue;
        }
        result := result + [i];
      }
      assert result == if count <= |old(Remaining())| then old(Remaining())[count..] else [];
      return Success(result);
    }

    /** elementAtOrDefault(): the remaining element at `index`, or the default when the index is
        negative or past the end. A negative index consumes nothing. */
    method ElementAtOrDefault(index: int, defValue: Option<T>) returns (r: Option<T>)
      requires Valid()
      modifies this
      ensures Valid()
      ensures var rest := old(Remaining());
        r == (if 0 <= index < |rest| then Some(rest[index]) else defValue) &&
        pos == old(pos) + (if index < 0 then 0 else if index < |rest| then index + 1 else |rest|)
    {
      var result := defValue;
      var idx := index;
      while idx >= 0 && IsValid()
        invariant Valid() && old(pos) <= pos
        invariant idx == index - (pos - old(pos))
        invariant index >= 0 ==> idx >= 0
        invariant index < 0 ==> pos == old(pos)
        decreases |items| - pos
      {
        var i := Current();
        Next();
        var hit := idx == 0;
        idx := idx - 1;
        if hit {
          result := Some(i);
          break;
        }
      }
      return result;
    }
    // ------------------------------------------------------------ draining queries

    /** count(): the number of remaining elements. */
    method Count() returns (n: nat)
      requires Valid()
      modifies this
      ensures Valid()
      ensures n == |old(Remaining())| && pos == |items|
    {
      n := 0;
      while IsValid()
        invariant Valid() && old(pos) <= pos
        invariant n == pos - old(pos)
        decreases |items| - pos
      {
        n := n + 1;
        Next();
      }
    }

    /** toArray(): the remaining elements, in order. */
    method ToArray() returns (r: seq<T>)
      requires Valid()
      modifies this
      ensures Valid()
      ensures r == old(Remaining()) && pos == |items|
    {
      r := [];
      while IsValid()
        invariant Valid() && old(pos) <= pos
        invariant r == items[old(pos)..pos]
        decreases |items| - pos
      {
        r := r + [Current()];
        Next();
      }
    }

    /** defaultIfEmpty(): the remaining elements, or, when there are none, exactly the values
        the caller passed (func_get_args(): none when called without arguments). */
    method DefaultIfEmpty(defValues: seq<T>) returns (r: seq<T>)
      requires Valid()
      modifies this
      ensures Valid()
      ensures r == (if old(Remaining()) == [] then defValues else old(Remaining())) && pos == |items|
    {
      if IsValid() {
        r := [];
        while IsValid()
          invariant Valid() && old(pos) <= pos
          invariant r == items[old(pos)..pos]
          decreases |items| - pos
        {
          r := r + [Current()];
          Next();
        }
      } else {
        r := defValues;
      }
    }

    /** concat(): the remaining elements of this sequence, then those of `other`. When `other`
        is this same sequence, its cursor is already at the end once the first part is drained. */
    method Concat(other: EnumerableBase<T>) returns (r: seq<T>)
      requires Valid() && other.Valid()
      modifies this, other
      ensures Valid() && other.Valid()
      ensures r == old(Remaining()) + (if other == this then [] else old(other.Remaining()))
      ensures pos == |items| && other.pos == |other.items|
    {
      r := [];
      while IsValid()
        invariant Valid() && other.Valid() && old(pos) <= pos
        invariant r == items[old(pos)..pos]
        invariant other != this ==> other.pos == old(other.pos)
        decreases |items| - pos
      {
        r := r + [Current()];
        Next();
      }
      ghost var first := r;
      while other.IsValid()
        invariant Valid() && other.Valid() && pos == |items|
        invariant other == this ==> r == first
        invariant other != this ==> old(other.pos) <= other.pos
        invariant other != this ==> r == first + other.items[old(other.pos)..other.pos]
        decreases |other.items| - other.pos
      {
        r := r + [other.Current()];
        other.Next();
      }
    }

    /** zip(): the selector applied to the pairs of this sequence's and `second`'s elements, up
        to the shorter of the two. The selector must be a two-parameter callable. */
    method Zip<S(==,!new), U>(second: seq<S>, selector: Arg<T, (T, S) -> U>) returns (r: Result<seq<U>>)
      requires Valid()
      modifies this
      ensures Valid()
      ensures CheckForFunctionOrThrow(selector, 2, false).Fail? ==>
        r == Failure(FunctionRequired(2)) && pos == old(pos)
      ensures CheckForFunctionOrThrow(selector, 2, false).Pass? ==>
        var rest := old(Remaining());
        r == Success(Sequences.Zip(rest, second, selector.call)) &&
        pos == old(pos) + (if |rest| <= |second| then |rest| else |second|)
    {
      var check := CheckForFunctionOrThrow(selector, 2, false);
      if check.Fail? {
        return Failure(check.error);
      }
      var other := new EnumerableBase<S>(second);
      var result := ZipInner(other, selector.call);
      return Success(result);
    }

    /** zipInner: the generator behind zip(); advances both cursors together. */
    method ZipInner<S(==,!new), U>(second: EnumerableBase<S>, f: (T, S) -> U) returns (r: seq<U>)
      requires Valid() && second.Valid() && second as object != this
      modifies this, second
      ensures Valid() && second.Valid()
      ensures var rest := old(Remaining());
        var other := old(second.Remaining());
        var n := if |rest| <= |other| then |rest| else |other|;
        r == Sequences.Zip(rest, other, f) && pos == old(pos) + n && second.pos == old(second.pos) + n
    {
      ghost var start := pos;
      ghost var start2 := second.pos;
      r := [];
      while IsValid() && second.IsValid()
        invariant Valid() && second.Valid() && start <= pos
        invariant pos - start == second.pos - start2 == |r|
        invariant forall k :: 0 <= k < |r| ==> r[k] == f(items[start + k], second.items[start2 + k])
        decreases |items| - pos
      {
        r := r + [f(Current(), second.Current())];
        Next();
        second.Next();
      }
      assert r == Sequences.Zip(old(Remaining()), old(second.Remaining()), f);
    }

    /** sequenceEqual(): true when this sequence and `second` have the same length and the
        comparer holds for each pair. Stops after the first pair that fails it, or after the
        first element of this sequence that has no partner. */
    method SequenceEqual(second: seq<T>, comparer: Arg<T, (T, T) -> bool>) returns (r: Result<bool>)
      requires Valid()
      modifies this
      ensures Valid()
      ensures CheckForFunctionOrThrow(comparer, 2).Fail? ==>
        r == Failure(FunctionRequired(2)) && pos == old(pos)
      ensures CheckForFunctionOrThrow(comparer, 2).Pass? ==>
        var rest := old(Remaining());
        var cmp := GetComparerSafe(comparer);
        var k := Sequences.MismatchIndex(rest, second, cmp);
        r == Success(|rest| == |second| && forall j :: 0 <= j < |rest| ==> cmp(rest[j], second[j])) &&
        pos == old(pos) + (if k < |rest| then k + 1 else |rest|)
    {
      var check := CheckForFunctionOrThrow(comparer, 2);
      if check.Fail? {
        return Failure(check.error);
      }
      var cmp := GetComparerSafe(comparer);
      ghost var rest := Remaining();
      var other := new EnumerableBase<T>(second);
      while IsValid()
        invariant Valid() && other.Valid() && fresh(other) && other.items == second
        invariant old(pos) <= pos && pos - old(pos) == other.pos
        invariant forall j :: 0 <= j < other.pos ==> cmp(rest[j], second[j])
        decreases |items| - pos
      {
        var x := Current();
        Next();
        if !other.IsValid() {
          Sequences.MismatchIndexIs(rest, second, cmp, |second|);
          return Success(false);
        }
        var y := other.Current();
        other.Next();
        if !cmp(x, y) {
          Sequences.MismatchIndexIs(rest, second, cmp, other.pos - 1);
          return Success(false);
        }
      }
      Sequences.MismatchIndexIs(rest, second, cmp, |rest|);
      if other.IsValid() {
        return Success(false);
      }
      return Success(true);
    }

    // ------------------------------------------------------------ set operators

    /** distinct(): each remaining element that the comparer does not match (comparer(e, t))
        against an element t already yielded, in order. */
    method Distinct(comparer: Arg<T, (T, T) -> bool>) returns (r: Result<seq<T>>)
      requires Valid()
      modifies this
      ensures Valid()
      ensures CheckForFunctionOrThrow(comparer, 2).Fail? ==>
        r == Failure(FunctionRequired(2)) && pos == old(pos)
      ensures CheckForFunctionOrThrow(comparer, 2).Pass? ==>
        r == Success(Sequences.Distinct(old(Remaining()), GetComparerSafe(comparer))) && pos == |items|
    {
      var check := CheckForFunctionOrThrow(comparer, 2);
      if check.Fail? {
        return Failure(check.error);
      }
      var result := DistinctInner(GetComparerSafe(comparer));
      return Success(result);
    }

    /** distinctInner: the generator behind distinct(); `temp` holds the elements yielded so far
        and each element is searched for in it. */
    method DistinctInner(cmp: (T, T) -> bool) returns (r: seq<T>)
      requires Valid()
      modifies this
      ensures Valid()
      ensures r == Sequences.Distinct(old(Remaining()), cmp) && pos == |items|
    {
      var temp := [];
      while IsValid()
        invariant Valid()
        invariant temp + Sequences.DistinctFrom(Remaining(), cmp, temp) ==
          Sequences.Distinct(old(Remaining()), cmp)
        decreases |items| - pos
      {
        var i := Current();
        var alreadyInList := false;
        var j := 0;
        while j < |temp|
          invariant 0 <= j <= |temp|
          invariant forall t :: 0 <= t < j ==> !cmp(i, temp[t])
        {
          if cmp(i, temp[j]) {
            alreadyInList := true;
            break;
          }
          j := j + 1;
        }
        assert alreadyInList <==> Sequences.IsDuplicate(temp, i, cmp);
        if !alreadyInList {
          assert (temp + [i]) + Sequences.DistinctFrom(Remaining()[1..], cmp, temp + [i]) ==
            temp + ([i] + Sequences.DistinctFrom(Remaining()[1..], cmp, temp + [i]));
          temp := temp + [i];
        }
        Next();
      }
      assert Remaining() == [];
      r := temp;
    }

    /** except(): the remaining elements that match no element of the distinct elements of
        `second`. */
    method Except(second: seq<T>, comparer: Arg<T, (T, T) -> bool>) returns (r: Result<seq<T>>)
      requires Valid()
      modifies this
      ensures Valid()
      ensures CheckForFunctionOrThrow(comparer, 2).Fail? ==>
        r == Failure(FunctionRequired(2)) && pos == old(pos)
      ensures CheckForFunctionOrThrow(comparer, 2).Pass? ==>
        var cmp := GetComparerSafe(comparer);
        r == Success(Sequences.Except(old(Remaining()), Sequences.Distinct(second, cmp), cmp)) &&
        pos == |items|
    {
      var check := CheckForFunctionOrThrow(comparer, 2);
      if check.Fail? {
        return Failure(check.error);
      }
      var cmp := GetComparerSafe(comparer);
      var secondSeq := new EnumerableBase<T>(second);
      var distinctSecond := secondSeq.Distinct(Callable(2, cmp));
      var result := ExceptInner(distinctSecond.value, cmp);
      return Success(result);
    }

    /** exceptInner: each remaining element is looked up by contains() on a reset cursor over
        the elements to exclude (`second`'s distinct elements as an array), and is yielded when
        it is not found there (comparer(t, e) for no t). */
    method ExceptInner(excl: seq<T>, cmp: (T, T) -> bool) returns (r: seq<T>)
      requires Valid()
      modifies this
      ensures Valid()
      ensures r == Sequences.Except(old(Remaining()), excl, cmp) && pos == |items|
    {
      var comparerFn: Arg<T, (T, T) -> bool> := Callable(2, cmp);
      var itemsToExclude := new EnumerableBase<T>(excl);
      ghost var keep := Sequences.NotIn(excl, cmp);
      ghost var start := pos;
      r := [];
      while IsValid()
        invariant Valid() && start <= pos
        invariant fresh(itemsToExclude) && itemsToExclude.Valid() && itemsToExclude.items == excl
        invariant r == Sequences.Filter(items[start..pos], keep)
        decreases |items| - pos
      {
        var i := Current();
        var _ := itemsToExclude.Reset();
        var found := itemsToExclude.Contains(i, comparerFn);
        Sequences.FilterExtend(items, start, pos, keep);
        if !found.value {
          r := r + [i];
        }
        Next();
      }
      assert items[start..pos] == old(Remaining());
    }

    /** intersect(): each remaining element that matches (comparer(v, e)) an element v of the
        distinct elements of `second`; the first such v is then removed, so each element of
        `second` is used at most once. */
    method Intersect(second: seq<T>, comparer: Arg<T, (T, T) -> bool>) returns (r: Result<seq<T>>)
      requires Valid()
      modifies this
      ensures Valid()
      ensures CheckForFunctionOrThrow(comparer, 2).Fail? ==>
        r == Failure(FunctionRequired(2)) && pos == old(pos)
      ensures CheckForFunctionOrThrow(comparer, 2).Pass? ==>
        var cmp := GetComparerSafe(comparer);
        r == Success(Sequences.IntersectFrom(old(Remaining()), Sequences.Distinct(second, cmp), cmp)) &&
        pos == |items|
    {
      var check := CheckForFunctionOrThrow(comparer, 2);
      if check.Fail? {
        return Failure(check.error);
      }
      var cmp := GetComparerSafe(comparer);
      var secondSeq := new EnumerableBase<T>(second);
      var distinctSecond := secondSeq.Distinct(Callable(2, cmp));
      var result := IntersectInner(distinctSecond.value, cmp);
      return Success(result);
    }

    /** The search of intersect's inner loop: the index of the first pool element v with
        comparer(v, x), or |pool| when there is none. */
    static method FindMatch(pool: seq<T>, x: T, cmp: (T, T) -> bool) returns (k: nat)
      ensures k == Sequences.FirstIndex(pool, Sequences.MatchedBy(cmp, x))
    {
      ghost var q := Sequences.MatchedBy(cmp, x);
      k := 0;
      while k < |pool|
        invariant 0 <= k <= |pool|
        invariant forall t :: 0 <= t < k ==> !q(pool[t])
      {
        if cmp(pool[k], x) {
          break;
        }
        k := k + 1;
      }
      Sequences.FirstIndexIs(pool, q, k);
    }

    /** intersectInner: for each remaining element, the first element of `secondArray` (the
        distinct elements of `second`) that matches it is searched for; on a match the element
        is yielded and that array entry is unset. */
    method IntersectInner(secondArray: seq<T>, cmp: (T, T) -> bool) returns (r: seq<T>)
      requires Valid()
      modifies this
      ensures Valid()
      ensures r == Sequences.IntersectFrom(old(Remaining()), secondArray, cmp) && pos == |items|
    {
      var pool := secondArray;
      ghost var goal := Sequences.IntersectFrom(old(Remaining()), secondArray, cmp);
      r := [];
      while IsValid()
        invariant Valid()
        invariant r + Sequences.IntersectFrom(items[pos..], pool, cmp) == goal
        decreases |items| - pos
      {
        var ci := Current();
        var k := FindMatch(pool, ci, cmp);
        Sequences.IntersectFromStep(items, pos, r, pool, cmp, k);
        if k < |pool| {
          r := r + [ci];
          pool := Sequences.RemoveAt(pool, k);
        }
        Next();
      }
      assert items[pos..] == [];
    }

    /** union(): distinct() over the concatenation of this sequence and `other`. The comparer
        is checked before anything is consumed. */
    method Union(other: EnumerableBase<T>, comparer: Arg<T, (T, T) -> bool>) returns (r: Result<seq<T>>)
      requires Valid() && other.Valid()
      modifies this, other
      ensures Valid() && other.Valid()
      ensures CheckForFunctionOrThrow(comparer, 2).Fail? ==>
        r == Failure(FunctionRequired(2)) && pos == old(pos) && other.pos == old(other.pos)
      ensures CheckForFunctionOrThrow(comparer, 2).Pass? ==>
        var joined := old(Remaining()) + (if other == this then [] else old(other.Remaining()));
        r == Success(Sequences.Distinct(joined, GetComparerSafe(comparer))) &&
        pos == |items| && other.pos == |other.items|
    {
      var check := CheckForFunctionOrThrow(comparer, 2);
      if check.Fail? {
        return Failure(check.error);
      }
      var joined := Concat(other);
      var concatenated := new EnumerableBase<T>(joined);
      r := concatenated.Distinct(comparer);
    }

    // ------------------------------------------------------------ element queries

    /** firstOrDefault(): the first remaining element that satisfies the predicate, or the
        default; stops after that element. */
    method FirstOrDefault(args: PredicateArgs<T>) returns (r: Result<Option<T>>)
      requires Valid()
      modifies this
      ensures Valid()
      ensures r == Failure(FunctionRequired(1)) <==> BadPredicateArgs(args)
      ensures var pred, defValue := ResolvePredicateArgs(args).0, ResolvePredicateArgs(args).1;
        CheckForFunctionOrThrow(pred, 1).Fail? ==> r == Failure(FunctionRequired(1)) && pos == old(pos)
      ensures var pred, defValue := ResolvePredicateArgs(args).0, ResolvePredicateArgs(args).1;
        CheckForFunctionOrThrow(pred, 1).Pass? ==>
          var rest := old(Remaining());
          var p := ToPredicateSafe(pred);
          var k := Sequences.FirstIndex(rest, p);
          r == Success(if k < |rest| then Some(rest[k]) else defValue) &&
          pos == old(pos) + Sequences.StopAfter(rest, p)
    {
      ResolvedPredicateCheck(args);
      var resolved := ResolvePredicateArgs(args);
      r := FirstOrDefaultWith(resolved.0, resolved.1);
    }

    /** firstOrDefault() with the predicate and default value already resolved. */
    method FirstOrDefaultWith(pred: Arg<T, T -> bool>, defValue: Option<T>) returns (r: Result<Option<T>>)
      requires Valid()
      modifies this
      ensures Valid()
      ensures CheckForFunctionOrThrow(pred, 1).Fail? ==> r == Failure(FunctionRequired(1)) && pos == old(pos)
      ensures CheckForFunctionOrThrow(pred, 1).Pass? ==>
        var rest := old(Remaining());
        var p := ToPredicateSafe(pred);
        var k := Sequences.FirstIndex(rest, p);
        r == Success(if k < |rest| then Some(rest[k]) else defValue) &&
        pos == old(pos) + Sequences.StopAfter(rest, p)
    {
      var check := CheckForFunctionOrThrow(pred, 1);
      if check.Fail? {
        return Failure(check.error);
      }
      var p := ToPredicateSafe(pred);
      ghost var rest := Remaining();
      var result := defValue;
      while IsValid()
        invariant Valid() && old(pos) <= pos
        invariant forall k :: old(pos) <= k < pos ==> !p(items[k])
        decreases |items| - pos
      {
        var i := Current();
        Next();
        if p(i) {
          Sequences.FirstIndexIs(rest, p, pos - 1 - old(pos));
          result := Some(i);
          return Success(result);
        }
      }
      Sequences.FirstIndexIs(rest, p, |rest|);
      return Success(result);
    }

    /** lastOrDefault(): the last remaining element that satisfies the predicate, or the
        default. */
    method LastOrDefault(args: PredicateArgs<T>) returns (r: Result<Option<T>>)
      requires Valid()
      modifies this
      ensures Valid()
      ensures r == Failure(FunctionRequired(1)) <==> BadPredicateArgs(args)
      ensures var pred, defValue := ResolvePredicateArgs(args).0, ResolvePredicateArgs(args).1;
        CheckForFunctionOrThrow(pred, 1).Fail? ==> r == Failure(FunctionRequired(1)) && pos == old(pos)
      ensures var pred, defValue := ResolvePredicateArgs(args).0, ResolvePredicateArgs(args).1;
        CheckForFunctionOrThrow(pred, 1).Pass? ==>
          var matches := Sequences.Filter(old(Remaining()), ToPredicateSafe(pred));
          r == Success(if |matches| == 0 then defValue else Some(matches[|matches| - 1])) &&
          pos == |items|
    {
      ResolvedPredicateCheck(args);
      var resolved := ResolvePredicateArgs(args);
      r := LastOrDefaultWith(resolved.0, resolved.1);
    }

    /** lastOrDefault() with the predicate and default value already resolved. */
    method LastOrDefaultWith(pred: Arg<T, T -> bool>, defValue: Option<T>) returns (r: Result<Option<T>>)
      requires Valid()
      modifies this
      ensures Valid()
      ensures CheckForFunctionOrThrow(pred, 1).Fail? ==> r == Failure(FunctionRequired(1)) && pos == old(pos)
      ensures CheckForFunctionOrThrow(pred, 1).Pass? ==>
        var matches := Sequences.Filter(old(Remaining()), ToPredicateSafe(pred));
        r == Success(if |matches| == 0 then defValue else Some(matches[|matches| - 1])) &&
        pos == |items|
    {
      var check := CheckForFunctionOrThrow(pred, 1);
      if check.Fail? {
        return Failure(check.error);
      }
      var p := ToPredicateSafe(pred);
      ghost var start := pos;
      ghost var matches := [];
      var result := defValue;
      while IsValid()
        invariant Valid() && start <= pos
        invariant matches == Sequences.Filter(items[start..pos], p)
        invariant result == if |matches| == 0 then defValue else Some(matches[|matches| - 1])
        decreases |items| - pos
      {
        var i := Current();
        if p(i) {
          result := Some(i);
          matches := matches + [i];
        }
        assert matches == Sequences.Filter(items[start..pos + 1], p) by {
          Sequences.FilterExtend(items, start, pos, p);
        }
        Next();
      }
      assert matches == Sequences.Filter(old(Remaining()), p) by {
        assert items[start..pos] == old(Remaining());
      }
      return Success(result);
    }

    /** singleOrDefault(): the only remaining element that satisfies the predicate, or the
        default when none does; more than one match is an error, raised after the whole sequence
        is consumed. */
    method SingleOrDefault(args: PredicateArgs<T>) returns (r: Result<Option<T>>)
      requires Valid()
      modifies this
      ensures Valid()
      ensures r == Failure(FunctionRequired(1)) <==> BadPredicateArgs(args)
      ensures var pred, defValue := ResolvePredicateArgs(args).0, ResolvePredicateArgs(args).1;
        CheckForFunctionOrThrow(pred, 1).Fail? ==> r == Failure(FunctionRequired(1)) && pos == old(pos)
      ensures var pred, defValue := ResolvePredicateArgs(args).0, ResolvePredicateArgs(args).1;
        CheckForFunctionOrThrow(pred, 1).Pass? ==>
          var matches := Sequences.Filter(old(Remaining()), ToPredicateSafe(pred));
          r == (if |matches| > 1 then Failure(MoreThanOneMatch)
                else Success(if |matches| == 0 then defValue else Some(matches[0]))) &&
          pos == |items|
    {
      ResolvedPredicateCheck(args);
      var resolved := ResolvePredicateArgs(args);
      r := SingleOrDefaultWith(resolved.0, resolved.1);
    }

    /** singleOrDefault() with the predicate and default value already resolved. */
    method SingleOrDefaultWith(pred: Arg<T, T -> bool>, defValue: Option<T>) returns (r: Result<Option<T>>)
      requires Valid()
      modifies this
      ensures Valid()
      ensures CheckForFunctionOrThrow(pred, 1).Fail? ==> r == Failure(FunctionRequired(1)) && pos == old(pos)
      ensures CheckForFunctionOrThrow(pred, 1).Pass? ==>
        var matches := Sequences.Filter(old(Remaining()), ToPredicateSafe(pred));
        r == (if |matches| > 1 then Failure(MoreThanOneMatch)
              else Success(if |matches| == 0 then defValue else Some(matches[0]))) &&
        pos == |items|
    {
      var check := CheckForFunctionOrThrow(pred, 1);
      if check.Fail? {
        return Failure(check.error);
      }
      var p := ToPredicateSafe(pred);
      ghost var start := pos;
      ghost var matches := [];
      var result := defValue;
      var matchCount := 0;
      while IsValid()
        invariant Valid() && start <= pos
        invariant matches == Sequences.Filter(items[start..pos], p)
        invariant matchCount == |matches|
        invariant result == if |matches| == 0 then defValue else Some(matches[|matches| - 1])
        decreases |items| - pos
      {
        var i := Current();
        if p(i) {
          result := Some(i);
          matchCount := matchCount + 1;
          matches := matches + [i];
        }
        assert matches == Sequences.Filter(items[start..pos + 1], p) by {
          Sequences.FilterExtend(items, start, pos, p);
        }
        Next();
      }
      assert matches == Sequences.Filter(old(Remaining()), p) by {
        assert items[start..pos] == old(Remaining());
      }
      if matchCount > 1 {
        return Failure(MoreThanOneMatch);
      }
      return Success(result);
    }
  }

  // -------------------------------------------------------------- operators over int sequences

  /** sum(): the remaining elements added up from the first one, or `defValue` when there are
      none. */
  method Sum(e: EnumerableBase<int>, defValue: Option<int>) returns (r: Option<int>)
    requires e.Valid()
    modifies e
    ensures e.Valid() && e.pos == |e.items|
    ensures old(e.Remaining()) == [] ==> r == defValue
    ensures old(e.Remaining()) != [] ==> r == Some(Sequences.Sum(old(e.Remaining())))
  {
    ghost var start := e.pos;
    r := defValue;
    var isFirst := true;
    while e.IsValid()
      invariant e.Valid() && start <= e.pos
      invariant isFirst <==> e.pos == start
      invariant isFirst ==> r == defValue
      invariant !isFirst ==> r == Some(Sequences.Sum(e.items[start..e.pos]))
      decreases |e.items| - e.pos
    {
      var i := e.Current();
      if isFirst {
        r := Some(i);
        isFirst := false;
      } else {
        Sequences.FoldsExtend(e.items, start, e.pos);
        r := Some(r.value + i);
      }
      e.Next();
    }
    assert e.items[start..e.pos] == old(e.Remaining());
  }

  /** multiply(): the remaining elements multiplied from the first one, or `defValue` when
      there are none. */
  method Multiply(e: EnumerableBase<int>, defValue: Option<int>) returns (r: Option<int>)
    requires e.Valid()
    modifies e
    ensures e.Valid() && e.pos == |e.items|
    ensures old(e.Remaining()) == [] ==> r == defValue
    ensures old(e.Remaining()) != [] ==> r == Some(Sequences.Product(old(e.Remaining())))
  {
    ghost var start := e.pos;
    r := defValue;
    var isFirst := true;
    while e.IsValid()
      invariant e.Valid() && start <= e.pos
      invariant isFirst <==> e.pos == start
      invariant isFirst ==> r == defValue
      invariant !isFirst ==> r == Some(Sequences.Product(e.items[start..e.pos]))
      decreases |e.items| - e.pos
    {
      var i := e.Current();
      if !isFirst {
        Sequences.FoldsExtend(e.items, start, e.pos);
        r := Some(r.value * i);
      } else {
        isFirst := false;
        r := Some(i);
      }
      e.Next();
    }
    assert e.items[start..e.pos] == old(e.Remaining());
  }

  /** product(): multiply(). */
  method Product(e: EnumerableBase<int>, defValue: Option<int>) returns (r: Option<int>)
    requires e.Valid()
    modifies e
    ensures e.Valid() && e.pos == |e.items|
    ensures old(e.Remaining()) == [] ==> r == defValue
    ensures old(e.Remaining()) != [] ==> r == Some(Sequences.Product(old(e.Remaining())))
  {
    r := Multiply(e, defValue);
  }

  /** min(): the first of the smallest remaining elements, or `defValue` when there are none. */
  method Min(e: EnumerableBase<int>, defValue: Option<int>) returns (r: Option<int>)
    requires e.Valid()
    modifies e
    ensures e.Valid() && e.pos == |e.items|
    ensures old(e.Remaining()) == [] ==> r == defValue
    ensures old(e.Remaining()) != [] ==> r == Some(Sequences.Min(old(e.Remaining())))
  {
    ghost var start := e.pos;
    r := defValue;
    var isFirst := true;
    while e.IsValid()
      invariant e.Valid() && start <= e.pos
      invariant isFirst <==> e.pos == start
      invariant isFirst ==> r == defValue
      invariant !isFirst ==> r == Some(Sequences.Min(e.items[start..e.pos]))
      decreases |e.items| - e.pos
    {
      var i := e.Current();
      if !isFirst {
        Sequences.FoldsExtend(e.items, start, e.pos);
        if i < r.value {
          r := Some(i);
        }
      } else {
        isFirst := false;
        r := Some(i);
      }
      e.Next();
    }
    assert e.items[start..e.pos] == old(e.Remaining());
  }

  /** max(): the first of the largest remaining elements, or `defValue` when there are none. */
  method Max(e: EnumerableBase<int>, defValue: Option<int>) returns (r: Option<int>)
    requires e.Valid()
    modifies e
    ensures e.Valid() && e.pos == |e.items|
    ensures old(e.Remaining()) == [] ==> r == defValue
    ensures old(e.Remaining()) != [] ==> r == Some(Sequences.Max(old(e.Remaining())))
  {
    ghost var start := e.pos;
    r := defValue;
    var isFirst := true;
    while e.IsValid()
      invariant e.Valid() && start <= e.pos
      invariant isFirst <==> e.pos == start
      invariant isFirst ==> r == defValue
      invariant !isFirst ==> r == Some(Sequences.Max(e.items[start..e.pos]))
      decreases |e.items| - e.pos
    {
      var i := e.Current();
      if !isFirst {
        Sequences.FoldsExtend(e.items, start, e.pos);
        if i > r.value {
          r := Some(i);
        }
      } else {
        isFirst := false;
        r := Some(i);
      }
      e.Next();
    }
    assert e.items[start..e.pos] == old(e.Remaining());
  }

  /** orderByInner(): buffers each remaining element as the pair [key(e), e], sorts the pairs
      with the callback algo(x[0], y[1]), and yields the elements of the sorted pairs. */
  method OrderByInner(e: EnumerableBase<int>, sortSelector: int -> int, algo: (int, int) -> int)
    returns (r: seq<int>)
    requires e.Valid()
    modifies e
    ensures e.Valid() && e.pos == |e.items|
    ensures r == Sorting.InsertionSort(old(e.Remaining()), Sorting.MixedAlgo(sortSelector, algo))
    ensures multiset(r) == multiset(old(e.Remaining()))
  {
    ghost var start := e.pos;
    var pairs: seq<(int, int)> := [];
    while e.IsValid()
      invariant e.Valid() && start <= e.pos
      invariant |pairs| == e.pos - start
      invariant forall k :: 0 <= k < |pairs| ==>
        pairs[k] == (sortSelector(e.items[start + k]), e.items[start + k])
      decreases |e.items| - e.pos
    {
      var i := e.Current();
      pairs := pairs + [(sortSelector(i), i)];
      e.Next();
    }
    var sorted := Sorting.InsertionSort(pairs, Sorting.PairAlgo(algo));
    r := [];
    for k := 0 to |sorted|
      invariant |r| == k
      invariant forall j :: 0 <= j < k ==> r[j] == sorted[j].1
    {
      r := r + [sorted[k].1];
    }
    assert r == Sequences.Map(sorted, Sorting.Second);
    ghost var rest := old(e.Remaining());
    assert pairs == Sequences.Map(rest, Sorting.Tagged(sortSelector));
    Sorting.SortedPairsElements(rest, sortSelector, algo);
  }

  /** orderBy(): checks that the sort selector is a one-parameter callable (null refused) and
      the sort algorithm a two-parameter one or null, then sorts. */
  method OrderBy(e: EnumerableBase<int>, sortSelector: Arg<int, int -> int>, algo: Arg<int, (int, int) -> int>)
    returns (r: Result<seq<int>>)
    requires e.Valid()
    modifies e
    ensures e.Valid()
    ensures CheckForFunctionOrThrow(sortSelector, 1, false).Fail? ==>
      r == Failure(FunctionRequired(1)) && e.pos == old(e.pos)
    ensures CheckForFunctionOrThrow(sortSelector, 1, false).Pass? && CheckForFunctionOrThrow(algo, 2).Fail? ==>
      r == Failure(FunctionRequired(2)) && e.pos == old(e.pos)
    ensures CheckForFunctionOrThrow(sortSelector, 1, false).Pass? && CheckForFunctionOrThrow(algo, 2).Pass? ==>
      r == Success(Sorting.InsertionSort(old(e.Remaining()), Sorting.MixedAlgo(sortSelector.call, GetSortAlgoSafe(algo)))) &&
      e.pos == |e.items|
  {
    var selectorCheck := CheckForFunctionOrThrow(sortSelector, 1, false);
    if selectorCheck.Fail? {
      return Failure(selectorCheck.error);
    }
    var algoCheck := CheckForFunctionOrThrow(algo, 2);
    if algoCheck.Fail? {
      return Failure(algoCheck.error);
    }
    var sortAlgo := GetSortAlgoSafe(algo);
    var sorted := OrderByInner(e, sortSelector.call, sortAlgo);
    return Success(sorted);
  }

  /** orderByDescending(): orderBy() with the sort algorithm's results negated. */
  method OrderByDescending(e: EnumerableBase<int>, sortSelector: Arg<int, int -> int>, algo: Arg<int, (int, int) -> int>)
    returns (r: Result<seq<int>>)
    requires e.Valid()
    modifies e
    ensures e.Valid()
    ensures CheckForFunctionOrThrow(sortSelector, 1, false).Fail? ==>
      r == Failure(FunctionRequired(1)) && e.pos == old(e.pos)
    ensures CheckForFunctionOrThrow(sortSelector, 1, false).Pass? && CheckForFunctionOrThrow(algo, 2).Fail? ==>
      r == Failure(FunctionRequired(2)) && e.pos == old(e.pos)
    ensures CheckForFunctionOrThrow(sortSelector, 1, false).Pass? && CheckForFunctionOrThrow(algo, 2).Pass? ==>
      r == Success(Sorting.InsertionSort(old(e.Remaining()),
                                         Sorting.MixedAlgo(sortSelector.call, Sorting.Negated(GetSortAlgoSafe(algo))))) &&
      e.pos == |e.items|
  {
    var selectorCheck := CheckForFunctionOrThrow(sortSelector, 1, false);
    if selectorCheck.Fail? {
      return Failure(selectorCheck.error);
    }
    var algoCheck := CheckForFunctionOrThrow(algo, 2);
    if algoCheck.Fail? {
      return Failure(algoCheck.error);
    }
    var sortAlgo := GetSortAlgoSafe(algo);
    var descAlgo := Sorting.Negated(sortAlgo);
    var sorted := OrderByInner(e, sortSelector.call, descAlgo);
    return Success(sorted);
  }

  /** order(): orderBy() with each element as its own key. The result is a permutation of the
      remaining elements, sorted under a connex sort algorithm, ascending under the default one. */
  method Order(e: EnumerableBase<int>, algo: Arg<int, (int, int) -> int>) returns (r: Result<seq<int>>)
    requires e.Valid()
    modifies e
    ensures e.Valid()
    ensures CheckForFunctionOrThrow(algo, 2).Fail? ==> r == Failure(FunctionRequired(2)) && e.pos == old(e.pos)
    ensures CheckForFunctionOrThrow(algo, 2).Pass? ==>
      r.Success? && e.pos == |e.items| &&
      r.value == Sorting.InsertionSort(old(e.Remaining()), Sorting.MixedAlgo(Sorting.Identity, GetSortAlgoSafe(algo))) &&
      multiset(r.value) == multiset(old(e.Remaining())) &&
      (Sorting.Connex(GetSortAlgoSafe(algo)) ==> Sorting.Sorted(r.value, GetSortAlgoSafe(algo))) &&
      (algo.Null? ==> Sorting.Ascending(r.value))
  {
    var identity: Arg<int, int -> int> := Callable(1, Sorting.Identity);
    r := OrderBy(e, identity, algo);
    if CheckForFunctionOrThrow(algo, 2).Pass? {
      ghost var rest := old(e.Remaining());
      if Sorting.Connex(GetSortAlgoSafe(algo)) {
        Sorting.OrderedByIdentitySorted(rest, GetSortAlgoSafe(algo));
      }
      if algo.Null? {
        Sorting.DefaultOrderAscending(rest);
      }
    }
  }

  /** orderDescending(): orderByDescending() with each element as its own key. The result is a
      permutation of the remaining elements, sorted under the negated sort algorithm when that
      is connex, descending under the default one. */
  method OrderDescending(e: EnumerableBase<int>, algo: Arg<int, (int, int) -> int>) returns (r: Result<seq<int>>)
    requires e.Valid()
    modifies e
    ensures e.Valid()
    ensures CheckForFunctionOrThrow(algo, 2).Fail? ==> r == Failure(FunctionRequired(2)) && e.pos == old(e.pos)
    ensures CheckForFunctionOrThrow(algo, 2).Pass? ==>
      r.Success? && e.pos == |e.items| &&
      r.value == Sorting.InsertionSort(old(e.Remaining()),
                                       Sorting.MixedAlgo(Sorting.Identity, Sorting.Negated(GetSortAlgoSafe(algo)))) &&
      multiset(r.value) == multiset(old(e.Remaining())) &&
      (Sorting.Connex(Sorting.Negated(GetSortAlgoSafe(algo))) ==>
         Sorting.Sorted(r.value, Sorting.Negated(GetSortAlgoSafe(algo)))) &&
      (algo.Null? ==> Sorting.Descending(r.value))
  {
    var identity: Arg<int, int -> int> := Callable(1, Sorting.Identity);
    r := OrderByDescending(e, identity, algo);
    if CheckForFunctionOrThrow(algo, 2).Pass? {
      ghost var rest := old(e.Remaining());
      if Sorting.Connex(Sorting.Negated(GetSortAlgoSafe(algo))) {
        Sorting.OrderedByIdentitySorted(rest, Sorting.Negated(GetSortAlgoSafe(algo)));
      }
      if algo.Null? {
        Sorting.DefaultOrderDescending(rest);
      }
    }
  }
}
