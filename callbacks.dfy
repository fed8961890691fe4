/** Callback arguments of the sequence operators, the errors the operators raise, and the
    helpers of EnumerableBase that validate callbacks and substitute the default comparer,
    sort algorithm and predicate when a callback is null. */
module Callbacks {

  datatype Option<T> = None | Some(value: T)

  /** The exceptions the operators throw. */
  datatype Error =
    | FunctionRequired(argCount: nat)  // "Function with <argCount> arguments required!"
    | InvalidCount                     // "count value is invalid!" (take/skip with count < 0)
    | MoreThanOneMatch                 // "Sequence contains more than one matching element!"

  datatype Result<R> = Success(value: R) | Failure(error: Error)

  datatype Outcome = Pass | Fail(error: Error)

  /** A PHP value passed where the operator expects a callback: null, a non-callable value,
      or a callable with `arity` declared parameters that computes `call`. */
  datatype Arg<V, F> = Null | NonCallable(value: V) | Callable(arity: nat, call: F)

  /** checkForFunctionOrThrow: null passes only when `ignoreNull` is set; anything else must be
      a callable with exactly `argCount` parameters. */
  function CheckForFunctionOrThrow<V, F>(obj: Arg<V, F>, argCount: nat := 1, ignoreNull: bool := true): (r: Outcome)
    ensures r.Pass? <==> (obj.Null? && ignoreNull) || (obj.Callable? && obj.arity == argCount)
    ensures r.Fail? ==> r.error == FunctionRequired(argCount)
  {
    if obj.Null? then
      if ignoreNull then Pass else Fail(FunctionRequired(argCount))
    else if obj.Callable? && obj.arity == argCount then
      Pass
    else
      Fail(FunctionRequired(argCount))
  }

  /** The default comparer: value equality. */
  predicate DefaultComparer<T(==)>(x: T, y: T) {
    x == y
  }

  /** getComparerSafe: a null comparer becomes value equality. */
  function GetComparerSafe<V, T(==,!new)>(comparer: Arg<V, (T, T) -> bool>): (c: (T, T) -> bool)
    requires CheckForFunctionOrThrow(comparer, 2).Pass?
    ensures comparer.Null? ==> forall x, y :: c(x, y) <==> x == y
    ensures comparer.Callable? ==> forall x, y :: c(x, y) == comparer.call(x, y)
  {
    if comparer.Null? then DefaultComparer else comparer.call
  }

  /** The default sort algorithm: -1, 0 or 1 as x is below, equal to or above y. */
  function DefaultSortAlgo(x: int, y: int): (r: int)
    ensures -1 <= r <= 1
    ensures r < 0 <==> x < y
    ensures r == 0 <==> x == y
    ensures r > 0 <==> x > y
  {
    if x > y then 1
    else if x < y then -1
    else 0
  }

  /** getSortAlgoSafe: a null sort algorithm becomes the three-way default. */
  function GetSortAlgoSafe<V>(algo: Arg<V, (int, int) -> int>): (a: (int, int) -> int)
    requires CheckForFunctionOrThrow(algo, 2).Pass?
    ensures algo.Null? ==> forall x, y :: a(x, y) == DefaultSortAlgo(x, y)
    ensures algo.Callable? ==> forall x, y :: a(x, y) == algo.call(x, y)
  {
    if algo.Null? then DefaultSortAlgo else algo.call
  }

  /** toPredeciateSafe: a null predicate becomes the constant `defValue`. */
  function ToPredicateSafe<V, T(!new)>(pred: Arg<V, T -> bool>, defValue: bool := true): (p: T -> bool)
    requires CheckForFunctionOrThrow(pred, 1).Pass?
    ensures pred.Null? ==> forall x :: p(x) == defValue
    ensures pred.Callable? ==> forall x :: p(x) == pred.call(x)
  {
    if pred.Null? then _ => defValue else pred.call
  }

  /** The arguments of firstOrDefault, lastOrDefault and singleOrDefault as passed by the caller. */
  datatype PredicateArgs<!T> =
    | NoArgs
    | OneArg(first: Arg<T, T -> bool>)
    | TwoArgs(pred: Arg<T, T -> bool>, defValue: Option<T>)

  /** The overload rule: a single argument that is neither null nor callable is the default
      value, and the predicate is then null. Returns the (predicate, default) pair. */
  function ResolvePredicateArgs<T>(args: PredicateArgs<T>): (r: (Arg<T, T -> bool>, Option<T>))
    ensures args.NoArgs? ==> r.0.Null? && r.1.None?
    ensures args.OneArg? && args.first.NonCallable? ==> r.0.Null? && r.1 == Some(args.first.value)
    ensures args.OneArg? && !args.first.NonCallable? ==> r.0 == args.first && r.1.None?
    ensures args.TwoArgs? ==> r == (args.pred, args.defValue)
  {
    match args
    case NoArgs => (Null, None)
    case OneArg(first) => if first.NonCallable? then (Null, Some(first.value)) else (first, None)
    case TwoArgs(pred, defValue) => (pred, defValue)
  }

  /** The calls firstOrDefault, lastOrDefault and singleOrDefault reject: a lone callable that
      does not take one parameter, or a second argument next to a predicate that is neither null
      nor a one-parameter callable. */
  predicate BadPredicateArgs<T>(args: PredicateArgs<T>)
  {
    (args.OneArg? && args.first.Callable? && args.first.arity != 1) ||
    (args.TwoArgs? && (args.pred.NonCallable? || (args.pred.Callable? && args.pred.arity != 1)))
  }

  /** With the overload rule applied, the check for a one-parameter predicate fails exactly on
      the rejected calls. */
  lemma ResolvedPredicateCheck<T>(args: PredicateArgs<T>)
    ensures CheckForFunctionOrThrow(ResolvePredicateArgs(args).0, 1).Fail? <==> BadPredicateArgs(args)
  {
  }
}
