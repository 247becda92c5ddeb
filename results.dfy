/** Rust's `Option` and `Result`, with the two combinators the crate leans on:
    `iter().map(f).collect::<Result<Vec<_>, _>>()` (TryMap) and
    `Option::map(..).transpose()` (OptionMap, Transpose). */
module Results {

  datatype Option<+T> = None | Some(value: T)

  /** `Result<T, E>`; failure-compatible, so `:-` plays the part of Rust's `?`. */
  datatype Result<+T, +E> = Ok(value: T) | Err(error: E) {

    predicate IsFailure() {
      Err?
    }

    function PropagateFailure<U>(): Result<U, E>
      requires Err?
    {
      Err(error)
    }

    function Extract(): T
      requires Ok?
    {
      value
    }

    /** Rust's `map_err`. */
    function MapErr<F>(wrap: E -> F): Result<T, F>
    {
      match this
      case Ok(v) => Ok(v)
      case Err(e) => Err(wrap(e))
    }
  }

  /** Every element before index `i` converts successfully. */
  ghost predicate AllOkBefore<A, B, E>(f: A -> Result<B, E>, xs: seq<A>, i: int)
    requires 0 <= i <= |xs|
  {
    forall j :: 0 <= j < i ==> f(xs[j]).Ok?
  }

  /** `xs.into_iter().map(f).collect::<Result<Vec<B>, E>>()`: converts element by
      element and stops at the first failure. */
  function TryMap<A, B, E>(f: A -> Result<B, E>, xs: seq<A>): (r: Result<seq<B>, E>)
    ensures r.Ok? <==> forall i :: 0 <= i < |xs| ==> f(xs[i]).Ok?
    ensures r.Ok? ==> |r.value| == |xs|
    ensures r.Ok? ==> forall i :: 0 <= i < |xs| ==> f(xs[i]) == Ok(r.value[i])
    ensures forall i :: 0 <= i < |xs| && AllOkBefore(f, xs, i) && f(xs[i]).Err? ==>
              r == Err(f(xs[i]).error)
    ensures r.Err? ==> exists i :: 0 <= i < |xs| && AllOkBefore(f, xs, i) && f(xs[i]) == Err(r.error)
  {
    if xs == [] then Ok([])
    else
      match f(xs[0])
      case Err(e) =>
        assert AllOkBefore(f, xs, 0);
        Err(e)
      case Ok(y) =>
        match TryMap(f, xs[1..])
        case Err(e) =>
          assert forall i :: 1 <= i < |xs| && AllOkBefore(f, xs, i) ==> AllOkBefore(f, xs[1..], i - 1);
          assert exists i :: 0 <= i < |xs| && AllOkBefore(f, xs, i) && f(xs[i]) == Err(e) by {
            var k :| 0 <= k < |xs| - 1 && AllOkBefore(f, xs[1..], k) && f(xs[1..][k]) == Err(e);
            assert AllOkBefore(f, xs, k + 1) && f(xs[k + 1]) == Err(e);
          }
          Err(e)
        case Ok(ys) => Ok([y] + ys)
  }

  /** Rust's `Option::map`. */
  function OptionMap<A, B>(o: Option<A>, f: A -> B): (r: Option<B>)
    ensures r.None? <==> o.None?
    ensures o.Some? ==> r.value == f(o.value)
  {
    match o
    case None => None
    case Some(a) => Some(f(a))
  }

  /** Rust's `Option::transpose`: `Option<Result<T, E>>` to `Result<Option<T>, E>`. */
  function Transpose<T, E>(o: Option<Result<T, E>>): (r: Result<Option<T>, E>)
    ensures r.Ok? <==> (o.None? || o.value.Ok?)
    ensures r == Ok(None) <==> o.None?
    ensures o.Some? ==> (r.Ok? ==> r.value == Some(o.value.value)) && (r.Err? ==> r.error == o.value.error)
  {
    match o
    case None => Ok(None)
    case Some(Ok(t)) => Ok(Some(t))
    case Some(Err(e)) => Err(e)
  }
}
