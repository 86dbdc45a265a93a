/** Optional values, the failures the library raises, and results that carry
    either a value or one of those failures. */
module Outcomes {

  datatype Option<T> = None | Some(value: T)

  /** The ways a call into the library can fail. Each stands for a Ruby
      exception raised by the library (or by Ruby itself on a nil receiver). */
  datatype Error =
    | ForeignPoint          // a point is inserted into a timeline that is not its own
    | AnchorNotPositioned   // the anchor of a relative insertion has no position (nil + offset)
    | NotComparable         // two points compared that are not positioned on one timeline
    | NotColinear           // a span built from points not positioned on one timeline
    | UndefinedMethod       // a method body that calls a method nobody defines

  datatype Result<T> = Ok(value: T) | Err(error: Error)

  /** Ruby's short-circuit `first && second` over predicates that may raise:
      a failure of `first` propagates, a false `first` answers false without
      evaluating `second`, a true `first` answers whatever `second` does. */
  function AndThen(first: Result<bool>, second: Result<bool>): (r: Result<bool>)
    ensures r == Ok(true) <==> first == Ok(true) && second == Ok(true)
    ensures r.Err? <==> first.Err? || (first == Ok(true) && second.Err?)
  {
    match first
    case Err(e) => Err(e)
    case Ok(b) => if b then second else Ok(false)
  }

  /** Ruby's short-circuit `first || second`. */
  function OrElse(first: Result<bool>, second: Result<bool>): (r: Result<bool>)
    ensures r == Ok(false) <==> first == Ok(false) && second == Ok(false)
    ensures r.Err? <==> first.Err? || (first == Ok(false) && second.Err?)
  {
    match first
    case Err(e) => Err(e)
    case Ok(b) => if b then Ok(true) else second
  }

  /** Ruby's `!` applied to a predicate that may raise. */
  function Not(x: Result<bool>): (r: Result<bool>)
    ensures r.Err? <==> x.Err?
    ensures r.Ok? ==> r.value == !x.value
  {
    match x
    case Err(e) => Err(e)
    case Ok(b) => Ok(!b)
  }
}
