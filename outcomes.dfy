/** Error kinds of the rpForest library and the value-or-error wrappers its
    operations return in this model; the C++ code throws exception objects
    (PointException, RpTreeNodeExpression, RpForestExperssion) instead. */
module Outcomes {

  datatype Error =
    | DimensionMismatch   // two points of different dimension were compared
    | InvalidParameter    // a non-positive dimension, leaf size or thread count
    | DecodeError         // a token stream that does not follow the layout
    | RandomExhausted     // the injected random stream ran out (the model's own)
    | LengthError         // std::vector::reserve asked for more than max_size()

  datatype Result<T> = Success(value: T) | Failure(error: Error) {
    predicate IsFailure() {
      Failure?
    }

    function PropagateFailure<U>(): Result<U>
      requires Failure?
    {
      Failure(error)
    }

    function Extract(): T
      requires Success?
    {
      value
    }
  }

  datatype Option<T> = None | Some(value: T)
}
