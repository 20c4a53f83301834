/** An optional value, shared by every module of the model. The members let
    `:-` propagate an absent value through a chain of evaluations. */
module Options {
  datatype Option<T> = None | Some(value: T) {
    predicate IsFailure() { None? }

    function PropagateFailure<U>(): Option<U>
      requires None?
    {
      None
    }

    function Extract(): T
      requires Some?
    {
      value
    }
  }
}
