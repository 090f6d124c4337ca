/** The Java exceptions the modelled code throws, as values. An operation
    that throws in the source returns `Err` (or `Fail`) here, carrying the
    exception's kind and, where the source builds one, its message. */
module Exceptions {

  datatype Error =
    | IllegalArgument(message: string)
    | Runtime(message: string)
    | Parse(message: string)
    | NumberFormat(input: string)
    | IndexOutOfBounds(index: int)
    | NegativeArraySize(size: int)
    | Arithmetic
    | NullPointer

  datatype Result<+T> = Ok(value: T) | Err(error: Error) {
    predicate IsFailure() { Err? }
    function PropagateFailure<U>(): Result<U>
      requires Err?
    {
      Err(error)
    }
    function Extract(): T
      requires Ok?
    {
      value
    }
  }

  datatype Option<+T> = None | Some(value: T)

  /** The values of a run of calls made in order, or the exception of the
      first call that throws, which ends the run. */
  function Collect<T>(rs: seq<Result<T>>): Result<seq<T>>
  {
    if rs == [] then Ok([])
    else
      match Collect(rs[..|rs| - 1])
      case Err(e) => Err(e)
      case Ok(vs) =>
        match rs[|rs| - 1]
        case Err(e) => Err(e)
        case Ok(v) => Ok(vs + [v])
  }

  /** A run succeeds exactly when every call does, with their values in
      order; otherwise it fails with the exception of the first call that
      throws. */
  lemma {:induction false} CollectShape<T>(rs: seq<Result<T>>)
    ensures Collect(rs).Ok? <==> forall i :: 0 <= i < |rs| ==> rs[i].Ok?
    ensures Collect(rs).Ok? ==> |Collect(rs).value| == |rs|
    ensures Collect(rs).Ok? ==>
      forall i :: 0 <= i < |rs| ==> rs[i] == Ok(Collect(rs).value[i])
    ensures Collect(rs).Err? ==>
      exists i :: && 0 <= i < |rs| && rs[i].Err? && Collect(rs) == Err(rs[i].error)
                  && forall j :: 0 <= j < i ==> rs[j].Ok?
  {
    if rs != [] {
      var n := |rs| - 1;
      var prefix := rs[..n];
      CollectShape(prefix);
      assert forall j :: 0 <= j < n ==> prefix[j] == rs[j];
    }
  }

  /** Once a call in the run throws, the run ends there. */
  lemma {:induction false} CollectStopsAtError<T>(rs: seq<Result<T>>, i: nat)
    requires i <= |rs| && Collect(rs[..i]).Err?
    ensures Collect(rs) == Collect(rs[..i])
  {
    if i < |rs| {
      var n := |rs| - 1;
      assert rs[..n][..i] == rs[..i];
      CollectStopsAtError(rs[..n], i);
    } else {
      assert rs[..i] == rs;
    }
  }

  /** The outcome of a `void` method: it returned, or it threw. */
  datatype Outcome = Pass | Fail(error: Error) {
    predicate IsFailure() { Fail? }
    function PropagateFailure(): Outcome
      requires Fail?
    {
      this
    }
  }
}
