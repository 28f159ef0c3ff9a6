/** Option and Result values, and the exceptions the meta-tree code raises. */
module Wrappers {

  datatype Option<T> = None | Some(value: T)

  /** The exception kinds raised by the meta-tree model and by the Python
      operations it relies on (list.remove, indexing, attribute access on None,
      division). */
  datatype Error =
    | ParameterFormatError
    | DataFormatError
    | CriteriaError
    | ValueError
    | IndexError
    | TypeError
    | AttributeError
    | ZeroDivisionError

  datatype Result<T> = Ok(value: T) | Err(error: Error) {
    predicate IsFailure() { Err? }

    function PropagateFailure<U>(): Result<U>
      requires Err?
    {
      Err(error)
    }

    function Extract(): T
      requires Ok?
    {
      value
    }
  }

  /** Collects a sequence of results: the first error in index order, or all
      the values.  This is the order in which a Python loop over children stops
      at the first exception. */
  function Collect<T>(rs: seq<Result<T>>): (r: Result<seq<T>>)
    ensures r.Ok? <==> forall i :: 0 <= i < |rs| ==> rs[i].Ok?
    ensures r.Ok? ==> |r.value| == |rs| && forall i :: 0 <= i < |rs| ==> r.value[i] == rs[i].value
    ensures r.Err? ==> exists i :: 0 <= i < |rs| && rs[i] == Err(r.error)
                          && forall j :: 0 <= j < i ==> rs[j].Ok?
  {
    if |rs| == 0 then Ok([])
    else if rs[0].Err? then Err(rs[0].error)
    else
      match Collect(rs[1..])
      case Err(e) =>
        assert exists i :: 0 <= i < |rs| - 1 && rs[1..][i] == Err(e) && forall j :: 0 <= j < i ==> rs[1..][j].Ok?;
        var i :| 0 <= i < |rs| - 1 && rs[1..][i] == Err(e) && forall j :: 0 <= j < i ==> rs[1..][j].Ok?;
        assert rs[i + 1] == Err(e) && forall j :: 0 <= j < i + 1 ==> rs[j].Ok?;
        Err(e)
      case Ok(vs) => Ok([rs[0].value] + vs)
  }
}
