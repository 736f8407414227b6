/** Failure-carrying results. The solvers abort the whole program on bad
    input (`log.Fatal` or `panic`); the model returns `Fail` instead. */
module Wrappers {

  datatype Option<+T> = None | Some(value: T)

  /** `Fail` stands for any abort of the program: a `log.Fatal`, an explicit
      `panic`, or a run-time panic such as an index out of range. */
  datatype Result<+T> = Ok(value: T) | Fail(reason: string) {
    predicate IsFailure() {
      Fail?
    }

    function PropagateFailure<U>(): Result<U>
      requires Fail?
    {
      Fail(reason)
    }

    function Extract(): T
      requires Ok?
    {
      value
    }
  }

  /** The values of a list of results, or the first failure among them: a
      loop that parses line after line and aborts on the first bad one. */
  function AllOk<T>(rs: seq<Result<T>>): (r: Result<seq<T>>)
    ensures r.Ok? <==> forall j :: 0 <= j < |rs| ==> rs[j].Ok?
    ensures r.Ok? ==> |r.value| == |rs| && forall j :: 0 <= j < |rs| ==> r.value[j] == rs[j].value
    ensures r.Fail? ==> exists j :: 0 <= j < |rs| && rs[j].Fail? && r.reason == rs[j].reason
  {
    if rs == [] then Ok([])
    else
      var rest := AllOk(rs[1..]);
      assert forall j :: 1 <= j < |rs| ==> rs[j] == rs[1..][j - 1];
      if rs[0].Fail? then Fail(rs[0].reason)
      else if rest.Fail? then Fail(rest.reason)
      else Ok([rs[0].value] + rest.value)
  }
}
