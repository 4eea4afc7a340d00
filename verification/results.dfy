/** Failure-compatible wrappers used by the whole model: `Option` stands for a
    value that may be missing (a NaN cell, a path that does not exist), `Result`
    for a computation that may raise a Python exception. */
module Results {

  datatype Option<+T> = None | Some(value: T)

  datatype Result<+T, +E> = Ok(value: T) | Err(error: E) {

    predicate IsFailure() {
      Err?
    }

    function PropagateFailure<U>(): Result<U, E>
      requires Err?
    {
      Err(error)
    }

    function Extract(): T
      requires Ok?
    {
      value
    }
  }

  /** True when every result in `rs` is a success. */
  predicate AllOk<T, E>(rs: seq<Result<T, E>>) {
    forall i :: 0 <= i < |rs| ==> rs[i].Ok?
  }

  /** `k` is the position of the first failure in `rs`. */
  predicate FirstFailureAt<T, E>(rs: seq<Result<T, E>>, k: int) {
    && 0 <= k < |rs|
    && rs[k].Err?
    && forall j :: 0 <= j < k ==> rs[j].Ok?
  }

  /** Runs a sequence of steps left to right, stopping at the first one that
      raises: the shape of a Python loop whose body may throw. */
  function Collect<T, E>(rs: seq<Result<T, E>>): (r: Result<seq<T>, E>)
    ensures r.Ok? <==> AllOk(rs)
    ensures r.Ok? ==> |r.value| == |rs| && forall i :: 0 <= i < |rs| ==> rs[i] == Ok(r.value[i])
    ensures r.Err? ==> exists k :: FirstFailureAt(rs, k) && r.error == rs[k].error
    decreases |rs|
  {
    if |rs| == 0 then Ok([])
    else if rs[0].Err? then
      assert FirstFailureAt(rs, 0);
      Err(rs[0].error)
    else
      match Collect(rs[1..])
      case Err(e) =>
        assert exists k :: FirstFailureAt(rs, k) && e == rs[k].error by {
          var k :| FirstFailureAt(rs[1..], k) && e == rs[1..][k].error;
          assert FirstFailureAt(rs, k + 1);
        }
        Err(e)
      case Ok(vs) =>
        assert forall i :: 1 <= i < |rs| ==> rs[i] == rs[1..][i - 1];
        Ok([rs[0].value] + vs)
  }

  /** The first failure is unique, so a failing `Collect` reports exactly the
      error of the step a left-to-right loop would have stopped at. */
  lemma {:induction false} CollectStopsAtFirstFailure<T, E>(rs: seq<Result<T, E>>, k: int)
    requires FirstFailureAt(rs, k)
    ensures Collect(rs) == Err(rs[k].error)
  {
    var r := Collect(rs);
    assert !AllOk(rs);
    var k' :| FirstFailureAt(rs, k') && r.error == rs[k'].error;
    assert !(k' < k) && !(k < k');
  }

  /** A loop that completed every step without raising collected exactly
      the values the steps produced. */
  lemma {:induction false} CollectAllOk<T, E>(rs: seq<Result<T, E>>, vs: seq<T>)
    requires |rs| == |vs|
    requires forall i :: 0 <= i < |rs| ==> rs[i] == Ok(vs[i])
    ensures Collect(rs) == Ok(vs)
  {
    assert AllOk(rs);
    var r := Collect(rs);
    assert |r.value| == |vs|;
    assert forall i :: 0 <= i < |rs| ==> r.value[i] == vs[i];
    assert r.value == vs;
  }
}
