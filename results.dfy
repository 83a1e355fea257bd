/** Failure-carrying wrappers used where the Go code returns `(value, error)`
    or a possibly-nil pointer. */
module Results {

  /** A value that may be absent (a nil pointer or an unset field in Go). */
  datatype Option<+T> = None | Some(value: T)

  /** The `(value, error)` pair of a Go function: exactly one side is meaningful. */
  datatype Result<+T, +E> = Ok(value: T) | Err(error: E)

  /** Runs through `rs` in order, stopping at the first error: the values
      when every step succeeded, otherwise the first error. This is what a Go
      loop doing `v, err := step(); if err != nil { return err }` produces. */
  function AllOk<T, E>(rs: seq<Result<T, E>>): Result<seq<T>, E>
  {
    if rs == [] then Ok([])
    else match AllOk(rs[..|rs| - 1])
      case Err(e) => Err(e)
      case Ok(vs) =>
        match rs[|rs| - 1]
        case Err(e) => Err(e)
        case Ok(v) => Ok(vs + [v])
  }

  /** Success exactly when every step succeeds, and then one value per step. */
  lemma {:induction false} AllOkValues<T, E>(rs: seq<Result<T, E>>)
    ensures AllOk(rs).Ok? <==> forall i :: 0 <= i < |rs| ==> rs[i].Ok?
    ensures AllOk(rs).Ok? ==>
      |AllOk(rs).value| == |rs| && forall i :: 0 <= i < |rs| ==> rs[i] == Ok(AllOk(rs).value[i])
  {
    if rs != [] {
      var n := |rs| - 1;
      var p := rs[..n];
      AllOkValues(p);
      assert forall i :: 0 <= i < n ==> p[i] == rs[i];
    }
  }

  /** An error among the first `k` steps is the error of the whole run. */
  lemma {:induction false} AllOkFirstError<T, E>(rs: seq<Result<T, E>>, k: nat)
    requires k <= |rs| && AllOk(rs[..k]).Err?
    ensures AllOk(rs) == AllOk(rs[..k])
    decreases |rs| - k
  {
    if k < |rs| {
      assert rs[..k + 1][..k] == rs[..k];
      AllOkFirstError(rs, k + 1);
    } else {
      assert rs[..k] == rs;
    }
  }

  /** One more step of the run. */
  lemma AllOkStep<T, E>(rs: seq<Result<T, E>>, k: nat, vs: seq<T>)
    requires k < |rs| && AllOk(rs[..k]) == Ok(vs)
    ensures AllOk(rs[..k + 1]) == if rs[k].Ok? then Ok(vs + [rs[k].value]) else Err(rs[k].error)
  {
    assert rs[..k + 1][..k] == rs[..k];
  }
}
