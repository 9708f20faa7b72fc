/** Success-or-failure values, standing in for the exceptions the source throws. */
module Results {

  datatype Result<+T, +E> = Ok(value: T) | Err(error: E)

  datatype Option<+T> = None | Some(value: T)

  /** `rs[k]` is the first failure in `rs`. */
  predicate FirstErr<T, E>(rs: seq<Result<T, E>>, k: int)
  {
    0 <= k < |rs| && rs[k].Err? && forall j :: 0 <= j < k ==> rs[j].Ok?
  }

  /** All the values when every result succeeds; otherwise the first failure,
      as a sequence of calls that throws at the first error would give. */
  function AllOk<T, E>(rs: seq<Result<T, E>>): (r: Result<seq<T>, E>)
    ensures r.Ok? <==> forall k :: 0 <= k < |rs| ==> rs[k].Ok?
    ensures r.Ok? ==> |r.value| == |rs| && forall k :: 0 <= k < |rs| ==> rs[k] == Ok(r.value[k])
    ensures r.Err? ==> exists k :: FirstErr(rs, k) && rs[k] == Err(r.error)
  {
    if rs == [] then Ok([])
    else match rs[0]
      case Err(e) =>
        assert FirstErr(rs, 0);
        Err(e)
      case Ok(v) =>
        match AllOk(rs[1..])
        case Err(e) =>
          assert exists k :: FirstErr(rs, k) && rs[k] == Err(e) by {
            var k :| FirstErr(rs[1..], k) && rs[1..][k] == Err(e);
            assert FirstErr(rs, k + 1);
          }
          Err(e)
        case Ok(vs) =>
          Ok([v] + vs)
  }
}
