/** Optional values and fallible results shared by the scraper model.
    `None` stands for JavaScript's `null`/`undefined`; `Err` for an
    exception that aborts the run. */
module Wrappers {

  datatype Option<+T> = None | Some(value: T)

  datatype Result<+T, +E> = Ok(value: T) | Err(error: E)

  /** The outcome of mapping a callback that may throw over an array: every
      value in order when no call threw, otherwise the first exception (the
      later calls never happen). */
  function Sequence<T, E>(outcomes: seq<Result<T, E>>): (r: Result<seq<T>, E>)
    ensures r.Ok? <==> forall i :: 0 <= i < |outcomes| ==> outcomes[i].Ok?
    ensures r.Ok? ==>
      && |r.value| == |outcomes|
      && forall i :: 0 <= i < |outcomes| ==> outcomes[i] == Ok(r.value[i])
    ensures r.Err? ==> exists i ::
      && 0 <= i < |outcomes|
      && outcomes[i] == Err(r.error)
      && forall j :: 0 <= j < i ==> outcomes[j].Ok?
  {
    if |outcomes| == 0 then Ok([])
    else match outcomes[0]
      case Err(e) => Err(e)
      case Ok(v) =>
        match Sequence(outcomes[1..])
        case Err(e) =>
          ghost var i :| 0 <= i < |outcomes| - 1 && outcomes[1..][i] == Err(e)
            && forall j :: 0 <= j < i ==> outcomes[1..][j].Ok?;
          assert outcomes[i + 1] == Err(e);
          assert forall j :: 0 < j < i + 1 ==> outcomes[j] == outcomes[1..][j - 1];
          Err(e)
        case Ok(vs) =>
          assert forall i :: 0 < i < |outcomes| ==> outcomes[i] == outcomes[1..][i - 1];
          Ok([v] + vs)
  }
}
