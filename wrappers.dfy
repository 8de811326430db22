/** Small result types shared by the model. */
module Wrappers {

  /** A value that may be absent (`undefined`, `null`, or a lookup that found nothing). */
  datatype Option<+T> = None | Some(value: T)

  /**
   * The completion of a JavaScript evaluation: it either produced a value or
   * raised an exception that nothing in the scripts catches.
   */
  datatype Completion<+T> = Normal(value: T) | Throw

  /** Outcome of `Array.prototype.findIndex` with a test that may throw. */
  datatype Found = Hit(index: nat) | Miss | Aborted(index: nat)

  /**
   * `xs.findIndex(test)`: the first index whose test is true; the scan stops with
   * an exception at the first test that throws.
   */
  function FindIndex<T>(xs: seq<T>, test: T -> Completion<bool>): (r: Found)
    ensures r.Hit? ==> r.index < |xs| && test(xs[r.index]) == Normal(true)
    ensures r.Aborted? ==> r.index < |xs| && test(xs[r.index]) == Throw
    ensures !r.Miss? ==> forall k :: 0 <= k < r.index ==> test(xs[k]) == Normal(false)
    ensures r.Miss? ==> forall k :: 0 <= k < |xs| ==> test(xs[k]) == Normal(false)
  {
    FindIndexFrom(xs, test, 0)
  }

  function FindIndexFrom<T>(xs: seq<T>, test: T -> Completion<bool>, from: nat): (r: Found)
    requires from <= |xs|
    requires forall k :: 0 <= k < from ==> test(xs[k]) == Normal(false)
    ensures r.Hit? ==> from <= r.index < |xs| && test(xs[r.index]) == Normal(true)
    ensures r.Aborted? ==> from <= r.index < |xs| && test(xs[r.index]) == Throw
    ensures !r.Miss? ==> forall k :: 0 <= k < r.index ==> test(xs[k]) == Normal(false)
    ensures r.Miss? ==> forall k :: 0 <= k < |xs| ==> test(xs[k]) == Normal(false)
    decreases |xs| - from
  {
    if from == |xs| then Miss
    else match test(xs[from])
      case Throw => Aborted(from)
      case Normal(true) => Hit(from)
      case Normal(false) => FindIndexFrom(xs, test, from + 1)
  }

  /** `findIndex` with a test that cannot throw. */
  function FirstIndex<T>(xs: seq<T>, test: T -> bool): (r: Option<nat>)
    ensures r.Some? ==> r.value < |xs| && test(xs[r.value])
    ensures r.Some? ==> forall k :: 0 <= k < r.value ==> !test(xs[k])
    ensures r.None? ==> forall k :: 0 <= k < |xs| ==> !test(xs[k])
  {
    if |xs| == 0 then None
    else if test(xs[0]) then Some(0)
    else match FirstIndex(xs[1..], test)
      case None => None
      case Some(i) => Some(i + 1)
  }
}
