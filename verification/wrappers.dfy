/** The optional value the source expresses as `number | null` or a missing field. */
module Wrappers {

  datatype Option<+T> = None | Some(value: T)

  /** `Array.prototype.findIndex`: the first index whose element satisfies `p`. */
  function FindIndex<T>(xs: seq<T>, p: T -> bool): (r: Option<nat>)
    ensures r.Some? ==> r.value < |xs| && p(xs[r.value])
    ensures r.Some? ==> forall k :: 0 <= k < r.value ==> !p(xs[k])
    ensures r.None? ==> forall k :: 0 <= k < |xs| ==> !p(xs[k])
  {
    if xs == [] then None
    else if p(xs[0]) then Some(0)
    else match FindIndex(xs[1..], p)
      case None => None
      case Some(k) => Some(k + 1)
  }

  /** `findIndex` answers `m` exactly when `xs[m]` is the first element
      satisfying `p`. */
  lemma FindIndexAt<T>(xs: seq<T>, p: T -> bool, m: nat)
    requires m < |xs| && p(xs[m])
    requires forall k :: 0 <= k < m ==> !p(xs[k])
    ensures FindIndex(xs, p) == Some(m)
  {
    var r := FindIndex(xs, p);
    assert r.Some?;
  }

  /** `findIndex` finds nothing exactly when no element satisfies `p`. */
  lemma FindIndexNone<T>(xs: seq<T>, p: T -> bool)
    requires forall k :: 0 <= k < |xs| ==> !p(xs[k])
    ensures FindIndex(xs, p) == None
  {
  }
}
