/** The optional value used for the source's nullable fields and lookups, and
    the first-match search that stands for a LINQ `FirstOrDefault`. */
module Wrappers {

  datatype Option<+T> = None | Some(value: T)

  /** The first index of `s` whose element satisfies `p`, as `FirstOrDefault`
      finds it when the query has no ordering of its own. */
  function FirstIndex<T>(s: seq<T>, p: T -> bool): (r: Option<nat>)
    ensures r.Some? ==> r.value < |s| && p(s[r.value])
    ensures r.Some? ==> forall j :: 0 <= j < r.value ==> !p(s[j])
    ensures r.None? <==> forall j :: 0 <= j < |s| ==> !p(s[j])
  {
    if |s| == 0 then None
    else if p(s[0]) then Some(0)
    else
      match FirstIndex(s[1..], p)
      case None => None
      case Some(k) => Some(k + 1)
  }
}
