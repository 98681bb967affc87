/**
 * Option and Result, for absent values and for the errors the system
 * raises, and the list search that answers with an Option.
 */
module Wrappers {

  datatype Option<+T> = None | Some(value: T)

  datatype Result<+T, +E> = Ok(value: T) | Err(error: E)

  /** `list.find(p)`, by index: the first position whose element satisfies `p`, or None. */
  function Find<T>(list: seq<T>, p: T -> bool): (r: Option<nat>)
    ensures r.Some? ==> r.value < |list| && p(list[r.value])
    ensures r.Some? ==> forall j :: 0 <= j < r.value ==> !p(list[j])
    ensures r.None? ==> forall j :: 0 <= j < |list| ==> !p(list[j])
  {
    if list == [] then None
    else if p(list[0]) then Some(0)
    else
      match Find(list[1..], p)
      case None => None
      case Some(k) => Some(k + 1)
  }

  /** A position that satisfies the test, with no earlier one that does, is what the search answers. */
  lemma FindIsFirst<T>(list: seq<T>, p: T -> bool, k: nat)
    requires k < |list| && p(list[k])
    requires forall j :: 0 <= j < k ==> !p(list[j])
    ensures Find(list, p) == Some(k)
  {
  }

  /** Searching a list with one more element at the end. */
  lemma FindSnoc<T>(list: seq<T>, x: T, p: T -> bool)
    ensures Find(list + [x], p) ==
            if Find(list, p).Some? then Find(list, p) else if p(x) then Some(|list|) else None
  {
    var r := Find(list, p);
    if r.Some? {
      FindIsFirst(list + [x], p, r.value);
    } else if p(x) {
      FindIsFirst(list + [x], p, |list|);
    }
  }
}
