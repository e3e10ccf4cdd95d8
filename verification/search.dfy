/** First-match search over a sequence, the shape of JavaScript's
    `Array.prototype.find` / `findIndex` and of a `for ... of` loop that
    returns at the first hit. */
module Search {

  import opened Wrappers

  /** The position of the first element satisfying `p`, or `None`. */
  function FirstIndex<T>(s: seq<T>, p: T -> bool): (r: Option<nat>)
    ensures r.Some? ==> r.value < |s| && p(s[r.value])
    ensures r.Some? ==> forall j :: 0 <= j < r.value ==> !p(s[j])
    ensures r.None? <==> forall j :: 0 <= j < |s| ==> !p(s[j])
  {
    if s == [] then None
    else if p(s[0]) then Some(0)
    else match FirstIndex(s[1..], p)
      case None => None
      case Some(k) => Some(k + 1)
  }
}
