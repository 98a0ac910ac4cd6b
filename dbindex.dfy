/** The part of the document store's query engine the core relies on: a scan of
    a table in index order that stops at the first document satisfying the
    index's equality predicates (`.withIndex(...).first()`). Tables are kept in
    insertion order, which is the index order among documents with equal keys. */
module DbIndex {
  import opened Wrappers

  /** Position of the first element of `s` satisfying `p`, or None when none does. */
  function FirstIndex<T>(s: seq<T>, p: T -> bool): (r: Option<nat>)
    ensures r.Some? ==> r.value < |s| && p(s[r.value])
    ensures r.Some? ==> forall j :: 0 <= j < r.value ==> !p(s[j])
    ensures r.None? <==> forall j :: 0 <= j < |s| ==> !p(s[j])
  {
    if s == [] then None
    else if p(s[0]) then Some(0)
    else
      match FirstIndex(s[1..], p)
      case None => None
      case Some(i) => Some(i + 1)
  }

  /** The first element satisfying `p`, or None. */
  function First<T>(s: seq<T>, p: T -> bool): (r: Option<T>)
    ensures r.None? <==> forall j :: 0 <= j < |s| ==> !p(s[j])
    ensures r.Some? ==> p(r.value)
    ensures r.Some? ==> exists i :: 0 <= i < |s| && s[i] == r.value && forall j :: 0 <= j < i ==> !p(s[j])
  {
    match FirstIndex(s, p)
    case None => None
    case Some(i) => Some(s[i])
  }

  /** An element that fails the predicate can be skipped without changing the answer. */
  lemma FirstSkipsNonMatch<T>(s: seq<T>, p: T -> bool)
    requires s != [] && !p(s[0])
    ensures First(s, p) == First(s[1..], p)
  {
  }
}
