/** Linear search for the first element with a property: the one concept behind
    first-fit allocation, first-free-slot placement and lookup by name. */
module Search {
  import opened Outcomes

  /** `k` is the lowest index of `s` whose element satisfies `p`. */
  ghost predicate IsFirst<T>(s: seq<T>, p: T -> bool, k: nat) {
    k < |s| && p(s[k]) && forall j :: 0 <= j < k ==> !p(s[j])
  }

  function FirstWhere<T>(s: seq<T>, p: T -> bool): (r: Option<nat>)
    ensures r.Some? ==> IsFirst(s, p, r.value)
    ensures r.None? ==> forall j :: 0 <= j < |s| ==> !p(s[j])
  {
    if |s| == 0 then None
    else if p(s[0]) then Some(0)
    else match FirstWhere(s[1..], p)
      case None => None
      case Some(k) => Some(k + 1)
  }

  /** The two postconditions of FirstWhere pin its result down: a loop that
      stops at the first hit or runs off the end computes the same value. */
  lemma FirstWhereIs<T>(s: seq<T>, p: T -> bool, k: nat)
    requires IsFirst(s, p, k)
    ensures FirstWhere(s, p) == Some(k)
  {
  }

  lemma FirstWhereNone<T>(s: seq<T>, p: T -> bool)
    requires forall j :: 0 <= j < |s| ==> !p(s[j])
    ensures FirstWhere(s, p) == None
  {
  }
}
