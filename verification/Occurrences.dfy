/** Occurrences of one sequence in another, which every text search here is about. */
module Occurrences {

  predicate OccursAt(text: seq<nat>, search: seq<nat>, p: nat) {
    p + |search| <= |text| && text[p..p + |search|] == search
  }

  ghost predicate OccursIn(text: seq<nat>, search: seq<nat>) {
    exists p :: OccursAt(text, search, p)
  }

  /** strings.Index: the first occurrence from position k on, or -1. */
  function FindFrom(text: seq<nat>, search: seq<nat>, k: nat): (i: int)
    ensures i < 0 ==> i == -1 && forall p :: p >= k ==> !OccursAt(text, search, p)
    ensures i >= 0 ==> i >= k && OccursAt(text, search, i) && forall p :: k <= p < i ==> !OccursAt(text, search, p)
    decreases |text| - k
  {
    if k + |search| > |text| then -1
    else if OccursAt(text, search, k) then k
    else FindFrom(text, search, k + 1)
  }
}
