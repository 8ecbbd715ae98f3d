/** Lists without repetition, which several parts share. */
module Lists {
  ghost predicate Distinct(s: seq<int>) {
    forall p, q | 0 <= p < q < |s| :: s[p] != s[q]
  }

  lemma DistinctAppend(s: seq<int>, x: int)
    requires Distinct(s) && x !in s
    ensures Distinct(s + [x])
  {
  }
}
