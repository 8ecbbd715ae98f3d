/** How long a closed tour is and how many legs it misses, read straight off the distance matrix. */
module TourLengths {
  import opened Options
  import opened Matrices
  import opened ExtendedNumbers
  import opened TourCosts

  /** The node after position `p`; the last position is followed by the first. */
  function NodeAfter(order: seq<nat>, p: nat): nat
    requires p < |order|
  {
    if p + 1 < |order| then order[p + 1] else order[0]
  }

  /** The tour goes from position `p` to another node, and the matrix has no leg there. */
  predicate Gap(m: Matrix, order: seq<nat>, p: nat)
    requires p < |order|
  {
    order[p] != NodeAfter(order, p) && Leg(m, order[p], NodeAfter(order, p)) == None
  }

  function Gaps(m: Matrix, order: seq<nat>, count: nat): nat
    requires count <= |order|
  {
    if count == 0 then 0 else Gaps(m, order, count - 1) + if Gap(m, order, count - 1) then 1 else 0
  }

  /** The matrix entries along the first `count` legs, added up; from a node to itself it is no way. */
  function Metres(m: Matrix, order: seq<nat>, count: nat): real
    requires count <= |order|
  {
    if count == 0 then 0.0
    else
      var a, b := order[count - 1], NodeAfter(order, count - 1);
      Metres(m, order, count - 1) + if a != b && Leg(m, a, b).Some? then Leg(m, a, b).value else 0.0
  }

  lemma {:induction false} LegsAddUp(m: Matrix, order: seq<nat>, count: nat)
    requires count <= |order|
    ensures LegsSoFar(PricingOf(m), order, count) == Cost(Gaps(m, order, count), Metres(m, order, count))
  {
    if count > 0 { LegsAddUp(m, order, count - 1); }
  }

  lemma {:induction false} GapsCounted(m: Matrix, order: seq<nat>, count: nat)
    requires count <= |order|
    ensures Gaps(m, order, count) == 0 <==> forall p: nat | p < count :: !Gap(m, order, p)
  {
    if count > 0 { GapsCounted(m, order, count - 1); }
  }

  /** A tour's cost is its number of gaps and the sum of its legs; its length is infinite iff it has a gap. */
  lemma TourIsMeasured(m: Matrix, order: seq<nat>)
    ensures var cost := TourCost(PricingOf(m), order);
      && cost == Cost(Gaps(m, order, |order|), Metres(m, order, |order|))
      && (Total(cost) == PosInf <==> exists p: nat | p < |order| :: Gap(m, order, p))
      && (Total(cost) != PosInf ==> Total(cost) == Fin(Metres(m, order, |order|)))
  {
    AllLegsAreTour(PricingOf(m), order);
    LegsAddUp(m, order, |order|);
    GapsCounted(m, order, |order|);
  }
}
