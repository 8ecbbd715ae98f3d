/**
 The search the tour solver runs: scan a neighbourhood for the best move, descend until no move
 is left, alternate the two neighbourhoods.

 The functions follow the scan order of the loops exactly, so that a run is determined by its
 input; the methods of module TwoOpt are proved equal to them.
 */
module TourSearch {
  import opened Options
  import opened ExtendedNumbers
  import opened TourCosts
  import opened TourMoves

  // ----- Scanning for the best reversal -----

  datatype BestReversal = BestReversal(delta: Number, i: int, k: int)

  /** The scan's update: a score replaces the best one when it is lower by more than EPSILON. */
  function KeepReversal(best: BestReversal, delta: Number, i: nat, k: nat): BestReversal {
    if Less(delta, Sub(best.delta, Fin(EPSILON))) then BestReversal(delta, i, k) else best
  }

  /** The best reversal among those scanned before the pair (i, k). */
  function ScanReversals(leg: Pricing, order: seq<nat>, i: nat, k: nat): BestReversal
    requires 1 <= i < k <= |order|
    decreases i, k
  {
    if k > i + 1 then
      KeepReversal(ScanReversals(leg, order, i, k - 1), ReversalDelta(leg, order, i, k - 1), i, k - 1)
    else if i > 1 then ScanReversals(leg, order, i - 1, |order|)
    else BestReversal(Fin(0.0), -1, -1)
  }

  /** What replacing the best score by one lower by more than EPSILON keeps. */
  lemma LowerBest(was: Number, best: Number)
    requires AtMost(was, Fin(0.0)) && Less(best, Sub(was, Fin(EPSILON)))
    ensures AtMost(best, Fin(0.0)) && Less(best, THRESHOLD)
    ensures forall d :: !Less(d, Sub(was, Fin(EPSILON))) ==> !Less(d, Sub(best, Fin(EPSILON)))
    ensures !Less(best, Sub(best, Fin(EPSILON)))
  {
  }

  /** No reversal scanned before (i, k) scores more than EPSILON below `best`. */
  ghost predicate ReversalsScanned(leg: Pricing, order: seq<nat>, i: nat, k: nat, best: Number) {
    forall i': nat, k': nat | ReversalInRange(order, i', k') && (i' < i || (i' == i && k' < k)) ::
      !Less(ReversalDelta(leg, order, i', k'), Sub(best, Fin(EPSILON)))
  }

  /**
   What a scan returns: nothing, when no move scanned so far is acceptable; otherwise an acceptable
   move that no scanned move beats by more than EPSILON.
   */
  lemma {:induction false} ReversalScanIsBest(leg: Pricing, order: seq<nat>, i: nat, k: nat)
    requires 1 <= i < k <= |order|
    ensures var best := ScanReversals(leg, order, i, k);
      && AtMost(best.delta, Fin(0.0))
      && (best.i < 0 ==> best.delta == Fin(0.0))
      && (best.i >= 0 ==>
          && ReversalInRange(order, best.i, best.k)
          && best.delta == ReversalDelta(leg, order, best.i, best.k)
          && Less(best.delta, THRESHOLD))
      && ReversalsScanned(leg, order, i, k, best.delta)
    decreases i, k
  {
    hide ReversalDelta, Sub, Less;
    if k > i + 1 {
      ReversalScanIsBest(leg, order, i, k - 1);
      var was, delta := ScanReversals(leg, order, i, k - 1), ReversalDelta(leg, order, i, k - 1);
      if Less(delta, Sub(was.delta, Fin(EPSILON))) {
        LowerBest(was.delta, delta);
      }
    } else if i > 1 {
      ReversalScanIsBest(leg, order, i - 1, |order|);
    }
  }

  // ----- Scanning for the best relocation -----

  datatype BestRelocation = BestRelocation(delta: Number, i: int, L: int, j: int)

  function KeepRelocation(best: BestRelocation, delta: Number, i: nat, L: nat, j: nat): BestRelocation {
    if Less(delta, Sub(best.delta, Fin(EPSILON))) then BestRelocation(delta, i, L, j) else best
  }

  const LONGEST_CHAIN := 3

  ghost predicate InScan(order: seq<nat>, L: nat, i: nat, j: nat) {
    |order| >= 4 && 1 <= L <= LONGEST_CHAIN && 1 <= i && 1 <= j <= |order| + 1 &&
    i + L <= (if j == 1 then |order| + 1 else |order|)
  }

  /** The best relocation among those scanned before chain length L, position i and target j. */
  function ScanRelocations(leg: Pricing, order: seq<nat>, L: nat, i: nat, j: nat): BestRelocation
    requires InScan(order, L, i, j)
    decreases L, i, j
  {
    if j > 1 then
      var best := ScanRelocations(leg, order, L, i, j - 1);
      if i <= j - 1 <= i + L then best
      else KeepRelocation(best, RelocationDelta(leg, order, i, L, j - 1), i, L, j - 1)
    else if i > 1 then ScanRelocations(leg, order, L, i - 1, |order| + 1)
    else if L > 1 then ScanRelocations(leg, order, L - 1, |order| + 2 - L, 1)
    else BestRelocation(Fin(0.0), -1, 0, -1)
  }

  ghost predicate ScannedBefore(L': nat, i': nat, j': nat, L: nat, i: nat, j: nat) {
    L' < L || (L' == L && (i' < i || (i' == i && j' < j)))
  }

  ghost predicate RelocationsScanned(leg: Pricing, order: seq<nat>, L: nat, i: nat, j: nat, best: Number) {
    forall L': nat, i': nat, j': nat |
      RelocationInRange(order, i', L', j') && ScannedBefore(L', i', j', L, i, j) ::
      !Less(RelocationDelta(leg, order, i', L', j'), Sub(best, Fin(EPSILON)))
  }

  lemma {:induction false} RelocationScanIsBest(leg: Pricing, order: seq<nat>, L: nat, i: nat, j: nat)
    requires InScan(order, L, i, j)
    ensures var best := ScanRelocations(leg, order, L, i, j);
      && AtMost(best.delta, Fin(0.0))
      && (best.i < 0 ==> best.delta == Fin(0.0))
      && (best.i >= 0 ==>
          && best.L >= 0 && best.j >= 0
          && RelocationInRange(order, best.i, best.L, best.j)
          && best.L <= LONGEST_CHAIN
          && best.delta == RelocationDelta(leg, order, best.i, best.L, best.j)
          && Less(best.delta, THRESHOLD))
      && RelocationsScanned(leg, order, L, i, j, best.delta)
    decreases L, i, j
  {
    hide RelocationDelta, Sub, Less;
    if j > 1 {
      RelocationScanIsBest(leg, order, L, i, j - 1);
      var was := ScanRelocations(leg, order, L, i, j - 1);
      if !(i <= j - 1 <= i + L) {
        var delta := RelocationDelta(leg, order, i, L, j - 1);
        if Less(delta, Sub(was.delta, Fin(EPSILON))) {
          LowerBest(was.delta, delta);
        }
      }
    } else if i > 1 {
      RelocationScanIsBest(leg, order, L, i - 1, |order| + 1);
    } else if L > 1 {
      RelocationScanIsBest(leg, order, L - 1, |order| + 2 - L, 1);
    }
  }

  // ----- Moves of a neighbourhood -----

  datatype Neighbourhood = Reversals | Relocations

  predicate Searchable(kind: Neighbourhood, order: seq<nat>) {
    |order| >= (if kind == Reversals then 2 else 4)
  }

  /** The improving move one iteration of a pass applies, if there is one. */
  function Step(leg: Pricing, kind: Neighbourhood, order: seq<nat>): (next: Option<seq<nat>>)
    requires Searchable(kind, order)
    ensures next.Some? ==> |next.value| == |order|
  {
    match kind
    case Reversals =>
      var n := |order|;
      var best := ScanReversals(leg, order, n - 1, n);
      ReversalScanIsBest(leg, order, n - 1, n);
      if best.i >= 0 then Some(Reverse(order, best.i, best.k)) else None
    case Relocations =>
      var n := |order|;
      var best := ScanRelocations(leg, order, LONGEST_CHAIN, n + 1 - LONGEST_CHAIN, 1);
      RelocationScanIsBest(leg, order, LONGEST_CHAIN, n + 1 - LONGEST_CHAIN, 1);
      if best.i >= 0 then Some(Relocate(order, best.i, best.L, best.j)) else None
  }

  /** Every tour one move away. */
  ghost predicate Neighbour(kind: Neighbourhood, order: seq<nat>, other: seq<nat>) {
    match kind
    case Reversals =>
      exists i: nat, k: nat :: ReversalInRange(order, i, k) && other == Reverse(order, i, k)
    case Relocations =>
      exists i: nat, L: nat, j: nat ::
        L <= LONGEST_CHAIN && RelocationInRange(order, i, L, j) && other == Relocate(order, i, L, j)
  }

  /** The same, but only over legs that exist: the move adds no missing one. */
  ghost predicate NeighbourOverLegs(leg: Pricing, kind: Neighbourhood, order: seq<nat>, other: seq<nat>) {
    match kind
    case Reversals =>
      exists i: nat, k: nat ::
        ReversalInRange(order, i, k) && other == Reverse(order, i, k) && ReversalAdded(leg, order, i, k).nulls == 0
    case Relocations =>
      exists i: nat, L: nat, j: nat ::
        && L <= LONGEST_CHAIN && RelocationInRange(order, i, L, j) && other == Relocate(order, i, L, j)
        && RelocationAdded(leg, order, i, L, j).nulls == 0
  }

  /** The scores of a neighbourhood are exact: reversals need legs that cost the same both ways. */
  ghost predicate ExactFor(leg: Pricing, kind: Neighbourhood, order: seq<nat>) {
    kind == Relocations || Reversible(leg, order)
  }

  ghost predicate SameNodesAndStart(order: seq<nat>, other: seq<nat>) {
    order != [] && other != [] && other[0] == order[0] && multiset(other) == multiset(order)
  }

  lemma SameNodesAfterStart(order: seq<nat>, other: seq<nat>)
    requires SameNodesAndStart(order, other)
    ensures forall x :: x in other[1..] <==> x in order[1..]
  {
    assert order == [order[0]] + order[1..] && other == [other[0]] + other[1..];
    assert multiset(order[1..]) == multiset(order) - multiset{order[0]};
    assert multiset(other[1..]) == multiset(other) - multiset{order[0]};
    assert forall x :: x in order[1..] <==> x in multiset(order[1..]);
    assert forall x :: x in other[1..] <==> x in multiset(other[1..]);
  }

  /** A move changes neither the nodes nor the start, and so does not spoil the scores of the next one. */
  lemma StaysReversible(leg: Pricing, order: seq<nat>, other: seq<nat>)
    requires SameNodesAndStart(order, other) && Reversible(leg, order)
    ensures Reversible(leg, other)
  {
    SameNodesAfterStart(order, other);
  }

  lemma ReverseKeepsNodes(order: seq<nat>, i: nat, k: nat)
    requires ReversalInRange(order, i, k)
    ensures SameNodesAndStart(order, Reverse(order, i, k))
  {
    ReversedKeepsNodes(order[i..k + 1]);
    assert order == order[..i] + order[i..k + 1] + order[k + 1..];
  }

  lemma {:induction false} ReversedKeepsNodes(s: seq<nat>)
    ensures multiset(Reversed(s)) == multiset(s)
    decreases |s|
  {
    if s != [] {
      ReversedKeepsNodes(s[1..]);
      assert Reversed(s) == Reversed(s[1..]) + [s[0]];
      assert s == [s[0]] + s[1..];
    }
  }

  lemma RelocateKeepsNodes(order: seq<nat>, i: nat, L: nat, j: nat)
    requires RelocationInRange(order, i, L, j)
    ensures SameNodesAndStart(order, Relocate(order, i, L, j))
  {
    var (p, q, r) := RelocationCuts(i, L, j);
    assert order == order[..p] + order[p..q] + order[q..r] + order[r..];
    SwappedBlocksKeepNodes(order[..p], order[p..q], order[q..r], order[r..]);
  }

  lemma SwappedBlocksKeepNodes(a: seq<nat>, b: seq<nat>, c: seq<nat>, tail: seq<nat>)
    requires a != []
    ensures SameNodesAndStart(a + b + c + tail, a + c + b + tail)
  {
  }

  /** An applied move is a neighbour with the same nodes and start, and better whenever its score is exact. */
  lemma StepImproves(leg: Pricing, kind: Neighbourhood, order: seq<nat>)
    requires Searchable(kind, order) && Step(leg, kind, order).Some?
    ensures var next := Step(leg, kind, order).value;
      && SameNodesAndStart(order, next)
      && Neighbour(kind, order, next)
      && (ExactFor(leg, kind, order) ==> Better(TourCost(leg, next), TourCost(leg, order)))
  {
    var n := |order|;
    match kind
    case Reversals =>
      var best := ScanReversals(leg, order, n - 1, n);
      ReversalScanIsBest(leg, order, n - 1, n);
      ReverseKeepsNodes(order, best.i, best.k);
      if Reversible(leg, order) {
        var kept := ReversalExact(leg, order, best.i, best.k);
        ScoreMeaning(kept, ReversalAdded(leg, order, best.i, best.k), ReversalRemoved(leg, order, best.i, best.k));
      }
    case Relocations =>
      var best := ScanRelocations(leg, order, LONGEST_CHAIN, n + 1 - LONGEST_CHAIN, 1);
      RelocationScanIsBest(leg, order, LONGEST_CHAIN, n + 1 - LONGEST_CHAIN, 1);
      RelocateKeepsNodes(order, best.i, best.L, best.j);
      var kept := RelocationExact(leg, order, best.i, best.L, best.j);
      ScoreMeaning(kept, RelocationAdded(leg, order, best.i, best.L, best.j),
                   RelocationRemoved(leg, order, best.i, best.L, best.j));
  }

  /** When a pass finds no move, no neighbour over existing legs is better, even if both tours miss legs elsewhere. */
  lemma NoStepNoBetter(leg: Pricing, kind: Neighbourhood, order: seq<nat>, other: seq<nat>)
    requires Searchable(kind, order) && Step(leg, kind, order) == None
    requires ExactFor(leg, kind, order) && NeighbourOverLegs(leg, kind, order, other)
    ensures !Better(TourCost(leg, other), TourCost(leg, order))
  {
    hide ReversalDelta, RelocationDelta, TourCost, Total, SymmetricOn, Reverse, Relocate;
    var n := |order|;
    match kind
    case Reversals =>
      ReversalScanIsBest(leg, order, n - 1, n);
      var i: nat, k: nat :|
        ReversalInRange(order, i, k) && other == Reverse(order, i, k) && ReversalAdded(leg, order, i, k).nulls == 0;
      var kept := ReversalExact(leg, order, i, k);
      ScoreMeaning(kept, ReversalAdded(leg, order, i, k), ReversalRemoved(leg, order, i, k));
    case Relocations =>
      RelocationScanIsBest(leg, order, LONGEST_CHAIN, n + 1 - LONGEST_CHAIN, 1);
      var i: nat, L: nat, j: nat :|
        && L <= LONGEST_CHAIN && RelocationInRange(order, i, L, j) && other == Relocate(order, i, L, j)
        && RelocationAdded(leg, order, i, L, j).nulls == 0;
      var kept := RelocationExact(leg, order, i, L, j);
      ScoreMeaning(kept, RelocationAdded(leg, order, i, L, j), RelocationRemoved(leg, order, i, L, j));
  }

  /** In particular no neighbour's length is shorter by more than EPSILON, missing legs counting as infinite. */
  lemma NoStepIsLocalOptimum(leg: Pricing, kind: Neighbourhood, order: seq<nat>, other: seq<nat>)
    requires Searchable(kind, order) && Step(leg, kind, order) == None
    requires ExactFor(leg, kind, order) && Neighbour(kind, order, other)
    ensures !Shorter(Total(TourCost(leg, other)), Total(TourCost(leg, order)))
  {
    if Shorter(Total(TourCost(leg, other)), Total(TourCost(leg, order))) {
      ShorterMovesOverLegs(leg, kind, order, other);
      NoStepNoBetter(leg, kind, order, other);
    }
  }

  /** Only a move over existing legs leads to a shorter tour, and that tour is better. */
  lemma ShorterMovesOverLegs(leg: Pricing, kind: Neighbourhood, order: seq<nat>, other: seq<nat>)
    requires ExactFor(leg, kind, order) && Neighbour(kind, order, other)
    requires Shorter(Total(TourCost(leg, other)), Total(TourCost(leg, order)))
    ensures NeighbourOverLegs(leg, kind, order, other) && Better(TourCost(leg, other), TourCost(leg, order))
  {
    hide ReversalDelta, RelocationDelta, TourCost, SymmetricOn, Reverse, Relocate;
    match kind
    case Reversals =>
      var i: nat, k: nat :| ReversalInRange(order, i, k) && other == Reverse(order, i, k);
      var kept := ReversalExact(leg, order, i, k);
    case Relocations =>
      var i: nat, L: nat, j: nat :|
        L <= LONGEST_CHAIN && RelocationInRange(order, i, L, j) && other == Relocate(order, i, L, j);
      var kept := RelocationExact(leg, order, i, L, j);
  }
}
