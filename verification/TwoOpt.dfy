/** The closed-loop tour solver, loop by loop, and what it promises about the tour it returns. */
module TwoOpt {
  import opened Options
  import opened Matrices
  import opened ExtendedNumbers
  import opened TourCosts
  import opened TourLengths
  import opened TourMoves
  import opened TourSearch
  import opened TourDescent
  import opened NearestNeighbour

  const MAX_ITERATIONS := 1000

  const MAX_OR_OPT_ITERATIONS := 1000

  const MAX_VND_ROUNDS := 64

  const CAPS := Caps(MAX_ITERATIONS, MAX_OR_OPT_ITERATIONS)

  method ReverseSegment(order: seq<nat>, i: nat, k: nat) returns (r: seq<nat>)
    requires ReversalInRange(order, i, k)
    ensures r == Reverse(order, i, k)
  {
    var out := new nat[|order|](p requires 0 <= p < |order| => order[p]);
    var lo, hi := i, k;
    while lo < hi
      invariant i <= lo <= hi + 1 && hi <= k && lo + hi == i + k
      invariant forall p | 0 <= p < |order| :: out[p] == order[if i <= p < lo || hi < p <= k then i + k - p else p]
    {
      out[lo], out[hi] := out[hi], out[lo];
      lo, hi := lo + 1, hi - 1;
    }
    r := out[..];
    forall p | 0 <= p < |order|
      ensures r[p] == Reverse(order, i, k)[p]
    {
      ReverseMirrors(order, i, k, p);
    }
  }

  /** A reversal mirrors the positions i..k and fixes the others. */
  lemma ReverseMirrors(order: seq<nat>, i: nat, k: nat, p: nat)
    requires ReversalInRange(order, i, k) && p < |order|
    ensures Reverse(order, i, k)[p] == order[if i <= p <= k then i + k - p else p]
  {
    var segment := order[i..k + 1];
    if i <= p <= k {
      assert Reverse(order, i, k)[p] == Reversed(segment)[p - i];
      assert Reversed(segment)[p - i] == segment[k - p];
    }
  }

  method ApplyOrOptMove(order: seq<nat>, i: nat, L: nat, j: nat) returns (r: seq<nat>)
    requires RelocationInRange(order, i, L, j)
    ensures r == Relocate(order, i, L, j)
    ensures SameNodesAndStart(order, r)
  {
    SplicingSwapsBlocks(order, i, L, j);
    RelocateKeepsNodes(order, i, L, j);
    var segment := order[i..i + L];
    var rest := order[..i] + order[i + L..];
    var insertAt := if j > i then j - L else j;
    r := rest[..insertAt] + segment + rest[insertAt..];
  }

  /** The score of one reversal, from the matrix. */
  method ScoreReversal(m: Matrix, order: seq<nat>, i: nat, k: nat) returns (delta: Number)
    requires ReversalInRange(order, i, k)
    ensures delta == ReversalDelta(PricingOf(m), order, i, k)
  {
    hide D2, LegCost, Total, Add, Sub;
    var a, b, c, d := order[i - 1], order[i], order[k], At(order, k + 1);
    PriceIsD2(m, a, b);
    PriceIsD2(m, c, d);
    PriceIsD2(m, a, c);
    PriceIsD2(m, b, d);
    var before := Add(D2(m, a, b), D2(m, c, d));
    var after := Add(D2(m, a, c), D2(m, b, d));
    delta := Sub(after, before);
  }

  method FindBestReversal(m: Matrix, order: seq<nat>) returns (bestI: int, bestK: int)
    requires |order| >= 2
    ensures var best := ScanReversals(PricingOf(m), order, |order| - 1, |order|);
      bestI == best.i && bestK == best.k
  {
    hide ReversalDelta, Less, Sub;
    ghost var leg := PricingOf(m);
    var n := |order|;
    var bestDelta := Fin(0.0);
    bestI, bestK := -1, -1;
    for i := 1 to n - 1
      invariant BestReversal(bestDelta, bestI, bestK) == ScanReversals(leg, order, i, i + 1)
    {
      for k := i + 1 to n
        invariant BestReversal(bestDelta, bestI, bestK) == ScanReversals(leg, order, i, k)
      {
        var delta := ScoreReversal(m, order, i, k);
        if Less(delta, Sub(bestDelta, Fin(EPSILON))) {
          bestDelta, bestI, bestK := delta, i, k;
        }
      }
    }
  }

  lemma DescendUnfolds(leg: Pricing, kind: Neighbourhood, order: seq<nat>, fuel: nat)
    requires Searchable(kind, order)
    ensures Descend(leg, kind, order, 0) == Descent(order, 0)
    ensures fuel > 0 && Step(leg, kind, order) == None ==> Descend(leg, kind, order, fuel) == Descent(order, 0)
    ensures fuel > 0 && Step(leg, kind, order).Some? ==>
      var rest := Descend(leg, kind, Step(leg, kind, order).value, fuel - 1);
      Descend(leg, kind, order, fuel) == Descent(rest.order, rest.moves + 1)
  {
  }

  lemma StepReverses(leg: Pricing, order: seq<nat>)
    requires |order| >= 2
    ensures var best := ScanReversals(leg, order, |order| - 1, |order|);
      if best.i < 0 then Step(leg, Reversals, order) == None
      else && best.k >= 0 && ReversalInRange(order, best.i, best.k)
           && Step(leg, Reversals, order) == Some(Reverse(order, best.i, best.k))
  {
    hide ReversalDelta, Less, Reverse, ScanReversals;
    ReversalScanIsBest(leg, order, |order| - 1, |order|);
  }

  lemma StepRelocates(leg: Pricing, order: seq<nat>)
    requires |order| >= 4
    ensures var best := ScanRelocations(leg, order, LONGEST_CHAIN, |order| + 1 - LONGEST_CHAIN, 1);
      if best.i < 0 then Step(leg, Relocations, order) == None
      else && best.L >= 0 && best.j >= 0 && RelocationInRange(order, best.i, best.L, best.j)
           && Step(leg, Relocations, order) == Some(Relocate(order, best.i, best.L, best.j))
  {
    hide RelocationDelta, Less, Relocate, ScanRelocations;
    RelocationScanIsBest(leg, order, LONGEST_CHAIN, |order| + 1 - LONGEST_CHAIN, 1);
  }

  /** One 2-opt pass: at most MAX_ITERATIONS improving reversals. */
  method TwoOptPass(m: Matrix, startOrder: seq<nat>) returns (order: seq<nat>, everImproved: bool)
    requires |startOrder| >= 2
    ensures var d := Descend(PricingOf(m), Reversals, startOrder, MAX_ITERATIONS);
      order == d.order && everImproved == (d.moves > 0)
  {
    hide ScanReversals, Reverse, Step, Descend;
    ghost var leg := PricingOf(m);
    order := startOrder;
    everImproved := false;
    var improved := true;
    var iterations := 0;
    ghost var moves := 0;
    while improved && iterations < MAX_ITERATIONS
      invariant |order| == |startOrder| && iterations <= MAX_ITERATIONS
      invariant everImproved == (moves > 0)
      invariant var rest := if improved then Descend(leg, Reversals, order, MAX_ITERATIONS - iterations)
                            else Descent(order, 0);
        Descend(leg, Reversals, startOrder, MAX_ITERATIONS) == Descent(rest.order, moves + rest.moves)
    {
      iterations := iterations + 1;
      var bestI, bestK := FindBestReversal(m, order);
      DescendUnfolds(leg, Reversals, order, MAX_ITERATIONS - iterations + 1);
      StepReverses(leg, order);
      improved := bestI >= 0;
      if improved {
        order := ReverseSegment(order, bestI, bestK);
        everImproved, moves := true, moves + 1;
      }
    }
    DescendUnfolds(leg, Reversals, order, 0);
  }

  /** The score of one relocation, from the matrix. */
  method ScoreRelocation(m: Matrix, order: seq<nat>, i: nat, L: nat, j: nat) returns (delta: Number)
    requires RelocationInRange(order, i, L, j)
    ensures delta == RelocationDelta(PricingOf(m), order, i, L, j)
  {
    hide D2, LegCost, Total, Add, Sub;
    var head, tail, pred, succ := order[i], order[i + L - 1], order[i - 1], At(order, i + L);
    var before, after := order[j - 1], At(order, j);
    PriceIsD2(m, pred, head);
    PriceIsD2(m, tail, succ);
    PriceIsD2(m, pred, succ);
    PriceIsD2(m, before, after);
    PriceIsD2(m, before, head);
    PriceIsD2(m, tail, after);
    var segRemovedEdges := Add(D2(m, pred, head), D2(m, tail, succ));
    var segReplaceEdge := D2(m, pred, succ);
    var insertRemovedEdge := D2(m, before, after);
    var insertAddedEdges := Add(D2(m, before, head), D2(m, tail, after));
    delta := Sub(Add(segReplaceEdge, insertAddedEdges), Add(segRemovedEdges, insertRemovedEdge));
  }

  method FindBestRelocation(m: Matrix, order: seq<nat>) returns (bestI: int, bestL: int, bestJ: int)
    requires |order| >= 4
    ensures var best := ScanRelocations(PricingOf(m), order, LONGEST_CHAIN, |order| + 1 - LONGEST_CHAIN, 1);
      bestI == best.i && bestL == best.L && bestJ == best.j
  {
    hide RelocationDelta, Less, Sub;
    ghost var leg := PricingOf(m);
    var n := |order|;
    var bestDelta := Fin(0.0);
    bestI, bestL, bestJ := -1, 0, -1;
    for L := 1 to LONGEST_CHAIN + 1
      invariant BestRelocation(bestDelta, bestI, bestL, bestJ)
             == if L == 1 then BestRelocation(Fin(0.0), -1, 0, -1)
                else ScanRelocations(leg, order, L - 1, n + 2 - L, 1)
    {
      assert BestRelocation(bestDelta, bestI, bestL, bestJ) == ScanRelocations(leg, order, L, 1, 1);
      for i := 1 to n - L + 1
        invariant BestRelocation(bestDelta, bestI, bestL, bestJ) == ScanRelocations(leg, order, L, i, 1)
      {
        for j := 1 to n + 1
          invariant BestRelocation(bestDelta, bestI, bestL, bestJ) == ScanRelocations(leg, order, L, i, j)
        {
          if i <= j <= i + L { continue; }
          var delta := ScoreRelocation(m, order, i, L, j);
          if Less(delta, Sub(bestDelta, Fin(EPSILON))) {
            bestDelta, bestI, bestL, bestJ := delta, i, L, j;
          }
        }
      }
    }
  }

  /** One Or-opt pass: at most MAX_OR_OPT_ITERATIONS improving relocations. */
  method OrOptPassOn(m: Matrix, startOrder: seq<nat>) returns (order: seq<nat>, everImproved: bool)
    requires |startOrder| >= 4
    ensures var d := Descend(PricingOf(m), Relocations, startOrder, MAX_OR_OPT_ITERATIONS);
      order == d.order && everImproved == (d.moves > 0)
  {
    hide ScanRelocations, Relocate, Step, Descend;
    ghost var leg := PricingOf(m);
    order := startOrder;
    everImproved := false;
    var improved := true;
    var iterations := 0;
    ghost var moves := 0;
    while improved && iterations < MAX_OR_OPT_ITERATIONS
      invariant |order| == |startOrder| && iterations <= MAX_OR_OPT_ITERATIONS
      invariant everImproved == (moves > 0)
      invariant var rest := if improved then Descend(leg, Relocations, order, MAX_OR_OPT_ITERATIONS - iterations)
                            else Descent(order, 0);
        Descend(leg, Relocations, startOrder, MAX_OR_OPT_ITERATIONS) == Descent(rest.order, moves + rest.moves)
    {
      iterations := iterations + 1;
      var bestI, bestL, bestJ := FindBestRelocation(m, order);
      DescendUnfolds(leg, Relocations, order, MAX_OR_OPT_ITERATIONS - iterations + 1);
      StepRelocates(leg, order);
      improved := bestI >= 0;
      if improved {
        order := ApplyOrOptMove(order, bestI, bestL, bestJ);
        everImproved, moves := true, moves + 1;
      }
    }
    DescendUnfolds(leg, Relocations, order, 0);
  }

  // ----- The solver -----

  datatype Solution =
    | Tour(order: seq<nat>, totalDistance: Number)
    | RangeError

  function SeedTour(m: Matrix, startIndex: nat): (order: seq<nat>)
    requires startIndex < |m|
    ensures |order| == |m|
  {
    Seed(PricingOf(m), |m|, startIndex, |m|)
  }

  /** The search from the seed, as a function of the solver's input. */
  function Search(m: Matrix, startIndex: nat, orOpt: bool): Descent
    requires startIndex < |m| && |m| >= 2
  {
    Vnd(PricingOf(m), SeedTour(m, startIndex), orOpt, CAPS, MAX_VND_ROUNDS)
  }

  /** The search stops in a round that makes no move; otherwise it is the round cap that stops it. */
  predicate StopsByItself(m: Matrix, startIndex: nat, orOpt: bool)
    requires startIndex < |m| && |m| >= 2
  {
    BusyRounds(PricingOf(m), SeedTour(m, startIndex), orOpt, CAPS, MAX_VND_ROUNDS) < MAX_VND_ROUNDS
  }

  /** One round of the alternation. */
  lemma RoundUnfolds(leg: Pricing, order: seq<nat>, orOpt: bool, rounds: nat)
    requires |order| >= 2 && rounds > 0
    ensures var a := Descend(leg, Reversals, order, MAX_ITERATIONS);
      var b := OrOptPass(leg, a.order, orOpt, MAX_OR_OPT_ITERATIONS);
      if a.moves + b.moves == 0 then
        Vnd(leg, order, orOpt, CAPS, rounds).order == order && BusyRounds(leg, order, orOpt, CAPS, rounds) == 0
      else
        && Vnd(leg, order, orOpt, CAPS, rounds).order == Vnd(leg, b.order, orOpt, CAPS, rounds - 1).order
        && BusyRounds(leg, order, orOpt, CAPS, rounds) == 1 + BusyRounds(leg, b.order, orOpt, CAPS, rounds - 1)
  {
  }

  lemma NoRoundsLeft(leg: Pricing, order: seq<nat>, orOpt: bool)
    requires |order| >= 2
    ensures Vnd(leg, order, orOpt, CAPS, 0).order == order && BusyRounds(leg, order, orOpt, CAPS, 0) == 0
  {
  }

  lemma TrivialLengths(m: Matrix)
    ensures Metres(m, [], 0) == 0.0
    ensures (forall p: nat | p < 1 :: !Gap(m, [0], p)) && Metres(m, [0], 1) == 0.0
  {
    assert Metres(m, [0], 0) == 0.0;
  }

  /** `improving` says whether the loop was still finding moves when it ended. */
  method SolveTwoOpt(m: Matrix, startIndex: int, orOpt: bool) returns (solution: Solution, ghost improving: bool)
    ensures |m| == 0 ==> solution == Tour([], Fin(0.0))
    ensures |m| == 1 ==> solution == Tour([0], Fin(0.0))
    ensures |m| >= 2 && !(0 <= startIndex < |m|) ==> solution == RangeError
    ensures |m| >= 2 && 0 <= startIndex < |m| ==>
      var order := Search(m, startIndex, orOpt).order;
      solution == Tour(order, Total(TourCost(PricingOf(m), order)))
    ensures solution.Tour? ==>
      var order := solution.order;
      if exists p: nat | p < |order| :: Gap(m, order, p) then solution.totalDistance == PosInf
      else solution.totalDistance == Fin(Metres(m, order, |order|))
    ensures |m| >= 2 && 0 <= startIndex < |m| ==> (improving <==> !StopsByItself(m, startIndex, orOpt))
    ensures |m| >= 2 && 0 <= startIndex < |m| && !improving && SymmetricApartFrom(m, startIndex) ==>
      LocalOptimum(PricingOf(m), solution.order, orOpt)
  {
    hide Descend, TourCost, Seed, LocalOptimum, SymmetricApartFrom, Vnd, BusyRounds, Gap, Metres;
    var n := |m|;
    TrivialLengths(m);
    if n == 0 { return Tour([], Fin(0.0)), false; }
    if n == 1 { return Tour([0], Fin(0.0)), false; }
    if startIndex < 0 || startIndex >= n { return RangeError, false; }
    ghost var leg := PricingOf(m);
    var order := NearestNeighborSeed(m, startIndex);
    var vndImproved := true;
    var vndRounds := 0;
    while vndImproved && vndRounds < MAX_VND_ROUNDS
      invariant |order| == n && vndRounds <= MAX_VND_ROUNDS
      invariant Search(m, startIndex, orOpt).order
             == if vndImproved then Vnd(leg, order, orOpt, CAPS, MAX_VND_ROUNDS - vndRounds).order else order
      invariant if vndImproved then
          BusyRounds(leg, SeedTour(m, startIndex), orOpt, CAPS, MAX_VND_ROUNDS)
          == vndRounds + BusyRounds(leg, order, orOpt, CAPS, MAX_VND_ROUNDS - vndRounds)
        else StopsByItself(m, startIndex, orOpt)
    {
      RoundUnfolds(leg, order, orOpt, MAX_VND_ROUNDS - vndRounds);
      DescendConverges(leg, Reversals, order, MAX_ITERATIONS);
      vndRounds := vndRounds + 1;
      vndImproved := false;
      var next2, improved2 := TwoOptPass(m, order);
      if improved2 {
        order := next2;
        vndImproved := true;
      }
      if orOpt && n >= 4 {
        DescendConverges(leg, Relocations, order, MAX_OR_OPT_ITERATIONS);
        var nextO, improvedO := OrOptPassOn(m, order);
        if improvedO {
          order := nextO;
          vndImproved := true;
        }
      }
    }
    NoRoundsLeft(leg, order, orOpt);
    var total := TourLength(m, order);
    TourIsMeasured(m, order);
    if !vndImproved && SymmetricApartFrom(m, startIndex) {
      SolutionIsLocalOptimum(m, startIndex, orOpt, CAPS, MAX_VND_ROUNDS);
    }
    return Tour(order, total), vndImproved;
  }

  lemma MatrixSymmetry(m: Matrix, start: nat, nodes: seq<nat>)
    requires SymmetricApartFrom(m, start) && start !in nodes
    ensures SymmetricOn(PricingOf(m), nodes)
  {
    forall i: nat, j: nat | i in nodes && j in nodes
      ensures PricingOf(m)(i, j) == PricingOf(m)(j, i)
    {
      assert Leg(m, i, j) == Leg(m, j, i);
    }
  }

  /** The start occurs only at the start. */
  lemma StartOnlyFirst(order: seq<nat>, n: nat)
    requires IsTourOf(order, n) && n > 0
    ensures order[0] !in order[1..]
  {
    assert order == [order[0]] + order[1..];
    assert multiset(order)[order[0]] == 1 + multiset(order[1..])[order[0]];
  }

  lemma SeedIsReversible(m: Matrix, startIndex: nat)
    requires startIndex < |m| && |m| >= 2 && SymmetricApartFrom(m, startIndex)
    ensures Reversible(PricingOf(m), SeedTour(m, startIndex))
  {
    SeedIsGreedyTour(PricingOf(m), |m|, startIndex, |m|);
    StartOnlyFirst(SeedTour(m, startIndex), |m|);
    MatrixSymmetry(m, startIndex, SeedTour(m, startIndex)[1..]);
  }

  /** On any matrix the result visits every node once, starting where it was told to. */
  lemma SolutionIsPinnedTour(m: Matrix, startIndex: nat, orOpt: bool)
    requires startIndex < |m| && |m| >= 2
    ensures var order := Search(m, startIndex, orOpt).order;
      IsTourOf(order, |m|) && order[0] == startIndex
  {
    SeedIsGreedyTour(PricingOf(m), |m|, startIndex, |m|);
    VndKeepsNodes(PricingOf(m), SeedTour(m, startIndex), orOpt, CAPS, MAX_VND_ROUNDS);
  }

  lemma NoWorseIsAtMost(c: Cost, than: Cost)
    ensures NoWorse(c, than) ==> AtMost(Total(c), Total(than))
  {
  }

  /** On a matrix symmetric but for the start's legs, the result is no longer than the seed and misses no more legs. */
  lemma SolutionNoLongerThanSeed(m: Matrix, startIndex: nat, orOpt: bool)
    requires startIndex < |m| && |m| >= 2 && SymmetricApartFrom(m, startIndex)
    ensures var (cost, seed) := (TourCost(PricingOf(m), Search(m, startIndex, orOpt).order),
                                 TourCost(PricingOf(m), SeedTour(m, startIndex)));
      NoWorse(cost, seed) && AtMost(Total(cost), Total(seed))
    ensures var (order, seed) := (Search(m, startIndex, orOpt).order, SeedTour(m, startIndex));
      || Gaps(m, order, |m|) < Gaps(m, seed, |m|)
      || (Gaps(m, order, |m|) == Gaps(m, seed, |m|) && Metres(m, order, |m|) <= Metres(m, seed, |m|))
  {
    hide TourCost, Vnd, Reversible, SymmetricApartFrom, Gaps, Metres, Gap;
    TourIsMeasured(m, SeedTour(m, startIndex));
    TourIsMeasured(m, Search(m, startIndex, orOpt).order);
    SeedIsReversible(m, startIndex);
    VndNoWorse(PricingOf(m), SeedTour(m, startIndex), orOpt, CAPS, MAX_VND_ROUNDS);
    NoWorseIsAtMost(TourCost(PricingOf(m), Search(m, startIndex, orOpt).order),
                    TourCost(PricingOf(m), SeedTour(m, startIndex)));
  }

  /**
   Whatever the caps and the number of rounds, a search that stops by itself has found a local optimum:
   no reversal and no relocation shortens its tour, or improves it over existing legs. The start's
   legs may be one-way.
   */
  lemma SolutionIsLocalOptimum(m: Matrix, startIndex: nat, orOpt: bool, caps: Caps, rounds: nat)
    requires startIndex < |m| && |m| >= 2 && SymmetricApartFrom(m, startIndex) && caps.twoOpt > 0 && caps.orOpt > 0
    requires BusyRounds(PricingOf(m), SeedTour(m, startIndex), orOpt, caps, rounds) < rounds
    ensures LocalOptimum(PricingOf(m), Vnd(PricingOf(m), SeedTour(m, startIndex), orOpt, caps, rounds).order, orOpt)
  {
    hide LocalOptimum, Vnd, BusyRounds, Settled, SymmetricApartFrom;
    SeedIsReversible(m, startIndex);
    VndSettles(PricingOf(m), SeedTour(m, startIndex), orOpt, caps, rounds);
    var order := Vnd(PricingOf(m), SeedTour(m, startIndex), orOpt, caps, rounds).order;
    VndKeepsNodes(PricingOf(m), SeedTour(m, startIndex), orOpt, caps, rounds);
    StaysReversible(PricingOf(m), SeedTour(m, startIndex), order);
    SettledIsLocalOptimum(PricingOf(m), order, orOpt);
  }

  lemma OneMove(order: seq<nat>, orOpt: bool, other: seq<nat>)
    requires (exists i: nat, k: nat :: ReversalInRange(order, i, k) && other == Reverse(order, i, k))
      || (orOpt && |order| >= 4 && exists i: nat, L: nat, j: nat ::
            L <= 3 && RelocationInRange(order, i, L, j) && other == Relocate(order, i, L, j))
    ensures OneMoveAway(order, orOpt, other)
  {
    hide Reverse, Relocate, ReversalInRange, RelocationInRange;
  }

  /**
   Measured on the matrix: a local optimum is no more than 1e-9 longer than any unbroken tour that
   reverses a segment or relocates a chain of up to three nodes, and is itself unbroken if there is one.
   */
  lemma LocalOptimumInMetres(m: Matrix, order: seq<nat>, orOpt: bool, other: seq<nat>)
    requires LocalOptimum(PricingOf(m), order, orOpt)
    requires (exists i: nat, k: nat :: ReversalInRange(order, i, k) && other == Reverse(order, i, k))
      || (orOpt && |order| >= 4 && exists i: nat, L: nat, j: nat ::
            L <= 3 && RelocationInRange(order, i, L, j) && other == Relocate(order, i, L, j))
    requires forall p: nat | p < |other| :: !Gap(m, other, p)
    ensures forall p: nat | p < |order| :: !Gap(m, order, p)
    ensures Metres(m, order, |order|) <= Metres(m, other, |other|) + 0.000000001
  {
    hide TourCost, Gap, Metres, Gaps, Reverse, Relocate, ReversalInRange, RelocationInRange, OneMoveAway, Neighbour;
    hide OneMoveOverLegs;
    OneMove(order, orOpt, other);
    TourIsMeasured(m, order);
    TourIsMeasured(m, other);
  }

  /**
   With Or-opt the result is never longer than what one 2-opt pass makes of the seed, and, if that pass
   converges before its cap, never longer than the result without Or-opt.
   */
  lemma OrOptSolutionNoLonger(m: Matrix, startIndex: nat)
    requires startIndex < |m| && |m| >= 2 && SymmetricApartFrom(m, startIndex)
    ensures var pass := Descend(PricingOf(m), Reversals, SeedTour(m, startIndex), MAX_ITERATIONS);
      var with := Total(TourCost(PricingOf(m), Search(m, startIndex, true).order));
      && AtMost(with, Total(TourCost(PricingOf(m), pass.order)))
      && (pass.moves < MAX_ITERATIONS ==>
            AtMost(with, Total(TourCost(PricingOf(m), Search(m, startIndex, false).order))))
  {
    hide TourCost, Vnd, Reversible, SymmetricApartFrom, Descend;
    SeedIsReversible(m, startIndex);
    OrOptNeverHurts(PricingOf(m), SeedTour(m, startIndex), CAPS, MAX_VND_ROUNDS);
    var with := TourCost(PricingOf(m), Search(m, startIndex, true).order);
    NoWorseIsAtMost(with, TourCost(PricingOf(m), Descend(PricingOf(m), Reversals, SeedTour(m, startIndex),
                                                         MAX_ITERATIONS).order));
    if Descend(PricingOf(m), Reversals, SeedTour(m, startIndex), MAX_ITERATIONS).moves < MAX_ITERATIONS {
      NoWorseIsAtMost(with, TourCost(PricingOf(m), Search(m, startIndex, false).order));
    }
  }

  ghost predicate SearchEndsWithin(leg: Pricing, seed: seq<nat>, orOpt: bool, bound: nat)
    requires |seed| >= 2
  {
    forall caps: Caps, rounds: nat | caps.twoOpt > 0 && caps.orOpt > 0 ::
      && Vnd(leg, seed, orOpt, caps, rounds).moves <= bound
      && (rounds > bound ==> Settled(leg, Vnd(leg, seed, orOpt, caps, rounds).order, orOpt))
  }

  /**
   Missing legs allowed, and asymmetric ones at the start, the search needs no caps: it ends in a settled tour
   after a bounded number of moves.
   */
  lemma SearchTerminatesWithoutCaps(m: Matrix, startIndex: nat, orOpt: bool)
    requires startIndex < |m| && |m| >= 2 && SymmetricApartFrom(m, startIndex)
    ensures exists bound: nat :: SearchEndsWithin(PricingOf(m), SeedTour(m, startIndex), orOpt, bound)
  {
    hide TourCost, Vnd, Settled, Potential, BoundedLegs, TourBound, Reversible, SymmetricApartFrom;
    SeedIsReversible(m, startIndex);
    var leg, seed := PricingOf(m), SeedTour(m, startIndex);
    var most := MatrixIsBounded(m);
    TourWithin(leg, seed, most);
    var bound: nat := Potential(TourCost(leg, seed), TourBound(|seed|, most));
    forall caps: Caps, rounds: nat | caps.twoOpt > 0 && caps.orOpt > 0
      ensures Vnd(leg, seed, orOpt, caps, rounds).moves <= bound
      ensures rounds > bound ==> Settled(leg, Vnd(leg, seed, orOpt, caps, rounds).order, orOpt)
    {
      VndBounded(leg, seed, orOpt, caps, rounds, most);
      BusyRoundsMove(leg, seed, orOpt, caps, rounds);
      VndSettles(leg, seed, orOpt, caps, rounds);
    }
    assert SearchEndsWithin(leg, seed, orOpt, bound);
  }

  // ----- Asymmetric matrices -----

  /**
   On an arbitrary matrix a reversal between finite tours changes the length by its score exactly
   when the segment is as long backwards as forwards.
   */
  lemma ReversalExactIff(leg: Pricing, order: seq<nat>, i: nat, k: nat)
    requires ReversalInRange(order, i, k)
    requires TourCost(leg, order).nulls == 0 && TourCost(leg, Reverse(order, i, k)).nulls == 0
    ensures ScoreIsExact(leg, order, i, k)
       <==> PathCost(leg, Reversed(order[i..k + 1])).metres == PathCost(leg, order[i..k + 1]).metres
  {
    var kept := ReversalTrade(leg, order, i, k);
    ReversalScore(leg, order, i, k);
  }

  /** The score says what the reversal changes. */
  predicate ScoreIsExact(leg: Pricing, order: seq<nat>, i: nat, k: nat)
    requires ReversalInRange(order, i, k)
  {
    Total(TourCost(leg, Reverse(order, i, k))) == Add(Total(TourCost(leg, order)), ReversalDelta(leg, order, i, k))
  }

  ghost predicate AllScoresExact(leg: Pricing, n: nat, start: nat) {
    forall order: seq<nat>, i: nat, k: nat |
      IsTourOf(order, n) && order != [] && order[0] == start && ReversalInRange(order, i, k) ::
      ScoreIsExact(leg, order, i, k)
  }

  /** No leg among the first n nodes is missing. */
  ghost predicate NoMissingLegs(leg: Pricing, n: nat) {
    forall i: nat, j: nat | i < n && j < n :: leg(i, j).nulls == 0
  }

  ghost predicate NodesBelow(s: seq<nat>, n: nat) {
    forall p | 0 <= p < |s| :: s[p] < n
  }

  lemma {:induction false} NothingMissing(leg: Pricing, s: seq<nat>, n: nat)
    requires NoMissingLegs(leg, n) && NodesBelow(s, n)
    ensures PathCost(leg, s).nulls == 0
    decreases |s|
  {
    if |s| > 1 {
      NothingMissing(leg, s[1..], n);
    }
  }

  /** Then neither a tour of such nodes nor its reversals miss a leg. */
  lemma NoTourMissesLegs(leg: Pricing, order: seq<nat>, n: nat, i: nat, k: nat)
    requires NoMissingLegs(leg, n) && NodesBelow(order, n) && ReversalInRange(order, i, k)
    ensures TourCost(leg, order).nulls == 0 && TourCost(leg, Reverse(order, i, k)).nulls == 0
  {
    hide PathCost, NoMissingLegs, Reverse;
    var turned := Reverse(order, i, k);
    forall p: nat | p < |order|
      ensures turned[p] < n
    {
      ReverseMirrors(order, i, k, p);
    }
    NothingMissing(leg, order + [order[0]], n);
    NothingMissing(leg, turned + [turned[0]], n);
  }

  /** There is a tour that goes from the start to any two other nodes in turn. */
  lemma TourThrough(n: nat, start: nat, a: nat, b: nat) returns (order: seq<nat>)
    requires start < n && a < n && b < n && start != a && start != b && a != b
    ensures IsTourOf(order, n) && |order| >= 3 && order[0] == start && order[1] == a && order[2] == b
  {
    order := [start, a, b];
    FullLengthCovers(order, n);
    while |order| < n
      invariant 3 <= |order| <= n && order[0] == start && order[1] == a && order[2] == b
      invariant NoRepeats(order) && forall x: nat | x in order :: x < n
    {
      FirstUnvisitedExists(order, 0, n);
      order := order + [FirstUnvisited(order, 0, n)];
    }
    FullLengthCovers(order, n);
  }

  /**
   Where no leg is missing, every reversal of every tour from the start is scored exactly if and only
   if legs between other nodes are as long backwards as forwards.
   */
  lemma ScoresExactExactlyWhenSymmetric(leg: Pricing, n: nat, start: nat)
    requires start < n && NoMissingLegs(leg, n)
    ensures AllScoresExact(leg, n, start)
       <==> forall a: nat, b: nat | a < n && b < n && a != start && b != start :: leg(a, b) == leg(b, a)
  {
    hide TourCost, PathCost, ReversalDelta, IsTourOf, Reverse;
    if AllScoresExact(leg, n, start) {
      forall a: nat, b: nat | a < n && b < n && a != start && b != start
        ensures leg(a, b) == leg(b, a)
      {
        if a != b {
          var order := TourThrough(n, start, a, b);
          assert ScoreIsExact(leg, order, 1, 2);
          TourNodes(order, n);
          ExactSwapIsSymmetric(leg, order, n);
        }
      }
    }
    if forall a: nat, b: nat | a < n && b < n && a != start && b != start :: leg(a, b) == leg(b, a) {
      forall order: seq<nat>, i: nat, k: nat |
        IsTourOf(order, n) && order != [] && order[0] == start && ReversalInRange(order, i, k)
        ensures ScoreIsExact(leg, order, i, k)
      {
        StartOnlyFirst(order, n);
        TourNodes(order, n);
        assert forall x | x in order[1..] :: exists p | 0 <= p < |order| :: order[p] == x;
        ReversibleScoresExact(leg, order, n, i, k);
      }
    }
  }

  lemma TourNodes(order: seq<nat>, n: nat)
    requires IsTourOf(order, n)
    ensures NodesBelow(order, n)
  {
    assert forall p | 0 <= p < |order| :: multiset(order)[order[p]] > 0;
  }

  lemma ReversibleScoresExact(leg: Pricing, order: seq<nat>, n: nat, i: nat, k: nat)
    requires NoMissingLegs(leg, n) && NodesBelow(order, n) && Reversible(leg, order) && ReversalInRange(order, i, k)
    ensures ScoreIsExact(leg, order, i, k)
  {
    hide TourCost, ReversalDelta, Reversible, Reverse;
    var kept := ReversalExact(leg, order, i, k);
    NoTourMissesLegs(leg, order, n, i, k);
    ScoreMeaning(kept, ReversalAdded(leg, order, i, k), ReversalRemoved(leg, order, i, k));
  }

  lemma ExactSwapIsSymmetric(leg: Pricing, order: seq<nat>, n: nat)
    requires NoMissingLegs(leg, n) && NodesBelow(order, n) && |order| >= 3 && ScoreIsExact(leg, order, 1, 2)
    ensures leg(order[1], order[2]) == leg(order[2], order[1])
  {
    var a, b := order[1], order[2];
    NoTourMissesLegs(leg, order, n, 1, 2);
    ReversalExactIff(leg, order, 1, 2);
    assert order[1..3] == [a, b] && Reversed([a, b]) == [b, a];
    TwoNodePath(leg, a, b);
    TwoNodePath(leg, b, a);
  }

  lemma TwoNodePath(leg: Pricing, a: nat, b: nat)
    ensures PathCost(leg, [a, b]) == leg(a, b)
  {
    assert [a, b][1..] == [b] && PathCost(leg, [b]) == ZERO;
  }

  lemma TriangleCost(leg: Pricing, a: nat, b: nat, c: nat)
    ensures TourCost(leg, [a, b, c]) == Plus(leg(a, b), Plus(leg(b, c), Plus(leg(c, a), ZERO)))
  {
    assert PathCost(leg, [a]) == ZERO;
    hide PathCost, Plus;
    PathPrepend(leg, c, [a]);
    PathPrepend(leg, b, [c, a]);
    PathPrepend(leg, a, [b, c, a]);
    assert [c] + [a] == [c, a] && [b] + [c, a] == [b, c, a];
    assert [a] + [b, c, a] == [a, b, c] + [a];
  }

  const ONE_WAY: Matrix := [
    [Some(0.0), Some(5.0), Some(6.0)],
    [Some(1.0), Some(0.0), Some(1.0)],
    [Some(20.0), Some(1000.0), Some(0.0)]]

  lemma OneWayLegs()
    ensures var leg := PricingOf(ONE_WAY);
      && leg(0, 1) == Cost(0, 5.0) && leg(1, 2) == Cost(0, 1.0) && leg(2, 0) == Cost(0, 20.0)
      && leg(0, 2) == Cost(0, 6.0) && leg(2, 1) == Cost(0, 1000.0) && leg(1, 0) == Cost(0, 1.0)
  {
  }

  /** Three nodes have one reversal to scan. */
  lemma ThreeNodeScan(leg: Pricing, order: seq<nat>)
    requires |order| == 3
    ensures ScanReversals(leg, order, 2, 3)
         == KeepReversal(BestReversal(Fin(0.0), -1, -1), ReversalDelta(leg, order, 1, 2), 1, 2)
  {
    hide ReversalDelta, KeepReversal;
    assert ScanReversals(leg, order, 2, 3) == ScanReversals(leg, order, 1, 3);
    assert ScanReversals(leg, order, 1, 2) == BestReversal(Fin(0.0), -1, -1);
  }

  lemma ReverseThree(a: nat, b: nat, c: nat)
    ensures Reverse([a, b, c], 1, 2) == [a, c, b]
  {
    hide Reverse;
    ReverseMirrors([a, b, c], 1, 2, 0);
    ReverseMirrors([a, b, c], 1, 2, 1);
    ReverseMirrors([a, b, c], 1, 2, 2);
  }

  lemma TriangleReversal(leg: Pricing)
    requires ReversalDelta(leg, [0, 1, 2], 1, 2) == Fin(-18.0)
    ensures Step(leg, Reversals, [0, 1, 2]) == Some([0, 2, 1])
  {
    hide ReversalDelta, Step, ScanReversals, Reverse;
    StepReverses(leg, [0, 1, 2]);
    ThreeNodeScan(leg, [0, 1, 2]);
    ReverseThree(0, 1, 2);
  }

  lemma NoTriangleReversal(leg: Pricing)
    requires ReversalDelta(leg, [0, 2, 1], 1, 2) == Fin(18.0)
    ensures Step(leg, Reversals, [0, 2, 1]) == None
  {
    hide ReversalDelta, Step, ScanReversals, Reverse;
    StepReverses(leg, [0, 2, 1]);
    ThreeNodeScan(leg, [0, 2, 1]);
  }

  lemma OneWaySeed()
    ensures SeedTour(ONE_WAY, 0) == [0, 1, 2]
  {
    var leg := PricingOf(ONE_WAY);
    OneWayLegs();
    hide LegCost;
    assert Seed(leg, 3, 0, 1) == [0];
    assert NextNode(leg, [0], 3) == 1 by {
      assert ScanNearest(leg, [0], 1).next < 0;
      assert ScanNearest(leg, [0], 2) == Nearest(Fin(5.0), 1);
      assert ScanNearest(leg, [0], 3) == Nearest(Fin(5.0), 1);
    }
    assert NextNode(leg, [0, 1], 3) == 2;
  }

  /** On this asymmetric matrix the solver turns its seed of 26 metres into a tour of 1007. */
  lemma AsymmetricSearchCanLengthen(orOpt: bool)
    ensures var leg := PricingOf(ONE_WAY);
      && SeedTour(ONE_WAY, 0) == [0, 1, 2] && TourCost(leg, [0, 1, 2]) == Cost(0, 26.0)
      && Search(ONE_WAY, 0, orOpt).order == [0, 2, 1] && TourCost(leg, [0, 2, 1]) == Cost(0, 1007.0)
  {
    hide LegCost, PathCost, TourCost, Step, Seed, SeedTour, ReversalDelta, Descend, Vnd, BusyRounds;
    var leg := PricingOf(ONE_WAY);
    OneWayLegs();
    OneWaySeed();
    RoundUnfolds(leg, [0, 1, 2], orOpt, MAX_VND_ROUNDS);
    RoundUnfolds(leg, [0, 2, 1], orOpt, MAX_VND_ROUNDS - 1);
    TriangleCost(leg, 0, 1, 2);
    TriangleCost(leg, 0, 2, 1);
    TriangleDeltas(leg);
    TriangleReversal(leg);
    NoTriangleReversal(leg);
    DescendUnfolds(leg, Reversals, [0, 1, 2], MAX_ITERATIONS);
    DescendUnfolds(leg, Reversals, [0, 2, 1], MAX_ITERATIONS - 1);
    DescendUnfolds(leg, Reversals, [0, 2, 1], MAX_ITERATIONS);
  }

  lemma TriangleDeltas(leg: Pricing)
    requires leg == PricingOf(ONE_WAY)
    ensures ReversalDelta(leg, [0, 1, 2], 1, 2) == Fin(-18.0) && ReversalDelta(leg, [0, 2, 1], 1, 2) == Fin(18.0)
  {
    OneWayLegs();
    hide LegCost;
    assert At([0, 1, 2], 3) == 0 && At([0, 2, 1], 3) == 0;
  }

  // ----- Reversed chains -----

  /** Four places on a line, a metre apart. */
  const LINE: Matrix := [
    [Some(0.0), Some(1.0), Some(2.0), Some(3.0)],
    [Some(1.0), Some(0.0), Some(1.0), Some(2.0)],
    [Some(2.0), Some(1.0), Some(0.0), Some(1.0)],
    [Some(3.0), Some(2.0), Some(1.0), Some(0.0)]]

  lemma LineLegs()
    ensures var leg := PricingOf(LINE);
      && leg(3, 1) == Cost(0, 2.0) && leg(2, 0) == Cost(0, 2.0)
      && leg(3, 2) == Cost(0, 1.0) && leg(1, 0) == Cost(0, 1.0)
    ensures Symmetric(LINE)
  {
    forall i, j
      ensures Leg(LINE, i, j) == Leg(LINE, j, i)
    {
      if 0 <= i < 4 && 0 <= j < 4 {
        assert i == 0 || i == 1 || i == 2 || i == 3;
        assert j == 0 || j == 1 || j == 2 || j == 3;
      }
    }
  }

  /** Symmetric or not, the two orientations of a chain differ: here a reversed chain is two metres shorter. */
  lemma ReversedChainCanBeShorter()
    ensures Symmetric(LINE)
    ensures var leg, order := PricingOf(LINE), [0, 1, 2, 3];
      TourCost(leg, RelocateReversed(order, 1, 2, 4)).nulls == TourCost(leg, Relocate(order, 1, 2, 4)).nulls
      && TourCost(leg, RelocateReversed(order, 1, 2, 4)).metres == TourCost(leg, Relocate(order, 1, 2, 4)).metres - 2.0
  {
    hide LegCost, TourCost, Relocate, RelocateReversed;
    LineLegs();
    MatrixSymmetry(LINE, 0, [1, 2]);
    assert [0, 1, 2, 3][1..3] == [1, 2];
    var kept := ReversedChainTrade(PricingOf(LINE), [0, 1, 2, 3], 1, 2, 4);
    assert At([0, 1, 2, 3], 4) == 0;
  }
}
