/**
 Descents, their alternation, and why both end: every run of improving moves is bounded by a
 potential of the tour it starts from, whatever the iteration caps.
 */
module TourDescent {
  import opened Options
  import opened Matrices
  import opened TourCosts
  import opened TourMoves
  import opened TourSearch

  datatype Descent = Descent(order: seq<nat>, moves: nat)

  /** One pass: apply improving moves until none is left or `fuel` iterations are used up. */
  function Descend(leg: Pricing, kind: Neighbourhood, order: seq<nat>, fuel: nat): (d: Descent)
    requires Searchable(kind, order)
    ensures |d.order| == |order|
    decreases fuel
  {
    if fuel == 0 then Descent(order, 0)
    else match Step(leg, kind, order)
      case None => Descent(order, 0)
      case Some(next) =>
        var rest := Descend(leg, kind, next, fuel - 1);
        Descent(rest.order, rest.moves + 1)
  }

  /** The iteration caps: 2-opt iterations per pass, Or-opt iterations per pass. */
  datatype Caps = Caps(twoOpt: nat, orOpt: nat)

  function OrOptPass(leg: Pricing, order: seq<nat>, orOpt: bool, cap: nat): (d: Descent)
    ensures |d.order| == |order|
  {
    if orOpt && |order| >= 4 then Descend(leg, Relocations, order, cap) else Descent(order, 0)
  }

  /** The variable neighbourhood descent: both passes per round, until a round makes no move. */
  function Vnd(leg: Pricing, order: seq<nat>, orOpt: bool, caps: Caps, rounds: nat): (d: Descent)
    requires |order| >= 2
    ensures |d.order| == |order|
    decreases rounds
  {
    if rounds == 0 then Descent(order, 0)
    else
      var a := Descend(leg, Reversals, order, caps.twoOpt);
      var b := OrOptPass(leg, a.order, orOpt, caps.orOpt);
      if a.moves + b.moves == 0 then Descent(order, 0)
      else
        var rest := Vnd(leg, b.order, orOpt, caps, rounds - 1);
        Descent(rest.order, a.moves + b.moves + rest.moves)
  }

  /** How many rounds make a move. The loop ends by itself in a round that makes none. */
  function BusyRounds(leg: Pricing, order: seq<nat>, orOpt: bool, caps: Caps, rounds: nat): nat
    requires |order| >= 2
    decreases rounds
  {
    if rounds == 0 then 0
    else
      var a := Descend(leg, Reversals, order, caps.twoOpt);
      var b := OrOptPass(leg, a.order, orOpt, caps.orOpt);
      if a.moves + b.moves == 0 then 0 else 1 + BusyRounds(leg, b.order, orOpt, caps, rounds - 1)
  }

  // ----- What every descent keeps -----

  lemma {:induction false} DescendKeepsNodes(leg: Pricing, kind: Neighbourhood, order: seq<nat>, fuel: nat)
    requires Searchable(kind, order)
    ensures SameNodesAndStart(order, Descend(leg, kind, order, fuel).order)
    decreases fuel
  {
    hide TourCost, Neighbour, Step, ExactFor;
    if fuel > 0 && Step(leg, kind, order).Some? {
      StepImproves(leg, kind, order);
      DescendKeepsNodes(leg, kind, Step(leg, kind, order).value, fuel - 1);
    }
  }

  lemma {:induction false} DescendNoWorse(leg: Pricing, kind: Neighbourhood, order: seq<nat>, fuel: nat)
    requires Searchable(kind, order) && ExactFor(leg, kind, order)
    ensures NoWorse(TourCost(leg, Descend(leg, kind, order, fuel).order), TourCost(leg, order))
    decreases fuel
  {
    hide TourCost, Step, Neighbour, Reversible, SameNodesAndStart;
    if fuel > 0 && Step(leg, kind, order).Some? {
      StepImproves(leg, kind, order);
      if kind == Reversals { StaysReversible(leg, order, Step(leg, kind, order).value); }
      DescendNoWorse(leg, kind, Step(leg, kind, order).value, fuel - 1);
    }
  }

  /** A pass that stops before its cap has no move left. */
  lemma {:induction false} DescendConverges(leg: Pricing, kind: Neighbourhood, order: seq<nat>, fuel: nat)
    requires Searchable(kind, order)
    ensures var d := Descend(leg, kind, order, fuel);
      && d.moves <= fuel
      && (d.moves < fuel ==> Step(leg, kind, d.order) == None)
      && (d.moves == 0 ==> d.order == order)
    decreases fuel
  {
    hide Step;
    if fuel > 0 && Step(leg, kind, order).Some? {
      DescendConverges(leg, kind, Step(leg, kind, order).value, fuel - 1);
    }
  }

  lemma {:induction false} VndKeepsNodes(leg: Pricing, order: seq<nat>, orOpt: bool, caps: Caps, rounds: nat)
    requires |order| >= 2
    ensures SameNodesAndStart(order, Vnd(leg, order, orOpt, caps, rounds).order)
    decreases rounds
  {
    if rounds > 0 {
      var a := Descend(leg, Reversals, order, caps.twoOpt);
      DescendKeepsNodes(leg, Reversals, order, caps.twoOpt);
      if orOpt && |order| >= 4 { DescendKeepsNodes(leg, Relocations, a.order, caps.orOpt); }
      var b := OrOptPass(leg, a.order, orOpt, caps.orOpt);
      VndKeepsNodes(leg, b.order, orOpt, caps, rounds - 1);
    }
  }

  /** Nor does a whole round spoil the scores of the next one. */
  lemma RoundStaysReversible(leg: Pricing, order: seq<nat>, orOpt: bool, caps: Caps)
    requires |order| >= 2 && Reversible(leg, order)
    ensures var a := Descend(leg, Reversals, order, caps.twoOpt);
      Reversible(leg, a.order) && Reversible(leg, OrOptPass(leg, a.order, orOpt, caps.orOpt).order)
  {
    hide Reversible, SameNodesAndStart, Descend;
    var a := Descend(leg, Reversals, order, caps.twoOpt).order;
    DescendKeepsNodes(leg, Reversals, order, caps.twoOpt);
    StaysReversible(leg, order, a);
    if orOpt && |a| >= 4 {
      DescendKeepsNodes(leg, Relocations, a, caps.orOpt);
      StaysReversible(leg, a, Descend(leg, Relocations, a, caps.orOpt).order);
    }
  }

  lemma {:induction false} VndNoWorse(leg: Pricing, order: seq<nat>, orOpt: bool, caps: Caps, rounds: nat)
    requires |order| >= 2 && Reversible(leg, order)
    ensures NoWorse(TourCost(leg, Vnd(leg, order, orOpt, caps, rounds).order), TourCost(leg, order))
    decreases rounds
  {
    hide TourCost, Step, Descend, Reversible;
    if rounds > 0 {
      var a := Descend(leg, Reversals, order, caps.twoOpt);
      RoundStaysReversible(leg, order, orOpt, caps);
      DescendNoWorse(leg, Reversals, order, caps.twoOpt);
      if orOpt && |order| >= 4 { DescendNoWorse(leg, Relocations, a.order, caps.orOpt); }
      var b := OrOptPass(leg, a.order, orOpt, caps.orOpt);
      VndNoWorse(leg, b.order, orOpt, caps, rounds - 1);
    }
  }

  // ----- Local optimality at exit -----

  /** Neither pass finds a move. */
  ghost predicate Settled(leg: Pricing, order: seq<nat>, orOpt: bool)
    requires |order| >= 2
  {
    && Step(leg, Reversals, order) == None
    && (orOpt && |order| >= 4 ==> Step(leg, Relocations, order) == None)
  }

  /** If not every round makes a move, the loop ended by itself, and then no move is left. */
  lemma {:induction false} VndSettles(leg: Pricing, order: seq<nat>, orOpt: bool, caps: Caps, rounds: nat)
    requires |order| >= 2 && caps.twoOpt > 0 && caps.orOpt > 0
    ensures BusyRounds(leg, order, orOpt, caps, rounds) < rounds
      ==> Settled(leg, Vnd(leg, order, orOpt, caps, rounds).order, orOpt)
    decreases rounds
  {
    hide Step;
    if rounds > 0 {
      var a := Descend(leg, Reversals, order, caps.twoOpt);
      DescendConverges(leg, Reversals, order, caps.twoOpt);
      if orOpt && |order| >= 4 { DescendConverges(leg, Relocations, a.order, caps.orOpt); }
      var b := OrOptPass(leg, a.order, orOpt, caps.orOpt);
      VndSettles(leg, b.order, orOpt, caps, rounds - 1);
    }
  }

  lemma {:induction false} BusyRoundsMove(leg: Pricing, order: seq<nat>, orOpt: bool, caps: Caps, rounds: nat)
    requires |order| >= 2
    ensures BusyRounds(leg, order, orOpt, caps, rounds) <= Vnd(leg, order, orOpt, caps, rounds).moves
    decreases rounds
  {
    hide Step, Descend;
    if rounds > 0 {
      var b := OrOptPass(leg, Descend(leg, Reversals, order, caps.twoOpt).order, orOpt, caps.orOpt);
      BusyRoundsMove(leg, b.order, orOpt, caps, rounds - 1);
    }
  }

  /** One move away in a neighbourhood the search uses. */
  ghost predicate OneMoveAway(order: seq<nat>, orOpt: bool, other: seq<nat>) {
    Neighbour(Reversals, order, other) || (orOpt && |order| >= 4 && Neighbour(Relocations, order, other))
  }

  /** One such move away without adding a missing leg. */
  ghost predicate OneMoveOverLegs(leg: Pricing, order: seq<nat>, orOpt: bool, other: seq<nat>) {
    || NeighbourOverLegs(leg, Reversals, order, other)
    || (orOpt && |order| >= 4 && NeighbourOverLegs(leg, Relocations, order, other))
  }

  /** No move makes the tour shorter, and none over existing legs makes it better, even with legs missing elsewhere. */
  ghost predicate LocalOptimum(leg: Pricing, order: seq<nat>, orOpt: bool) {
    && (forall other | OneMoveAway(order, orOpt, other) ::
          !Shorter(Total(TourCost(leg, other)), Total(TourCost(leg, order))))
    && (forall other | OneMoveOverLegs(leg, order, orOpt, other) :: !Better(TourCost(leg, other), TourCost(leg, order)))
  }

  /** A settled tour is a local optimum. */
  lemma SettledIsLocalOptimum(leg: Pricing, order: seq<nat>, orOpt: bool)
    requires |order| >= 2 && Reversible(leg, order) && Settled(leg, order, orOpt)
    ensures LocalOptimum(leg, order, orOpt)
  {
    hide Reversible, TourCost, Neighbour, NeighbourOverLegs, Step, Shorter, Better;
    forall other | OneMoveAway(order, orOpt, other)
      ensures !Shorter(Total(TourCost(leg, other)), Total(TourCost(leg, order)))
    {
      var kind := if Neighbour(Reversals, order, other) then Reversals else Relocations;
      NoStepIsLocalOptimum(leg, kind, order, other);
    }
    forall other | OneMoveOverLegs(leg, order, orOpt, other)
      ensures !Better(TourCost(leg, other), TourCost(leg, order))
    {
      var kind := if NeighbourOverLegs(leg, Reversals, order, other) then Reversals else Relocations;
      NoStepNoBetter(leg, kind, order, other);
    }
  }

  // ----- Or-opt never hurts -----

  /** Once the first 2-opt pass converges, plain 2-opt is done. */
  lemma PlainResult(leg: Pricing, order: seq<nat>, caps: Caps, rounds: nat)
    requires |order| >= 2 && rounds >= 2
    requires Descend(leg, Reversals, order, caps.twoOpt).moves < caps.twoOpt
    ensures Vnd(leg, order, false, caps, rounds).order == Descend(leg, Reversals, order, caps.twoOpt).order
  {
    var a := Descend(leg, Reversals, order, caps.twoOpt);
    DescendConverges(leg, Reversals, order, caps.twoOpt);
    assert Descend(leg, Reversals, a.order, caps.twoOpt) == Descent(a.order, 0);
    assert Vnd(leg, a.order, false, caps, rounds - 1) == Descent(a.order, 0);
  }

  /**
   With Or-opt the result is never worse than what one 2-opt pass gives, and, provided that pass
   converges, never worse than what the whole search gives without Or-opt.
   */
  lemma OrOptNeverHurts(leg: Pricing, order: seq<nat>, caps: Caps, rounds: nat)
    requires |order| >= 2 && rounds >= 2 && Reversible(leg, order)
    ensures var pass := Descend(leg, Reversals, order, caps.twoOpt);
      var with := TourCost(leg, Vnd(leg, order, true, caps, rounds).order);
      && NoWorse(with, TourCost(leg, pass.order))
      && (pass.moves < caps.twoOpt ==> NoWorse(with, TourCost(leg, Vnd(leg, order, false, caps, rounds).order)))
  {
    hide TourCost, Step, Descend, Reversible;
    var a := Descend(leg, Reversals, order, caps.twoOpt);
    RoundStaysReversible(leg, order, true, caps);
    if a.moves < caps.twoOpt { PlainResult(leg, order, caps, rounds); }
    DescendConverges(leg, Reversals, order, caps.twoOpt);
    var b := OrOptPass(leg, a.order, true, caps.orOpt);
    if |order| >= 4 {
      DescendNoWorse(leg, Relocations, a.order, caps.orOpt);
      DescendConverges(leg, Relocations, a.order, caps.orOpt);
    }
    VndNoWorse(leg, b.order, true, caps, rounds - 1);
  }

  // ----- Termination without caps -----

  ghost predicate Within(c: Cost, bound: real) {
    -bound <= c.metres <= bound
  }

  ghost predicate BoundedLegs(leg: Pricing, most: real) {
    forall i: nat, j: nat :: Within(leg(i, j), most)
  }

  function Times(n: nat, x: real): real {
    if n == 0 then 0.0 else x + Times(n - 1, x)
  }

  lemma {:induction false} PathWithin(leg: Pricing, s: seq<nat>, most: real)
    requires BoundedLegs(leg, most) && most >= 0.0
    ensures Within(PathCost(leg, s), Times(|s|, most))
    decreases |s|
  {
    if |s| <= 1 {
      TimesNonNegative(|s|, most);
    } else {
      PathWithin(leg, s[1..], most);
      assert Within(leg(s[0], s[1]), most);
    }
  }

  lemma {:induction false} TimesNonNegative(n: nat, x: real)
    requires x >= 0.0
    ensures Times(n, x) >= 0.0
  {
    if n > 0 { TimesNonNegative(n - 1, x); }
  }

  const STEPS_PER_METRE := 1000000000.0

  /** How many steps of EPSILON metres fit above the lower bound. */
  function StepsAbove(metres: real, bound: real): int {
    ((metres + bound) * STEPS_PER_METRE).Floor
  }

  /**
   A whole number that every accepted move lowers: one missing leg outweighs any difference in
   metres, and metres count in steps of EPSILON.
   */
  function Potential(c: Cost, bound: real): int {
    Weighted(c.nulls, StepsAbove(bound, bound) + 1) + StepsAbove(c.metres, bound)
  }

  function Weighted(count: nat, weight: int): int {
    if count == 0 then 0 else weight + Weighted(count - 1, weight)
  }

  lemma {:induction false} WeightedMonotone(fewer: nat, more: nat, weight: int)
    requires fewer <= more && weight >= 0
    ensures Weighted(fewer, weight) + (if fewer < more then weight else 0) <= Weighted(more, weight)
    ensures 0 <= Weighted(fewer, weight)
    decreases more
  {
    if fewer < more {
      WeightedMonotone(fewer, more - 1, weight);
    } else if fewer > 0 {
      WeightedMonotone(fewer - 1, more - 1, weight);
    }
  }

  lemma StepsMonotone(low: real, high: real, bound: real)
    requires -bound <= low <= high
    ensures 0 <= StepsAbove(low, bound) <= StepsAbove(high, bound)
    ensures low < high - EPSILON ==> StepsAbove(low, bound) < StepsAbove(high, bound)
  {
    assert 0.0 <= (low + bound) * STEPS_PER_METRE <= (high + bound) * STEPS_PER_METRE;
    if low < high - EPSILON {
      assert (low + bound) * STEPS_PER_METRE + 1.0 < (high + bound) * STEPS_PER_METRE;
    }
  }

  lemma BetterLowersPotential(c: Cost, than: Cost, bound: real)
    requires Better(c, than) && Within(c, bound) && Within(than, bound)
    ensures 0 <= Potential(c, bound) < Potential(than, bound)
  {
    hide StepsAbove;
    StepsMonotone(c.metres, bound, bound);
    StepsMonotone(than.metres, bound, bound);
    WeightedMonotone(c.nulls, than.nulls, StepsAbove(bound, bound) + 1);
    if c.nulls == than.nulls { StepsMonotone(c.metres, than.metres, bound); }
  }

  ghost function TourBound(nodes: nat, most: real): real {
    Times(nodes + 1, most)
  }

  lemma TourWithin(leg: Pricing, order: seq<nat>, most: real)
    requires order != [] && BoundedLegs(leg, most)
    ensures Within(TourCost(leg, order), TourBound(|order|, most))
    ensures 0 <= Potential(TourCost(leg, order), TourBound(|order|, most))
  {
    hide StepsAbove, PathCost;
    assert Within(leg(0, 0), most);
    PathWithin(leg, order + [order[0]], most);
    var c, bound := TourCost(leg, order), TourBound(|order|, most);
    StepsMonotone(c.metres, bound, bound);
    WeightedMonotone(c.nulls, c.nulls, StepsAbove(bound, bound) + 1);
  }

  /** However large its cap, a pass makes at most `Potential` moves. */
  lemma {:induction false} DescendBounded(leg: Pricing, kind: Neighbourhood, order: seq<nat>, fuel: nat, most: real)
    requires Searchable(kind, order) && ExactFor(leg, kind, order) && BoundedLegs(leg, most)
    ensures var d := Descend(leg, kind, order, fuel);
      var bound := TourBound(|order|, most);
      0 <= Potential(TourCost(leg, d.order), bound)
        <= Potential(TourCost(leg, order), bound) - d.moves
    decreases fuel
  {
    hide TourCost, Potential, Times, Step, Neighbour, Reversible, SameNodesAndStart;
    TourWithin(leg, order, most);
    if fuel > 0 && Step(leg, kind, order).Some? {
      var next := Step(leg, kind, order).value;
      StepImproves(leg, kind, order);
      if kind == Reversals { StaysReversible(leg, order, next); }
      TourWithin(leg, next, most);
      BetterLowersPotential(TourCost(leg, next), TourCost(leg, order), TourBound(|order|, most));
      DescendBounded(leg, kind, next, fuel - 1, most);
    }
  }

  /** However large the caps and the number of rounds, the alternation makes at most `Potential` moves. */
  lemma {:induction false} VndBounded(
      leg: Pricing, order: seq<nat>, orOpt: bool, caps: Caps, rounds: nat, most: real)
    requires |order| >= 2 && Reversible(leg, order) && BoundedLegs(leg, most)
    ensures var d := Vnd(leg, order, orOpt, caps, rounds);
      var bound := TourBound(|order|, most);
      0 <= Potential(TourCost(leg, d.order), bound)
        <= Potential(TourCost(leg, order), bound) - d.moves
    decreases rounds
  {
    hide TourCost, Potential, Times, Step, Neighbour, Reversible;
    TourWithin(leg, order, most);
    if rounds > 0 {
      var a := Descend(leg, Reversals, order, caps.twoOpt);
      RoundStaysReversible(leg, order, orOpt, caps);
      DescendBounded(leg, Reversals, order, caps.twoOpt, most);
      if orOpt && |order| >= 4 { DescendBounded(leg, Relocations, a.order, caps.orOpt, most); }
      var b := OrOptPass(leg, a.order, orOpt, caps.orOpt);
      VndBounded(leg, b.order, orOpt, caps, rounds - 1, most);
    }
  }

  /** So with generous enough caps the search always ends in a settled tour. */
  lemma UncappedSearchSettles(leg: Pricing, order: seq<nat>, orOpt: bool, caps: Caps, rounds: nat, most: real)
    requires |order| >= 2 && Reversible(leg, order) && BoundedLegs(leg, most)
    requires caps.twoOpt > 0 && caps.orOpt > 0
    requires rounds > Potential(TourCost(leg, order), TourBound(|order|, most))
    ensures Settled(leg, Vnd(leg, order, orOpt, caps, rounds).order, orOpt)
  {
    VndBounded(leg, order, orOpt, caps, rounds, most);
    BusyRoundsMove(leg, order, orOpt, caps, rounds);
    VndSettles(leg, order, orOpt, caps, rounds);
  }

  /** Every finite matrix has bounded legs. */
  lemma MatrixIsBounded(m: Matrix) returns (most: real)
    ensures BoundedLegs(PricingOf(m), most)
  {
    most := 0.0;
    for i := 0 to |m|
      invariant most >= 0.0
      invariant forall r, c | 0 <= r < i && 0 <= c < |m[r]| && m[r][c].Some? :: -most <= m[r][c].value <= most
    {
      ghost var before := most;
      for j := 0 to |m[i]|
        invariant most >= before
        invariant forall c | 0 <= c < j && m[i][c].Some? :: -most <= m[i][c].value <= most
      {
        if m[i][j].Some? && m[i][j].value > most { most := m[i][j].value; }
        if m[i][j].Some? && -m[i][j].value > most { most := -m[i][j].value; }
      }
    }
    forall i: nat, j: nat
      ensures Within(PricingOf(m)(i, j), most)
    {
    }
  }
}
