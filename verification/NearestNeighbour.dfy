/** The nearest-neighbour seed tour. */
module NearestNeighbour {
  import opened Matrices
  import opened ExtendedNumbers
  import opened TourCosts
  import opened TourMoves

  /** No node twice. */
  ghost predicate NoRepeats(s: seq<nat>) {
    forall x: nat :: multiset(s)[x] <= 1
  }

  /** `order` visits each of the nodes 0..n-1 exactly once. */
  ghost predicate IsTourOf(order: seq<nat>, n: nat) {
    |order| == n && forall x: nat :: multiset(order)[x] == (if x < n then 1 else 0)
  }

  /** Takes one occurrence of `x` out. */
  lemma Extract(s: seq<nat>, x: nat) returns (rest: seq<nat>)
    requires x in s
    ensures |rest| + 1 == |s|
    ensures forall y: nat :: multiset(s)[y] == multiset(rest)[y] + (if y == x then 1 else 0)
    ensures forall y: nat | y in s && y != x :: y in rest
    ensures forall y: nat | y in rest :: y in s
    ensures NoRepeats(s) ==> x !in rest
  {
    var p :| 0 <= p < |s| && s[p] == x;
    rest := s[..p] + s[p + 1..];
    assert s == s[..p] + [x] + s[p + 1..];
    assert multiset(rest)[x] + 1 == multiset(s)[x];
  }

  lemma {:induction false} CoveringNeedsLength(s: seq<nat>, n: nat)
    requires forall x: nat | x < n :: x in s
    ensures |s| >= n
    decreases n
  {
    if n > 0 {
      var rest := Extract(s, n - 1);
      CoveringNeedsLength(rest, n - 1);
    }
  }

  lemma {:induction false} FullLengthCovers(s: seq<nat>, n: nat)
    requires NoRepeats(s) && forall x: nat | x in s :: x < n
    ensures |s| <= n
    ensures |s| == n ==> IsTourOf(s, n)
    decreases n
  {
    assert s == [] || s[0] in s;
    if n > 0 {
      if n - 1 in s {
        var rest := Extract(s, n - 1);
        FullLengthCovers(rest, n - 1);
      } else {
        FullLengthCovers(s, n - 1);
      }
    }
  }

  datatype Nearest = Nearest(dist: Number, next: int)

  function KeepNearest(best: Nearest, d: Number, j: nat): Nearest {
    if Less(d, Sub(best.dist, Fin(EPSILON))) || (AtMost(d, Add(best.dist, Fin(EPSILON))) && j < best.next)
    then Nearest(d, j)
    else best
  }

  /** The nearest unvisited node among 0..j-1. */
  function ScanNearest(leg: Pricing, order: seq<nat>, j: nat): Nearest
    requires order != []
  {
    if j == 0 then Nearest(PosInf, -1)
    else
      var best := ScanNearest(leg, order, j - 1);
      if j - 1 in order then best else KeepNearest(best, Total(leg(Last(order), j - 1)), j - 1)
  }

  /** The source's `visited.indexOf(false)`. */
  function FirstUnvisited(order: seq<nat>, j: nat, n: nat): int
    decreases n - j
  {
    if j >= n then -1 else if j !in order then j else FirstUnvisited(order, j + 1, n)
  }

  lemma {:induction false} FirstUnvisitedExists(order: seq<nat>, j: nat, n: nat)
    requires |order| < n && forall x: nat | x < j :: x in order
    ensures var r := FirstUnvisited(order, j, n);
      0 <= r < n && r !in order && forall x: nat | x < r :: x in order
    decreases n - j
  {
    if j >= n {
      CoveringNeedsLength(order, n);
    } else if j in order {
      FirstUnvisitedExists(order, j + 1, n);
    }
  }

  /** Where the seed goes after `order`. */
  function NextNode(leg: Pricing, order: seq<nat>, n: nat): (next: nat)
    requires order != [] && |order| < n
    ensures next < n && next !in order
  {
    ScanNearestIsNearest(leg, order, n);
    FirstUnvisitedExists(order, 0, n);
    var best := ScanNearest(leg, order, n).next;
    if best < 0 then FirstUnvisited(order, 0, n) else best
  }

  /** The scan finds an unvisited node that no other beats by more than EPSILON, unless no leg exists at all. */
  lemma {:induction false} ScanNearestIsNearest(leg: Pricing, order: seq<nat>, j: nat)
    requires order != []
    ensures var best := ScanNearest(leg, order, j);
      && best.next < j
      && !best.dist.NaN?
      && (best.next >= 0 ==>
          best.next !in order && best.dist == Total(leg(Last(order), best.next)) && best.dist.Fin?)
      && (best.next < 0 ==> best.dist == PosInf)
      && forall x: nat | x < j && x !in order ::
         !Less(Total(leg(Last(order), x)), Sub(best.dist, Fin(EPSILON)))
  {
    if j > 0 {
      ScanNearestIsNearest(leg, order, j - 1);
    }
  }

  /** `next` is a greedy choice: no unvisited node is nearer by more than EPSILON. */
  ghost predicate GreedyChoice(leg: Pricing, order: seq<nat>, n: nat, next: nat)
    requires order != []
  {
    && next < n && next !in order
    && (forall x: nat | x < n && x !in order :: !Shorter(Total(leg(Last(order), x)), Total(leg(Last(order), next))))
    && (Total(leg(Last(order), next)) == PosInf ==> forall x: nat | x < next :: x in order)
  }

  lemma NextNodeIsGreedy(leg: Pricing, order: seq<nat>, n: nat)
    requires order != [] && |order| < n
    ensures GreedyChoice(leg, order, n, NextNode(leg, order, n))
  {
    ScanNearestIsNearest(leg, order, n);
    FirstUnvisitedExists(order, 0, n);
  }

  /** The first `count` nodes of the seed tour. */
  function Seed(leg: Pricing, n: nat, start: nat, count: nat): (order: seq<nat>)
    requires start < n && 1 <= count <= n
    ensures |order| == count
  {
    if count == 1 then [start]
    else
      var order := Seed(leg, n, start, count - 1);
      order + [NextNode(leg, order, n)]
  }

  /** Every node but the first is a greedy choice after the ones before it. */
  ghost predicate GreedyThroughout(leg: Pricing, order: seq<nat>, n: nat) {
    forall p | 1 <= p < |order| :: GreedyChoice(leg, order[..p], n, order[p])
  }

  lemma GreedyAppend(leg: Pricing, order: seq<nat>, n: nat, next: nat)
    requires order != [] && GreedyThroughout(leg, order, n) && GreedyChoice(leg, order, n, next)
    ensures GreedyThroughout(leg, order + [next], n)
  {
    hide GreedyChoice;
    assert order[..|order|] == order;
    assert forall p | 1 <= p <= |order| :: (order + [next])[..p] == order[..p];
  }

  /** The seed is a tour of all nodes that starts at `start` and makes a greedy choice at every step. */
  lemma {:induction false} SeedIsGreedyTour(leg: Pricing, n: nat, start: nat, count: nat)
    requires start < n && 1 <= count <= n
    ensures var order := Seed(leg, n, start, count);
      && order[0] == start
      && NoRepeats(order) && (forall x: nat | x in order :: x < n)
      && (count == n ==> IsTourOf(order, n))
      && GreedyThroughout(leg, order, n)
  {
    hide IsTourOf, NextNode, GreedyChoice;
    if count > 1 {
      hide NoRepeats, GreedyThroughout;
      var shorter := Seed(leg, n, start, count - 1);
      SeedIsGreedyTour(leg, n, start, count - 1);
      NextNodeIsGreedy(leg, shorter, n);
      GreedyAppend(leg, shorter, n, NextNode(leg, shorter, n));
    }
    FullLengthCovers(Seed(leg, n, start, count), n);
  }

  method NearestNeighborSeed(m: Matrix, startIndex: nat) returns (order: seq<nat>)
    requires startIndex < |m|
    ensures order == Seed(PricingOf(m), |m|, startIndex, |m|)
  {
    hide NextNode;
    var n := |m|;
    var visited := new bool[n](_ => false);
    order := [startIndex];
    visited[startIndex] := true;
    for step := 1 to n
      invariant order == Seed(PricingOf(m), n, startIndex, step)
      invariant forall j: nat | j < n :: visited[j] <==> j in order
    {
      var bestNext := NearestUnvisited(m, visited, order);
      visited[bestNext] := true;
      order := order + [bestNext];
    }
  }

  /** One step of the seed: the scan, and the fallback when no unvisited node has a leg. */
  method NearestUnvisited(m: Matrix, visited: array<bool>, order: seq<nat>) returns (bestNext: int)
    requires order != [] && |order| < |m| == visited.Length
    requires forall j: nat | j < visited.Length :: visited[j] <==> j in order
    ensures bestNext == NextNode(PricingOf(m), order, |m|)
  {
    hide D2, LegCost, Less, Sub;
    var last := order[|order| - 1];
    bestNext := -1;
    var bestDist := PosInf;
    for j := 0 to |m|
      invariant Nearest(bestDist, bestNext) == ScanNearest(PricingOf(m), order, j)
    {
      if !visited[j] {
        var d := D2(m, last, j);
        PriceIsD2(m, last, j);
        if Less(d, Sub(bestDist, Fin(EPSILON))) || (AtMost(d, Add(bestDist, Fin(EPSILON))) && j < bestNext) {
          bestDist := d;
          bestNext := j;
        }
      }
    }
    if bestNext < 0 {
      bestNext := IndexOfFalse(visited, order);
    }
  }

  method IndexOfFalse(visited: array<bool>, ghost order: seq<nat>) returns (r: int)
    requires forall j: nat | j < visited.Length :: visited[j] <==> j in order
    ensures r == FirstUnvisited(order, 0, visited.Length)
  {
    r := 0;
    while r < visited.Length
      invariant 0 <= r <= visited.Length
      invariant FirstUnvisited(order, 0, visited.Length) == FirstUnvisited(order, r, visited.Length)
    {
      if !visited[r] { return; }
      r := r + 1;
    }
    r := -1;
  }
}
