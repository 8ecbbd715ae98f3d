/**
 The planner's preparation of a candidate set: keep the largest component, slice the matrix down to
 it, close the slice. On links that run both ways no leg is missing afterwards.
 */
module ConnectedClosure {
  import opened Lists
  import opened Options
  import opened Matrices
  import opened Walks
  import opened MetricClosure
  import opened Components

  /** The chosen indices among the first `count`, ascending. */
  function Indices(chosen: set<int>, count: nat): seq<int> {
    if count == 0 then []
    else Indices(chosen, count - 1) + (if count - 1 in chosen then [count - 1] else [])
  }

  lemma {:induction false} IndicesFacts(chosen: set<int>, count: nat)
    ensures var idx := Indices(chosen, count);
      && Distinct(idx)
      && forall k :: k in idx <==> k in chosen && 0 <= k < count
  {
    if count > 0 { IndicesFacts(chosen, count - 1); }
  }

  lemma {:induction false} SelectByIndices(ids: seq<int>, chosen: set<int>, count: nat)
    requires count <= |ids|
    ensures var (idx, kept) := (Indices(chosen, count), Select(ids, chosen, count));
      |idx| == |kept| && forall x | 0 <= x < |idx| :: 0 <= idx[x] < count && kept[x] == ids[idx[x]]
  {
    if count > 0 { SelectByIndices(ids, chosen, count - 1); }
  }

  lemma {:induction false} InSelect(ids: seq<int>, chosen: set<int>, count: nat, id: int)
    requires count <= |ids|
    ensures id in Select(ids, chosen, count) <==> exists k | 0 <= k < count :: k in chosen && ids[k] == id
  {
    if count > 0 { InSelect(ids, chosen, count - 1, id); }
  }

  /** Every id is either kept or dropped, never both, and nothing else is. */
  lemma KeptOrDropped(ids: seq<int>, chosen: set<int>, id: int)
    requires Distinct(ids) && chosen <= Range(|ids|)
    ensures var kept, dropped := Select(ids, chosen, |ids|), Select(ids, Range(|ids|) - chosen, |ids|);
      && (id in ids <==> id in kept || id in dropped)
      && !(id in kept && id in dropped)
  {
    InSelect(ids, chosen, |ids|, id);
    InSelect(ids, Range(|ids|) - chosen, |ids|, id);
    if id in ids {
      var k :| 0 <= k < |ids| && ids[k] == id;
      assert k in chosen || k in Range(|ids|) - chosen;
    }
  }

  /** No link leads from a component to a node outside it. */
  lemma NoLinkAcross(link: Link, n: int, c: set<int>, i: int, j: int)
    requires IsComponent(link, n, c) && i in c && 0 <= j < n && j !in c
    ensures !link(i, j)
  {
    var r :| 0 <= r < n && c == ComponentOf(link, n, r);
    if link(i, j) { ReachesNext(link, r, i, j); }
  }

  function Sliced(m: Matrix, idx: seq<int>): Matrix {
    seq(|idx|, x requires 0 <= x < |idx| => seq(|idx|, y requires 0 <= y < |idx| =>
      if idx[x] == idx[y] then Some(0.0) else Leg(m, idx[x], idx[y])))
  }

  /** The planner's view after filtering: a largest component's ids, their submatrix, and the other ids. */
  ghost predicate Filtered(m: Matrix, ids: seq<int>, maxLinkMeters: real, best: set<int>,
                           connectedIds: seq<int>, distances: Matrix, unreachableIds: seq<int>) {
    && SplitsOff(Linked(m, |ids|, maxLinkMeters), ids, best, connectedIds, unreachableIds)
    && distances == Sliced(m, Indices(best, |ids|))
  }

  method FilterConnected(ids: seq<int>, m: Matrix, maxLinkMeters: real)
      returns (connectedIds: seq<int>, distances: Matrix, unreachableIds: seq<int>)
    requires Distinct(ids)
    ensures exists best: set<int> :: Filtered(m, ids, maxLinkMeters, best, connectedIds, distances, unreachableIds)
  {
    hide Select, Indices, IsLargestComponent, Linked, Range;
    connectedIds, unreachableIds := LargestConnectedComponent(ids, m, maxLinkMeters);
    ghost var best: set<int> :| SplitsOff(Linked(m, |ids|, maxLinkMeters), ids, best, connectedIds, unreachableIds);
    var idxOf: map<int, int> := map[];
    for i := 0 to |ids|
      invariant forall p | 0 <= p < i :: ids[p] in idxOf && idxOf[ids[p]] == p
    {
      idxOf := idxOf[ids[i] := i];
    }
    SelectByIndices(ids, best, |ids|);
    var keepIdxs := [];
    for x := 0 to |connectedIds|
      invariant keepIdxs == Indices(best, |ids|)[..x]
    {
      keepIdxs := keepIdxs + [idxOf[connectedIds[x]]];
    }
    assert keepIdxs == Indices(best, |ids|);
    distances := Sliced(m, keepIdxs);
    assert Filtered(m, ids, maxLinkMeters, best, connectedIds, distances, unreachableIds);
  }

  lemma SelectedByIndex(ids: seq<int>, chosen: set<int>, j: nat)
    requires Distinct(ids) && j < |ids|
    ensures ids[j] in Select(ids, chosen, |ids|) <==> j in chosen
  {
    hide Select;
    InSelect(ids, chosen, |ids|, ids[j]);
    if ids[j] in Select(ids, chosen, |ids|) {
      var k :| 0 <= k < |ids| && k in chosen && ids[k] == ids[j];
    }
  }

  /** Kept ids are connected to each other, and no link leads from a kept id to a dropped one. */
  lemma KeptIsOneComponent(link: Link, ids: seq<int>, best: set<int>, i: nat, j: nat)
    requires Mutual(link, |ids|) && IsComponent(link, |ids|, best)
    requires Distinct(ids) && i < |ids| && j < |ids| && ids[i] in Select(ids, best, |ids|)
    ensures var kept, dropped := Select(ids, best, |ids|), Select(ids, Range(|ids|) - best, |ids|);
      && (ids[j] in kept ==> Reaches(link, i, j))
      && (ids[j] in dropped <==> ids[j] !in kept)
      && (ids[j] in dropped ==> !link(i, j))
  {
    hide Select, Distinct, Mutual, IsComponent, Reaches;
    SelectedByIndex(ids, best, i);
    SelectedByIndex(ids, best, j);
    SelectedByIndex(ids, Range(|ids|) - best, j);
    SharedNodeSameComponent(link, |ids|, i, best);
    if j !in best { NoLinkAcross(link, |ids|, best, i, j); }
  }

  /** Read off the matrix: no leg within the cap joins a kept id to a dropped one, in either direction. */
  lemma DroppedIsFar(m: Matrix, ids: seq<int>, maxLinkMeters: real, best: set<int>, i: nat, j: nat)
    requires IsComponent(Linked(m, |ids|, maxLinkMeters), |ids|, best) && Distinct(ids) && i < |ids| && j < |ids|
    requires ids[i] in Select(ids, best, |ids|) && ids[j] in Select(ids, Range(|ids|) - best, |ids|)
    ensures Leg(m, i, j).Some? ==> Leg(m, i, j).value > maxLinkMeters
    ensures Leg(m, j, i).Some? ==> Leg(m, j, i).value > maxLinkMeters
  {
    hide Select, IsComponent;
    LinkedIsMutual(m, |ids|, maxLinkMeters);
    KeptIsOneComponent(Linked(m, |ids|, maxLinkMeters), ids, best, i, j);
  }

  /** Each link of the graph whose components are taken is a leg within the cap, one way or the other. */
  lemma LinkedExactlyByLegs(m: Matrix, n: int, maxLinkMeters: real, i: int, j: int)
    ensures Linked(m, n, maxLinkMeters)(i, j)
       <==> 0 <= i < n && 0 <= j < n
            && ((Leg(m, i, j).Some? && Leg(m, i, j).value <= maxLinkMeters)
                || (Leg(m, j, i).Some? && Leg(m, j, i).value <= maxLinkMeters))
  {
  }

  lemma OneMoreChosen(chosen: set<int>, count: nat)
    requires count > 0
    ensures chosen * Range(count) == chosen * Range(count - 1) + if count - 1 in chosen then {count - 1} else {}
    ensures count - 1 !in Range(count - 1)
  {
  }

  lemma {:induction false} SelectSize(ids: seq<int>, chosen: set<int>, count: nat)
    requires count <= |ids|
    ensures |Select(ids, chosen, count)| == |chosen * Range(count)|
  {
    if count == 0 {
      assert chosen * Range(0) == {};
    } else {
      hide Range;
      SelectSize(ids, chosen, count - 1);
      OneMoreChosen(chosen, count);
    }
  }

  lemma ComponentInRange(link: Link, n: int, c: set<int>)
    requires IsComponent(link, n, c)
    ensures forall i | i in c :: 0 <= i < n
  {
  }

  lemma Unbeaten(ids: seq<int>, c: set<int>, best: set<int>)
    requires !Beats(ids, c, best)
    requires (forall i | i in c :: 0 <= i < |ids|) && (forall i | i in best :: 0 <= i < |ids|)
    ensures |c| <= |best|
    ensures |c| == |best| ==>
      forall i | i in c :: 0 <= i < |ids| && exists j | j in best :: 0 <= j < |ids| && ids[j] <= ids[i]
  {
    forall i | i in c && |c| == |best|
      ensures exists j | j in best :: 0 <= j < |ids| && ids[j] <= ids[i]
    {
      var j :| j in best && !(IdAt(ids, i) < IdAt(ids, j));
      assert 0 <= j < |ids| && 0 <= i < |ids|;
    }
  }

  /** No component has more nodes than ids are kept, or as many and an id below all the kept ones. */
  lemma NoComponentIsLarger(link: Link, ids: seq<int>, best: set<int>, c: set<int>)
    requires IsLargestComponent(link, ids, best) && IsComponent(link, |ids|, c)
    ensures |c| <= |Select(ids, best, |ids|)|
    ensures |c| == |Select(ids, best, |ids|)| ==>
      forall i | i in c :: 0 <= i < |ids| && exists j | j in best :: 0 <= j < |ids| && ids[j] <= ids[i]
  {
    ComponentInRange(link, |ids|, best);
    ComponentInRange(link, |ids|, c);
    SelectSize(ids, best, |ids|);
    assert best * Range(|ids|) == best;
    assert !Beats(ids, c, best);
    hide Select, Range, IsComponent, IsLargestComponent, Beats;
    Unbeaten(ids, c, best);
  }

  /** Entry (x, y) of the submatrix is the leg between the ids it stands for. */
  lemma SubmatrixOfIds(m: Matrix, ids: seq<int>, maxLinkMeters: real, best: set<int>, connectedIds: seq<int>,
                       distances: Matrix, unreachableIds: seq<int>, x: nat, y: nat, i: nat, j: nat)
    requires Filtered(m, ids, maxLinkMeters, best, connectedIds, distances, unreachableIds) && Distinct(ids)
    requires x < |connectedIds| && y < |connectedIds| && i < |ids| && j < |ids|
    requires connectedIds[x] == ids[i] && connectedIds[y] == ids[j]
    ensures |distances| == |connectedIds|
    ensures Leg(distances, x, y) == if i == j then Some(0.0) else Leg(m, i, j)
  {
    hide Linked, Indices, Select, IsLargestComponent;
    SelectByIndices(ids, best, |ids|);
    var idx := Indices(best, |ids|);
    assert idx[x] == i && idx[y] == j;
  }

  // ----- No missing leg after closing -----

  /** No leg among the first n nodes is missing. */
  predicate Complete(m: Matrix, n: nat) {
    forall x, y | 0 <= x < n && 0 <= y < n :: Leg(m, x, y).Some?
  }

  /** Short legs run both ways; a symmetric matrix is a special case. */
  ghost predicate BothWays(m: Matrix, maxLinkMeters: real) {
    forall i, j | WithinCap(Leg(m, i, j), maxLinkMeters) :: WithinCap(Leg(m, j, i), maxLinkMeters)
  }

  lemma SymmetricRunsBothWays(m: Matrix, maxLinkMeters: real)
    requires Symmetric(m)
    ensures BothWays(m, maxLinkMeters)
  {
    assert forall i, j :: Leg(m, i, j) == Leg(m, j, i);
  }

  /** From one kept node to another over a leg within the cap, in the leg's own direction. */
  function Onward(m: Matrix, maxLinkMeters: real, kept: set<int>): Link {
    (i, j) => i in kept && j in kept && i != j && WithinCap(Leg(m, i, j), maxLinkMeters)
  }

  /** From i there is a leg to j, or a way onward over kept nodes. */
  ghost function CanReach(m: Matrix, maxLinkMeters: real, kept: set<int>): Link {
    (i, j) => i == j || Leg(m, i, j).Some? || Reaches(Onward(m, maxLinkMeters, kept), i, j)
  }

  ghost predicate Everywhere(link: Link, nodes: set<int>) {
    forall i, j | i in nodes && j in nodes :: link(i, j)
  }

  ghost predicate AllReachable(m: Matrix, maxLinkMeters: real, kept: set<int>) {
    Everywhere(CanReach(m, maxLinkMeters, kept), kept)
  }

  /** The links among sliced nodes. */
  function SliceLink(m: Matrix, maxLinkMeters: real, idx: seq<int>): Link {
    LinkGraph(Sliced(m, idx), maxLinkMeters, None).link
  }

  lemma SliceLinkIsOnward(m: Matrix, maxLinkMeters: real, kept: set<int>, idx: seq<int>, x: int, y: int)
    requires Distinct(idx) && SetOf(idx) == kept
    ensures SliceLink(m, maxLinkMeters, idx)(x, y)
       <==> 0 <= x < |idx| && 0 <= y < |idx| && Onward(m, maxLinkMeters, kept)(idx[x], idx[y])
  {
    assert 0 <= x < |idx| && 0 <= y < |idx| ==> idx[x] in kept && idx[y] in kept;
  }

  /** A walk in the slice is a walk onward over the kept nodes. */
  lemma {:induction false} WalkOutOfSlice(m: Matrix, maxLinkMeters: real, kept: set<int>, idx: seq<int>, w: Walk)
    requires Distinct(idx) && SetOf(idx) == kept
    requires Follows(SliceLink(m, maxLinkMeters, idx), w) && 0 <= w.node < |idx|
    ensures 0 <= End(w) < |idx| && Reaches(Onward(m, maxLinkMeters, kept), idx[w.node], idx[End(w)])
  {
    hide SliceLink, Onward;
    var onward := Onward(m, maxLinkMeters, kept);
    ReachesItself(onward, idx[w.node]);
    if w.Hop? {
      SliceLinkIsOnward(m, maxLinkMeters, kept, idx, w.node, w.rest.node);
      WalkOutOfSlice(m, maxLinkMeters, kept, idx, w.rest);
      ReachesNext(onward, idx[w.node], idx[w.node], idx[w.rest.node]);
      ReachesTransitively(onward, idx[w.node], idx[w.rest.node], idx[End(w)]);
    }
  }

  /** A walk onward over the kept nodes is a walk in the slice. */
  lemma {:induction false} WalkIntoSlice(m: Matrix, maxLinkMeters: real, kept: set<int>, idx: seq<int>, w: Walk,
                                         x: int, y: int)
    requires Distinct(idx) && SetOf(idx) == kept
    requires Follows(Onward(m, maxLinkMeters, kept), w)
    requires 0 <= x < |idx| && 0 <= y < |idx| && w.node == idx[x] && End(w) == idx[y]
    ensures Reaches(SliceLink(m, maxLinkMeters, idx), x, y)
  {
    var link := SliceLink(m, maxLinkMeters, idx);
    ReachesItself(link, x);
    if w.Hop? {
      var z :| 0 <= z < |idx| && idx[z] == w.rest.node;
      SliceLinkIsOnward(m, maxLinkMeters, kept, idx, x, z);
      hide SliceLink, Onward;
      WalkIntoSlice(m, maxLinkMeters, kept, idx, w.rest, z, y);
      ReachesNext(link, x, x, z);
      ReachesTransitively(link, x, z, y);
    }
  }

  /** The closed slice has a leg exactly where the matrix has one or the kept nodes have a way onward. */
  lemma SliceLegExists(m: Matrix, maxLinkMeters: real, kept: set<int>, idx: seq<int>, r: ClosureResult, x: int, y: int)
    requires Distinct(idx) && SetOf(idx) == kept && IsClosure(Sliced(m, idx), maxLinkMeters, None, r)
    requires 0 <= x < |idx| && 0 <= y < |idx|
    ensures Leg(r.meters, x, y).Some? <==> CanReach(m, maxLinkMeters, kept)(idx[x], idx[y])
  {
    var link, onward := SliceLink(m, maxLinkMeters, idx), Onward(m, maxLinkMeters, kept);
    assert ClosedLeg(Sliced(m, idx), maxLinkMeters, None, r, x, y);
    hide Onward, LinkGraph, IsClosure;
    if Reaches(link, x, y) {
      var w :| Joins(link, x, y, w);
      WalkOutOfSlice(m, maxLinkMeters, kept, idx, w);
    }
    if Reaches(onward, idx[x], idx[y]) {
      var w :| Joins(onward, idx[x], idx[y], w);
      WalkIntoSlice(m, maxLinkMeters, kept, idx, w, x, y);
    }
  }

  lemma CompleteByIndex(closed: Matrix, idx: seq<int>, kept: set<int>, link: Link)
    requires SetOf(idx) == kept
    requires forall x, y | 0 <= x < |idx| && 0 <= y < |idx| :: Leg(closed, x, y).Some? <==> link(idx[x], idx[y])
    ensures Complete(closed, |idx|) <==> Everywhere(link, kept)
  {
    if Everywhere(link, kept) {
      forall x, y | 0 <= x < |idx| && 0 <= y < |idx|
        ensures Leg(closed, x, y).Some?
      {
        var i, j := idx[x], idx[y];
        assert i in kept && j in kept;
        assert link(i, j);
      }
    }
    if Complete(closed, |idx|) {
      forall i, j | i in kept && j in kept
        ensures link(i, j)
      {
        var x :| 0 <= x < |idx| && idx[x] == i;
        var y :| 0 <= y < |idx| && idx[y] == j;
        assert Leg(closed, x, y).Some?;
      }
    }
  }

  /** Closing the slice of any kept nodes leaves no leg missing exactly when they all reach each other onward. */
  lemma SliceClosesCompletelyExactly(m: Matrix, maxLinkMeters: real, n: nat, kept: set<int>, seconds: Option<Matrix>,
                                     r: ClosureResult)
    requires kept <= Range(n) && IsClosure(Sliced(m, Indices(kept, n)), maxLinkMeters, seconds, r)
    ensures Complete(r.meters, |Indices(kept, n)|) <==> AllReachable(m, maxLinkMeters, kept)
  {
    var idx, r' := Indices(kept, n), ClosureResult(r.meters, None, r.filledLegs);
    IndicesFacts(kept, n);
    ClosureOfMetres(Sliced(m, idx), maxLinkMeters, seconds, r);
    assert SetOf(idx) == kept;
    hide Indices, Sliced, IsClosure, CanReach, Distinct, Range, SetOf, Leg, Complete, Everywhere;
    forall x, y | 0 <= x < |idx| && 0 <= y < |idx|
      ensures Leg(r.meters, x, y).Some? <==> CanReach(m, maxLinkMeters, kept)(idx[x], idx[y])
    {
      SliceLegExists(m, maxLinkMeters, kept, idx, r', x, y);
    }
    CompleteByIndex(r.meters, idx, kept, CanReach(m, maxLinkMeters, kept));
  }

  /** Where links run both ways, a walk that starts in a component leads onward over its nodes. */
  lemma {:induction false} WalkLeadsOnward(m: Matrix, maxLinkMeters: real, n: nat, best: set<int>, w: Walk)
    requires BothWays(m, maxLinkMeters) && IsComponent(Linked(m, n, maxLinkMeters), n, best)
    requires Follows(Linked(m, n, maxLinkMeters), w) && w.node in best
    ensures End(w) in best && Reaches(Onward(m, maxLinkMeters, best), w.node, End(w))
  {
    var onward := Onward(m, maxLinkMeters, best);
    ReachesItself(onward, w.node);
    if w.Hop? {
      var next := w.rest.node;
      if next !in best { NoLinkAcross(Linked(m, n, maxLinkMeters), n, best, w.node, next); }
      WalkLeadsOnward(m, maxLinkMeters, n, best, w.rest);
      if next != w.node {
        assert onward(w.node, next);
        ReachesNext(onward, w.node, w.node, next);
        ReachesTransitively(onward, w.node, next, End(w));
      }
    }
  }

  /** In particular the slice of one component closes completely when links run both ways. */
  lemma ComponentClosesCompletely(m: Matrix, maxLinkMeters: real, n: nat, best: set<int>,
                                  seconds: Option<Matrix>, r: ClosureResult)
    requires BothWays(m, maxLinkMeters) && IsComponent(Linked(m, n, maxLinkMeters), n, best)
    requires IsClosure(Sliced(m, Indices(best, n)), maxLinkMeters, seconds, r)
    ensures Complete(r.meters, |Indices(best, n)|)
  {
    var link := Linked(m, n, maxLinkMeters);
    LinkedIsMutual(m, n, maxLinkMeters);
    hide IsClosure, Onward, BothWays;
    forall i, j | i in best && j in best
      ensures CanReach(m, maxLinkMeters, best)(i, j)
    {
      SharedNodeSameComponent(link, n, i, best);
      assert j in ComponentOf(link, n, i);
      var w :| Joins(link, i, j, w);
      WalkLeadsOnward(m, maxLinkMeters, n, best, w);
    }
    SliceClosesCompletelyExactly(m, maxLinkMeters, n, best, seconds, r);
  }

  /** After the planner's filtering and closing, no leg is missing exactly when the kept nodes reach each other. */
  lemma PlannerMatrixIsComplete(m: Matrix, ids: seq<int>, maxLinkMeters: real, best: set<int>, connectedIds: seq<int>,
                                distances: Matrix, unreachableIds: seq<int>, r: ClosureResult)
    requires Filtered(m, ids, maxLinkMeters, best, connectedIds, distances, unreachableIds)
    requires IsClosure(distances, maxLinkMeters, None, r)
    ensures Complete(r.meters, |connectedIds|) <==> AllReachable(m, maxLinkMeters, best)
    ensures BothWays(m, maxLinkMeters) ==> Complete(r.meters, |connectedIds|)
  {
    hide Linked, Sliced, IsClosure, AllReachable, IsComponent, BothWays, Beats;
    SelectByIndices(ids, best, |ids|);
    SliceClosesCompletelyExactly(m, maxLinkMeters, |ids|, best, None, r);
    if BothWays(m, maxLinkMeters) && ids != [] {
      ComponentClosesCompletely(m, maxLinkMeters, |ids|, best, None, r);
    }
  }

  const ONE_WAY: Matrix := [[Some(0.0), Some(100.0)], [None, Some(0.0)]]

  /** With a one-way link the component keeps both nodes, yet the closed slice still misses the way back. */
  lemma OneWayLinkStaysMissing(r: ClosureResult)
    requires IsClosure(Sliced(ONE_WAY, Indices({0, 1}, 2)), 1000.0, None, r)
    ensures IsComponent(Linked(ONE_WAY, 2, 1000.0), 2, {0, 1})
    ensures Leg(r.meters, 1, 0) == None
  {
    var link := Linked(ONE_WAY, 2, 1000.0);
    OwnComponent(link, 2, 0);
    ReachesItself(link, 0);
    ReachesNext(link, 0, 0, 1);
    assert {0, 1} == ComponentOf(link, 2, 0);
    var slice := Sliced(ONE_WAY, Indices({0, 1}, 2));
    var g := LinkGraph(slice, 1000.0, None);
    assert Indices({0, 1}, 2) == [0, 1] by { assert Indices({0, 1}, 1) == [0]; }
    forall w | Joins(g.link, 1, 0, w)
      ensures false
    {
      StaysInside(g.link, w, {1});
    }
    assert ClosedLeg(slice, 1000.0, None, r, 1, 0);
  }
}
