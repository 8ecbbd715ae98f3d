/** When a closed matrix satisfies the triangle inequality, and when it does not. */
module TriangleInequality {
  import opened Options
  import opened Matrices
  import opened Walks
  import opened MetricClosure

  /** The legs between different nodes, whatever their length. */
  function AnyLeg(m: Matrix): Link {
    (i, j) => 0 <= i < |m| && 0 <= j < |m| && i != j && Leg(m, i, j).Some?
  }

  function Metres(m: Matrix): Weight {
    (i, j) => LegMetres(m, i, j)
  }

  ghost predicate Triangle(m: Matrix) {
    forall i, j, k | 0 <= i < |m| && 0 <= j < |m| && 0 <= k < |m| :: LegsTriangle(m, i, j, k)
  }

  predicate LegsTriangle(m: Matrix, i: int, j: int, k: int) {
    Leg(m, i, j).Some? && Leg(m, j, k).Some? ==>
      Leg(m, i, k).Some? && Leg(m, i, k).value <= Leg(m, i, j).value + Leg(m, j, k).value
  }

  /** No walk beats the direct leg; where there is none, some walk over short links is as short as any walk. */
  ghost predicate NoShortcut(m: Matrix, maxLinkMeters: real, i: int, j: int) {
    forall w | Joins(AnyLeg(m), i, j, w) ::
      if Leg(m, i, j).Some? then Leg(m, i, j).value <= Sum(Metres(m), w)
      else ShortWalkWithin(m, maxLinkMeters, i, j, Sum(Metres(m), w))
  }

  ghost predicate ShortWalkWithin(m: Matrix, maxLinkMeters: real, i: int, j: int, bound: real) {
    var g := LinkGraph(m, maxLinkMeters, None);
    exists w :: Joins(g.link, i, j, w) && Sum(g.metres, w) <= bound
  }

  /** A closed leg stands for a walk of the same length over legs of the given matrix. */
  lemma ClosedLegIsWalk(m: Matrix, maxLinkMeters: real, r: ClosureResult, i: int, j: int) returns (w: Walk)
    requires IsClosure(m, maxLinkMeters, None, r)
    requires 0 <= i < |m| && 0 <= j < |m| && Leg(r.meters, i, j).Some?
    ensures Joins(AnyLeg(m), i, j, w) && Sum(Metres(m), w) == Leg(r.meters, i, j).value
  {
    assert ClosedLeg(m, maxLinkMeters, None, r, i, j);
    if i == j {
      w := At(i);
    } else if Leg(m, i, j).Some? {
      w := Hop(i, At(j));
    } else {
      var g := LinkGraph(m, maxLinkMeters, None);
      w :| Joins(g.link, i, j, w) && Sum(g.metres, w) == Leg(r.meters, i, j).value;
      ShortWalkIsWalk(m, maxLinkMeters, w);
    }
  }

  lemma {:induction false} ShortWalkIsWalk(m: Matrix, maxLinkMeters: real, w: Walk)
    requires Follows(LinkGraph(m, maxLinkMeters, None).link, w)
    ensures Follows(AnyLeg(m), w)
    ensures Sum(Metres(m), w) == Sum(LinkGraph(m, maxLinkMeters, None).metres, w)
  {
    if w.Hop? { ShortWalkIsWalk(m, maxLinkMeters, w.rest); }
  }

  /** In a closed matrix with the triangle inequality no leg is longer than a walk over given legs. */
  lemma {:induction false} ClosedLegBelowWalk(m: Matrix, maxLinkMeters: real, r: ClosureResult, w: Walk)
    requires IsClosure(m, maxLinkMeters, None, r) && Triangle(r.meters)
    requires Follows(AnyLeg(m), w) && 0 <= w.node < |m|
    ensures 0 <= End(w) < |m| && Leg(r.meters, w.node, End(w)).Some?
    ensures Leg(r.meters, w.node, End(w)).value <= Sum(Metres(m), w)
  {
    if w.At? {
      assert ClosedLeg(m, maxLinkMeters, None, r, w.node, w.node);
    } else {
      ClosedLegBelowWalk(m, maxLinkMeters, r, w.rest);
      assert ClosedLeg(m, maxLinkMeters, None, r, w.node, w.rest.node);
      assert LegsTriangle(r.meters, w.node, w.rest.node, End(w));
    }
  }

  lemma TriangleLeavesNoShortcut(m: Matrix, maxLinkMeters: real, r: ClosureResult, i: int, j: int)
    requires IsClosure(m, maxLinkMeters, None, r) && Triangle(r.meters)
    requires 0 <= i < |m| && 0 <= j < |m| && i != j
    ensures NoShortcut(m, maxLinkMeters, i, j)
  {
    forall w | Joins(AnyLeg(m), i, j, w)
      ensures if Leg(m, i, j).Some? then Leg(m, i, j).value <= Sum(Metres(m), w)
              else ShortWalkWithin(m, maxLinkMeters, i, j, Sum(Metres(m), w))
    {
      ClosedLegBelowWalk(m, maxLinkMeters, r, w);
      assert ClosedLeg(m, maxLinkMeters, None, r, i, j);
    }
  }

  lemma NoShortcutMakesTriangle(m: Matrix, maxLinkMeters: real, r: ClosureResult, i: int, j: int, k: int)
    requires NonNegativeLegs(m) && IsClosure(m, maxLinkMeters, None, r)
    requires 0 <= i < |m| && 0 <= j < |m| && 0 <= k < |m| && (i != k ==> NoShortcut(m, maxLinkMeters, i, k))
    ensures LegsTriangle(r.meters, i, j, k)
  {
    if Leg(r.meters, i, j).Some? && Leg(r.meters, j, k).Some? {
      var p := ClosedLegIsWalk(m, maxLinkMeters, r, i, j);
      var q := ClosedLegIsWalk(m, maxLinkMeters, r, j, k);
      AppendJoins(AnyLeg(m), Metres(m), p, q);
      assert ClosedLeg(m, maxLinkMeters, None, r, i, k);
      if i == k {
        SumNonNegative(AnyLeg(m), Metres(m), Append(p, q));
      } else {
        assert Joins(AnyLeg(m), i, k, Append(p, q));
      }
    }
  }

  lemma ClosureIsSquare(m: Matrix, maxLinkMeters: real, seconds: Option<Matrix>, r: ClosureResult)
    requires IsClosure(m, maxLinkMeters, seconds, r)
    ensures Square(r.meters, |m|)
  {
  }

  /**
   The closed matrix satisfies the triangle inequality exactly when no leg of the given one has a
   shortcut: through legs of any length, past a direct leg or past every walk over short links.
   */
  lemma TriangleExactlyWithoutShortcuts(m: Matrix, maxLinkMeters: real, seconds: Option<Matrix>, r: ClosureResult)
    requires NonNegativeLegs(m) && IsClosure(m, maxLinkMeters, seconds, r)
    ensures Triangle(r.meters)
       <==> forall i, j | 0 <= i < |m| && 0 <= j < |m| && i != j :: NoShortcut(m, maxLinkMeters, i, j)
  {
    hide LegsTriangle, NoShortcut, IsClosure, NonNegativeLegs;
    var r' := ClosureResult(r.meters, None, r.filledLegs);
    ClosureOfMetres(m, maxLinkMeters, seconds, r);
    assert |r.meters| == |m| by { ClosureIsSquare(m, maxLinkMeters, None, r'); }
    if Triangle(r.meters) {
      forall i, j | 0 <= i < |m| && 0 <= j < |m| && i != j
        ensures NoShortcut(m, maxLinkMeters, i, j)
      {
        TriangleLeavesNoShortcut(m, maxLinkMeters, r', i, j);
      }
    }
    if forall i, j | 0 <= i < |m| && 0 <= j < |m| && i != j :: NoShortcut(m, maxLinkMeters, i, j) {
      forall i, j, k | 0 <= i < |m| && 0 <= j < |m| && 0 <= k < |m|
        ensures LegsTriangle(r.meters, i, j, k)
      {
        NoShortcutMakesTriangle(m, maxLinkMeters, r', i, j, k);
      }
    }
  }

  /** Three nodes in a row, and a direct leg five times as long as the way through the middle. */
  const DETOUR: Matrix := [
    [Some(0.0), Some(1.0), Some(10.0)],
    [Some(1.0), Some(0.0), Some(1.0)],
    [Some(10.0), Some(1.0), Some(0.0)]]

  /** Despite its name the closed matrix need not satisfy the triangle inequality. */
  lemma TriangleInequalityCanFail(r: ClosureResult)
    requires IsClosure(DETOUR, 5.0, None, r)
    ensures Leg(r.meters, 0, 1).Some? && Leg(r.meters, 1, 2).Some? && Leg(r.meters, 0, 2).Some?
    ensures Leg(r.meters, 0, 2).value > Leg(r.meters, 0, 1).value + Leg(r.meters, 1, 2).value
  {
    assert ClosedLeg(DETOUR, 5.0, None, r, 0, 1);
    assert ClosedLeg(DETOUR, 5.0, None, r, 1, 2);
    assert ClosedLeg(DETOUR, 5.0, None, r, 0, 2);
  }
}
