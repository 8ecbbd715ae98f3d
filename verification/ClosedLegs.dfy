/** What a closure fills in, read off the two given matrices instead of the link graph. */
module ClosedLegs {
  import opened Options
  import opened Matrices
  import opened Walks
  import opened MetricClosure

  /** Every step goes to another node over a leg of at most the cap. */
  predicate ShortSteps(m: Matrix, maxLinkMeters: real, w: Walk) {
    w.Hop? ==>
      var a, b := w.node, w.rest.node;
      && 0 <= a < |m| && 0 <= b < |m| && a != b
      && Leg(m, a, b).Some? && Leg(m, a, b).value <= maxLinkMeters
      && ShortSteps(m, maxLinkMeters, w.rest)
  }

  /** The entries along a walk added up; a missing one counts as nothing. */
  function Along(m: Matrix, w: Walk): real {
    match w
    case At(_) => 0.0
    case Hop(a, rest) => Along(m, rest) + if Leg(m, a, rest.node).Some? then Leg(m, a, rest.node).value else 0.0
  }

  predicate ShortWay(m: Matrix, maxLinkMeters: real, i: int, j: int, w: Walk) {
    w.node == i && End(w) == j && ShortSteps(m, maxLinkMeters, w)
  }

  lemma {:induction false} WayIsWalk(m: Matrix, maxLinkMeters: real, seconds: Option<Matrix>, w: Walk)
    ensures var g := LinkGraph(m, maxLinkMeters, seconds);
      && (Follows(g.link, w) <==> ShortSteps(m, maxLinkMeters, w))
      && Sum(g.metres, w) == Along(m, w)
      && Sum(g.seconds, w) == if seconds.Some? then Along(seconds.value, w) else 0.0
  {
    if w.Hop? { WayIsWalk(m, maxLinkMeters, seconds, w.rest); }
  }

  /**
   A missing leg becomes the length of a shortest way over short legs, with the seconds of one such way,
   and stays missing exactly when there is no way.
   */
  lemma FilledWithShortestWay(m: Matrix, maxLinkMeters: real, seconds: Option<Matrix>, r: ClosureResult, i: int, j: int)
    requires IsClosure(m, maxLinkMeters, seconds, r)
    requires 0 <= i < |m| && 0 <= j < |m| && i != j && Leg(m, i, j) == None
    ensures match Leg(r.meters, i, j)
      case None => forall w :: !ShortWay(m, maxLinkMeters, i, j, w)
      case Some(metres) =>
        && (forall w | ShortWay(m, maxLinkMeters, i, j, w) :: metres <= Along(m, w))
        && exists w :: ShortWay(m, maxLinkMeters, i, j, w) && Along(m, w) == metres
             && (seconds.Some? ==> r.seconds.Some? && Leg(r.seconds.value, i, j) == Some(Along(seconds.value, w)))
  {
    var g := LinkGraph(m, maxLinkMeters, seconds);
    assert ClosedLeg(m, maxLinkMeters, seconds, r, i, j);
    forall w
      ensures Joins(g.link, i, j, w) <==> ShortWay(m, maxLinkMeters, i, j, w)
      ensures Sum(g.metres, w) == Along(m, w)
      ensures seconds.Some? ==> Sum(g.seconds, w) == Along(seconds.value, w)
    {
      WayIsWalk(m, maxLinkMeters, seconds, w);
    }
    assert r.seconds.Some? <==> seconds.Some?;
    hide LinkGraph, ShortWay, Along, Sum, Follows, End, IsClosure;
    if Leg(r.meters, i, j).Some? {
      var w :| Joins(g.link, i, j, w) && Sum(g.metres, w) == Leg(r.meters, i, j).value
             && (r.seconds.Some? ==> Leg(r.seconds.value, i, j) == Some(Sum(g.seconds, w)));
      assert ShortWay(m, maxLinkMeters, i, j, w);
    }
  }

  // ----- The number of filled legs -----

  function FilledInRow(m: Matrix, out: Matrix, i: int, count: nat): set<(int, int)> {
    set j | 0 <= j < count && IsFilled(m, out, i, j) :: (i, j)
  }

  /** The legs of the first `rows` nodes that were missing and are no longer. */
  function Filled(m: Matrix, out: Matrix, rows: nat): set<(int, int)> {
    set i, j | 0 <= i < rows && 0 <= j < |m| && i != j && Leg(m, i, j) == None && Leg(out, i, j).Some? :: (i, j)
  }

  lemma OneMoreLeg(m: Matrix, out: Matrix, i: int, j: nat)
    ensures FilledInRow(m, out, i, j + 1) == FilledInRow(m, out, i, j) + if IsFilled(m, out, i, j) then {(i, j)} else {}
    ensures (i, j) !in FilledInRow(m, out, i, j)
  {
    hide IsFilled;
  }

  lemma {:induction false} RowCounted(m: Matrix, out: Matrix, i: int, count: nat)
    ensures |FilledInRow(m, out, i, count)| == FilledFrom(m, out, i, count)
  {
    hide IsFilled;
    if count == 0 {
      assert FilledInRow(m, out, i, 0) == {};
    } else {
      RowCounted(m, out, i, count - 1);
      OneMoreLeg(m, out, i, count - 1);
      hide FilledInRow;
    }
  }

  lemma OneMoreRow(m: Matrix, out: Matrix, rows: nat)
    ensures Filled(m, out, rows + 1) == Filled(m, out, rows) + FilledInRow(m, out, rows, |m|)
    ensures Filled(m, out, rows) !! FilledInRow(m, out, rows, |m|)
  {
    hide Leg;
  }

  /** The count is the number of legs that were missing and are no longer. */
  lemma {:induction false} FilledLegsCounted(m: Matrix, out: Matrix, rows: nat)
    ensures FilledCount(m, out, rows) == |Filled(m, out, rows)|
  {
    hide FilledFrom, FilledInRow;
    if rows == 0 {
      assert Filled(m, out, 0) == {};
    } else {
      FilledLegsCounted(m, out, rows - 1);
      OneMoreRow(m, out, rows - 1);
      RowCounted(m, out, rows - 1, |m|);
      hide Filled;
    }
  }
}
