/**
 Floyd-Warshall carrying a second weight, on immutable tables, proved exact against walks.
 */
module ShortestWalks {
  import opened Walks

  datatype Graph = Graph(link: Link, metres: Weight, seconds: Weight)

  /** Nodes and metres are not negative. */
  ghost predicate Proper(g: Graph) {
    forall a, b | g.link(a, b) :: a >= 0 && b >= 0 && g.metres(a, b) >= 0.0
  }

  /** An entry of the two matrices: both `+Infinity`, or metres and seconds of one walk. */
  datatype Cell = Unreached | Reached(metres: real, seconds: real)

  type Table = (int, int) -> Cell

  /** Relaxing one entry through an intermediate node: seconds travel with the metres. */
  function Relax(direct: Cell, first: Cell, second: Cell): Cell {
    if first.Reached? && second.Reached?
       && (direct.Unreached? || first.metres + second.metres < direct.metres)
    then Reached(first.metres + second.metres, first.seconds + second.seconds)
    else direct
  }

  function Initial(g: Graph): Table {
    (i, j) => if i == j then Reached(0.0, 0.0)
              else if g.link(i, j) then Reached(g.metres(i, j), g.seconds(i, j))
              else Unreached
  }

  function Next(t: Table, k: int): Table {
    (i, j) => Relax(t(i, j), t(i, k), t(k, j))
  }

  /** The table after the intermediate nodes 0..k-1. */
  function Stage(g: Graph, k: nat): Table {
    if k == 0 then Initial(g) else Next(Stage(g, k - 1), k - 1)
  }

  /** A walk from i to j with inner nodes below k that takes exactly these metres and these seconds. */
  ghost predicate Attained(g: Graph, k: int, i: int, j: int, metres: real, seconds: real) {
    exists w :: Joins(g.link, i, j, w) && InnerBelow(w, k) && Sum(g.metres, w) == metres && Sum(g.seconds, w) == seconds
  }

  /** No walk from i to j with inner nodes below k is shorter. */
  ghost predicate LowerBound(g: Graph, k: int, i: int, j: int, metres: real) {
    forall w | Joins(g.link, i, j, w) && InnerBelow(w, k) :: metres <= Sum(g.metres, w)
  }

  ghost predicate Unjoined(g: Graph, k: int, i: int, j: int) {
    forall w :: !(Joins(g.link, i, j, w) && InnerBelow(w, k))
  }

  /** The entry is exact for walks with inner nodes below k. */
  ghost predicate Exact(g: Graph, k: int, i: int, j: int, c: Cell) {
    match c
    case Unreached => Unjoined(g, k, i, j)
    case Reached(metres, seconds) => Attained(g, k, i, j, metres, seconds) && LowerBound(g, k, i, j, metres)
  }

  lemma AtMostOneHop(g: Graph, w: Walk)
    requires Proper(g) && Follows(g.link, w) && InnerBelow(w, 0)
    ensures w.Hop? ==> w.rest == At(End(w)) && Sum(g.metres, w) == g.metres(w.node, End(w))
  {
    if w.Hop? {
      assert Follows(g.link, w.rest);
      assert forall b | g.link(w.rest.node, b) :: w.rest.node >= 0;
      assert Sum(g.metres, At(End(w))) == 0.0;
    }
  }

  lemma InitialIsExact(g: Graph, i: int, j: int)
    requires Proper(g)
    ensures Exact(g, 0, i, j, Initial(g)(i, j))
  {
    forall w | Joins(g.link, i, j, w) && InnerBelow(w, 0)
      ensures i != j ==> g.link(i, j) && Sum(g.metres, w) == g.metres(i, j)
      ensures i == j ==> Sum(g.metres, w) >= 0.0
    {
      SumNonNegative(g.link, g.metres, w);
      AtMostOneHop(g, w);
    }
    if i == j {
      assert Joins(g.link, i, j, At(i)) && Sum(g.metres, At(i)) == 0.0;
    } else if g.link(i, j) {
      var w := Hop(i, At(j));
      assert Follows(g.link, At(j)) && End(At(j)) == j;
      assert Joins(g.link, i, j, w) && InnerBelow(w, 0);
      assert Sum(g.metres, At(j)) == 0.0 && Sum(g.seconds, At(j)) == 0.0;
      assert Sum(g.metres, w) == g.metres(i, j) && Sum(g.seconds, w) == g.seconds(i, j);
    }
  }

  /** One round of relaxation keeps every entry exact. */
  lemma RelaxIsExact(g: Graph, k: nat, i: int, j: int, direct: Cell, first: Cell, second: Cell)
    requires Proper(g)
    requires Exact(g, k, i, j, direct) && Exact(g, k, i, k, first) && Exact(g, k, k, j, second)
    ensures Exact(g, k + 1, i, j, Relax(direct, first, second))
  {
    var c := Relax(direct, first, second);
    forall w | Joins(g.link, i, j, w) && InnerBelow(w, k + 1)
      ensures c.Reached? && c.metres <= Sum(g.metres, w)
    {
      var d, p, q := SplitAt(g.link, g.metres, w, k);
      if d {
        assert Joins(g.link, i, j, p);
      } else {
        assert Joins(g.link, i, k, p) && Joins(g.link, k, j, q);
      }
    }
    if c == direct {
      if c.Reached? {
        var w :| Joins(g.link, i, j, w) && InnerBelow(w, k)
              && Sum(g.metres, w) == c.metres && Sum(g.seconds, w) == c.seconds;
        InnerMonotone(w, k, k + 1);
      }
    } else {
      var p :| Joins(g.link, i, k, p) && InnerBelow(p, k)
            && Sum(g.metres, p) == first.metres && Sum(g.seconds, p) == first.seconds;
      var q :| Joins(g.link, k, j, q) && InnerBelow(q, k)
            && Sum(g.metres, q) == second.metres && Sum(g.seconds, q) == second.seconds;
      var w := Append(p, q);
      AppendJoins(g.link, g.metres, p, q);
      AppendJoins(g.link, g.seconds, p, q);
      InnerMonotone(p, k, k + 1);
      InnerMonotone(q, k, k + 1);
      AppendInner(p, q, k + 1);
      assert Joins(g.link, i, j, w) && InnerBelow(w, k + 1);
    }
  }

  /** Every entry of every stage is exact. */
  lemma {:induction false} StageIsExact(g: Graph, k: nat, i: int, j: int)
    requires Proper(g)
    ensures Exact(g, k, i, j, Stage(g, k)(i, j))
    decreases k
  {
    hide Exact, Relax, Initial;
    if k == 0 {
      InitialIsExact(g, i, j);
    } else {
      StageIsExact(g, k - 1, i, j);
      StageIsExact(g, k - 1, i, k - 1);
      StageIsExact(g, k - 1, k - 1, j);
      var t := Stage(g, k - 1);
      RelaxIsExact(g, k - 1, i, j, t(i, j), t(i, k - 1), t(k - 1, j));
    }
  }

  /** A node stays at distance zero from itself. */
  lemma DiagonalIsZero(g: Graph, k: nat, i: int)
    requires Proper(g)
    ensures Stage(g, k)(i, i).Reached? && Stage(g, k)(i, i).metres == 0.0
  {
    StageIsExact(g, k, i, i);
    var c := Stage(g, k)(i, i);
    assert Joins(g.link, i, i, At(i)) && InnerBelow(At(i), k) && Sum(g.metres, At(i)) == 0.0;
    var w :| Joins(g.link, i, i, w) && InnerBelow(w, k) && Sum(g.metres, w) == c.metres;
    SumNonNegative(g.link, g.metres, w);
  }

  /** Why the update may run in place: round k changes neither row k nor column k. */
  lemma PivotUnchanged(g: Graph, k: nat, i: int)
    requires Proper(g)
    ensures Stage(g, k + 1)(i, k) == Stage(g, k)(i, k)
    ensures Stage(g, k + 1)(k, i) == Stage(g, k)(k, i)
  {
    DiagonalIsZero(g, k, k);
  }

  /** Once all nodes have served as intermediates, the bound on inner nodes is no restriction. */
  lemma {:induction false} AllInnerBelow(g: Graph, n: nat, w: Walk)
    requires Follows(g.link, w) && forall a, b | g.link(a, b) :: a < n
    ensures InnerBelow(w, n)
  {
    if w.Hop? { AllInnerBelow(g, n, w.rest); }
  }

  /** An entry tells the shortest walk: it exists iff a walk exists, and is one walk's metres and seconds. */
  ghost predicate ShortestWalk(g: Graph, i: int, j: int, c: Cell) {
    && (c.Unreached? <==> !Reaches(g.link, i, j))
    && (c.Reached? ==>
        && (exists w :: Joins(g.link, i, j, w) && Sum(g.metres, w) == c.metres && Sum(g.seconds, w) == c.seconds)
        && (forall w | Joins(g.link, i, j, w) :: c.metres <= Sum(g.metres, w)))
  }

  lemma FinalStageIsShortest(g: Graph, n: nat, i: int, j: int)
    requires Proper(g) && forall a, b | g.link(a, b) :: a < n
    ensures ShortestWalk(g, i, j, Stage(g, n)(i, j))
  {
    StageIsExact(g, n, i, j);
    forall w | Joins(g.link, i, j, w)
      ensures InnerBelow(w, n)
    {
      AllInnerBelow(g, n, w);
    }
  }
}
