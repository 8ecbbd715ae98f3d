/**
 Filling the missing legs of a distance matrix with shortest walks over its short links.
 */
module MetricClosure {
  import opened Options
  import opened Matrices
  import opened Walks
  import opened ShortestWalks

  datatype ClosureResult = ClosureResult(meters: Matrix, seconds: Option<Matrix>, filledLegs: nat)

  ghost predicate NonNegativeLegs(m: Matrix) {
    forall i, j | Leg(m, i, j).Some? :: Leg(m, i, j).value >= 0.0
  }

  /** A direct leg no longer than the cap may serve as a stepping stone. */
  predicate ShortLeg(m: Matrix, maxLinkMeters: real, i: int, j: int) {
    && 0 <= i < |m| && 0 <= j < |m| && i != j
    && Leg(m, i, j).Some? && Leg(m, i, j).value <= maxLinkMeters
  }

  function LegMetres(m: Matrix, i: int, j: int): real {
    if Leg(m, i, j).Some? then Leg(m, i, j).value else 0.0
  }

  /** A leg without seconds counts as taking none. */
  function LegSeconds(seconds: Option<Matrix>, i: int, j: int): real {
    if seconds.Some? then LegMetres(seconds.value, i, j) else 0.0
  }

  function LinkGraph(m: Matrix, maxLinkMeters: real, seconds: Option<Matrix>): Graph {
    Graph((i, j) => ShortLeg(m, maxLinkMeters, i, j),
          (i, j) => LegMetres(m, i, j),
          (i, j) => LegSeconds(seconds, i, j))
  }

  ghost predicate Square(m: Matrix, n: nat) {
    |m| == n && forall i | 0 <= i < n :: |m[i]| == n
  }

  /** What one output leg promises: direct legs are kept, missing ones become one shortest walk. */
  ghost predicate ClosedLeg(m: Matrix, maxLinkMeters: real, seconds: Option<Matrix>, r: ClosureResult, i: int, j: int) {
    var g := LinkGraph(m, maxLinkMeters, seconds);
    var metres := Leg(r.meters, i, j);
    if i == j then metres == Some(0.0)
    else if Leg(m, i, j).Some? then metres == Leg(m, i, j)
    else
      && (metres == None <==> !Reaches(g.link, i, j))
      && (metres.Some? ==> forall w | Joins(g.link, i, j, w) :: metres.value <= Sum(g.metres, w))
      && (metres.Some? ==>
          exists w :: Joins(g.link, i, j, w) && Sum(g.metres, w) == metres.value
                   && (r.seconds.Some? ==> Leg(r.seconds.value, i, j) == Some(Sum(g.seconds, w))))
  }

  /** The other legs' seconds are those supplied. */
  ghost predicate ClosedSeconds(m: Matrix, seconds: Matrix, r: ClosureResult, i: int, j: int)
    requires r.seconds.Some?
  {
    var s := Leg(r.seconds.value, i, j);
    && (i == j ==> s == Some(0.0))
    && (i != j && Leg(m, i, j).Some? ==> s == Leg(seconds, i, j))
    && (i != j && Leg(m, i, j) == None && Leg(r.meters, i, j) == None ==> s == None)
  }

  /** The leg from i to j was missing and is no longer. */
  predicate IsFilled(m: Matrix, out: Matrix, i: int, j: int) {
    i != j && Leg(m, i, j) == None && Leg(out, i, j).Some?
  }

  /** How many of the first `count` legs from i were filled. */
  function FilledFrom(m: Matrix, out: Matrix, i: int, count: nat): nat {
    if count == 0 then 0
    else FilledFrom(m, out, i, count - 1) + (if IsFilled(m, out, i, count - 1) then 1 else 0)
  }

  /** How many legs from the first `rows` nodes were filled. */
  function FilledCount(m: Matrix, out: Matrix, rows: nat): nat {
    if rows == 0 then 0 else FilledCount(m, out, rows - 1) + FilledFrom(m, out, rows - 1, |m|)
  }

  ghost predicate IsClosure(m: Matrix, maxLinkMeters: real, seconds: Option<Matrix>, r: ClosureResult) {
    && Square(r.meters, |m|)
    && (forall i, j | 0 <= i < |m| && 0 <= j < |m| :: ClosedLeg(m, maxLinkMeters, seconds, r, i, j))
    && (r.seconds.Some? <==> seconds.Some?)
    && (seconds.Some? ==>
        && Square(r.seconds.value, |m|)
        && forall i, j | 0 <= i < |m| && 0 <= j < |m| :: ClosedSeconds(m, seconds.value, r, i, j))
    && r.filledLegs == FilledCount(m, r.meters, |m|)
  }

  // ----- The in-place algorithm -----

  /** `None` in the arrays is the source's `+Infinity`. */
  predicate Holds(d: Option<real>, s: Option<real>, c: Cell) {
    match c
    case Unreached => d == None && s == None
    case Reached(metres, seconds) => d == Some(metres) && s == Some(seconds)
  }

  method SeedMatrices(m: Matrix, maxLinkMeters: real, seconds: Option<Matrix>)
      returns (dist: array2<Option<real>>, sec: array2<Option<real>>)
    ensures fresh(dist) && fresh(sec) && dist != sec
    ensures dist.Length0 == dist.Length1 == sec.Length0 == sec.Length1 == |m|
    ensures forall a, b | 0 <= a < |m| && 0 <= b < |m| ::
      Holds(dist[a, b], sec[a, b], Initial(LinkGraph(m, maxLinkMeters, seconds))(a, b))
  {
    var n := |m|;
    dist := new Option<real>[n, n]((_, _) => None);
    sec := new Option<real>[n, n]((_, _) => None);
    ghost var g := LinkGraph(m, maxLinkMeters, seconds);
    for i := 0 to n
      invariant forall a, b | 0 <= a < i && 0 <= b < n :: Holds(dist[a, b], sec[a, b], Initial(g)(a, b))
    {
      for j := 0 to n
        invariant forall a, b | 0 <= a < i && 0 <= b < n :: Holds(dist[a, b], sec[a, b], Initial(g)(a, b))
        invariant forall b | 0 <= b < j :: Holds(dist[i, b], sec[i, b], Initial(g)(i, b))
      {
        if i == j {
          dist[i, j], sec[i, j] := Some(0.0), Some(0.0);
          continue;
        }
        var leg := Leg(m, i, j);
        var isEdge := leg.Some? && leg.value <= maxLinkMeters;
        dist[i, j] := if isEdge then leg else None;
        if !isEdge {
          sec[i, j] := None;
        } else {
          var s := if seconds.Some? then Leg(seconds.value, i, j) else None;
          sec[i, j] := if s.Some? then s else Some(0.0);
        }
      }
    }
  }

  /** One comparison and, if the candidate is shorter, one update of both arrays. */
  method RelaxEntry(dist: array2<Option<real>>, sec: array2<Option<real>>, k: nat, i: nat, j: nat,
                    dik: real, secIk: real, ghost direct: Cell, ghost second: Cell)
    requires dist != sec && dist.Length0 == dist.Length1 == sec.Length0 == sec.Length1
    requires k < dist.Length0 && i < dist.Length0 && j < dist.Length0
    requires Holds(dist[i, j], sec[i, j], direct) && Holds(dist[k, j], sec[k, j], second)
    modifies dist, sec
    ensures Holds(dist[i, j], sec[i, j], Relax(direct, Reached(dik, secIk), second))
    ensures forall a, b | 0 <= a < dist.Length0 && 0 <= b < dist.Length0 && (a != i || b != j) ::
      dist[a, b] == old(dist[a, b]) && sec[a, b] == old(sec[a, b])
  {
    if dist[k, j].Some? {
      var cand := dik + dist[k, j].value;
      if dist[i, j] == None || cand < dist[i, j].value {
        var s := secIk + sec[k, j].value;
        dist[i, j] := Some(cand);
        sec[i, j] := Some(s);
      }
    }
  }

  /** One row of one round, overwriting it in place while the pivot row is being read. */
  method RelaxRow(dist: array2<Option<real>>, sec: array2<Option<real>>, n: nat, k: nat, i: nat, ghost t: Table)
    requires dist != sec && dist.Length0 == dist.Length1 == sec.Length0 == sec.Length1 == n
    requires k < n && i < n
    requires forall b | 0 <= b < n :: Holds(dist[i, b], sec[i, b], t(i, b)) && Holds(dist[k, b], sec[k, b], t(k, b))
    requires Next(t, k)(i, k) == t(i, k) && forall b | 0 <= b < n :: Next(t, k)(k, b) == t(k, b)
    modifies dist, sec
    ensures forall b | 0 <= b < n :: Holds(dist[i, b], sec[i, b], Next(t, k)(i, b))
    ensures forall a, b | 0 <= a < n && 0 <= b < n && a != i ::
      dist[a, b] == old(dist[a, b]) && sec[a, b] == old(sec[a, b])
  {
    assert Holds(dist[i, k], sec[i, k], t(i, k));
    var dik := dist[i, k];
    if dik == None { return; }
    var secIk := sec[i, k];
    assert t(i, k) == Reached(dik.value, secIk.value);
    hide Relax, Holds;
    for j := 0 to n
      invariant forall b | 0 <= b < j :: Holds(dist[i, b], sec[i, b], Next(t, k)(i, b))
      invariant forall b | j <= b < n :: Holds(dist[i, b], sec[i, b], t(i, b))
      invariant forall a, b | 0 <= a < n && 0 <= b < n && a != i ::
        dist[a, b] == old(dist[a, b]) && sec[a, b] == old(sec[a, b])
    {
      assert Holds(dist[k, j], sec[k, j], t(k, j));
      RelaxEntry(dist, sec, k, i, j, dik.value, secIk.value, t(i, j), t(k, j));
    }
  }

  ghost predicate HoldTable(dist: array2<Option<real>>, sec: array2<Option<real>>, n: nat, t: Table)
    requires dist.Length0 == dist.Length1 == sec.Length0 == sec.Length1 == n
    reads dist, sec
  {
    forall a, b | 0 <= a < n && 0 <= b < n :: Holds(dist[a, b], sec[a, b], t(a, b))
  }

  /** One round takes the arrays from one table to the next. */
  method RelaxRound(dist: array2<Option<real>>, sec: array2<Option<real>>, n: nat, k: nat, ghost t: Table)
    requires dist != sec && dist.Length0 == dist.Length1 == sec.Length0 == sec.Length1 == n
    requires k < n && HoldTable(dist, sec, n, t)
    requires forall a | 0 <= a < n :: Next(t, k)(a, k) == t(a, k) && Next(t, k)(k, a) == t(k, a)
    modifies dist, sec
    ensures HoldTable(dist, sec, n, Next(t, k))
  {
    hide Next, Holds;
    for i := 0 to n
      invariant forall a, b | 0 <= a < i && 0 <= b < n :: Holds(dist[a, b], sec[a, b], Next(t, k)(a, b))
      invariant forall a, b | i <= a < n && 0 <= b < n :: Holds(dist[a, b], sec[a, b], t(a, b))
      invariant forall b | 0 <= b < n :: Holds(dist[k, b], sec[k, b], t(k, b))
    {
      RelaxRow(dist, sec, n, k, i, t);
    }
  }

  /** All rounds: the arrays pass through the stages of the table, and end in the last one. */
  method RelaxAll(dist: array2<Option<real>>, sec: array2<Option<real>>, n: nat, ghost g: Graph)
    requires dist != sec && dist.Length0 == dist.Length1 == sec.Length0 == sec.Length1 == n
    requires Proper(g) && HoldTable(dist, sec, n, Initial(g))
    modifies dist, sec
    ensures HoldTable(dist, sec, n, Stage(g, n))
  {
    hide HoldTable, Next, Initial;
    for k := 0 to n
      invariant HoldTable(dist, sec, n, Stage(g, k))
    {
      forall a: int | 0 <= a < n
        ensures Next(Stage(g, k), k)(a, k) == Stage(g, k)(a, k) && Next(Stage(g, k), k)(k, a) == Stage(g, k)(k, a)
      {
        PivotUnchanged(g, k, a);
      }
      RelaxRound(dist, sec, n, k, Stage(g, k));
    }
  }

  /** One output leg, read off the final matrices. */
  function OutMetres(m: Matrix, i: int, j: int, d: Option<real>): Option<real> {
    if i == j then Some(0.0) else if Leg(m, i, j).Some? then Leg(m, i, j) else d
  }

  function OutSeconds(m: Matrix, seconds: Option<Matrix>, i: int, j: int, d: Option<real>, s: Option<real>)
    : Option<real>
  {
    if i == j then Some(0.0)
    else if Leg(m, i, j).Some? then (if seconds.Some? then Leg(seconds.value, i, j) else None)
    else if d.Some? && seconds.Some? then s
    else None
  }

  /** Row i of the output matrices, and how many of its legs were filled. */
  method OutputRow(m: Matrix, seconds: Option<Matrix>, dist: array2<Option<real>>, sec: array2<Option<real>>, i: nat,
                   ghost above: Matrix)
      returns (mRow: seq<Option<real>>, sRow: seq<Option<real>>, filledHere: nat)
    requires dist.Length0 == dist.Length1 == sec.Length0 == sec.Length1 == |m| && i == |above| < |m|
    ensures |mRow| == |m| && forall j | 0 <= j < |m| :: mRow[j] == OutMetres(m, i, j, dist[i, j])
    ensures |sRow| == |m| && forall j | 0 <= j < |m| :: sRow[j] == OutSeconds(m, seconds, i, j, dist[i, j], sec[i, j])
    ensures filledHere == FilledFrom(m, above + [mRow], i, |m|)
  {
    hide FilledFrom;
    mRow, sRow, filledHere := [], [], 0;
    FilledFromStart(m, above + [mRow], i);
    for j := 0 to |m|
      invariant |mRow| == j && forall b | 0 <= b < j :: mRow[b] == OutMetres(m, i, b, dist[i, b])
      invariant |sRow| == j && forall b | 0 <= b < j :: sRow[b] == OutSeconds(m, seconds, i, b, dist[i, b], sec[i, b])
      invariant filledHere == FilledFrom(m, above + [mRow], i, j)
    {
      var orig := Leg(m, i, j);
      var mCell, sCell := None, None;
      if i == j {
        mCell, sCell := Some(0.0), Some(0.0);
      } else if orig.Some? {
        mCell := orig;
        sCell := if seconds.Some? then Leg(seconds.value, i, j) else None;
      } else if dist[i, j].Some? {
        mCell := dist[i, j];
        sCell := if seconds.Some? then sec[i, j] else None;
        filledHere := filledHere + 1;
      }
      FilledFromStep(m, above, mRow, mCell, i);
      mRow, sRow := mRow + [mCell], sRow + [sCell];
    }
  }

  lemma FilledFromStart(m: Matrix, out: Matrix, i: int)
    ensures FilledFrom(m, out, i, 0) == 0
  {
  }

  lemma FilledFromStep(m: Matrix, above: Matrix, row: seq<Option<real>>, cell: Option<real>, i: nat)
    requires i == |above|
    ensures FilledFrom(m, above + [row + [cell]], i, |row| + 1)
         == FilledFrom(m, above + [row], i, |row|)
            + (if i != |row| && Leg(m, i, |row|) == None && cell.Some? then 1 else 0)
  {
    var longer := row + [cell];
    assert Leg(above + [longer], i, |row|) == cell;
    forall j | 0 <= j < |row|
      ensures Leg(above + [longer], i, j) == Leg(above + [row], i, j)
    {
    }
    FilledFromSame(m, above + [row], above + [longer], i, |row|);
  }

  lemma {:induction false} FilledFromSame(m: Matrix, out: Matrix, out': Matrix, i: int, count: nat)
    requires forall j | 0 <= j < count :: Leg(out, i, j) == Leg(out', i, j)
    ensures FilledFrom(m, out, i, count) == FilledFrom(m, out', i, count)
  {
    if count > 0 { FilledFromSame(m, out, out', i, count - 1); }
  }

  lemma {:induction false} FilledCountSame(m: Matrix, out: Matrix, out': Matrix, rows: nat)
    requires forall i, j | 0 <= i < rows && 0 <= j < |m| :: Leg(out, i, j) == Leg(out', i, j)
    ensures FilledCount(m, out, rows) == FilledCount(m, out', rows)
  {
    if rows > 0 {
      FilledCountSame(m, out, out', rows - 1);
      FilledFromSame(m, out, out', rows - 1, |m|);
    }
  }

  method Assemble(m: Matrix, seconds: Option<Matrix>, dist: array2<Option<real>>, sec: array2<Option<real>>)
      returns (r: ClosureResult)
    requires dist.Length0 == dist.Length1 == sec.Length0 == sec.Length1 == |m|
    ensures Square(r.meters, |m|)
    ensures forall i, j | 0 <= i < |m| && 0 <= j < |m| :: r.meters[i][j] == OutMetres(m, i, j, dist[i, j])
    ensures r.seconds.Some? <==> seconds.Some?
    ensures r.seconds.Some? ==> Square(r.seconds.value, |m|)
    ensures r.seconds.Some? ==> forall i, j | 0 <= i < |m| && 0 <= j < |m| ::
      r.seconds.value[i][j] == OutSeconds(m, seconds, i, j, dist[i, j], sec[i, j])
    ensures r.filledLegs == FilledCount(m, r.meters, |m|)
  {
    hide OutMetres, OutSeconds, FilledFrom;
    var n := |m|;
    var outMeters: Matrix, outSeconds: Matrix := [], [];
    var filledLegs := 0;
    for i := 0 to n
      invariant |outMeters| == i && forall a | 0 <= a < i :: |outMeters[a]| == n
      invariant |outSeconds| == i && forall a | 0 <= a < i :: |outSeconds[a]| == n
      invariant forall a, b | 0 <= a < i && 0 <= b < n :: outMeters[a][b] == OutMetres(m, a, b, dist[a, b])
      invariant forall a, b | 0 <= a < i && 0 <= b < n ::
        outSeconds[a][b] == OutSeconds(m, seconds, a, b, dist[a, b], sec[a, b])
      invariant filledLegs == FilledCount(m, outMeters, i)
    {
      var mRow, sRow, filledHere := OutputRow(m, seconds, dist, sec, i, outMeters);
      FilledCountSame(m, outMeters, outMeters + [mRow], i);
      filledLegs := filledLegs + filledHere;
      outMeters, outSeconds := outMeters + [mRow], outSeconds + [sRow];
    }
    r := ClosureResult(outMeters, if seconds.Some? then Some(outSeconds) else None, filledLegs);
  }

  method FillNullLegs(m: Matrix, maxLinkMeters: real, seconds: Option<Matrix>) returns (r: ClosureResult)
    requires NonNegativeLegs(m)
    ensures IsClosure(m, maxLinkMeters, seconds, r)
  {
    ghost var g := LinkGraph(m, maxLinkMeters, seconds);
    var dist, sec := SeedMatrices(m, maxLinkMeters, seconds);
    RelaxAll(dist, sec, |m|, g);
    r := Assemble(m, seconds, dist, sec);
    hide Stage;
    forall i, j | 0 <= i < |m| && 0 <= j < |m|
      ensures ClosedLeg(m, maxLinkMeters, seconds, r, i, j)
      ensures seconds.Some? ==> ClosedSeconds(m, seconds.value, r, i, j)
    {
      FinalStageIsShortest(g, |m|, i, j);
    }
  }

  // ----- Closing with and without seconds -----

  /** Seconds change neither which walks over short links exist nor how long they are. */
  lemma {:induction false} SecondsDoNotMatter(m: Matrix, maxLinkMeters: real, s: Option<Matrix>, s': Option<Matrix>,
                                              w: Walk)
    ensures var g, g' := LinkGraph(m, maxLinkMeters, s), LinkGraph(m, maxLinkMeters, s');
      (Follows(g.link, w) <==> Follows(g'.link, w)) && Sum(g.metres, w) == Sum(g'.metres, w)
  {
    if w.Hop? { SecondsDoNotMatter(m, maxLinkMeters, s, s', w.rest); }
  }

  /** The metres of a closure are those of a closure without seconds. */
  lemma ClosureOfMetres(m: Matrix, maxLinkMeters: real, seconds: Option<Matrix>, r: ClosureResult)
    requires IsClosure(m, maxLinkMeters, seconds, r)
    ensures IsClosure(m, maxLinkMeters, None, ClosureResult(r.meters, None, r.filledLegs))
  {
    var r' := ClosureResult(r.meters, None, r.filledLegs);
    var g, g' := LinkGraph(m, maxLinkMeters, seconds), LinkGraph(m, maxLinkMeters, None);
    forall w
      ensures (Follows(g.link, w) <==> Follows(g'.link, w)) && Sum(g.metres, w) == Sum(g'.metres, w)
    {
      SecondsDoNotMatter(m, maxLinkMeters, seconds, None, w);
    }
    hide LinkGraph, FilledCount, Follows, Sum, End;
    forall i, j | 0 <= i < |m| && 0 <= j < |m|
      ensures ClosedLeg(m, maxLinkMeters, None, r', i, j)
    {
      assert ClosedLeg(m, maxLinkMeters, seconds, r, i, j);
      assert forall w :: Joins(g.link, i, j, w) == Joins(g'.link, i, j, w);
    }
  }

  // ----- Closing twice -----

  /** A link of the closed matrix is a walk of the original one. */
  lemma ClosedLinkIsWalk(m: Matrix, maxLinkMeters: real, seconds: Option<Matrix>, r: ClosureResult, i: int, j: int)
    requires IsClosure(m, maxLinkMeters, seconds, r)
    requires LinkGraph(r.meters, maxLinkMeters, r.seconds).link(i, j)
    ensures Reaches(LinkGraph(m, maxLinkMeters, seconds).link, i, j)
  {
    var g := LinkGraph(m, maxLinkMeters, seconds);
    assert ClosedLeg(m, maxLinkMeters, seconds, r, i, j);
    if Leg(m, i, j).Some? {
      ReachesItself(g.link, i);
      ReachesNext(g.link, i, i, j);
    }
  }

  lemma {:induction false} ClosedWalkIsWalk(
      m: Matrix, maxLinkMeters: real, seconds: Option<Matrix>, r: ClosureResult, w: Walk)
    requires IsClosure(m, maxLinkMeters, seconds, r)
    requires Follows(LinkGraph(r.meters, maxLinkMeters, r.seconds).link, w)
    ensures Reaches(LinkGraph(m, maxLinkMeters, seconds).link, w.node, End(w))
  {
    var link := LinkGraph(m, maxLinkMeters, seconds).link;
    if w.At? {
      ReachesItself(link, w.node);
    } else {
      ClosedLinkIsWalk(m, maxLinkMeters, seconds, r, w.node, w.rest.node);
      ClosedWalkIsWalk(m, maxLinkMeters, seconds, r, w.rest);
      ReachesTransitively(link, w.node, w.rest.node, End(w));
    }
  }

  /** Closing is idempotent: a second application changes no leg and fills none. */
  lemma ClosingTwiceChangesNothing(m: Matrix, maxLinkMeters: real, seconds: Option<Matrix>,
                                   r: ClosureResult, again: ClosureResult)
    requires IsClosure(m, maxLinkMeters, seconds, r) && IsClosure(r.meters, maxLinkMeters, r.seconds, again)
    ensures again == ClosureResult(r.meters, r.seconds, 0)
  {
    forall i, j | 0 <= i < |m| && 0 <= j < |m|
      ensures Leg(again.meters, i, j) == Leg(r.meters, i, j)
      ensures r.seconds.Some? ==> Leg(again.seconds.value, i, j) == Leg(r.seconds.value, i, j)
    {
      ClosedLegStays(m, maxLinkMeters, seconds, r, again, i, j);
    }
    NothingFilled(r.meters, again.meters, |m|);
    SameMatrix(again.meters, r.meters, |m|);
    if r.seconds.Some? { SameMatrix(again.seconds.value, r.seconds.value, |m|); }
  }

  lemma ClosedLegStays(m: Matrix, maxLinkMeters: real, seconds: Option<Matrix>,
                       r: ClosureResult, again: ClosureResult, i: int, j: int)
    requires IsClosure(m, maxLinkMeters, seconds, r) && IsClosure(r.meters, maxLinkMeters, r.seconds, again)
    requires 0 <= i < |m| && 0 <= j < |m|
    ensures Leg(again.meters, i, j) == Leg(r.meters, i, j)
    ensures r.seconds.Some? ==> Leg(again.seconds.value, i, j) == Leg(r.seconds.value, i, j)
  {
    assert ClosedLeg(m, maxLinkMeters, seconds, r, i, j);
    assert ClosedLeg(r.meters, maxLinkMeters, r.seconds, again, i, j);
    if seconds.Some? {
      assert ClosedSeconds(m, seconds.value, r, i, j);
      assert ClosedSeconds(r.meters, r.seconds.value, again, i, j);
    }
    var link' := LinkGraph(r.meters, maxLinkMeters, r.seconds).link;
    if Leg(r.meters, i, j) == None && Reaches(link', i, j) {
      var w :| Joins(link', i, j, w);
      ClosedWalkIsWalk(m, maxLinkMeters, seconds, r, w);
    }
  }

  lemma SameMatrix(a: Matrix, b: Matrix, n: nat)
    requires Square(a, n) && Square(b, n)
    requires forall i, j | 0 <= i < n && 0 <= j < n :: Leg(a, i, j) == Leg(b, i, j)
    ensures a == b
  {
    forall i | 0 <= i < n
      ensures a[i] == b[i]
    {
      assert forall j | 0 <= j < n :: a[i][j] == Leg(a, i, j) == Leg(b, i, j) == b[i][j];
    }
  }

  lemma {:induction false} NothingFilled(m: Matrix, out: Matrix, rows: nat)
    requires rows <= |m| && forall i, j | 0 <= i < |m| && 0 <= j < |m| :: Leg(out, i, j) == Leg(m, i, j)
    ensures FilledCount(m, out, rows) == 0
  {
    if rows > 0 {
      NothingFilled(m, out, rows - 1);
      NothingFilledFrom(m, out, rows - 1, |m|);
    }
  }

  lemma {:induction false} NothingFilledFrom(m: Matrix, out: Matrix, i: int, count: nat)
    requires forall j | 0 <= j < count :: Leg(out, i, j) == Leg(m, i, j)
    ensures FilledFrom(m, out, i, count) == 0
  {
    if count > 0 { NothingFilledFrom(m, out, i, count - 1); }
  }
}
