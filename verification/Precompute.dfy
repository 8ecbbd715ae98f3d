/**
 The pre-warm job's writes, origin by origin.

 Coordinates are loaded for the ids in scope only. The router is sent the destinations that have a
 coordinate, but its answers are paired with the unfiltered destination list by position.
 */
module Precompute {
  import opened Options
  import opened LegTable
  import opened CacheTable
  import opened WalkingCache
  import opened LegLookups

  /** What the job was given and what it loaded: the owner, the ids in scope, the candidate pairs. */
  datatype Job = Job(owner: string, inScope: set<int>, candidates: seq<Pair>)

  function CoordOf(c: Caches, job: Job, id: int): Option<Coord> {
    if id in job.inScope && Owns(c, job.owner, id) then Some(c.rows[id].location) else None
  }

  /** The coordinates of the destinations that have one. */
  function DestCoords(c: Caches, job: Job, dests: seq<int>): (r: seq<Coord>)
    ensures |r| <= |dests|
    ensures |r| == |dests| <==> forall id | id in dests :: CoordOf(c, job, id).Some?
  {
    if dests == [] then []
    else
      var below, id := DestCoords(c, job, dests[..|dests| - 1]), dests[|dests| - 1];
      assert dests == dests[..|dests| - 1] + [id];
      if CoordOf(c, job, id).Some? then below + [CoordOf(c, job, id).value] else below
  }

  /** Entry `j` of the router's first row after the origin itself; past its end there is nothing. */
  function Answer(osrm: Osrm, v: Version, from: Coord, sent: seq<Coord>, j: nat): Option<Cell> {
    if j < |sent| then osrm.table(v, from, sent[j]) else None
  }

  function OriginCells(osrm: Osrm, v: Version, origin: int, from: Coord, sent: seq<Coord>, dests: seq<int>)
    : seq<CellInput>
  {
    if dests == [] then []
    else
      var j := |dests| - 1;
      var below, cell := OriginCells(osrm, v, origin, from, sent, dests[..j]), Answer(osrm, v, from, sent, j);
      if cell.Some? then below + [CellInput((origin, dests[j]), cell.value.metres, cell.value.seconds)] else below
  }

  function OriginRefused(osrm: Osrm, v: Version, origin: int, from: Coord, sent: seq<Coord>, dests: seq<int>)
    : seq<Pair>
  {
    if dests == [] then []
    else
      var j := |dests| - 1;
      var below := OriginRefused(osrm, v, origin, from, sent, dests[..j]);
      if Answer(osrm, v, from, sent, j) == None then below + [(origin, dests[j])] else below
  }

  /** Skipped when the origin or every destination lacks a coordinate. */
  predicate IsAsked(c: Caches, job: Job, origin: int, dests: seq<int>) {
    CoordOf(c, job, origin).Some? && DestCoords(c, job, dests) != []
  }

  function CellsFrom(osrm: Osrm, c: Caches, v: Version, job: Job, origin: int, dests: seq<int>): seq<CellInput> {
    if IsAsked(c, job, origin, dests) then
      OriginCells(osrm, v, origin, CoordOf(c, job, origin).value, DestCoords(c, job, dests), dests)
    else []
  }

  function RefusedFrom(osrm: Osrm, c: Caches, v: Version, job: Job, origin: int, dests: seq<int>): seq<Pair> {
    if IsAsked(c, job, origin, dests) then
      OriginRefused(osrm, v, origin, CoordOf(c, job, origin).value, DestCoords(c, job, dests), dests)
    else []
  }

  // ----- The whole job -----

  function Origins(pairs: seq<Pair>): seq<int> {
    if pairs == [] then []
    else
      var below, k := Origins(pairs[..|pairs| - 1]), pairs[|pairs| - 1];
      if k.0 in below then below else below + [k.0]
  }

  function DestsOf(pairs: seq<Pair>, origin: int): seq<int> {
    if pairs == [] then []
    else
      var below, k := DestsOf(pairs[..|pairs| - 1], origin), pairs[|pairs| - 1];
      if k.0 == origin then below + [k.1] else below
  }

  lemma {:induction false} DestsAre(pairs: seq<Pair>, origin: int, to: int)
    ensures to in DestsOf(pairs, origin) <==> (origin, to) in pairs
    ensures origin in Origins(pairs) <==> DestsOf(pairs, origin) != []
    decreases |pairs|
  {
    if pairs != [] {
      var k := pairs[|pairs| - 1];
      assert pairs == pairs[..|pairs| - 1] + [k];
      DestsAre(pairs[..|pairs| - 1], origin, to);
    }
  }

  function JobCells(osrm: Osrm, c: Caches, v: Version, job: Job, missing: seq<Pair>, origins: seq<int>)
    : seq<CellInput>
  {
    if origins == [] then []
    else
      var origin := origins[|origins| - 1];
      JobCells(osrm, c, v, job, missing, origins[..|origins| - 1])
      + CellsFrom(osrm, c, v, job, origin, DestsOf(missing, origin))
  }

  function JobRefused(osrm: Osrm, c: Caches, v: Version, job: Job, missing: seq<Pair>, origins: seq<int>): seq<Pair> {
    if origins == [] then []
    else
      var origin := origins[|origins| - 1];
      JobRefused(osrm, c, v, job, missing, origins[..|origins| - 1])
      + RefusedFrom(osrm, c, v, job, origin, DestsOf(missing, origin))
  }

  function PrewarmStep(osrm: Osrm, db: Db, job: Job, v: Version): Db {
    var missing := Missing(db.legs, v, job.candidates);
    var cells := JobCells(osrm, db.caches, v, job, missing, Origins(missing));
    var refused := JobRefused(osrm, db.caches, v, job, missing, Origins(missing));
    db.(legs := UpsertNorouteCells(UpsertMatrixCells(db.legs, cells, v), refused, v))
  }

  // ----- When one origin's answers are right -----

  /** Nothing is asked, or every destination has a coordinate. */
  predicate Aligned(c: Caches, job: Job, origin: int, dests: seq<int>) {
    IsAsked(c, job, origin, dests) ==> forall id | id in dests :: CoordOf(c, job, id).Some?
  }

  /** The cell holds what the router says about its own pair. */
  predicate TrueCell(osrm: Osrm, c: Caches, v: Version, x: CellInput) {
    Known(c, x.pair) && Table(osrm, c, v, x.pair) == Some(Cell(x.metres, x.seconds))
  }

  ghost predicate CellsRight(osrm: Osrm, c: Caches, v: Version, cells: seq<CellInput>, refused: seq<Pair>) {
    && (forall x | x in cells :: TrueCell(osrm, c, v, x))
    && (forall k | k in refused :: PairUnroutable(osrm, c, k, v))
  }

  ghost predicate OriginRight(osrm: Osrm, c: Caches, v: Version, job: Job, origin: int, dests: seq<int>) {
    CellsRight(osrm, c, v, CellsFrom(osrm, c, v, job, origin, dests), RefusedFrom(osrm, c, v, job, origin, dests))
  }

  lemma {:induction false} DestCoordAt(c: Caches, job: Job, dests: seq<int>, j: nat)
    requires j < |dests| && forall id | id in dests :: CoordOf(c, job, id).Some?
    ensures |DestCoords(c, job, dests)| == |dests| && DestCoords(c, job, dests)[j] == CoordOf(c, job, dests[j]).value
    decreases |dests|
  {
    var below := dests[..|dests| - 1];
    assert dests == below + [dests[|dests| - 1]];
    assert dests[|dests| - 1] in dests;
    if j < |below| { DestCoordAt(c, job, below, j); }
  }

  ghost predicate SentInOrder(c: Caches, job: Job, sent: seq<Coord>, dests: seq<int>) {
    forall j | 0 <= j < |dests| :: j < |sent| && CoordOf(c, job, dests[j]) == Some(sent[j])
  }

  lemma {:induction false} InOrderIsRight(osrm: Osrm, c: Caches, v: Version, job: Job, origin: int,
                                          sent: seq<Coord>, dests: seq<int>)
    requires CoordOf(c, job, origin).Some? && SentInOrder(c, job, sent, dests)
    ensures var from := CoordOf(c, job, origin).value;
      CellsRight(osrm, c, v, OriginCells(osrm, v, origin, from, sent, dests),
                 OriginRefused(osrm, v, origin, from, sent, dests))
    decreases |dests|
  {
    if dests != [] {
      var j := |dests| - 1;
      assert SentInOrder(c, job, sent, dests[..j]) by {
        assert forall i | 0 <= i < j :: CoordOf(c, job, dests[i]) == Some(sent[i]);
      }
      InOrderIsRight(osrm, c, v, job, origin, sent, dests[..j]);
      assert CoordOf(c, job, dests[j]) == Some(sent[j]);
    }
  }

  lemma AlignedIsRight(osrm: Osrm, c: Caches, v: Version, job: Job, origin: int, dests: seq<int>)
    requires Aligned(c, job, origin, dests)
    ensures OriginRight(osrm, c, v, job, origin, dests)
  {
    if IsAsked(c, job, origin, dests) {
      var sent := DestCoords(c, job, dests);
      forall j | 0 <= j < |dests|
        ensures j < |sent| && CoordOf(c, job, dests[j]) == Some(sent[j])
      {
        DestCoordAt(c, job, dests, j);
      }
      InOrderIsRight(osrm, c, v, job, origin, sent, dests);
    }
  }

  /** A router with a route between any two places. */
  function RoutesEverywhere(): (osrm: Osrm)
    ensures forall v, a, b :: osrm.table(v, a, b).Some?
  {
    Osrm((v, a, b) => Some(Cell(1.0, 1.0)), (v, a, b) => Some(Path(1.0, 1.0, [])))
  }

  /** With one coordinate missing, the last destination gets no answer and is stored as unroutable. */
  lemma MisalignedIsWrong(c: Caches, v: Version, job: Job, origin: int, dests: seq<int>)
    requires !Aligned(c, job, origin, dests)
    ensures !OriginRight(RoutesEverywhere(), c, v, job, origin, dests)
  {
    var osrm, last := RoutesEverywhere(), dests[|dests| - 1];
    var from, sent := CoordOf(c, job, origin).value, DestCoords(c, job, dests);
    assert Answer(osrm, v, from, sent, |dests| - 1) == None;
    var refused := OriginRefused(osrm, v, origin, from, sent, dests);
    assert refused[|refused| - 1] == (origin, last);
    assert (origin, last) in RefusedFrom(osrm, c, v, job, origin, dests);
    assert !PairUnroutable(osrm, c, (origin, last), v);
  }

  /** What is stored for an origin is right for every router exactly when the coordinates line up. */
  lemma RightExactlyWhenAligned(c: Caches, v: Version, job: Job, origin: int, dests: seq<int>)
    ensures (forall osrm :: OriginRight(osrm, c, v, job, origin, dests)) <==> Aligned(c, job, origin, dests)
  {
    if Aligned(c, job, origin, dests) {
      forall osrm
        ensures OriginRight(osrm, c, v, job, origin, dests)
      {
        AlignedIsRight(osrm, c, v, job, origin, dests);
      }
    } else {
      MisalignedIsWrong(c, v, job, origin, dests);
    }
  }

  // ----- When the whole job is right -----

  /** Every candidate destination has a coordinate. */
  predicate AllDestsLocated(c: Caches, job: Job) {
    forall k | k in job.candidates :: CoordOf(c, job, k.1).Some?
  }

  lemma {:induction false} JobIsRight(osrm: Osrm, c: Caches, v: Version, job: Job, missing: seq<Pair>,
                                      origins: seq<int>)
    requires AllDestsLocated(c, job) && forall k | k in missing :: k in job.candidates
    ensures CellsRight(osrm, c, v, JobCells(osrm, c, v, job, missing, origins),
                       JobRefused(osrm, c, v, job, missing, origins))
    decreases |origins|
  {
    hide TrueCell, PairUnroutable, CellsFrom, RefusedFrom;
    if origins != [] {
      var origin := origins[|origins| - 1];
      JobIsRight(osrm, c, v, job, missing, origins[..|origins| - 1]);
      forall id | id in DestsOf(missing, origin)
        ensures CoordOf(c, job, id).Some?
      {
        DestsAre(missing, origin, id);
        assert (origin, id) in job.candidates;
      }
      AlignedIsRight(osrm, c, v, job, origin, DestsOf(missing, origin));
    }
  }

  lemma TrueCellAnswers(osrm: Osrm, c: Caches, v: Version, x: CellInput)
    requires Agreeing(osrm) && TrueCell(osrm, c, v, x)
    ensures CellAnswers(osrm, c, x, v)
  {
    var a, b := c.rows[x.pair.0].location, c.rows[x.pair.1].location;
    assert SameAnswer(osrm.table(v, a, b), osrm.route(v, a, b));
    RoundTwice(x.metres);
    RoundTwice(x.seconds);
  }

  /** The pairs a job asks about are candidates. */
  lemma MissingAreCandidates(db: Db, job: Job, v: Version)
    ensures forall k | k in Missing(db.legs, v, job.candidates) :: k in job.candidates
  {
    forall k | k in Missing(db.legs, v, job.candidates)
      ensures k in job.candidates
    {
      MissingOf(db.legs, v, job.candidates, k);
    }
  }

  lemma PrewarmStaysConsistent(osrm: Osrm, db: Db, job: Job, v: Version)
    requires Consistent(osrm, db) && Agreeing(osrm) && AllDestsLocated(db.caches, job)
    ensures Consistent(osrm, PrewarmStep(osrm, db, job, v))
  {
    hide Consistent, Agreeing, CellAnswers, TrueCell, PairUnroutable, UpsertMatrixCells, UpsertNorouteCells;
    hide JobCells, JobRefused;
    var missing := Missing(db.legs, v, job.candidates);
    MissingAreCandidates(db, job, v);
    JobIsRight(osrm, db.caches, v, job, missing, Origins(missing));
    var cells := JobCells(osrm, db.caches, v, job, missing, Origins(missing));
    var refused := JobRefused(osrm, db.caches, v, job, missing, Origins(missing));
    forall x | x in cells
      ensures CellAnswers(osrm, db.caches, x, v)
    {
      TrueCellAnswers(osrm, db.caches, v, x);
    }
    MatrixCellsStayConsistent(osrm, db, cells, v);
    NorouteCellsStayConsistent(osrm, db.(legs := UpsertMatrixCells(db.legs, cells, v)), refused, v);
  }

  /** Warming the cache first changes no entry of the matrix that is returned afterwards. */
  lemma PrewarmIsInvisible(osrm: Osrm, db: Db, job: Job, v: Version, k: Pair)
    requires Consistent(osrm, db) && Agreeing(osrm) && AllDestsLocated(db.caches, job) && Known(db.caches, k)
    ensures PrewarmStep(osrm, db, job, v).caches == db.caches
    ensures MatrixCell(osrm, PrewarmStep(osrm, db, job, v), v, k) == MatrixCell(osrm, db, v, k)
  {
    PrewarmStaysConsistent(osrm, db, job, v);
    hide *;
    hide Consistent;
    CellIsLive(osrm, db, v, k);
    CellIsLive(osrm, PrewarmStep(osrm, db, job, v), v, k);
  }

  // ----- What the job stores -----

  /** Every answer of the first row is collected: as a cell, or as a refusal. */
  lemma {:induction false} AnswersAreCollected(osrm: Osrm, v: Version, origin: int, from: Coord, sent: seq<Coord>,
                                               dests: seq<int>, j: nat)
    requires j < |dests|
    ensures var answer := Answer(osrm, v, from, sent, j);
      if answer.Some? then
        CellInput((origin, dests[j]), answer.value.metres, answer.value.seconds)
          in OriginCells(osrm, v, origin, from, sent, dests)
      else (origin, dests[j]) in OriginRefused(osrm, v, origin, from, sent, dests)
    decreases |dests|
  {
    var last := |dests| - 1;
    if j < last {
      AnswersAreCollected(osrm, v, origin, from, sent, dests[..last], j);
      assert dests[..last][j] == dests[j];
    }
  }

  /** The router's answer for the pair is among these cells or these refusals. */
  predicate Collected(osrm: Osrm, c: Caches, v: Version, k: Pair, cells: seq<CellInput>, refused: seq<Pair>)
    requires Known(c, k)
  {
    var answer := Table(osrm, c, v, k);
    if answer.Some? then CellInput(k, answer.value.metres, answer.value.seconds) in cells else k in refused
  }

  lemma OriginCollects(osrm: Osrm, c: Caches, v: Version, job: Job, origin: int, dests: seq<int>, to: int)
    requires CoordOf(c, job, origin).Some? && to in dests
    requires forall id | id in dests :: CoordOf(c, job, id).Some?
    ensures Known(c, (origin, to))
    ensures Collected(osrm, c, v, (origin, to), CellsFrom(osrm, c, v, job, origin, dests),
                      RefusedFrom(osrm, c, v, job, origin, dests))
  {
    var j :| 0 <= j < |dests| && dests[j] == to;
    DestCoordAt(c, job, dests, j);
    AnswersAreCollected(osrm, v, origin, CoordOf(c, job, origin).value, DestCoords(c, job, dests), dests, j);
    hide OriginCells, OriginRefused;
  }

  lemma {:induction false} JobCollects(osrm: Osrm, c: Caches, v: Version, job: Job, missing: seq<Pair>,
                                       origins: seq<int>, k: Pair)
    requires AllDestsLocated(c, job) && CoordOf(c, job, k.0).Some? && forall x | x in missing :: x in job.candidates
    requires k in missing && k.0 in origins
    ensures Known(c, k)
    ensures Collected(osrm, c, v, k, JobCells(osrm, c, v, job, missing, origins),
                      JobRefused(osrm, c, v, job, missing, origins))
    decreases |origins|
  {
    hide CellsFrom, RefusedFrom, CoordOf, Table;
    var below, origin := origins[..|origins| - 1], origins[|origins| - 1];
    if k.0 == origin {
      DestsAre(missing, origin, k.1);
      forall id | id in DestsOf(missing, origin)
        ensures CoordOf(c, job, id).Some?
      {
        DestsAre(missing, origin, id);
        assert (origin, id) in job.candidates;
      }
      assert k == (origin, k.1);
      OriginCollects(osrm, c, v, job, origin, DestsOf(missing, origin), k.1);
    } else {
      assert k.0 in below;
      JobCollects(osrm, c, v, job, missing, below, k);
    }
  }

  /** The row holds the router's answer: its metres and seconds, or that there is no route. */
  predicate HoldsAnswer(row: LegRow, answer: Option<Cell>, v: Version) {
    match answer
    case None => row == NoRouteRow(v)
    case Some(cell) =>
      && row.source == FromTable && row.version == v && row.geom == None
      && row.metres.Some? && Near(row.metres.value, cell.metres)
      && row.seconds.Some? && Near(row.seconds.value, cell.seconds)
  }

  /** A route whose pace no walker could keep: the speed guard refuses it. */
  predicate IsRefused(answer: Option<Cell>) {
    answer.Some? && !Walkable(answer.value.metres, answer.value.seconds)
  }

  lemma CellRowHolds(x: CellInput, v: Version)
    ensures HoldsAnswer(CellRow(x, v), Some(Cell(x.metres, x.seconds)), v)
  {
    StoredIsNear(x.metres);
    StoredIsNear(x.seconds);
  }

  /** Storing right answers, the pair's among them, makes the pair live with its answer unless that is refused. */
  lemma StoredWhenCollected(osrm: Osrm, db: Db, v: Version, cells: seq<CellInput>, refused: seq<Pair>, k: Pair)
    requires CellsRight(osrm, db.caches, v, cells, refused) && Known(db.caches, k) && !Live(db.legs, k, v)
    requires Collected(osrm, db.caches, v, k, cells, refused)
    ensures var after := UpsertNorouteCells(UpsertMatrixCells(db.legs, cells, v), refused, v);
      var answer := Table(osrm, db.caches, v, k);
      && (Live(after, k, v) <==> !IsRefused(answer))
      && (Live(after, k, v) ==> HoldsAnswer(after[k], answer, v))
  {
    hide UpsertMatrixCells, UpsertNorouteCells, IsImpossibleSpeed, Walkable, CellRow, HoldsAnswer, Table;
    var middle := UpsertMatrixCells(db.legs, cells, v);
    UpsertMatrixCellsFacts(db.legs, cells, v);
    UpsertNorouteCellsFacts(middle, refused, v);
    var answer := Table(osrm, db.caches, v, k);
    if k in refused {
      assert PairUnroutable(osrm, db.caches, k, v);
      TableIs(osrm, db.caches, v, k);
    }
    if answer.Some? {
      GuardedIsWalkable(answer.value.metres, answer.value.seconds);
      CellRowHolds(CellInput(k, answer.value.metres, answer.value.seconds), v);
    } else {
      NoRouteHolds(v);
    }
    if Live(middle, k, v) {
      assert CellFor(cells, k, middle[k], v);
      var x :| x in cells && x.pair == k && !IsImpossibleSpeed(x.metres, x.seconds) && middle[k] == CellRow(x, v);
      assert TrueCell(osrm, db.caches, v, x);
    }
  }

  lemma TableIs(osrm: Osrm, c: Caches, v: Version, k: Pair)
    requires Known(c, k)
    ensures PairUnroutable(osrm, c, k, v) <==> Table(osrm, c, v, k) == None
  {
  }

  lemma NoRouteHolds(v: Version)
    ensures HoldsAnswer(NoRouteRow(v), None, v)
  {
  }

  /**
   After a pre-warm with located destinations, a candidate with a located origin that was not live is live
   with the router's answer, unless the router has a route that no walker could keep to.
   */
  lemma PrewarmStores(osrm: Osrm, db: Db, job: Job, v: Version, k: Pair)
    requires AllDestsLocated(db.caches, job) && k in job.candidates && !Live(db.legs, k, v)
    requires k.0 in job.inScope && k.0 in db.caches.rows && db.caches.rows[k.0].owner == job.owner
    ensures k.1 in db.caches.rows
    ensures var after := PrewarmStep(osrm, db, job, v).legs;
      var answer := osrm.table(v, db.caches.rows[k.0].location, db.caches.rows[k.1].location);
      && (Live(after, k, v) <==> !IsRefused(answer))
      && (Live(after, k, v) ==> HoldsAnswer(after[k], answer, v))
  {
    hide UpsertMatrixCells, UpsertNorouteCells, JobCells, JobRefused, Missing, Origins, HoldsAnswer, CellsRight;
    var missing := Missing(db.legs, v, job.candidates);
    MissingAreCandidates(db, job, v);
    MissingOf(db.legs, v, job.candidates, k);
    DestsAre(missing, k.0, k.1);
    JobIsRight(osrm, db.caches, v, job, missing, Origins(missing));
    JobCollects(osrm, db.caches, v, job, missing, Origins(missing), k);
    StoredWhenCollected(osrm, db, v, JobCells(osrm, db.caches, v, job, missing, Origins(missing)),
                        JobRefused(osrm, db.caches, v, job, missing, Origins(missing)), k);
  }

  lemma PrewarmKeepsLive(osrm: Osrm, db: Db, job: Job, v: Version, k: Pair)
    requires Live(db.legs, k, v)
    ensures Live(PrewarmStep(osrm, db, job, v).legs, k, v)
  {
    hide UpsertMatrixCells, UpsertNorouteCells, JobCells, JobRefused, CellFor;
    var missing := Missing(db.legs, v, job.candidates);
    var cells := JobCells(osrm, db.caches, v, job, missing, Origins(missing));
    UpsertMatrixCellsFacts(db.legs, cells, v);
    UpsertNorouteCellsFacts(UpsertMatrixCells(db.legs, cells, v),
                            JobRefused(osrm, db.caches, v, job, missing, Origins(missing)), v);
  }

  /** Of the candidates, a matrix lookup straight afterwards asks exactly about the refused ones it had to ask about. */
  lemma LookupAfterPrewarm(osrm: Osrm, db: Db, job: Job, v: Version, ids: seq<int>, k: Pair)
    requires AllDestsLocated(db.caches, job) && k in job.candidates
    requires k.0 in job.inScope && k.0 in db.caches.rows && db.caches.rows[k.0].owner == job.owner
    ensures k.1 in db.caches.rows
    ensures k in Asked(PrewarmStep(osrm, db, job, v), ids, v)
      <==> k in Asked(db, ids, v)
           && IsRefused(osrm.table(v, db.caches.rows[k.0].location, db.caches.rows[k.1].location))
  {
    assert CoordOf(db.caches, job, k.1).Some?;
    hide PrewarmStep, AllPairs, Missing, IsRefused, HoldsAnswer, Live, AllDestsLocated;
    MissingOf(db.legs, v, AllPairs(ids, ids), k);
    MissingOf(PrewarmStep(osrm, db, job, v).legs, v, AllPairs(ids, ids), k);
    if Live(db.legs, k, v) {
      PrewarmKeepsLive(osrm, db, job, v, k);
    } else {
      PrewarmStores(osrm, db, job, v, k);
    }
  }

  // ----- Requests in flight together -----

  /** Cells for the same pair are the same cell. */
  ghost predicate OneCellPerPair(cells: seq<CellInput>) {
    forall x, y | x in cells && y in cells && x.pair == y.pair :: x == y
  }

  /** The order in which concurrent answers arrive does not matter to what is stored. */
  lemma ArrivalOrderDoesNotMatter(legs: Legs, a: seq<CellInput>, b: seq<CellInput>, v: Version)
    requires OneCellPerPair(a) && forall x :: x in a <==> x in b
    ensures UpsertMatrixCells(legs, a, v) == UpsertMatrixCells(legs, b, v)
  {
    hide UpsertMatrixCells, CellRow, IsImpossibleSpeed;
    var la, lb := UpsertMatrixCells(legs, a, v), UpsertMatrixCells(legs, b, v);
    UpsertMatrixCellsFacts(legs, a, v);
    UpsertMatrixCellsFacts(legs, b, v);
    forall k
      ensures k in la <==> k in lb
      ensures k in la && k in lb ==> la[k] == lb[k]
    {
      SameRow(legs, la, lb, a, b, v, k);
      SameRow(legs, lb, la, b, a, v, k);
    }
    assert la.Keys == lb.Keys;
  }

  predicate PlausibleFor(cells: seq<CellInput>, k: Pair) {
    exists x | x in cells :: x.pair == k && !IsImpossibleSpeed(x.metres, x.seconds)
  }

  lemma WrittenExactlyWhen(legs: Legs, after: Legs, cells: seq<CellInput>, v: Version, k: Pair)
    requires CellsWritten(legs, after, cells, v)
    ensures k in after && !Kept(legs, after, k) <==> !Live(legs, k, v) && PlausibleFor(cells, k)
  {
    hide CellRow, IsImpossibleSpeed;
    if k in after && !Kept(legs, after, k) {
      assert CellFor(cells, k, after[k], v);
    } else if PlausibleFor(cells, k) {
      assert Live(after, k, v);
    }
  }

  lemma SameRow(legs: Legs, la: Legs, lb: Legs, a: seq<CellInput>, b: seq<CellInput>, v: Version, k: Pair)
    requires CellsWritten(legs, la, a, v) && CellsWritten(legs, lb, b, v)
    requires OneCellPerPair(a) && forall x :: x in a <==> x in b
    ensures k in la ==> k in lb && la[k] == lb[k]
  {
    hide CellRow, IsImpossibleSpeed;
    WrittenExactlyWhen(legs, la, a, v, k);
    WrittenExactlyWhen(legs, lb, b, v, k);
    if k in la && !Kept(legs, la, k) {
      assert CellFor(a, k, la[k], v) && CellFor(b, k, lb[k], v);
    }
  }

  /** So a job whose destinations are located stores the same table however its requests interleave. */
  lemma InterleavingDoesNotMatter(osrm: Osrm, db: Db, job: Job, v: Version, arrived: seq<CellInput>,
                                  declined: seq<Pair>)
    requires AllDestsLocated(db.caches, job)
    requires var missing := Missing(db.legs, v, job.candidates);
      && (forall x :: x in arrived <==> x in JobCells(osrm, db.caches, v, job, missing, Origins(missing)))
      && (forall k :: k in declined <==> k in JobRefused(osrm, db.caches, v, job, missing, Origins(missing)))
    ensures UpsertNorouteCells(UpsertMatrixCells(db.legs, arrived, v), declined, v)
         == PrewarmStep(osrm, db, job, v).legs
  {
    hide UpsertMatrixCells, UpsertNorouteCells, JobCells, JobRefused, Missing;
    var missing := Missing(db.legs, v, job.candidates);
    MissingAreCandidates(db, job, v);
    JobIsRight(osrm, db.caches, v, job, missing, Origins(missing));
    ArrivalOrderDoesNotMatter(db.legs, arrived, JobCells(osrm, db.caches, v, job, missing, Origins(missing)), v);
    DeclineOrderDoesNotMatter(UpsertMatrixCells(db.legs, arrived, v), declined,
                              JobRefused(osrm, db.caches, v, job, missing, Origins(missing)), v);
  }

  lemma DeclineOrderDoesNotMatter(legs: Legs, a: seq<Pair>, b: seq<Pair>, v: Version)
    requires forall k :: k in a <==> k in b
    ensures UpsertNorouteCells(legs, a, v) == UpsertNorouteCells(legs, b, v)
  {
    hide UpsertNorouteCells, WellShaped;
    UpsertNorouteCellsFacts(legs, a, v);
    UpsertNorouteCellsFacts(legs, b, v);
    var la, lb := UpsertNorouteCells(legs, a, v), UpsertNorouteCells(legs, b, v);
    forall k
      ensures k in la <==> k in lb
      ensures k in la && k in lb ==> la[k] == lb[k]
    {
      assert Live(legs, k, v) || k in a || (k in la <==> k in legs);
    }
    assert la.Keys == lb.Keys;
  }
}
