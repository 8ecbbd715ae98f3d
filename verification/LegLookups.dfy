/**
 What a leg lookup and a matrix lookup answer and store, as functions of the tables and the router,
 and why the cache cannot be noticed.
 */
module LegLookups {
  import opened Lists
  import opened Options
  import opened LegTable
  import opened CacheTable
  import opened WalkingCache

  predicate Owns(c: Caches, owner: string, id: int) {
    id in c.rows && c.rows[id].owner == owner
  }

  /** The ids the owner has no cache for, in the order given. */
  function NotOwned(c: Caches, owner: string, ids: seq<int>): (r: seq<int>)
    ensures forall id :: id in r <==> id in ids && !(id in c.rows && c.rows[id].owner == owner)
    ensures r == [] <==> forall id | id in ids :: Owns(c, owner, id)
  {
    if ids == [] then []
    else
      var below, id := NotOwned(c, owner, ids[..|ids| - 1]), ids[|ids| - 1];
      assert ids == ids[..|ids| - 1] + [id];
      if Owns(c, owner, id) then below else below + [id]
  }

  predicate OwnsBoth(c: Caches, owner: string, from: int, to: int) {
    Owns(c, owner, from) && Owns(c, owner, to)
  }

  /** First occurrences, in order. */
  function Unique(ids: seq<int>): (r: seq<int>)
    ensures Distinct(r) && forall id :: id in r <==> id in ids
  {
    if ids == [] then []
    else
      var below, id := Unique(ids[..|ids| - 1]), ids[|ids| - 1];
      assert ids == ids[..|ids| - 1] + [id];
      if id in below then below else below + [id]
  }

  /** What comes first stays first: ids that follow only add to the end. */
  lemma {:induction false} UniqueKeepsOrder(ids: seq<int>, n: nat)
    requires n <= |ids|
    ensures Unique(ids[..n]) <= Unique(ids)
    decreases |ids|
  {
    if n < |ids| {
      assert ids[..|ids| - 1][..n] == ids[..n];
      UniqueKeepsOrder(ids[..|ids| - 1], n);
    } else {
      assert ids[..n] == ids;
    }
  }

  // ----- One leg -----

  datatype LegReply = NotFound(missing: seq<int>) | Unroutable | Leg(metres: real, seconds: real, geometry: Geometry)

  function RoundedLeg(answer: Option<Path>): LegReply {
    if answer.Some? then Leg(Round2(answer.value.metres), Round2(answer.value.seconds), answer.value.geometry)
    else Unroutable
  }

  /** The reply of a service without a cache. */
  function LiveLeg(osrm: Osrm, c: Caches, owner: string, from: int, to: int, v: Version): LegReply {
    if !OwnsBoth(c, owner, from, to) then NotFound(NotOwned(c, owner, [from, to]))
    else
      var a, b := c.rows[from].location, c.rows[to].location;
      if from == to then Leg(0.0, 0.0, [a, a]) else RoundedLeg(osrm.route(v, a, b))
  }

  predicate AsksForLeg(db: Db, owner: string, from: int, to: int, v: Version) {
    OwnsBoth(db.caches, owner, from, to) && from != to && FindLeg(db.legs, (from, to), v) == None
  }

  function LegAnswer(osrm: Osrm, db: Db, owner: string, from: int, to: int, v: Version): LegReply {
    var found := FindLeg(db.legs, (from, to), v);
    if OwnsBoth(db.caches, owner, from, to) && from != to && found.Some? then
      Leg(found.value.metres, found.value.seconds, found.value.geometry)
    else LiveLeg(osrm, db.caches, owner, from, to, v)
  }

  function LegStep(osrm: Osrm, db: Db, owner: string, from: int, to: int, v: Version): Db {
    if AsksForLeg(db, owner, from, to, v) then
      var reply := RoundedLeg(osrm.route(v, db.caches.rows[from].location, db.caches.rows[to].location));
      if reply.Leg? then
        db.(legs := UpsertLegs(db.legs, [RouteInput((from, to), reply.metres, reply.seconds, reply.geometry)], v))
      else db
    else db
  }

  /** A cached leg is the leg the router would give now. */
  lemma LegIsLive(osrm: Osrm, db: Db, owner: string, from: int, to: int, v: Version)
    requires Consistent(osrm, db)
    ensures LegAnswer(osrm, db, owner, from, to, v) == LiveLeg(osrm, db.caches, owner, from, to, v)
  {
    if FindLeg(db.legs, (from, to), v).Some? {
      assert PairAgrees(osrm, db, (from, to));
    }
  }

  lemma UpsertOneLeg(legs: Legs, x: RouteInput, v: Version)
    ensures UpsertLegs(legs, [x], v)
         == if IsImpossibleSpeed(x.metres, x.seconds) then legs else legs[x.pair := RouteRow(x, v)]
  {
    assert UpsertLegs(legs, [x][..0], v) == legs;
  }

  lemma LegStepStaysConsistent(osrm: Osrm, db: Db, owner: string, from: int, to: int, v: Version)
    requires Consistent(osrm, db)
    ensures Consistent(osrm, LegStep(osrm, db, owner, from, to, v))
  {
    if AsksForLeg(db, owner, from, to, v) {
      var after := LegStep(osrm, db, owner, from, to, v);
      var answer := osrm.route(v, db.caches.rows[from].location, db.caches.rows[to].location);
      if answer.Some? {
        var x := RouteInput((from, to), Round2(answer.value.metres), Round2(answer.value.seconds),
                            answer.value.geometry);
        UpsertOneLeg(db.legs, x, v);
        RoundTwice(answer.value.metres);
        RoundTwice(answer.value.seconds);
        hide Round2, Numeric, IsImpossibleSpeed;
        forall k | k in after.legs
          ensures PairAgrees(osrm, after, k)
        {
          if k in db.legs { assert PairAgrees(osrm, db, k); }
        }
      }
    }
  }

  /** The reply is the router's answer to within half a hundredth, with its geometry. */
  predicate LegIsNear(reply: LegReply, answer: Option<Path>) {
    match answer
    case None => reply == Unroutable
    case Some(path) =>
      reply.Leg? && Near(reply.metres, path.metres) && Near(reply.seconds, path.seconds)
      && reply.geometry == path.geometry
  }

  lemma RoundedLegIsNear(answer: Option<Path>)
    ensures LegIsNear(RoundedLeg(answer), answer)
  {
    if answer.Some? {
      StoredIsNear(answer.value.metres);
      StoredIsNear(answer.value.seconds);
    }
  }

  /** The row is a full leg that holds the router's answer. */
  predicate HoldsLeg(row: LegRow, path: Path, v: Version) {
    && row.source == FromRoute && row.version == v && row.geom == Some(path.geometry)
    && row.metres.Some? && Near(row.metres.value, path.metres)
    && row.seconds.Some? && Near(row.seconds.value, path.seconds)
  }

  lemma RouteRowHolds(k: Pair, path: Path, v: Version)
    ensures HoldsLeg(RouteRow(RouteInput(k, Round2(path.metres), Round2(path.seconds), path.geometry), v), path, v)
  {
    RoundTwice(path.metres);
    RoundTwice(path.seconds);
    StoredIsNear(path.metres);
    StoredIsNear(path.seconds);
  }

  /**
   A leg the router answered is stored unless no walker could keep its pace, so an immediate repeat asks
   again only for such a leg or where the router has no route.
   */
  lemma RepeatedLegAsksOnlyUnstored(osrm: Osrm, db: Db, owner: string, from: int, to: int, v: Version)
    requires AsksForLeg(db, owner, from, to, v)
    ensures var after := LegStep(osrm, db, owner, from, to, v);
      match osrm.route(v, db.caches.rows[from].location, db.caches.rows[to].location)
      case None => after == db && AsksForLeg(after, owner, from, to, v)
      case Some(path) =>
        if Walkable(Round2(path.metres), Round2(path.seconds)) then
          && !AsksForLeg(after, owner, from, to, v)
          && (from, to) in after.legs && HoldsLeg(after.legs[(from, to)], path, v)
        else after == db && AsksForLeg(after, owner, from, to, v)
  {
    var answer := osrm.route(v, db.caches.rows[from].location, db.caches.rows[to].location);
    if answer.Some? {
      var metres, seconds := Round2(answer.value.metres), Round2(answer.value.seconds);
      UpsertOneLeg(db.legs, RouteInput((from, to), metres, seconds, answer.value.geometry), v);
      GuardedIsWalkable(metres, seconds);
      RouteRowHolds((from, to), answer.value, v);
      hide Round2, Numeric, IsImpossibleSpeed, Walkable, Near;
    }
  }

  // ----- The matrix -----

  function RoundedCell(answer: Option<Cell>): Option<Cell> {
    if answer.Some? then Some(Cell(Round2(answer.value.metres), Round2(answer.value.seconds))) else None
  }

  function Table(osrm: Osrm, c: Caches, v: Version, k: Pair): Option<Cell>
    requires Known(c, k)
  {
    osrm.table(v, c.rows[k.0].location, c.rows[k.1].location)
  }

  /** The matrix entry of a service without a cache. */
  function LiveCell(osrm: Osrm, c: Caches, v: Version, k: Pair): Option<Cell>
    requires Known(c, k)
  {
    if k.0 == k.1 then Some(Cell(0.0, 0.0)) else RoundedCell(Table(osrm, c, v, k))
  }

  function FoundAsCell(found: FoundCell): Option<Cell> {
    if found.noroute then None else Some(Cell(found.metres, found.seconds))
  }

  function MatrixCell(osrm: Osrm, db: Db, v: Version, k: Pair): Option<Cell>
    requires Known(db.caches, k)
  {
    var found := FindMatrixCell(db.legs, k, v);
    if k.0 != k.1 && found.Some? then FoundAsCell(found.value) else LiveCell(osrm, db.caches, v, k)
  }

  /** A cached cell, whichever endpoint it came from, is the cell the table endpoint would give now. */
  lemma CellIsLive(osrm: Osrm, db: Db, v: Version, k: Pair)
    requires Consistent(osrm, db) && Agreeing(osrm) && Known(db.caches, k)
    ensures MatrixCell(osrm, db, v, k) == LiveCell(osrm, db.caches, v, k)
  {
    hide Round2;
    if FindMatrixCell(db.legs, k, v).Some? {
      assert PairAgrees(osrm, db, k);
      var a, b := db.caches.rows[k.0].location, db.caches.rows[k.1].location;
      assert SameAnswer(osrm.table(v, a, b), osrm.route(v, a, b));
    }
  }

  /** The entry is the router's answer to within half a hundredth. */
  predicate CellIsNear(entry: Option<Cell>, answer: Option<Cell>) {
    match answer
    case None => entry == None
    case Some(cell) =>
      entry.Some? && Near(entry.value.metres, cell.metres) && Near(entry.value.seconds, cell.seconds)
  }

  lemma RoundedCellIsNear(answer: Option<Cell>)
    ensures CellIsNear(RoundedCell(answer), answer)
  {
    if answer.Some? {
      StoredIsNear(answer.value.metres);
      StoredIsNear(answer.value.seconds);
    }
  }

  /** Off-diagonal pairs from one origin, in the order of the destinations. */
  function RowPairs(from: int, tos: seq<int>): seq<Pair> {
    if tos == [] then []
    else
      var below, to := RowPairs(from, tos[..|tos| - 1]), tos[|tos| - 1];
      if to == from then below else below + [(from, to)]
  }

  function AllPairs(froms: seq<int>, tos: seq<int>): seq<Pair> {
    if froms == [] then []
    else AllPairs(froms[..|froms| - 1], tos) + RowPairs(froms[|froms| - 1], tos)
  }

  lemma {:induction false} RowPairsOf(from: int, tos: seq<int>, k: Pair)
    ensures k in RowPairs(from, tos) <==> k.0 == from && k.1 in tos && k.0 != k.1
  {
    if tos != [] {
      assert tos == tos[..|tos| - 1] + [tos[|tos| - 1]];
      RowPairsOf(from, tos[..|tos| - 1], k);
    }
  }

  lemma {:induction false} AllPairsOf(froms: seq<int>, tos: seq<int>, k: Pair)
    ensures k in AllPairs(froms, tos) <==> k.0 in froms && k.1 in tos && k.0 != k.1
    decreases |froms|
  {
    if froms != [] {
      assert froms == froms[..|froms| - 1] + [froms[|froms| - 1]];
      AllPairsOf(froms[..|froms| - 1], tos, k);
      RowPairsOf(froms[|froms| - 1], tos, k);
    }
  }

  /** The pairs the table holds nothing live for. */
  function Missing(legs: Legs, v: Version, pairs: seq<Pair>): seq<Pair> {
    if pairs == [] then []
    else
      var below, k := Missing(legs, v, pairs[..|pairs| - 1]), pairs[|pairs| - 1];
      if Live(legs, k, v) then below else below + [k]
  }

  lemma {:induction false} MissingOf(legs: Legs, v: Version, pairs: seq<Pair>, k: Pair)
    ensures k in Missing(legs, v, pairs) <==> k in pairs && !Live(legs, k, v)
    decreases |pairs|
  {
    if pairs != [] {
      assert pairs == pairs[..|pairs| - 1] + [pairs[|pairs| - 1]];
      MissingOf(legs, v, pairs[..|pairs| - 1], k);
    }
  }

  lemma {:induction false} MissingConcat(legs: Legs, v: Version, a: seq<Pair>, b: seq<Pair>)
    ensures Missing(legs, v, a + b) == Missing(legs, v, a) + Missing(legs, v, b)
    decreases |b|
  {
    if b == [] {
      assert a + b == a;
    } else {
      assert (a + b)[..|a + b| - 1] == a + b[..|b| - 1];
      MissingConcat(legs, v, a, b[..|b| - 1]);
    }
  }

  ghost predicate AllKnown(c: Caches, pairs: seq<Pair>) {
    forall k | k in pairs :: Known(c, k)
  }

  /** The cells the router has for these pairs, rounded. */
  function Fetched(osrm: Osrm, c: Caches, v: Version, pairs: seq<Pair>): seq<CellInput>
    requires AllKnown(c, pairs)
  {
    if pairs == [] then []
    else
      var k := pairs[|pairs| - 1];
      var below, cell := Fetched(osrm, c, v, pairs[..|pairs| - 1]), RoundedCell(Table(osrm, c, v, k));
      if cell.Some? then below + [CellInput(k, cell.value.metres, cell.value.seconds)] else below
  }

  /** The pairs the router has no route for. */
  function Refused(osrm: Osrm, c: Caches, v: Version, pairs: seq<Pair>): seq<Pair>
    requires AllKnown(c, pairs)
  {
    if pairs == [] then []
    else
      var k := pairs[|pairs| - 1];
      var below := Refused(osrm, c, v, pairs[..|pairs| - 1]);
      if Table(osrm, c, v, k) == None then below + [k] else below
  }

  function FetchedInput(osrm: Osrm, c: Caches, v: Version, k: Pair): CellInput
    requires Known(c, k) && Table(osrm, c, v, k).Some?
  {
    var cell := RoundedCell(Table(osrm, c, v, k)).value;
    CellInput(k, cell.metres, cell.seconds)
  }

  lemma {:induction false} FetchedOf(osrm: Osrm, c: Caches, v: Version, pairs: seq<Pair>, x: CellInput)
    requires AllKnown(c, pairs)
    ensures x in Fetched(osrm, c, v, pairs)
      <==> x.pair in pairs && Table(osrm, c, v, x.pair).Some? && x == FetchedInput(osrm, c, v, x.pair)
    decreases |pairs|
  {
    hide Round2;
    if pairs != [] {
      assert pairs == pairs[..|pairs| - 1] + [pairs[|pairs| - 1]];
      FetchedOf(osrm, c, v, pairs[..|pairs| - 1], x);
    }
  }

  lemma {:induction false} RefusedOf(osrm: Osrm, c: Caches, v: Version, pairs: seq<Pair>, k: Pair)
    requires AllKnown(c, pairs)
    ensures k in Refused(osrm, c, v, pairs) <==> k in pairs && Table(osrm, c, v, k) == None
    decreases |pairs|
  {
    if pairs != [] {
      assert pairs == pairs[..|pairs| - 1] + [pairs[|pairs| - 1]];
      RefusedOf(osrm, c, v, pairs[..|pairs| - 1], k);
    }
  }

  /** The table after the answers for these pairs were stored. */
  function StoreAnswers(osrm: Osrm, db: Db, v: Version, asked: seq<Pair>): Legs
    requires AllKnown(db.caches, asked)
  {
    UpsertNorouteCells(UpsertMatrixCells(db.legs, Fetched(osrm, db.caches, v, asked), v),
                       Refused(osrm, db.caches, v, asked), v)
  }

  /** The pairs a matrix lookup asks the router about, in order. */
  function Asked(db: Db, ids: seq<int>, v: Version): seq<Pair> {
    Missing(db.legs, v, AllPairs(ids, ids))
  }

  lemma AskedKnown(db: Db, owner: string, ids: seq<int>, v: Version)
    requires NotOwned(db.caches, owner, ids) == []
    ensures AllKnown(db.caches, Asked(db, ids, v))
  {
    forall k | k in Asked(db, ids, v)
      ensures Known(db.caches, k)
    {
      MissingOf(db.legs, v, AllPairs(ids, ids), k);
      AllPairsOf(ids, ids, k);
      assert Owns(db.caches, owner, k.0) && Owns(db.caches, owner, k.1);
    }
  }

  function MatrixStep(osrm: Osrm, db: Db, owner: string, cacheIds: seq<int>, v: Version): Db {
    var ids := Unique(cacheIds);
    if NotOwned(db.caches, owner, ids) != [] then db
    else
      AskedKnown(db, owner, ids, v);
      db.(legs := StoreAnswers(osrm, db, v, Asked(db, ids, v)))
  }

  lemma StoringStaysConsistent(osrm: Osrm, db: Db, v: Version, asked: seq<Pair>)
    requires Consistent(osrm, db) && AllKnown(db.caches, asked)
    ensures Consistent(osrm, db.(legs := StoreAnswers(osrm, db, v, asked)))
  {
    var cells, refused := Fetched(osrm, db.caches, v, asked), Refused(osrm, db.caches, v, asked);
    forall x | x in cells
      ensures CellAnswers(osrm, db.caches, x, v)
    {
      FetchedOf(osrm, db.caches, v, asked, x);
      RoundTwice(Table(osrm, db.caches, v, x.pair).value.metres);
      RoundTwice(Table(osrm, db.caches, v, x.pair).value.seconds);
    }
    forall k | k in refused
      ensures PairUnroutable(osrm, db.caches, k, v)
    {
      RefusedOf(osrm, db.caches, v, asked, k);
    }
    hide *;
    MatrixCellsStayConsistent(osrm, db, cells, v);
    NorouteCellsStayConsistent(osrm, db.(legs := UpsertMatrixCells(db.legs, cells, v)), refused, v);
  }

  lemma MatrixStepStaysConsistent(osrm: Osrm, db: Db, owner: string, cacheIds: seq<int>, v: Version)
    requires Consistent(osrm, db)
    ensures Consistent(osrm, MatrixStep(osrm, db, owner, cacheIds, v))
  {
    hide Consistent, StoreAnswers;
    var ids := Unique(cacheIds);
    if NotOwned(db.caches, owner, ids) == [] {
      AskedKnown(db, owner, ids, v);
      StoringStaysConsistent(osrm, db, v, Asked(db, ids, v));
    }
  }

  // ----- Asking again -----

  /** The router has a route whose pace no walker could keep; such a cell is never stored. */
  predicate TooOddToStore(osrm: Osrm, c: Caches, v: Version, k: Pair)
    requires Known(c, k)
  {
    var cell := RoundedCell(Table(osrm, c, v, k));
    cell.Some? && !Walkable(cell.value.metres, cell.value.seconds)
  }

  lemma StoredUnlessOdd(osrm: Osrm, db: Db, v: Version, asked: seq<Pair>, k: Pair)
    requires AllKnown(db.caches, asked) && k in asked && !Live(db.legs, k, v)
    ensures Live(StoreAnswers(osrm, db, v, asked), k, v) <==> !TooOddToStore(osrm, db.caches, v, k)
  {
    hide IsImpossibleSpeed, Walkable, Round2, UpsertMatrixCells, UpsertNorouteCells, Fetched, Refused;
    var cells, refused := Fetched(osrm, db.caches, v, asked), Refused(osrm, db.caches, v, asked);
    var middle := UpsertMatrixCells(db.legs, cells, v);
    UpsertMatrixCellsFacts(db.legs, cells, v);
    UpsertNorouteCellsFacts(middle, refused, v);
    RefusedOf(osrm, db.caches, v, asked, k);
    if Table(osrm, db.caches, v, k).Some? {
      var x := FetchedInput(osrm, db.caches, v, k);
      FetchedOf(osrm, db.caches, v, asked, x);
      GuardedIsWalkable(x.metres, x.seconds);
      assert !TooOddToStore(osrm, db.caches, v, k) ==> Live(middle, k, v);
      if Live(middle, k, v) {
        assert CellFor(cells, k, middle[k], v);
        var y :| y in cells && y.pair == k && !IsImpossibleSpeed(y.metres, y.seconds) && middle[k] == CellRow(y, v);
        FetchedOf(osrm, db.caches, v, asked, y);
      }
    }
  }

  lemma LiveStaysLive(osrm: Osrm, db: Db, v: Version, asked: seq<Pair>, k: Pair)
    requires AllKnown(db.caches, asked) && Live(db.legs, k, v)
    ensures Live(StoreAnswers(osrm, db, v, asked), k, v) && StoreAnswers(osrm, db, v, asked)[k] == db.legs[k]
  {
    hide UpsertMatrixCells, UpsertNorouteCells, Fetched, Refused, CellFor;
    var cells, refused := Fetched(osrm, db.caches, v, asked), Refused(osrm, db.caches, v, asked);
    UpsertMatrixCellsFacts(db.legs, cells, v);
    UpsertNorouteCellsFacts(UpsertMatrixCells(db.legs, cells, v), refused, v);
  }

  /** An immediate repeat asks exactly about the pairs whose cell was too odd to store. */
  lemma RepeatAsksOnlyOddPairs(osrm: Osrm, db: Db, owner: string, cacheIds: seq<int>, v: Version, k: Pair)
    requires NotOwned(db.caches, owner, Unique(cacheIds)) == []
    ensures AllKnown(db.caches, Asked(db, Unique(cacheIds), v))
    ensures var ids := Unique(cacheIds);
      k in Asked(MatrixStep(osrm, db, owner, cacheIds, v), ids, v)
      <==> k in Asked(db, ids, v) && TooOddToStore(osrm, db.caches, v, k)
  {
    hide TooOddToStore, StoreAnswers, AllPairs, Missing, Live, Unique, NotOwned;
    var ids := Unique(cacheIds);
    var after := MatrixStep(osrm, db, owner, cacheIds, v);
    AskedKnown(db, owner, ids, v);
    MissingOf(db.legs, v, AllPairs(ids, ids), k);
    MissingOf(after.legs, v, AllPairs(ids, ids), k);
    if Live(db.legs, k, v) {
      LiveStaysLive(osrm, db, v, Asked(db, ids, v), k);
    } else if k in AllPairs(ids, ids) {
      StoredUnlessOdd(osrm, db, v, Asked(db, ids, v), k);
    }
  }
}
