/**
 The cache table and the leg table together, and when the cached legs are right.

 The router is a function of the extract version and the two coordinates. What it answers for a
 pair it answers through either endpoint: the table endpoint (distance and duration) or the route
 endpoint (the same and a geometry).
 */
module WalkingCache {
  import opened Options
  import opened LegTable
  import opened CacheTable

  datatype Cell = Cell(metres: real, seconds: real)

  datatype Path = Path(metres: real, seconds: real, geometry: Geometry)

  datatype Osrm = Osrm(table: (Version, Coord, Coord) -> Option<Cell>, route: (Version, Coord, Coord) -> Option<Path>)

  predicate SameAnswer(t: Option<Cell>, r: Option<Path>) {
    if t.Some? && r.Some? then
      && t.value.metres >= 0.0 && t.value.seconds >= 0.0
      && Round2(t.value.metres) == Round2(r.value.metres) && Round2(t.value.seconds) == Round2(r.value.seconds)
    else t == None && r == None
  }

  /** Both endpoints agree to two decimals, and nothing is negative. */
  ghost predicate Agreeing(osrm: Osrm) {
    forall v, a, b :: SameAnswer(osrm.table(v, a, b), osrm.route(v, a, b))
  }

  datatype Db = Db(caches: Caches, legs: Legs)

  /** The row is what the router of its version answers between the two coordinates. */
  predicate RowAgrees(osrm: Osrm, row: LegRow, a: Coord, b: Coord) {
    match row.source
    case FromRoute =>
      var path := osrm.route(row.version, a, b);
      && path.Some?
      && row.metres == Some(Round2(path.value.metres)) && row.seconds == Some(Round2(path.value.seconds))
      && row.geom == Some(path.value.geometry)
    case FromTable =>
      var cell := osrm.table(row.version, a, b);
      && cell.Some?
      && row.metres == Some(Round2(cell.value.metres)) && row.seconds == Some(Round2(cell.value.seconds))
      && row.geom == None
    case NoRoute => osrm.table(row.version, a, b) == None && row == NoRouteRow(row.version)
  }

  predicate Known(c: Caches, pair: Pair) {
    pair.0 in c.rows && pair.1 in c.rows
  }

  predicate PairAgrees(osrm: Osrm, db: Db, k: Pair)
    requires k in db.legs
  {
    Known(db.caches, k) && RowAgrees(osrm, db.legs[k], db.caches.rows[k.0].location, db.caches.rows[k.1].location)
  }

  /** Every row, of whatever version, is right for where its two caches are now. */
  ghost predicate Consistent(osrm: Osrm, db: Db) {
    forall k | k in db.legs :: PairAgrees(osrm, db, k)
  }

  // ----- Storing answers -----

  /** The cell is the table's answer for its pair, with or without its two decimals cut already. */
  predicate CellAnswers(osrm: Osrm, c: Caches, x: CellInput, v: Version) {
    && Known(c, x.pair)
    && var cell := osrm.table(v, c.rows[x.pair.0].location, c.rows[x.pair.1].location);
       && cell.Some?
       && Numeric(x.metres) == Round2(cell.value.metres) && Numeric(x.seconds) == Round2(cell.value.seconds)
  }

  predicate PairUnroutable(osrm: Osrm, c: Caches, pair: Pair, v: Version) {
    Known(c, pair) && osrm.table(v, c.rows[pair.0].location, c.rows[pair.1].location) == None
  }

  lemma CellRowAgrees(osrm: Osrm, c: Caches, cells: seq<CellInput>, k: Pair, row: LegRow, v: Version)
    requires forall x | x in cells :: CellAnswers(osrm, c, x, v)
    requires CellFor(cells, k, row, v)
    ensures Known(c, k) && RowAgrees(osrm, row, c.rows[k.0].location, c.rows[k.1].location)
  {
    hide IsImpossibleSpeed, Numeric, Round2;
    var x :| x in cells && x.pair == k && !IsImpossibleSpeed(x.metres, x.seconds) && row == CellRow(x, v);
    assert CellAnswers(osrm, c, x, v);
  }

  lemma MatrixCellsStayConsistent(osrm: Osrm, db: Db, cells: seq<CellInput>, v: Version)
    requires Consistent(osrm, db)
    requires forall x | x in cells :: CellAnswers(osrm, db.caches, x, v)
    ensures Consistent(osrm, db.(legs := UpsertMatrixCells(db.legs, cells, v)))
  {
    hide UpsertMatrixCells, RowAgrees, CellAnswers, CellFor;
    var after := UpsertMatrixCells(db.legs, cells, v);
    UpsertMatrixCellsFacts(db.legs, cells, v);
    forall k | k in after
      ensures PairAgrees(osrm, db.(legs := after), k)
    {
      if Kept(db.legs, after, k) {
        assert PairAgrees(osrm, db, k);
      } else {
        CellRowAgrees(osrm, db.caches, cells, k, after[k], v);
      }
    }
  }

  lemma NorouteCellsStayConsistent(osrm: Osrm, db: Db, pairs: seq<Pair>, v: Version)
    requires Consistent(osrm, db)
    requires forall k | k in pairs :: PairUnroutable(osrm, db.caches, k, v)
    ensures Consistent(osrm, db.(legs := UpsertNorouteCells(db.legs, pairs, v)))
  {
    hide UpsertNorouteCells;
    var after := UpsertNorouteCells(db.legs, pairs, v);
    UpsertNorouteCellsFacts(db.legs, pairs, v);
    forall k | k in after
      ensures PairAgrees(osrm, db.(legs := after), k)
    {
      if Kept(db.legs, after, k) {
        assert PairAgrees(osrm, db, k);
      } else {
        assert k in pairs && PairUnroutable(osrm, db.caches, k, v);
      }
    }
  }

  // ----- Moving caches -----

  function WithoutTouching(legs: Legs, ids: set<int>): Legs {
    map k | k in legs && k.0 !in ids && k.1 !in ids :: legs[k]
  }

  function UploadStep(db: Db, moved: Moved, u: Upload): Db {
    var after := UploadAll(db.caches, moved, u);
    Db(after.caches, WithoutTouching(db.legs, after.relocated))
  }

  function ClearSolvedStep(db: Db, owner: string, id: int): Db {
    if Clearable(db.caches, owner, id) then Db(Clear(db.caches, owner, id), WithoutTouching(db.legs, {id})) else db
  }

  /** The entry is for cache `id`, is fresh, may move it, and does so by more than a metre. */
  predicate MovesFar(c: Caches, moved: Moved, u: Upload, p: ParsedCache, id: int) {
    && (u.owner, p.sourceId) in c.index && c.index[(u.owner, p.sourceId)] == id && id in c.rows
    && var row := c.rows[id];
       && moved(row.location, p.location) > 1.0
       && (u.markSolved || !row.solved)
       && (u.markSolved || row.exportedAt == None || u.exportedAt == None
           || u.exportedAt.value >= row.exportedAt.value)
  }

  /** An upload reports exactly the caches some entry moves far. */
  lemma {:induction false} ReportedExactly(c: Caches, moved: Moved, u: Upload, count: nat, id: int)
    requires count <= |u.caches|
    ensures id in UploadFirst(c, moved, u, count).relocated
       <==> exists i | 0 <= i < count :: MovesFar(c, moved, u, u.caches[i], id)
  {
    hide Upsert;
    if count > 0 {
      ReportedExactly(c, moved, u, count - 1, id);
      var p := u.caches[count - 1];
      assert MovesFar(c, moved, u, p, id)
        <==> !IsStale(c, u, p) && Relocates(c, moved, u, p) && Existing(c, u, p).value == id;
    }
  }

  /** An upload deletes the legs of exactly the caches it moves far; a cache written where it was keeps its own. */
  lemma UploadedLegs(db: Db, moved: Moved, u: Upload, k: Pair)
    ensures var after := UploadStep(db, moved, u).legs;
      && (k in after <==> k in db.legs && forall i | 0 <= i < |u.caches| ::
            !MovesFar(db.caches, moved, u, u.caches[i], k.0) && !MovesFar(db.caches, moved, u, u.caches[i], k.1))
      && (k in after ==> after[k] == db.legs[k])
  {
    hide UploadFirst, MovesFar;
    ReportedExactly(db.caches, moved, u, |u.caches|, k.0);
    ReportedExactly(db.caches, moved, u, |u.caches|, k.1);
  }

  /** The write leaves a known cache where it is, or moves it by more than a metre. */
  predicate StaysOrRelocates(c: Caches, moved: Moved, u: Upload, p: ParsedCache) {
    Existing(c, u, p).Some? && !IsStale(c, u, p) && WritesLocation(c, u, p) ==>
      || p.location == c.rows[Existing(c, u, p).value].location
      || moved(c.rows[Existing(c, u, p).value].location, p.location) > 1.0
  }

  predicate InPlace(c: Caches, after: Uploaded, id: int) {
    id in c.rows ==>
      id in after.relocated || (id in after.caches.rows && after.caches.rows[id].location == c.rows[id].location)
  }

  lemma UpsertInPlace(c: Caches, moved: Moved, u: Upload, below: Uploaded, p: ParsedCache, id: int)
    requires ValidCaches(c) && Uploading(c, below.caches, u) && StaysOrRelocates(c, moved, u, p) && !IsStale(c, u, p)
    requires InPlace(c, below, id)
    ensures InPlace(c, Uploaded(Upsert(below.caches, u, p, WritesLocation(c, u, p)),
                               if Relocates(c, moved, u, p) then below.relocated + {Existing(c, u, p).value}
                               else below.relocated), id)
  {
    var key := (u.owner, p.sourceId);
    assert key in c.index && c.index[key] == id <==> Existing(c, u, p) == Some(id);
  }

  lemma {:induction false} UploadInPlace(c: Caches, moved: Moved, u: Upload, count: nat, id: int)
    requires ValidCaches(c) && count <= |u.caches|
    requires forall p | p in u.caches :: StaysOrRelocates(c, moved, u, p)
    ensures InPlace(c, UploadFirst(c, moved, u, count), id)
  {
    hide StaysOrRelocates, IsStale, WritesLocation, Upsert, Relocates, ValidCaches, Uploading;
    if count > 0 {
      UploadInPlace(c, moved, u, count - 1, id);
      UploadKeepsValid(c, moved, u, count - 1);
      var below, p := UploadFirst(c, moved, u, count - 1), u.caches[count - 1];
      if !IsStale(c, u, p) {
        assert StaysOrRelocates(c, moved, u, p);
        UpsertInPlace(c, moved, u, below, p, id);
      }
    }
  }

  /** The upload reports every known cache whose location it changes. */
  ghost predicate ReportsMoves(c: Caches, moved: Moved, u: Upload) {
    forall id | id in c.rows :: InPlace(c, UploadAll(c, moved, u), id)
  }

  /** It does when every write moves its cache by nothing or by more than a metre. */
  lemma ClearMovesAreReported(c: Caches, moved: Moved, u: Upload)
    requires ValidCaches(c) && forall p | p in u.caches :: StaysOrRelocates(c, moved, u, p)
    ensures ReportsMoves(c, moved, u)
  {
    hide StaysOrRelocates, ValidCaches, InPlace, UploadFirst;
    forall id | id in c.rows
      ensures InPlace(c, UploadAll(c, moved, u), id)
    {
      UploadInPlace(c, moved, u, |u.caches|, id);
    }
  }

  lemma UploadStaysConsistent(osrm: Osrm, db: Db, moved: Moved, u: Upload)
    requires Consistent(osrm, db) && ReportsMoves(db.caches, moved, u)
    ensures Consistent(osrm, UploadStep(db, moved, u))
  {
    hide RowAgrees, UploadFirst;
    var after := UploadStep(db, moved, u);
    forall k | k in after.legs
      ensures PairAgrees(osrm, after, k)
    {
      assert PairAgrees(osrm, db, k);
      assert InPlace(db.caches, UploadAll(db.caches, moved, u), k.0);
      assert InPlace(db.caches, UploadAll(db.caches, moved, u), k.1);
    }
  }

  lemma ClearSolvedStaysConsistent(osrm: Osrm, db: Db, owner: string, id: int)
    requires Consistent(osrm, db) && ValidCaches(db.caches)
    ensures Consistent(osrm, ClearSolvedStep(db, owner, id)) && ValidCaches(ClearSolvedStep(db, owner, id).caches)
    ensures id in db.caches.rows && db.caches.rows[id].owner == owner && db.caches.rows[id].solved ==>
      forall k | k in db.legs && k.0 != id && k.1 != id ::
        k in ClearSolvedStep(db, owner, id).legs && ClearSolvedStep(db, owner, id).legs[k] == db.legs[k]
  {
    hide RowAgrees, WellIndexed, UnsolvedAtPosted;
    ClearKeepsValid(db.caches, owner, id);
    var after := ClearSolvedStep(db, owner, id);
    forall k | k in after.legs
      ensures PairAgrees(osrm, after, k)
    {
      assert PairAgrees(osrm, db, k);
    }
  }

  /**
   The condition on uploads is needed, for files of any size: when a file moves a cache without
   reporting it, there is a router and a correct leg from that cache to any other one not reported
   that the upload leaves standing and wrong.
   */
  lemma SmallMoveKeepsWrongLeg(c: Caches, moved: Moved, u: Upload, id: int, other: int) returns (osrm: Osrm, legs: Legs)
    requires ValidCaches(c) && !InPlace(c, UploadAll(c, moved, u), id)
    requires other in c.rows && other != id && other !in UploadAll(c, moved, u).relocated
    ensures Agreeing(osrm) && Consistent(osrm, Db(c, legs)) && !Consistent(osrm, UploadStep(Db(c, legs), moved, u))
  {
    var home := c.rows[id].location;
    osrm := Osrm((v, a, b) => if a == home then Some(Cell(100.0, 100.0)) else None,
                 (v, a, b) => if a == home then Some(Path(100.0, 100.0, [])) else None);
    legs := map[(id, other) := LegRow(FromTable, Some(100.0), Some(100.0), None, "v")];
    assert Round2(100.0) == 100.0;
    assert PairAgrees(osrm, Db(c, legs), (id, other));
    UploadKeepsValid(c, moved, u, |u.caches|);
    hide UploadFirst;
    var after := UploadStep(Db(c, legs), moved, u);
    assert (id, other) in after.legs && after.caches.rows[id].location != home;
    assert !PairAgrees(osrm, after, (id, other));
  }

  /** Uploads are safe, whatever the router and the correct legs, exactly when they report every move. */
  lemma SafeExactlyWhenReported(c: Caches, moved: Moved, u: Upload, a: int, b: int)
    requires ValidCaches(c) && a != b && a in c.rows && b in c.rows
    requires a !in UploadAll(c, moved, u).relocated && b !in UploadAll(c, moved, u).relocated
    ensures (forall osrm: Osrm, legs: Legs | Agreeing(osrm) && Consistent(osrm, Db(c, legs)) ::
               Consistent(osrm, UploadStep(Db(c, legs), moved, u)))
      <==> ReportsMoves(c, moved, u)
  {
    hide Agreeing, Consistent, UploadStep, InPlace, ValidCaches, UploadFirst;
    if ReportsMoves(c, moved, u) {
      forall osrm: Osrm, legs: Legs | Agreeing(osrm) && Consistent(osrm, Db(c, legs))
        ensures Consistent(osrm, UploadStep(Db(c, legs), moved, u))
      {
        UploadStaysConsistent(osrm, Db(c, legs), moved, u);
      }
    } else {
      var id :| id in c.rows && !InPlace(c, UploadAll(c, moved, u), id);
      var osrm, legs := SmallMoveKeepsWrongLeg(c, moved, u, id, if id == a then b else a);
    }
  }

  /** An entry that moves its cache a little, alone in its file, is such a case. */
  lemma SmallMoveIsNotReported(c: Caches, moved: Moved, u: Upload, p: ParsedCache)
    requires ValidCaches(c) && u.caches == [p] && !StaysOrRelocates(c, moved, u, p)
    ensures !InPlace(c, UploadAll(c, moved, u), Existing(c, u, p).value)
  {
    assert UploadFirst(c, moved, u, 0) == Uploaded(c, {});
  }
}
