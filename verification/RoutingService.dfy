/** The lookups as the service runs them: read the table, ask the router for the rest, write it back. */
module RoutingService {
  import opened Lists
  import opened Options
  import opened LegTable
  import opened CacheTable
  import opened WalkingCache
  import opened LegLookups
  import opened Store

  datatype MatrixReply = CachesNotFound(missing: seq<int>) | Matrix(cacheIds: seq<int>, legs: seq<seq<Option<Cell>>>)

  /** The rows found for these pairs, in some order. */
  function FindMatrixCells(legs: Legs, pairs: seq<Pair>, v: Version): seq<(Pair, FoundCell)> {
    if pairs == [] then []
    else
      var below, k := FindMatrixCells(legs, pairs[..|pairs| - 1], v), pairs[|pairs| - 1];
      var found := FindMatrixCell(legs, k, v);
      if found.Some? then below + [(k, found.value)] else below
  }

  /** The service's working state: cells it has, pairs known to have no route. */
  datatype Cells = Cells(cellMap: map<Pair, Cell>, noRoute: set<Pair>)

  function Entry(cells: Cells, k: Pair): Option<Cell> {
    if k in cells.cellMap then Some(cells.cellMap[k]) else None
  }

  predicate Settled(cells: Cells, k: Pair) {
    k in cells.cellMap || k in cells.noRoute
  }

  /** Pair `k` has its final entry, or is waiting for the router. */
  predicate InState(cells: Cells, k: Pair, settled: bool, goal: Option<Cell>) {
    Settled(cells, k) == settled && Entry(cells, k) == if settled then goal else None
  }

  lemma {:induction false} FoundCells(legs: Legs, pairs: seq<Pair>, v: Version, k: Pair, found: FoundCell)
    ensures (k, found) in FindMatrixCells(legs, pairs, v) <==> k in pairs && FindMatrixCell(legs, k, v) == Some(found)
    decreases |pairs|
  {
    if pairs != [] {
      assert pairs == pairs[..|pairs| - 1] + [pairs[|pairs| - 1]];
      FoundCells(legs, pairs[..|pairs| - 1], v, k, found);
    }
  }

  function PairsTo(from: int, tos: seq<int>): seq<Pair> {
    seq(|tos|, j requires 0 <= j < |tos| => (from, tos[j]))
  }

  /** The first row of the table endpoint's reply, after the origin itself. */
  function TableRow(osrm: Osrm, v: Version, origin: Coord, dests: seq<Coord>): seq<Option<Cell>> {
    seq(|dests|, j requires 0 <= j < |dests| => osrm.table(v, origin, dests[j]))
  }

  lemma {:induction false} FetchedConcat(osrm: Osrm, c: Caches, v: Version, a: seq<Pair>, b: seq<Pair>)
    requires AllKnown(c, a) && AllKnown(c, b)
    ensures AllKnown(c, a + b)
    ensures Fetched(osrm, c, v, a + b) == Fetched(osrm, c, v, a) + Fetched(osrm, c, v, b)
    ensures Refused(osrm, c, v, a + b) == Refused(osrm, c, v, a) + Refused(osrm, c, v, b)
    decreases |b|
  {
    hide Round2;
    if b == [] {
      assert a + b == a;
    } else {
      assert (a + b)[..|a + b| - 1] == a + b[..|b| - 1];
      FetchedConcat(osrm, c, v, a, b[..|b| - 1]);
    }
  }

  /** Every pair from `from` is as the table left it. */
  ghost predicate RowPending(osrm: Osrm, db: Db, v: Version, cells: Cells, from: int, ids: seq<int>)
    requires forall id | id in ids :: id in db.caches.rows
    requires from in ids
  {
    forall to | to in ids && to != from ::
      InState(cells, (from, to), Live(db.legs, (from, to), v), MatrixCell(osrm, db, v, (from, to)))
  }

  ghost predicate RowSettled(osrm: Osrm, db: Db, v: Version, cells: Cells, from: int, ids: seq<int>)
    requires forall id | id in ids :: id in db.caches.rows
    requires from in ids
  {
    forall to | to in ids && to != from :: InState(cells, (from, to), true, MatrixCell(osrm, db, v, (from, to)))
  }

  predicate SameAt(cells: Cells, cells': Cells, k: Pair) {
    Settled(cells', k) == Settled(cells, k) && Entry(cells', k) == Entry(cells, k)
  }

  lemma NoneMissingYet(legs: Legs, v: Version, from: int)
    ensures Missing(legs, v, RowPairs(from, [])) == [] && Distinct([])
  {
  }

  lemma OneMoreMissing(legs: Legs, v: Version, from: int, ids: seq<int>, i: nat)
    requires Distinct(ids) && i < |ids|
    ensures ids[i] !in ids[..i] && ids[i] in ids
    ensures Missing(legs, v, RowPairs(from, ids[..i + 1]))
         == Missing(legs, v, RowPairs(from, ids[..i]))
            + if ids[i] != from && !Live(legs, (from, ids[i]), v) then [(from, ids[i])] else []
  {
    assert ids[..i + 1][..i] == ids[..i];
    var row := RowPairs(from, ids[..i]);
    assert (row + [(from, ids[i])])[..|row|] == row;
  }

  function Coordinate(coords: map<int, Coord>, id: int): Coord {
    if id in coords then coords[id] else Coord(0.0, 0.0)
  }

  lemma NothingAsked(osrm: Osrm, c: Caches, v: Version, pairs: seq<Pair>)
    requires pairs == []
    ensures Fetched(osrm, c, v, pairs) == [] && Refused(osrm, c, v, pairs) == []
  {
  }

  /** Records the router's answer for a pair. */
  function Put(cells: Cells, k: Pair, cell: Option<Cell>): Cells {
    if cell.Some? then cells.(cellMap := cells.cellMap[k := cell.value]) else cells.(noRoute := cells.noRoute + {k})
  }

  lemma PutFacts(cells: Cells, k: Pair, cell: Option<Cell>)
    requires !Settled(cells, k)
    ensures InState(Put(cells, k, cell), k, true, cell)
    ensures forall k' | k' != k :: Settled(Put(cells, k, cell), k') == Settled(cells, k')
    ensures forall k' | k' != k :: Entry(Put(cells, k, cell), k') == Entry(cells, k')
  {
  }

  /** The reply answers for the destinations one by one. */
  ghost predicate ReplyFor(osrm: Osrm, c: Caches, v: Version, from: int, missing: seq<int>, row0: seq<Option<Cell>>) {
    && |row0| == |missing| && AllKnown(c, PairsTo(from, missing))
    && forall j | 0 <= j < |missing| ::
      Known(c, (from, missing[j])) && row0[j] == Table(osrm, c, v, (from, missing[j]))
  }

  ghost predicate SameOutside(cells: Cells, cells': Cells, from: int) {
    forall k: Pair | k.0 != from :: SameAt(cells, cells', k)
  }

  ghost predicate AllStored(c: Caches, ids: seq<int>) {
    forall id | id in ids :: id in c.rows
  }

  /** The first `n` origins have all their entries; the others are as the table left them. */
  ghost predicate Progress(osrm: Osrm, db: Db, v: Version, cells: Cells, ids: seq<int>, n: nat)
    requires AllStored(db.caches, ids) && n <= |ids|
  {
    forall from, to | from in ids && to in ids && from != to ::
      InState(cells, (from, to), from in ids[..n] || Live(db.legs, (from, to), v), MatrixCell(osrm, db, v, (from, to)))
  }

  lemma NextIsPending(osrm: Osrm, db: Db, v: Version, cells: Cells, ids: seq<int>, n: nat)
    requires AllStored(db.caches, ids) && n < |ids| && Distinct(ids) && Progress(osrm, db, v, cells, ids, n)
    ensures RowPending(osrm, db, v, cells, ids[n], ids)
  {
    hide InState, Live, MatrixCell;
    assert ids[n] in ids && ids[n] !in ids[..n];
  }

  lemma RowMakesProgress(osrm: Osrm, db: Db, v: Version, cells: Cells, cells': Cells, ids: seq<int>, n: nat)
    requires AllStored(db.caches, ids) && n < |ids| && Progress(osrm, db, v, cells, ids, n)
    requires RowSettled(osrm, db, v, cells', ids[n], ids) && SameOutside(cells, cells', ids[n])
    ensures Progress(osrm, db, v, cells', ids, n + 1)
  {
    hide Live, MatrixCell, Settled, Entry;
    assert ids[..n + 1] == ids[..n] + [ids[n]];
    forall from, to | from in ids && to in ids && from != to
      ensures InState(cells', (from, to), from in ids[..n + 1] || Live(db.legs, (from, to), v),
                      MatrixCell(osrm, db, v, (from, to)))
    {
      if from != ids[n] { assert SameAt(cells, cells', (from, to)); }
    }
  }

  /** The pairs asked for by the first `n` origins. */
  function AskedFirst(db: Db, ids: seq<int>, v: Version, n: nat): seq<Pair>
    requires n <= |ids|
  {
    Missing(db.legs, v, AllPairs(ids[..n], ids))
  }

  lemma AskedNext(db: Db, ids: seq<int>, v: Version, n: nat)
    requires n < |ids|
    ensures AskedFirst(db, ids, v, n + 1) == AskedFirst(db, ids, v, n) + Missing(db.legs, v, RowPairs(ids[n], ids))
  {
    hide Missing, RowPairs;
    assert ids[..n + 1][..n] == ids[..n];
    MissingConcat(db.legs, v, AllPairs(ids[..n], ids), RowPairs(ids[n], ids));
  }

  lemma NoneAskedYet(osrm: Osrm, db: Db, ids: seq<int>, v: Version)
    ensures AskedFirst(db, ids, v, 0) == [] && AllKnown(db.caches, [])
    ensures Fetched(osrm, db.caches, v, []) == [] && Refused(osrm, db.caches, v, []) == []
  {
  }

  lemma AskedAll(db: Db, ids: seq<int>, v: Version)
    ensures AskedFirst(db, ids, v, |ids|) == Asked(db, ids, v)
  {
    assert ids[..|ids|] == ids;
  }

  /** What the lookup found in the table is the state before the first origin. */
  ghost predicate AsCached(db: Db, v: Version, cells: Cells, pairs: seq<Pair>) {
    forall k | k in pairs ::
      InState(cells, k, Live(db.legs, k, v),
              if Live(db.legs, k, v) then FoundAsCell(FindMatrixCell(db.legs, k, v).value) else None)
  }

  lemma CachedIsProgress(osrm: Osrm, db: Db, v: Version, cells: Cells, ids: seq<int>, pairs: seq<Pair>)
    requires AllStored(db.caches, ids) && pairs == AllPairs(ids, ids) && AsCached(db, v, cells, pairs)
    ensures Progress(osrm, db, v, cells, ids, 0)
  {
    hide Round2, Settled, Entry;
    forall from, to | from in ids && to in ids && from != to
      ensures InState(cells, (from, to), Live(db.legs, (from, to), v), MatrixCell(osrm, db, v, (from, to)))
    {
      AllPairsOf(ids, ids, (from, to));
    }
  }

  lemma NoIdsNoChange(osrm: Osrm, db: Db, owner: string, cacheIds: seq<int>, v: Version)
    requires Unique(cacheIds) == []
    ensures MatrixStep(osrm, db, owner, cacheIds, v) == db
    ensures NotOwned(db.caches, owner, []) == [] && Asked(db, [], v) == []
  {
    assert Asked(db, [], v) == [];
  }

  /** The reply holds, for every two ids, the cell the lookup promises. */
  ghost predicate IsMatrix(osrm: Osrm, db: Db, v: Version, ids: seq<int>, legs: seq<seq<Option<Cell>>>) {
    |legs| == |ids| && forall i | 0 <= i < |ids| :: IsRow(osrm, db, v, ids[i], ids, legs[i])
  }

  ghost predicate IsRow(osrm: Osrm, db: Db, v: Version, from: int, ids: seq<int>, row: seq<Option<Cell>>) {
    && |row| == |ids|
    && forall j | 0 <= j < |ids| ::
      Known(db.caches, (from, ids[j])) && row[j] == MatrixCell(osrm, db, v, (from, ids[j]))
  }

  /** On right tables every entry of the matrix is the router's answer to within half a hundredth. */
  lemma MatrixIsNear(osrm: Osrm, db: Db, v: Version, ids: seq<int>, legs: seq<seq<Option<Cell>>>, i: nat, j: nat)
    requires IsMatrix(osrm, db, v, ids, legs) && i < |ids| && j < |ids|
    requires Consistent(osrm, db) && Agreeing(osrm)
    ensures |legs| == |ids| && |legs[i]| == |ids| && ids[i] in db.caches.rows && ids[j] in db.caches.rows
    ensures if ids[i] == ids[j] then legs[i][j] == Some(Cell(0.0, 0.0))
            else CellIsNear(legs[i][j], osrm.table(v, db.caches.rows[ids[i]].location, db.caches.rows[ids[j]].location))
  {
    hide MatrixCell, RoundedCell, CellIsNear, Agreeing, Consistent;
    var k := (ids[i], ids[j]);
    assert IsRow(osrm, db, v, ids[i], ids, legs[i]);
    CellIsLive(osrm, db, v, k);
    RoundedCellIsNear(Table(osrm, db.caches, v, k));
  }

  function RowOf(cells: Cells, from: int, ids: seq<int>): seq<Option<Cell>> {
    seq(|ids|, j requires 0 <= j < |ids| =>
      if from == ids[j] then Some(Cell(0.0, 0.0)) else Entry(cells, (from, ids[j])))
  }

  lemma RowIsRight(osrm: Osrm, db: Db, v: Version, cells: Cells, ids: seq<int>, i: nat)
    requires AllStored(db.caches, ids) && i < |ids| && Progress(osrm, db, v, cells, ids, |ids|)
    ensures IsRow(osrm, db, v, ids[i], ids, RowOf(cells, ids[i], ids))
  {
    hide Round2, Entry, Settled, FindMatrixCell;
    assert ids[i] in ids && ids[..|ids|] == ids;
    forall j | 0 <= j < |ids|
      ensures Known(db.caches, (ids[i], ids[j]))
      ensures RowOf(cells, ids[i], ids)[j] == MatrixCell(osrm, db, v, (ids[i], ids[j]))
    {
      assert ids[j] in ids;
      if ids[i] != ids[j] {
        assert InState(cells, (ids[i], ids[j]), true, MatrixCell(osrm, db, v, (ids[i], ids[j])));
      }
    }
  }

  class Service {
    const store: Tables
    const osrm: Osrm
    var version: Version
    /** The pairs the router's table endpoint was asked about, ever. */
    ghost var asked: seq<Pair>

    constructor (store: Tables, osrm: Osrm, version: Version)
      ensures this.store == store && this.osrm == osrm && this.version == version && asked == []
    {
      this.store, this.osrm, this.version, this.asked := store, osrm, version, [];
    }

    method CoordMap(owner: string, cacheIds: seq<int>) returns (missing: seq<int>, coords: map<int, Coord>)
      ensures missing == NotOwned(store.caches, owner, cacheIds)
      ensures forall id | id in cacheIds && Owns(store.caches, owner, id) ::
        id in coords && coords[id] == store.caches.rows[id].location
    {
      missing, coords := [], map[];
      for i := 0 to |cacheIds|
        invariant missing == NotOwned(store.caches, owner, cacheIds[..i])
        invariant forall id | id in cacheIds[..i] && Owns(store.caches, owner, id) ::
          id in coords && coords[id] == store.caches.rows[id].location
      {
        assert cacheIds[..i + 1][..i] == cacheIds[..i];
        var id := cacheIds[i];
        if id in store.caches.rows && store.caches.rows[id].owner == owner {
          coords := coords[id := store.caches.rows[id].location];
        } else {
          missing := missing + [id];
        }
      }
      assert cacheIds[..|cacheIds|] == cacheIds;
    }

    method GetLeg(owner: string, from: int, to: int) returns (reply: LegReply)
      modifies store`legs
      ensures reply == LegAnswer(osrm, old(store.Contents()), owner, from, to, version)
      ensures store.Contents() == LegStep(osrm, old(store.Contents()), owner, from, to, version)
    {
      hide Round2, Numeric;
      var missing, coords := CoordMap(owner, [from, to]);
      assert OwnsBoth(store.caches, owner, from, to) <==> missing == [] by {
        assert from in [from, to] && to in [from, to];
      }
      if missing != [] { return NotFound(missing); }
      assert from in [from, to] && to in [from, to];
      if from == to { return Leg(0.0, 0.0, [coords[from], coords[from]]); }
      var cached := FindLeg(store.legs, (from, to), version);
      if cached.Some? { return Leg(cached.value.metres, cached.value.seconds, cached.value.geometry); }
      var answer := osrm.route(version, coords[from], coords[to]);
      if answer == None { return Unroutable; }
      var metres, seconds := Round2(answer.value.metres), Round2(answer.value.seconds);
      store.UpsertLegs([RouteInput((from, to), metres, seconds, answer.value.geometry)], version);
      reply := Leg(metres, seconds, answer.value.geometry);
    }

    method PairsOf(ids: seq<int>) returns (pairs: seq<Pair>)
      ensures pairs == AllPairs(ids, ids)
    {
      pairs := [];
      for i := 0 to |ids|
        invariant pairs == AllPairs(ids[..i], ids)
      {
        assert ids[..i + 1][..i] == ids[..i];
        ghost var before := pairs;
        for j := 0 to |ids|
          invariant pairs == before + RowPairs(ids[i], ids[..j])
        {
          assert ids[..j + 1][..j] == ids[..j];
          if ids[i] != ids[j] { pairs := pairs + [(ids[i], ids[j])]; }
        }
        assert ids[..|ids|] == ids;
      }
      assert ids[..|ids|] == ids;
    }

    method ReadCached(pairs: seq<Pair>) returns (cells: Cells)
      ensures AsCached(store.Contents(), version, cells, pairs)
    {
      var rows := FindMatrixCells(store.legs, pairs, version);
      cells := Cells(map[], {});
      for i := 0 to |rows|
        invariant forall k | Settled(cells, k) :: k in pairs && Live(store.legs, k, version)
        invariant forall k | Settled(cells, k) ::
          Entry(cells, k) == FoundAsCell(FindMatrixCell(store.legs, k, version).value)
        invariant forall j | 0 <= j < i :: Settled(cells, rows[j].0)
      {
        var k, found := rows[i].0, rows[i].1;
        FoundCells(store.legs, pairs, version, k, found);
        assert rows[i] == (k, found) && rows[i] in rows;
        if found.noroute {
          cells := cells.(noRoute := cells.noRoute + {k});
        } else {
          cells := cells.(cellMap := cells.cellMap[k := Cell(found.metres, found.seconds)]);
        }
      }
      forall k | k in pairs && Live(store.legs, k, version)
        ensures Settled(cells, k)
      {
        var found := FindMatrixCell(store.legs, k, version).value;
        FoundCells(store.legs, pairs, version, k, found);
        var j :| 0 <= j < |rows| && rows[j] == (k, found);
      }
    }

    /** The destinations of one origin that are neither cached nor known to be unroutable. */
    method MissingFrom(from: int, ids: seq<int>, cells: Cells) returns (missing: seq<int>)
      requires forall to | to in ids && to != from ::
        Settled(cells, (from, to)) == Live(store.legs, (from, to), version)
      requires Distinct(ids)
      ensures PairsTo(from, missing) == Missing(store.legs, version, RowPairs(from, ids))
      ensures Distinct(missing)
      ensures forall to :: to in missing <==> to in ids && to != from && !Settled(cells, (from, to))
    {
      hide Settled, Live, Distinct, RowPairs, Missing;
      missing := [];
      NoneMissingYet(store.legs, version, from);
      for i := 0 to |ids|
        invariant Distinct(missing)
        invariant PairsTo(from, missing) == Missing(store.legs, version, RowPairs(from, ids[..i]))
        invariant forall to :: to in missing <==> to in ids[..i] && to != from && !Settled(cells, (from, to))
      {
        assert ids[..i + 1] == ids[..i] + [ids[i]];
        OneMoreMissing(store.legs, version, from, ids, i);
        if ids[i] != from && !Settled(cells, (from, ids[i])) {
          assert PairsTo(from, missing + [ids[i]]) == PairsTo(from, missing) + [(from, ids[i])];
          DistinctAppend(missing, ids[i]);
          missing := missing + [ids[i]];
        }
      }
      assert ids[..|ids|] == ids;
    }

    /** Takes in the router's reply for one origin, cell by cell. */
    method TakeRow(from: int, missing: seq<int>, row0: seq<Option<Cell>>, cells: Cells, ghost c: Caches)
      returns (cells': Cells, toPersist: seq<CellInput>, refused: seq<Pair>)
      requires Distinct(missing) && ReplyFor(osrm, c, version, from, missing, row0)
      requires forall to | to in missing :: !Settled(cells, (from, to))
      ensures toPersist == Fetched(osrm, c, version, PairsTo(from, missing))
      ensures refused == Refused(osrm, c, version, PairsTo(from, missing))
      ensures forall j | 0 <= j < |missing| :: InState(cells', (from, missing[j]), true, RoundedCell(row0[j]))
      ensures forall k: Pair | k.0 != from || k.1 !in missing :: SameAt(cells, cells', k)
    {
      hide Round2, Table, Settled, Entry, Put;
      cells', toPersist, refused := cells, [], [];
      ghost var pairs := PairsTo(from, missing);
      for j := 0 to |missing|
        invariant toPersist == Fetched(osrm, c, version, pairs[..j])
        invariant refused == Refused(osrm, c, version, pairs[..j])
        invariant forall i | 0 <= i < j :: InState(cells', (from, missing[i]), true, RoundedCell(row0[i]))
        invariant forall i | j <= i < |missing| :: !Settled(cells', (from, missing[i]))
        invariant forall k: Pair | k.0 != from || k.1 !in missing :: SameAt(cells, cells', k)
      {
        assert pairs[..j + 1][..j] == pairs[..j];
        var cell := RoundedCell(row0[j]);
        PutFacts(cells', (from, missing[j]), cell);
        cells' := Put(cells', (from, missing[j]), cell);
        if cell == None {
          refused := refused + [(from, missing[j])];
        } else {
          toPersist := toPersist + [CellInput((from, missing[j]), cell.value.metres, cell.value.seconds)];
        }
      }
      assert pairs[..|missing|] == pairs;
    }

    /** One request for everything missing from one origin. */
    method AskOrigin(from: int, ids: seq<int>, coords: map<int, Coord>, cells: Cells)
      returns (cells': Cells, toPersist: seq<CellInput>, refused: seq<Pair>)
      requires from in ids && Distinct(ids)
      requires forall id | id in ids ::
        id in store.caches.rows && id in coords && coords[id] == store.caches.rows[id].location
      requires RowPending(osrm, store.Contents(), version, cells, from, ids)
      modifies this`asked
      ensures var missing := Missing(store.legs, version, RowPairs(from, ids));
        && AllKnown(store.caches, missing) && asked == old(asked) + missing
        && toPersist == Fetched(osrm, store.caches, version, missing)
        && refused == Refused(osrm, store.caches, version, missing)
      ensures RowSettled(osrm, store.Contents(), version, cells', from, ids) && SameOutside(cells, cells', from)
    {
      hide Round2, Fetched, Refused, Settled, Entry, Missing, RowPairs;
      var missing := MissingFrom(from, ids, cells);
      ghost var pairs := PairsTo(from, missing);
      asked := asked + pairs;
      var dests := seq(|missing|, j requires 0 <= j < |missing| => Coordinate(coords, missing[j]));
      var row0 := TableRow(osrm, version, coords[from], dests);
      assert ReplyFor(osrm, store.caches, version, from, missing, row0) by {
        assert forall j | 0 <= j < |missing| :: missing[j] in missing && missing[j] in ids;
      }
      if missing == [] {
        cells', toPersist, refused := cells, [], [];
        NothingAsked(osrm, store.caches, version, pairs);
      } else {
        cells', toPersist, refused := TakeRow(from, missing, row0, cells, store.caches);
      }
      forall to | to in ids && to != from
        ensures InState(cells', (from, to), true, MatrixCell(osrm, store.Contents(), version, (from, to)))
      {
        if to in missing {
          var j :| 0 <= j < |missing| && missing[j] == to;
          assert InState(cells', (from, missing[j]), true, RoundedCell(row0[j]));
        } else {
          assert SameAt(cells, cells', (from, to));
        }
      }
    }

    /** Asks the router, origin by origin, for whatever the table does not have. */
    method FillGaps(ids: seq<int>, coords: map<int, Coord>, cells: Cells)
      returns (cells': Cells, toPersist: seq<CellInput>, refused: seq<Pair>)
      requires Distinct(ids) && AllStored(store.caches, ids)
      requires forall id | id in ids :: id in coords && coords[id] == store.caches.rows[id].location
      requires Progress(osrm, store.Contents(), version, cells, ids, 0)
      modifies this`asked
      ensures var missing := Asked(store.Contents(), ids, version);
        && AllKnown(store.caches, missing) && asked == old(asked) + missing
        && toPersist == Fetched(osrm, store.caches, version, missing)
        && refused == Refused(osrm, store.caches, version, missing)
      ensures Progress(osrm, store.Contents(), version, cells', ids, |ids|)
    {
      hide Progress, Missing, RowPairs, AskedFirst, RowPending, RowSettled, SameOutside, Fetched, Refused, AllKnown;
      hide Distinct;
      ghost var db := store.Contents();
      cells', toPersist, refused := cells, [], [];
      NoneAskedYet(osrm, db, ids, version);
      for i := 0 to |ids|
        invariant Progress(osrm, db, version, cells', ids, i)
        invariant AllKnown(store.caches, AskedFirst(db, ids, version, i))
        invariant asked == old(asked) + AskedFirst(db, ids, version, i)
        invariant toPersist == Fetched(osrm, store.caches, version, AskedFirst(db, ids, version, i))
        invariant refused == Refused(osrm, store.caches, version, AskedFirst(db, ids, version, i))
      {
        NextIsPending(osrm, db, version, cells', ids, i);
        var next, cells2, refused2 := AskOrigin(ids[i], ids, coords, cells');
        RowMakesProgress(osrm, db, version, cells', next, ids, i);
        AskedNext(db, ids, version, i);
        FetchedConcat(osrm, store.caches, version, AskedFirst(db, ids, version, i),
                      Missing(db.legs, version, RowPairs(ids[i], ids)));
        cells', toPersist, refused := next, toPersist + cells2, refused + refused2;
      }
      AskedAll(db, ids, version);
    }

    /** The whole origin-destination matrix, from the table and the router; new answers are written back. */
    method GetMatrix(owner: string, cacheIds: seq<int>) returns (reply: MatrixReply)
      modifies store`legs, this`asked
      ensures var db, ids := old(store.Contents()), Unique(cacheIds);
        if NotOwned(db.caches, owner, ids) != [] then
          reply == CachesNotFound(NotOwned(db.caches, owner, ids)) && asked == old(asked)
        else
          && reply.Matrix? && reply.cacheIds == ids && IsMatrix(osrm, db, version, ids, reply.legs)
          && asked == old(asked) + Asked(db, ids, version)
      ensures store.Contents() == MatrixStep(osrm, old(store.Contents()), owner, cacheIds, version)
    {
      hide Progress, Missing, AllPairs, Fetched, Refused, IsRow, RowOf, Unique, UpsertMatrixCells, UpsertNorouteCells;
      hide NotOwned;
      ghost var db := store.Contents();
      var ids := Unique(cacheIds);
      if ids == [] {
        NoIdsNoChange(osrm, db, owner, cacheIds, version);
        return Matrix([], []);
      }
      var missing, coords := CoordMap(owner, ids);
      if missing != [] { return CachesNotFound(missing); }
      AskedKnown(db, owner, ids, version);
      assert AllStored(db.caches, ids) by { assert forall id | id in ids :: Owns(db.caches, owner, id); }
      var pairs := PairsOf(ids);
      var cells := ReadCached(pairs);
      assert Progress(osrm, db, version, cells, ids, 0) by { CachedIsProgress(osrm, db, version, cells, ids, pairs); }
      var filled, toPersist, refused := FillGaps(ids, coords, cells);
      store.UpsertMatrixCells(toPersist, version);
      store.UpsertNorouteCells(refused, version);
      forall i | 0 <= i < |ids|
        ensures IsRow(osrm, db, version, ids[i], ids, RowOf(filled, ids[i], ids))
      {
        RowIsRight(osrm, db, version, filled, ids, i);
      }
      reply := Matrix(ids, seq(|ids|, i requires 0 <= i < |ids| => RowOf(filled, ids[i], ids)));
    }
  }
}
