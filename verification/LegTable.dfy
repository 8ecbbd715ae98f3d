/**
 The table of cached walking legs: its rows, its three upserts and its two lookups.

 One row per ordered pair of caches (the only routing profile is walking on foot). A row carries the
 version of the map extract that produced it; lookups ignore rows of other versions.
 */
module LegTable {
  import opened Options

  datatype Coord = Coord(lng: real, lat: real)

  type Geometry = seq<Coord>

  type Version = string

  type Pair = (int, int)

  datatype Source = FromRoute | FromTable | NoRoute

  datatype LegRow = LegRow(source: Source, metres: Option<real>, seconds: Option<real>,
                           geom: Option<Geometry>, version: Version)

  type Legs = map<Pair, LegRow>

  /** `Math.round(n * 100) / 100`. */
  function Round2(n: real): real {
    (n * 100.0 + 0.5).Floor as real / 100.0
  }

  /** What a NUMERIC(12,2) column stores: two decimals, halves away from zero. */
  function Numeric(n: real): real {
    if n >= 0.0 then Round2(n) else -Round2(-n)
  }

  lemma RoundTwice(n: real)
    ensures Round2(Round2(n)) == Round2(n)
    ensures Numeric(Round2(n)) == Round2(n)
    ensures n >= 0.0 ==> Round2(n) >= 0.0 && Numeric(n) == Round2(n)
  {
    var whole := (n * 100.0 + 0.5).Floor;
    assert Round2(n) * 100.0 == whole as real;
    assert (whole as real + 0.5).Floor == whole;
    assert ((-whole) as real + 0.5).Floor == -whole;
  }

  /** Equal to within half a hundredth. */
  predicate Near(x: real, n: real) {
    -0.005 <= x - n <= 0.005
  }

  /** Rounding gives the nearest whole number of hundredths, the larger of two equally near. */
  lemma RoundIsNearest(n: real)
    ensures (Round2(n) * 100.0).Floor as real == Round2(n) * 100.0
    ensures -0.005 < Round2(n) - n <= 0.005
  {
    var whole := (n * 100.0 + 0.5).Floor;
    assert Round2(n) * 100.0 == whole as real;
    assert whole as real <= n * 100.0 + 0.5 < whole as real + 1.0;
  }

  /** So is what the column stores, which rounds halves away from zero. */
  lemma StoredIsNear(n: real)
    ensures Near(Round2(n), n) && Near(Numeric(n), n)
  {
    RoundIsNearest(n);
    RoundIsNearest(-n);
  }

  const MIN_WALKING_MS := 0.28
  const MAX_WALKING_MS := 7.78

  predicate IsImpossibleSpeed(metres: real, seconds: real) {
    if metres <= 0.0 then false
    else if seconds <= 0.0 then true
    else metres / seconds < MIN_WALKING_MS || metres / seconds > MAX_WALKING_MS
  }

  /** No way at all, or a pace from 0.28 to 7.78 metres a second. */
  predicate Walkable(metres: real, seconds: real) {
    metres <= 0.0 || (seconds > 0.0 && 0.28 * seconds <= metres <= 7.78 * seconds)
  }

  /** The speed guard refuses exactly the paces no walker could keep. */
  lemma GuardedIsWalkable(metres: real, seconds: real)
    ensures !IsImpossibleSpeed(metres, seconds) <==> Walkable(metres, seconds)
  {
    if seconds > 0.0 {
      var pace := metres / seconds;
      assert pace * seconds == metres;
      PaceTimes(pace, 0.28, seconds);
      PaceTimes(7.78, pace, seconds);
    }
  }

  lemma PaceTimes(a: real, b: real, seconds: real)
    requires seconds > 0.0
    ensures a < b <==> a * seconds < b * seconds
  {
  }

  /** The database's check constraints on a row. */
  predicate WellShaped(r: LegRow) {
    match r.source
    case FromRoute => r.metres.Some? && r.seconds.Some? && r.geom.Some?
    case FromTable => r.metres.Some? && r.seconds.Some?
    case NoRoute => r.metres == None && r.seconds == None && r.geom == None
  }

  ghost predicate AllWellShaped(legs: Legs) {
    forall k | k in legs :: WellShaped(legs[k])
  }

  // ----- Writes -----

  datatype RouteInput = RouteInput(pair: Pair, metres: real, seconds: real, geometry: Geometry)

  datatype CellInput = CellInput(pair: Pair, metres: real, seconds: real)

  function RouteRow(x: RouteInput, version: Version): LegRow {
    LegRow(FromRoute, Some(Numeric(x.metres)), Some(Numeric(x.seconds)), Some(x.geometry), version)
  }

  function CellRow(x: CellInput, version: Version): LegRow {
    LegRow(FromTable, Some(Numeric(x.metres)), Some(Numeric(x.seconds)), None, version)
  }

  function NoRouteRow(version: Version): LegRow {
    LegRow(NoRoute, None, None, None, version)
  }

  /** Writes unless a row of the same version is already there. */
  function WriteIfStale(legs: Legs, pair: Pair, row: LegRow): Legs {
    if pair in legs && legs[pair].version == row.version then legs else legs[pair := row]
  }

  /** Full legs always overwrite; impossible speeds are dropped. */
  function UpsertLegs(legs: Legs, inputs: seq<RouteInput>, version: Version): Legs {
    if inputs == [] then legs
    else
      var below, x := UpsertLegs(legs, inputs[..|inputs| - 1], version), inputs[|inputs| - 1];
      if IsImpossibleSpeed(x.metres, x.seconds) then below else below[x.pair := RouteRow(x, version)]
  }

  /** Matrix cells never overwrite a row of the same version; impossible speeds are dropped. */
  function UpsertMatrixCells(legs: Legs, cells: seq<CellInput>, version: Version): Legs {
    if cells == [] then legs
    else
      var below, x := UpsertMatrixCells(legs, cells[..|cells| - 1], version), cells[|cells| - 1];
      if IsImpossibleSpeed(x.metres, x.seconds) then below else WriteIfStale(below, x.pair, CellRow(x, version))
  }

  function UpsertNorouteCells(legs: Legs, pairs: seq<Pair>, version: Version): Legs {
    if pairs == [] then legs
    else
      WriteIfStale(UpsertNorouteCells(legs, pairs[..|pairs| - 1], version), pairs[|pairs| - 1], NoRouteRow(version))
  }

  // ----- Reads -----

  predicate Live(legs: Legs, pair: Pair, version: Version) {
    pair in legs && legs[pair].version == version
  }

  function NumberOf(x: Option<real>): real {
    if x.Some? then x.value else 0.0
  }

  /** A row as the matrix lookup reports it. */
  datatype FoundCell = FoundCell(metres: real, seconds: real, noroute: bool)

  function FindMatrixCell(legs: Legs, pair: Pair, version: Version): Option<FoundCell> {
    if Live(legs, pair, version) then
      var r := legs[pair];
      if r.source == NoRoute then Some(FoundCell(0.0, 0.0, true))
      else Some(FoundCell(NumberOf(r.metres), NumberOf(r.seconds), false))
    else None
  }

  /** Only rows with a geometry count as full legs. */
  function FindLeg(legs: Legs, pair: Pair, version: Version): Option<RouteInput> {
    if Live(legs, pair, version) && legs[pair].geom.Some? then
      var r := legs[pair];
      Some(RouteInput(pair, NumberOf(r.metres), NumberOf(r.seconds), r.geom.value))
    else None
  }

  // ----- How rows evolve -----

  /** A row is kept, or replaced by a row of another version, or upgraded to a full leg. */
  ghost predicate Evolves(before: Legs, after: Legs) {
    forall k | k in before && k in after ::
      after[k] == before[k] || after[k].version != before[k].version || after[k].source == FromRoute
  }

  lemma {:induction false} UpsertLegsEvolves(legs: Legs, inputs: seq<RouteInput>, version: Version)
    ensures var after := UpsertLegs(legs, inputs, version);
      && Evolves(legs, after) && legs.Keys <= after.Keys
      && (AllWellShaped(legs) ==> AllWellShaped(after))
    decreases |inputs|
  {
    hide IsImpossibleSpeed, Numeric;
    if inputs != [] { UpsertLegsEvolves(legs, inputs[..|inputs| - 1], version); }
  }

  predicate Kept(before: Legs, after: Legs, k: Pair) {
    k in before && k in after && after[k] == before[k]
  }

  /** Some plausible input cell accounts for the row. */
  ghost predicate CellFor(cells: seq<CellInput>, k: Pair, row: LegRow, version: Version) {
    exists x | x in cells :: x.pair == k && !IsImpossibleSpeed(x.metres, x.seconds) && row == CellRow(x, version)
  }

  /** What a batch of matrix cells leaves behind, pair by pair. */
  ghost predicate CellsWritten(legs: Legs, after: Legs, cells: seq<CellInput>, version: Version) {
    && Evolves(legs, after) && legs.Keys <= after.Keys
    && (AllWellShaped(legs) ==> AllWellShaped(after))
    && (forall k | k in after && !Kept(legs, after, k) :: !Live(legs, k, version) && Live(after, k, version))
    && (forall k | k in after && !Kept(legs, after, k) :: CellFor(cells, k, after[k], version))
    && (forall k | Live(legs, k, version) :: Kept(legs, after, k))
    && (forall x | x in cells && !IsImpossibleSpeed(x.metres, x.seconds) :: Live(after, x.pair, version))
  }

  lemma CellForMore(cells: seq<CellInput>, x: CellInput, k: Pair, row: LegRow, version: Version)
    requires CellFor(cells, k, row, version)
    ensures CellFor(cells + [x], k, row, version)
  {
    var y :| y in cells && y.pair == k && !IsImpossibleSpeed(y.metres, y.seconds) && row == CellRow(y, version);
    assert y in cells + [x];
  }

  lemma CellRowFacts(x: CellInput, version: Version)
    ensures WellShaped(CellRow(x, version)) && CellRow(x, version).version == version
  {
  }

  /** One write on top of a batch: either a new row of this version where there was none, or nothing. */
  lemma WriteCell(legs: Legs, below: Legs, cells: seq<CellInput>, x: CellInput, version: Version)
    requires CellsWritten(legs, below, cells, version) && !IsImpossibleSpeed(x.metres, x.seconds)
    ensures CellsWritten(legs, WriteIfStale(below, x.pair, CellRow(x, version)), cells + [x], version)
  {
    hide IsImpossibleSpeed, CellRow, CellFor, WellShaped;
    var after := WriteIfStale(below, x.pair, CellRow(x, version));
    CellRowFacts(x, version);
    CellForLast(cells, x, version);
    forall k | k in after && !Kept(legs, after, k)
      ensures !Live(legs, k, version) && Live(after, k, version) && CellFor(cells + [x], k, after[k], version)
    {
      if Kept(below, after, k) {
        CellForMore(cells, x, k, after[k], version);
      }
    }
  }

  lemma SkipCell(legs: Legs, below: Legs, cells: seq<CellInput>, x: CellInput, version: Version)
    requires CellsWritten(legs, below, cells, version) && IsImpossibleSpeed(x.metres, x.seconds)
    ensures CellsWritten(legs, below, cells + [x], version)
  {
    hide IsImpossibleSpeed, CellRow, CellFor, WellShaped;
    forall k | k in below && !Kept(legs, below, k)
      ensures CellFor(cells + [x], k, below[k], version)
    {
      CellForMore(cells, x, k, below[k], version);
    }
  }

  lemma CellForLast(cells: seq<CellInput>, x: CellInput, version: Version)
    requires !IsImpossibleSpeed(x.metres, x.seconds)
    ensures CellFor(cells + [x], x.pair, CellRow(x, version), version)
  {
    assert x in cells + [x];
  }

  lemma {:induction false} UpsertMatrixCellsFacts(legs: Legs, cells: seq<CellInput>, version: Version)
    ensures CellsWritten(legs, UpsertMatrixCells(legs, cells, version), cells, version)
    decreases |cells|
  {
    if cells != [] {
      var below, x := cells[..|cells| - 1], cells[|cells| - 1];
      assert cells == below + [x];
      UpsertMatrixCellsFacts(legs, below, version);
      if IsImpossibleSpeed(x.metres, x.seconds) {
        SkipCell(legs, UpsertMatrixCells(legs, below, version), below, x, version);
      } else {
        WriteCell(legs, UpsertMatrixCells(legs, below, version), below, x, version);
      }
    }
  }

  lemma {:induction false} UpsertNorouteCellsFacts(legs: Legs, pairs: seq<Pair>, version: Version)
    ensures var after := UpsertNorouteCells(legs, pairs, version);
      && Evolves(legs, after) && legs.Keys <= after.Keys
      && (AllWellShaped(legs) ==> AllWellShaped(after))
      && (forall k | k in after && !Kept(legs, after, k) ::
          !Live(legs, k, version) && k in pairs && after[k] == NoRouteRow(version))
      && (forall k | Live(legs, k, version) :: after[k] == legs[k])
      && (forall k | k in pairs :: Live(after, k, version))
    decreases |pairs|
  {
    if pairs != [] {
      var below, k := pairs[..|pairs| - 1], pairs[|pairs| - 1];
      assert pairs == below + [k];
      UpsertNorouteCellsFacts(legs, below, version);
    }
  }
}
