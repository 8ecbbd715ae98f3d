/** The two tables as the repositories change them: one statement or one transaction at a time. */
module Store {
  import opened Options
  import opened LegTable
  import opened CacheTable
  import opened WalkingCache

  const CHUNK := 5000

  function UpTo(i: nat, n: nat): nat {
    if i < n then i else n
  }

  function Plausible(cells: seq<CellInput>): (r: seq<CellInput>)
    ensures forall x | x in r :: !IsImpossibleSpeed(x.metres, x.seconds)
  {
    if cells == [] then []
    else
      var below, x := Plausible(cells[..|cells| - 1]), cells[|cells| - 1];
      if IsImpossibleSpeed(x.metres, x.seconds) then below else below + [x]
  }

  lemma {:induction false} DroppingOddCellsFirst(legs: Legs, cells: seq<CellInput>, v: Version)
    ensures UpsertMatrixCells(legs, Plausible(cells), v) == UpsertMatrixCells(legs, cells, v)
    decreases |cells|
  {
    hide IsImpossibleSpeed, CellRow;
    if cells != [] {
      var below, x := cells[..|cells| - 1], cells[|cells| - 1];
      DroppingOddCellsFirst(legs, below, v);
      if !IsImpossibleSpeed(x.metres, x.seconds) {
        assert (Plausible(below) + [x])[..|Plausible(below)|] == Plausible(below);
      }
    }
  }

  /** Two batches one after the other are one batch. */
  lemma {:induction false} CellsInChunks(legs: Legs, a: seq<CellInput>, b: seq<CellInput>, v: Version)
    ensures UpsertMatrixCells(UpsertMatrixCells(legs, a, v), b, v) == UpsertMatrixCells(legs, a + b, v)
    decreases |b|
  {
    hide IsImpossibleSpeed, CellRow;
    if b == [] {
      assert a + b == a;
    } else {
      assert (a + b)[..|a + b| - 1] == a + b[..|b| - 1];
      CellsInChunks(legs, a, b[..|b| - 1], v);
    }
  }

  lemma {:induction false} NorouteInChunks(legs: Legs, a: seq<Pair>, b: seq<Pair>, v: Version)
    ensures UpsertNorouteCells(UpsertNorouteCells(legs, a, v), b, v) == UpsertNorouteCells(legs, a + b, v)
    decreases |b|
  {
    if b == [] {
      assert a + b == a;
    } else {
      assert (a + b)[..|a + b| - 1] == a + b[..|b| - 1];
      NorouteInChunks(legs, a, b[..|b| - 1], v);
    }
  }

  class Tables {
    var caches: Caches
    var legs: Legs

    function Contents(): Db
      reads this
    {
      Db(caches, legs)
    }

    constructor ()
      ensures Contents() == Db(Caches(map[], map[], 0), map[])
    {
      caches, legs := Caches(map[], map[], 0), map[];
    }

    // ----- Legs -----

    /** Full legs: impossible speeds are dropped, everything else overwrites. */
    method UpsertLegs(inputs: seq<RouteInput>, version: Version)
      modifies this`legs
      ensures legs == LegTable.UpsertLegs(old(legs), inputs, version)
    {
      hide IsImpossibleSpeed, RouteRow;
      for i := 0 to |inputs|
        invariant legs == LegTable.UpsertLegs(old(legs), inputs[..i], version)
      {
        assert inputs[..i + 1][..i] == inputs[..i];
        var x := inputs[i];
        if !IsImpossibleSpeed(x.metres, x.seconds) {
          legs := legs[x.pair := RouteRow(x, version)];
        }
      }
      assert inputs[..|inputs|] == inputs;
    }

    /** One INSERT … ON CONFLICT DO UPDATE … WHERE the version differs. */
    method InsertCells(cells: seq<CellInput>, version: Version)
      requires forall x | x in cells :: !IsImpossibleSpeed(x.metres, x.seconds)
      modifies this`legs
      ensures legs == LegTable.UpsertMatrixCells(old(legs), cells, version)
    {
      hide IsImpossibleSpeed, CellRow;
      for i := 0 to |cells|
        invariant legs == LegTable.UpsertMatrixCells(old(legs), cells[..i], version)
      {
        assert cells[..i + 1][..i] == cells[..i];
        var x := cells[i];
        assert x in cells;
        CellRowFacts(x, version);
        if x.pair !in legs || legs[x.pair].version != version {
          legs := legs[x.pair := CellRow(x, version)];
        }
      }
      assert cells[..|cells|] == cells;
    }

    method DropOdd(cells: seq<CellInput>) returns (accepted: seq<CellInput>)
      ensures accepted == Plausible(cells)
    {
      hide IsImpossibleSpeed;
      accepted := [];
      for i := 0 to |cells|
        invariant accepted == Plausible(cells[..i])
      {
        assert cells[..i + 1][..i] == cells[..i];
        if !IsImpossibleSpeed(cells[i].metres, cells[i].seconds) { accepted := accepted + [cells[i]]; }
      }
      assert cells[..|cells|] == cells;
    }

    method UpsertMatrixCells(cells: seq<CellInput>, version: Version)
      modifies this`legs
      ensures legs == LegTable.UpsertMatrixCells(old(legs), cells, version)
    {
      hide IsImpossibleSpeed, CellRow, LegTable.UpsertMatrixCells;
      var accepted := DropOdd(cells);
      DroppingOddCellsFirst(legs, cells, version);
      NothingToStore(legs, version);
      assert accepted[..0] == [];
      var i := 0;
      while i < |accepted|
        invariant 0 <= i
        invariant legs == LegTable.UpsertMatrixCells(old(legs), accepted[..UpTo(i, |accepted|)], version)
      {
        var slice := accepted[i..UpTo(i + CHUNK, |accepted|)];
        CellsInChunks(old(legs), accepted[..i], slice, version);
        assert accepted[..i] + slice == accepted[..UpTo(i + CHUNK, |accepted|)];
        InsertCells(slice, version);
        i := i + CHUNK;
      }
      assert accepted[..|accepted|] == accepted;
    }

    method InsertNoroutes(pairs: seq<Pair>, version: Version)
      modifies this`legs
      ensures legs == LegTable.UpsertNorouteCells(old(legs), pairs, version)
    {
      for i := 0 to |pairs|
        invariant legs == LegTable.UpsertNorouteCells(old(legs), pairs[..i], version)
      {
        assert pairs[..i + 1][..i] == pairs[..i];
        var k := pairs[i];
        if k !in legs || legs[k].version != version {
          legs := legs[k := NoRouteRow(version)];
        }
      }
      assert pairs[..|pairs|] == pairs;
    }

    method UpsertNorouteCells(pairs: seq<Pair>, version: Version)
      modifies this`legs
      ensures legs == LegTable.UpsertNorouteCells(old(legs), pairs, version)
    {
      var i := 0;
      while i < |pairs|
        invariant 0 <= i
        invariant legs == LegTable.UpsertNorouteCells(old(legs), pairs[..UpTo(i, |pairs|)], version)
      {
        var slice := pairs[i..UpTo(i + CHUNK, |pairs|)];
        NorouteInChunks(old(legs), pairs[..i], slice, version);
        assert pairs[..i] + slice == pairs[..UpTo(i + CHUNK, |pairs|)];
        InsertNoroutes(slice, version);
        i := i + CHUNK;
      }
      assert pairs[..|pairs|] == pairs;
    }

    // ----- Caches -----

    /** The rows the incoming caches already have, read in one query. */
    method ReadExisting(u: Upload) returns (existing: map<string, (int, CacheRow)>)
      ensures forall p | p in u.caches :: Read(caches, u, existing, p)
    {
      existing := map[];
      for i := 0 to |u.caches|
        invariant forall sid | sid in existing :: RowIs(caches, (u.owner, sid), existing[sid])
        invariant forall j | 0 <= j < i :: Read(caches, u, existing, u.caches[j])
      {
        var p := u.caches[i];
        var id := Existing(caches, u, p);
        if id.Some? { existing := existing[p.sourceId := (id.value, caches.rows[id.value])]; }
      }
    }

    /** The upload's transaction. Existing rows are read once, before the first write. */
    method UpsertFromGpx(u: Upload, moved: Moved) returns (insertedOrUpdated: nat, relocatedCacheIds: seq<int>)
      modifies this
      ensures Contents() == UploadStep(old(Contents()), moved, u)
      ensures forall id :: id in relocatedCacheIds <==> id in UploadAll(old(caches), moved, u).relocated
      ensures insertedOrUpdated == |FreshAt(old(caches), u, |u.caches|)|
    {
      hide Upsert, UpdatedRow, InsertedRow;
      var existing := ReadExisting(u);
      insertedOrUpdated, relocatedCacheIds := 0, [];
      for i := 0 to |u.caches|
        invariant legs == old(legs)
        invariant caches == UploadFirst(old(caches), moved, u, i).caches
        invariant forall id :: id in relocatedCacheIds <==> id in UploadFirst(old(caches), moved, u, i).relocated
        invariant insertedOrUpdated == i - Stales(old(caches), u, i)
      {
        var p := u.caches[i];
        assert p in u.caches && Read(old(caches), u, existing, p);
        var row := if p.sourceId in existing then Some(existing[p.sourceId]) else None;
        var isStale := !u.markSolved && row.Some? && row.value.1.exportedAt.Some? && u.exportedAt.Some?
                       && u.exportedAt.value < row.value.1.exportedAt.value;
        if !isStale {
          var writesLocation := u.markSolved || row == None || !row.value.1.solved;
          caches := Upsert(caches, u, p, writesLocation);
          insertedOrUpdated := insertedOrUpdated + 1;
          if row.Some? && writesLocation && moved(row.value.1.location, p.location) > 1.0 {
            relocatedCacheIds := relocatedCacheIds + [row.value.0];
          }
        }
      }
      FreshCounted(old(caches), u, |u.caches|);
      ghost var relocated := UploadFirst(old(caches), moved, u, |u.caches|).relocated;
      if |relocatedCacheIds| > 0 {
        legs := map k | k in legs && k.0 !in relocatedCacheIds && k.1 !in relocatedCacheIds :: legs[k];
      }
      assert legs == WithoutTouching(old(legs), relocated) by {
        SameDeletions(old(legs), legs, relocatedCacheIds, relocated);
      }
    }

    /** Reverts a solved cache to its posted coordinate and drops its legs, in one transaction. */
    method ClearSolved(owner: string, id: int) returns (cleared: bool)
      modifies this
      ensures Contents() == ClearSolvedStep(old(Contents()), owner, id)
      ensures cleared <==> Clearable(old(caches), owner, id)
    {
      if id !in caches.rows || caches.rows[id].owner != owner || !caches.rows[id].solved {
        return false;
      }
      var row := caches.rows[id];
      var location := if row.published.Some? then row.published.value else row.location;
      caches := caches.(rows := caches.rows[id := row.(solved := false, location := location)]);
      legs := map k | k in legs && k.0 != id && k.1 != id :: legs[k];
      cleared := true;
    }
  }

  /** Which of the first `count` caches of the file are not stale. */
  function FreshAt(c: Caches, u: Upload, count: nat): set<int>
    requires count <= |u.caches|
  {
    set i | 0 <= i < count && !IsStale(c, u, u.caches[i])
  }

  lemma OneMoreFresh(c: Caches, u: Upload, count: nat)
    requires 0 < count <= |u.caches|
    ensures FreshAt(c, u, count)
         == FreshAt(c, u, count - 1) + if IsStale(c, u, u.caches[count - 1]) then {} else {count - 1}
    ensures count - 1 !in FreshAt(c, u, count - 1)
  {
    hide IsStale;
  }

  lemma {:induction false} FreshCounted(c: Caches, u: Upload, count: nat)
    requires count <= |u.caches|
    ensures |FreshAt(c, u, count)| == count - Stales(c, u, count)
  {
    if count == 0 {
      assert FreshAt(c, u, 0) == {};
    } else {
      hide IsStale, FreshAt;
      FreshCounted(c, u, count - 1);
      OneMoreFresh(c, u, count);
    }
  }

  lemma SameDeletions(before: Legs, after: Legs, ids: seq<int>, touched: set<int>)
    requires forall id :: id in ids <==> id in touched
    requires if |ids| > 0 then after == map k | k in before && k.0 !in ids && k.1 !in ids :: before[k]
             else after == before
    ensures after == WithoutTouching(before, touched)
  {
    var goal := WithoutTouching(before, touched);
    forall from: int, to: int
      ensures (from, to) in after <==> (from, to) in goal
    {
      assert from in touched <==> from in ids;
      assert to in touched <==> to in ids;
    }
    assert forall k :: k in after <==> (k.0, k.1) in after;
    assert after.Keys == goal.Keys;
  }

  lemma NothingToStore(legs: Legs, v: Version)
    ensures UpsertMatrixCells(legs, [], v) == legs && UpsertNorouteCells(legs, [], v) == legs
  {
  }

  predicate RowIs(c: Caches, key: (string, string), found: (int, CacheRow)) {
    key in c.index && c.index[key] in c.rows && found == (c.index[key], c.rows[c.index[key]])
  }

  /** The upload's lookup map holds, for this cache, the row the table held. */
  predicate Read(c: Caches, u: Upload, existing: map<string, (int, CacheRow)>, p: ParsedCache) {
    var id := Existing(c, u, p);
    if id.Some? then p.sourceId in existing && existing[p.sourceId] == (id.value, c.rows[id.value])
    else p.sourceId !in existing
  }

  /** How many of the first `count` caches of the file are stale. */
  function Stales(c: Caches, u: Upload, count: nat): nat
    requires count <= |u.caches|
  {
    if count == 0 then 0 else Stales(c, u, count - 1) + if IsStale(c, u, u.caches[count - 1]) then 1 else 0
  }
}
