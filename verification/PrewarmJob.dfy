/** The pre-warm job as it runs: group by origin, ask in chunks of origins, store what came back. */
module PrewarmJob {
  import opened Options
  import opened LegTable
  import opened CacheTable
  import opened WalkingCache
  import opened LegLookups
  import opened Precompute
  import opened Store

  /** The coordinates loaded for the job, by id. */
  ghost predicate Loaded(c: Caches, job: Job, coords: map<int, Coord>) {
    forall id :: CoordOf(c, job, id) == if id in coords then Some(coords[id]) else None
  }

  /** Destinations grouped by origin; `origins` lists the keys in insertion order. */
  ghost predicate Grouped(pairs: seq<Pair>, origins: seq<int>, byOrigin: map<int, seq<int>>) {
    && origins == Origins(pairs)
    && forall o :: if o in byOrigin then o in origins && byOrigin[o] == DestsOf(pairs, o)
                   else o !in origins && DestsOf(pairs, o) == []
  }

  method FindMissing(legs: Legs, pairs: seq<Pair>, version: Version) returns (missing: seq<Pair>)
    ensures missing == Missing(legs, version, pairs)
  {
    missing := [];
    for i := 0 to |pairs|
      invariant missing == Missing(legs, version, pairs[..i])
    {
      assert pairs[..i + 1][..i] == pairs[..i];
      if FindMatrixCell(legs, pairs[i], version) == None { missing := missing + [pairs[i]]; }
    }
    assert pairs[..|pairs|] == pairs;
  }

  method GroupByOrigin(pairs: seq<Pair>) returns (origins: seq<int>, byOrigin: map<int, seq<int>>)
    ensures origins == Origins(pairs) && Grouped(pairs, origins, byOrigin)
  {
    origins, byOrigin := [], map[];
    for i := 0 to |pairs|
      invariant Grouped(pairs[..i], origins, byOrigin)
    {
      assert pairs[..i + 1][..i] == pairs[..i];
      var from, to := pairs[i].0, pairs[i].1;
      if from in byOrigin {
        byOrigin := byOrigin[from := byOrigin[from] + [to]];
      } else {
        origins := origins + [from];
        byOrigin := byOrigin[from := [to]];
      }
    }
    assert pairs[..|pairs|] == pairs;
  }

  method Locate(ghost c: Caches, ghost job: Job, coords: map<int, Coord>, dests: seq<int>) returns (sent: seq<Coord>)
    requires Loaded(c, job, coords)
    ensures sent == DestCoords(c, job, dests)
  {
    sent := [];
    for i := 0 to |dests|
      invariant sent == DestCoords(c, job, dests[..i])
    {
      assert dests[..i + 1][..i] == dests[..i];
      assert CoordOf(c, job, dests[i]).Some? <==> dests[i] in coords;
      if dests[i] in coords { sent := sent + [coords[dests[i]]]; }
    }
    assert dests[..|dests|] == dests;
  }

  class Worker {
    const store: Tables
    const osrm: Osrm

    constructor (store: Tables, osrm: Osrm)
      ensures this.store == store && this.osrm == osrm
    {
      this.store, this.osrm := store, osrm;
    }

    /** Asks for one origin. Reply `j` is taken for destination `j`, whichever destinations were sent. */
    method AskOrigin(ghost c: Caches, ghost job: Job, coords: map<int, Coord>, origin: int, dests: seq<int>, v: Version)
      returns (cells: seq<CellInput>, refused: seq<Pair>)
      requires Loaded(c, job, coords)
      ensures cells == CellsFrom(osrm, c, v, job, origin, dests)
      ensures refused == RefusedFrom(osrm, c, v, job, origin, dests)
    {
      cells, refused := [], [];
      assert CoordOf(c, job, origin).Some? <==> origin in coords;
      if origin !in coords { return; }
      var sent := Locate(c, job, coords, dests);
      if sent == [] { return; }
      var row0 := seq(|sent|, j requires 0 <= j < |sent| => osrm.table(v, coords[origin], sent[j]));
      for j := 0 to |dests|
        invariant cells == OriginCells(osrm, v, origin, coords[origin], sent, dests[..j])
        invariant refused == OriginRefused(osrm, v, origin, coords[origin], sent, dests[..j])
      {
        assert dests[..j + 1][..j] == dests[..j];
        var cell := if j < |row0| then row0[j] else None;
        if cell == None {
          refused := refused + [(origin, dests[j])];
        } else {
          cells := cells + [CellInput((origin, dests[j]), cell.value.metres, cell.value.seconds)];
        }
      }
      assert dests[..|dests|] == dests;
    }

    /** Asks for every origin, a chunk of origins at a time. */
    method AskAll(ghost c: Caches, job: Job, coords: map<int, Coord>, missing: seq<Pair>, chunkOrigins: nat, v: Version)
      returns (toPersist: seq<CellInput>, toPersistNoRoute: seq<Pair>)
      requires chunkOrigins > 0 && Loaded(c, job, coords)
      ensures toPersist == JobCells(osrm, c, v, job, missing, Origins(missing))
      ensures toPersistNoRoute == JobRefused(osrm, c, v, job, missing, Origins(missing))
    {
      hide CellsFrom, RefusedFrom, Loaded, Grouped, JobCells, JobRefused, DestsOf;
      NoOriginsYet(osrm, c, v, job, missing);
      var origins, byOrigin := GroupByOrigin(missing);
      toPersist, toPersistNoRoute := [], [];
      var i := 0;
      while i < |origins|
        invariant 0 <= i
        invariant toPersist == JobCells(osrm, c, v, job, missing, origins[..UpTo(i, |origins|)])
        invariant toPersistNoRoute == JobRefused(osrm, c, v, job, missing, origins[..UpTo(i, |origins|)])
      {
        for j := i to UpTo(i + chunkOrigins, |origins|)
          invariant toPersist == JobCells(osrm, c, v, job, missing, origins[..j])
          invariant toPersistNoRoute == JobRefused(osrm, c, v, job, missing, origins[..j])
        {
          OneMoreOrigin(osrm, c, v, job, missing, origins, j);
          GroupAt(missing, origins, byOrigin, j);
          var cells, refused := AskOrigin(c, job, coords, origins[j], byOrigin[origins[j]], v);
          toPersist, toPersistNoRoute := toPersist + cells, toPersistNoRoute + refused;
        }
        i := i + chunkOrigins;
      }
      assert origins[..|origins|] == origins;
    }

    /** Warms the leg table for the job's candidate pairs. */
    method Process(job: Job, chunkOrigins: nat, version: Version)
      requires chunkOrigins > 0
      modifies store`legs
      ensures store.Contents() == PrewarmStep(osrm, old(store.Contents()), job, version)
    {
      hide JobCells, JobRefused, UpsertMatrixCells, UpsertNorouteCells;
      var coords := map id | id in job.inScope && Owns(store.caches, job.owner, id) :: store.caches.rows[id].location;
      var missing := FindMissing(store.legs, job.candidates, version);
      var toPersist, toPersistNoRoute := AskAll(store.caches, job, coords, missing, chunkOrigins, version);
      NothingToStore(store.legs, version);
      if |toPersist| > 0 { store.UpsertMatrixCells(toPersist, version); }
      NothingToStore(store.legs, version);
      if |toPersistNoRoute| > 0 { store.UpsertNorouteCells(toPersistNoRoute, version); }
    }
  }

  lemma NoOriginsYet(osrm: Osrm, c: Caches, v: Version, job: Job, missing: seq<Pair>)
    ensures JobCells(osrm, c, v, job, missing, []) == [] && JobRefused(osrm, c, v, job, missing, []) == []
  {
  }

  lemma OneMoreOrigin(osrm: Osrm, c: Caches, v: Version, job: Job, missing: seq<Pair>, origins: seq<int>, j: nat)
    requires j < |origins|
    ensures var dests := DestsOf(missing, origins[j]);
      && JobCells(osrm, c, v, job, missing, origins[..j + 1])
         == JobCells(osrm, c, v, job, missing, origins[..j]) + CellsFrom(osrm, c, v, job, origins[j], dests)
      && JobRefused(osrm, c, v, job, missing, origins[..j + 1])
         == JobRefused(osrm, c, v, job, missing, origins[..j]) + RefusedFrom(osrm, c, v, job, origins[j], dests)
  {
    hide CellsFrom, RefusedFrom, DestsOf;
    assert origins[..j + 1][..j] == origins[..j];
  }

  lemma GroupAt(pairs: seq<Pair>, origins: seq<int>, byOrigin: map<int, seq<int>>, j: nat)
    requires Grouped(pairs, origins, byOrigin) && j < |origins|
    ensures origins[j] in byOrigin && byOrigin[origins[j]] == DestsOf(pairs, origins[j])
  {
    var o := origins[j];
    assert o in origins;
    DestsAre(pairs, o, 0);
  }
}
