/**
 Every run of uploads, removals of solved coordinates, lookups, pre-warms, purges of suspicious legs and
 extract changes, each one a transaction.
 */
module CacheRuns {
  import opened Options
  import opened LegTable
  import opened CacheTable
  import opened UploadRows
  import opened WalkingCache
  import opened LegLookups
  import opened Precompute

  datatype World = World(db: Db, version: Version)

  datatype Step =
    | UploadGpx(upload: Upload)
    | ClearSolved(owner: string, id: int)
    | GetLeg(owner: string, from: int, to: int)
    | GetMatrix(owner: string, cacheIds: seq<int>)
    | Prewarm(job: Job)
    | PurgeLegs(keys: set<Pair>)
    | ExtractChange(version: Version)

  function Next(osrm: Osrm, moved: Moved, w: World, s: Step): World {
    match s
    case UploadGpx(u) => w.(db := UploadStep(w.db, moved, u))
    case ClearSolved(owner, id) => w.(db := ClearSolvedStep(w.db, owner, id))
    case GetLeg(owner, from, to) => w.(db := LegStep(osrm, w.db, owner, from, to, w.version))
    case GetMatrix(owner, cacheIds) => w.(db := MatrixStep(osrm, w.db, owner, cacheIds, w.version))
    case Prewarm(job) => w.(db := PrewarmStep(osrm, w.db, job, w.version))
    case PurgeLegs(keys) => w.(db := w.db.(legs := w.db.legs - keys))
    case ExtractChange(version) => w.(version := version)
  }

  function Run(osrm: Osrm, moved: Moved, w: World, steps: seq<Step>): World {
    if steps == [] then w
    else Next(osrm, moved, Run(osrm, moved, w, steps[..|steps| - 1]), steps[|steps| - 1])
  }

  const NOTHING_STORED := Db(Caches(map[], map[], 0), map[])

  // ----- Kept by every run whatsoever -----

  /** Rows of the live version stay, or become full legs of the same version; others stay or become live. */
  ghost predicate Upgrades(before: Legs, after: Legs, v: Version) {
    && (forall k | Live(before, k, v) && k in after ::
        Live(after, k, v) && (after[k] == before[k] || after[k].source == FromRoute))
    && (forall k | k in before && !Live(before, k, v) && k in after :: after[k] == before[k] || Live(after, k, v))
  }

  ghost predicate LegsProgress(before: Legs, after: Legs, v: Version) {
    Upgrades(before, after, v) && (AllWellShaped(before) ==> AllWellShaped(after))
  }

  lemma StoringProgresses(legs: Legs, cells: seq<CellInput>, refused: seq<Pair>, v: Version)
    ensures LegsProgress(legs, UpsertNorouteCells(UpsertMatrixCells(legs, cells, v), refused, v), v)
  {
    hide UpsertMatrixCells, UpsertNorouteCells, CellFor, WellShaped;
    var middle := UpsertMatrixCells(legs, cells, v);
    UpsertMatrixCellsFacts(legs, cells, v);
    UpsertNorouteCellsFacts(middle, refused, v);
    var after := UpsertNorouteCells(middle, refused, v);
    forall k | k in legs && !Live(legs, k, v) && k in after
      ensures after[k] == legs[k] || Live(after, k, v)
    {
      assert Kept(legs, middle, k) || Live(middle, k, v);
      assert Kept(middle, after, k) || after[k] == NoRouteRow(v);
    }
  }

  lemma LegStepProgresses(osrm: Osrm, db: Db, owner: string, from: int, to: int, v: Version)
    ensures LegsProgress(db.legs, LegStep(osrm, db, owner, from, to, v).legs, v)
    ensures LegStep(osrm, db, owner, from, to, v).caches == db.caches
  {
    hide Round2, Numeric, IsImpossibleSpeed;
    if AsksForLeg(db, owner, from, to, v) {
      var reply := RoundedLeg(osrm.route(v, db.caches.rows[from].location, db.caches.rows[to].location));
      if reply.Leg? {
        UpsertOneLeg(db.legs, RouteInput((from, to), reply.metres, reply.seconds, reply.geometry), v);
      }
    }
  }

  lemma StepProgresses(osrm: Osrm, moved: Moved, w: World, s: Step)
    requires ValidCaches(w.db.caches)
    ensures LegsProgress(w.db.legs, Next(osrm, moved, w, s).db.legs, w.version)
    ensures ValidCaches(Next(osrm, moved, w, s).db.caches)
  {
    hide ValidCaches, UpsertMatrixCells, UpsertNorouteCells, UploadFirst, Fetched, Refused, JobCells, JobRefused;
    hide LegStep, Unique;
    match s
    case UploadGpx(u) =>
      UploadKeepsValid(w.db.caches, moved, u, |u.caches|);
    case ClearSolved(owner, id) =>
      ClearKeepsValid(w.db.caches, owner, id);
    case GetLeg(owner, from, to) =>
      LegStepProgresses(osrm, w.db, owner, from, to, w.version);
    case GetMatrix(owner, cacheIds) =>
      var ids := Unique(cacheIds);
      if NotOwned(w.db.caches, owner, ids) == [] {
        AskedKnown(w.db, owner, ids, w.version);
        var asked := Asked(w.db, ids, w.version);
        StoringProgresses(w.db.legs, Fetched(osrm, w.db.caches, w.version, asked),
                          Refused(osrm, w.db.caches, w.version, asked), w.version);
      }
    case Prewarm(job) =>
      var missing := Missing(w.db.legs, w.version, job.candidates);
      StoringProgresses(w.db.legs, JobCells(osrm, w.db.caches, w.version, job, missing, Origins(missing)),
                        JobRefused(osrm, w.db.caches, w.version, job, missing, Origins(missing)), w.version);
    case PurgeLegs(keys) =>
    case ExtractChange(version) =>
  }

  /** Over any run, cache rows stay valid and leg rows keep their shape. */
  lemma {:induction false} RunKeepsTables(osrm: Osrm, moved: Moved, w: World, steps: seq<Step>)
    requires ValidCaches(w.db.caches) && AllWellShaped(w.db.legs)
    ensures ValidCaches(Run(osrm, moved, w, steps).db.caches) && AllWellShaped(Run(osrm, moved, w, steps).db.legs)
    decreases |steps|
  {
    hide ValidCaches, AllWellShaped, Upgrades, Next;
    if steps != [] {
      RunKeepsTables(osrm, moved, w, steps[..|steps| - 1]);
      StepProgresses(osrm, moved, Run(osrm, moved, w, steps[..|steps| - 1]), steps[|steps| - 1]);
    }
  }

  // ----- The last posted coordinate -----

  predicate StepPosts(w: World, s: Step, key: Key) {
    s.UploadGpx? && Posts(RowAt(w.db.caches, key), s.upload, key)
  }

  ghost predicate NonePosts(osrm: Osrm, moved: Moved, w: World, steps: seq<Step>, key: Key) {
    forall i | 0 <= i < |steps| :: !StepPosts(Run(osrm, moved, w, steps[..i]), steps[i], key)
  }

  function PostedAt(w: World, key: Key): Option<Coord> {
    var row := RowAt(w.db.caches, key);
    if row.Some? then row.value.published else None
  }

  /** The export date that later files are compared with. */
  function DatedAt(w: World, key: Key): Option<int> {
    var row := RowAt(w.db.caches, key);
    if row.Some? then row.value.exportedAt else None
  }

  lemma StepKeepsPosted(osrm: Osrm, moved: Moved, w: World, s: Step, key: Key)
    requires ValidCaches(w.db.caches) && !StepPosts(w, s, key) && PostedAt(w, key).Some?
    ensures PostedAt(Next(osrm, moved, w, s), key) == PostedAt(w, key)
    ensures DatedAt(Next(osrm, moved, w, s), key) == DatedAt(w, key)
  {
    hide ValidCaches, EntryFor, UploadFirst, Round2, StoreAnswers, Unique, UpsertMatrixCells, UpsertNorouteCells;
    match s
    case UploadGpx(u) => FileOnRow(w.db.caches, moved, u, key);
    case _ =>
  }

  lemma {:induction false} RunKeepsPosted(osrm: Osrm, moved: Moved, w: World, steps: seq<Step>, key: Key)
    requires ValidCaches(w.db.caches) && AllWellShaped(w.db.legs) && PostedAt(w, key).Some?
    requires NonePosts(osrm, moved, w, steps, key)
    ensures PostedAt(Run(osrm, moved, w, steps), key) == PostedAt(w, key)
    ensures DatedAt(Run(osrm, moved, w, steps), key) == DatedAt(w, key)
    decreases |steps|
  {
    hide ValidCaches, AllWellShaped, Next, StepPosts, PostedAt, DatedAt;
    if steps != [] {
      var below, last := steps[..|steps| - 1], steps[|steps| - 1];
      forall i | 0 <= i < |below|
        ensures !StepPosts(Run(osrm, moved, w, below[..i]), below[i], key)
      {
        assert below[..i] == steps[..i] && below[i] == steps[i];
      }
      RunKeepsPosted(osrm, moved, w, below, key);
      RunKeepsTables(osrm, moved, w, below);
      assert !StepPosts(Run(osrm, moved, w, steps[..|below|]), steps[|below|], key);
      StepKeepsPosted(osrm, moved, Run(osrm, moved, w, below), last, key);
    }
  }

  lemma UnsolvedIsAtPosted(w: World, osrm: Osrm, moved: Moved, key: Key)
    requires ValidCaches(w.db.caches) && PostedAt(w, key).Some?
    ensures key in w.db.caches.index
    ensures var after := Next(osrm, moved, w, ClearSolved(key.0, w.db.caches.index[key]));
      && RowAt(after.db.caches, key).Some? && !RowAt(after.db.caches, key).value.solved
      && RowAt(after.db.caches, key).value.location == PostedAt(w, key).value
  {
  }

  /**
   A file, however large, posts a cache; then any run in which no file posts it again: uploads in
   either mode, removals, lookups, pre-warms. Removing its solution at the end puts the cache where
   the last entry of that file posted it.
   */
  lemma LastPostedComesBack(osrm: Osrm, moved: Moved, w: World, posting: Upload, key: Key, later: seq<Step>)
    requires ValidCaches(w.db.caches) && AllWellShaped(w.db.legs) && Posts(RowAt(w.db.caches, key), posting, key)
    requires NonePosts(osrm, moved, Next(osrm, moved, w, UploadGpx(posting)), later, key)
    ensures var end := Run(osrm, moved, Next(osrm, moved, w, UploadGpx(posting)), later);
      && key in end.db.caches.index
      && var after := RowAt(Next(osrm, moved, end, ClearSolved(key.0, end.db.caches.index[key])).db.caches, key);
         after.Some? && !after.value.solved && after.value.location == Entry(posting, key).value.location
  {
    var posted := Next(osrm, moved, w, UploadGpx(posting));
    assert PostedAt(posted, key) == Some(Entry(posting, key).value.location) by {
      PostedByFile(w.db.caches, moved, posting, key);
    }
    hide ValidCaches, AllWellShaped, Next, Posts, PostedAt, NonePosts, Run;
    StepProgresses(osrm, moved, w, UploadGpx(posting));
    RunKeepsPosted(osrm, moved, posted, later, key);
    RunKeepsTables(osrm, moved, posted, later);
    UnsolvedIsAtPosted(Run(osrm, moved, posted, later), osrm, moved, key);
  }

  /**
   Once a normal file has posted a cache, files exported before it leave the cache's row alone, through
   any run in which no other file posts it.
   */
  lemma EarlierExportIsSkipped(osrm: Osrm, moved: Moved, w: World, posting: Upload, key: Key, later: seq<Step>,
                               stale: Upload)
    requires ValidCaches(w.db.caches) && AllWellShaped(w.db.legs)
    requires Posts(RowAt(w.db.caches, key), posting, key)
    requires NonePosts(osrm, moved, Next(osrm, moved, w, UploadGpx(posting)), later, key)
    requires !stale.markSolved && stale.exportedAt.Some? && posting.exportedAt.Some?
    requires stale.exportedAt.value < posting.exportedAt.value
    ensures var end := Run(osrm, moved, Next(osrm, moved, w, UploadGpx(posting)), later);
      RowAt(UploadAll(end.db.caches, moved, stale).caches, key) == RowAt(end.db.caches, key)
  {
    var posted := Next(osrm, moved, w, UploadGpx(posting));
    var end := Run(osrm, moved, posted, later);
    assert PostedAt(posted, key).Some? && DatedAt(posted, key) == posting.exportedAt by {
      FileOnRow(w.db.caches, moved, posting, key);
    }
    hide ValidCaches, AllWellShaped, Next, NonePosts, Run, UploadFirst, EntryFor;
    StepProgresses(osrm, moved, w, UploadGpx(posting));
    RunKeepsPosted(osrm, moved, posted, later, key);
    RunKeepsTables(osrm, moved, posted, later);
    FileOnRow(end.db.caches, moved, stale, key);
  }

  ghost predicate PresentThroughout(osrm: Osrm, moved: Moved, w: World, steps: seq<Step>, k: Pair) {
    forall i | 0 <= i <= |steps| :: k in Run(osrm, moved, w, steps[..i]).db.legs
  }

  ghost predicate NoExtractChange(steps: seq<Step>) {
    forall s | s in steps :: !s.ExtractChange?
  }

  /** One step, seen from one live row that it does not delete. */
  lemma LiveRowStep(osrm: Osrm, moved: Moved, w: World, s: Step, k: Pair)
    requires ValidCaches(w.db.caches) && Live(w.db.legs, k, w.version) && !s.ExtractChange?
    requires k in Next(osrm, moved, w, s).db.legs
    ensures var after := Next(osrm, moved, w, s);
      && after.version == w.version && Live(after.db.legs, k, w.version)
      && (after.db.legs[k] == w.db.legs[k] || after.db.legs[k].source == FromRoute)
  {
    StepProgresses(osrm, moved, w, s);
    hide ValidCaches, AllWellShaped, UploadStep, ClearSolvedStep, LegStep, MatrixStep, PrewarmStep, Live;
  }

  /** A run without its last step. */
  lemma LastStep(osrm: Osrm, moved: Moved, w: World, steps: seq<Step>, k: Pair)
    requires steps != [] && NoExtractChange(steps) && PresentThroughout(osrm, moved, w, steps, k)
    ensures var (below, s) := (steps[..|steps| - 1], steps[|steps| - 1]);
      && Run(osrm, moved, w, steps) == Next(osrm, moved, Run(osrm, moved, w, below), s)
      && k in Run(osrm, moved, w, steps).db.legs
      && NoExtractChange(below) && !s.ExtractChange? && PresentThroughout(osrm, moved, w, below, k)
  {
    hide Next;
    var below := steps[..|steps| - 1];
    forall i | 0 <= i <= |below|
      ensures k in Run(osrm, moved, w, below[..i]).db.legs
    {
      assert below[..i] == steps[..i];
    }
    assert steps[..|steps|] == steps;
  }

  /** While the extract stays and a live row is not deleted, the row is unchanged or now a full leg. */
  lemma {:induction false} LiveRowOnlyUpgrades(osrm: Osrm, moved: Moved, w: World, steps: seq<Step>, k: Pair)
    requires ValidCaches(w.db.caches) && AllWellShaped(w.db.legs) && Live(w.db.legs, k, w.version)
    requires NoExtractChange(steps) && PresentThroughout(osrm, moved, w, steps, k)
    ensures var after := Run(osrm, moved, w, steps);
      && after.version == w.version && Live(after.db.legs, k, w.version)
      && (after.db.legs[k] == w.db.legs[k] || after.db.legs[k].source == FromRoute)
    decreases |steps|
  {
    if steps == [] {
      assert Run(osrm, moved, w, steps) == w;
    } else {
      hide ValidCaches, AllWellShaped, Next, Run, NoExtractChange, PresentThroughout;
      var below, s := steps[..|steps| - 1], steps[|steps| - 1];
      LastStep(osrm, moved, w, steps, k);
      LiveRowOnlyUpgrades(osrm, moved, w, below, k);
      RunKeepsTables(osrm, moved, w, below);
      LiveRowStep(osrm, moved, Run(osrm, moved, w, below), s, k);
    }
  }

  // ----- The cache is right after every run -----

  /** Uploads report the caches they move, as with moves of more than a metre; pre-warm destinations are located. */
  ghost predicate Allowed(moved: Moved, w: World, s: Step) {
    match s
    case UploadGpx(u) => ReportsMoves(w.db.caches, moved, u)
    case Prewarm(job) => AllDestsLocated(w.db.caches, job)
    case _ => true
  }

  ghost predicate RunAllowed(osrm: Osrm, moved: Moved, w: World, steps: seq<Step>) {
    forall i | 0 <= i < |steps| :: Allowed(moved, Run(osrm, moved, w, steps[..i]), steps[i])
  }

  lemma PurgeStaysConsistent(osrm: Osrm, db: Db, keys: set<Pair>)
    requires Consistent(osrm, db)
    ensures Consistent(osrm, db.(legs := db.legs - keys))
  {
    var after := db.(legs := db.legs - keys);
    forall k | k in after.legs
      ensures PairAgrees(osrm, after, k)
    {
      assert PairAgrees(osrm, db, k);
    }
  }

  lemma StepStaysConsistent(osrm: Osrm, moved: Moved, w: World, s: Step)
    requires Agreeing(osrm) && Consistent(osrm, w.db) && ValidCaches(w.db.caches) && Allowed(moved, w, s)
    ensures Consistent(osrm, Next(osrm, moved, w, s).db)
  {
    hide Agreeing, Consistent, ValidCaches, ReportsMoves, UploadStep, ClearSolvedStep, LegStep, MatrixStep, PrewarmStep;
    match s
    case UploadGpx(u) => UploadStaysConsistent(osrm, w.db, moved, u);
    case ClearSolved(owner, id) => ClearSolvedStaysConsistent(osrm, w.db, owner, id);
    case GetLeg(owner, from, to) => LegStepStaysConsistent(osrm, w.db, owner, from, to, w.version);
    case GetMatrix(owner, cacheIds) => MatrixStepStaysConsistent(osrm, w.db, owner, cacheIds, w.version);
    case Prewarm(job) => PrewarmStaysConsistent(osrm, w.db, job, w.version);
    case PurgeLegs(keys) => PurgeStaysConsistent(osrm, w.db, keys);
    case ExtractChange(version) =>
  }

  /** Every row, tagged with any version, is what that version's router answers for its caches now. */
  lemma {:induction false} RunStaysConsistent(osrm: Osrm, moved: Moved, w: World, steps: seq<Step>)
    requires Agreeing(osrm) && Consistent(osrm, w.db) && ValidCaches(w.db.caches) && AllWellShaped(w.db.legs)
    requires RunAllowed(osrm, moved, w, steps)
    ensures Consistent(osrm, Run(osrm, moved, w, steps).db)
    decreases |steps|
  {
    hide Agreeing, Consistent, ValidCaches, AllWellShaped, Allowed, Next;
    if steps != [] {
      var below, s := steps[..|steps| - 1], steps[|steps| - 1];
      forall i | 0 <= i < |below|
        ensures Allowed(moved, Run(osrm, moved, w, below[..i]), below[i])
      {
        assert below[..i] == steps[..i];
        assert Allowed(moved, Run(osrm, moved, w, steps[..i]), steps[i]);
      }
      RunStaysConsistent(osrm, moved, w, below);
      RunKeepsTables(osrm, moved, w, below);
      assert Allowed(moved, Run(osrm, moved, w, steps[..|below|]), steps[|below|]);
      StepStaysConsistent(osrm, moved, Run(osrm, moved, w, below), s);
    }
  }

  /** After any such run from empty tables, no lookup can tell whether there is a cache. */
  lemma CacheIsInvisible(osrm: Osrm, moved: Moved, v: Version, steps: seq<Step>, owner: string, k: Pair)
    requires Agreeing(osrm) && RunAllowed(osrm, moved, World(NOTHING_STORED, v), steps)
    ensures var w := Run(osrm, moved, World(NOTHING_STORED, v), steps);
      && LegAnswer(osrm, w.db, owner, k.0, k.1, w.version) == LiveLeg(osrm, w.db.caches, owner, k.0, k.1, w.version)
      && (Known(w.db.caches, k) ==>
          MatrixCell(osrm, w.db, w.version, k) == LiveCell(osrm, w.db.caches, w.version, k))
  {
    RunStaysConsistent(osrm, moved, World(NOTHING_STORED, v), steps);
    var w := Run(osrm, moved, World(NOTHING_STORED, v), steps);
    hide Agreeing, Consistent, Run, LiveCell, MatrixCell, LegAnswer, LiveLeg, RunAllowed;
    LegIsLive(osrm, w.db, owner, k.0, k.1, w.version);
    if Known(w.db.caches, k) { CellIsLive(osrm, w.db, w.version, k); }
  }

  /**
   So after any such run every leg and every matrix entry is the live extract's answer for where the two
   caches are now, to within half a hundredth of a metre and of a second.
   */
  lemma AnswersAreNear(osrm: Osrm, moved: Moved, v: Version, steps: seq<Step>, owner: string, from: int, to: int)
    requires Agreeing(osrm) && RunAllowed(osrm, moved, World(NOTHING_STORED, v), steps)
    ensures var w := Run(osrm, moved, World(NOTHING_STORED, v), steps);
      var rows, reply := w.db.caches.rows, LegAnswer(osrm, w.db, owner, from, to, w.version);
      if from in rows && to in rows && rows[from].owner == owner && rows[to].owner == owner then
        var a, b := rows[from].location, rows[to].location;
        if from == to then reply == Leg(0.0, 0.0, [a, a]) else LegIsNear(reply, osrm.route(w.version, a, b))
      else reply.NotFound?
    ensures var w := Run(osrm, moved, World(NOTHING_STORED, v), steps);
      var rows := w.db.caches.rows;
      from in rows && to in rows ==>
        var entry := MatrixCell(osrm, w.db, w.version, (from, to));
        if from == to then entry == Some(Cell(0.0, 0.0))
        else CellIsNear(entry, osrm.table(w.version, rows[from].location, rows[to].location))
  {
    CacheIsInvisible(osrm, moved, v, steps, owner, (from, to));
    var w := Run(osrm, moved, World(NOTHING_STORED, v), steps);
    var rows := w.db.caches.rows;
    hide Run, LegAnswer, MatrixCell, RoundedLeg, RoundedCell, LegIsNear, CellIsNear, Agreeing, RunAllowed;
    if from in rows && to in rows {
      RoundedLegIsNear(osrm.route(w.version, rows[from].location, rows[to].location));
      RoundedCellIsNear(osrm.table(w.version, rows[from].location, rows[to].location));
    }
  }
}
