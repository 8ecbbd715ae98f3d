/**
 The cache table under GPX uploads and the removal of solved coordinates.

 A row's `location` is the coordinate the planner uses: the solved coordinate while `solved`,
 otherwise the posted one, which is kept in `published`.
 */
module CacheTable {
  import opened Options
  import opened LegTable

  datatype CacheRow = CacheRow(owner: string, location: Coord, published: Option<Coord>, solved: bool,
                               exportedAt: Option<int>)

  /** The unique index on (owner, source id) is a map to row ids; ids come from a counter. */
  datatype Caches = Caches(rows: map<int, CacheRow>, index: map<(string, string), int>, nextId: int)

  ghost predicate WellIndexed(c: Caches) {
    && (forall key | key in c.index :: c.index[key] in c.rows && c.rows[c.index[key]].owner == key.0)
    && (forall a, b | a in c.index && b in c.index && c.index[a] == c.index[b] :: a == b)
    && (forall id | id in c.rows :: id < c.nextId)
  }

  datatype ParsedCache = ParsedCache(sourceId: string, location: Coord)

  datatype Upload = Upload(owner: string, caches: seq<ParsedCache>, exportedAt: Option<int>, markSolved: bool)

  /** The row an upload finds before it starts writing. */
  function Existing(c: Caches, u: Upload, p: ParsedCache): Option<int> {
    var key := (u.owner, p.sourceId);
    if key in c.index && c.index[key] in c.rows then Some(c.index[key]) else None
  }

  /** Normal uploads skip a row that was exported later than they were. */
  predicate IsStale(c: Caches, u: Upload, p: ParsedCache) {
    && !u.markSolved
    && Existing(c, u, p).Some?
    && var row := c.rows[Existing(c, u, p).value];
       row.exportedAt.Some? && u.exportedAt.Some? && u.exportedAt.value < row.exportedAt.value
  }

  predicate WritesLocation(c: Caches, u: Upload, p: ParsedCache) {
    u.markSolved || Existing(c, u, p) == None || !c.rows[Existing(c, u, p).value].solved
  }

  /** The row inserted when the index has no entry. */
  function InsertedRow(u: Upload, p: ParsedCache): CacheRow {
    if u.markSolved then CacheRow(u.owner, p.location, None, true, u.exportedAt)
    else CacheRow(u.owner, p.location, Some(p.location), false, u.exportedAt)
  }

  /** The row left by the conflict clause. A solved upload touches only location and flag. */
  function UpdatedRow(u: Upload, p: ParsedCache, row: CacheRow, writesLocation: bool): CacheRow {
    if u.markSolved then row.(location := p.location, solved := true)
    else row.(location := if writesLocation then p.location else row.location,
              published := Some(p.location), exportedAt := u.exportedAt)
  }

  /** INSERT … ON CONFLICT DO UPDATE on the unique index. */
  function Upsert(c: Caches, u: Upload, p: ParsedCache, writesLocation: bool): Caches {
    var key := (u.owner, p.sourceId);
    if key in c.index && c.index[key] in c.rows then
      var id := c.index[key];
      c.(rows := c.rows[id := UpdatedRow(u, p, c.rows[id], writesLocation)])
    else
      Caches(c.rows[c.nextId := InsertedRow(u, p)], c.index[key := c.nextId], c.nextId + 1)
  }

  type Moved = (Coord, Coord) -> real

  /** Did the write move the stored location by more than a metre? */
  predicate Relocates(c: Caches, moved: Moved, u: Upload, p: ParsedCache) {
    && Existing(c, u, p).Some? && WritesLocation(c, u, p)
    && moved(c.rows[Existing(c, u, p).value].location, p.location) > 1.0
  }

  datatype Uploaded = Uploaded(caches: Caches, relocated: set<int>)

  /** After the first `count` caches of the file; decisions read the table as it was before. */
  function UploadFirst(c: Caches, moved: Moved, u: Upload, count: nat): Uploaded
    requires count <= |u.caches|
  {
    if count == 0 then Uploaded(c, {})
    else
      var below, p := UploadFirst(c, moved, u, count - 1), u.caches[count - 1];
      if IsStale(c, u, p) then below
      else Uploaded(Upsert(below.caches, u, p, WritesLocation(c, u, p)),
                    if Relocates(c, moved, u, p) then below.relocated + {Existing(c, u, p).value} else below.relocated)
  }

  function UploadAll(c: Caches, moved: Moved, u: Upload): Uploaded {
    UploadFirst(c, moved, u, |u.caches|)
  }

  predicate Clearable(c: Caches, owner: string, id: int) {
    id in c.rows && c.rows[id].owner == owner && c.rows[id].solved
  }

  function Clear(c: Caches, owner: string, id: int): Caches {
    if Clearable(c, owner, id) then
      var row := c.rows[id];
      c.(rows := c.rows[id := row.(solved := false,
                                   location := if row.published.Some? then row.published.value else row.location)])
    else c
  }

  // ----- What every upload and every removal keeps -----

  /** An unsolved cache with a known posted coordinate is located there. */
  ghost predicate UnsolvedAtPosted(c: Caches) {
    forall id | id in c.rows && !c.rows[id].solved && c.rows[id].published.Some? ::
      c.rows[id].location == c.rows[id].published.value
  }

  ghost predicate ValidCaches(c: Caches) {
    WellIndexed(c) && UnsolvedAtPosted(c)
  }

  /** During an upload, rows that existed keep owner and index entry, and normal uploads keep the solved flag. */
  ghost predicate Grows(c: Caches, c': Caches, u: Upload) {
    && c.nextId <= c'.nextId && c.rows.Keys <= c'.rows.Keys
    && (forall key | key in c.index :: key in c'.index && c'.index[key] == c.index[key])
    && (forall key | key in c'.index && key !in c.index :: c'.index[key] >= c.nextId)
    && (forall id | id in c.rows :: c'.rows[id].owner == c.rows[id].owner)
    && (!u.markSolved ==> forall id | id in c.rows :: c'.rows[id].solved == c.rows[id].solved)
    && (!u.markSolved ==> forall id | id in c'.rows && id !in c.rows :: !c'.rows[id].solved)
  }

  ghost predicate Uploading(c: Caches, c': Caches, u: Upload) {
    ValidCaches(c') && Grows(c, c', u)
  }

  lemma UpdateKeepsValid(c: Caches, c': Caches, u: Upload, p: ParsedCache)
    requires ValidCaches(c) && Uploading(c, c', u) && (u.owner, p.sourceId) in c'.index
    ensures Uploading(c, Upsert(c', u, p, WritesLocation(c, u, p)), u)
  {
    var key := (u.owner, p.sourceId);
    var id := c'.index[key];
    if key in c.index { assert id in c.rows; } else { assert id !in c.rows; }
  }

  lemma InsertKeepsIndex(c: Caches, u: Upload, p: ParsedCache, writesLocation: bool)
    requires ValidCaches(c) && (u.owner, p.sourceId) !in c.index
    ensures ValidCaches(Upsert(c, u, p, writesLocation))
  {
    assert c.nextId !in c.rows;
  }

  lemma InsertGrows(c: Caches, c': Caches, u: Upload, p: ParsedCache, writesLocation: bool)
    requires Grows(c, c', u) && (u.owner, p.sourceId) !in c'.index
    requires forall id | id in c'.rows :: id < c'.nextId
    ensures Grows(c, Upsert(c', u, p, writesLocation), u)
  {
    assert c'.nextId !in c.rows;
  }

  lemma InsertKeepsValid(c: Caches, c': Caches, u: Upload, p: ParsedCache, writesLocation: bool)
    requires ValidCaches(c) && Uploading(c, c', u) && (u.owner, p.sourceId) !in c'.index
    ensures Uploading(c, Upsert(c', u, p, writesLocation), u)
  {
    hide Grows, Upsert, UnsolvedAtPosted;
    InsertKeepsIndex(c', u, p, writesLocation);
    InsertGrows(c, c', u, p, writesLocation);
  }

  lemma {:induction false} UploadKeepsValid(c: Caches, moved: Moved, u: Upload, count: nat)
    requires ValidCaches(c) && count <= |u.caches|
    ensures Uploading(c, UploadFirst(c, moved, u, count).caches, u)
  {
    hide Uploading, WritesLocation, Upsert, IsStale, Relocates;
    if count == 0 {
      NothingUploadedYet(c, u);
    } else {
      UploadKeepsValid(c, moved, u, count - 1);
      var below, p := UploadFirst(c, moved, u, count - 1).caches, u.caches[count - 1];
      if (u.owner, p.sourceId) in below.index {
        UpdateKeepsValid(c, below, u, p);
      } else {
        InsertKeepsValid(c, below, u, p, WritesLocation(c, u, p));
      }
    }
  }

  lemma NothingUploadedYet(c: Caches, u: Upload)
    requires ValidCaches(c)
    ensures Uploading(c, c, u)
  {
  }

  lemma ClearKeepsValid(c: Caches, owner: string, id: int)
    requires ValidCaches(c)
    ensures ValidCaches(Clear(c, owner, id)) && Clear(c, owner, id).rows.Keys == c.rows.Keys
    ensures forall other | other in c.rows && other != id :: Clear(c, owner, id).rows[other] == c.rows[other]
    ensures id in c.rows && c.rows[id].owner == owner && c.rows[id].solved ==>
      var (row, after) := (c.rows[id], Clear(c, owner, id).rows[id]);
      && !after.solved && after.published == row.published && after.exportedAt == row.exportedAt
      && after.location == if row.published.Some? then row.published.value else row.location
  {
  }

  // ----- Solved coordinates -----

  /** Uploads applied one after the other. */
  function UploadEach(c: Caches, moved: Moved, uploads: seq<Upload>): Caches {
    if uploads == [] then c
    else UploadAll(UploadEach(c, moved, uploads[..|uploads| - 1]), moved, uploads[|uploads| - 1]).caches
  }

  lemma SolvedUpsertKeepsPosted(c: Caches, u: Upload, p: ParsedCache, writesLocation: bool, id: int)
    requires WellIndexed(c) && u.markSolved && id in c.rows
    ensures var c' := Upsert(c, u, p, writesLocation);
      id in c'.rows && c'.rows[id].published == c.rows[id].published && c'.rows[id].owner == c.rows[id].owner
  {
  }

  lemma {:induction false} SolvedUploadKeepsPosted(c: Caches, moved: Moved, u: Upload, count: nat, id: int)
    requires ValidCaches(c) && u.markSolved && count <= |u.caches| && id in c.rows
    ensures var c' := UploadFirst(c, moved, u, count).caches;
      id in c'.rows && c'.rows[id].published == c.rows[id].published && c'.rows[id].owner == c.rows[id].owner
  {
    hide Upsert, WritesLocation, Relocates, Grows, WellIndexed, UnsolvedAtPosted;
    if count > 0 {
      SolvedUploadKeepsPosted(c, moved, u, count - 1, id);
      UploadKeepsValid(c, moved, u, count - 1);
      SolvedUpsertKeepsPosted(UploadFirst(c, moved, u, count - 1).caches, u, u.caches[count - 1],
                              WritesLocation(c, u, u.caches[count - 1]), id);
    }
  }

  lemma {:induction false} SolvedUploadsKeepPosted(c: Caches, moved: Moved, uploads: seq<Upload>, id: int)
    requires ValidCaches(c) && id in c.rows && forall u | u in uploads :: u.markSolved
    ensures var c' := UploadEach(c, moved, uploads);
      ValidCaches(c') && id in c'.rows
      && c'.rows[id].published == c.rows[id].published && c'.rows[id].owner == c.rows[id].owner
    decreases |uploads|
  {
    if uploads != [] {
      var below, u := uploads[..|uploads| - 1], uploads[|uploads| - 1];
      assert forall v | v in below :: v in uploads;
      assert u in uploads;
      SolvedUploadsKeepPosted(c, moved, below, id);
      UploadKeepsValid(UploadEach(c, moved, below), moved, u, |u.caches|);
      SolvedUploadKeepsPosted(UploadEach(c, moved, below), moved, u, |u.caches|, id);
    }
  }

  /** However often a cache is solved, removing the solution puts it back where it was posted. */
  lemma ClearingRestoresPosted(c: Caches, moved: Moved, uploads: seq<Upload>, id: int)
    requires ValidCaches(c) && id in c.rows && c.rows[id].published.Some?
    requires forall u | u in uploads :: u.markSolved
    ensures var c' := Clear(UploadEach(c, moved, uploads), c.rows[id].owner, id);
      && id in c'.rows && !c'.rows[id].solved
      && c'.rows[id].location == c.rows[id].published.value && c'.rows[id].published == c.rows[id].published
  {
    SolvedUploadsKeepPosted(c, moved, uploads, id);
  }
}
