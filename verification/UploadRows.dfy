/**
 What a whole file does to one row. Decisions are taken against the table as it was before the file,
 so of several entries for one cache the last one wins.
 */
module UploadRows {
  import opened Options
  import opened LegTable
  import opened CacheTable

  /** Owner and source id. */
  type Key = (string, string)

  function RowAt(c: Caches, key: Key): Option<CacheRow> {
    if key in c.index && c.index[key] in c.rows then Some(c.rows[c.index[key]]) else None
  }

  /** The last of the first `count` entries with this source id. */
  function LastFor(u: Upload, count: nat, sourceId: string): Option<ParsedCache>
    requires count <= |u.caches|
  {
    if count == 0 then None
    else if u.caches[count - 1].sourceId == sourceId then Some(u.caches[count - 1])
    else LastFor(u, count - 1, sourceId)
  }

  /** The entry a file holds for a row, if any. */
  function EntryFor(u: Upload, count: nat, key: Key): Option<ParsedCache>
    requires count <= |u.caches|
  {
    if key.0 == u.owner then LastFor(u, count, key.1) else None
  }

  function Entry(u: Upload, key: Key): Option<ParsedCache> {
    EntryFor(u, |u.caches|, key)
  }

  predicate StaleFor(row: Option<CacheRow>, u: Upload) {
    && !u.markSolved && row.Some? && row.value.exportedAt.Some? && u.exportedAt.Some?
    && u.exportedAt.value < row.value.exportedAt.value
  }

  /** What one entry makes of a row it is not stale for. */
  function Written(row: Option<CacheRow>, u: Upload, p: ParsedCache): CacheRow {
    if row == None then InsertedRow(u, p) else UpdatedRow(u, p, row.value, u.markSolved || !row.value.solved)
  }

  function Outcome(row: Option<CacheRow>, u: Upload, entry: Option<ParsedCache>): Option<CacheRow> {
    if entry == None || StaleFor(row, u) then row else Some(Written(row, u, entry.value))
  }

  lemma UpsertRow(c: Caches, u: Upload, p: ParsedCache, writesLocation: bool, key: Key)
    requires WellIndexed(c)
    ensures RowAt(Upsert(c, u, p, writesLocation), key)
         == if key != (u.owner, p.sourceId) then RowAt(c, key)
            else if RowAt(c, key) == None then Some(InsertedRow(u, p))
            else Some(UpdatedRow(u, p, RowAt(c, key).value, writesLocation))
  {
    hide InsertedRow, UpdatedRow;
    assert c.nextId !in c.rows;
  }

  /** A later entry of the same file undoes what an earlier one wrote. */
  lemma LastEntryWins(row: Option<CacheRow>, u: Upload, first: ParsedCache, second: ParsedCache)
    ensures UpdatedRow(u, second, Written(row, u, first), u.markSolved || row == None || !row.value.solved)
         == Written(row, u, second)
  {
  }

  /** After any part of a file a row is what the last of its entries makes of the row before the file. */
  lemma {:induction false} UploadedRow(c: Caches, moved: Moved, u: Upload, count: nat, key: Key)
    requires ValidCaches(c) && count <= |u.caches|
    ensures RowAt(UploadFirst(c, moved, u, count).caches, key) == Outcome(RowAt(c, key), u, EntryFor(u, count, key))
  {
    hide Upsert, InsertedRow, UpdatedRow, Written, Relocates, Grows, WellIndexed, UnsolvedAtPosted;
    if count > 0 {
      var below, p := UploadFirst(c, moved, u, count - 1).caches, u.caches[count - 1];
      UploadedRow(c, moved, u, count - 1, key);
      UploadKeepsValid(c, moved, u, count - 1);
      UpsertRow(below, u, p, WritesLocation(c, u, p), key);
      if key == (u.owner, p.sourceId) && !IsStale(c, u, p) {
        var earlier := EntryFor(u, count - 1, key);
        if earlier.Some? {
          LastEntryWins(RowAt(c, key), u, earlier.value, p);
        } else {
          WrittenIs(RowAt(c, key), u, p);
        }
      }
    }
  }

  lemma WrittenIs(row: Option<CacheRow>, u: Upload, p: ParsedCache)
    ensures row == None ==> Written(row, u, p) == InsertedRow(u, p)
    ensures row.Some? ==> Written(row, u, p) == UpdatedRow(u, p, row.value, u.markSolved || !row.value.solved)
  {
  }

  /** `LastFor` finds the last such entry. */
  lemma {:induction false} LastForIsLast(u: Upload, count: nat, sourceId: string)
    requires count <= |u.caches|
    ensures match LastFor(u, count, sourceId)
      case None => forall i | 0 <= i < count :: u.caches[i].sourceId != sourceId
      case Some(p) => exists i | 0 <= i < count :: u.caches[i] == p && p.sourceId == sourceId && LastAt(u, count, i)
  {
    if count > 0 {
      LastForIsLast(u, count - 1, sourceId);
      if u.caches[count - 1].sourceId == sourceId {
        assert LastAt(u, count, count - 1);
      } else if LastFor(u, count - 1, sourceId).Some? {
        var i :| 0 <= i < count - 1 && u.caches[i] == LastFor(u, count - 1, sourceId).value && LastAt(u, count - 1, i);
        assert LastAt(u, count, i);
      }
    }
  }

  ghost predicate LastAt(u: Upload, count: nat, i: nat)
    requires i < count <= |u.caches|
  {
    forall j | i < j < count :: u.caches[j].sourceId != u.caches[i].sourceId
  }

  /** The row after a solved file with this entry: moved there, but posted and dated as before. */
  predicate SolvedByFile(row: Option<CacheRow>, u: Upload, p: ParsedCache, after: CacheRow) {
    && after.location == p.location && after.solved
    && after.published == (if row.Some? then row.value.published else None)
    && after.exportedAt == (if row.Some? then row.value.exportedAt else u.exportedAt)
  }

  /** The row after a fresh normal file with this entry: posted there and dated by the file; a solved one stays put. */
  predicate RenewedByFile(row: Option<CacheRow>, u: Upload, p: ParsedCache, after: CacheRow) {
    && after.published == Some(p.location) && after.exportedAt == u.exportedAt
    && after.solved == (row.Some? && row.value.solved)
    && after.location == if row.Some? && row.value.solved then row.value.location else p.location
  }

  /** Everything a file does to one row: nothing, if it is a normal one exported before the row was. */
  lemma FileOnRow(c: Caches, moved: Moved, u: Upload, key: Key)
    requires ValidCaches(c)
    ensures var row, after, entry := RowAt(c, key), RowAt(UploadAll(c, moved, u).caches, key), Entry(u, key);
      var earlier := row.Some? && row.value.exportedAt.Some? && u.exportedAt.Some?
                     && u.exportedAt.value < row.value.exportedAt.value;
      if entry == None || (earlier && !u.markSolved) then after == row
      else
        && after.Some? && after.value.owner == key.0
        && if u.markSolved then SolvedByFile(row, u, entry.value, after.value)
           else RenewedByFile(row, u, entry.value, after.value)
  {
    hide UploadFirst, EntryFor;
    assert RowAt(c, key).Some? ==> RowAt(c, key).value.owner == key.0;
    assert Entry(u, key).Some? ==> key.0 == u.owner by { OwnEntry(u, key); }
    UploadedRow(c, moved, u, |u.caches|, key);
  }

  lemma OwnEntry(u: Upload, key: Key)
    ensures Entry(u, key).Some? ==> key.0 == u.owner
  {
  }

  // ----- Stale entries -----

  lemma {:induction false} StaleIsNotRelocated(c: Caches, moved: Moved, u: Upload, count: nat, key: Key)
    requires ValidCaches(c) && count <= |u.caches| && key.0 == u.owner && StaleFor(RowAt(c, key), u)
    ensures c.index[key] !in UploadFirst(c, moved, u, count).relocated
  {
    hide Upsert, UnsolvedAtPosted;
    if count > 0 { StaleIsNotRelocated(c, moved, u, count - 1, key); }
  }

  /** A stale entry leaves its own row as it was, wherever it is in the file and whatever else the file writes. */
  lemma StaleEntryKeepsItsRow(c: Caches, moved: Moved, u: Upload, key: Key)
    requires ValidCaches(c) && key.0 == u.owner && StaleFor(RowAt(c, key), u)
    ensures var after := UploadAll(c, moved, u);
      RowAt(after.caches, key) == RowAt(c, key) && c.index[key] !in after.relocated
  {
    UploadedRow(c, moved, u, |u.caches|, key);
    StaleIsNotRelocated(c, moved, u, |u.caches|, key);
  }

  /** A file of stale entries only changes nothing. */
  lemma {:induction false} StaleFileIsNoOp(c: Caches, moved: Moved, u: Upload, count: nat)
    requires count <= |u.caches| && forall p | p in u.caches :: IsStale(c, u, p)
    ensures UploadFirst(c, moved, u, count) == Uploaded(c, {})
  {
    hide IsStale;
    if count > 0 {
      assert u.caches[count - 1] in u.caches;
      StaleFileIsNoOp(c, moved, u, count - 1);
    }
  }

  // ----- Solved and normal uploads -----

  /** Location, posted coordinate and solved flag of a cache, if it is known. */
  function Whereabouts(row: Option<CacheRow>): Option<(Coord, Option<Coord>, bool)> {
    if row.Some? then Some((row.value.location, row.value.published, row.value.solved)) else None
  }

  /** Coming second, the normal file would be skipped as stale for a cache the solved one has just created. */
  predicate Conflicts(c: Caches, solved: Upload, normal: Upload, key: Key) {
    && key !in c.index && Entry(solved, key).Some? && Entry(normal, key).Some?
    && solved.exportedAt.Some? && normal.exportedAt.Some? && normal.exportedAt.value < solved.exportedAt.value
  }

  lemma OutcomesCommute(row: Option<CacheRow>, solved: Upload, normal: Upload, es: Option<ParsedCache>,
                        en: Option<ParsedCache>)
    requires solved.markSolved && !normal.markSolved
    ensures Whereabouts(Outcome(Outcome(row, solved, es), normal, en))
         == Whereabouts(Outcome(Outcome(row, normal, en), solved, es))
      <==> !(row == None && es.Some? && en.Some? && solved.exportedAt.Some? && normal.exportedAt.Some?
             && normal.exportedAt.value < solved.exportedAt.value)
  {
  }

  lemma UploadedTwice(c: Caches, moved: Moved, first: Upload, second: Upload, key: Key)
    requires ValidCaches(c)
    ensures RowAt(UploadAll(UploadAll(c, moved, first).caches, moved, second).caches, key)
         == Outcome(Outcome(RowAt(c, key), first, Entry(first, key)), second, Entry(second, key))
  {
    hide ValidCaches, Outcome, EntryFor, UploadFirst, RowAt;
    UploadedRow(c, moved, first, |first.caches|, key);
    UploadKeepsValid(c, moved, first, |first.caches|);
    UploadedRow(UploadAll(c, moved, first).caches, moved, second, |second.caches|, key);
  }

  /**
   A solved and a normal file, of any owners and any size, commute on where a cache is, except exactly
   for a cache that is new, is in both files, and whose solved file was exported later.
   */
  lemma SolvedAndNormalCommute(c: Caches, moved: Moved, solved: Upload, normal: Upload, key: Key)
    requires ValidCaches(c) && solved.markSolved && !normal.markSolved
    ensures Whereabouts(RowAt(UploadAll(UploadAll(c, moved, solved).caches, moved, normal).caches, key))
         == Whereabouts(RowAt(UploadAll(UploadAll(c, moved, normal).caches, moved, solved).caches, key))
      <==> !Conflicts(c, solved, normal, key)
  {
    hide Outcome, EntryFor, UploadAll, Whereabouts;
    UploadedTwice(c, moved, solved, normal, key);
    UploadedTwice(c, moved, normal, solved, key);
    OutcomesCommute(RowAt(c, key), solved, normal, Entry(solved, key), Entry(normal, key));
  }

  // ----- Posted coordinates -----

  /** The file is a normal one and gives the row a new posted coordinate. */
  predicate Posts(row: Option<CacheRow>, u: Upload, key: Key) {
    !u.markSolved && Entry(u, key).Some? && !StaleFor(row, u)
  }

  lemma WritesPosted(row: Option<CacheRow>, u: Upload, entry: Option<ParsedCache>)
    ensures entry.Some? && !u.markSolved ==> Written(row, u, entry.value).published == Some(entry.value.location)
    ensures entry.Some? && u.markSolved && row.Some? ==>
      Written(row, u, entry.value).published == row.value.published
  {
  }

  /** A known row's posted coordinate changes only when a file posts, and then to that file's last entry for it. */
  lemma PostedByFile(c: Caches, moved: Moved, u: Upload, key: Key)
    requires ValidCaches(c)
    ensures var row, after := RowAt(c, key), RowAt(UploadAll(c, moved, u).caches, key);
      && (Posts(row, u, key) ==> after.Some? && after.value.published == Some(Entry(u, key).value.location))
      && (!Posts(row, u, key) && row.Some? ==> after.Some? && after.value.published == row.value.published)
  {
    hide UploadFirst, RowAt, InsertedRow, EntryFor, StaleFor;
    WritesPosted(RowAt(c, key), u, Entry(u, key));
    UploadedRow(c, moved, u, |u.caches|, key);
  }
}
