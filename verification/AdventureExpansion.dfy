/** Expanding a selection with the missing stages of the adventures it touches, whole or not at all. */
module AdventureExpansion {
  import opened Lists
  import opened Options
  import opened Components
  import opened AdventureCohesion

  const AUGMENT_MAX_CACHES := 50

  /** The columns of the owner's cache table that the expansion reads. */
  datatype CacheRow = CacheRow(id: int, adventureId: Option<string>, archived: bool)

  ghost predicate UniqueIds(table: seq<CacheRow>) {
    forall r, s | r in table && s in table && r.id == s.id :: r == s
  }

  function FindByIds(table: seq<CacheRow>, ids: seq<int>): (rows: seq<CacheRow>)
    ensures forall r :: r in rows <==> r in table && r.id in ids
  {
    if table == [] then []
    else
      var rest := FindByIds(table[1..], ids);
      assert table == [table[0]] + table[1..];
      if table[0].id in ids then [table[0]] + rest else rest
  }

  /** The stages of the given adventures that are not archived. */
  function FindAdventureStages(table: seq<CacheRow>, adventures: set<string>): (rows: seq<CacheRow>)
    ensures forall r :: r in rows <==>
      r in table && r.adventureId.Some? && r.adventureId.value in adventures && !r.archived
  {
    if table == [] then []
    else
      var rest := FindAdventureStages(table[1..], adventures);
      assert table == [table[0]] + table[1..];
      var r := table[0];
      if r.adventureId.Some? && r.adventureId.value in adventures && !r.archived then [r] + rest else rest
  }

  function TouchedAdventures(rows: seq<CacheRow>): set<string> {
    set r | r in rows && r.adventureId.Some? && r.adventureId.value != [] :: r.adventureId.value
  }

  /** Ids of the selected caches that belong to no adventure. */
  function PlainIds(rows: seq<CacheRow>): set<int> {
    set r | r in rows && r.adventureId == None :: r.id
  }

  // ----- Grouping stages by adventure, in order of first appearance -----

  datatype Grouping = Grouping(order: seq<string>, stageIds: map<string, seq<int>>)

  function AddStage(g: Grouping, r: CacheRow): Grouping {
    match r.adventureId
    case None => g
    case Some(a) =>
      if a in g.stageIds then g.(stageIds := g.stageIds[a := g.stageIds[a] + [r.id]])
      else Grouping(g.order + [a], g.stageIds[a := [r.id]])
  }

  function GroupByAdventure(stages: seq<CacheRow>): Grouping {
    if stages == [] then Grouping([], map[])
    else AddStage(GroupByAdventure(stages[..|stages| - 1]), stages[|stages| - 1])
  }

  function StagesAt(g: Grouping, p: int): seq<int>
    requires 0 <= p < |g.order|
  {
    if g.order[p] in g.stageIds then g.stageIds[g.order[p]] else []
  }

  /** Each adventure appears once and has exactly its own stages. */
  ghost predicate Groups(g: Grouping, stages: seq<CacheRow>) {
    && (forall p, q | 0 <= p < q < |g.order| :: g.order[p] != g.order[q])
    && (forall a :: a in g.order <==> a in g.stageIds)
    && (forall a, id | a in g.stageIds ::
        id in g.stageIds[a] <==> exists r | r in stages :: r.id == id && r.adventureId == Some(a))
    && (forall r | r in stages && r.adventureId.Some? :: r.adventureId.value in g.stageIds)
  }

  lemma {:induction false} GroupingIsFaithful(stages: seq<CacheRow>)
    ensures Groups(GroupByAdventure(stages), stages)
    decreases |stages|
  {
    if stages != [] {
      var below, r := stages[..|stages| - 1], stages[|stages| - 1];
      GroupingIsFaithful(below);
      assert stages == below + [r];
      var g, g' := GroupByAdventure(below), GroupByAdventure(stages);
      forall a, id | a in g'.stageIds
        ensures id in g'.stageIds[a] <==> exists s | s in stages :: s.id == id && s.adventureId == Some(a)
      {
        if a in g.stageIds {
          assert id in g.stageIds[a] <==> exists s | s in below :: s.id == id && s.adventureId == Some(a);
        } else {
          assert forall s | s in below :: s.adventureId != Some(a);
        }
        if id == r.id && r.adventureId == Some(a) { assert r in stages; }
      }
    }
  }

  /** The ids of an adventure's rows, in row order. */
  function StageIdsOf(stages: seq<CacheRow>, a: string): seq<int> {
    if stages == [] then []
    else
      var below, r := StageIdsOf(stages[..|stages| - 1], a), stages[|stages| - 1];
      if r.adventureId == Some(a) then below + [r.id] else below
  }

  /** Each adventure lists the ids of its rows in row order, each as often as it has a row. */
  lemma {:induction false} StagesInRowOrder(stages: seq<CacheRow>, a: string)
    ensures var g := GroupByAdventure(stages);
      && (a in g.stageIds <==> StageIdsOf(stages, a) != [])
      && (a in g.stageIds ==> g.stageIds[a] == StageIdsOf(stages, a))
    decreases |stages|
  {
    if stages != [] { StagesInRowOrder(stages[..|stages| - 1], a); }
  }

  /** An adventure comes before another when it is the first of the two to be seen. */
  lemma {:induction false} AdventuresInSeenOrder(stages: seq<CacheRow>, p: nat, q: nat)
    requires p < q < |GroupByAdventure(stages).order|
    ensures var order := GroupByAdventure(stages).order;
      exists i | 0 <= i < |stages| :: stages[i].adventureId == Some(order[p]) && NotSeenUpTo(stages, i, order[q])
    decreases |stages|
  {
    var below, r := stages[..|stages| - 1], stages[|stages| - 1];
    var g, g' := GroupByAdventure(below), GroupByAdventure(stages);
    GroupingIsFaithful(below);
    if q < |g.order| {
      AdventuresInSeenOrder(below, p, q);
      var i :| 0 <= i < |below| && below[i].adventureId == Some(g.order[p]) && NotSeenUpTo(below, i, g.order[q]);
      assert NotSeenUpTo(stages, i, g'.order[q]);
    } else {
      assert g.order[p] in g.stageIds && StageIdsOf(below, g.order[p]) != [] by { StagesInRowOrder(below, g.order[p]); }
      var i := SomeRow(below, g.order[p]);
      assert NotSeenUpTo(stages, i, g'.order[q]) by {
        assert forall k | 0 <= k <= i :: stages[k] == below[k] && below[k] in below;
      }
    }
  }

  predicate NotSeenUpTo(stages: seq<CacheRow>, i: int, a: string)
    requires 0 <= i < |stages|
  {
    forall k | 0 <= k <= i :: stages[k].adventureId != Some(a)
  }

  lemma {:induction false} SomeRow(stages: seq<CacheRow>, a: string) returns (i: nat)
    requires StageIdsOf(stages, a) != []
    ensures i < |stages| && stages[i].adventureId == Some(a)
    decreases |stages|
  {
    i := |stages| - 1;
    if stages[i].adventureId != Some(a) { i := SomeRow(stages[..i], a); }
  }

  // ----- Packing -----

  datatype DropReason = Unreachable | CandidateCap

  datatype DroppedCache = DroppedCache(id: int, reason: DropReason)

  datatype Packing = Packing(kept: set<int>, drops: seq<DroppedCache>)

  function Drops(ids: seq<int>, reason: DropReason): seq<DroppedCache> {
    seq(|ids|, p requires 0 <= p < |ids| => DroppedCache(ids[p], reason))
  }

  function DroppedIds(drops: seq<DroppedCache>): set<int> {
    set d | d in drops :: d.id
  }

  function PackOne(p: Packing, adventure: string, ids: seq<int>, rejected: set<string>,
                   atomic: bool, selection: set<int>): Packing {
    if adventure in rejected then
      if atomic then p.(drops := p.drops + Drops(ids, Unreachable))
      else p.(kept := p.kept + (SetOf(ids) * selection))
    else if |p.kept| + |ids| > AUGMENT_MAX_CACHES then p.(drops := p.drops + Drops(ids, CandidateCap))
    else p.(kept := p.kept + SetOf(ids))
  }

  /** The outcome after the first `count` adventures. */
  function Pack(g: Grouping, count: nat, plain: set<int>, rejected: set<string>,
                atomic: bool, selection: set<int>): Packing
    requires count <= |g.order|
  {
    if count == 0 then Packing(plain, [])
    else
      PackOne(Pack(g, count - 1, plain, rejected, atomic, selection),
              g.order[count - 1], StagesAt(g, count - 1), rejected, atomic, selection)
  }

  function RejectedNames(rejected: seq<Adventure>): set<string> {
    set a | a in rejected :: a.adventureId
  }

  function Candidates(g: Grouping): seq<Adventure> {
    seq(|g.order|, p requires 0 <= p < |g.order| => Adventure(g.order[p], StagesAt(g, p)))
  }

  /** The expansion as a function of the table, the selection and the walking matrix. */
  ghost function Expansion(table: seq<CacheRow>, cacheIds: seq<int>, matrix: RoutingMatrix,
                           maxLinkMeters: real, atomic: bool): Packing {
    var rows := FindByIds(table, cacheIds);
    if TouchedAdventures(rows) == {} then Packing(SetOf(cacheIds), [])
    else
      var g := GroupByAdventure(FindAdventureStages(table, TouchedAdventures(rows)));
      var candidates := Candidates(g);
      var link := ClusterLink(cacheIds, candidates, matrix, maxLinkMeters);
      Pack(g, |g.order|, PlainIds(rows), RejectedNames(Rejected(link, cacheIds, candidates, |candidates|)),
           atomic, SetOf(cacheIds))
  }

  // ----- The order of the kept ids -----

  /** Elements of `list` in list order, some left out. */
  predicate Within(part: seq<int>, list: seq<int>) {
    part == [] || (list != []
      && (Within(part, list[..|list| - 1])
          || (part[|part| - 1] == list[|list| - 1] && Within(part[..|part| - 1], list[..|list| - 1]))))
  }

  lemma WithinMore(part: seq<int>, list: seq<int>, x: int)
    requires Within(part, list)
    ensures Within(part, list + [x]) && Within(part + [x], list + [x])
  {
    assert (list + [x])[..|list|] == list && (part + [x])[..|part|] == part;
  }

  lemma {:induction false} WithinLonger(part: seq<int>, list: seq<int>, more: seq<int>)
    requires Within(part, list)
    ensures Within(part, list + more)
    decreases |more|
  {
    if more == [] {
      assert list + more == list;
    } else {
      var below := more[..|more| - 1];
      WithinLonger(part, list, below);
      WithinMore(part, list + below, more[|more| - 1]);
      assert list + more == (list + below) + [more[|more| - 1]];
    }
  }

  /** The selection's caches outside any adventure, in row order. */
  function PlainList(rows: seq<CacheRow>): (ids: seq<int>)
    ensures SetOf(ids) == PlainIds(rows)
  {
    if rows == [] then []
    else
      var below, r := PlainList(rows[..|rows| - 1]), rows[|rows| - 1];
      assert rows == rows[..|rows| - 1] + [r];
      assert PlainIds(rows) == PlainIds(rows[..|rows| - 1]) + (if r.adventureId == None then {r.id} else {});
      if r.adventureId == None then below + [r.id] else below
  }

  /** The stages of the first `count` adventures, in grouping order. */
  function StageList(g: Grouping, count: nat): seq<int>
    requires count <= |g.order|
  {
    if count == 0 then [] else StageList(g, count - 1) + StagesAt(g, count - 1)
  }

  /** What is kept, each id once, in the order of `list`. */
  ghost predicate ListsKept(keptIds: seq<int>, kept: set<int>, list: seq<int>) {
    Distinct(keptIds) && SetOf(keptIds) == kept && Within(keptIds, list)
  }

  /** Adds ids to an insertion-ordered set, those in `only` and not in it yet. */
  method AddAll(keptIds: seq<int>, ids: seq<int>, only: set<int>, ghost list: seq<int>) returns (more: seq<int>)
    requires Distinct(keptIds) && Within(keptIds, list)
    ensures ListsKept(more, SetOf(keptIds) + (SetOf(ids) * only), list + ids)
  {
    hide Within, Distinct;
    more := keptIds;
    assert list + ids[..0] == list;
    for p := 0 to |ids|
      invariant Distinct(more) && SetOf(more) == SetOf(keptIds) + (SetOf(ids[..p]) * only)
      invariant Within(more, list + ids[..p])
    {
      assert ids[..p + 1] == ids[..p] + [ids[p]] && list + ids[..p + 1] == (list + ids[..p]) + [ids[p]];
      WithinMore(more, list + ids[..p], ids[p]);
      if ids[p] in only && ids[p] !in more {
        DistinctAppend(more, ids[p]);
        assert SetOf(more + [ids[p]]) == SetOf(more) + {ids[p]};
        more := more + [ids[p]];
      }
    }
    assert ids[..|ids|] == ids;
  }

  method ExpandForCompleteAdventures(table: seq<CacheRow>, cacheIds: seq<int>, matrix: RoutingMatrix,
                                     maxLinkMeters: real, completeAdventuresOnly: bool)
      returns (keptIds: seq<int>, preplanDrops: seq<DroppedCache>)
    ensures var rows := FindByIds(table, cacheIds);
      var g := GroupByAdventure(FindAdventureStages(table, TouchedAdventures(rows)));
      var e := Expansion(table, cacheIds, matrix, maxLinkMeters, completeAdventuresOnly);
      && preplanDrops == e.drops
      && ListsKept(keptIds, e.kept,
               if TouchedAdventures(rows) == {} then cacheIds else PlainList(rows) + StageList(g, |g.order|))
  {
    var rows := FindByIds(table, cacheIds);
    var adventureIds := TouchedAdventures(rows);
    if adventureIds == {} {
      keptIds := AddAll([], cacheIds, SetOf(cacheIds), []);
      assert [] + cacheIds == cacheIds;
      return keptIds, [];
    }
    var stages := FindAdventureStages(table, adventureIds);
    var byAdventure := Grouping([], map[]);
    for p := 0 to |stages|
      invariant byAdventure == GroupByAdventure(stages[..p])
    {
      assert stages[..p + 1][..p] == stages[..p];
      byAdventure := AddStage(byAdventure, stages[p]);
    }
    assert stages[..|stages|] == stages;
    GroupingIsFaithful(stages);
    var candidates := Candidates(byAdventure);
    var _, rejected := PartitionAdventuresByReachability(cacheIds, candidates, matrix, maxLinkMeters);
    var rejectedAdvIds := RejectedNames(rejected);
    keptIds, preplanDrops :=
      PackAll(byAdventure, PlainList(rows), rejectedAdvIds, completeAdventuresOnly, SetOf(cacheIds));
  }

  /** One adventure: rejected, over the cap, or added. */
  method PackAdventure(p: seq<int>, drops: seq<DroppedCache>, advId: string, ids: seq<int>, rejectedAdvIds: set<string>,
                       completeAdventuresOnly: bool, selectionSet: set<int>, ghost list: seq<int>)
      returns (keptIds: seq<int>, preplanDrops: seq<DroppedCache>)
    requires Distinct(p) && Within(p, list)
    ensures var packed := PackOne(Packing(SetOf(p), drops), advId, ids, rejectedAdvIds, completeAdventuresOnly,
                                  selectionSet);
      preplanDrops == packed.drops && ListsKept(keptIds, packed.kept, list + ids)
  {
    hide Within, Distinct, Drops;
    WithinLonger(p, list, ids);
    DistinctSize(p);
    keptIds, preplanDrops := p, drops;
    if advId in rejectedAdvIds {
      if completeAdventuresOnly {
        preplanDrops := preplanDrops + Drops(ids, Unreachable);
      } else {
        keptIds := AddAll(keptIds, ids, selectionSet, list);
      }
      return;
    }
    if |keptIds| + |ids| > AUGMENT_MAX_CACHES {
      preplanDrops := preplanDrops + Drops(ids, CandidateCap);
      return;
    }
    keptIds := AddAll(keptIds, ids, SetOf(ids), list);
  }

  /** The loop over the touched adventures. */
  method PackAll(byAdventure: Grouping, plain: seq<int>, rejectedAdvIds: set<string>, completeAdventuresOnly: bool,
                 selectionSet: set<int>)
      returns (keptIds: seq<int>, preplanDrops: seq<DroppedCache>)
    ensures var p := Pack(byAdventure, |byAdventure.order|, SetOf(plain), rejectedAdvIds, completeAdventuresOnly,
                          selectionSet);
      preplanDrops == p.drops && ListsKept(keptIds, p.kept, plain + StageList(byAdventure, |byAdventure.order|))
  {
    hide StagesAt, SetOf, PackOne, Within, Distinct;
    NothingListed();
    preplanDrops := [];
    keptIds := AddAll([], plain, SetOf(plain), []);
    assert [] + plain == plain && plain + StageList(byAdventure, 0) == plain;
    for p := 0 to |byAdventure.order|
      invariant var packed := Pack(byAdventure, p, SetOf(plain), rejectedAdvIds, completeAdventuresOnly, selectionSet);
        preplanDrops == packed.drops && ListsKept(keptIds, packed.kept, plain + StageList(byAdventure, p))
    {
      ghost var list := plain + StageList(byAdventure, p);
      var advId, ids := byAdventure.order[p], StagesAt(byAdventure, p);
      assert plain + StageList(byAdventure, p + 1) == list + ids;
      keptIds, preplanDrops := PackAdventure(keptIds, preplanDrops, advId, ids, rejectedAdvIds, completeAdventuresOnly,
                                             selectionSet, list);
    }
  }

  lemma NothingListed()
    ensures SetOf([]) == {} && Distinct([]) && Within([], [])
  {
  }

  // ----- Whole or not at all -----

  function StagesOf(g: Grouping, count: nat): set<int>
    requires count <= |g.order|
  {
    if count == 0 then {} else StagesOf(g, count - 1) + SetOf(StagesAt(g, count - 1))
  }

  /** No stage belongs to two adventures, and none is a plain cache. */
  ghost predicate Separate(g: Grouping, plain: set<int>) {
    && (forall p | 0 <= p < |g.order| :: SetOf(StagesAt(g, p)) !! plain)
    && (forall p, q | 0 <= p < q < |g.order| :: SetOf(StagesAt(g, p)) !! SetOf(StagesAt(g, q)))
  }

  lemma DroppedIdsAppend(drops: seq<DroppedCache>, ids: seq<int>, reason: DropReason)
    ensures DroppedIds(drops + Drops(ids, reason)) == DroppedIds(drops) + SetOf(ids)
  {
    forall id | id in ids
      ensures id in DroppedIds(drops + Drops(ids, reason))
    {
      var p :| 0 <= p < |ids| && ids[p] == id;
      assert Drops(ids, reason)[p] in drops + Drops(ids, reason);
    }
    forall d | d in Drops(ids, reason)
      ensures d.id in ids
    {
    }
    assert forall d | d in drops :: d in drops + Drops(ids, reason);
  }

  lemma {:induction false} SetOfSize(s: seq<int>)
    ensures |SetOf(s)| <= |s|
    decreases |s|
  {
    if s != [] {
      SetOfSize(s[..|s| - 1]);
      assert SetOf(s) == SetOf(s[..|s| - 1]) + {s[|s| - 1]};
    }
  }

  lemma {:induction false} LaterStagesUnseen(g: Grouping, plain: set<int>, count: nat, later: nat)
    requires Separate(g, plain) && count <= later < |g.order|
    ensures SetOf(StagesAt(g, later)) !! plain + StagesOf(g, count)
  {
    if count > 0 { LaterStagesUnseen(g, plain, count - 1, later); }
  }

  /** Every one of the ids is dropped, for this reason and no other. */
  ghost predicate DroppedAs(p: Packing, ids: seq<int>, reason: DropReason) {
    && SetOf(ids) !! p.kept
    && (forall id | id in ids :: DroppedCache(id, reason) in p.drops)
    && (forall d | d in p.drops && d.id in ids :: d.reason == reason)
  }

  /**
   What becomes of one adventure, read off the final result: rejected, it is dropped whole or keeps just
   its selected stages; otherwise it is kept whole, unless what is kept of the caches `before` it leaves
   no room.
   */
  ghost predicate Outcome(p: Packing, ids: seq<int>, before: set<int>, wasRejected: bool, atomic: bool,
                          selection: set<int>) {
    if wasRejected && atomic then DroppedAs(p, ids, Unreachable)
    else if wasRejected then SetOf(ids) * p.kept == SetOf(ids) * selection && SetOf(ids) !! DroppedIds(p.drops)
    else if |p.kept * before| + |ids| > AUGMENT_MAX_CACHES then DroppedAs(p, ids, CandidateCap)
    else SetOf(ids) <= p.kept
  }

  /** The stages of rejected adventures among the first `count`. */
  function FarStages(g: Grouping, count: nat, rejected: set<string>): set<int>
    requires count <= |g.order|
  {
    if count == 0 then {}
    else
      var below := FarStages(g, count - 1, rejected);
      if g.order[count - 1] in rejected then below + SetOf(StagesAt(g, count - 1)) else below
  }

  /** The plain caches are kept, nothing is both kept and dropped, and with whole adventures only nothing is lost. */
  ghost predicate Balanced(p: Packing, plain: set<int>, all: set<int>, atomic: bool) {
    && p.kept !! DroppedIds(p.drops) && plain <= p.kept
    && if atomic then p.kept + DroppedIds(p.drops) == all else p.kept + DroppedIds(p.drops) <= all
  }

  ghost predicate WellPacked(p: Packing, g: Grouping, count: nat, plain: set<int>, rejected: set<string>,
                             atomic: bool, selection: set<int>)
    requires count <= |g.order|
  {
    && Balanced(p, plain, plain + StagesOf(g, count), atomic)
    && forall q | 0 <= q < count ::
         Outcome(p, StagesAt(g, q), plain + StagesOf(g, q), g.order[q] in rejected, atomic, selection)
  }

  /** One more adventure changes nothing about the caches before it. */
  ghost predicate Extends(p': Packing, p: Packing, all: set<int>) {
    && p'.kept * all == p.kept * all
    && forall d: DroppedCache | d.id in all :: d in p'.drops <==> d in p.drops
  }

  lemma DropsHave(drops: seq<DroppedCache>, ids: seq<int>, reason: DropReason)
    ensures forall d: DroppedCache ::
      d in drops + Drops(ids, reason) <==> d in drops || (d.id in ids && d.reason == reason)
  {
    forall id | id in ids
      ensures DroppedCache(id, reason) in Drops(ids, reason)
    {
      var p :| 0 <= p < |ids| && ids[p] == id;
      assert Drops(ids, reason)[p] == DroppedCache(id, reason);
    }
    assert forall d | d in Drops(ids, reason) :: d.id in ids && d.reason == reason;
  }

  lemma PackOneExtends(p: Packing, adventure: string, ids: seq<int>, all: set<int>,
                       rejected: set<string>, atomic: bool, selection: set<int>)
    requires p.kept <= all && DroppedIds(p.drops) <= all && SetOf(ids) !! all
    ensures var p' := PackOne(p, adventure, ids, rejected, atomic, selection);
      && Extends(p', p, all)
      && Outcome(p', ids, all, adventure in rejected, atomic, selection)
  {
    DropsHave(p.drops, ids, Unreachable);
    DropsHave(p.drops, ids, CandidateCap);
    ApartFromDrops(p.drops, ids, all);
    var p' := PackOne(p, adventure, ids, rejected, atomic, selection);
    assert p.kept * all == p.kept;
    if p'.kept == p.kept {
      assert SetOf(ids) !! p.kept;
    } else {
      assert (p.kept + SetOf(ids)) * all == p.kept && (p.kept + (SetOf(ids) * selection)) * all == p.kept;
    }
    hide Drops, DroppedIds, SetOf;
  }

  lemma ApartFromDrops(drops: seq<DroppedCache>, ids: seq<int>, all: set<int>)
    requires DroppedIds(drops) <= all && SetOf(ids) !! all
    ensures SetOf(ids) !! DroppedIds(drops)
    ensures forall d | d in drops :: d.id !in ids
    ensures forall id | id in ids :: id !in all
  {
    assert forall d | d in drops :: d.id in DroppedIds(drops);
    assert forall id | id in ids :: id in SetOf(ids);
  }

  lemma PackOneBalances(p: Packing, adventure: string, ids: seq<int>, plain: set<int>, all: set<int>,
                        rejected: set<string>, atomic: bool, selection: set<int>)
    requires Balanced(p, plain, all, atomic) && SetOf(ids) !! all
    ensures Balanced(PackOne(p, adventure, ids, rejected, atomic, selection), plain, all + SetOf(ids), atomic)
  {
    DroppedIdsAppend(p.drops, ids, Unreachable);
    DroppedIdsAppend(p.drops, ids, CandidateCap);
    hide DroppedIds, SetOf, Drops;
  }

  /** At most 50 are kept, not counting selected stages of rejected adventures. */
  ghost predicate KeepsCap(kept: set<int>, far: set<int>, atomic: bool) {
    |if atomic then kept else kept - far| <= AUGMENT_MAX_CACHES
  }

  lemma PackOneKeepsCap(p: Packing, adventure: string, ids: seq<int>, far: set<int>, rejected: set<string>,
                         atomic: bool, selection: set<int>)
    requires KeepsCap(p.kept, far, atomic)
    ensures KeepsCap(PackOne(p, adventure, ids, rejected, atomic, selection).kept,
                      if adventure in rejected then far + SetOf(ids) else far, atomic)
  {
    hide SetOf, Drops;
    var kept := PackOne(p, adventure, ids, rejected, atomic, selection).kept;
    var far' := if adventure in rejected then far + SetOf(ids) else far;
    SetOfSize(ids);
    UnionSize(p.kept, SetOf(ids));
    SubsetSize(kept - far', if adventure in rejected then p.kept - far else kept);
    if !atomic && kept == p.kept { SubsetSize(kept - far', p.kept - far); }
  }

  lemma {:induction false} PackKeepsCap(g: Grouping, count: nat, plain: set<int>, rejected: set<string>,
                                         atomic: bool, selection: set<int>)
    requires count <= |g.order| && |plain| <= AUGMENT_MAX_CACHES
    ensures KeepsCap(Pack(g, count, plain, rejected, atomic, selection).kept, FarStages(g, count, rejected), atomic)
  {
    hide KeepsCap, PackOne, SetOf;
    if count == 0 {
      PlainKeepsCap(plain, atomic);
    } else {
      PackKeepsCap(g, count - 1, plain, rejected, atomic, selection);
      PackOneKeepsCap(Pack(g, count - 1, plain, rejected, atomic, selection), g.order[count - 1],
                      StagesAt(g, count - 1), FarStages(g, count - 1, rejected), rejected, atomic, selection);
    }
  }

  lemma PlainKeepsCap(plain: set<int>, atomic: bool)
    requires |plain| <= AUGMENT_MAX_CACHES
    ensures KeepsCap(plain, {}, atomic)
  {
    assert plain - {} == plain;
  }

  lemma {:induction false} PackIsWhole(g: Grouping, count: nat, plain: set<int>, rejected: set<string>,
                                       atomic: bool, selection: set<int>)
    requires count <= |g.order| && Separate(g, plain)
    ensures WellPacked(Pack(g, count, plain, rejected, atomic, selection), g, count, plain, rejected, atomic, selection)
  {
    hide WellPacked, PackOne, StagesOf, SetOf, Separate;
    if count == 0 {
      NothingPackedYet(g, plain, rejected, atomic, selection);
    } else {
      PackIsWhole(g, count - 1, plain, rejected, atomic, selection);
      LaterStagesUnseen(g, plain, count - 1, count - 1);
      PackNext(Pack(g, count - 1, plain, rejected, atomic, selection), g, count, plain, rejected, atomic, selection);
    }
  }

  lemma NothingPackedYet(g: Grouping, plain: set<int>, rejected: set<string>, atomic: bool, selection: set<int>)
    ensures WellPacked(Packing(plain, []), g, 0, plain, rejected, atomic, selection)
  {
    assert DroppedIds([]) == {};
  }

  lemma PackNext(p: Packing, g: Grouping, count: nat, plain: set<int>, rejected: set<string>, atomic: bool,
                 selection: set<int>)
    requires 0 < count <= |g.order| && WellPacked(p, g, count - 1, plain, rejected, atomic, selection)
    requires SetOf(StagesAt(g, count - 1)) !! plain + StagesOf(g, count - 1)
    ensures WellPacked(PackOne(p, g.order[count - 1], StagesAt(g, count - 1), rejected, atomic, selection),
                       g, count, plain, rejected, atomic, selection)
  {
    hide StagesAt, SetOf, DroppedIds, Outcome, PackOne, StagesOf, Extends, Balanced;
    var ids, all := StagesAt(g, count - 1), plain + StagesOf(g, count - 1);
    var p' := PackOne(p, g.order[count - 1], ids, rejected, atomic, selection);
    assert Balanced(p', plain, plain + StagesOf(g, count), atomic) by {
      PackOneBalances(p, g.order[count - 1], ids, plain, all, rejected, atomic, selection);
      StagesOfStep(g, count, plain);
    }
    BalancedWithin(p, plain, all, atomic);
    PackOneExtends(p, g.order[count - 1], ids, all, rejected, atomic, selection);
    forall q | 0 <= q < count - 1
      ensures Outcome(p', StagesAt(g, q), plain + StagesOf(g, q), g.order[q] in rejected, atomic, selection)
    {
      assert plain + StagesOf(g, q) <= all && SetOf(StagesAt(g, q)) <= all by { EarlierStages(g, q, count - 1); }
      OutcomeStays(p, p', StagesAt(g, q), plain + StagesOf(g, q), all, g.order[q] in rejected, atomic, selection);
    }
  }

  lemma StagesOfStep(g: Grouping, count: nat, plain: set<int>)
    requires 0 < count <= |g.order|
    ensures plain + StagesOf(g, count - 1) + SetOf(StagesAt(g, count - 1)) == plain + StagesOf(g, count)
  {
  }

  lemma BalancedWithin(p: Packing, plain: set<int>, all: set<int>, atomic: bool)
    requires Balanced(p, plain, all, atomic)
    ensures p.kept <= all && DroppedIds(p.drops) <= all
  {
    assert p.kept <= p.kept + DroppedIds(p.drops);
  }

  lemma {:induction false} EarlierStages(g: Grouping, q: nat, count: nat)
    requires q < count <= |g.order|
    ensures StagesOf(g, q) <= StagesOf(g, count) && SetOf(StagesAt(g, q)) <= StagesOf(g, count)
  {
    if q < count - 1 { EarlierStages(g, q, count - 1); }
  }

  lemma OutcomeStays(p: Packing, p': Packing, ids: seq<int>, before: set<int>, all: set<int>, wasRejected: bool,
                     atomic: bool, selection: set<int>)
    requires Outcome(p, ids, before, wasRejected, atomic, selection) && Extends(p', p, all)
    requires before <= all && SetOf(ids) <= all
    ensures Outcome(p', ids, before, wasRejected, atomic, selection)
  {
    forall x | x in all
      ensures x in p.kept <==> x in p'.kept
      ensures x in DroppedIds(p.drops) <==> x in DroppedIds(p'.drops)
    {
      assert x in p.kept * all <==> x in p'.kept * all;
      if x in DroppedIds(p.drops) { var d :| d in p.drops && d.id == x; }
      if x in DroppedIds(p'.drops) { var d :| d in p'.drops && d.id == x; }
    }
    assert p.kept * before == p'.kept * before && SetOf(ids) * p.kept == SetOf(ids) * p'.kept;
    assert forall id | id in ids :: id in SetOf(ids) && id in all;
  }

  lemma UnionSize(a: set<int>, b: set<int>)
    ensures |a + b| <= |a| + |b|
  {
    assert a + b == a + (b - a);
    SubsetSize(b - a, b);
  }

  /** Unique ids keep the adventures and the plain caches apart. */
  lemma TableSeparates(table: seq<CacheRow>, cacheIds: seq<int>)
    requires UniqueIds(table)
    ensures var rows := FindByIds(table, cacheIds);
      var g := GroupByAdventure(FindAdventureStages(table, TouchedAdventures(rows)));
      Separate(g, PlainIds(rows)) && PlainIds(rows) <= SetOf(cacheIds)
  {
    var rows := FindByIds(table, cacheIds);
    var stages := FindAdventureStages(table, TouchedAdventures(rows));
    var g := GroupByAdventure(stages);
    GroupingIsFaithful(stages);
    forall p, id | 0 <= p < |g.order| && id in SetOf(StagesAt(g, p))
      ensures exists r | r in table :: r.id == id && r.adventureId == Some(g.order[p])
    {
      var r :| r in stages && r.id == id && r.adventureId == Some(g.order[p]);
    }
  }

  /**
   With at most 50 selected caches, every touched adventure is dropped as unreachable (or, unless complete
   adventures are asked for, keeps just its selected stages) when it does not cohere, dropped whole for
   the cap when it coheres but what is kept before it leaves no room, and kept whole otherwise. Kept and
   dropped ids are disjoint; with complete adventures only they are together the plain selection and all
   stages of touched adventures, and at most 50 are kept.
   */
  lemma ExpansionIsWholeOrNone(table: seq<CacheRow>, cacheIds: seq<int>, matrix: RoutingMatrix, maxLinkMeters: real,
                               atomic: bool)
    requires UniqueIds(table) && |SetOf(cacheIds)| <= AUGMENT_MAX_CACHES
    requires TouchedAdventures(FindByIds(table, cacheIds)) != {}
    ensures var rows := FindByIds(table, cacheIds);
      var g := GroupByAdventure(FindAdventureStages(table, TouchedAdventures(rows)));
      var link := ClusterLink(cacheIds, Candidates(g), matrix, maxLinkMeters);
      var e := Expansion(table, cacheIds, matrix, maxLinkMeters, atomic);
      var rejected := RejectedNames(Rejected(link, cacheIds, Candidates(g), |g.order|));
      && Groups(g, FindAdventureStages(table, TouchedAdventures(rows)))
      && WellPacked(e, g, |g.order|, PlainIds(rows), rejected, atomic, SetOf(cacheIds))
      && KeepsCap(e.kept, FarStages(g, |g.order|, rejected), atomic)
  {
    var rows := FindByIds(table, cacheIds);
    var stages := FindAdventureStages(table, TouchedAdventures(rows));
    var g := GroupByAdventure(stages);
    GroupingIsFaithful(stages);
    TableSeparates(table, cacheIds);
    SubsetSize(PlainIds(rows), SetOf(cacheIds));
    var link := ClusterLink(cacheIds, Candidates(g), matrix, maxLinkMeters);
    var rejected := RejectedNames(Rejected(link, cacheIds, Candidates(g), |g.order|));
    PackIsWhole(g, |g.order|, PlainIds(rows), rejected, atomic, SetOf(cacheIds));
    PackKeepsCap(g, |g.order|, PlainIds(rows), rejected, atomic, SetOf(cacheIds));
  }

  /** Unless complete adventures are asked for, selected stages of a rejected adventure can exceed the cap. */
  lemma SelectedStagesExceedCap(plain: set<int>, near: string, far: string, a: int, b: int, c: int, selection: set<int>)
    requires |plain| == 48 && near != far && a != b && b != c && a != c && {a, b, c} !! plain
    requires selection == plain + {a, c}
    ensures var g := Grouping([near, far], map[near := [a, b], far := [c]]);
      && |selection| == AUGMENT_MAX_CACHES
      && Pack(g, 2, plain, {far}, false, selection) == Packing(plain + {a, b, c}, [])
      && |plain + {a, b, c}| == AUGMENT_MAX_CACHES + 1
  {
    var g := Grouping([near, far], map[near := [a, b], far := [c]]);
    MoreSize(plain, a, b, c);
    TwoSteps(g, plain, {far}, selection);
    assert StagesAt(g, 0) == [a, b] && StagesAt(g, 1) == [c];
    TwoAndOne(plain, a, b, c, selection);
    hide StagesAt, Pack, SetOf, PackOne, Drops;
    KeepsWhole(plain, near, [a, b], {far}, selection);
    KeepsSelected(plain + SetOf([a, b]), far, [c], {far}, selection);
  }

  lemma KeepsWhole(kept: set<int>, adventure: string, ids: seq<int>, rejected: set<string>, selection: set<int>)
    requires adventure !in rejected && |kept| + |ids| <= AUGMENT_MAX_CACHES
    ensures PackOne(Packing(kept, []), adventure, ids, rejected, false, selection) == Packing(kept + SetOf(ids), [])
  {
  }

  lemma KeepsSelected(kept: set<int>, adventure: string, ids: seq<int>, rejected: set<string>, selection: set<int>)
    requires adventure in rejected
    ensures PackOne(Packing(kept, []), adventure, ids, rejected, false, selection)
         == Packing(kept + (SetOf(ids) * selection), [])
  {
  }

  lemma TwoSteps(g: Grouping, plain: set<int>, rejected: set<string>, selection: set<int>)
    requires |g.order| == 2
    ensures Pack(g, 2, plain, rejected, false, selection)
         == PackOne(PackOne(Packing(plain, []), g.order[0], StagesAt(g, 0), rejected, false, selection),
                    g.order[1], StagesAt(g, 1), rejected, false, selection)
  {
    hide PackOne, StagesAt;
    assert Pack(g, 1, plain, rejected, false, selection)
        == PackOne(Packing(plain, []), g.order[0], StagesAt(g, 0), rejected, false, selection);
  }

  lemma MoreSize(plain: set<int>, a: int, b: int, c: int)
    requires a != b && b != c && a != c && {a, b, c} !! plain
    ensures |plain + {a, c}| == |plain| + 2 && |plain + {a, b, c}| == |plain| + 3
  {
    assert plain + {a, c} == plain + {a} + {c};
    assert plain + {a, b, c} == plain + {a} + {b} + {c};
  }

  lemma TwoAndOne(plain: set<int>, a: int, b: int, c: int, selection: set<int>)
    requires c in selection
    ensures plain + SetOf([a, b]) + (SetOf([c]) * selection) == plain + {a, b, c}
  {
    assert SetOf([a, b]) == {a, b} && SetOf([c]) == {c};
  }

  lemma {:induction false} InStagesOf(g: Grouping, count: nat, id: int)
    requires count <= |g.order|
    ensures id in StagesOf(g, count) <==> exists p | 0 <= p < count :: id in StagesAt(g, p)
  {
    if count > 0 { InStagesOf(g, count - 1, id); }
  }

  /**
   A selected cache is accounted for, as kept or as dropped, exactly when it belongs to no adventure
   or is a live stage with a non-empty adventure id. Archived stages and stages with an empty
   adventure id vanish without a drop reason.
   */
  lemma SelectedAccountedFor(table: seq<CacheRow>, cacheIds: seq<int>, matrix: RoutingMatrix, maxLinkMeters: real,
                             r: CacheRow)
    requires UniqueIds(table) && |SetOf(cacheIds)| <= AUGMENT_MAX_CACHES
    requires TouchedAdventures(FindByIds(table, cacheIds)) != {} && r in FindByIds(table, cacheIds)
    ensures var e := Expansion(table, cacheIds, matrix, maxLinkMeters, true);
      r.id in e.kept + DroppedIds(e.drops)
      <==> r.adventureId == None || (r.adventureId.value != [] && !r.archived)
  {
    var rows := FindByIds(table, cacheIds);
    var stages := FindAdventureStages(table, TouchedAdventures(rows));
    var g := GroupByAdventure(stages);
    ExpansionIsWholeOrNone(table, cacheIds, matrix, maxLinkMeters, true);
    InStagesOf(g, |g.order|, r.id);
    StageIffLive(table, rows, stages, g, r);
    hide Expansion, ClusterLink, Rejected, StagesAt, Outcome, GroupByAdventure;
  }

  lemma StageIffLive(table: seq<CacheRow>, rows: seq<CacheRow>, stages: seq<CacheRow>, g: Grouping, r: CacheRow)
    requires UniqueIds(table) && r in rows && forall s | s in rows :: s in table
    requires stages == FindAdventureStages(table, TouchedAdventures(rows)) && Groups(g, stages)
    ensures (exists p | 0 <= p < |g.order| :: r.id in StagesAt(g, p))
       <==> r.adventureId.Some? && r.adventureId.value != [] && !r.archived
    ensures r.id in PlainIds(rows) <==> r.adventureId == None
  {
    hide FindAdventureStages;
    if r.adventureId.Some? && r.adventureId.value != [] && !r.archived {
      assert r in stages;
      var p :| 0 <= p < |g.order| && g.order[p] == r.adventureId.value;
      assert r.id in StagesAt(g, p);
    }
    if exists p | 0 <= p < |g.order| :: r.id in StagesAt(g, p) {
      var p :| 0 <= p < |g.order| && r.id in StagesAt(g, p);
      var s :| s in stages && s.id == r.id && s.adventureId == Some(g.order[p]);
      assert s == r;
    }
  }

  // ----- Reporting the drops with the plan -----

  datatype PlanDrops = PlanDrops(droppedCacheIds: Option<seq<int>>, droppedCaches: Option<seq<DroppedCache>>)

  function OrEmpty<T>(s: Option<seq<T>>): seq<T> {
    if s.Some? then s.value else []
  }

  function Fresh(drops: seq<DroppedCache>, already: seq<int>): (r: seq<DroppedCache>)
    ensures forall d :: d in r <==> d in drops && d.id !in already
  {
    if drops == [] then []
    else
      var rest := Fresh(drops[1..], already);
      assert drops == [drops[0]] + drops[1..];
      if drops[0].id in already then rest else [drops[0]] + rest
  }

  function IdsOf(drops: seq<DroppedCache>): seq<int> {
    seq(|drops|, p requires 0 <= p < |drops| => drops[p].id)
  }

  function WithPreplanDrops(result: PlanDrops, preplanDrops: seq<DroppedCache>): PlanDrops {
    var droppedCacheIds, droppedCaches := OrEmpty(result.droppedCacheIds), OrEmpty(result.droppedCaches);
    var unreported := Fresh(preplanDrops, droppedCacheIds);
    if unreported == [] then result
    else PlanDrops(Some(droppedCacheIds + IdsOf(unreported)), Some(droppedCaches + unreported))
  }

  /** The two drop lists name the same ids in the same order. */
  predicate InLockStep(d: PlanDrops) {
    OrEmpty(d.droppedCacheIds) == IdsOf(OrEmpty(d.droppedCaches))
  }

  /**
   Merging keeps what the planner reported, adds each missing id with its reason and no reported one, and
   keeps the lists in step.
   */
  lemma MergedDrops(result: PlanDrops, preplanDrops: seq<DroppedCache>)
    ensures var merged := WithPreplanDrops(result, preplanDrops);
      var was := OrEmpty(result.droppedCacheIds);
      var now := OrEmpty(merged.droppedCacheIds);
      && was <= now
      && SetOf(now) == SetOf(was) + DroppedIds(preplanDrops)
      && (forall p | |was| <= p < |now| :: now[p] !in was)
      && (InLockStep(merged) <==> InLockStep(result))
    ensures var caches := OrEmpty(result.droppedCaches);
      var merged := OrEmpty(WithPreplanDrops(result, preplanDrops).droppedCaches);
      && caches <= merged
      && forall d :: d in merged <==> d in caches || (d in preplanDrops && d.id !in OrEmpty(result.droppedCacheIds))
  {
    var was, caches := OrEmpty(result.droppedCacheIds), OrEmpty(result.droppedCaches);
    var unreported := Fresh(preplanDrops, was);
    assert IdsOf(caches + unreported) == IdsOf(caches) + IdsOf(unreported);
    AppendBothOrNeither(was, IdsOf(caches), IdsOf(unreported));
    UnreportedIds(was, preplanDrops);
    hide Fresh, IdsOf, DroppedIds, SetOf;
  }

  /** Together with the reported ids, the unreported drops name every drop. */
  lemma UnreportedIds(was: seq<int>, drops: seq<DroppedCache>)
    ensures var ids := IdsOf(Fresh(drops, was));
      && |ids| == |Fresh(drops, was)|
      && SetOf(was + ids) == SetOf(was) + DroppedIds(drops)
      && (Fresh(drops, was) == [] ==> SetOf(was) == SetOf(was) + DroppedIds(drops))
      && forall p | 0 <= p < |ids| :: ids[p] !in was
  {
    var unreported := Fresh(drops, was);
    hide Fresh;
    assert forall p | 0 <= p < |unreported| :: unreported[p] in unreported;
    forall id
      ensures id in was + IdsOf(unreported) <==> id in SetOf(was) + DroppedIds(drops)
    {
      if id in DroppedIds(drops) && id !in was {
        var d :| d in drops && d.id == id;
        assert d in unreported;
        var p :| 0 <= p < |unreported| && unreported[p] == d;
        assert IdsOf(unreported)[p] == id;
      }
    }
    assert was + [] == was;
  }

  lemma AppendBothOrNeither(a: seq<int>, b: seq<int>, tail: seq<int>)
    ensures a + tail == b + tail <==> a == b
  {
    if a + tail == b + tail {
      assert a == (a + tail)[..|a|] && b == (b + tail)[..|b|];
    }
  }
}
