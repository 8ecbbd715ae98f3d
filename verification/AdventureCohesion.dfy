/** Accepting candidate adventures by walking-connectivity to the selected cluster. */
module AdventureCohesion {
  import opened Lists
  import opened Matrices
  import opened Walks
  import opened Components

  datatype Adventure = Adventure(adventureId: string, stageIds: seq<int>)

  /** The walking matrix: the metres from `cacheIds[i]` to `cacheIds[j]` are `meters[i][j]`. */
  datatype RoutingMatrix = RoutingMatrix(cacheIds: seq<int>, meters: Matrix)

  /** Index of each id; a repeated id keeps its last index. */
  function IdToIdx(ids: seq<int>): map<int, int> {
    if ids == [] then map[] else IdToIdx(ids[..|ids| - 1])[ids[|ids| - 1] := |ids| - 1]
  }

  predicate CloseTogether(matrix: RoutingMatrix, idToIdx: map<int, int>, maxLinkMeters: real, a: int, b: int) {
    && a in idToIdx && b in idToIdx
    && (WithinCap(Leg(matrix.meters, idToIdx[a], idToIdx[b]), maxLinkMeters)
        || WithinCap(Leg(matrix.meters, idToIdx[b], idToIdx[a]), maxLinkMeters))
  }

  function AllStages(candidates: seq<Adventure>): seq<int> {
    if candidates == [] then [] else candidates[0].stageIds + AllStages(candidates[1..])
  }

  function Nodes(seedIds: seq<int>, candidates: seq<Adventure>): set<int> {
    SetOf(seedIds) + SetOf(AllStages(candidates))
  }

  /** Walks go over seeds and candidate stages, by links within the cap. */
  function ClusterLink(seedIds: seq<int>, candidates: seq<Adventure>, matrix: RoutingMatrix, maxLinkMeters: real)
    : Link
  {
    (a, b) => a in Nodes(seedIds, candidates) && b in Nodes(seedIds, candidates)
              && CloseTogether(matrix, IdToIdx(matrix.cacheIds), maxLinkMeters, a, b)
  }

  ghost predicate ReachedFromSeeds(link: Link, seedIds: seq<int>, id: int) {
    exists p | 0 <= p < |seedIds| :: Reaches(link, seedIds[p], id)
  }

  /** Every stage of the adventure can be walked to from some seed. */
  ghost predicate Coheres(link: Link, seedIds: seq<int>, adventure: Adventure) {
    forall id | id in adventure.stageIds :: ReachedFromSeeds(link, seedIds, id)
  }

  /** The first `count` candidates that cohere, in order. */
  ghost function Accepted(link: Link, seedIds: seq<int>, candidates: seq<Adventure>, count: nat): seq<Adventure>
    requires count <= |candidates|
  {
    if count == 0 then []
    else
      var below := Accepted(link, seedIds, candidates, count - 1);
      if Coheres(link, seedIds, candidates[count - 1]) then below + [candidates[count - 1]] else below
  }

  ghost function Rejected(link: Link, seedIds: seq<int>, candidates: seq<Adventure>, count: nat): seq<Adventure>
    requires count <= |candidates|
  {
    if count == 0 then []
    else
      var below := Rejected(link, seedIds, candidates, count - 1);
      if Coheres(link, seedIds, candidates[count - 1]) then below else below + [candidates[count - 1]]
  }

  // ----- The search -----

  /** What the search has reached so far; only nodes on the frontier may have unexplored links. */
  ghost predicate Spreading(link: Link, seedIds: seq<int>, nodes: set<int>, reachable: set<int>, frontier: seq<int>) {
    && SetOf(seedIds) <= reachable && reachable <= nodes && SetOf(frontier) <= reachable
    && (forall x | x in reachable :: ReachedFromSeeds(link, seedIds, x))
    && (forall a, b | a in reachable && a !in SetOf(frontier) && link(a, b) :: b in reachable)
  }

  lemma SpreadingStarts(link: Link, seedIds: seq<int>, nodes: set<int>)
    requires SetOf(seedIds) <= nodes
    ensures Spreading(link, seedIds, nodes, SetOf(seedIds), seedIds)
  {
    forall p | 0 <= p < |seedIds|
      ensures ReachedFromSeeds(link, seedIds, seedIds[p])
    {
      ReachesItself(link, seedIds[p]);
    }
  }

  lemma SpreadingEnds(link: Link, seedIds: seq<int>, nodes: set<int>, reachable: set<int>)
    requires Spreading(link, seedIds, nodes, reachable, [])
    ensures forall x :: x in reachable <==> ReachedFromSeeds(link, seedIds, x)
  {
    forall x | ReachedFromSeeds(link, seedIds, x)
      ensures x in reachable
    {
      var p :| 0 <= p < |seedIds| && Reaches(link, seedIds[p], x);
      var w :| Joins(link, seedIds[p], x, w);
      assert seedIds[p] in SetOf(seedIds);
      StaysInside(link, w, reachable);
    }
  }

  lemma SpreadOne(link: Link, seedIds: seq<int>, nodes: set<int>, reachable: set<int>, frontier: seq<int>,
                  cur: int, pushed: seq<int>)
    requires Spreading(link, seedIds, nodes, reachable, frontier + [cur])
    requires forall b | b in pushed :: link(cur, b)
    requires forall b | link(cur, b) :: b in nodes && b in reachable + SetOf(pushed)
    ensures Spreading(link, seedIds, nodes, reachable + SetOf(pushed), frontier + pushed)
  {
    assert SetOf(frontier + [cur]) == SetOf(frontier) + {cur};
    assert SetOf(frontier + pushed) == SetOf(frontier) + SetOf(pushed);
    forall x | x in SetOf(pushed)
      ensures ReachedFromSeeds(link, seedIds, x)
    {
      var p :| 0 <= p < |seedIds| && Reaches(link, seedIds[p], cur);
      ReachesNext(link, seedIds[p], cur, x);
    }
    forall x | x in SetOf(pushed)
      ensures x in nodes
    {
      assert link(cur, x);
    }
    forall a, b | a in reachable + SetOf(pushed) && a !in SetOf(frontier + pushed) && link(a, b)
      ensures b in reachable + SetOf(pushed)
    {
      if a != cur { assert a in reachable && a !in SetOf(frontier + [cur]); }
    }
  }

  method BuildIndex(ids: seq<int>) returns (idToIdx: map<int, int>)
    ensures idToIdx == IdToIdx(ids)
  {
    idToIdx := map[];
    for i := 0 to |ids|
      invariant idToIdx == IdToIdx(ids[..i])
    {
      idToIdx := idToIdx[ids[i] := i];
      assert ids[..i + 1][..i] == ids[..i];
    }
    assert ids[..|ids|] == ids;
  }

  /** The neighbours of `cur` not reached before, in node order. */
  method PushNeighbours(nodes: seq<int>, matrix: RoutingMatrix, idToIdx: map<int, int>, maxLinkMeters: real,
                        reachable: set<int>, cur: int)
      returns (reachable': set<int>, pushed: seq<int>)
    ensures reachable' == reachable + SetOf(pushed)
    ensures forall b | b in pushed ::
      b in nodes && b !in reachable && CloseTogether(matrix, idToIdx, maxLinkMeters, cur, b)
    ensures forall b | b in nodes && CloseTogether(matrix, idToIdx, maxLinkMeters, cur, b) :: b in reachable'
  {
    hide CloseTogether;
    reachable', pushed := reachable, [];
    for p := 0 to |nodes|
      invariant reachable' == reachable + SetOf(pushed)
      invariant forall b | b in pushed ::
        b in nodes && b !in reachable && CloseTogether(matrix, idToIdx, maxLinkMeters, cur, b)
      invariant forall q | 0 <= q < p && CloseTogether(matrix, idToIdx, maxLinkMeters, cur, nodes[q]) ::
        nodes[q] in reachable'
    {
      var next := nodes[p];
      if next !in reachable' && CloseTogether(matrix, idToIdx, maxLinkMeters, cur, next) {
        assert SetOf(pushed + [next]) == SetOf(pushed) + {next};
        reachable' := reachable' + {next};
        pushed := pushed + [next];
      }
    }
  }

  lemma SpreadingInside(link: Link, seedIds: seq<int>, nodes: set<int>, reachable: set<int>, frontier: seq<int>)
    requires Spreading(link, seedIds, nodes, reachable, frontier)
    ensures reachable <= nodes && SetOf(frontier) <= nodes
  {
  }

  /** The neighbours pushed are linked to `cur`, and then every node linked to it is reached. */
  lemma PushedAreLinked(seedIds: seq<int>, candidates: seq<Adventure>, matrix: RoutingMatrix, maxLinkMeters: real,
                        reachable: set<int>, cur: int, pushed: seq<int>)
    requires cur in Nodes(seedIds, candidates)
    requires forall b | b in pushed ::
      b in Nodes(seedIds, candidates) && CloseTogether(matrix, IdToIdx(matrix.cacheIds), maxLinkMeters, cur, b)
    requires forall b | b in Nodes(seedIds, candidates) ::
      CloseTogether(matrix, IdToIdx(matrix.cacheIds), maxLinkMeters, cur, b) ==> b in reachable
    ensures var link := ClusterLink(seedIds, candidates, matrix, maxLinkMeters);
      && (forall b | b in pushed :: link(cur, b))
      && forall b | link(cur, b) :: b in Nodes(seedIds, candidates) && b in reachable
  {
    hide CloseTogether, Nodes, IdToIdx;
  }

  /** One iteration of the search: pops a node and pushes its neighbours not reached before. */
  method SpreadFrom(nodes: seq<int>, matrix: RoutingMatrix, idToIdx: map<int, int>, maxLinkMeters: real,
                    reachable: set<int>, frontier: seq<int>, ghost seedIds: seq<int>, ghost candidates: seq<Adventure>)
      returns (reachable': set<int>, frontier': seq<int>)
    requires frontier != [] && idToIdx == IdToIdx(matrix.cacheIds)
    requires forall x :: x in Nodes(seedIds, candidates) <==> x in nodes
    requires var all := Nodes(seedIds, candidates);
      Spreading(ClusterLink(seedIds, candidates, matrix, maxLinkMeters), seedIds, all, reachable, frontier)
    ensures var all := Nodes(seedIds, candidates);
      && Spreading(ClusterLink(seedIds, candidates, matrix, maxLinkMeters), seedIds, all, reachable', frontier')
      && ((reachable' == reachable && |frontier'| < |frontier|) || |all - reachable'| < |all - reachable|)
  {
    hide Spreading, Nodes, ClusterLink, CloseTogether, IdToIdx;
    ghost var link, all := ClusterLink(seedIds, candidates, matrix, maxLinkMeters), Nodes(seedIds, candidates);
    var cur := frontier[|frontier| - 1];
    frontier' := frontier[..|frontier| - 1];
    assert frontier == frontier' + [cur];
    SpreadingInside(link, seedIds, all, reachable, frontier);
    assert cur in SetOf(frontier);
    var pushed;
    reachable', pushed := PushNeighbours(nodes, matrix, idToIdx, maxLinkMeters, reachable, cur);
    PushedAreLinked(seedIds, candidates, matrix, maxLinkMeters, reachable', cur, pushed);
    SpreadOne(link, seedIds, all, reachable, frontier', cur, pushed);
    if pushed == [] {
      assert SetOf(pushed) == {} && reachable' == reachable;
    } else {
      assert pushed[0] in pushed && pushed[0] in SetOf(pushed);
      Shrinks(all - reachable', all - reachable, pushed[0]);
    }
    frontier' := frontier' + pushed;
  }

  method Reachable(seedIds: seq<int>, candidates: seq<Adventure>, matrix: RoutingMatrix, maxLinkMeters: real)
      returns (reachable: set<int>)
    ensures forall x ::
      x in reachable <==> ReachedFromSeeds(ClusterLink(seedIds, candidates, matrix, maxLinkMeters), seedIds, x)
  {
    ghost var link := ClusterLink(seedIds, candidates, matrix, maxLinkMeters);
    ghost var all := Nodes(seedIds, candidates);
    var idToIdx := BuildIndex(matrix.cacheIds);
    var nodes := seedIds + AllStages(candidates);
    assert forall x :: x in Nodes(seedIds, candidates) <==> x in nodes;
    reachable := SetOf(seedIds);
    var frontier := seedIds;
    SpreadingStarts(link, seedIds, all);
    hide Spreading, ReachedFromSeeds, Nodes, AllStages, ClusterLink, IdToIdx;
    while frontier != []
      invariant Spreading(link, seedIds, all, reachable, frontier)
      decreases |all - reachable|, |frontier|
    {
      reachable, frontier :=
        SpreadFrom(nodes, matrix, idToIdx, maxLinkMeters, reachable, frontier, seedIds, candidates);
    }
    SpreadingEnds(link, seedIds, all, reachable);
  }

  lemma Shrinks<T>(smaller: set<T>, larger: set<T>, x: T)
    requires smaller <= larger && x in larger && x !in smaller
    ensures |smaller| < |larger|
  {
    SubsetSize(smaller, larger - {x});
  }

  method PartitionAdventuresByReachability(
      seedIds: seq<int>, candidates: seq<Adventure>, matrix: RoutingMatrix, maxLinkMeters: real)
      returns (acceptedStageIds: seq<int>, rejected: seq<Adventure>)
    ensures var link := ClusterLink(seedIds, candidates, matrix, maxLinkMeters);
      && acceptedStageIds == AllStages(Accepted(link, seedIds, candidates, |candidates|))
      && rejected == Rejected(link, seedIds, candidates, |candidates|)
  {
    ghost var link := ClusterLink(seedIds, candidates, matrix, maxLinkMeters);
    var reachable := Reachable(seedIds, candidates, matrix, maxLinkMeters);
    acceptedStageIds, rejected := [], [];
    for c := 0 to |candidates|
      invariant acceptedStageIds == AllStages(Accepted(link, seedIds, candidates, c))
      invariant rejected == Rejected(link, seedIds, candidates, c)
    {
      var adv := candidates[c];
      if forall id | id in adv.stageIds :: id in reachable {
        AllStagesAppend(Accepted(link, seedIds, candidates, c), adv);
        acceptedStageIds := acceptedStageIds + adv.stageIds;
      } else {
        rejected := rejected + [adv];
      }
    }
  }

  // ----- The gate, read off the walking matrix -----

  /** In one of the two directions the matrix has a leg from `a` to `b` of at most the cap. */
  ghost predicate StepWithinCap(matrix: RoutingMatrix, maxLinkMeters: real, a: int, b: int) {
    exists p, q | 0 <= p < |matrix.cacheIds| && 0 <= q < |matrix.cacheIds| ::
      matrix.cacheIds[p] == a && matrix.cacheIds[q] == b && LegWithinCap(matrix.meters, maxLinkMeters, p, q)
  }

  predicate LegWithinCap(m: Matrix, maxLinkMeters: real, p: int, q: int) {
    || (Leg(m, p, q).Some? && Leg(m, p, q).value <= maxLinkMeters)
    || (Leg(m, q, p).Some? && Leg(m, q, p).value <= maxLinkMeters)
  }

  lemma {:induction false} IndexIsPosition(ids: seq<int>, p: nat)
    requires Distinct(ids)
    ensures p < |ids| ==> ids[p] in IdToIdx(ids) && IdToIdx(ids)[ids[p]] == p
    ensures forall a | a in IdToIdx(ids) :: 0 <= IdToIdx(ids)[a] < |ids| && ids[IdToIdx(ids)[a]] == a
    decreases |ids|
  {
    if ids != [] {
      var below := ids[..|ids| - 1];
      IndexIsPosition(below, p);
      assert forall x, y | 0 <= x < y < |below| :: below[x] != below[y];
    }
  }

  /** Two nodes are linked exactly when the matrix lists both and has a leg within the cap one way or the other. */
  lemma LinkedExactlyWithinCap(seedIds: seq<int>, candidates: seq<Adventure>, matrix: RoutingMatrix,
                               maxLinkMeters: real, a: int, b: int)
    requires Distinct(matrix.cacheIds)
    ensures ClusterLink(seedIds, candidates, matrix, maxLinkMeters)(a, b)
       <==> a in Nodes(seedIds, candidates) && b in Nodes(seedIds, candidates)
            && StepWithinCap(matrix, maxLinkMeters, a, b)
  {
    hide Nodes, IdToIdx, Distinct;
    var ids, idx := matrix.cacheIds, IdToIdx(matrix.cacheIds);
    IndexIsPosition(ids, 0);
    if a in idx && b in idx {
      assert ids[idx[a]] == a && ids[idx[b]] == b;
    }
    if StepWithinCap(matrix, maxLinkMeters, a, b) {
      var p, q :| 0 <= p < |ids| && 0 <= q < |ids| && ids[p] == a && ids[q] == b
                  && LegWithinCap(matrix.meters, maxLinkMeters, p, q);
      IndexIsPosition(ids, p);
      IndexIsPosition(ids, q);
    }
  }

  /** Nodes without a seed that no leg within the cap joins to any other seed or stage. */
  ghost predicate CutOff(seedIds: seq<int>, candidates: seq<Adventure>, matrix: RoutingMatrix, maxLinkMeters: real,
                         island: set<int>) {
    && (forall x | x in seedIds :: x !in island)
    && (forall a, b | a in Nodes(seedIds, candidates) && a !in island && b in island
                      && b in Nodes(seedIds, candidates) :: !StepWithinCap(matrix, maxLinkMeters, a, b))
  }

  ghost predicate OnIsland(seedIds: seq<int>, candidates: seq<Adventure>, matrix: RoutingMatrix, maxLinkMeters: real,
                           id: int) {
    exists island: set<int> :: id in island && CutOff(seedIds, candidates, matrix, maxLinkMeters, island)
  }

  /** A stage is reached from the seeds exactly when it is on no island. */
  lemma ReachedExactlyOffIslands(seedIds: seq<int>, candidates: seq<Adventure>, matrix: RoutingMatrix,
                                 maxLinkMeters: real, id: int)
    requires Distinct(matrix.cacheIds) && id in Nodes(seedIds, candidates)
    ensures ReachedFromSeeds(ClusterLink(seedIds, candidates, matrix, maxLinkMeters), seedIds, id)
       <==> !OnIsland(seedIds, candidates, matrix, maxLinkMeters, id)
  {
    var link, nodes := ClusterLink(seedIds, candidates, matrix, maxLinkMeters), Nodes(seedIds, candidates);
    forall a, b
      ensures link(a, b) <==> a in nodes && b in nodes && StepWithinCap(matrix, maxLinkMeters, a, b)
    {
      LinkedExactlyWithinCap(seedIds, candidates, matrix, maxLinkMeters, a, b);
    }
    assert forall x | x in seedIds :: x in SetOf(seedIds) && x in nodes;
    hide ClusterLink, StepWithinCap, Distinct, Nodes;
    if OnIsland(seedIds, candidates, matrix, maxLinkMeters, id)
      && ReachedFromSeeds(link, seedIds, id) {
      var island: set<int> :| id in island && CutOff(seedIds, candidates, matrix, maxLinkMeters, island);
      var p :| 0 <= p < |seedIds| && Reaches(link, seedIds[p], id);
      var w :| Joins(link, seedIds[p], id, w);
      StaysInside(link, w, nodes - island);
      assert false;
    }
    if !ReachedFromSeeds(link, seedIds, id) {
      UnreachedAreCutOff(link, seedIds, candidates, matrix, maxLinkMeters, id);
    }
  }

  lemma UnreachedAreCutOff(link: Link, seedIds: seq<int>, candidates: seq<Adventure>, matrix: RoutingMatrix,
                           maxLinkMeters: real, id: int)
    requires forall a, b :: link(a, b) <==> a in Nodes(seedIds, candidates) && b in Nodes(seedIds, candidates)
                                            && StepWithinCap(matrix, maxLinkMeters, a, b)
    requires id in Nodes(seedIds, candidates) && !ReachedFromSeeds(link, seedIds, id)
    ensures OnIsland(seedIds, candidates, matrix, maxLinkMeters, id)
  {
    hide StepWithinCap, Nodes;
    var nodes := Nodes(seedIds, candidates);
    var island := set x | x in nodes && !ReachedFromSeeds(link, seedIds, x);
    forall x | x in seedIds
      ensures x !in island
    {
      var p :| 0 <= p < |seedIds| && seedIds[p] == x;
      ReachesItself(link, x);
    }
    forall a, b | a in nodes && a !in island && b in island && b in nodes
      ensures !StepWithinCap(matrix, maxLinkMeters, a, b)
    {
      var p :| 0 <= p < |seedIds| && Reaches(link, seedIds[p], a);
      if link(a, b) { ReachesNext(link, seedIds[p], a, b); }
    }
    assert CutOff(seedIds, candidates, matrix, maxLinkMeters, island);
  }

  /** So an adventure is rejected exactly when one of its stages is on an island without a seed. */
  lemma RejectedExactlyOnIslands(seedIds: seq<int>, candidates: seq<Adventure>, matrix: RoutingMatrix,
                                 maxLinkMeters: real, adventure: Adventure)
    requires Distinct(matrix.cacheIds) && adventure in candidates
    ensures adventure in Rejected(ClusterLink(seedIds, candidates, matrix, maxLinkMeters), seedIds, candidates,
                                  |candidates|)
       <==> exists id | id in adventure.stageIds :: OnIsland(seedIds, candidates, matrix, maxLinkMeters, id)
  {
    hide Nodes, ClusterLink, ReachedFromSeeds, OnIsland, Distinct, Rejected;
    var link := ClusterLink(seedIds, candidates, matrix, maxLinkMeters);
    InRejected(link, seedIds, candidates, |candidates|, adventure);
    assert candidates[..|candidates|] == candidates;
    forall id | id in adventure.stageIds
      ensures ReachedFromSeeds(link, seedIds, id) <==> !OnIsland(seedIds, candidates, matrix, maxLinkMeters, id)
    {
      StageIsNode(seedIds, candidates, adventure, id);
      ReachedExactlyOffIslands(seedIds, candidates, matrix, maxLinkMeters, id);
    }
  }

  lemma {:induction false} InRejected(link: Link, seedIds: seq<int>, candidates: seq<Adventure>, count: nat,
                                      adventure: Adventure)
    requires count <= |candidates|
    ensures adventure in Rejected(link, seedIds, candidates, count)
       <==> adventure in candidates[..count] && !Coheres(link, seedIds, adventure)
  {
    hide Coheres;
    if count > 0 {
      InRejected(link, seedIds, candidates, count - 1, adventure);
      assert candidates[..count] == candidates[..count - 1] + [candidates[count - 1]];
    }
  }

  lemma {:induction false} StageIsNode(seedIds: seq<int>, candidates: seq<Adventure>, adventure: Adventure, id: int)
    requires adventure in candidates && id in adventure.stageIds
    ensures id in Nodes(seedIds, candidates)
    decreases |candidates|
  {
    if adventure != candidates[0] {
      assert candidates == [candidates[0]] + candidates[1..];
      StageIsNode(seedIds, candidates[1..], adventure, id);
    }
  }

  /** A stage that no leg within the cap joins to another node, and that is no seed, gets its adventure rejected. */
  lemma LoneStageIsRejected(seedIds: seq<int>, candidates: seq<Adventure>, matrix: RoutingMatrix,
                            maxLinkMeters: real, adventure: Adventure, id: int)
    requires Distinct(matrix.cacheIds) && adventure in candidates && id in adventure.stageIds && id !in seedIds
    requires forall a | a in Nodes(seedIds, candidates) && a != id :: !StepWithinCap(matrix, maxLinkMeters, a, id)
    ensures adventure in Rejected(ClusterLink(seedIds, candidates, matrix, maxLinkMeters), seedIds, candidates,
                                  |candidates|)
  {
    hide Nodes, StepWithinCap, ClusterLink, Rejected, Distinct;
    assert CutOff(seedIds, candidates, matrix, maxLinkMeters, {id});
    assert OnIsland(seedIds, candidates, matrix, maxLinkMeters, id);
    RejectedExactlyOnIslands(seedIds, candidates, matrix, maxLinkMeters, adventure);
  }

  // ----- Raising the cap -----

  /** Raising the cap never rejects an adventure that was accepted. */
  lemma RaisingCapKeepsAccepted(seedIds: seq<int>, candidates: seq<Adventure>, matrix: RoutingMatrix,
                                cap: real, higher: real, adventure: Adventure)
    requires cap <= higher
    requires Coheres(ClusterLink(seedIds, candidates, matrix, cap), seedIds, adventure)
    ensures Coheres(ClusterLink(seedIds, candidates, matrix, higher), seedIds, adventure)
  {
    var link, more := ClusterLink(seedIds, candidates, matrix, cap), ClusterLink(seedIds, candidates, matrix, higher);
    forall id | id in adventure.stageIds
      ensures ReachedFromSeeds(more, seedIds, id)
    {
      var p :| 0 <= p < |seedIds| && Reaches(link, seedIds[p], id);
      var w :| Joins(link, seedIds[p], id, w);
      MoreLinks(link, more, w);
      assert Joins(more, seedIds[p], id, w);
    }
  }

  /** Accepted and rejected together are exactly the candidates, split by whether they cohere. */
  lemma {:induction false} AcceptedOrRejected(link: Link, seedIds: seq<int>, candidates: seq<Adventure>, count: nat)
    requires count <= |candidates|
    ensures var (accepted, rejected) :=
        (Accepted(link, seedIds, candidates, count), Rejected(link, seedIds, candidates, count));
      && multiset(accepted) + multiset(rejected) == multiset(candidates[..count])
      && (forall adventure | adventure in accepted :: Coheres(link, seedIds, adventure))
      && (forall adventure | adventure in rejected :: !Coheres(link, seedIds, adventure))
  {
    hide Coheres;
    if count > 0 {
      AcceptedOrRejected(link, seedIds, candidates, count - 1);
      var last := candidates[count - 1];
      assert candidates[..count] == candidates[..count - 1] + [last];
      var accepted, rejected :=
        Accepted(link, seedIds, candidates, count - 1), Rejected(link, seedIds, candidates, count - 1);
      assert multiset(accepted + [last]) == multiset(accepted) + multiset{last};
      assert multiset(rejected + [last]) == multiset(rejected) + multiset{last};
    }
  }

  lemma {:induction false} AllStagesAppend(candidates: seq<Adventure>, last: Adventure)
    ensures AllStages(candidates + [last]) == AllStages(candidates) + last.stageIds
    decreases |candidates|
  {
    if candidates == [] {
      assert [last][1..] == [];
    } else {
      assert (candidates + [last])[1..] == candidates[1..] + [last];
      AllStagesAppend(candidates[1..], last);
    }
  }
}
