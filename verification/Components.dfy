/** Keeping the largest walk-connected component of a candidate set. */
module Components {
  import opened Lists
  import opened Options
  import opened Matrices
  import opened Walks

  predicate WithinCap(leg: Option<real>, maxLinkMeters: real) {
    leg.Some? && leg.value <= maxLinkMeters
  }

  /** Two of the first n nodes are linked when the shorter of the two directions is within the cap. */
  function Linked(m: Matrix, n: int, maxLinkMeters: real): Link {
    (i, j) => 0 <= i < n && 0 <= j < n
              && (WithinCap(Leg(m, i, j), maxLinkMeters) || WithinCap(Leg(m, j, i), maxLinkMeters))
  }

  ghost predicate Mutual(link: Link, n: int) {
    && (forall a, b :: link(a, b) == link(b, a))
    && (forall a, b | link(a, b) :: 0 <= a < n && 0 <= b < n)
  }

  /** The nodes connected to `r`. */
  ghost function ComponentOf(link: Link, n: int, r: int): set<int> {
    set k | 0 <= k < n && Reaches(link, r, k)
  }

  ghost predicate IsComponent(link: Link, n: int, c: set<int>) {
    exists r | 0 <= r < n :: c == ComponentOf(link, n, r)
  }

  function SetOf(s: seq<int>): set<int> {
    set x | x in s
  }

  lemma {:induction false} DistinctSize(s: seq<int>)
    requires Distinct(s)
    ensures |SetOf(s)| == |s|
    decreases |s|
  {
    if s != [] {
      var t := s[..|s| - 1];
      DistinctSize(t);
      assert SetOf(s) == SetOf(t) + {s[|s| - 1]};
      assert s[|s| - 1] !in SetOf(t);
    }
  }

  function Range(n: nat): (r: set<int>)
    ensures |r| == n
    ensures forall x :: x in r <==> 0 <= x < n
  {
    if n == 0 then {} else Range(n - 1) + {n - 1}
  }

  lemma {:induction false} SubsetSize<T>(a: set<T>, b: set<T>)
    requires a <= b
    ensures |a| <= |b|
    decreases |a|
  {
    if a != {} {
      var x :| x in a;
      SubsetSize(a - {x}, b - {x});
    }
  }

  lemma DistinctInRange(s: seq<int>, n: nat)
    requires Distinct(s) && forall x | x in s :: 0 <= x < n
    ensures |s| <= n
  {
    DistinctSize(s);
    SubsetSize(SetOf(s), Range(n));
  }

  /** Everything already labelled forms whole components. */
  ghost predicate LabelsClosed(labels: seq<int>, link: Link) {
    forall a, b | 0 <= a < |labels| && 0 <= b < |labels| && labels[a] != -1 && link(a, b) :: labels[b] == labels[a]
  }

  /** Labels the unlabelled neighbours of `cur` and returns them in the order they are pushed. */
  method LabelNeighbours(compOf: array<int>, cur: int, component: nat, m: Matrix, maxLinkMeters: real)
      returns (pushed: seq<int>)
    requires 0 <= cur < compOf.Length
    modifies compOf
    ensures Distinct(pushed)
    ensures forall k | 0 <= k < compOf.Length :: compOf[k] == if k in pushed then component else old(compOf[k])
    ensures forall k | k in pushed ::
      0 <= k < compOf.Length && old(compOf[k]) == -1 && Linked(m, compOf.Length, maxLinkMeters)(cur, k)
    ensures forall k | 0 <= k < compOf.Length && Linked(m, compOf.Length, maxLinkMeters)(cur, k) :: compOf[k] != -1
  {
    pushed := [];
    for k := 0 to compOf.Length
      invariant Distinct(pushed) && forall x | x in pushed :: 0 <= x < k
      invariant forall x | 0 <= x < compOf.Length :: compOf[x] == if x in pushed then component else old(compOf[x])
      invariant forall x | x in pushed :: old(compOf[x]) == -1 && Linked(m, compOf.Length, maxLinkMeters)(cur, x)
      invariant forall x | 0 <= x < k && Linked(m, compOf.Length, maxLinkMeters)(cur, x) :: compOf[x] != -1
    {
      if compOf[k] == -1 && (WithinCap(Leg(m, cur, k), maxLinkMeters) || WithinCap(Leg(m, k, cur), maxLinkMeters)) {
        compOf[k] := component;
        pushed := pushed + [k];
      }
    }
  }

  /** The nodes seen by a search from `s`: those finished and those still on the stack. */
  ghost predicate Searching(link: Link, n: nat, s: int, comp: seq<int>, stack: seq<int>, seen: set<int>) {
    && Distinct(comp) && Distinct(stack) && SetOf(comp) !! SetOf(stack)
    && seen == SetOf(comp) + SetOf(stack) && s in seen
    && (forall k | k in seen :: 0 <= k < n && Reaches(link, s, k))
  }

  lemma DistinctConcat(a: seq<int>, b: seq<int>)
    requires Distinct(a) && Distinct(b) && SetOf(a) !! SetOf(b)
    ensures Distinct(a + b) && SetOf(a + b) == SetOf(a) + SetOf(b)
  {
    forall p, q | 0 <= p < q < |a + b|
      ensures (a + b)[p] != (a + b)[q]
    {
      if p < |a| <= q { assert a[p] in SetOf(a) && b[q - |a|] in SetOf(b); }
    }
  }

  lemma DistinctPop(s: seq<int>)
    requires Distinct(s) && s != []
    ensures var (last, below) := (s[|s| - 1], s[..|s| - 1]);
      Distinct(below) && SetOf(s) == SetOf(below) + {last} && last !in SetOf(below)
  {
  }

  lemma PopAndPush(link: Link, n: nat, s: int, comp: seq<int>, stack: seq<int>, seen: set<int>, pushed: seq<int>)
    requires Searching(link, n, s, comp, stack, seen) && stack != [] && Distinct(pushed) && SetOf(pushed) !! seen
    requires forall k | k in pushed :: 0 <= k < n && link(stack[|stack| - 1], k)
    ensures var cur := stack[|stack| - 1];
      Searching(link, n, s, comp + [cur], stack[..|stack| - 1] + pushed, seen + SetOf(pushed))
  {
    var cur, below := stack[|stack| - 1], stack[..|stack| - 1];
    DistinctPop(stack);
    assert SetOf([cur]) == {cur};
    DistinctConcat(comp, [cur]);
    DistinctConcat(below, pushed);
    forall k | k in SetOf(pushed)
      ensures 0 <= k < n && Reaches(link, s, k)
    {
      ReachesNext(link, s, cur, k);
    }
  }

  lemma SearchFacts(link: Link, n: nat, s: int, comp: seq<int>, stack: seq<int>, seen: set<int>)
    requires Searching(link, n, s, comp, stack, seen)
    ensures forall k | k in seen :: 0 <= k < n
    ensures stack != [] ==> stack[|stack| - 1] in seen
    ensures stack == [] ==> seen == SetOf(comp)
    ensures stack != [] ==> |comp| < n
  {
    if stack == [] {
      assert SetOf(stack) == {};
    } else {
      var cur := stack[|stack| - 1];
      DistinctPop(stack);
      assert SetOf([cur]) == {cur};
      DistinctConcat(comp, [cur]);
      assert forall x | x in comp + [cur] :: x in SetOf(comp + [cur]) && x in seen;
      DistinctInRange(comp + [cur], n);
    }
  }

  /** The labels during a search: what it has seen, on top of the labels it started from. */
  ghost predicate Overlaid(labels: seq<int>, before: seq<int>, seen: set<int>, component: int) {
    && |labels| == |before|
    && (forall k | k in seen :: 0 <= k < |before| && before[k] == -1)
    && (forall k | 0 <= k < |before| :: labels[k] == if k in seen then component else before[k])
  }

  ghost predicate Expanded(link: Link, comp: seq<int>, seen: set<int>) {
    forall a, b | a in SetOf(comp) && link(a, b) :: b in seen
  }

  /** One iteration of the search: pops a node, labels and pushes its unlabelled neighbours. */
  method Visit(compOf: array<int>, component: nat, m: Matrix, maxLinkMeters: real, comp: seq<int>, stack: seq<int>,
               ghost s: nat, ghost before: seq<int>, ghost seen: set<int>)
      returns (comp': seq<int>, stack': seq<int>, ghost seen': set<int>)
    requires stack != []
    requires Searching(Linked(m, compOf.Length, maxLinkMeters), compOf.Length, s, comp, stack, seen)
    requires Expanded(Linked(m, compOf.Length, maxLinkMeters), comp, seen)
    requires Overlaid(compOf[..], before, seen, component)
    requires LabelsClosed(before, Linked(m, compOf.Length, maxLinkMeters))
    modifies compOf
    ensures comp' == comp + [stack[|stack| - 1]]
    ensures Searching(Linked(m, compOf.Length, maxLinkMeters), compOf.Length, s, comp', stack', seen')
    ensures Expanded(Linked(m, compOf.Length, maxLinkMeters), comp', seen')
    ensures Overlaid(compOf[..], before, seen', component)
  {
    ghost var n, link := compOf.Length, Linked(m, compOf.Length, maxLinkMeters);
    LinkedIsMutual(m, n, maxLinkMeters);
    hide Searching, Reaches, Distinct, LabelsClosed, Linked, Expanded, Overlaid;
    var cur := stack[|stack| - 1];
    SearchFacts(link, n, s, comp, stack, seen);
    ghost var now := compOf[..];
    var pushed := LabelNeighbours(compOf, cur, component, m, maxLinkMeters);
    PushedAreOverlaid(now, compOf[..], before, seen, component, pushed);
    PopAndPush(link, n, s, comp, stack, seen, pushed);
    NeighboursAreSeen(link, compOf[..], before, comp, seen, component, pushed, cur);
    seen' := seen + SetOf(pushed);
    stack' := stack[..|stack| - 1] + pushed;
    comp' := comp + [cur];
  }

  /** Labelling unlabelled nodes is seeing them. */
  lemma PushedAreOverlaid(now: seq<int>, after: seq<int>, before: seq<int>, seen: set<int>, component: nat,
                          pushed: seq<int>)
    requires Overlaid(now, before, seen, component) && |after| == |now|
    requires forall k | 0 <= k < |now| :: after[k] == if k in pushed then component else now[k]
    requires forall k | k in pushed :: 0 <= k < |now| && now[k] == -1
    ensures SetOf(pushed) !! seen && Overlaid(after, before, seen + SetOf(pushed), component)
  {
    forall k | k in SetOf(pushed)
      ensures k !in seen
    {
      assert now[k] == -1;
    }
  }

  /** Once the links of `cur` are labelled, they have been seen. */
  lemma NeighboursAreSeen(link: Link, labels: seq<int>, before: seq<int>, comp: seq<int>, seen: set<int>,
                          component: nat, pushed: seq<int>, cur: int)
    requires Expanded(link, comp, seen) && Overlaid(labels, before, seen + SetOf(pushed), component)
    requires Mutual(link, |labels|) && LabelsClosed(before, link) && cur in seen
    requires forall k | 0 <= k < |labels| && link(cur, k) :: labels[k] != -1
    ensures Expanded(link, comp + [cur], seen + SetOf(pushed))
  {
    NoLinkToLabelled(before, link, cur);
    assert SetOf(comp + [cur]) == SetOf(comp) + {cur};
    hide LabelsClosed, SetOf;
    forall b | link(cur, b)
      ensures b in seen + SetOf(pushed)
    {
      assert labels[b] != -1 && before[b] == -1;
    }
  }

  /** The depth-first search that labels one component, starting at an unlabelled node. */
  method Explore(compOf: array<int>, s: nat, component: nat, m: Matrix, maxLinkMeters: real) returns (comp: seq<int>)
    requires s < compOf.Length && compOf[s] == -1
    requires forall k | 0 <= k < compOf.Length :: compOf[k] < component
    requires LabelsClosed(compOf[..], Linked(m, compOf.Length, maxLinkMeters))
    modifies compOf
    ensures Distinct(comp) && SetOf(comp) == ComponentOf(Linked(m, compOf.Length, maxLinkMeters), compOf.Length, s)
    ensures forall k | 0 <= k < compOf.Length :: compOf[k] == if k in SetOf(comp) then component else old(compOf[k])
    ensures LabelsClosed(compOf[..], Linked(m, compOf.Length, maxLinkMeters))
  {
    var n := compOf.Length;
    ghost var link := Linked(m, n, maxLinkMeters);
    ghost var before := compOf[..];
    comp := [];
    var stack := [s];
    ghost var seen := {s};
    compOf[s] := component;
    ReachesItself(link, s);
    assert SetOf(comp) == {} && SetOf(stack) == {s};
    hide Linked, Reaches, Distinct, LabelsClosed, ComponentOf;
    while stack != []
      invariant Searching(link, n, s, comp, stack, seen)
      invariant Expanded(link, comp, seen)
      invariant Overlaid(compOf[..], before, seen, component)
      decreases n - |comp|
    {
      SearchFacts(link, n, s, comp, stack, seen);
      comp, stack, seen := Visit(compOf, component, m, maxLinkMeters, comp, stack, s, before, seen);
    }
    SearchEnds(link, n, s, comp, seen);
    SearchFacts(link, n, s, comp, stack, seen);
  }

  lemma LinkedIsMutual(m: Matrix, n: int, maxLinkMeters: real)
    ensures Mutual(Linked(m, n, maxLinkMeters), n)
  {
  }

  lemma SearchEnds(link: Link, n: nat, s: int, comp: seq<int>, seen: set<int>)
    requires Searching(link, n, s, comp, [], seen) && Expanded(link, comp, seen)
    ensures Distinct(comp) && SetOf(comp) == ComponentOf(link, n, s)
  {
    SearchFacts(link, n, s, comp, [], seen);
    ClosedSetIsComponent(link, n, s, seen);
  }

  /** Links run both ways, so an unlabelled node has no link to a node labelled earlier. */
  lemma NoLinkToLabelled(before: seq<int>, link: Link, cur: int)
    requires 0 <= cur < |before| && before[cur] == -1
    requires forall a, b :: link(a, b) == link(b, a)
    requires LabelsClosed(before, link)
    ensures forall b | 0 <= b < |before| && link(cur, b) :: before[b] == -1
  {
    assert forall b :: link(cur, b) == link(b, cur);
  }

  lemma ClosedSetIsComponent(link: Link, n: int, s: int, seen: set<int>)
    requires s in seen && forall k | k in seen :: 0 <= k < n && Reaches(link, s, k)
    requires forall a, b | a in seen && link(a, b) :: b in seen
    ensures seen == ComponentOf(link, n, s)
  {
    forall k | 0 <= k < n && Reaches(link, s, k)
      ensures k in seen
    {
      var w :| Joins(link, s, k, w);
      StaysInside(link, w, seen);
    }
  }

  ghost predicate Covered(components: seq<seq<int>>, k: int) {
    exists p | 0 <= p < |components| :: k in SetOf(components[p])
  }

  /** All components, each a list without repeats, covering all nodes. */
  ghost predicate AreComponents(link: Link, n: int, components: seq<seq<int>>) {
    && (forall c | c in components :: Distinct(c) && IsComponent(link, n, SetOf(c)))
    && (forall k | 0 <= k < n :: Covered(components, k))
  }

  /** The labels so far point into the components found so far. */
  ghost predicate LabelsPoint(compOf: seq<int>, components: seq<seq<int>>) {
    forall k | 0 <= k < |compOf| :: compOf[k] == -1
      || (0 <= compOf[k] < |components| && k in SetOf(components[compOf[k]]))
  }

  ghost predicate AllComponents(link: Link, n: int, components: seq<seq<int>>) {
    forall c | c in components :: Distinct(c) && IsComponent(link, n, SetOf(c))
  }

  lemma AnotherComponent(link: Link, n: int, s: nat, before: seq<int>, after: seq<int>, components: seq<seq<int>>,
                         comp: seq<int>)
    requires s < n == |before| == |after|
    requires LabelsPoint(before, components) && AllComponents(link, n, components)
    requires Distinct(comp) && SetOf(comp) == ComponentOf(link, n, s)
    requires forall k | 0 <= k < n :: after[k] == if k in SetOf(comp) then |components| else before[k]
    ensures LabelsPoint(after, components + [comp]) && AllComponents(link, n, components + [comp])
    ensures after[s] != -1
  {
    hide Distinct, ComponentOf;
    assert s in ComponentOf(link, n, s) by { OwnComponent(link, n, s); }
  }

  method FindComponents(n: nat, m: Matrix, maxLinkMeters: real) returns (components: seq<seq<int>>)
    ensures AreComponents(Linked(m, n, maxLinkMeters), n, components)
  {
    hide Linked, Distinct, ComponentOf, IsComponent;
    ghost var link := Linked(m, n, maxLinkMeters);
    var compOf := new int[n](_ => -1);
    components := [];
    for s := 0 to n
      invariant LabelsPoint(compOf[..], components) && AllComponents(link, n, components)
      invariant forall k | 0 <= k < s :: compOf[k] != -1
      invariant LabelsClosed(compOf[..], link)
    {
      if compOf[s] == -1 {
        ghost var before := compOf[..];
        var comp := Explore(compOf, s, |components|, m, maxLinkMeters);
        AnotherComponent(link, n, s, before, compOf[..], components, comp);
        components := components + [comp];
      }
    }
    forall k | 0 <= k < n
      ensures Covered(components, k)
    {
      assert compOf[..][k] != -1;
      assert k in SetOf(components[compOf[k]]);
    }
  }

  lemma OwnComponent(link: Link, n: int, s: int)
    requires 0 <= s < n
    ensures s in ComponentOf(link, n, s)
  {
    ReachesItself(link, s);
  }

  // ----- The largest component -----

  function IdAt(ids: seq<int>, i: int): int {
    if 0 <= i < |ids| then ids[i] else 0
  }

  /** The lowest id in a component. */
  function MinId(ids: seq<int>, comp: seq<int>): (least: int)
    requires comp != []
    ensures exists p | 0 <= p < |comp| :: IdAt(ids, comp[p]) == least
    ensures forall p | 0 <= p < |comp| :: least <= IdAt(ids, comp[p])
  {
    var last := IdAt(ids, comp[|comp| - 1]);
    if |comp| == 1 then last
    else
      var below := comp[..|comp| - 1];
      var rest := MinId(ids, below);
      assert forall p | 0 <= p < |below| :: below[p] == comp[p];
      if last < rest then last else rest
  }

  /** Component `a` is larger than `b`, or as large and has an id below all of those of `b`. */
  ghost predicate Beats(ids: seq<int>, a: set<int>, b: set<int>) {
    |a| > |b| || (|a| == |b| && exists i | i in a :: forall j | j in b :: IdAt(ids, i) < IdAt(ids, j))
  }

  lemma BeatsByKey(ids: seq<int>, a: seq<int>, b: seq<int>)
    requires Distinct(a) && a != [] && Distinct(b) && b != []
    ensures Beats(ids, SetOf(a), SetOf(b))
       <==> |a| > |b| || (|a| == |b| && MinId(ids, a) < MinId(ids, b))
  {
    DistinctSize(a);
    DistinctSize(b);
    var i :| 0 <= i < |a| && IdAt(ids, a[i]) == MinId(ids, a);
    var j :| 0 <= j < |b| && IdAt(ids, b[j]) == MinId(ids, b);
    assert a[i] in SetOf(a) && b[j] in SetOf(b);
    assert forall x | x in SetOf(b) :: exists p | 0 <= p < |b| :: b[p] == x;
    assert forall x | x in SetOf(a) :: exists p | 0 <= p < |a| :: a[p] == x;
  }

  method PickLargest(ids: seq<int>, components: seq<seq<int>>) returns (best: seq<int>)
    requires components != [] && forall p | 0 <= p < |components| :: Distinct(components[p]) && components[p] != []
    ensures best in components
    ensures forall p | 0 <= p < |components| :: !Beats(ids, SetOf(components[p]), SetOf(best))
  {
    hide Distinct, MinId, SetOf, Beats;
    best := components[0];
    var bestMinId := MinId(ids, best);
    ghost var chosen := 0;
    for p := 1 to |components|
      invariant 0 <= chosen < p && best == components[chosen] && bestMinId == MinId(ids, best)
      invariant forall q | 0 <= q < p ::
        |components[q]| <= |best| && (|components[q]| == |best| ==> bestMinId <= MinId(ids, components[q]))
    {
      var comp := components[p];
      var minId := MinId(ids, comp);
      if |comp| > |best| || (|comp| == |best| && minId < bestMinId) {
        best, bestMinId, chosen := comp, minId, p;
      }
    }
    forall p | 0 <= p < |components|
      ensures !Beats(ids, SetOf(components[p]), SetOf(best))
    {
      BeatsByKey(ids, components[p], best);
    }
  }

  /** The ids at the chosen indices among the first `count`, in order. */
  function Select(ids: seq<int>, chosen: set<int>, count: nat): (r: seq<int>)
    requires count <= |ids|
  {
    if count == 0 then []
    else Select(ids, chosen, count - 1) + (if count - 1 in chosen then [ids[count - 1]] else [])
  }

  /** `best` is a largest component, lowest id first on ties. */
  ghost predicate IsLargestComponent(link: Link, ids: seq<int>, best: set<int>) {
    && IsComponent(link, |ids|, best)
    && forall c | IsComponent(link, |ids|, c) :: !Beats(ids, c, best)
  }

  lemma PickedIsLargest(link: Link, ids: seq<int>, components: seq<seq<int>>, best: seq<int>)
    requires Mutual(link, |ids|) && AreComponents(link, |ids|, components) && best in components
    requires forall p | 0 <= p < |components| :: !Beats(ids, SetOf(components[p]), SetOf(best))
    ensures IsLargestComponent(link, ids, SetOf(best))
  {
    forall other | IsComponent(link, |ids|, other)
      ensures !Beats(ids, other, SetOf(best))
    {
      var r :| 0 <= r < |ids| && other == ComponentOf(link, |ids|, r);
      assert Covered(components, r);
      var p :| 0 <= p < |components| && r in SetOf(components[p]);
      assert components[p] in components;
      OwnComponent(link, |ids|, r);
      SharedNodeSameComponent(link, |ids|, r, SetOf(components[p]));
    }
  }

  lemma ComponentsNonEmpty(link: Link, n: nat, components: seq<seq<int>>)
    requires AreComponents(link, n, components)
    ensures n > 0 ==> components != []
    ensures forall c | c in components :: c != [] && forall i | i in c :: 0 <= i < n
  {
    assert n > 0 ==> Covered(components, 0);
    forall c | c in components
      ensures c != [] && forall i | i in c :: 0 <= i < n
    {
      var r :| 0 <= r < n && SetOf(c) == ComponentOf(link, n, r);
      OwnComponent(link, n, r);
      assert r in SetOf(c);
      assert forall i | i in c :: i in SetOf(c);
    }
  }

  lemma SharedNodeSameComponent(link: Link, n: int, r: int, c: set<int>)
    requires Mutual(link, n) && IsComponent(link, n, c) && r in c
    ensures c == ComponentOf(link, n, r)
  {
    var s :| 0 <= s < n && c == ComponentOf(link, n, s);
    ReachesSymmetrically(link, s, r);
    forall k
      ensures Reaches(link, s, k) <==> Reaches(link, r, k)
    {
      if Reaches(link, r, k) { ReachesTransitively(link, s, r, k); }
      if Reaches(link, s, k) { ReachesTransitively(link, r, s, k); }
    }
  }

  /** The ids split into those of a largest component and the others, each in input order. */
  ghost predicate SplitsOff(link: Link, ids: seq<int>, best: set<int>, kept: seq<int>, dropped: seq<int>) {
    && best <= Range(|ids|) && (ids != [] ==> IsLargestComponent(link, ids, best))
    && kept == Select(ids, best, |ids|) && dropped == Select(ids, Range(|ids|) - best, |ids|)
  }

  ghost predicate KeepsLargest(link: Link, ids: seq<int>, kept: seq<int>, dropped: seq<int>) {
    exists best: set<int> :: SplitsOff(link, ids, best, kept, dropped)
  }

  lemma AtMostOneId(link: Link, ids: seq<int>)
    requires |ids| <= 1
    ensures SplitsOff(link, ids, Range(|ids|), ids, [])
  {
    var best := Range(|ids|);
    if ids != [] {
      ReachesItself(link, 0);
      assert best == ComponentOf(link, 1, 0);
      assert Select(ids, best, 0) == [] && Select(ids, best - best, 0) == [];
    }
  }

  method LargestConnectedComponent(ids: seq<int>, m: Matrix, maxLinkMeters: real)
      returns (keptIds: seq<int>, droppedIds: seq<int>)
    requires Distinct(ids)
    ensures KeepsLargest(Linked(m, |ids|, maxLinkMeters), ids, keptIds, droppedIds)
  {
    hide Linked, IsLargestComponent, Select;
    var n := |ids|;
    ghost var link := Linked(m, n, maxLinkMeters);
    if n <= 1 {
      AtMostOneId(link, ids);
      return ids, [];
    }
    var components := FindComponents(n, m, maxLinkMeters);
    ComponentsNonEmpty(link, n, components);
    var largest := PickLargest(ids, components);
    LinkedIsMutual(m, n, maxLinkMeters);
    PickedIsLargest(link, ids, components, largest);
    keptIds, droppedIds := FilterByComponent(ids, largest);
    assert SplitsOff(link, ids, SetOf(largest), keptIds, droppedIds);
  }

  method FilterByComponent(ids: seq<int>, largest: seq<int>) returns (keptIds: seq<int>, droppedIds: seq<int>)
    requires Distinct(ids) && forall i | i in largest :: 0 <= i < |ids|
    ensures keptIds == Select(ids, SetOf(largest), |ids|)
    ensures droppedIds == Select(ids, Range(|ids|) - SetOf(largest), |ids|)
  {
    var keep := set i | i in largest :: ids[i];
    keptIds, droppedIds := [], [];
    for p := 0 to |ids|
      invariant keptIds == Select(ids, SetOf(largest), p)
      invariant droppedIds == Select(ids, Range(|ids|) - SetOf(largest), p)
    {
      if ids[p] in keep {
        keptIds := keptIds + [ids[p]];
      } else {
        droppedIds := droppedIds + [ids[p]];
      }
    }
  }
}
