/** A saved plan and the per-leg edits a user bakes into it. */
module PlanEdits {
  import opened Options

  type Point = (real, real)

  datatype Walk = Walk(metres: real, seconds: real, geometry: seq<Point>)

  datatype Leg = Leg(index: int, chosen: Walk, alternatives: seq<Walk>, selected: int)

  datatype Totals = Totals(metres: real, seconds: real, visitMinutes: real)

  datatype Plan = Plan(legs: seq<Leg>, polyline: seq<Point>, totals: Totals)

  /** An alternative, the same in its older form of a bare number, or a detour through a point. */
  datatype Pick = Alt(altIndex: int) | Bare(number: int) | Via(via: Point, walk: Walk)

  type Picks = map<int, Pick>

  function PickFor(picks: Picks, leg: Leg): Option<Pick> {
    if leg.index in picks then Some(picks[leg.index]) else None
  }

  function AltIndex(leg: Leg, pick: Option<Pick>): int {
    match pick
    case Some(Alt(i)) => i
    case Some(Bare(i)) => i
    case _ => leg.selected
  }

  function ResolvePick(leg: Leg, pick: Option<Pick>): Walk {
    if pick.Some? && pick.value.Via? then pick.value.walk
    else
      var i := AltIndex(leg, pick);
      if 0 <= i < |leg.alternatives| then leg.alternatives[i]
      else if leg.alternatives != [] then leg.alternatives[0]
      else leg.chosen
  }

  function Resolutions(legs: seq<Leg>, picks: Picks): (r: seq<Walk>)
    ensures |r| == |legs| && forall i | 0 <= i < |legs| :: r[i] == ResolvePick(legs[i], PickFor(picks, legs[i]))
  {
    seq(|legs|, i requires 0 <= i < |legs| => ResolvePick(legs[i], PickFor(picks, legs[i])))
  }

  /** What a plan shows when opened without picks. */
  function Shown(plan: Plan): seq<Walk> {
    Resolutions(plan.legs, map[])
  }

  /** The walks end to end, without the first vertex of every walk after the first. */
  function Join(walks: seq<Walk>): seq<Point> {
    if walks == [] then []
    else
      var g := walks[|walks| - 1].geometry;
      Join(walks[..|walks| - 1]) + if |walks| == 1 || g == [] then g else g[1..]
  }

  function BuildEditedPolyline(plan: Plan, picks: Picks): seq<Point> {
    if picks == map[] || plan.legs == [] then plan.polyline else Join(Resolutions(plan.legs, picks))
  }

  function BakeLeg(leg: Leg, pick: Option<Pick>): Leg {
    var walk := ResolvePick(leg, pick);
    if pick.Some? && pick.value.Via? then
      leg.(chosen := walk, alternatives := leg.alternatives + [walk], selected := |leg.alternatives|)
    else
      var i := AltIndex(leg, pick);
      leg.(chosen := walk, selected := if 0 <= i < |leg.alternatives| then i else leg.selected)
  }

  function BakeLegs(legs: seq<Leg>, picks: Picks): (r: seq<Leg>)
    ensures |r| == |legs| && forall i | 0 <= i < |legs| :: r[i] == BakeLeg(legs[i], PickFor(picks, legs[i]))
  {
    seq(|legs|, i requires 0 <= i < |legs| => BakeLeg(legs[i], PickFor(picks, legs[i])))
  }

  function Metres(walks: seq<Walk>): real {
    if walks == [] then 0.0 else Metres(walks[..|walks| - 1]) + walks[|walks| - 1].metres
  }

  function Seconds(walks: seq<Walk>): real {
    if walks == [] then 0.0 else Seconds(walks[..|walks| - 1]) + walks[|walks| - 1].seconds
  }

  function Bake(plan: Plan, picks: Picks): Plan {
    if picks == map[] || plan.legs == [] then plan
    else
      var walks := Resolutions(plan.legs, picks);
      Plan(BakeLegs(plan.legs, picks), Join(walks),
           plan.totals.(metres := Metres(walks), seconds := Seconds(walks)))
  }

  /** Bakes the picks into the plan, summing as it goes. */
  method ApplyLegEdits(plan: Plan, picks: Picks) returns (baked: Plan)
    ensures baked == Bake(plan, picks)
  {
    if picks == map[] || plan.legs == [] { return plan; }
    var metres, seconds, legs := 0.0, 0.0, [];
    ghost var walks := Resolutions(plan.legs, picks);
    for i := 0 to |plan.legs|
      invariant legs == BakeLegs(plan.legs, picks)[..i]
      invariant metres == Metres(walks[..i]) && seconds == Seconds(walks[..i])
    {
      assert walks[..i + 1][..i] == walks[..i];
      var leg := plan.legs[i];
      var pick := PickFor(picks, leg);
      var r := ResolvePick(leg, pick);
      metres, seconds := metres + r.metres, seconds + r.seconds;
      if pick.Some? && pick.value.Via? {
        var alternatives := leg.alternatives + [r];
        legs := legs + [leg.(chosen := r, alternatives := alternatives, selected := |alternatives| - 1)];
      } else {
        var altIndex := AltIndex(leg, pick);
        var selected := if altIndex >= 0 && altIndex < |leg.alternatives| then altIndex else leg.selected;
        legs := legs + [leg.(chosen := r, selected := selected)];
      }
    }
    assert walks[..|plan.legs|] == walks;
    baked := Plan(legs, BuildEditedPolyline(plan, picks), plan.totals.(metres := metres, seconds := seconds));
  }

  /**
   What a leg shows: a detour its own walk; a pick in range that alternative; no pick the selected one; and
   past the end the first alternative, or without alternatives the leg's own walk.
   */
  lemma WhatALegShows(leg: Leg, i: int, point: Point, walk: Walk)
    ensures ResolvePick(leg, Some(Via(point, walk))) == walk
    ensures 0 <= i < |leg.alternatives| ==>
      ResolvePick(leg, Some(Alt(i))) == ResolvePick(leg, Some(Bare(i))) == leg.alternatives[i]
    ensures !(0 <= i < |leg.alternatives|) ==>
      ResolvePick(leg, Some(Alt(i))) == ResolvePick(leg, Some(Bare(i)))
      == if leg.alternatives != [] then leg.alternatives[0] else leg.chosen
    ensures ResolvePick(leg, None) == ResolvePick(leg, Some(Alt(leg.selected)))
  {
  }

  /** A baked leg carries the walk it shows; its alternatives stay, a detour being added at the end. */
  lemma BakedLegCarriesItsWalk(plan: Plan, picks: Picks, i: nat)
    requires picks != map[] && i < |plan.legs|
    ensures |Bake(plan, picks).legs| == |plan.legs|
    ensures var (leg, baked) := (plan.legs[i], Bake(plan, picks).legs[i]);
      && baked.index == leg.index
      && baked.chosen == ResolvePick(leg, if leg.index in picks then Some(picks[leg.index]) else None)
      && baked.alternatives == leg.alternatives
           + if leg.index in picks && picks[leg.index].Via? then [picks[leg.index].walk] else []
  {
  }

  /** The totals of walks end to end are the sums of their parts. */
  lemma {:induction false} TotalsAddUp(a: seq<Walk>, b: seq<Walk>)
    ensures Metres(a + b) == Metres(a) + Metres(b) && Seconds(a + b) == Seconds(a) + Seconds(b)
    ensures forall w :: Metres([w]) == w.metres && Seconds([w]) == w.seconds
    decreases |b|
  {
    assert forall w: Walk :: [w][..0] == [];
    if b == [] {
      assert a + b == a;
    } else {
      assert (a + b)[..|a + b| - 1] == a + b[..|b| - 1];
      TotalsAddUp(a, b[..|b| - 1]);
    }
  }

  // ----- Reopening a baked plan -----

  /** What the leg shows when baked with the pick and reopened without any. */
  function Reopened(leg: Leg, pick: Option<Pick>): Walk {
    ResolvePick(BakeLeg(leg, pick), None)
  }

  /** Reopened, the leg shows what was picked. */
  predicate Survives(leg: Leg, pick: Option<Pick>) {
    Reopened(leg, pick) == ResolvePick(leg, pick)
  }

  predicate InRange(leg: Leg, i: int) {
    0 <= i < |leg.alternatives|
  }

  /** A detour, a real alternative, or a leg where the fallback is what the leg selects anyway. */
  predicate Storable(leg: Leg, pick: Option<Pick>) {
    || (pick.Some? && pick.value.Via?)
    || InRange(leg, AltIndex(leg, pick))
    || !InRange(leg, leg.selected)
    || leg.alternatives[leg.selected] == leg.alternatives[0]
  }

  lemma SurvivesExactlyWhenStorable(leg: Leg, pick: Option<Pick>)
    ensures Survives(leg, pick) <==> Storable(leg, pick)
  {
  }

  /** A pick that names an alternative past the end is lost: the leg reopens on its old selection. */
  lemma OutOfRangePickIsLost(leg: Leg, i: int)
    requires InRange(leg, leg.selected) && leg.alternatives[leg.selected] != leg.alternatives[0] && !InRange(leg, i)
    ensures ResolvePick(leg, Some(Alt(i))) == leg.alternatives[0]
    ensures Reopened(leg, Some(Alt(i))) == leg.alternatives[leg.selected]
  {
  }

  ghost predicate AllStorable(plan: Plan, picks: Picks) {
    forall i | 0 <= i < |plan.legs| :: Storable(plan.legs[i], PickFor(picks, plan.legs[i]))
  }

  lemma NothingPicked(plan: Plan, picks: Picks)
    requires picks == map[]
    ensures AllStorable(plan, picks)
  {
  }

  /** Every leg of the reopened plan resolves as edited, exactly when every pick can be stored. */
  lemma ReopensAsEdited(plan: Plan, picks: Picks)
    ensures Shown(Bake(plan, picks)) == Resolutions(plan.legs, picks) <==> AllStorable(plan, picks)
  {
    hide Storable, BakeLeg, ResolvePick;
    var before, after := Resolutions(plan.legs, picks), Shown(Bake(plan, picks));
    if picks == map[] || plan.legs == [] {
      NothingPicked(plan, map[]);
      assert picks == map[] ==> before == after;
    } else {
      forall i | 0 <= i < |plan.legs|
        ensures after[i] == before[i] <==> Storable(plan.legs[i], PickFor(picks, plan.legs[i]))
      {
        SurvivesExactlyWhenStorable(plan.legs[i], PickFor(picks, plan.legs[i]));
      }
    }
  }

  /** Reopened without picks, the polyline is the edited one and the totals are the legs' sums. */
  lemma ReopensWithItsTrack(plan: Plan, picks: Picks)
    requires picks != map[] && plan.legs != [] && AllStorable(plan, picks)
    ensures var baked := Bake(plan, picks);
      && BuildEditedPolyline(baked, map[]) == BuildEditedPolyline(plan, picks) == Join(Shown(baked))
      && baked.totals.metres == Metres(Shown(baked))
      && baked.totals.seconds == Seconds(Shown(baked))
      && baked.totals.visitMinutes == plan.totals.visitMinutes
  {
    hide Storable, BakeLeg, ResolvePick;
    ReopensAsEdited(plan, picks);
  }

  // ----- The joined track -----

  function Vertices(walks: seq<Walk>): nat {
    if walks == [] then 0 else Vertices(walks[..|walks| - 1]) + |walks[|walks| - 1].geometry|
  }

  ghost predicate NoneEmpty(walks: seq<Walk>) {
    forall i | 0 <= i < |walks| :: walks[i].geometry != []
  }

  /** The track has every vertex once: the sum over the legs less one per junction. */
  lemma {:induction false} TrackLength(walks: seq<Walk>)
    requires NoneEmpty(walks) && walks != []
    ensures |Join(walks)| == Vertices(walks) - (|walks| - 1)
    decreases |walks|
  {
    var below := walks[..|walks| - 1];
    if below != [] { TrackLength(below); } else { assert Join(below) == [] && Vertices(below) == 0; }
  }

  /** Every walk starts where the one before it ends. */
  ghost predicate Connected(walks: seq<Walk>) {
    && NoneEmpty(walks)
    && forall i | 0 < i < |walks| ::
      walks[i].geometry[0] == walks[i - 1].geometry[|walks[i - 1].geometry| - 1]
  }

  /** Where walk `n` starts in the track. */
  function Start(walks: seq<Walk>, n: nat): int
    requires n <= |walks|
  {
    if n == 0 then 0 else Start(walks, n - 1) + |walks[n - 1].geometry| - 1
  }

  lemma {:induction false} StartOfPrefix(walks: seq<Walk>, m: nat, n: nat)
    requires n <= m <= |walks|
    ensures Start(walks[..m], n) == Start(walks, n)
  {
    if n > 0 { StartOfPrefix(walks, m, n - 1); }
  }

  /** The last vertex of a walk. */
  function End(g: seq<Point>): Point
    requires g != []
  {
    g[|g| - 1]
  }

  lemma ConnectedPrefix(walks: seq<Walk>)
    requires Connected(walks) && walks != []
    ensures var below, last := walks[..|walks| - 1], walks[|walks| - 1].geometry;
      && Connected(below) && last != []
      && (below != [] ==> below[|below| - 1].geometry != [] && last[0] == End(below[|below| - 1].geometry))
  {
    var m := |walks| - 1;
    assert walks[m].geometry != [];
    if m > 0 { assert walks[m].geometry[0] == walks[m - 1].geometry[|walks[m - 1].geometry| - 1]; }
    forall i | 0 <= i < m
      ensures walks[..m][i].geometry != []
    {
      assert walks[i].geometry != [];
    }
    forall i | 0 < i < m
      ensures walks[..m][i].geometry[0] == walks[..m][i - 1].geometry[|walks[..m][i - 1].geometry| - 1]
    {
      assert walks[i].geometry[0] == walks[i - 1].geometry[|walks[i - 1].geometry| - 1];
    }
  }

  lemma {:induction false} TrackEnds(walks: seq<Walk>)
    requires Connected(walks) && walks != []
    ensures walks[|walks| - 1].geometry != []
    ensures |Join(walks)| == Start(walks, |walks|) + 1 > 0
    ensures End(Join(walks)) == End(walks[|walks| - 1].geometry)
    decreases |walks|
  {
    hide Connected;
    var below, last := walks[..|walks| - 1], walks[|walks| - 1].geometry;
    ConnectedPrefix(walks);
    if below == [] {
      assert Join(below) == [] && Join(walks) == last;
    } else {
      TrackEnds(below);
      StartOfPrefix(walks, |below|, |below|);
    }
  }

  lemma JoinLast(walks: seq<Walk>)
    requires Connected(walks) && |walks| > 1
    ensures var below, last := walks[..|walks| - 1], walks[|walks| - 1].geometry;
      && Start(walks, |below|) >= 0 && last != []
      && |Join(below)| == Start(walks, |below|) + 1 && Join(walks) == Join(below)[..|Join(below)| - 1] + last
  {
    hide Connected;
    var below, last := walks[..|walks| - 1], walks[|walks| - 1].geometry;
    ConnectedPrefix(walks);
    TrackEnds(below);
    StartOfPrefix(walks, |below|, |below|);
    assert last == [last[0]] + last[1..];
    assert Join(below) == Join(below)[..|Join(below)| - 1] + [last[0]];
  }

  /** Walk `n` lies in the track from `start` on. */
  predicate LiesAt(track: seq<Point>, start: int, g: seq<Point>) {
    0 <= start <= start + |g| <= |track| && track[start..start + |g|] == g
  }

  lemma LiesAtLonger(track: seq<Point>, longer: seq<Point>, start: int, g: seq<Point>)
    requires LiesAt(track, start, g) && |track| <= |longer| && longer[..|track|] == track
    ensures LiesAt(longer, start, g)
  {
    assert longer[start..start + |g|] == longer[..|track|][start..start + |g|];
  }

  /** The track runs through every walk in full, in order. */
  lemma {:induction false} TrackFollowsEveryWalk(walks: seq<Walk>, n: nat)
    requires Connected(walks) && n < |walks|
    ensures LiesAt(Join(walks), Start(walks, n), walks[n].geometry)
    decreases |walks|
  {
    hide Connected, Join, Start, LiesAt;
    var below, last := walks[..|walks| - 1], walks[|walks| - 1].geometry;
    StartOfPrefix(walks, |below|, n);
    if below == [] {
      OneWalk(walks);
    } else {
      JoinLast(walks);
      ConnectedPrefix(walks);
      var track := Join(below);
      if n < |below| {
        TrackFollowsEveryWalk(below, n);
        TrackEnds(below);
        assert last[0] == End(track) && track[..|track| - 1] + [last[0]] == track;
        assert Join(walks)[..|track|] == track;
        LiesAtLonger(track, Join(walks), Start(below, n), walks[n].geometry);
      } else {
        LiesAtEnd(track[..|track| - 1], last);
      }
    }
  }

  lemma LiesAtEnd(front: seq<Point>, g: seq<Point>)
    ensures LiesAt(front + g, |front|, g)
  {
  }

  lemma OneWalk(walks: seq<Walk>)
    requires |walks| == 1
    ensures LiesAt(Join(walks), Start(walks, 0), walks[0].geometry)
  {
    assert Join(walks[..0]) == [];
    assert Join(walks) == walks[0].geometry;
  }

  // ----- Editing twice -----

  /** The pick a leg is left with after two edits. */
  function Later(first: Option<Pick>, second: Option<Pick>): Option<Pick> {
    if second.Some? then second else first
  }

  /** A detour, or the number of an alternative the leg has. */
  predicate Names(leg: Leg, pick: Option<Pick>) {
    pick.Some? && (pick.value.Via? || InRange(leg, AltIndex(leg, pick)))
  }

  /**
   On the baked leg the second pick means what it meant on the original: there is none and the first
   could be stored, or it is no number past the end that the first one's detour has come to answer.
   */
  predicate Agrees(leg: Leg, first: Option<Pick>, second: Option<Pick>) {
    if second == None then Storable(leg, first)
    else
      || Names(leg, second)
      || first == None || !first.value.Via?
      || (leg.alternatives != [] && AltIndex(leg, second) != |leg.alternatives|)
      || first.value.walk == ResolvePick(leg, second)
  }

  /** Once baked, a number past the end leaves the leg as it is, so the first pick must have left it so too. */
  predicate Settles(leg: Leg, first: Option<Pick>, second: Option<Pick>) {
    || second == None || Names(leg, second)
    || !Names(leg, first) || ResolvePick(leg, first) == ResolvePick(leg, None)
  }

  lemma EditLegTwice(leg: Leg, first: Option<Pick>, second: Option<Pick>)
    ensures ResolvePick(BakeLeg(leg, first), second) == ResolvePick(leg, Later(first, second))
       <==> Agrees(leg, first, second)
  {
  }

  lemma ReopenLegTwice(leg: Leg, first: Option<Pick>, second: Option<Pick>)
    ensures Reopened(BakeLeg(leg, first), second) == Reopened(leg, Later(first, second))
       <==> Settles(leg, first, second)
  {
  }

  ghost predicate AllAgree(plan: Plan, first: Picks, second: Picks) {
    forall i | 0 <= i < |plan.legs| ::
      Agrees(plan.legs[i], PickFor(first, plan.legs[i]), PickFor(second, plan.legs[i]))
  }

  ghost predicate AllSettle(plan: Plan, first: Picks, second: Picks) {
    forall i | 0 <= i < |plan.legs| ::
      Settles(plan.legs[i], PickFor(first, plan.legs[i]), PickFor(second, plan.legs[i]))
  }

  /** A leg of the baked plan resolves like the baked leg; with no picks at all the plan stays as it is. */
  lemma BakedLegResolves(plan: Plan, picks: Picks, i: nat, later: Option<Pick>)
    requires i < |plan.legs|
    ensures var (leg, baked) := (plan.legs[i], Bake(plan, picks).legs);
      && |baked| == |plan.legs| && baked[i].index == leg.index
      && ResolvePick(baked[i], later) == ResolvePick(BakeLeg(leg, PickFor(picks, leg)), later)
      && Reopened(baked[i], later) == Reopened(BakeLeg(leg, PickFor(picks, leg)), later)
  {
  }

  /** Picks resolve on the baked plan as on the original with the earlier picks underneath, exactly when all agree. */
  lemma LaterPicksOverride(plan: Plan, first: Picks, second: Picks)
    ensures Resolutions(Bake(plan, first).legs, second) == Resolutions(plan.legs, first + second)
       <==> AllAgree(plan, first, second)
  {
    hide ResolvePick, BakeLeg, Agrees, Bake;
    var twice, once := Resolutions(Bake(plan, first).legs, second), Resolutions(plan.legs, first + second);
    SameLegs(plan, first);
    forall i | 0 <= i < |plan.legs|
      ensures twice[i] == once[i]
         <==> Agrees(plan.legs[i], PickFor(first, plan.legs[i]), PickFor(second, plan.legs[i]))
    {
      var leg := plan.legs[i];
      BakedLegResolves(plan, first, i, PickFor(second, leg));
      EditLegTwice(leg, PickFor(first, leg), PickFor(second, leg));
    }
  }

  lemma SameLegs(plan: Plan, picks: Picks)
    ensures |Bake(plan, picks).legs| == |plan.legs|
  {
  }

  /** Baking twice reopens as baking the later picks over the earlier, exactly when all settle. */
  lemma BakingTwiceReopens(plan: Plan, first: Picks, second: Picks)
    ensures Shown(Bake(Bake(plan, first), second)) == Shown(Bake(plan, first + second))
       <==> AllSettle(plan, first, second)
  {
    hide ResolvePick, BakeLeg, Settles, Bake;
    var middle := Bake(plan, first);
    var twice, once := Shown(Bake(middle, second)), Shown(Bake(plan, first + second));
    SameLegs(plan, first);
    SameLegs(middle, second);
    SameLegs(plan, first + second);
    forall i | 0 <= i < |plan.legs|
      ensures twice[i] == once[i]
         <==> Settles(plan.legs[i], PickFor(first, plan.legs[i]), PickFor(second, plan.legs[i]))
    {
      var leg := plan.legs[i];
      BakedLegResolves(plan, first, i, PickFor(second, leg));
      BakedLegResolves(middle, second, i, None);
      BakedLegResolves(plan, first + second, i, None);
      ReopenLegTwice(leg, PickFor(first, leg), PickFor(second, leg));
    }
  }

  /** Where all picks agree, baking twice also gives the track and the totals of baking the later over the earlier. */
  lemma BakingTwiceIsBakingTheOverride(plan: Plan, first: Picks, second: Picks)
    requires AllAgree(plan, first, second)
    ensures var twice, once := Bake(Bake(plan, first), second), Bake(plan, first + second);
      twice.polyline == once.polyline && twice.totals == once.totals
  {
    hide Resolutions, AllAgree, BakeLegs;
    LaterPicksOverride(plan, first, second);
    if second == map[] { assert first + second == first; }
    if first == map[] { assert first + second == second; }
  }

  /** A second pick past the end names the detour the first appended: the baked leg shows it, the original does not. */
  lemma AppendedDetourIsNamed(leg: Leg, point: Point, detour: Walk)
    requires leg.alternatives != [] && detour != leg.alternatives[0]
    ensures var (first, second) := (Some(Via(point, detour)), Some(Alt(|leg.alternatives|)));
      && ResolvePick(BakeLeg(leg, first), second) == detour
      && ResolvePick(leg, second) == leg.alternatives[0]
      && !Agrees(leg, first, second)
  {
  }
}
