/**
 Distance matrices with missing legs, and the cost of walking a closed tour over them.

 A cost counts the missing legs apart from the metres of the legs that exist. Costs add up
 exactly, which sums of `+Infinity` do not; the length the source computes is their `Total`.
 */
module TourCosts {
  import opened Options
  import opened Matrices
  import opened ExtendedNumbers

  /** The source's `d2`. */
  function D2(m: Matrix, i: nat, j: nat): Number {
    if i == j then Fin(0.0)
    else match Leg(m, i, j)
      case None => PosInf
      case Some(v) => Fin(v)
  }

  datatype Cost = Cost(nulls: nat, metres: real)

  const ZERO := Cost(0, 0.0)

  function Plus(a: Cost, b: Cost): Cost {
    Cost(a.nulls + b.nulls, a.metres + b.metres)
  }

  function Plus3(a: Cost, b: Cost, c: Cost): Cost {
    Plus(Plus(a, b), c)
  }

  /** What a cost is worth as a JavaScript number. */
  function Total(c: Cost): Number {
    if c.nulls > 0 then PosInf else Fin(c.metres)
  }

  function LegCost(m: Matrix, i: nat, j: nat): (c: Cost)
    ensures Total(c) == D2(m, i, j)
    ensures Total(c) == PosInf <==> i != j && Leg(m, i, j) == None
    ensures i != j && Leg(m, i, j).Some? ==> Total(c) == Fin(Leg(m, i, j).value)
  {
    if i == j then ZERO
    else match Leg(m, i, j)
      case None => Cost(1, 0.0)
      case Some(v) => Cost(0, v)
  }

  /** What each leg costs. The tour lemmas hold for any pricing, whatever the matrix behind it. */
  type Pricing = (nat, nat) -> Cost

  function PricingOf(m: Matrix): Pricing {
    (i: nat, j: nat) => LegCost(m, i, j)
  }

  lemma TotalOfSum(a: Cost, b: Cost)
    ensures Add(Total(a), Total(b)) == Total(Plus(a, b))
  {
  }

  lemma PriceIsD2(m: Matrix, i: nat, j: nat)
    ensures D2(m, i, j) == Total(PricingOf(m)(i, j))
  {
  }

  /** Legs among these nodes cost the same both ways. */
  ghost predicate SymmetricOn(leg: Pricing, nodes: seq<nat>) {
    forall i: nat, j: nat | i in nodes && j in nodes :: leg(i, j) == leg(j, i)
  }

  /** Cost of visiting `s` in order, without closing the loop. */
  function PathCost(leg: Pricing, s: seq<nat>): Cost {
    if |s| <= 1 then ZERO else Plus(leg(s[0], s[1]), PathCost(leg, s[1..]))
  }

  /** Cost of the closed tour. */
  function TourCost(leg: Pricing, order: seq<nat>): Cost {
    if order == [] then ZERO else PathCost(leg, order + [order[0]])
  }

  function First(s: seq<nat>): nat requires s != [] { s[0] }

  function Last(s: seq<nat>): nat requires s != [] { s[|s| - 1] }

  /** The leg that joins two consecutive pieces of a path. */
  function Joint(leg: Pricing, a: seq<nat>, b: seq<nat>): Cost
    requires a != [] && b != []
  {
    leg(Last(a), First(b))
  }

  lemma {:induction false} PathPrepend(leg: Pricing, head: nat, tail: seq<nat>)
    requires tail != []
    ensures PathCost(leg, [head] + tail) == Plus(leg(head, tail[0]), PathCost(leg, tail))
  {
    assert ([head] + tail)[1..] == tail;
  }

  /** A path costs its two pieces and the leg between them. */
  lemma {:induction false} PathConcat(leg: Pricing, a: seq<nat>, b: seq<nat>)
    requires a != [] && b != []
    ensures PathCost(leg, a + b) == Plus3(PathCost(leg, a), Joint(leg, a, b), PathCost(leg, b))
    decreases |a|
  {
    if |a| == 1 {
      calc {
        PathCost(leg, a + b);
        { assert a == [a[0]]; }
        PathCost(leg, [a[0]] + b);
        { PathPrepend(leg, a[0], b); }
        Plus(leg(a[0], b[0]), PathCost(leg, b));
        Plus3(PathCost(leg, a), Joint(leg, a, b), PathCost(leg, b));
      }
    } else {
      var t := a[1..];
      calc {
        PathCost(leg, a + b);
        { assert a + b == [a[0]] + (t + b); PathPrepend(leg, a[0], t + b); }
        Plus(leg(a[0], t[0]), PathCost(leg, t + b));
        { PathConcat(leg, t, b); }
        Plus(leg(a[0], t[0]), Plus3(PathCost(leg, t), Joint(leg, a, b), PathCost(leg, b)));
        Plus3(Plus(leg(a[0], t[0]), PathCost(leg, t)), Joint(leg, a, b), PathCost(leg, b));
        { assert a == [a[0]] + t; PathPrepend(leg, a[0], t); }
        Plus3(PathCost(leg, a), Joint(leg, a, b), PathCost(leg, b));
      }
    }
  }

  /** The source's `order[p % order.length]` for the positions it asks for (`AtWraps`). */
  function At(order: seq<nat>, p: nat): nat
    requires 0 < p <= |order|
  {
    if p == |order| then order[0] else order[p]
  }

  lemma AtWraps(order: seq<nat>, p: nat)
    requires 0 < p <= |order|
    ensures At(order, p) == First(order[p..] + [order[0]])
    ensures At(order, p) == order[p % |order|]
  {
  }

  lemma PathStep(leg: Pricing, s: seq<nat>, i: nat)
    requires i + 1 < |s|
    ensures PathCost(leg, s[..i + 2]) == Plus(PathCost(leg, s[..i + 1]), leg(s[i], s[i + 1]))
  {
    assert s[..i + 2] == s[..i + 1] + [s[i + 1]];
    PathConcat(leg, s[..i + 1], [s[i + 1]]);
  }

  /** The first `count` legs of the closed tour, in the order the source adds them up. */
  function LegsSoFar(leg: Pricing, order: seq<nat>, count: nat): Cost
    requires count <= |order|
  {
    if count == 0 then ZERO else Plus(LegsSoFar(leg, order, count - 1), leg(order[count - 1], At(order, count)))
  }

  lemma {:induction false} LegsSoFarIsPath(leg: Pricing, order: seq<nat>, count: nat)
    requires order != [] && count <= |order|
    ensures LegsSoFar(leg, order, count) == PathCost(leg, (order + [order[0]])[..count + 1])
  {
    if count > 0 {
      LegsSoFarIsPath(leg, order, count - 1);
      PathStep(leg, order + [order[0]], count - 1);
    }
  }

  lemma AllLegsAreTour(leg: Pricing, order: seq<nat>)
    ensures LegsSoFar(leg, order, |order|) == TourCost(leg, order)
  {
    if order != [] {
      LegsSoFarIsPath(leg, order, |order|);
      assert (order + [order[0]])[..|order| + 1] == order + [order[0]];
    }
  }

  method TourLength(m: Matrix, order: seq<nat>) returns (total: Number)
    ensures total == Total(TourCost(PricingOf(m), order))
  {
    total := Fin(0.0);
    assert total == Total(ZERO);
    hide D2, LegCost, Add, Total;
    for i := 0 to |order|
      invariant total == Total(LegsSoFar(PricingOf(m), order, i))
    {
      PriceIsD2(m, order[i], At(order, i + 1));
      TotalOfSum(LegsSoFar(PricingOf(m), order, i), PricingOf(m)(order[i], At(order, i + 1)));
      total := Add(total, D2(m, order[i], At(order, i + 1)));
    }
    AllLegsAreTour(PricingOf(m), order);
  }

  function Reversed(s: seq<nat>): seq<nat> {
    seq(|s|, p requires 0 <= p < |s| => s[|s| - 1 - p])
  }

  lemma ReversedEnds(s: seq<nat>)
    requires s != []
    ensures Reversed(s) != [] && First(Reversed(s)) == Last(s) && Last(Reversed(s)) == First(s)
  {
  }

  /** Over legs that cost the same both ways a path costs the same walked backwards. */
  lemma {:induction false} ReversedPath(leg: Pricing, s: seq<nat>)
    requires SymmetricOn(leg, s)
    ensures PathCost(leg, Reversed(s)) == PathCost(leg, s)
    decreases |s|
  {
    if |s| > 1 {
      var t := s[1..];
      calc {
        PathCost(leg, Reversed(s));
        { assert Reversed(s) == Reversed(t) + [s[0]]; PathConcat(leg, Reversed(t), [s[0]]); }
        Plus(PathCost(leg, Reversed(t)), leg(t[0], s[0]));
        { ReversedPath(leg, t); assert leg(s[0], t[0]) == leg(t[0], s[0]); }
        Plus(leg(s[0], t[0]), PathCost(leg, t));
        { assert s == [s[0]] + t; PathPrepend(leg, s[0], t); }
        PathCost(leg, s);
      }
    }
  }

  lemma Regroup(a: Cost, b: Cost, c: Cost, d: Cost, ab: Cost, bc: Cost, cd: Cost)
    ensures Plus3(Plus3(a, ab, b), bc, c) == Plus(Plus(Plus(a, c), b), Plus(ab, bc))
    ensures Plus(Plus(a, d), Plus(b, c)) == Plus(Plus(a, d), Plus(c, b))
    ensures Plus3(Plus3(Plus3(a, ab, b), bc, c), cd, d) == Plus(Plus(Plus(a, d), Plus(b, c)), Plus3(ab, bc, cd))
  {
  }

  /** A tour in three pieces, the last of which may be empty, closed back to its start. */
  lemma TourOfThree(leg: Pricing, a: seq<nat>, b: seq<nat>, tail: seq<nat>)
    requires a != [] && b != []
    ensures var e := tail + [a[0]];
      TourCost(leg, a + b + tail)
      == Plus(Plus(Plus(PathCost(leg, a), PathCost(leg, e)), PathCost(leg, b)),
              Plus(Joint(leg, a, b), Joint(leg, b, e)))
  {
    hide PathCost, Plus, Plus3;
    var e := tail + [a[0]];
    assert a + b + tail + [(a + b + tail)[0]] == a + b + e;
    assert Last(a + b) == Last(b);
    PathConcat(leg, a + b, e);
    PathConcat(leg, a, b);
    Regroup(PathCost(leg, a), PathCost(leg, b), PathCost(leg, e), ZERO, Joint(leg, a, b), Joint(leg, b, e), ZERO);
  }

  /**
   A tour in four pieces, the last of which may be empty, closed back to its start; the costs of the
   two in the middle may be added in either order.
   */
  lemma TourOfFour(leg: Pricing, a: seq<nat>, b: seq<nat>, c: seq<nat>, tail: seq<nat>)
    requires a != [] && b != [] && c != []
    ensures var e := tail + [a[0]];
      var pieces := Plus(Plus(PathCost(leg, a), PathCost(leg, e)), Plus(PathCost(leg, b), PathCost(leg, c)));
      && pieces == Plus(Plus(PathCost(leg, a), PathCost(leg, e)), Plus(PathCost(leg, c), PathCost(leg, b)))
      && TourCost(leg, a + b + c + tail)
         == Plus(pieces, Plus3(Joint(leg, a, b), Joint(leg, b, c), Joint(leg, c, e)))
  {
    hide PathCost, Plus, Plus3;
    var e := tail + [a[0]];
    assert a + b + c + tail + [(a + b + c + tail)[0]] == a + b + c + e;
    assert Last(a + b + c) == Last(c) && Last(a + b) == Last(b);
    PathConcat(leg, a + b + c, e);
    PathConcat(leg, a + b, c);
    PathConcat(leg, a, b);
    Regroup(PathCost(leg, a), PathCost(leg, b), PathCost(leg, c), PathCost(leg, e),
            Joint(leg, a, b), Joint(leg, b, c), Joint(leg, c, e));
  }
}
