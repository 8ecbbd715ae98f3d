/** Walks over a directed graph whose links are given by a predicate on node pairs. */
module Walks {

  type Link = (int, int) -> bool

  type Weight = (int, int) -> real

  datatype Walk = At(node: int) | Hop(node: int, rest: Walk)

  function End(w: Walk): int {
    match w
    case At(n) => n
    case Hop(_, rest) => End(rest)
  }

  predicate Follows(link: Link, w: Walk) {
    w.Hop? ==> link(w.node, w.rest.node) && Follows(link, w.rest)
  }

  predicate Joins(link: Link, a: int, b: int, w: Walk) {
    Follows(link, w) && w.node == a && End(w) == b
  }

  ghost predicate Reaches(link: Link, a: int, b: int) {
    exists w :: Joins(link, a, b, w)
  }

  /** The weights along a walk, added up. */
  function Sum(weight: Weight, w: Walk): real {
    match w
    case At(_) => 0.0
    case Hop(n, rest) => weight(n, rest.node) + Sum(weight, rest)
  }

  /** The nodes strictly between the ends are below `k`. */
  predicate InnerBelow(w: Walk, k: int) {
    w.Hop? && w.rest.Hop? ==> w.rest.node < k && InnerBelow(w.rest, k)
  }

  function Append(p: Walk, q: Walk): Walk {
    match p
    case At(_) => q
    case Hop(n, rest) => Hop(n, Append(rest, q))
  }

  lemma {:induction false} AppendJoins(link: Link, weight: Weight, p: Walk, q: Walk)
    requires Follows(link, p) && Follows(link, q) && End(p) == q.node
    ensures Joins(link, p.node, End(q), Append(p, q))
    ensures Sum(weight, Append(p, q)) == Sum(weight, p) + Sum(weight, q)
  {
    if p.Hop? { AppendJoins(link, weight, p.rest, q); }
  }

  lemma {:induction false} AppendInner(p: Walk, q: Walk, k: int)
    requires InnerBelow(p, k) && InnerBelow(q, k) && End(p) == q.node < k
    ensures InnerBelow(Append(p, q), k)
  {
    if p.Hop? { AppendInner(p.rest, q, k); }
  }

  lemma {:induction false} InnerMonotone(w: Walk, k: int, k': int)
    requires InnerBelow(w, k) && k <= k'
    ensures InnerBelow(w, k')
  {
    if w.Hop? { InnerMonotone(w.rest, k, k'); }
  }

  lemma {:induction false} SumNonNegative(link: Link, weight: Weight, w: Walk)
    requires Follows(link, w) && forall a, b | link(a, b) :: weight(a, b) >= 0.0
    ensures Sum(weight, w) >= 0.0
  {
    if w.Hop? { SumNonNegative(link, weight, w.rest); }
  }

  /**
   Visits to node `k` can be cut down to one: a walk with inner nodes at most `k` is no shorter than
   one avoiding `k`, or than two that meet in `k` and avoid it otherwise.
   */
  lemma {:induction false} SplitAt(link: Link, weight: Weight, w: Walk, k: int)
      returns (direct: bool, p: Walk, q: Walk)
    requires Follows(link, w) && InnerBelow(w, k + 1)
    requires forall a, b | link(a, b) :: weight(a, b) >= 0.0
    ensures direct ==>
      Joins(link, w.node, End(w), p) && InnerBelow(p, k) && Sum(weight, p) <= Sum(weight, w)
    ensures !direct ==>
      && Joins(link, w.node, k, p) && InnerBelow(p, k) && Joins(link, k, End(w), q) && InnerBelow(q, k)
      && Sum(weight, p) + Sum(weight, q) <= Sum(weight, w)
  {
    if w.At? || w.rest.At? {
      direct, p, q := true, w, w;
    } else {
      var d, p', q' := SplitAt(link, weight, w.rest, k);
      if w.rest.node == k {
        direct, p, q := false, Hop(w.node, At(k)), if d then p' else q';
        if !d { SumNonNegative(link, weight, p'); }
      } else {
        direct, p, q := d, Hop(w.node, p'), q';
      }
    }
  }

  lemma ReachesItself(link: Link, a: int)
    ensures Reaches(link, a, a)
  {
    assert Joins(link, a, a, At(a));
  }

  lemma ReachesNext(link: Link, a: int, b: int, c: int)
    requires Reaches(link, a, b) && link(b, c)
    ensures Reaches(link, a, c)
  {
    var w :| Joins(link, a, b, w);
    var step := Hop(b, At(c));
    assert Follows(link, At(c)) && End(At(c)) == c;
    AppendJoins(link, (_, _) => 0.0, w, step);
    assert Joins(link, a, c, Append(w, step));
  }

  lemma ReachesTransitively(link: Link, a: int, b: int, c: int)
    requires Reaches(link, a, b) && Reaches(link, b, c)
    ensures Reaches(link, a, c)
  {
    var p :| Joins(link, a, b, p);
    var q :| Joins(link, b, c, q);
    AppendJoins(link, (_, _) => 0.0, p, q);
    assert Joins(link, a, c, Append(p, q));
  }

  lemma {:induction false} WalkBackwards(link: Link, w: Walk)
    requires Follows(link, w) && forall a, b :: link(a, b) == link(b, a)
    ensures Reaches(link, End(w), w.node)
  {
    if w.At? {
      ReachesItself(link, w.node);
    } else {
      WalkBackwards(link, w.rest);
      ReachesNext(link, End(w), w.rest.node, w.node);
    }
  }

  lemma ReachesSymmetrically(link: Link, a: int, b: int)
    requires Reaches(link, a, b) && forall a, b :: link(a, b) == link(b, a)
    ensures Reaches(link, b, a)
  {
    var w :| Joins(link, a, b, w);
    WalkBackwards(link, w);
  }

  /** A walk never leaves a set that its links never leave. */
  lemma {:induction false} StaysInside(link: Link, w: Walk, inside: set<int>)
    requires Follows(link, w) && w.node in inside
    requires forall a, b | a in inside && link(a, b) :: b in inside
    ensures End(w) in inside
  {
    if w.Hop? { StaysInside(link, w.rest, inside); }
  }

  lemma {:induction false} MoreLinks(link: Link, more: Link, w: Walk)
    requires Follows(link, w) && forall a, b | link(a, b) :: more(a, b)
    ensures Follows(more, w)
  {
    if w.Hop? { MoreLinks(link, more, w.rest); }
  }
}
