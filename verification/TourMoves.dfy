/**
 The moves of the tour improver: reversing a segment (2-opt) and relocating a chain (Or-opt).

 Each move is scored by a local formula over the few legs it touches. The lemmas relate that
 score to the cost of the whole closed tour.
 */
module TourMoves {
  import opened ExtendedNumbers
  import opened TourCosts

  const EPSILON := 0.000000001

  const THRESHOLD := Fin(-EPSILON)

  /** Fewer missing legs, or as many and more than EPSILON metres shorter. */
  predicate Better(c: Cost, than: Cost) {
    c.nulls < than.nulls || (c.nulls == than.nulls && c.metres < than.metres - EPSILON)
  }

  predicate NoWorse(c: Cost, than: Cost) {
    c.nulls < than.nulls || (c.nulls == than.nulls && c.metres <= than.metres)
  }

  /** Length `a` is more than EPSILON below length `b`. */
  predicate Shorter(a: Number, b: Number) {
    Less(a, Sub(b, Fin(EPSILON)))
  }

  function Score(added: Cost, removed: Cost): Number {
    Sub(Total(added), Total(removed))
  }

  /**
   What accepting or refusing a score says about a tour that keeps `kept` and trades `removed`
   for `added`. A score is accepted iff every added leg exists and either a removed leg is missing
   or the metres drop by more than EPSILON.
   */
  lemma ScoreMeaning(kept: Cost, added: Cost, removed: Cost)
    ensures Less(Score(added, removed), THRESHOLD)
       <==> added.nulls == 0 && (removed.nulls > 0 || added.metres < removed.metres - EPSILON)
    ensures Less(Score(added, removed), THRESHOLD) ==> Better(Plus(kept, added), Plus(kept, removed))
    ensures Shorter(Total(Plus(kept, added)), Total(Plus(kept, removed)))
        ==> Less(Score(added, removed), THRESHOLD)
    ensures Total(Plus(kept, removed)).Fin? && Total(Plus(kept, added)).Fin?
        ==> Total(Plus(kept, added)) == Add(Total(Plus(kept, removed)), Score(added, removed))
  {
  }

  // ----- Reversing the segment at positions i..k -----

  predicate ReversalInRange(order: seq<nat>, i: int, k: int) {
    1 <= i < k < |order|
  }

  function Reverse(order: seq<nat>, i: nat, k: nat): (r: seq<nat>)
    requires ReversalInRange(order, i, k)
    ensures |r| == |order|
  {
    order[..i] + Reversed(order[i..k + 1]) + order[k + 1..]
  }

  /** The source's score, with the leg after the last position closing back to the start. */
  function ReversalDelta(leg: Pricing, order: seq<nat>, i: nat, k: nat): Number
    requires ReversalInRange(order, i, k)
  {
    var a, b, c, d := order[i - 1], order[i], order[k], At(order, k + 1);
    Sub(Add(Total(leg(a, c)), Total(leg(b, d))), Add(Total(leg(a, b)), Total(leg(c, d))))
  }

  function ReversalRemoved(leg: Pricing, order: seq<nat>, i: nat, k: nat): Cost
    requires ReversalInRange(order, i, k)
  {
    Plus(leg(order[i - 1], order[i]), leg(order[k], At(order, k + 1)))
  }

  function ReversalAdded(leg: Pricing, order: seq<nat>, i: nat, k: nat): Cost
    requires ReversalInRange(order, i, k)
  {
    Plus(leg(order[i - 1], order[k]), leg(order[i], At(order, k + 1)))
  }

  /**
   On any matrix a reversal trades exactly two legs, including the closing one, and turns the cost
   of the segment itself around.
   */
  lemma ReversalTrade(leg: Pricing, order: seq<nat>, i: nat, k: nat) returns (kept: Cost)
    requires ReversalInRange(order, i, k)
    ensures TourCost(leg, order)
         == Plus(Plus(kept, PathCost(leg, order[i..k + 1])), ReversalRemoved(leg, order, i, k))
    ensures TourCost(leg, Reverse(order, i, k))
         == Plus(Plus(kept, PathCost(leg, Reversed(order[i..k + 1]))), ReversalAdded(leg, order, i, k))
  {
    hide PathCost, TourCost, Plus;
    var a, b, tail := order[..i], order[i..k + 1], order[k + 1..];
    kept := Plus(PathCost(leg, a), PathCost(leg, tail + [a[0]]));
    AtWraps(order, k + 1);
    ReversedEnds(b);
    calc {
      TourCost(leg, order);
      { assert order == a + b + tail; }
      TourCost(leg, a + b + tail);
      { TourOfThree(leg, a, b, tail); }
      Plus(Plus(kept, PathCost(leg, b)), ReversalRemoved(leg, order, i, k));
    }
    TourOfThree(leg, a, Reversed(b), tail);
  }

  lemma ReversalScore(leg: Pricing, order: seq<nat>, i: nat, k: nat)
    requires ReversalInRange(order, i, k)
    ensures ReversalDelta(leg, order, i, k)
         == Score(ReversalAdded(leg, order, i, k), ReversalRemoved(leg, order, i, k))
  {
    var a, b, c, d := order[i - 1], order[i], order[k], At(order, k + 1);
    TotalOfSum(leg(a, c), leg(b, d));
    TotalOfSum(leg(a, b), leg(c, d));
  }

  /** Legs cost the same both ways, except for those at the start, which no reversal turns around. */
  ghost predicate Reversible(leg: Pricing, order: seq<nat>) {
    order != [] && SymmetricOn(leg, order[1..])
  }

  /** Then the score is exact. */
  lemma ReversalExact(leg: Pricing, order: seq<nat>, i: nat, k: nat) returns (kept: Cost)
    requires Reversible(leg, order) && ReversalInRange(order, i, k)
    ensures ReversalDelta(leg, order, i, k)
         == Score(ReversalAdded(leg, order, i, k), ReversalRemoved(leg, order, i, k))
    ensures TourCost(leg, order) == Plus(kept, ReversalRemoved(leg, order, i, k))
    ensures TourCost(leg, Reverse(order, i, k)) == Plus(kept, ReversalAdded(leg, order, i, k))
  {
    ReversalScore(leg, order, i, k);
    var rest := ReversalTrade(leg, order, i, k);
    kept := Plus(rest, PathCost(leg, order[i..k + 1]));
    assert forall x | x in order[i..k + 1] :: x in order[1..];
    ReversedPath(leg, order[i..k + 1]);
  }

  // ----- Relocating the chain of L nodes at position i before position j -----

  predicate RelocationInRange(order: seq<nat>, i: int, L: int, j: int) {
    1 <= i && 1 <= L && i + L <= |order| && 1 <= j <= |order| && (j < i || i + L < j)
  }

  /** Where a relocation cuts: it swaps the neighbouring blocks p..q and q..r. */
  function RelocationCuts(i: nat, L: nat, j: nat): (nat, nat, nat) {
    if j < i then (j, i, i + L) else (i, i + L, j)
  }

  /** The tour with the chain and the block it jumps over in swapped order. */
  function Relocate(order: seq<nat>, i: nat, L: nat, j: nat): (r: seq<nat>)
    requires RelocationInRange(order, i, L, j)
    ensures |r| == |order|
  {
    var (p, q, r) := RelocationCuts(i, L, j);
    order[..p] + order[q..r] + order[p..q] + order[r..]
  }

  function RelocationDelta(leg: Pricing, order: seq<nat>, i: nat, L: nat, j: nat): Number
    requires RelocationInRange(order, i, L, j)
  {
    var head, tail, pred, succ := order[i], order[i + L - 1], order[i - 1], At(order, i + L);
    var before, after := order[j - 1], At(order, j);
    var segRemovedEdges := Add(Total(leg(pred, head)), Total(leg(tail, succ)));
    var insertAddedEdges := Add(Total(leg(before, head)), Total(leg(tail, after)));
    Sub(Add(Total(leg(pred, succ)), insertAddedEdges), Add(segRemovedEdges, Total(leg(before, after))))
  }

  function RelocationRemoved(leg: Pricing, order: seq<nat>, i: nat, L: nat, j: nat): Cost
    requires RelocationInRange(order, i, L, j)
  {
    Plus3(leg(order[i - 1], order[i]),
          leg(order[i + L - 1], At(order, i + L)),
          leg(order[j - 1], At(order, j)))
  }

  function RelocationAdded(leg: Pricing, order: seq<nat>, i: nat, L: nat, j: nat): Cost
    requires RelocationInRange(order, i, L, j)
  {
    Plus3(leg(order[i - 1], At(order, i + L)),
          leg(order[j - 1], order[i]),
          leg(order[i + L - 1], At(order, j)))
  }

  /** Cutting the chain out and splicing it back in, with the index shift, swaps the two blocks. */
  lemma SplicingSwapsBlocks(order: seq<nat>, i: nat, L: nat, j: nat)
    requires RelocationInRange(order, i, L, j)
    ensures var rest, insertAt := order[..i] + order[i + L..], if j > i then j - L else j;
      0 <= insertAt <= |rest| && rest[..insertAt] + order[i..i + L] + rest[insertAt..] == Relocate(order, i, L, j)
  {
    var rest := order[..i] + order[i + L..];
    if j < i {
      assert rest[..j] == order[..j];
      assert rest[j..] == order[j..i] + order[i + L..];
    } else {
      assert rest[..j - L] == order[..i] + order[i + L..j];
      assert rest[j - L..] == order[j..];
    }
  }

  /** A relocation undoes itself: moving the chain back gives the tour back. */
  lemma RelocationIsUndone(order: seq<nat>, i: nat, L: nat, j: nat)
    requires RelocationInRange(order, i, L, j)
    ensures var (p, q, r) := RelocationCuts(i, L, j);
      && RelocationInRange(Relocate(order, i, L, j), p, r - q, r)
      && Relocate(Relocate(order, i, L, j), p, r - q, r) == order
  {
    var (p, q, r) := RelocationCuts(i, L, j);
    var moved, m := Relocate(order, i, L, j), p + (r - q);
    assert moved[..p] == order[..p] && moved[p..m] == order[q..r];
    assert moved[m..r] == order[p..q] && moved[r..] == order[r..];
    assert order == order[..p] + order[p..q] + order[q..r] + order[r..];
  }

  /** The score of a relocation is exact on every matrix, symmetric or not. */
  lemma RelocationExact(leg: Pricing, order: seq<nat>, i: nat, L: nat, j: nat) returns (kept: Cost)
    requires RelocationInRange(order, i, L, j)
    ensures RelocationDelta(leg, order, i, L, j)
         == Score(RelocationAdded(leg, order, i, L, j), RelocationRemoved(leg, order, i, L, j))
    ensures TourCost(leg, order) == Plus(kept, RelocationRemoved(leg, order, i, L, j))
    ensures TourCost(leg, Relocate(order, i, L, j)) == Plus(kept, RelocationAdded(leg, order, i, L, j))
  {
    var (p, q, r) := RelocationCuts(i, L, j);
    var a, b, c, tail := order[..p], order[p..q], order[q..r], order[r..];
    assert order == a + b + c + tail;
    kept := Plus(Plus(PathCost(leg, a), PathCost(leg, tail + [a[0]])), Plus(PathCost(leg, b), PathCost(leg, c)));
    RelocationLegs(leg, order, i, L, j);
    RelocationScore(leg, order, i, L, j);
    TourOfFour(leg, a, b, c, tail);
    TourOfFour(leg, a, c, b, tail);
  }

  /** The legs a relocation removes and adds are the joints of the blocks it swaps. */
  lemma RelocationLegs(leg: Pricing, order: seq<nat>, i: nat, L: nat, j: nat)
    requires RelocationInRange(order, i, L, j)
    ensures var (p, q, r) := RelocationCuts(i, L, j);
      var a, b, c, e := order[..p], order[p..q], order[q..r], order[r..] + [order[0]];
      && RelocationRemoved(leg, order, i, L, j) == Plus3(Joint(leg, a, b), Joint(leg, b, c), Joint(leg, c, e))
      && RelocationAdded(leg, order, i, L, j) == Plus3(Joint(leg, a, c), Joint(leg, c, b), Joint(leg, b, e))
  {
    AtWraps(order, i + L);
    AtWraps(order, j);
    var segRemoved, inserted := leg(order[i - 1], order[i]), leg(order[j - 1], order[i]);
    Rotate(segRemoved, leg(order[i + L - 1], At(order, i + L)), leg(order[j - 1], At(order, j)));
    Rotate(leg(order[i - 1], At(order, i + L)), inserted, leg(order[i + L - 1], At(order, j)));
  }

  lemma Rotate(a: Cost, b: Cost, c: Cost)
    ensures Plus3(a, b, c) == Plus3(b, c, a) == Plus3(c, a, b)
  {
  }

  lemma RelocationScore(leg: Pricing, order: seq<nat>, i: nat, L: nat, j: nat)
    requires RelocationInRange(order, i, L, j)
    ensures RelocationDelta(leg, order, i, L, j)
         == Score(RelocationAdded(leg, order, i, L, j), RelocationRemoved(leg, order, i, L, j))
  {
    var head, tail, pred, succ := order[i], order[i + L - 1], order[i - 1], At(order, i + L);
    var before, after := order[j - 1], At(order, j);
    TotalOfThree(leg(pred, head), leg(tail, succ), leg(before, after));
    TotalOfThree(leg(pred, succ), leg(before, head), leg(tail, after));
  }

  lemma TotalOfThree(a: Cost, b: Cost, c: Cost)
    ensures Add(Add(Total(a), Total(b)), Total(c)) == Total(Plus3(a, b, c))
    ensures Add(Total(a), Add(Total(b), Total(c))) == Total(Plus3(a, b, c))
  {
  }

  // ----- Reversed chains, which the search does not try -----

  /** The relocation with the chain turned around. */
  function RelocateReversed(order: seq<nat>, i: nat, L: nat, j: nat): seq<nat>
    requires RelocationInRange(order, i, L, j)
  {
    var (p, q, r) := RelocationCuts(i, L, j);
    if j < i then order[..p] + Reversed(order[q..r]) + order[p..q] + order[r..]
    else order[..p] + order[q..r] + Reversed(order[p..q]) + order[r..]
  }

  /** Both orientations put the chain between the same two pieces of the tour. */
  lemma Orientations(order: seq<nat>, i: nat, L: nat, j: nat) returns (front: seq<nat>, chain: seq<nat>, back: seq<nat>)
    requires RelocationInRange(order, i, L, j)
    ensures chain == order[i..i + L] && front != [] && Last(front) == order[j - 1]
    ensures First(back + [front[0]]) == At(order, j)
    ensures Relocate(order, i, L, j) == front + chain + back
    ensures RelocateReversed(order, i, L, j) == front + Reversed(chain) + back
  {
    hide Reversed;
    chain := order[i..i + L];
    if j < i {
      front, back := order[..j], order[j..i] + order[i + L..];
    } else {
      front, back := order[..i] + order[i + L..j], order[j..];
    }
  }

  lemma PlusCancels(kept: Cost, a: Cost, b: Cost)
    ensures Plus(kept, a) == Plus(kept, b) <==> a == b
  {
  }

  /** Turning a block around inside a tour trades the two legs at its ends. */
  lemma TurnBlock(leg: Pricing, a: seq<nat>, chain: seq<nat>, b: seq<nat>) returns (kept: Cost)
    requires SymmetricOn(leg, chain) && a != [] && chain != []
    ensures var e := b + [a[0]];
      && TourCost(leg, a + chain + b) == Plus(kept, Plus(leg(Last(a), First(chain)), leg(Last(chain), First(e))))
      && TourCost(leg, a + Reversed(chain) + b)
         == Plus(kept, Plus(leg(Last(a), Last(chain)), leg(First(chain), First(e))))
  {
    var e := b + [a[0]];
    ReversedEnds(chain);
    ReversedPath(leg, chain);
    kept := Plus(Plus(PathCost(leg, a), PathCost(leg, e)), PathCost(leg, chain));
    hide PathCost, TourCost, Reversed, SymmetricOn, Plus;
    TourOfThree(leg, a, chain, b);
    TourOfThree(leg, a, Reversed(chain), b);
  }

  /**
   When the chain's own legs cost the same both ways, its two orientations differ in exactly the legs
   at its two ends, and cost the same exactly when those do.
   */
  lemma ReversedChainTrade(leg: Pricing, order: seq<nat>, i: nat, L: nat, j: nat) returns (kept: Cost)
    requires RelocationInRange(order, i, L, j) && SymmetricOn(leg, order[i..i + L])
    ensures var head, tail, before, after := order[i], order[i + L - 1], order[j - 1], At(order, j);
      var (straight, turned) := (Plus(leg(before, head), leg(tail, after)), Plus(leg(before, tail), leg(head, after)));
      && TourCost(leg, Relocate(order, i, L, j)) == Plus(kept, straight)
      && TourCost(leg, RelocateReversed(order, i, L, j)) == Plus(kept, turned)
      && (TourCost(leg, Relocate(order, i, L, j)) == TourCost(leg, RelocateReversed(order, i, L, j))
          <==> straight == turned)
  {
    var front, chain, back := Orientations(order, i, L, j);
    hide TourCost, SymmetricOn, Reversed, Plus, Relocate, RelocateReversed;
    kept := TurnBlock(leg, front, chain, back);
    var head, last, before, after := order[i], order[i + L - 1], order[j - 1], At(order, j);
    PlusCancels(kept, Plus(leg(before, head), leg(last, after)), Plus(leg(before, last), leg(head, after)));
  }
}
