/**
 The fixed-window rate limiter: one script call per request, atomic, on a hit counter and a block
 marker that both expire by themselves.

 Times are whole milliseconds. A key is alive up to and including its expiry instant, where its
 remaining time reads zero.
 */
module Throttler {
  import opened Options

  /** A key's expiry instant; a counter that was just created has none yet. */
  datatype Hits = Hits(count: nat, expireAt: Option<int>)

  datatype Keys = Keys(hits: Option<Hits>, block: Option<int>)

  datatype Limits = Limits(ttl: int, limit: nat, blockMs: int)

  datatype Reply = Reply(totalHits: int, hitPttl: int, isBlocked: bool, blockPttl: int)

  /** The store's PTTL: -2 without the key, -1 without an expiry. */
  function Pttl(present: bool, expireAt: Option<int>, now: int): int {
    if !present then -2
    else if expireAt == None then -1
    else if now > expireAt.value then -2
    else expireAt.value - now
  }

  function HitPttl(keys: Keys, now: int): int {
    if keys.hits == None then -2 else Pttl(true, keys.hits.value.expireAt, now)
  }

  function BlockPttl(keys: Keys, now: int): int {
    Pttl(keys.block.Some?, keys.block, now)
  }

  /** INCR: a counter that is missing or expired starts again at one, without an expiry. */
  function Incremented(keys: Keys, now: int): Hits {
    if HitPttl(keys, now) == -2 then Hits(1, None)
    else Hits(keys.hits.value.count + 1, keys.hits.value.expireAt)
  }

  /** The counter after the script gave it an expiry where it had none. */
  function Counted(keys: Keys, l: Limits, now: int): Hits {
    var h := Incremented(keys, now);
    if Pttl(true, h.expireAt, now) < 0 then Hits(h.count, Some(now + l.ttl)) else h
  }

  function Eval(keys: Keys, l: Limits, now: int): (Keys, Reply) {
    if BlockPttl(keys, now) > 0 then
      var hp := HitPttl(keys, now);
      (keys, Reply(l.limit + 1, if hp < 0 then 0 else hp, true, BlockPttl(keys, now)))
    else
      var h := Counted(keys, l, now);
      var pttl := h.expireAt.value - now;
      if h.count > l.limit then (Keys(Some(h), Some(now + l.blockMs)), Reply(h.count, pttl, true, l.blockMs))
      else (keys.(hits := Some(h)), Reply(h.count, pttl, false, 0))
  }

  /** Seconds, rounded up. */
  function CeilSeconds(ms: int): (s: int)
    ensures 1000 * (s - 1) < ms <= 1000 * s
  {
    (ms + 999) / 1000
  }

  datatype Record = Record(totalHits: int, timeToExpire: int, isBlocked: bool, timeToBlockExpire: int)

  function LimitsOf(ttl: int, limit: nat, blockDuration: int): (l: Limits)
    ensures l.ttl == ttl && l.limit == limit
  {
    Limits(ttl, limit, if blockDuration > 0 then blockDuration else ttl)
  }

  class Storage {
    var hits: Option<Hits>
    var block: Option<int>

    function Contents(): Keys
      reads this
    {
      Keys(hits, block)
    }

    constructor ()
      ensures Contents() == Keys(None, None)
    {
      hits, block := None, None;
    }

    /** The script, command by command, at the instant `now`. */
    method RunScript(l: Limits, now: int) returns (r: Reply)
      requires l.ttl > 0
      modifies this
      ensures (Contents(), r) == Eval(old(Contents()), l, now)
    {
      var blockPttl := BlockPttl(Contents(), now);
      if blockPttl > 0 {
        var hp := HitPttl(Contents(), now);
        if hp < 0 { hp := 0; }
        return Reply(l.limit + 1, hp, true, blockPttl);
      }
      hits := Some(Incremented(Contents(), now));
      var totalHits := hits.value.count;
      var hitPttl := HitPttl(Contents(), now);
      if hitPttl < 0 {
        hits := Some(Hits(totalHits, Some(now + l.ttl)));
        hitPttl := l.ttl;
      }
      var isBlocked, blockOut := false, 0;
      if totalHits > l.limit {
        block := Some(now + l.blockMs);
        isBlocked, blockOut := true, l.blockMs;
      }
      r := Reply(totalHits, hitPttl, isBlocked, blockOut);
    }

    method Increment(ttl: int, limit: nat, blockDuration: int, now: int) returns (r: Record)
      requires ttl > 0
      modifies this
      ensures var (keys, reply) := Eval(old(Contents()), LimitsOf(ttl, limit, blockDuration), now);
        && Contents() == keys
        && r == Record(reply.totalHits, CeilSeconds(reply.hitPttl), reply.isBlocked, CeilSeconds(reply.blockPttl))
    {
      var blockMs := if blockDuration > 0 then blockDuration else ttl;
      var reply := RunScript(Limits(ttl, limit, blockMs), now);
      r := Record(reply.totalHits, CeilSeconds(reply.hitPttl), reply.isBlocked, CeilSeconds(reply.blockPttl));
    }
  }

  // ----- Runs -----

  ghost predicate Ordered(times: seq<int>) {
    forall i, j | 0 <= i <= j < |times| :: times[i] <= times[j]
  }

  function After(keys: Keys, l: Limits, times: seq<int>): Keys {
    if times == [] then keys
    else Eval(After(keys, l, times[..|times| - 1]), l, times[|times| - 1]).0
  }

  /** Was the last of these calls let through? */
  predicate Accepted(keys: Keys, l: Limits, times: seq<int>)
    requires times != []
  {
    !Eval(After(keys, l, times[..|times| - 1]), l, times[|times| - 1]).1.isBlocked
  }

  /** How many of the calls at `lo <= time <= hi` were let through. */
  function AcceptedIn(keys: Keys, l: Limits, times: seq<int>, lo: int, hi: int): nat {
    if times == [] then 0
    else
      AcceptedIn(keys, l, times[..|times| - 1], lo, hi)
      + if lo <= times[|times| - 1] <= hi && Accepted(keys, l, times) then 1 else 0
  }

  const NO_KEYS := Keys(None, None)

  /** At `now`, a counter has an expiry at most one window away and has counted something. */
  predicate Settled(keys: Keys, l: Limits, now: int) {
    keys.hits.Some? ==>
      && keys.hits.value.count > 0
      && keys.hits.value.expireAt.Some? && keys.hits.value.expireAt.value <= now + l.ttl
  }

  function Min(a: nat, b: nat): nat {
    if a < b then a else b
  }

  /** What an interval of length `ttl` can have seen, by where the current window started. */
  predicate WithinBudget(keys: Keys, l: Limits, lo: int, seen: nat) {
    if keys.hits == None || keys.hits.value.expireAt == None then seen == 0
    else
      var start, count := keys.hits.value.expireAt.value - l.ttl, Min(keys.hits.value.count, l.limit);
      if start < lo then seen <= Pred(count)
      else if start <= lo + l.ttl then seen <= Pred(l.limit) + count
      else seen <= Pred(l.limit) + l.limit
  }

  function Pred(n: nat): nat {
    if n == 0 then 0 else n - 1
  }

  lemma StepWithinBudget(keys: Keys, l: Limits, lo: int, seen: nat, now: int)
    requires l.ttl > 0 && Settled(keys, l, now) && WithinBudget(keys, l, lo, seen) && (seen > 0 ==> lo <= now)
    ensures var (keys', reply) := Eval(keys, l, now);
      && Settled(keys', l, now)
      && WithinBudget(keys', l, lo, seen + if lo <= now <= lo + l.ttl && !reply.isBlocked then 1 else 0)
  {
  }

  lemma OrderedPrefix(times: seq<int>, now: int)
    requires Ordered(times + [now]) && times != []
    ensures Ordered(times[..|times| - 1] + [times[|times| - 1]]) && times[|times| - 1] <= now
  {
    assert times[..|times| - 1] + [times[|times| - 1]] == (times + [now])[..|times|];
    assert times[|times| - 1] == (times + [now])[|times| - 1] && now == (times + [now])[|times|];
  }

  lemma {:induction false} RunWithinBudget(l: Limits, times: seq<int>, lo: int, now: int)
    requires l.ttl > 0 && Ordered(times + [now])
    ensures Settled(After(NO_KEYS, l, times), l, now)
    ensures var seen := AcceptedIn(NO_KEYS, l, times, lo, lo + l.ttl);
      WithinBudget(After(NO_KEYS, l, times), l, lo, seen) && (seen > 0 ==> lo <= now)
    decreases |times|
  {
    hide WithinBudget, Eval, Ordered;
    if times == [] {
      EmptyWithinBudget(l, lo);
    } else {
      var below, last := times[..|times| - 1], times[|times| - 1];
      OrderedPrefix(times, now);
      RunWithinBudget(l, below, lo, last);
      StepWithinBudget(After(NO_KEYS, l, below), l, lo, AcceptedIn(NO_KEYS, l, below, lo, lo + l.ttl), last);
    }
  }

  lemma EmptyWithinBudget(l: Limits, lo: int)
    ensures WithinBudget(NO_KEYS, l, lo, 0)
  {
  }

  /** No interval as long as a window lets through more than two windows' worth less one call. */
  lemma AtMostTwiceTheLimit(l: Limits, times: seq<int>, lo: int)
    requires l.ttl > 0 && Ordered(times)
    ensures AcceptedIn(NO_KEYS, l, times, lo, lo + l.ttl) <= Pred(l.limit) + l.limit
  {
    hide After, AcceptedIn;
    var now := if times == [] then 0 else times[|times| - 1];
    RunWithinBudget(l, times, lo, now);
  }

  // ----- The bound is reached -----

  function Repeat(time: int, count: nat): seq<int> {
    if count == 0 then [] else Repeat(time, count - 1) + [time]
  }

  lemma {:induction false} RunsCompose(keys: Keys, l: Limits, a: seq<int>, b: seq<int>, lo: int, hi: int)
    ensures After(keys, l, a + b) == After(After(keys, l, a), l, b)
    ensures AcceptedIn(keys, l, a + b, lo, hi)
         == AcceptedIn(keys, l, a, lo, hi) + AcceptedIn(After(keys, l, a), l, b, lo, hi)
    decreases |b|
  {
    hide Eval;
    if b == [] {
      assert a + b == a;
    } else {
      assert (a + b)[..|a + b| - 1] == a + b[..|b| - 1];
      RunsCompose(keys, l, a, b[..|b| - 1], lo, hi);
    }
  }

  lemma RoomForOne(keys: Keys, l: Limits, time: int)
    requires keys.block == None && keys.hits.Some? && keys.hits.value.expireAt.Some?
    requires time <= keys.hits.value.expireAt.value && keys.hits.value.count < l.limit
    ensures Eval(keys, l, time).0 == Keys(Some(Hits(keys.hits.value.count + 1, keys.hits.value.expireAt)), None)
    ensures !Eval(keys, l, time).1.isBlocked
  {
  }

  lemma OneMoreCall(keys: Keys, l: Limits, times: seq<int>, now: int, lo: int, hi: int)
    ensures var (keys', reply) := Eval(After(keys, l, times), l, now);
      && After(keys, l, times + [now]) == keys'
      && AcceptedIn(keys, l, times + [now], lo, hi)
         == AcceptedIn(keys, l, times, lo, hi) + if lo <= now <= hi && !reply.isBlocked then 1 else 0
  {
    hide Eval;
    assert (times + [now])[..|times|] == times;
  }

  /** While a window has room left, every call in it is let through. */
  lemma {:induction false} RoomLeft(keys: Keys, l: Limits, time: int, count: nat, lo: int, hi: int)
    requires keys.block == None && keys.hits.Some? && keys.hits.value.expireAt.Some?
    requires time <= keys.hits.value.expireAt.value && keys.hits.value.count + count <= l.limit
    ensures After(keys, l, Repeat(time, count))
         == Keys(Some(Hits(keys.hits.value.count + count, keys.hits.value.expireAt)), None)
    ensures AcceptedIn(keys, l, Repeat(time, count), lo, hi) == if lo <= time <= hi then count else 0
  {
    hide Eval;
    if count == 0 {
      assert Keys(Some(Hits(keys.hits.value.count, keys.hits.value.expireAt)), None) == keys;
    } else {
      RoomLeft(keys, l, time, count - 1, lo, hi);
      RoomForOne(After(keys, l, Repeat(time, count - 1)), l, time);
      OneMoreCall(keys, l, Repeat(time, count - 1), time, lo, hi);
      hide After, AcceptedIn;
    }
  }

  lemma {:induction false} RepeatIs(time: int, count: nat)
    ensures |Repeat(time, count)| == count
    ensures forall i | 0 <= i < count :: Repeat(time, count)[i] == time
  {
    if count > 0 { RepeatIs(time, count - 1); }
  }

  /** One call at 0, the rest of its window at the last moment, then a whole new window at once. */
  function Burst(l: Limits): seq<int>
    requires l.limit > 0
  {
    ([0] + Repeat(l.ttl, l.limit - 1)) + ([l.ttl + 1] + Repeat(l.ttl + 1, l.limit - 1))
  }

  lemma FirstCall(keys: Keys, l: Limits, time: int, lo: int, hi: int)
    requires keys.block == None && l.limit > 0 && l.ttl > 0 && HitPttl(keys, time) == -2
    ensures After(keys, l, [time]) == Keys(Some(Hits(1, Some(time + l.ttl))), None)
    ensures AcceptedIn(keys, l, [time], lo, hi) == if lo <= time <= hi then 1 else 0
  {
    assert [time][..0] == [];
    assert After(keys, l, []) == keys;
  }

  lemma WindowFills(keys: Keys, l: Limits, first: int, rest: int, lo: int, hi: int)
    requires keys.block == None && l.limit > 0 && l.ttl > 0 && HitPttl(keys, first) == -2 && rest <= first + l.ttl
    ensures After(keys, l, [first] + Repeat(rest, l.limit - 1)) == Keys(Some(Hits(l.limit, Some(first + l.ttl))), None)
    ensures AcceptedIn(keys, l, [first] + Repeat(rest, l.limit - 1), lo, hi)
         == (if lo <= first <= hi then 1 else 0) + (if lo <= rest <= hi then l.limit - 1 else 0)
  {
    hide After, AcceptedIn;
    FirstCall(keys, l, first, lo, hi);
    RunsCompose(keys, l, [first], Repeat(rest, l.limit - 1), lo, hi);
    RoomLeft(After(keys, l, [first]), l, rest, l.limit - 1, lo, hi);
  }

  lemma BurstIsOrdered(l: Limits)
    requires l.ttl > 0 && l.limit > 0
    ensures Ordered(Burst(l))
  {
    RepeatIs(l.ttl, l.limit - 1);
    RepeatIs(l.ttl + 1, l.limit - 1);
    assert forall i | 0 <= i < |Burst(l)| ::
      Burst(l)[i] == if i == 0 then 0 else if i < l.limit then l.ttl else l.ttl + 1;
  }

  /** For every limit and window length, this run lets exactly that many calls through in one interval. */
  lemma TwiceTheLimitLessOneHappens(l: Limits)
    requires l.ttl > 0 && l.limit > 0
    ensures Ordered(Burst(l))
    ensures AcceptedIn(NO_KEYS, l, Burst(l), l.ttl, l.ttl + l.ttl) == Pred(l.limit) + l.limit
  {
    hide After, AcceptedIn, Ordered, Eval, HitPttl;
    var a, b := [0] + Repeat(l.ttl, l.limit - 1), [l.ttl + 1] + Repeat(l.ttl + 1, l.limit - 1);
    BurstIsOrdered(l);
    NothingAlive(l);
    WindowFills(NO_KEYS, l, 0, l.ttl, l.ttl, l.ttl + l.ttl);
    RunsCompose(NO_KEYS, l, a, b, l.ttl, l.ttl + l.ttl);
    WindowFills(After(NO_KEYS, l, a), l, l.ttl + 1, l.ttl + 1, l.ttl, l.ttl + l.ttl);
  }

  lemma NothingAlive(l: Limits)
    ensures HitPttl(NO_KEYS, 0) == -2 && HitPttl(Keys(Some(Hits(l.limit, Some(0 + l.ttl))), None), l.ttl + 1) == -2
  {
  }

  // ----- One window, one block -----

  /**
   In a window the n-th call is reported as the n-th, with the time left of the window; the first call
   over the limit is rejected and starts the block.
   */
  lemma {:induction false} CallsAreCounted(keys: Keys, l: Limits, times: seq<int>)
    requires l.ttl > 0 && Ordered(times) && times != [] && OpensWindow(keys, times[0])
    requires times[|times| - 1] <= times[0] + l.ttl && |times| <= l.limit + 1
    ensures var (n, now, end) := (|times|, times[|times| - 1], times[0] + l.ttl);
      && Eval(After(keys, l, times[..n - 1]), l, now).1
         == (if n <= l.limit then Reply(n, end - now, false, 0) else Reply(n, end - now, true, l.blockMs))
      && After(keys, l, times).hits == Some(Hits(n, Some(end)))
      && (n <= l.limit ==> After(keys, l, times).block == keys.block)
    decreases |times|
  {
    hide Eval, OpensWindow;
    var below, now := times[..|times| - 1], times[|times| - 1];
    if below == [] {
      assert times == [now] && After(keys, l, below) == keys;
      CountFirst(keys, l, now);
    } else {
      CallsAreCounted(keys, l, below);
      StaysUnblocked(keys, times[0], now);
      CountNext(After(keys, l, below), l, |below|, times[0] + l.ttl, now);
    }
  }

  lemma CountFirst(keys: Keys, l: Limits, now: int)
    requires l.ttl > 0 && OpensWindow(keys, now)
    ensures var (keys', reply) := Eval(keys, l, now);
      && keys'.hits == Some(Hits(1, Some(now + l.ttl)))
      && reply == (if 1 <= l.limit then Reply(1, l.ttl, false, 0) else Reply(1, l.ttl, true, l.blockMs))
      && (1 <= l.limit ==> keys'.block == keys.block)
  {
  }

  lemma StaysUnblocked(keys: Keys, start: int, now: int)
    requires OpensWindow(keys, start) && start <= now
    ensures BlockPttl(keys, now) <= 0
  {
  }

  lemma CountNext(keys: Keys, l: Limits, n: nat, end: int, now: int)
    requires keys.hits == Some(Hits(n, Some(end))) && now <= end && BlockPttl(keys, now) <= 0
    ensures var (keys', reply) := Eval(keys, l, now);
      && keys'.hits == Some(Hits(n + 1, Some(end)))
      && reply == (if n + 1 <= l.limit then Reply(n + 1, end - now, false, 0)
                   else Reply(n + 1, end - now, true, l.blockMs))
      && (n + 1 <= l.limit ==> keys'.block == keys.block)
  {
  }

  predicate OpensWindow(keys: Keys, now: int) {
    BlockPttl(keys, now) <= 0 && HitPttl(keys, now) == -2
  }

  /** What the window opened at `start` has let through by `now`. */
  predicate WithinWindow(keys: Keys, l: Limits, start: int, seen: nat, now: int) {
    && keys.hits.Some? && keys.hits.value.expireAt.Some?
    && if keys.hits.value.expireAt.value == start + l.ttl then seen <= Min(keys.hits.value.count, l.limit)
       else now > start + l.ttl && seen <= l.limit
  }

  lemma OpeningCall(keys: Keys, l: Limits, now: int)
    requires l.ttl > 0 && OpensWindow(keys, now)
    ensures WithinWindow(Eval(keys, l, now).0, l, now, if Eval(keys, l, now).1.isBlocked then 0 else 1, now)
  {
  }

  lemma CallInWindow(keys: Keys, l: Limits, start: int, seen: nat, last: int, now: int)
    requires l.ttl > 0 && WithinWindow(keys, l, start, seen, last) && start <= last <= now
    ensures var (keys', reply) := Eval(keys, l, now);
      WithinWindow(keys', l, start, seen + if start <= now <= start + l.ttl && !reply.isBlocked then 1 else 0, now)
  {
  }

  /** From the call that opens a window until the window ends, at most `limit` calls are let through. */
  lemma {:induction false} AtMostTheLimitPerWindow(keys: Keys, l: Limits, times: seq<int>)
    requires l.ttl > 0 && Ordered(times) && times != [] && OpensWindow(keys, times[0])
    ensures var seen := AcceptedIn(keys, l, times, times[0], times[0] + l.ttl);
      seen <= l.limit && WithinWindow(After(keys, l, times), l, times[0], seen, times[|times| - 1])
    decreases |times|
  {
    hide Eval, OpensWindow;
    var below, now, start := times[..|times| - 1], times[|times| - 1], times[0];
    if below == [] {
      assert times == [now];
      OpeningCall(keys, l, now);
      assert After(keys, l, below) == keys && AcceptedIn(keys, l, below, start, start + l.ttl) == 0;
    } else {
      AtMostTheLimitPerWindow(keys, l, below);
      CallInWindow(After(keys, l, below), l, start, AcceptedIn(keys, l, below, start, start + l.ttl),
                   below[|below| - 1], now);
    }
  }

  /** A call that starts a block: rejected, and not by a block that was there already. */
  predicate StartsBlock(keys: Keys, l: Limits, now: int) {
    BlockPttl(keys, now) <= 0 && Eval(keys, l, now).1.isBlocked
  }

  lemma BlockStarts(keys: Keys, l: Limits, now: int)
    requires StartsBlock(keys, l, now)
    ensures Eval(keys, l, now).0.block == Some(now + l.blockMs)
  {
  }

  lemma BlockHolds(keys: Keys, l: Limits, end: int, now: int)
    requires keys.block == Some(end)
    ensures now < end ==>
      var (keys', reply) := Eval(keys, l, now);
      keys' == keys && reply.isBlocked && reply.blockPttl == end - now && reply.totalHits == l.limit + 1
    ensures now >= end ==> BlockPttl(keys, now) <= 0
  {
  }

  /** Every call before the block ends is rejected; from its end on, it no longer rejects. */
  lemma {:induction false} BlockRejectsUntilItEnds(keys: Keys, l: Limits, start: int, times: seq<int>, now: int)
    requires StartsBlock(keys, l, start) && forall t | t in times :: t < start + l.blockMs
    ensures var later := After(Eval(keys, l, start).0, l, times);
      && later.block == Some(start + l.blockMs)
      && (now < start + l.blockMs ==>
            var reply := Eval(later, l, now).1;
            reply.isBlocked && reply.blockPttl == start + l.blockMs - now && reply.totalHits == l.limit + 1)
      && (now >= start + l.blockMs ==> BlockPttl(later, now) <= 0)
    decreases |times|
  {
    hide Eval, StartsBlock;
    BlockStarts(keys, l, start);
    if times != [] {
      var below, last := times[..|times| - 1], times[|times| - 1];
      assert last in times && forall t | t in below :: t in times;
      BlockRejectsUntilItEnds(keys, l, start, below, last);
      BlockHolds(After(Eval(keys, l, start).0, l, below), l, start + l.blockMs, last);
    }
    BlockHolds(After(Eval(keys, l, start).0, l, times), l, start + l.blockMs, now);
  }

  /** A block lasts as long as the caller's block duration says, or as long as the window if it gives none. */
  lemma BlockLastsAsGiven(keys: Keys, ttl: int, limit: nat, blockDuration: int, start: int, times: seq<int>, now: int)
    requires StartsBlock(keys, LimitsOf(ttl, limit, blockDuration), start)
    requires var length := if blockDuration > 0 then blockDuration else ttl;
      forall t | t in times :: t < start + length
    ensures var l, length := LimitsOf(ttl, limit, blockDuration), if blockDuration > 0 then blockDuration else ttl;
      var later := After(Eval(keys, l, start).0, l, times);
      if now < start + length then
        var reply := Eval(later, l, now).1;
        reply.isBlocked && reply.blockPttl == start + length - now && reply.totalHits == limit + 1
      else BlockPttl(later, now) <= 0
  {
    hide Eval, After, StartsBlock, BlockPttl;
    BlockRejectsUntilItEnds(keys, LimitsOf(ttl, limit, blockDuration), start, times, now);
  }
}
