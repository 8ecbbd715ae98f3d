/**
 The router client's concurrency cap, as steps that may interleave in any order.

 A call enters: it starts at once, or queues. A finished call releases its slot and wakes the head
 of the queue, which is not running yet: it resumes in a later step of its own.
 */
module Semaphore {
  import opened Options

  datatype State = State(inFlight: int, waiters: seq<int>, running: set<int>, woken: set<int>,
                         queuedLog: seq<int>, wokenLog: seq<int>, known: set<int>)

  const IDLE := State(0, [], {}, {}, [], [], {})

  datatype Step = Enter(id: int) | Release(id: int) | Resume(id: int)

  predicate Enabled(s: State, step: Step) {
    match step
    case Enter(id) => id !in s.known
    case Release(id) => id in s.running
    case Resume(id) => id in s.woken
  }

  function Next(s: State, max: nat, step: Step): State {
    match step
    case Enter(id) =>
      if s.inFlight >= max then
        s.(waiters := s.waiters + [id], queuedLog := s.queuedLog + [id], known := s.known + {id})
      else s.(inFlight := s.inFlight + 1, running := s.running + {id}, known := s.known + {id})
    case Release(id) =>
      var t := s.(inFlight := s.inFlight - 1, running := s.running - {id});
      if s.waiters == [] then t
      else t.(waiters := s.waiters[1..], woken := s.woken + {s.waiters[0]}, wokenLog := s.wokenLog + [s.waiters[0]])
    case Resume(id) =>
      s.(inFlight := s.inFlight + 1, running := s.running + {id}, woken := s.woken - {id})
  }

  /** Calls that hold a slot or have been promised one. */
  function Committed(s: State): nat {
    |s.running| + |s.woken|
  }

  /** Every known call is in at most one place, and the queue holds it once. */
  ghost predicate Tidy(s: State) {
    && s.running !! s.woken && s.running <= s.known && s.woken <= s.known
    && (forall i | 0 <= i < |s.waiters| ::
        s.waiters[i] in s.known && s.waiters[i] !in s.running && s.waiters[i] !in s.woken)
    && (forall i, j | 0 <= i < j < |s.waiters| :: s.waiters[i] != s.waiters[j])
  }

  ghost predicate Valid(s: State, max: nat) {
    && Tidy(s)
    && s.inFlight == |s.running|
    && s.queuedLog == s.wokenLog + s.waiters
    && (s.waiters != [] ==> Committed(s) >= max)
  }

  class Cap {
    const maxConcurrency: nat
    var inFlight: int
    var waiters: seq<int>
    ghost var running: set<int>
    ghost var woken: set<int>
    ghost var queuedLog: seq<int>
    ghost var wokenLog: seq<int>
    ghost var known: set<int>

    ghost function Contents(): State
      reads this
    {
      State(inFlight, waiters, running, woken, queuedLog, wokenLog, known)
    }

    constructor (maxConcurrency: nat)
      ensures this.maxConcurrency == maxConcurrency && Contents() == IDLE
    {
      this.maxConcurrency, inFlight, waiters := maxConcurrency, 0, [];
      running, woken, queuedLog, wokenLog, known := {}, {}, [], [], {};
    }

    /** Up to the first suspension: starts the call unless it has to queue. */
    method Enter(id: int) returns (queued: bool)
      modifies this
      ensures Contents() == Next(old(Contents()), maxConcurrency, Step.Enter(id))
      ensures queued <==> old(inFlight) >= maxConcurrency
    {
      known := known + {id};
      if inFlight >= maxConcurrency {
        waiters := waiters + [id];
        queuedLog := queuedLog + [id];
        return true;
      }
      inFlight := inFlight + 1;
      running := running + {id};
      queued := false;
    }

    /** The call is over, well or not: gives the slot back and wakes the head of the queue. */
    method Release(id: int) returns (next: Option<int>)
      modifies this
      ensures Contents() == Next(old(Contents()), maxConcurrency, Step.Release(id))
      ensures next == if old(waiters) == [] then None else Some(old(waiters)[0])
    {
      inFlight := inFlight - 1;
      running := running - {id};
      if waiters == [] { return None; }
      next := Some(waiters[0]);
      waiters := waiters[1..];
      woken := woken + {next.value};
      wokenLog := wokenLog + [next.value];
    }

    /** A woken call carries on and takes its slot. */
    method Resume(id: int)
      modifies this
      ensures Contents() == Next(old(Contents()), maxConcurrency, Step.Resume(id))
    {
      inFlight := inFlight + 1;
      running := running + {id};
      woken := woken - {id};
    }
  }

  // ----- Every interleaving -----

  function Run(s: State, max: nat, steps: seq<Step>): State {
    if steps == [] then s else Next(Run(s, max, steps[..|steps| - 1]), max, steps[|steps| - 1])
  }

  /** `ok` holds in every state of the run. */
  ghost predicate Always(ok: State -> bool, s: State, max: nat, steps: seq<Step>) {
    ok(Run(s, max, steps)) && (steps != [] ==> Always(ok, s, max, steps[..|steps| - 1]))
  }

  /** `ok` holds of every step of the run and the state it is taken in. */
  ghost predicate EachStep(ok: (State, Step) -> bool, s: State, max: nat, steps: seq<Step>) {
    steps != [] ==>
      ok(Run(s, max, steps[..|steps| - 1]), steps[|steps| - 1]) && EachStep(ok, s, max, steps[..|steps| - 1])
  }

  ghost predicate Possible(s: State, max: nat, steps: seq<Step>) {
    EachStep((t: State, step: Step) => Enabled(t, step), s, max, steps)
  }

  lemma EnterKeepsTidy(s: State, max: nat, id: int)
    requires Tidy(s) && id !in s.known
    ensures Tidy(Next(s, max, Enter(id))) && id !in s.running && id !in s.woken
  {
    var t := Next(s, max, Enter(id));
    forall i | 0 <= i < |t.waiters|
      ensures t.waiters[i] in t.known && t.waiters[i] !in t.running && t.waiters[i] !in t.woken
    {
      if i < |s.waiters| { assert s.waiters[i] in s.known; }
    }
  }

  lemma EnterKeepsValid(s: State, max: nat, id: int)
    requires Valid(s, max) && id !in s.known
    ensures Valid(Next(s, max, Enter(id)), max)
  {
    hide Tidy;
    EnterKeepsTidy(s, max, id);
  }

  lemma ReleaseKeepsValid(s: State, max: nat, id: int)
    requires Valid(s, max) && id in s.running
    ensures Valid(Next(s, max, Release(id)), max)
  {
    if s.waiters != [] {
      var head := s.waiters[0];
      assert s.waiters == [head] + s.waiters[1..];
      assert head in s.known && head !in s.running && head !in s.woken;
    }
  }

  lemma ResumeKeepsValid(s: State, max: nat, id: int)
    requires Valid(s, max) && id in s.woken
    ensures Valid(Next(s, max, Resume(id)), max)
  {
  }

  lemma StepKeepsValid(s: State, max: nat, step: Step)
    requires Valid(s, max) && Enabled(s, step)
    ensures Valid(Next(s, max, step), max)
  {
    hide Valid, Next;
    match step
    case Enter(id) => EnterKeepsValid(s, max, id);
    case Release(id) => ReleaseKeepsValid(s, max, id);
    case Resume(id) => ResumeKeepsValid(s, max, id);
  }

  /** Slots are counted right, calls wake in the order they queued, and nobody queues while a slot is free. */
  lemma {:induction false} RunKeepsValid(s: State, max: nat, steps: seq<Step>)
    requires Valid(s, max) && Possible(s, max, steps)
    ensures Valid(Run(s, max, steps), max)
    decreases |steps|
  {
    hide Valid, Next, Enabled;
    if steps != [] {
      RunKeepsValid(s, max, steps[..|steps| - 1]);
      StepKeepsValid(Run(s, max, steps[..|steps| - 1]), max, steps[|steps| - 1]);
    }
  }

  /** The call runs, has been woken, or waits. */
  predicate InHand(s: State, id: int) {
    id in s.running || id in s.woken || id in s.waiters
  }

  /** No call is lost and none comes back: once entered, a call is in hand exactly until it is released. */
  lemma {:induction false} EntersUntilReleased(max: nat, steps: seq<Step>, id: int)
    requires Possible(IDLE, max, steps)
    ensures var s := Run(IDLE, max, steps);
      && (id in s.known <==> Enter(id) in steps) && (Release(id) in steps ==> id in s.known)
      && (InHand(s, id) <==> Enter(id) in steps && Release(id) !in steps)
    decreases |steps|
  {
    hide Next, InHand, Valid, Enabled;
    if steps != [] {
      var below, last := steps[..|steps| - 1], steps[|steps| - 1];
      assert steps == below + [last];
      EntersUntilReleased(max, below, id);
      IdleIsValid(max);
      RunKeepsValid(IDLE, max, below);
      StepMovesOne(Run(IDLE, max, below), max, last, id);
    } else {
      NothingInHand(id);
    }
  }

  lemma NothingInHand(id: int)
    ensures !InHand(IDLE, id)
  {
  }

  lemma IdleIsValid(max: nat)
    ensures Valid(IDLE, max)
  {
  }

  lemma StepMovesOne(s: State, max: nat, step: Step, id: int)
    requires Valid(s, max) && Enabled(s, step)
    ensures var t := Next(s, max, step);
      && (id in t.known <==> id in s.known || step == Enter(id))
      && (InHand(t, id) <==> (InHand(s, id) || step == Enter(id)) && step != Release(id))
    ensures (InHand(s, id) || step == Release(id) ==> id in s.known) && (step == Enter(id) ==> id !in s.known)
  {
    if step.Release? && s.waiters != [] {
      assert s.waiters == [s.waiters[0]] + s.waiters[1..];
    }
  }

  // ----- The cap -----

  /** A new call takes a slot that was already promised to a woken one. */
  predicate Barges(s: State, max: nat, step: Step) {
    step.Enter? && s.inFlight < max <= Committed(s)
  }

  lemma StepCommits(s: State, max: nat, step: Step)
    requires Valid(s, max) && Enabled(s, step)
    ensures Committed(s) <= max ==> (Committed(Next(s, max, step)) <= max <==> !Barges(s, max, step))
    ensures Barges(s, max, step) ==> Committed(Next(s, max, step)) > max
  {
    match step
    case Enter(id) =>
    case Release(id) =>
    case Resume(id) =>
  }

  ghost predicate NeverBarges(s: State, max: nat, steps: seq<Step>) {
    EachStep((t: State, step: Step) => !Barges(t, max, step), s, max, steps)
  }

  function HasRoom(max: nat): State -> bool {
    t => Committed(t) <= max
  }

  /** Slots taken and promised stay within the cap throughout a run exactly when no call barges. */
  lemma {:induction false} WithinCapExactlyWhenNoneBarges(s: State, max: nat, steps: seq<Step>)
    requires Valid(s, max) && Possible(s, max, steps) && Committed(s) <= max
    ensures Always(HasRoom(max), s, max, steps) <==> NeverBarges(s, max, steps)
    ensures NeverBarges(s, max, steps) ==> Committed(Run(s, max, steps)) <= max
    decreases |steps|
  {
    hide Valid, Next, Enabled, Barges, Committed;
    if steps != [] {
      var below, last := steps[..|steps| - 1], steps[|steps| - 1];
      WithinCapExactlyWhenNoneBarges(s, max, below);
      RunKeepsValid(s, max, below);
      StepCommits(Run(s, max, below), max, last);
    }
  }

  /** Each call enters with no wake-up outstanding. */
  ghost predicate NoEntryBeforeResume(s: State, max: nat, steps: seq<Step>) {
    EachStep((t: State, step: Step) => step.Enter? ==> t.woken == {}, s, max, steps)
  }

  lemma {:induction false} PoliteEntriesDoNotBarge(s: State, max: nat, steps: seq<Step>)
    requires Valid(s, max) && Possible(s, max, steps) && NoEntryBeforeResume(s, max, steps)
    ensures NeverBarges(s, max, steps)
    decreases |steps|
  {
    hide Next, Enabled, Tidy;
    if steps != [] {
      var below := steps[..|steps| - 1];
      PoliteEntriesDoNotBarge(s, max, below);
      RunKeepsValid(s, max, below);
    }
  }

  /** Then the cap holds. */
  lemma CapHoldsWithoutFreshEntries(max: nat, steps: seq<Step>)
    requires Possible(IDLE, max, steps) && NoEntryBeforeResume(IDLE, max, steps)
    ensures Run(IDLE, max, steps).inFlight <= max
  {
    hide Possible, Run, NoEntryBeforeResume, NeverBarges, Always, EachStep;
    PoliteEntriesDoNotBarge(IDLE, max, steps);
    WithinCapExactlyWhenNoneBarges(IDLE, max, steps);
    RunKeepsValid(IDLE, max, steps);
  }

  // ----- What barging leads to -----

  lemma {:induction false} RunsCompose(s: State, max: nat, a: seq<Step>, b: seq<Step>)
    ensures Run(s, max, a + b) == Run(Run(s, max, a), max, b)
    ensures Possible(s, max, a) && Possible(Run(s, max, a), max, b) ==> Possible(s, max, a + b)
    decreases |b|
  {
    hide Next, Enabled;
    if b == [] {
      assert a + b == a;
    } else {
      assert (a + b)[..|a + b| - 1] == a + b[..|b| - 1];
      RunsCompose(s, max, a, b[..|b| - 1]);
    }
  }

  lemma Pick<T>(s: set<T>) returns (x: T)
    requires s != {}
    ensures x in s
  {
    x :| x in s;
  }

  ghost predicate OnlyResumes(steps: seq<Step>) {
    forall i | 0 <= i < |steps| :: steps[i].Resume?
  }

  /** Letting every woken call resume fills all committed slots. */
  lemma {:induction false} WokenCallsResume(s: State, max: nat) returns (steps: seq<Step>)
    requires Valid(s, max)
    ensures OnlyResumes(steps) && Possible(s, max, steps) && Run(s, max, steps).inFlight == Committed(s)
    decreases |s.woken|
  {
    if s.woken == {} {
      steps := [];
    } else {
      var id := Pick(s.woken);
      StepKeepsValid(s, max, Step.Resume(id));
      var rest := WokenCallsResume(Next(s, max, Step.Resume(id)), max);
      OneStep(s, max, Step.Resume(id));
      RunsCompose(s, max, [Step.Resume(id)], rest);
      steps := [Step.Resume(id)] + rest;
    }
  }

  lemma OneStep(s: State, max: nat, step: Step)
    ensures Run(s, max, [step]) == Next(s, max, step)
    ensures Enabled(s, step) ==> Possible(s, max, [step])
  {
    assert [step][..0] == [];
    assert Run(s, max, []) == s;
  }

  // ----- When the cap holds, exactly -----

  ghost predicate CapHolds(s: State, max: nat, steps: seq<Step>) {
    Always((t: State) => t.inFlight <= max, s, max, steps)
  }

  /** Each woken call resumes into a free slot; nothing in the code makes it check. */
  ghost predicate ResumesIntoFreeSlots(s: State, max: nat, steps: seq<Step>) {
    EachStep((t: State, step: Step) => step.Resume? ==> t.inFlight < max, s, max, steps)
  }

  /** No more than `max` calls are ever running exactly when every woken call resumes into a free slot. */
  lemma {:induction false} CapHoldsExactlyWhenSlotsAreFree(s: State, max: nat, steps: seq<Step>)
    requires s.inFlight <= max
    ensures CapHolds(s, max, steps) <==> ResumesIntoFreeSlots(s, max, steps)
    decreases |steps|
  {
    if steps != [] {
      CapHoldsExactlyWhenSlotsAreFree(s, max, steps[..|steps| - 1]);
      assert CapHolds(s, max, steps[..|steps| - 1]) ==> Run(s, max, steps[..|steps| - 1]).inFlight <= max;
    }
  }

  lemma {:induction false} ResumesKeepCommitted(s: State, max: nat, steps: seq<Step>)
    requires Valid(s, max) && OnlyResumes(steps) && Possible(s, max, steps)
    ensures Valid(Run(s, max, steps), max) && Committed(Run(s, max, steps)) == Committed(s)
    decreases |steps|
  {
    hide Valid;
    if steps != [] {
      var below, last := steps[..|steps| - 1], steps[|steps| - 1];
      ResumesKeepCommitted(s, max, below);
      StepKeepsValid(Run(s, max, below), max, last);
      ResumeKeepsCommitted(Run(s, max, below), max, last.id);
    }
  }

  lemma ResumeKeepsCommitted(s: State, max: nat, id: int)
    requires Valid(s, max) && Enabled(s, Step.Resume(id))
    ensures Committed(Next(s, max, Step.Resume(id))) == Committed(s)
  {
  }

  /** However the calls woken so far resume, the cap holds. */
  ghost predicate SafeToResume(s: State, max: nat) {
    forall more: seq<Step> | OnlyResumes(more) && Possible(s, max, more) :: Run(s, max, more).inFlight <= max
  }

  ghost function IsSafe(max: nat): State -> bool {
    t => SafeToResume(t, max)
  }

  lemma SafeExactlyWithinCap(s: State, max: nat)
    requires Valid(s, max)
    ensures SafeToResume(s, max) <==> Committed(s) <= max
  {
    hide Valid;
    var all := WokenCallsResume(s, max);
    if Committed(s) <= max {
      forall more: seq<Step> | OnlyResumes(more) && Possible(s, max, more)
        ensures Run(s, max, more).inFlight <= max
      {
        ResumesKeepCommitted(s, max, more);
        KnownOnes(Run(s, max, more), max);
      }
    }
  }

  lemma {:induction false} SafeThroughout(s: State, max: nat, steps: seq<Step>)
    requires Valid(s, max) && Possible(s, max, steps)
    ensures Always(IsSafe(max), s, max, steps) <==> Always(HasRoom(max), s, max, steps)
    decreases |steps|
  {
    hide Valid, SafeToResume, Committed, Enabled, Next;
    RunKeepsValid(s, max, steps);
    SafeExactlyWithinCap(Run(s, max, steps), max);
    if steps != [] { SafeThroughout(s, max, steps[..|steps| - 1]); }
  }

  /**
   At every moment of a run the cap survives any order in which the calls woken so far may resume,
   exactly when no new call of the run takes a slot promised to a woken one.
   */
  lemma CapSurvivesExactlyWhenNoneBarges(s: State, max: nat, steps: seq<Step>)
    requires Valid(s, max) && Possible(s, max, steps) && Committed(s) <= max
    ensures Always(IsSafe(max), s, max, steps) <==> NeverBarges(s, max, steps)
  {
    hide Valid, Possible, NeverBarges, Always;
    SafeThroughout(s, max, steps);
    WithinCapExactlyWhenNoneBarges(s, max, steps);
  }

  /** `Always` and `EachStep` speak of every prefix of the run. */
  lemma {:induction false} EveryMoment(ok: State -> bool, each: (State, Step) -> bool, s: State, max: nat,
                                       steps: seq<Step>)
    ensures Always(ok, s, max, steps) <==> forall i | 0 <= i <= |steps| :: ok(Run(s, max, steps[..i]))
    ensures EachStep(each, s, max, steps) <==> forall i | 0 <= i < |steps| :: each(Run(s, max, steps[..i]), steps[i])
    decreases |steps|
  {
    hide Run;
    assert steps[..|steps|] == steps;
    if steps != [] {
      var below := steps[..|steps| - 1];
      EveryMoment(ok, each, s, max, below);
      assert forall i | 0 <= i <= |below| :: below[..i] == steps[..i];
    }
  }

  const HARMLESS := [Enter(0), Enter(1), Release(0), Enter(2), Release(2), Resume(1)]

  // The states that run passes through.
  const PASSED_1 := State(1, [], {0}, {}, [], [], {0})
  const PASSED_2 := State(1, [1], {0}, {}, [1], [], {0, 1})
  const PASSED_3 := State(0, [], {}, {1}, [1], [1], {0, 1})
  const PASSED_4 := State(1, [], {2}, {1}, [1], [1], {0, 1, 2})
  const PASSED_5 := State(0, [], {}, {1}, [1], [1], {0, 1, 2})
  const PASSED_6 := State(1, [], {1}, {}, [1], [1], {0, 1, 2})

  /** A run within the cap that ends in `end`, and whether a call of it barged. */
  ghost predicate FineRun(steps: seq<Step>, end: State, barged: bool) {
    && Run(IDLE, 1, steps) == end && Possible(IDLE, 1, steps) && CapHolds(IDLE, 1, steps)
    && barged == !NeverBarges(IDLE, 1, steps)
  }

  lemma OneMore(steps: seq<Step>, end: State, barged: bool, step: Step)
    requires FineRun(steps, end, barged) && Enabled(end, step) && Next(end, 1, step).inFlight <= 1
    ensures FineRun(steps + [step], Next(end, 1, step), barged || Barges(end, 1, step))
  {
    assert (steps + [step])[..|steps|] == steps;
  }

  /** Barging alone does no harm when the new call is gone before the woken one resumes. */
  lemma BargingCanBeHarmless()
    ensures Possible(IDLE, 1, HARMLESS) && CapHolds(IDLE, 1, HARMLESS) && !NeverBarges(IDLE, 1, HARMLESS)
  {
    hide Run, Possible, CapHolds, NeverBarges, FineRun, Next, Enabled, Barges;
    NothingRun();
    HarmlessSteps();
    BargingSteps();
    OneMore([], IDLE, false, Enter(0));
    assert [] + [Enter(0)] == [Enter(0)];
    OneMore([Enter(0)], PASSED_1, false, Enter(1));
    OneMore([Enter(0)] + [Enter(1)], PASSED_2, false, Release(0));
    OneMore([Enter(0)] + [Enter(1)] + [Release(0)], PASSED_3, false, Enter(2));
    OneMore([Enter(0)] + [Enter(1)] + [Release(0)] + [Enter(2)], PASSED_4, true, Release(2));
    OneMore([Enter(0)] + [Enter(1)] + [Release(0)] + [Enter(2)] + [Release(2)], PASSED_5, true, Resume(1));
    assert HARMLESS == [Enter(0)] + [Enter(1)] + [Release(0)] + [Enter(2)] + [Release(2)] + [Resume(1)];
  }

  lemma HarmlessSteps()
    ensures Enabled(IDLE, Enter(0)) && !Barges(IDLE, 1, Enter(0)) && Next(IDLE, 1, Enter(0)) == PASSED_1
    ensures Enabled(PASSED_1, Enter(1)) && !Barges(PASSED_1, 1, Enter(1)) && Next(PASSED_1, 1, Enter(1)) == PASSED_2
    ensures Enabled(PASSED_2, Release(0)) && !Barges(PASSED_2, 1, Release(0))
    ensures Next(PASSED_2, 1, Release(0)) == PASSED_3
  {
    assert [1][1..] == [];
  }

  lemma BargingSteps()
    ensures Enabled(PASSED_3, Enter(2)) && Barges(PASSED_3, 1, Enter(2)) && Next(PASSED_3, 1, Enter(2)) == PASSED_4
    ensures Enabled(PASSED_4, Release(2)) && Next(PASSED_4, 1, Release(2)) == PASSED_5
    ensures Enabled(PASSED_5, Resume(1)) && Next(PASSED_5, 1, Resume(1)) == PASSED_6
  {
  }

  lemma NothingRun()
    ensures FineRun([], IDLE, false)
  {
  }

  /** A full cap with `n` wake-ups outstanding and nobody queued; ids from `unused` on are new. */
  ghost predicate FullWith(s: State, max: nat, n: nat, unused: int) {
    Valid(s, max) && s.waiters == [] && |s.running| == max && |s.woken| == n && forall id | id in s.known :: id < unused
  }

  lemma EmptyRun(s: State, max: nat)
    ensures Run(s, max, []) == s && Possible(s, max, [])
  {
  }

  /** `k` calls running, none queued or woken; ids from `k` on are new. */
  ghost predicate FilledTo(s: State, max: nat, k: nat) {
    Valid(s, max) && s.waiters == [] && |s.running| == k && s.woken == {} && forall id | id in s.known :: id < k
  }

  lemma EnterFills(s: State, max: nat, k: nat)
    requires k < max && FilledTo(s, max, k)
    ensures Enabled(s, Enter(k)) && FilledTo(Next(s, max, Enter(k)), max, k + 1)
  {
    EnterKeepsValid(s, max, k);
    assert k !in s.known && k !in s.running;
  }

  lemma {:induction false} FillUp(max: nat, k: nat) returns (steps: seq<Step>)
    requires k <= max
    ensures Possible(IDLE, max, steps) && FilledTo(Run(IDLE, max, steps), max, k)
  {
    hide Run, Possible, Next, Enabled;
    if k == 0 {
      steps := [];
      EmptyRun(IDLE, max);
    } else {
      hide FilledTo;
      var below := FillUp(max, k - 1);
      EnterFills(Run(IDLE, max, below), max, k - 1);
      OneStep(Run(IDLE, max, below), max, Enter(k - 1));
      RunsCompose(IDLE, max, below, [Enter(k - 1)]);
      steps := below + [Enter(k - 1)];
    }
  }

  lemma ThreeSteps(s: State, max: nat, a: Step, b: Step, c: Step)
    requires Enabled(s, a) && Enabled(Next(s, max, a), b) && Enabled(Next(Next(s, max, a), max, b), c)
    ensures Possible(s, max, [a] + [b] + [c])
    ensures Run(s, max, [a] + [b] + [c]) == Next(Next(Next(s, max, a), max, b), max, c)
  {
    hide Next, Enabled, Possible, Run;
    OneStep(s, max, a);
    OneStep(Next(s, max, a), max, b);
    OneStep(Next(Next(s, max, a), max, b), max, c);
    RunsCompose(s, max, [a], [b]);
    RunsCompose(s, max, [a] + [b], [c]);
  }

  /** Queue one call, finish one call, let a new call in before the woken one resumes. */
  lemma BargeOnce(s: State, max: nat, n: nat, unused: int) returns (steps: seq<Step>)
    requires max > 0 && FullWith(s, max, n, unused)
    ensures Possible(s, max, steps) && FullWith(Run(s, max, steps), max, n + 1, unused + 2)
  {
    hide Run, Possible;
    var done := Pick(s.running);
    var s1 := Next(s, max, Enter(unused));
    var s2 := Next(s1, max, Release(done));
    EnterKeepsValid(s, max, unused);
    ReleaseKeepsValid(s1, max, done);
    EnterKeepsValid(s2, max, unused + 1);
    hide Valid, Tidy;
    assert unused !in s.known && s.woken <= s.known by { KnownOnes(s, max); }
    ThreeSteps(s, max, Enter(unused), Release(done), Enter(unused + 1));
    steps := [Enter(unused)] + [Release(done)] + [Enter(unused + 1)];
  }

  lemma KnownOnes(s: State, max: nat)
    requires Valid(s, max)
    ensures s.woken <= s.known && s.running <= s.known && s.inFlight == |s.running|
  {
  }

  lemma {:induction false} BargeOften(max: nat, n: nat) returns (steps: seq<Step>, unused: int)
    requires max > 0
    ensures Possible(IDLE, max, steps) && FullWith(Run(IDLE, max, steps), max, n, unused)
  {
    if n == 0 {
      steps := FillUp(max, max);
      unused := max;
    } else {
      var below, f := BargeOften(max, n - 1);
      var round := BargeOnce(Run(IDLE, max, below), max, n - 1, f);
      RunsCompose(IDLE, max, below, round);
      steps, unused := below + round, f + 2;
    }
  }

  /** Without that discipline no bound holds: for every `n` some run has `max + n` calls running at once. */
  lemma OvershootIsUnbounded(max: nat, n: nat) returns (steps: seq<Step>)
    requires max > 0
    ensures Possible(IDLE, max, steps) && Run(IDLE, max, steps).inFlight == max + n
  {
    var filled, unused := BargeOften(max, n);
    var rest := WokenCallsResume(Run(IDLE, max, filled), max);
    RunsCompose(IDLE, max, filled, rest);
    steps := filled + rest;
  }
}
